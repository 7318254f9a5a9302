/** The `userData` collection as an object whose list of documents the
    enrollment and the mark-in-out handler change in place. */
module Store {
  import opened Records
  import opened Attendance

  class Collection {
    var records: seq<Record>

    constructor ()
      ensures records == []
    {
      records := [];
    }

    /** `insertOne`: the document goes to the end of the collection. */
    method InsertOne(r: Record)
      modifies this
      ensures records == old(records) + [r]
    {
      records := records + [r];
    }

    /** The mark-in-out handler: find the first record holding `token`, then
        either refuse or rewrite that record's times with `now`. */
    method MarkInOut(token: string, action: string, now: int) returns (o: Outcome)
      modifies this
      ensures StoreResult(o, records) == Apply(old(records), token, action, now)
      ensures o != Success ==> records == old(records)
      ensures |records| == |old(records)|
      ensures old(AllConsistent(records)) ==> AllConsistent(records)
    {
      var found := FindIndex(records, token);
      if found.None? {
        return NotFound;
      }
      var i := found.value;
      var user := records[i];
      if action == "in" {
        if user.inTime.Some? && user.outTime.None? {
          return Rejected(AlreadyIn);
        }
        records := records[i := user.(inTime := Some(now), outTime := None)];
        return Success;
      }
      if action == "out" {
        if user.inTime.None? {
          return Rejected(NotMarkedIn);
        }
        if user.outTime.Some? {
          return Rejected(AlreadyOut);
        }
        records := records[i := user.(outTime := Some(now))];
        return Success;
      }
      return InvalidAction;
    }
  }
}
