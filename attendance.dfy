/** The check-in/check-out state machine of the mark-in-out endpoint, stated as
    functions over one record and over the whole collection, and the two read-only
    lookups (QR verification and user status). */
module Attendance {
  import opened Records

  /** Why a known credential's transition was refused. */
  datatype Reason =
    | AlreadyIn    // "Already marked as in. Mark out before marking in again."
    | NotMarkedIn  // "Cannot mark out without marking in first."
    | AlreadyOut   // "Already marked out. Mark in before marking out again."

  /** What the endpoint answers: an unknown token, a refused transition, a
      performed transition, or an action that is neither "in" nor "out". */
  datatype Outcome = NotFound | Rejected(reason: Reason) | Success | InvalidAction

  datatype StepResult = StepResult(outcome: Outcome, record: Record)

  datatype StoreResult = StoreResult(outcome: Outcome, records: seq<Record>)

  /** The guards and updates applied to the matched record, in the order the
      handler tests them; `now` is the wall-clock time of the request.
      The contract is the transition table over the three states. */
  function Step(u: Record, action: string, now: int): (res: StepResult)
    // only the two times may change, and only on success
    ensures res.outcome != Success ==> res.record == u
    ensures res.record.name == u.name && res.record.registerNo == u.registerNo
    ensures res.record.token == u.token
    // "in": refused exactly in state IN; otherwise the record becomes IN at `now`
    ensures action == "in" ==>
              (res.outcome == Success <==> StatusOf(u) != CheckedIn)
    ensures action == "in" && StatusOf(u) == CheckedIn ==>
              res.outcome == Rejected(AlreadyIn)
    ensures action == "in" && StatusOf(u) != CheckedIn ==>
              StatusOf(res.record) == CheckedIn && res.record.inTime == Some(now)
    // "out": refused in N/A (tested first) and in OUT; from IN it keeps inTime
    ensures action == "out" && StatusOf(u) == NotAvailable ==>
              res.outcome == Rejected(NotMarkedIn)
    ensures action == "out" && StatusOf(u) == CheckedOut ==>
              res.outcome == Rejected(AlreadyOut)
    ensures action == "out" && StatusOf(u) == CheckedIn ==>
              res.outcome == Success && StatusOf(res.record) == CheckedOut &&
              res.record.inTime == u.inTime && res.record.outTime == Some(now)
    // anything else
    ensures action != "in" && action != "out" ==> res.outcome == InvalidAction
    // the consistency invariant is kept, and a success always lands in a consistent state
    ensures Consistent(u) ==> Consistent(res.record)
    ensures res.outcome == Success ==> Consistent(res.record)
  {
    if action == "in" then
      if u.inTime.Some? && u.outTime.None? then StepResult(Rejected(AlreadyIn), u)
      else StepResult(Success, u.(inTime := Some(now), outTime := None))
    else if action == "out" then
      if u.inTime.None? then StepResult(Rejected(NotMarkedIn), u)
      else if u.outTime.Some? then StepResult(Rejected(AlreadyOut), u)
      else StepResult(Success, u.(outTime := Some(now)))
    else StepResult(InvalidAction, u)
  }

  /** The whole request against the collection: look the token up, and apply
      the step to the first match only. */
  function Apply(records: seq<Record>, token: string, action: string, now: int): (res: StoreResult)
    ensures FindIndex(records, token).None? ==> res == StoreResult(NotFound, records)
    ensures res.outcome != Success ==> res.records == records
    ensures |res.records| == |records|
    ensures forall j :: 0 <= j < |records| && FindIndex(records, token) != Some(j) ==>
              res.records[j] == records[j]
    ensures forall j :: 0 <= j < |records| ==> res.records[j].token == records[j].token
    ensures AllConsistent(records) ==> AllConsistent(res.records)
  {
    match FindIndex(records, token)
    case None => StoreResult(NotFound, records)
    case Some(i) =>
      var st := Step(records[i], action, now);
      StoreResult(st.outcome, records[i := st.record])
  }

  /** The same request repeated at the times `nows`, one after the other. */
  function Replay(records: seq<Record>, token: string, action: string, nows: seq<int>): seq<Record>
    decreases |nows|
  {
    if nows == [] then records
    else Replay(Apply(records, token, action, nows[0]).records, token, action, nows[1..])
  }

  /** What the verification endpoint reports for a matched credential. */
  datatype Identity = Identity(name: string, registerNo: string)

  /** The verification endpoint, after the credential image has been decoded to `token`. */
  function VerifyQr(records: seq<Record>, token: string): (r: Option<Identity>)
    ensures r.None? <==> forall j :: 0 <= j < |records| ==> records[j].token != token
    ensures r.Some? ==>
              exists i :: 0 <= i < |records| && records[i].token == token &&
                (forall j :: 0 <= j < i ==> records[j].token != token) &&
                r.value == Identity(records[i].name, records[i].registerNo)
  {
    match FindIndex(records, token)
    case None => None
    case Some(i) => Some(Identity(records[i].name, records[i].registerNo))
  }

  /** What the user endpoint reports for a matched token. */
  datatype UserView = UserView(
    name: string,
    registerNo: string,
    status: string,
    inTime: Option<int>,
    outTime: Option<int>)

  /** The user endpoint: the first match's identity, its times and its status text. */
  function GetUser(records: seq<Record>, token: string): (r: Option<UserView>)
    ensures r.None? <==> forall j :: 0 <= j < |records| ==> records[j].token != token
    ensures r.Some? ==>
              exists i :: 0 <= i < |records| && records[i].token == token &&
                (forall j :: 0 <= j < i ==> records[j].token != token) &&
                r.value.name == records[i].name && r.value.registerNo == records[i].registerNo &&
                r.value.inTime == records[i].inTime && r.value.outTime == records[i].outTime
    ensures r.Some? ==> (r.value.status == "N/A" <==> r.value.inTime.None?)
    ensures r.Some? ==> (r.value.status == "IN" <==> r.value.inTime.Some? && r.value.outTime.None?)
    ensures r.Some? ==> (r.value.status == "OUT" <==> r.value.inTime.Some? && r.value.outTime.Some?)
  {
    match FindIndex(records, token)
    case None => None
    case Some(i) =>
      var u := records[i];
      Some(UserView(u.name, u.registerNo, Label(StatusOf(u)), u.inTime, u.outTime))
  }

  /** Whether a step is refused does not depend on the time of the request. */
  lemma OutcomeIgnoresTime(records: seq<Record>, token: string, action: string, t1: int, t2: int)
    ensures Apply(records, token, action, t1).outcome == Apply(records, token, action, t2).outcome
  {
  }

  /** Repeating a refused request any number of times, at any times, never
      changes the collection. */
  lemma {:induction false} RejectionIsStable(records: seq<Record>, token: string, action: string,
                                             now: int, nows: seq<int>)
    requires Apply(records, token, action, now).outcome != Success
    ensures Replay(records, token, action, nows) == records
    decreases |nows|
  {
    if nows != [] {
      OutcomeIgnoresTime(records, token, action, now, nows[0]);
      assert Apply(records, token, action, nows[0]).records == records;
      RejectionIsStable(records, token, action, now, nows[1..]);
    }
  }

  /** A request for a known token applies the step to the first match, and a
      later lookup of the same token still finds that record. */
  lemma ApplyFound(records: seq<Record>, token: string, action: string, now: int)
    requires FindIndex(records, token).Some?
    ensures var i := FindIndex(records, token).value;
            var st := Step(records[i], action, now);
            var res := Apply(records, token, action, now);
            res.outcome == st.outcome && res.records[i] == st.record &&
            FindIndex(res.records, token) == Some(i)
  {
    var i := FindIndex(records, token).value;
    FindIndexAfterUpdate(records, i, Step(records[i], action, now).record, token);
  }

  /** Checking in, out and in again succeeds at every step from any state but IN,
      and leaves the record checked in at the last time with no check-out time. */
  lemma InOutIn(records: seq<Record>, token: string, t1: int, t2: int, t3: int)
    requires FindIndex(records, token).Some?
    requires StatusOf(records[FindIndex(records, token).value]) != CheckedIn
    ensures var r1 := Apply(records, token, "in", t1);
            var r2 := Apply(r1.records, token, "out", t2);
            var r3 := Apply(r2.records, token, "in", t3);
            var i := FindIndex(records, token).value;
            r1.outcome == Success && r2.outcome == Success && r3.outcome == Success &&
            r3.records == records[i := records[i].(inTime := Some(t3), outTime := None)] &&
            StatusOf(r3.records[i]) == CheckedIn
  {
    var i := FindIndex(records, token).value;
    var r1 := Apply(records, token, "in", t1);
    ApplyFound(records, token, "in", t1);
    var r2 := Apply(r1.records, token, "out", t2);
    ApplyFound(r1.records, token, "out", t2);
    ApplyFound(r2.records, token, "in", t3);
    assert r2.records == records[i := r2.records[i]];
  }

  /** After a successful request the user endpoint reports the new state: IN
      with the request's time as check-in time after "in", OUT with it as
      check-out time after "out". A refused request changes no report. */
  lemma ReportAfterRequest(records: seq<Record>, token: string, action: string, now: int)
    ensures var res := Apply(records, token, action, now);
            res.outcome != Success ==> GetUser(res.records, token) == GetUser(records, token)
    ensures var res := Apply(records, token, action, now);
            var view := GetUser(res.records, token);
            res.outcome == Success ==>
              view.Some? &&
              (action == "in" ==> view.value.status == "IN" && view.value.inTime == Some(now)) &&
              (action == "out" ==> view.value.status == "OUT" && view.value.outTime == Some(now))
  {
    if FindIndex(records, token).Some? {
      ApplyFound(records, token, action, now);
    }
  }

  /** With a clock that does not run backwards the check-out time of a record
      never precedes its check-in time. */
  lemma StepKeepsChronological(u: Record, action: string, now: int)
    requires Chronological(u)
    requires u.inTime.Some? ==> u.inTime.value <= now
    ensures Chronological(Step(u, action, now).record)
  {
  }
}
