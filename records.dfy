/** The person records of the attendance collection, the status derived from
    their two nullable timestamps, and the lookup of a record by its token. */
module Records {

  datatype Option<+T> = None | Some(value: T)

  /** One document of the collection: the identity fields copied from the roster,
      the token that is the credential's payload (stored as `hashedData`), and the
      check-in and check-out times, each null until set. Times are integers. */
  datatype Record = Record(
    name: string,
    registerNo: string,
    token: string,
    inTime: Option<int>,
    outTime: Option<int>)

  /** The status reported for a record: "IN", "OUT" or "N/A". */
  datatype Status = CheckedIn | CheckedOut | NotAvailable

  /** The status expression of the user lookup: a record without a check-in time is
      "N/A" whatever its check-out time; otherwise the check-out time decides. */
  function StatusOf(u: Record): (s: Status)
    ensures s == NotAvailable <==> u.inTime.None?
    ensures s == CheckedIn <==> u.inTime.Some? && u.outTime.None?
    ensures s == CheckedOut <==> u.inTime.Some? && u.outTime.Some?
  {
    if u.inTime.Some? then (if u.outTime.Some? then CheckedOut else CheckedIn)
    else NotAvailable
  }

  /** The text that is sent for a status. */
  function Label(s: Status): (r: string)
    ensures r == "N/A" <==> s == NotAvailable
    ensures r == "IN" <==> s == CheckedIn
    ensures r == "OUT" <==> s == CheckedOut
  {
    match s
    case CheckedIn => "IN"
    case CheckedOut => "OUT"
    case NotAvailable => "N/A"
  }

  /** A record never has a check-out time without a check-in time. */
  predicate Consistent(u: Record)
  {
    u.outTime.Some? ==> u.inTime.Some?
  }

  /** Every record of a collection is consistent. */
  predicate AllConsistent(records: seq<Record>)
  {
    forall j :: 0 <= j < |records| ==> Consistent(records[j])
  }

  /** A check-out time, when set, is not earlier than the check-in time. */
  predicate Chronological(u: Record)
  {
    u.outTime.Some? ==> u.inTime.Some? && u.inTime.value <= u.outTime.value
  }

  /** `findOne({ hashedData: token })`: the position of the first record, in
      collection order, whose token equals the query, or None when there is none. */
  function FindIndex(records: seq<Record>, token: string): (r: Option<nat>)
    ensures r.Some? ==> r.value < |records| && records[r.value].token == token
    ensures r.Some? ==> forall j :: 0 <= j < r.value ==> records[j].token != token
    ensures r.None? <==> forall j :: 0 <= j < |records| ==> records[j].token != token
  {
    FindFrom(records, token, 0)
  }

  /** The scan behind FindIndex, from position `i` on. */
  function FindFrom(records: seq<Record>, token: string, i: nat): (r: Option<nat>)
    requires i <= |records|
    ensures r.Some? ==> i <= r.value < |records| && records[r.value].token == token
    ensures r.Some? ==> forall j :: i <= j < r.value ==> records[j].token != token
    ensures r.None? <==> forall j :: i <= j < |records| ==> records[j].token != token
    decreases |records| - i
  {
    if i == |records| then None
    else if records[i].token == token then Some(i)
    else FindFrom(records, token, i + 1)
  }

  /** The two halves of the contract of FindIndex fix its result: any position
      that holds the token and has no earlier holder is the one FindIndex finds. */
  lemma FindIndexIsFirstMatch(records: seq<Record>, token: string, i: nat)
    requires i < |records| && records[i].token == token
    requires forall j :: 0 <= j < i ==> records[j].token != token
    ensures FindIndex(records, token) == Some(i)
  {
    assert FindIndex(records, token).Some?;
  }

  /** A record holding the token guarantees a match at or before it. */
  lemma FindIndexAtOrBefore(records: seq<Record>, token: string, p: nat)
    requires p < |records| && records[p].token == token
    ensures FindIndex(records, token).Some? && FindIndex(records, token).value <= p
  {
  }

  /** Lookup only looks at tokens: two collections of the same length whose tokens
      agree position by position answer every query alike. */
  lemma FindIndexDependsOnTokens(a: seq<Record>, b: seq<Record>, token: string)
    requires |a| == |b|
    requires forall j :: 0 <= j < |a| ==> a[j].token == b[j].token
    ensures FindIndex(a, token) == FindIndex(b, token)
  {
    match FindIndex(a, token)
    case None =>
      assert forall j :: 0 <= j < |b| ==> b[j].token != token by {
        forall j | 0 <= j < |b| ensures b[j].token != token {
          assert a[j].token != token;
        }
      }
    case Some(i) =>
      FindIndexIsFirstMatch(b, token, i);
  }

  /** Replacing one record by one with the same token leaves every lookup as it was. */
  lemma FindIndexAfterUpdate(records: seq<Record>, i: nat, u: Record, token: string)
    requires i < |records| && u.token == records[i].token
    ensures FindIndex(records[i := u], token) == FindIndex(records, token)
  {
    FindIndexDependsOnTokens(records[i := u], records, token);
  }

  /** Appending records never changes what an earlier match returns, and a query
      with no match among the old records is answered from the appended ones. */
  lemma FindIndexAfterAppend(records: seq<Record>, more: seq<Record>, token: string)
    ensures FindIndex(records, token).Some? ==>
              FindIndex(records + more, token) == FindIndex(records, token)
    ensures FindIndex(records, token).None? ==>
              match FindIndex(more, token)
              case None => FindIndex(records + more, token).None?
              case Some(k) => FindIndex(records + more, token) == Some(|records| + k)
  {
    var all := records + more;
    match FindIndex(records, token)
    case Some(i) =>
      FindIndexIsFirstMatch(all, token, i);
    case None =>
      match FindIndex(more, token)
      case None =>
        forall j | 0 <= j < |all| ensures all[j].token != token {
          if j >= |records| { assert all[j] == more[j - |records|]; }
        }
      case Some(k) =>
        forall j | 0 <= j < |records| + k ensures all[j].token != token {
          if j >= |records| { assert all[j] == more[j - |records|]; }
        }
        FindIndexIsFirstMatch(all, token, |records| + k);
  }
}
