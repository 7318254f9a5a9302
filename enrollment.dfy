/** Enrollment: every roster row becomes one new record whose token is the
    digest of the name followed directly by the register number. The digest
    (SHA-256 in hex) is the argument `hash`, about which nothing is assumed. */
module Enrollment {
  import opened Records
  import opened Attendance
  import opened Store

  /** One roster row. */
  datatype Row = Row(name: string, registerNo: string)

  /** The token of a row: the digest of the two fields concatenated with no separator. */
  function Token(hash: string -> string, name: string, registerNo: string): string
  {
    hash(name + registerNo)
  }

  /** The document inserted for a row. */
  function NewRecord(hash: string -> string, row: Row): Record
  {
    Record(row.name, row.registerNo, Token(hash, row.name, row.registerNo), None, None)
  }

  /** The documents inserted for a roster, in row order. */
  function Enrolled(hash: string -> string, rows: seq<Row>): (r: seq<Record>)
    ensures |r| == |rows|
  {
    seq(|rows|, k requires 0 <= k < |rows| => NewRecord(hash, rows[k]))
  }

  /** Row `k` yields record `k`: its name and register number copied, its token
      the digest of their concatenation, and both times null. */
  lemma EnrolledAt(hash: string -> string, rows: seq<Row>, k: nat)
    requires k < |rows|
    ensures Enrolled(hash, rows)[k] == NewRecord(hash, rows[k])
    ensures var r := Enrolled(hash, rows)[k];
            r.name == rows[k].name && r.registerNo == rows[k].registerNo &&
            r.token == hash(rows[k].name + rows[k].registerNo) &&
            r.inTime.None? && r.outTime.None?
  {
  }

  /** The enrollment loop: one `insertOne` per row, with no duplicate and no
      empty-field check. */
  method StoreData(c: Collection, rows: seq<Row>, hash: string -> string)
    modifies c
    ensures c.records == old(c.records) + Enrolled(hash, rows)
  {
    ghost var before := c.records;
    for k := 0 to |rows|
      invariant |c.records| == |before| + k
      invariant c.records[..|before|] == before
      invariant forall m :: 0 <= m < k ==> c.records[|before| + m] == NewRecord(hash, rows[m])
    {
      var entry := rows[k];
      var hashedData := hash(entry.name + entry.registerNo);
      c.InsertOne(Record(entry.name, entry.registerNo, hashedData, None, None));
    }
    forall m | 0 <= m < |rows| ensures Enrolled(hash, rows)[m] == NewRecord(hash, rows[m]) {
      EnrolledAt(hash, rows, m);
    }
    assert c.records == before + Enrolled(hash, rows);
  }

  /** Enrollment only appends: the old records stay where they were, unchanged. */
  lemma EnrollmentAppends(hash: string -> string, records: seq<Record>, rows: seq<Row>)
    ensures var after := records + Enrolled(hash, rows);
            |after| == |records| + |rows| &&
            after[..|records|] == records &&
            forall k :: 0 <= k < |rows| ==> after[|records| + k] == NewRecord(hash, rows[k])
  {
    forall k | 0 <= k < |rows|
      ensures (records + Enrolled(hash, rows))[|records| + k] == NewRecord(hash, rows[k])
    {
      RecordAt(hash, records, rows, |records| + k);
    }
  }

  /** Fresh records are in the N/A state and keep the consistency invariant. */
  lemma EnrolledAreUnchecked(hash: string -> string, records: seq<Record>, rows: seq<Row>)
    requires AllConsistent(records)
    ensures AllConsistent(records + Enrolled(hash, rows))
    ensures forall k :: 0 <= k < |rows| ==>
              StatusOf(Enrolled(hash, rows)[k]) == NotAvailable
  {
    var after := records + Enrolled(hash, rows);
    forall j | 0 <= j < |after| ensures Consistent(after[j]) {
      RecordAt(hash, records, rows, j);
    }
    forall k | 0 <= k < |rows| ensures StatusOf(Enrolled(hash, rows)[k]) == NotAvailable {
      EnrolledAt(hash, rows, k);
    }
  }

  /** The token depends on nothing but the concatenation of the two fields. */
  lemma TokenOfConcatenation(hash: string -> string, n1: string, r1: string, n2: string, r2: string)
    requires n1 + r1 == n2 + r2
    ensures Token(hash, n1, r1) == Token(hash, n2, r2)
  {
  }

  /** Without a separator the rows ("Al", "ice1") and ("Alice", "1") get the same
      token, whatever the digest. */
  lemma BoundaryCollision(hash: string -> string)
    ensures Token(hash, "Al", "ice1") == Token(hash, "Alice", "1")
  {
    assert "Al" + "ice1" == "Alice" + "1";
  }

  /** A record of the enlarged collection: an old record, or the one made from its row. */
  lemma RecordAt(hash: string -> string, records: seq<Record>, rows: seq<Row>, j: nat)
    requires j < |records| + |rows|
    ensures (records + Enrolled(hash, rows))[j] ==
              if j < |records| then records[j] else NewRecord(hash, rows[j - |records|])
  {
    if j >= |records| { EnrolledAt(hash, rows, j - |records|); }
  }

  /** The token a record of the enlarged collection holds: an old record's own,
      or the token of the row it was made from. */
  lemma TokenAt(hash: string -> string, records: seq<Record>, rows: seq<Row>, j: nat)
    requires j < |records| + |rows|
    ensures var after := records + Enrolled(hash, rows);
            after[j].token == if j < |records| then records[j].token
                              else Token(hash, rows[j - |records|].name, rows[j - |records|].registerNo)
  {
    RecordAt(hash, records, rows, j);
  }

  /** No record before row `k`'s own, old or newly enrolled, holds that row's token. */
  predicate FirstWithToken(hash: string -> string, records: seq<Record>, rows: seq<Row>, k: nat)
    requires k < |rows|
  {
    var t := Token(hash, rows[k].name, rows[k].registerNo);
    (forall j :: 0 <= j < |records| ==> records[j].token != t) &&
    (forall m :: 0 <= m < k ==> Token(hash, rows[m].name, rows[m].registerNo) != t)
  }

  /** An enrolled row's token is always found, at that row's record or at an
      earlier one; it is found at its own record exactly when no earlier record
      and no earlier row has the same token. */
  lemma EnrolledTokenFound(hash: string -> string, records: seq<Record>, rows: seq<Row>, k: nat)
    requires k < |rows|
    ensures var after := records + Enrolled(hash, rows);
            var t := Token(hash, rows[k].name, rows[k].registerNo);
            FindIndex(after, t).Some? && FindIndex(after, t).value <= |records| + k
    ensures var after := records + Enrolled(hash, rows);
            var t := Token(hash, rows[k].name, rows[k].registerNo);
            FindIndex(after, t) == Some(|records| + k) <==> FirstWithToken(hash, records, rows, k)
  {
    var n := |records|;
    var t := Token(hash, rows[k].name, rows[k].registerNo);
    TokenAt(hash, records, rows, n + k);
    FindIndexAtOrBefore(records + Enrolled(hash, rows), t, n + k);
    if FirstWithToken(hash, records, rows, k) {
      FirstWithTokenIsFound(hash, records, rows, k);
    } else {
      EarlierHolder(hash, records, rows, k);
    }
  }

  /** Otherwise a record before row `k`'s own holds its token, and is found first. */
  lemma EarlierHolder(hash: string -> string, records: seq<Record>, rows: seq<Row>, k: nat)
    requires k < |rows| && !FirstWithToken(hash, records, rows, k)
    ensures FindIndex(records + Enrolled(hash, rows), Token(hash, rows[k].name, rows[k].registerNo))
              != Some(|records| + k)
  {
    var n := |records|;
    var t := Token(hash, rows[k].name, rows[k].registerNo);
    if exists j :: 0 <= j < n && records[j].token == t {
      var j :| 0 <= j < n && records[j].token == t;
      HolderShadows(hash, records, rows, k, j);
    } else {
      var m :| 0 <= m < k && Token(hash, rows[m].name, rows[m].registerNo) == t;
      HolderShadows(hash, records, rows, k, n + m);
    }
  }

  /** A holder of row `k`'s token placed before row `k`'s own record is found instead of it. */
  lemma HolderShadows(hash: string -> string, records: seq<Record>, rows: seq<Row>, k: nat, p: nat)
    requires k < |rows| && p < |records| + k
    requires (if p < |records| then records[p].token
              else Token(hash, rows[p - |records|].name, rows[p - |records|].registerNo))
             == Token(hash, rows[k].name, rows[k].registerNo)
    ensures FindIndex(records + Enrolled(hash, rows), Token(hash, rows[k].name, rows[k].registerNo))
              != Some(|records| + k)
  {
    TokenAt(hash, records, rows, p);
    FindIndexAtOrBefore(records + Enrolled(hash, rows), Token(hash, rows[k].name, rows[k].registerNo), p);
  }

  /** A row whose token nothing before it holds is found at its own record. */
  lemma FirstWithTokenIsFound(hash: string -> string, records: seq<Record>, rows: seq<Row>, k: nat)
    requires k < |rows| && FirstWithToken(hash, records, rows, k)
    ensures FindIndex(records + Enrolled(hash, rows), Token(hash, rows[k].name, rows[k].registerNo))
              == Some(|records| + k)
  {
    var t := Token(hash, rows[k].name, rows[k].registerNo);
    NoEarlierHolder(hash, records, rows, k);
    TokenAt(hash, records, rows, |records| + k);
    FindIndexIsFirstMatch(records + Enrolled(hash, rows), t, |records| + k);
  }

  /** Under FirstWithToken, no record before row `k`'s own holds its token. */
  lemma NoEarlierHolder(hash: string -> string, records: seq<Record>, rows: seq<Row>, k: nat)
    requires k < |rows| && FirstWithToken(hash, records, rows, k)
    ensures forall j :: 0 <= j < |records| + k ==>
              (records + Enrolled(hash, rows))[j].token != Token(hash, rows[k].name, rows[k].registerNo)
  {
    var n := |records|;
    var t := Token(hash, rows[k].name, rows[k].registerNo);
    forall j | 0 <= j < n + k
      ensures (records + Enrolled(hash, rows))[j].token != t
    {
      TokenAt(hash, records, rows, j);
      if j >= n {
        var m := j - n;
        assert Token(hash, rows[m].name, rows[m].registerNo) != t;
      }
    }
  }

  /** Enrolling ("Al", "ice1") and then ("Alice", "1") into a collection: the
      second person's credential never resolves to the second person's record,
      and when no older record holds that token it resolves to the first person's. */
  lemma CollidingRowIsShadowed(hash: string -> string, records: seq<Record>)
    ensures var after := records + Enrolled(hash, [Row("Al", "ice1"), Row("Alice", "1")]);
            FindIndex(after, Token(hash, "Alice", "1")) != Some(|records| + 1)
    ensures var after := records + Enrolled(hash, [Row("Al", "ice1"), Row("Alice", "1")]);
            (forall j :: 0 <= j < |records| ==> records[j].token != Token(hash, "Alice", "1")) ==>
              FindIndex(after, Token(hash, "Alice", "1")) == Some(|records|)
  {
    var rows := [Row("Al", "ice1"), Row("Alice", "1")];
    BoundaryCollision(hash);
    assert Token(hash, rows[0].name, rows[0].registerNo) == Token(hash, rows[1].name, rows[1].registerNo);
    HolderShadows(hash, records, rows, 1, |records|);
    EnrolledTokenFound(hash, records, rows, 0);
  }

  /** The same row enrolled twice yields two records, and only the first is ever found. */
  lemma DuplicateRowIsShadowed(hash: string -> string, records: seq<Record>, row: Row)
    ensures var after := records + Enrolled(hash, [row, row]);
            |after| == |records| + 2 &&
            after[|records|] == after[|records| + 1] &&
            FindIndex(after, Token(hash, row.name, row.registerNo)) != Some(|records| + 1)
  {
    RecordAt(hash, records, [row, row], |records|);
    RecordAt(hash, records, [row, row], |records| + 1);
    HolderShadows(hash, records, [row, row], 1, |records|);
  }

  /** The attendance scenario for one person enrolled into an empty collection. */
  lemma AliceScenario(hash: string -> string, t0: int, t1: int, t2: int, t3: int)
    ensures var s0 := Enrolled(hash, [Row("Alice", "R1")]);
            var tok := Token(hash, "Alice", "R1");
            var a := Apply(s0, tok, "in", t0);
            var b := Apply(a.records, tok, "in", t1);
            var c := Apply(b.records, tok, "out", t2);
            var d := Apply(c.records, tok, "out", t3);
            GetUser(s0, tok) == Some(UserView("Alice", "R1", "N/A", None, None)) &&
            a.outcome == Success &&
            GetUser(a.records, tok) == Some(UserView("Alice", "R1", "IN", Some(t0), None)) &&
            b.outcome == Rejected(AlreadyIn) && b.records == a.records &&
            c.outcome == Success &&
            GetUser(c.records, tok) == Some(UserView("Alice", "R1", "OUT", Some(t0), Some(t2))) &&
            d.outcome == Rejected(AlreadyOut) && d.records == c.records
  {
    var s0 := Enrolled(hash, [Row("Alice", "R1")]);
    assert s0 == [Record("Alice", "R1", hash("Alice" + "R1"), None, None)];
  }

  /** A token that no record holds is unknown to both lookups and to the handler. */
  lemma UnknownTokenScenario(hash: string -> string, records: seq<Record>, rows: seq<Row>,
                             token: string, action: string, now: int)
    requires forall j :: 0 <= j < |records| ==> records[j].token != token
    requires forall k :: 0 <= k < |rows| ==> Token(hash, rows[k].name, rows[k].registerNo) != token
    ensures var after := records + Enrolled(hash, rows);
            VerifyQr(after, token).None? && GetUser(after, token).None? &&
            Apply(after, token, action, now) == StoreResult(NotFound, after)
  {
  }
}
