/**
 Which is the newest record of a key?  All comparisons of the program are strict, so the record seen first wins a tie.
 `Scan` is that left-to-right search; `IsNewest` is the order-free reading of it.
 */
module Records {
  import opened Basics

  datatype Record = Record(timestamp: uint64, key: uint16, value: Text)

  /** The step of every scan loop: a record replaces the best one only if strictly newer. */
  function Newer(best: Option<Record>, r: Record): Option<Record> {
    if best.None? || best.value.timestamp < r.timestamp then Some(r) else best
  }

  function Pick(x: Option<Record>, y: Option<Record>): Option<Record> {
    if y.None? then x else Newer(x, y.value)
  }

  function Scan(rs: seq<Record>, k: uint16): Option<Record> {
    if rs == [] then None
    else
      var best, r := Scan(rs[..|rs| - 1], k), rs[|rs| - 1];
      if r.key == k then Newer(best, r) else best
  }

  ghost function SetOf(rs: seq<Record>): set<Record> {
    set r | r in rs
  }

  ghost predicate IsNewest(S: set<Record>, k: uint16, o: Option<Record>) {
    match o
    case None => forall r {:trigger r in S} :: r in S ==> r.key != k
    case Some(m) =>
      m in S && m.key == k && forall r {:trigger r in S} :: r in S && r.key == k ==> r.timestamp <= m.timestamp
  }

  /** Two records of a key with the same timestamp are the same record. */
  ghost predicate Consistent(S: set<Record>) {
    forall a, b :: a in S && b in S && a.key == b.key && a.timestamp == b.timestamp ==> a == b
  }

  ghost predicate Covers(a: Record, b: Record) {
    a.key == b.key && b.timestamp <= a.timestamp
  }

  ghost predicate HasCover(A: set<Record>, b: Record) {
    exists a :: a in A && Covers(a, b)
  }

  /** A keeps, for every record of B, one of the same key that is at least as new. */
  ghost predicate Dominates(A: set<Record>, B: set<Record>) {
    forall b {:trigger HasCover(A, b)} :: b in B ==> HasCover(A, b)
  }

  /** What a dump or a compaction may turn B into: fewer records, none of them invented, none of the newest lost. */
  ghost predicate Condenses(A: set<Record>, B: set<Record>) {
    A <= B && Dominates(A, B)
  }

  // ---- the scan finds the first of the newest records ----

  ghost predicate FirstNewest(rs: seq<Record>, k: uint16, i: nat)
    requires i < |rs|
  {
    && rs[i].key == k
    && (forall j :: 0 <= j < i && rs[j].key == k ==> rs[j].timestamp < rs[i].timestamp)
    && (forall j :: i < j < |rs| && rs[j].key == k ==> rs[j].timestamp <= rs[i].timestamp)
  }

  lemma {:induction false} ScanFindsFirstNewest(rs: seq<Record>, k: uint16) returns (i: nat)
    ensures Scan(rs, k) == None <==> forall j :: 0 <= j < |rs| ==> rs[j].key != k
    ensures Scan(rs, k) != None ==> i < |rs| && FirstNewest(rs, k, i) && Scan(rs, k) == Some(rs[i])
  {
    if rs == [] {
      i := 0;
    } else {
      var n := |rs| - 1;
      i := ScanFindsFirstNewest(rs[..n], k);
      if rs[n].key == k && (Scan(rs[..n], k).None? || rs[i].timestamp < rs[n].timestamp) {
        i := n;
      }
    }
  }

  /** An index with the properties of the first newest one is the one the scan stops at. */
  lemma {:induction false} ScanIsFirstNewest(rs: seq<Record>, k: uint16, o: Option<Record>)
    ensures Scan(rs, k) == o <==>
            (match o
             case None => forall j :: 0 <= j < |rs| ==> rs[j].key != k
             case Some(r) => exists i :: 0 <= i < |rs| && FirstNewest(rs, k, i) && rs[i] == r)
  {
    var i := ScanFindsFirstNewest(rs, k);
    if o.Some? && exists j :: 0 <= j < |rs| && FirstNewest(rs, k, j) && rs[j] == o.value {
      var j :| 0 <= j < |rs| && FirstNewest(rs, k, j) && rs[j] == o.value;
      assert rs[i].key == k && rs[j].key == k;
      assert i == j;
    }
  }

  lemma ScanIsNewest(rs: seq<Record>, k: uint16)
    ensures IsNewest(SetOf(rs), k, Scan(rs, k))
  {
    var i := ScanFindsFirstNewest(rs, k);
    if Scan(rs, k).Some? {
      forall r | r in SetOf(rs) && r.key == k ensures r.timestamp <= rs[i].timestamp {
        var j :| 0 <= j < |rs| && rs[j] == r;
      }
    }
  }

  // ---- Pick makes scans compose ----

  /** Scanning two runs of records and keeping the better result is scanning them one after the other. */
  lemma {:induction false} ScanConcat(a: seq<Record>, b: seq<Record>, k: uint16)
    ensures Scan(a + b, k) == Pick(Scan(a, k), Scan(b, k))
  {
    if b == [] {
      assert a + b == a;
    } else {
      var n := |b| - 1;
      assert (a + b)[..|a + b| - 1] == a + b[..n];
      ScanConcat(a, b[..n], k);
    }
  }

  lemma PickIsNewest(A: set<Record>, x: Option<Record>, B: set<Record>, y: Option<Record>, k: uint16)
    requires IsNewest(A, k, x) && IsNewest(B, k, y)
    ensures IsNewest(A + B, k, Pick(x, y))
  {
  }

  // ---- newest records of sets ----

  lemma NewestExists(S: set<Record>, k: uint16) returns (o: Option<Record>)
    ensures IsNewest(S, k, o)
  {
    o := None;
    var done: set<Record> := {};
    while done != S
      invariant done <= S && IsNewest(done, k, o)
      decreases S - done
    {
      assert !(S <= done);
      var r :| r in S && r !in done;
      if r.key == k {
        o := Newer(o, r);
      }
      done := done + {r};
    }
  }

  /** The newest timestamp of a key, whatever order the records are visited in. */
  ghost function NewestTimestamp(S: set<Record>, k: uint16): (t: Option<uint64>)
    ensures t.None? ==> IsNewest(S, k, None)
    ensures t.Some? ==> exists r :: IsNewest(S, k, Some(r)) && r.timestamp == t.value
  {
    assert exists o :: IsNewest(S, k, o) by { var o := NewestExists(S, k); }
    var o :| IsNewest(S, k, o);
    if o.None? then None else Some(o.value.timestamp)
  }

  /** The timestamp order with "no record" below every timestamp. */
  predicate AtMost(x: Option<uint64>, y: Option<uint64>) {
    x.Some? ==> y.Some? && x.value <= y.value
  }

  // ---- condensing keeps the newest ----

  lemma CondensedNewest(A: set<Record>, B: set<Record>, k: uint16, o: Option<Record>)
    requires Condenses(A, B) && IsNewest(A, k, o)
    ensures IsNewest(B, k, o)
  {
    forall b | b in B && b.key == k ensures o.Some? && b.timestamp <= o.value.timestamp {
      assert HasCover(A, b);
    }
  }

  lemma CondensedTimestamp(A: set<Record>, B: set<Record>, k: uint16)
    requires Condenses(A, B)
    ensures NewestTimestamp(A, k) == NewestTimestamp(B, k)
  {
    var o := NewestExists(A, k);
    CondensedNewest(A, B, k, o);
  }

  lemma CondensesUnion(A: set<Record>, B: set<Record>, C: set<Record>)
    requires Condenses(A, B)
    ensures Condenses(A + C, B + C)
  {
    forall b | b in B + C ensures HasCover(A + C, b) {
      if b in B {
        assert HasCover(A, b);
      } else {
        assert Covers(b, b);
      }
    }
  }

  lemma CondensesTrans(A: set<Record>, B: set<Record>, C: set<Record>)
    requires Condenses(A, B) && Condenses(B, C)
    ensures Condenses(A, C)
  {
    forall c | c in C ensures HasCover(A, c) {
      assert HasCover(B, c);
      var b :| b in B && Covers(b, c);
      assert HasCover(A, b);
    }
  }

  // ---- losing records ----

  /** Every record of k in B has a record in A at least as new. */
  ghost predicate CoversKey(A: set<Record>, B: set<Record>, k: uint16) {
    forall b {:trigger HasCover(A, b)} :: b in B && b.key == k ==> HasCover(A, b)
  }

  lemma CoveredNewest(A: set<Record>, B: set<Record>, k: uint16, o: Option<Record>)
    requires CoversKey(A, B, k) && IsNewest(A, k, o)
    ensures IsNewest(A + B, k, o)
  {
    forall b | b in B && b.key == k ensures o.Some? && b.timestamp <= o.value.timestamp {
      assert HasCover(A, b);
    }
  }

  /** Forgetting B changes the newest timestamp of k exactly when B has a record of k newer than all of A. */
  lemma LossIff(A: set<Record>, B: set<Record>, k: uint16)
    ensures NewestTimestamp(A, k) == NewestTimestamp(A + B, k) <==> CoversKey(A, B, k)
  {
    var a := NewestExists(A, k);
    if CoversKey(A, B, k) {
      CoveredNewest(A, B, k, a);
    } else {
      var b :| b in B && b.key == k && !HasCover(A, b);
      var o := NewestExists(A + B, k);
      assert b in A + B;
      assert a.Some? ==> a.value in A && a.value.key == k && !Covers(a.value, b);
    }
  }

  // ---- the scan loops of the program ----

  /** One pass over the records of a table held in memory, keeping a pointer to the newest so far. */
  method ScanRecords(rs: seq<Record>, k: uint16) returns (newest: Option<Record>)
    ensures newest == Scan(rs, k)
    ensures IsNewest(SetOf(rs), k, newest)
  {
    newest := None;
    var newestTimestamp: uint64 := 0;
    for i := 0 to |rs|
      invariant newest == Scan(rs[..i], k)
      invariant newest.Some? ==> newestTimestamp == newest.value.timestamp
    {
      assert rs[..i + 1][..i] == rs[..i];
      var r := rs[i];
      if r.key == k {
        if newest.None? || r.timestamp > newestTimestamp {
          newestTimestamp := r.timestamp;
          newest := Some(r);
        }
      }
    }
    assert rs[..|rs|] == rs;
    ScanIsNewest(rs, k);
  }

  /** Best of the three sources of a SELECT, gathered in an array and scanned in order. */
  method GetNewest(partition: Option<Record>, temporaries: Option<Record>, memtable: Option<Record>)
    returns (newest: Option<Record>)
    ensures newest == Pick(Pick(partition, temporaries), memtable)
  {
    var found := [];
    if partition.Some? { found := found + [partition.value]; }
    if temporaries.Some? { found := found + [temporaries.value]; }
    if memtable.Some? { found := found + [memtable.value]; }
    newest := None;
    var newestTimestamp: uint64 := 0;
    ghost var best := [None,
                       if |found| > 0 then Some(found[0]) else None,
                       if |found| > 1 then Newer(Some(found[0]), found[1]) else None,
                       if |found| > 2 then Newer(Newer(Some(found[0]), found[1]), found[2]) else None];
    for i := 0 to |found|
      invariant newest == best[i]
      invariant newest.Some? ==> newestTimestamp == newest.value.timestamp
    {
      if newest.None? || found[i].timestamp > newestTimestamp {
        newestTimestamp := found[i].timestamp;
        newest := Some(found[i]);
      }
    }
  }
}
