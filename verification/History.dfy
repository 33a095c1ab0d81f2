/**
 What the steps of the engine do to the records of a table, and what follows for whole runs: which steps lose records,
 when that shows, and what a select answers after any interleaving.
 */
module History {
  import opened Basics
  import opened Engine
  import opened Records

  // ---- what each step does to the newest records ----

  /** A step that ran into no lack of disk blocks. */
  ghost predicate FindsBlocks(s: Table, a: Action) {
    match a
    case DumpTable(outcome) => outcome.Stored?
    case Commit(_, written) => forall i :: 0 <= i < |s.bins| ==> i in written
    case _ => true
  }

  /** The records a step may lose: those of a dump that found no room, those of partitions not rewritten. */
  ghost function AtRisk(s: Table, a: Action): set<Record> {
    match a
    case DumpTable(outcome) => if outcome.Stored? then {} else SetOf(s.inflight)
    case Commit(_, written) => set r | r in InFiles(s.tmpc) && !(s.bins != [] && r.key % |s.bins| in written)
    case _ => {}
  }

  ghost function InsertedBy(a: Action): set<Record> {
    if a.Insert? then {a.r} else {}
  }

  lemma CommitCondenses(s: Table, output: seq<seq<Record>>, written: set<nat>)
    requires Inv(s) && Enabled(s, Commit(output, written))
    ensures var a := Commit(output, written);
            Logical(Next(s, a)) <= Logical(s) && Condenses(Logical(Next(s, a)) + AtRisk(s, a), Logical(s))
  {
    var a := Commit(output, written);
    var s' := Next(s, a);
    CommitSources(s, output, written);
    assert InFiles(s'.tmpc) == {};
    forall r | r in Logical(s) ensures HasCover(Logical(s') + AtRisk(s, a), r) {
      if r in InBins(s.bins) + InFiles(s.tmpc) {
        CommitCoversRead(s, output, written, r);
      } else {
        assert r in Logical(s') && Covers(r, r);
      }
    }
  }

  lemma CommitCoversRead(s: Table, output: seq<seq<Record>>, written: set<nat>, r: Record)
    requires Inv(s) && Enabled(s, Commit(output, written)) && r in InBins(s.bins) + InFiles(s.tmpc)
    ensures var a := Commit(output, written);
            HasCover(Logical(Next(s, a)) + AtRisk(s, a), r)
  {
    var a := Commit(output, written);
    if r.key % |s.bins| in written {
      CommitKeepsPartition(s, output, written, r);
      var q :| q in InBins(Next(s, a).bins) && Covers(q, r);
      assert q in Logical(Next(s, a));
    } else if r in InFiles(s.tmpc) {
      assert r in AtRisk(s, a) && Covers(r, r);
    } else {
      var i :| 0 <= i < |s.bins| && r in s.bins[i];
      assert Rewritten(s.bins, output, written)[i] == s.bins[i];
      assert r in InBins(Next(s, a).bins) && Covers(r, r);
    }
  }

  lemma InsertRecords(s: Table, r: Record)
    ensures Logical(Next(s, Insert(r))) == Logical(s) + {r}
  {
  }

  lemma DumpRecords(s: Table, outcome: Outcome)
    requires Enabled(s, DumpTable(outcome))
    ensures Logical(Next(s, DumpTable(outcome))) + AtRisk(s, DumpTable(outcome)) == Logical(s)
  {
    InFilesAdd(s.tmp, FreeName(s.tmp), if outcome.Stored? then s.inflight else []);
  }

  /** Every step but a commit only moves records. */
  lemma QuietStep(s: Table, a: Action)
    requires Inv(s) && Enabled(s, a) && !a.Commit?
    ensures Logical(Next(s, a)) + AtRisk(s, a) == Logical(s) + InsertedBy(a)
  {
    match a
    case Insert(r) => InsertRecords(s, r);
    case DumpTable(outcome) => DumpRecords(s, outcome);
    case Rename => RenameClobbersNothing(s);
    case _ =>
  }

  /** Up to the records at risk, a step turns the table's records and the inserted one into a condensed form of them. */
  lemma StepCondenses(s: Table, a: Action)
    requires Inv(s) && Enabled(s, a)
    ensures Condenses(Logical(Next(s, a)) + AtRisk(s, a), Logical(s) + InsertedBy(a))
  {
    if a.Commit? {
      CommitCondenses(s, a.output, a.written);
      assert Logical(s) + InsertedBy(a) == Logical(s);
      assert AtRisk(s, a) <= Logical(s);
    } else {
      QuietStep(s, a);
    }
  }

  /** What a step that may lose records leaves in any case. */
  ghost function Safe(s: Table, a: Action): set<Record> {
    match a
    case DumpTable(_) => Visible(s)
    case Commit(_, _) => InBins(s.bins) + InFiles(s.tmp) + SetOf(s.mem) + SetOf(s.inflight)
    case _ => Logical(s)
  }

  /** A step that may lose only records that something safe covers. */
  ghost predicate Lossless(s: Table, a: Action) {
    forall k: uint16 :: CoversKey(Safe(s, a), AtRisk(s, a), k)
  }

  lemma FindsBlocksIsLossless(s: Table, a: Action)
    requires s.bins != [] && FindsBlocks(s, a)
    ensures Lossless(s, a)
  {
    assert AtRisk(s, a) == {};
  }

  lemma CoversSameKey(A: set<Record>, A': set<Record>, B: set<Record>, k: uint16)
    requires forall r :: r in A && r.key == k ==> r in A'
    requires CoversKey(A, B, k)
    ensures CoversKey(A', B, k)
  {
    forall b | b in B && b.key == k ensures HasCover(A', b) {
      assert HasCover(A, b);
    }
  }

  lemma CommitCoveredBySafe(s: Table, output: seq<seq<Record>>, written: set<nat>, k: uint16)
    requires Inv(s) && Enabled(s, Commit(output, written))
    ensures var a := Commit(output, written);
            CoversKey(Logical(Next(s, a)), AtRisk(s, a), k) <==> CoversKey(Safe(s, a), AtRisk(s, a), k)
  {
    var a := Commit(output, written);
    if k % |s.bins| in written {
      assert forall r :: r in AtRisk(s, a) ==> r.key != k;
    } else {
      forall r: Record | r.key == k ensures r in Logical(Next(s, a)) <==> r in Safe(s, a) {
        CommitLeavesKey(s, output, written, r);
      }
      if CoversKey(Safe(s, a), AtRisk(s, a), k) {
        CoversSameKey(Safe(s, a), Logical(Next(s, a)), AtRisk(s, a), k);
      }
      if CoversKey(Logical(Next(s, a)), AtRisk(s, a), k) {
        CoversSameKey(Logical(Next(s, a)), Safe(s, a), AtRisk(s, a), k);
      }
    }
  }

  /** A lost record of k is covered after the step only by one that was safe before it. */
  lemma CoveredBySafe(s: Table, a: Action, k: uint16)
    requires Inv(s) && Enabled(s, a)
    ensures CoversKey(Logical(Next(s, a)), AtRisk(s, a), k) <==> CoversKey(Safe(s, a), AtRisk(s, a), k)
  {
    match a
    case DumpTable(outcome) => if !outcome.Stored? { DumpLeavesVisible(s, outcome); }
    case Commit(output, written) => CommitCoveredBySafe(s, output, written, k);
    case _ => assert AtRisk(s, a) == {};
  }

  lemma DumpLeavesVisible(s: Table, outcome: Outcome)
    requires Enabled(s, DumpTable(outcome)) && !outcome.Stored?
    ensures Logical(Next(s, DumpTable(outcome))) == Visible(s)
  {
    InFilesAdd(s.tmp, FreeName(s.tmp), []);
  }

  lemma CommitLeavesKey(s: Table, output: seq<seq<Record>>, written: set<nat>, r: Record)
    requires Inv(s) && Enabled(s, Commit(output, written)) && r.key % |s.bins| !in written
    ensures r in Logical(Next(s, Commit(output, written))) <==> r in Safe(s, Commit(output, written))
  {
    var bins', p := Rewritten(s.bins, output, written), r.key % |s.bins|;
    CommitInv(s, output, written);
    assert bins'[p] == s.bins[p];
    if r in InBins(bins') {
      var i :| 0 <= i < |bins'| && r in bins'[i];
      assert i == p;
    }
    if r in InBins(s.bins) {
      var i :| 0 <= i < |s.bins| && r in s.bins[i];
      assert i == p;
    }
  }

  /** A step condenses what the table held, and the record it inserts, exactly when it is lossless. */
  lemma {:induction false} StepCondensesIff(s: Table, a: Action)
    requires Inv(s) && Enabled(s, a)
    ensures Condenses(Logical(Next(s, a)), Logical(s) + InsertedBy(a)) <==> Lossless(s, a)
  {
    StepCondenses(s, a);
    if Lossless(s, a) {
      forall r | r in AtRisk(s, a) ensures HasCover(Logical(Next(s, a)), r) {
        assert CoversKey(Safe(s, a), AtRisk(s, a), r.key);
        CoveredBySafe(s, a, r.key);
      }
      CondensesTrans(Logical(Next(s, a)), Logical(Next(s, a)) + AtRisk(s, a), Logical(s) + InsertedBy(a));
    } else {
      var k: uint16 :| !CoversKey(Safe(s, a), AtRisk(s, a), k);
      CoveredBySafe(s, a, k);
      assert AtRisk(s, a) <= Logical(s);
    }
  }

  /** A step changes the newest timestamp of k only by inserting it, or by losing a record that nothing safe covers. */
  lemma {:induction false} StepKeepsNewest(s: Table, a: Action, k: uint16)
    requires Inv(s) && Enabled(s, a)
    ensures NewestTimestamp(Logical(Next(s, a)), k) == NewestTimestamp(Logical(s) + InsertedBy(a), k)
            <==> CoversKey(Safe(s, a), AtRisk(s, a), k)
  {
    StepCondenses(s, a);
    CondensedTimestamp(Logical(Next(s, a)) + AtRisk(s, a), Logical(s) + InsertedBy(a), k);
    LossIff(Logical(Next(s, a)), AtRisk(s, a), k);
    CoveredBySafe(s, a, k);
  }

  /** A dump loses the newest record of a key exactly when it finds no room and nothing visible covers it. */
  lemma DumpKeepsNewestIff(s: Table, outcome: Outcome, k: uint16)
    requires Inv(s) && Enabled(s, DumpTable(outcome))
    ensures NewestTimestamp(Logical(Next(s, DumpTable(outcome))), k) == NewestTimestamp(Logical(s), k)
            <==> outcome.Stored? || NoneHidden(s, k)
  {
    StepKeepsNewest(s, DumpTable(outcome), k);
    assert Logical(s) + InsertedBy(DumpTable(outcome)) == Logical(s);
  }

  /** So does a commit whose partition of the key finds none, when only a renamed file has a record as new. */
  lemma CommitKeepsNewestIff(s: Table, output: seq<seq<Record>>, written: set<nat>, k: uint16)
    requires Inv(s) && Enabled(s, Commit(output, written))
    ensures NewestTimestamp(Logical(Next(s, Commit(output, written))), k) == NewestTimestamp(Logical(s), k)
            <==> k % |s.bins| in written
                 || CoversKey(InBins(s.bins) + InFiles(s.tmp) + SetOf(s.mem) + SetOf(s.inflight), InFiles(s.tmpc), k)
  {
    var a := Commit(output, written);
    StepKeepsNewest(s, a, k);
    assert Logical(s) + InsertedBy(a) == Logical(s);
    assert forall r :: r in AtRisk(s, a) && r.key == k ==> k % |s.bins| !in written && r in InFiles(s.tmpc);
    if k % |s.bins| !in written {
      assert forall r :: r in InFiles(s.tmpc) && r.key == k ==> r in AtRisk(s, a);
    }
  }

  /** In lossless steps the newest timestamps never decrease, and an insert changes that of its own key only. */
  lemma {:induction false} StepMonotone(s: Table, a: Action, k: uint16)
    requires Inv(s) && Enabled(s, a) && Lossless(s, a)
    ensures AtMost(NewestTimestamp(Logical(s), k), NewestTimestamp(Logical(Next(s, a)), k))
    ensures !(a.Insert? && a.r.key == k) ==> NewestTimestamp(Logical(Next(s, a)), k) == NewestTimestamp(Logical(s), k)
  {
    StepKeepsNewest(s, a, k);
    if !(a.Insert? && a.r.key == k) {
      assert forall r :: r in InsertedBy(a) ==> r.key != k;
      LossIff(Logical(s), InsertedBy(a), k);
    }
  }

  // ---- select ----

  /** It is the newest record of the table exactly when a running dump holds none that is newer. */
  lemma AnswerIsNewestIff(s: Table, id: nat)
    requires Inv(s) && Enabled(s, SelectMemtable(id))
    ensures var k := s.readers[id].key;
            IsNewest(Logical(s), k, Answer(s, id)) <==> NoneHidden(s, k)
  {
    var k, o := s.readers[id].key, Answer(s, id);
    AnswerIsNewestVisible(s, id);
    if NoneHidden(s, k) {
      CoveredNewest(Visible(s), SetOf(s.inflight), k, o);
    }
    if IsNewest(Logical(s), k, o) {
      forall b | b in SetOf(s.inflight) && b.key == k ensures HasCover(Visible(s), b) {
        assert b in Logical(s);
        assert o.value in Visible(s) && Covers(o.value, b);
      }
    }
  }

  /** Between the memtable swap and the dump of the table, a select does not see the last inserts. */
  lemma InFlightIsInvisible(r: Record)
    ensures var s := Next(Next(Created(1), Insert(r)), Swap);
            Inv(s) && Enabled(s, SelectFiles(0, r.key, None)) && Answer(Next(s, SelectFiles(0, r.key, None)), 0) == None
            && IsNewest(Logical(s), r.key, Some(r))
  {
  }

  // ---- runs ----

  /** The state a sequence of steps leads to, if each is enabled in its turn. */
  ghost function Run(s: Table, actions: seq<Action>): Option<Table> {
    if actions == [] then Some(s)
    else
      var before, a := Run(s, actions[..|actions| - 1]), actions[|actions| - 1];
      if before.Some? && Enabled(before.value, a) then Some(Next(before.value, a)) else None
  }

  ghost predicate LosslessRun(s: Table, actions: seq<Action>)
    requires Run(s, actions).Some?
  {
    actions == [] ||
    (LosslessRun(s, actions[..|actions| - 1])
     && Lossless(Run(s, actions[..|actions| - 1]).value, actions[|actions| - 1]))
  }

  /** The records inserted in a run, oldest first. */
  function Inserts(actions: seq<Action>): seq<Record> {
    if actions == [] then []
    else
      var a := actions[|actions| - 1];
      Inserts(actions[..|actions| - 1]) + if a.Insert? then [a.r] else []
  }

  lemma {:induction false} RunInv(partitions: nat, actions: seq<Action>)
    requires partitions > 0 && Run(Created(partitions), actions).Some?
    ensures Inv(Run(Created(partitions), actions).value)
  {
    if actions == [] {
      CreatedInv(partitions);
    } else {
      var before, a := actions[..|actions| - 1], actions[|actions| - 1];
      RunInv(partitions, before);
      StepInv(Run(Created(partitions), before).value, a);
    }
  }

  /** However dumps, compactions and selects interleave, the table is a condensed form of all that was inserted. */
  lemma {:induction false} RunCondensesInserts(partitions: nat, actions: seq<Action>)
    requires partitions > 0 && Run(Created(partitions), actions).Some? && LosslessRun(Created(partitions), actions)
    ensures Condenses(Logical(Run(Created(partitions), actions).value), SetOf(Inserts(actions)))
  {
    var s0 := Created(partitions);
    if actions == [] {
      CreatedInv(partitions);
    } else {
      var before, a := actions[..|actions| - 1], actions[|actions| - 1];
      var s := Run(s0, before).value;
      RunInv(partitions, before);
      RunCondensesInserts(partitions, before);
      StepCondensesIff(s, a);
      assert SetOf(Inserts(actions)) == SetOf(Inserts(before)) + InsertedBy(a);
      CondensesUnion(Logical(s), SetOf(Inserts(before)), InsertedBy(a));
      CondensesTrans(Logical(Next(s, a)), Logical(s) + InsertedBy(a), SetOf(Inserts(actions)));
    }
  }

  /** After every lossless run, a select answers with the newest insert of the key exactly when none is hidden. */
  lemma {:induction false} SelectReturnsNewestInsert(partitions: nat, actions: seq<Action>, id: nat)
    requires partitions > 0 && Run(Created(partitions), actions).Some? && LosslessRun(Created(partitions), actions)
    requires Enabled(Run(Created(partitions), actions).value, SelectMemtable(id))
    ensures var s := Run(Created(partitions), actions).value;
            var k := s.readers[id].key;
            && (IsNewest(SetOf(Inserts(actions)), k, Answer(s, id)) <==> NoneHidden(s, k))
            && (NoneHidden(s, k) && Consistent(SetOf(Inserts(actions))) ==> Answer(s, id) == Scan(Inserts(actions), k))
  {
    var s := Run(Created(partitions), actions).value;
    var k, o := s.readers[id].key, Answer(s, id);
    RunInv(partitions, actions);
    RunCondensesInserts(partitions, actions);
    AnswerIsNewestIff(s, id);
    AnswerIsNewestVisible(s, id);
    if NoneHidden(s, k) {
      CondensedNewest(Logical(s), SetOf(Inserts(actions)), k, o);
    } else {
      assert o.Some? ==> o.value in Logical(s);
      assert Logical(s) <= SetOf(Inserts(actions));
    }
    ScanIsNewest(Inserts(actions), k);
  }
}
