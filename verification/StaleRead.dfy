/**
 Runs of memory and engine that the theorem on selects excludes, and has to: a select caches a value while an insert in
 flight replaces it, and the wrong answer outlasts its cause; or a key is inserted twice at the same time.
 */
module StaleRead {
  import opened Basics
  import opened Records
  import opened PageCache
  import opened EndToEnd
  import Engine

  lemma RunStep(sys: System, steps: seq<Step>, n: nat, at: System, at': System)
    requires n < |steps| && Run(sys, steps[..n]) == Some(at) && Enabled(at, steps[n]) && Next(at, steps[n]) == at'
    ensures Run(sys, steps[..n + 1]) == Some(at')
  {
    assert steps[..n + 1][..n] == steps[..n];
  }

  lemma {:induction false} RunConcat(sys: System, a: seq<Step>, b: seq<Step>)
    requires Run(sys, a).Some?
    ensures Run(sys, a + b) == Run(Run(sys, a).value, b)
  {
    if b == [] {
      assert a + b == a;
    } else {
      RunConcat(sys, a, b[..|b| - 1]);
      assert (a + b)[..|a + b| - 1] == a + b[..|b| - 1];
    }
  }

  lemma RunsOn(x: System, steps: seq<Step>, y: System, more: seq<Step>, z: System)
    requires Run(x, steps) == Some(y) && Run(y, more) == Some(z)
    ensures Run(x, steps + more) == Some(z)
  {
    RunConcat(x, steps, more);
  }

  /** An insert that is journalled at once. */
  function Put(s: Slot, now: uint64, value: Text): seq<Step> {
    [Insert(s, now, value), JournalStart, JournalEmit(s), JournalEnd]
  }

  /** One table behind an empty cache of one page. */
  function Small(s: Slot, t: Engine.Table, latest: map<Slot, Ack>): System {
    System(EmptyCache(1), map[s.table := t], None, None, latest)
  }

  /** The same with the page dirty, and journalled or not. */
  function Holding(s: Slot, t: Engine.Table, latest: map<Slot, Ack>, now: uint64, value: Text,
                   journal: Option<set<Slot>>): System
  {
    System(Cache(1, map[s := Entry(now, value, true)], [s], false), map[s.table := t], journal, None,
           latest[s := Ack(now, value)])
  }

  lemma PutInserts(s: Slot, t: Engine.Table, latest: map<Slot, Ack>, now: uint64, value: Text)
    ensures Enabled(Small(s, t, latest), Insert(s, now, value))
    ensures Next(Small(s, t, latest), Insert(s, now, value)) == Holding(s, t, latest, now, value, None)
  {
    assert [] + [s] == [s];
  }

  lemma PutEmits(s: Slot, t: Engine.Table, latest: map<Slot, Ack>, now: uint64, value: Text)
    ensures var x, t' := Holding(s, t, latest, now, value, Some({})), t.(mem := t.mem + [Record(now, s.key, value)]);
            && Enabled(x, JournalEmit(s)) && Next(x, JournalEmit(s)) == Holding(s, t', latest, now, value, Some({s}))
            && Enabled(Next(x, JournalEmit(s)), JournalEnd)
  {
    assert {} + {s} == {s} == DirtySlots(Holding(s, t, latest, now, value, None).cache);
  }

  lemma PutRuns(s: Slot, t: Engine.Table, latest: map<Slot, Ack>, now: uint64, value: Text)
    ensures Run(Small(s, t, latest), Put(s, now, value)) ==
            Some(Small(s, t.(mem := t.mem + [Record(now, s.key, value)]), latest[s := Ack(now, value)]))
  {
    var t' := t.(mem := t.mem + [Record(now, s.key, value)]);
    InsertRuns(s, t, latest, now, value);
    JournalRuns(s, t, latest, now, value);
    RunsOn(Small(s, t, latest), [Insert(s, now, value), JournalStart], Holding(s, t, latest, now, value, Some({})),
           [JournalEmit(s), JournalEnd], Small(s, t', latest[s := Ack(now, value)]));
    assert [Insert(s, now, value), JournalStart] + [JournalEmit(s), JournalEnd] == Put(s, now, value);
  }

  lemma InsertRuns(s: Slot, t: Engine.Table, latest: map<Slot, Ack>, now: uint64, value: Text)
    ensures Run(Small(s, t, latest), [Insert(s, now, value), JournalStart]) ==
            Some(Holding(s, t, latest, now, value, Some({})))
  {
    var x, steps := Small(s, t, latest), [Insert(s, now, value), JournalStart];
    PutInserts(s, t, latest, now, value);
    RunStep(x, steps, 0, x, Holding(s, t, latest, now, value, None));
    RunStep(x, steps, 1, Holding(s, t, latest, now, value, None), Holding(s, t, latest, now, value, Some({})));
    assert steps[..2] == steps;
  }

  lemma JournalRuns(s: Slot, t: Engine.Table, latest: map<Slot, Ack>, now: uint64, value: Text)
    ensures Run(Holding(s, t, latest, now, value, Some({})), [JournalEmit(s), JournalEnd]) ==
            Some(Small(s, t.(mem := t.mem + [Record(now, s.key, value)]), latest[s := Ack(now, value)]))
  {
    var x, steps := Holding(s, t, latest, now, value, Some({})), [JournalEmit(s), JournalEnd];
    var t' := t.(mem := t.mem + [Record(now, s.key, value)]);
    PutEmits(s, t, latest, now, value);
    RunStep(x, steps, 0, x, Holding(s, t', latest, now, value, Some({s})));
    RunStep(x, steps, 1, Holding(s, t', latest, now, value, Some({s})), Small(s, t', latest[s := Ack(now, value)]));
    assert steps[..2] == steps;
  }

  function Dumps(table: string): seq<Step> {
    [SwapMemtable, Internal(table, Engine.DumpTable(Engine.Stored))]
  }

  lemma SwapNext(sys: System, table: string, t: Engine.Table)
    requires sys.tables == map[table := t] && t.inflight == []
    ensures Enabled(sys, SwapMemtable)
    ensures Next(sys, SwapMemtable) == sys.(tables := map[table := t.(mem := [], inflight := t.mem)])
  {
    assert Next(sys, SwapMemtable).tables == map[table := Engine.Next(t, Engine.Swap)];
  }

  lemma DumpNext(sys: System, table: string, t: Engine.Table)
    requires sys.tables == map[table := t.(mem := [], inflight := t.mem)] && t.mem != [] && t.readers == map[]
             && sys.reading.None?
    ensures var t', a := t.(mem := [], inflight := [], tmp := t.tmp[Engine.FreeName(t.tmp) := t.mem]),
                         Engine.DumpTable(Engine.Stored);
            Enabled(sys, Internal(table, a)) && Next(sys, Internal(table, a)) == sys.(tables := map[table := t'])
  {
  }

  lemma DumpRuns(s: Slot, t: Engine.Table, latest: map<Slot, Ack>)
    requires t.inflight == [] && t.mem != [] && t.readers == map[]
    ensures var t' := t.(mem := [], tmp := t.tmp[Engine.FreeName(t.tmp) := t.mem]);
            Run(Small(s, t, latest), Dumps(s.table)) == Some(Small(s, t', latest))
  {
    var x, swapped := Small(s, t, latest), t.(mem := [], inflight := t.mem);
    var t' := t.(mem := [], tmp := t.tmp[Engine.FreeName(t.tmp) := t.mem]);
    SwapNext(x, s.table, t);
    DumpNext(Small(s, swapped, latest), s.table, t);
    RunStep(x, Dumps(s.table), 0, x, Small(s, swapped, latest));
    RunStep(x, Dumps(s.table), 1, Small(s, swapped, latest), Small(s, t', latest));
    assert Dumps(s.table)[..2] == Dumps(s.table);
  }

  /** The same with a page that the select has read. */
  function WithPage(s: Slot, t: Engine.Table, latest: map<Slot, Ack>, r: Record): System {
    Small(s, t, latest).(cache := Cache(1, map[s := Entry(r.timestamp, r.value, false)], [s], false))
  }

  /** A select that begins after the swap and ends before the dump. */
  function BeginRead(s: Slot, found: Record): seq<Step> {
    [SwapMemtable, SelectStart(s, 0, Some(found))]
  }

  function EndRead(s: Slot): seq<Step> {
    [SelectEnd, Internal(s.table, Engine.DumpTable(Engine.Stored))]
  }

  /** The memory waits for that select. */
  function Asking(s: Slot, t: Engine.Table, latest: map<Slot, Ack>, r: Record): System {
    var begun := t.(readers := map[0 := Engine.Reader(s.key, Some(r))]);
    Small(s, begun, latest).(reading := Some(Read(s, 0)))
  }

  lemma AskingStarts(s: Slot, t: Engine.Table, latest: map<Slot, Ack>, r: Record)
    requires t.readers == map[] && t.bins != [] && IsNewest(Engine.Scope(t, s.key), s.key, Some(r))
    ensures Enabled(Small(s, t, latest), SelectStart(s, 0, Some(r)))
    ensures Next(Small(s, t, latest), SelectStart(s, 0, Some(r))) == Asking(s, t, latest, r)
  {
  }

  /** The select does not see the records that were swapped out, and what it finds is cached. */
  lemma AskingEnds(s: Slot, t: Engine.Table, latest: map<Slot, Ack>, r: Record)
    requires t.mem == [] && t.readers == map[]
    ensures Enabled(Asking(s, t, latest, r), SelectEnd)
    ensures Next(Asking(s, t, latest, r), SelectEnd) == WithPage(s, t, latest, r)
  {
    assert StoreAnswer(Asking(s, t, latest, r)) == Some(r);
    assert map[0 := Engine.Reader(s.key, Some(r))] - {0} == map[];
    assert Next(Asking(s, t, latest, r), SelectEnd).tables == map[s.table := t];
    assert [] + [s] == [s];
  }

  lemma BeginReadRuns(s: Slot, t: Engine.Table, latest: map<Slot, Ack>, r: Record)
    requires t.inflight == [] && t.readers == map[] && t.bins != []
             && IsNewest(Engine.Scope(t, s.key), s.key, Some(r))
    ensures Run(Small(s, t, latest), BeginRead(s, r)) ==
            Some(Asking(s, t.(mem := [], inflight := t.mem), latest, r))
  {
    var x, steps, swapped := Small(s, t, latest), BeginRead(s, r), t.(mem := [], inflight := t.mem);
    SwapNext(x, s.table, t);
    AskingStarts(s, swapped, latest, r);
    RunStep(x, steps, 0, x, Small(s, swapped, latest));
    RunStep(x, steps, 1, Small(s, swapped, latest), Asking(s, swapped, latest, r));
    assert steps[..2] == steps;
  }

  lemma EndReadRuns(s: Slot, t: Engine.Table, latest: map<Slot, Ack>, r: Record)
    requires t.mem != [] && t.readers == map[]
    ensures var t' := t.(mem := [], inflight := [], tmp := t.tmp[Engine.FreeName(t.tmp) := t.mem]);
            Run(Asking(s, t.(mem := [], inflight := t.mem), latest, r), EndRead(s)) == Some(WithPage(s, t', latest, r))
  {
    var swapped := t.(mem := [], inflight := t.mem);
    var x, steps := Asking(s, swapped, latest, r), EndRead(s);
    var t' := t.(mem := [], inflight := [], tmp := t.tmp[Engine.FreeName(t.tmp) := t.mem]);
    AskingEnds(s, swapped, latest, r);
    DumpNext(WithPage(s, swapped, latest, r), s.table, t);
    RunStep(x, steps, 0, x, WithPage(s, swapped, latest, r));
    RunStep(x, steps, 1, WithPage(s, swapped, latest, r), WithPage(s, t', latest, r));
    assert steps[..2] == steps;
  }

  lemma OneDumpInScope(a: Record, mem: seq<Record>)
    ensures var t := Engine.Created(1).(tmp := map[0 := [a]], mem := mem);
            IsNewest(Engine.Scope(t, a.key), a.key, Some(a))
  {
    var t := Engine.Created(1).(tmp := map[0 := [a]], mem := mem);
    assert 0 in t.tmp && a in t.tmp[0];
    assert a in Engine.InFiles(t.tmp);
  }

  /** Two inserts of a key, and a select that reads the first of them while the second is in flight. */
  function StaleSteps(s: Slot, first: Text, second: Text): seq<Step> {
    Put(s, 1, first) + Dumps(s.table) + Put(s, 2, second) + BeginRead(s, Record(1, s.key, first)) + EndRead(s)
  }

  /** The old value stays in the cache, and is what clients get, also when the new one is long visible. */
  lemma StaleIsServed(s: Slot, first: Text, second: Text)
    ensures var end := Run(Start(1, map[s.table := 1]), StaleSteps(s, first, second));
            && end.Some? && s.table in end.value.tables && end.value.tables[s.table].inflight == []
            && s in end.value.latest && end.value.latest[s] == Ack(2, second)
            && Enabled(end.value, SelectHit(s)) && Answer(end.value, SelectHit(s)) == Some(first)
  {
    var a, b, t0 := Record(1, s.key, first), Record(2, s.key, second), Engine.Created(1);
    var l1, l2 := map[s := Ack(1, first)], map[s := Ack(2, second)];
    var t1 := t0.(tmp := map[0 := [a]]);
    var t2 := t1.(mem := [b]);
    var t3 := t2.(mem := [], inflight := [], tmp := t2.tmp[Engine.FreeName(t2.tmp) := [b]]);
    var x := Start(1, map[s.table := 1]);
    assert x == Small(s, t0, map[]) && [] + [a] == [a] && [] + [b] == [b] && l1[s := Ack(2, second)] == l2;
    OneDumpInScope(a, [b]);
    PutRuns(s, t0, map[], 1, first);
    DumpRuns(s, t0.(mem := [a]), l1);
    PutRuns(s, t1, l1, 2, second);
    BeginReadRuns(s, t2, l2, a);
    EndReadRuns(s, t2, l2, a);
    RunsOn(x, Put(s, 1, first), Small(s, t0.(mem := [a]), l1), Dumps(s.table), Small(s, t1, l1));
    RunsOn(x, Put(s, 1, first) + Dumps(s.table), Small(s, t1, l1), Put(s, 2, second), Small(s, t2, l2));
    var asking := Asking(s, t2.(mem := [], inflight := [b]), l2, a);
    RunsOn(x, Put(s, 1, first) + Dumps(s.table) + Put(s, 2, second), Small(s, t2, l2), BeginRead(s, a), asking);
    RunsOn(x, Put(s, 1, first) + Dumps(s.table) + Put(s, 2, second) + BeginRead(s, a), asking, EndRead(s),
           WithPage(s, t3, l2, a));
  }

  // ---- two inserts at the same time ----

  /** A select has begun that found nothing in the files. */
  function AskingMemtable(s: Slot, t: Engine.Table, latest: map<Slot, Ack>): System {
    Small(s, t.(readers := map[0 := Engine.Reader(s.key, None)]), latest).(reading := Some(Read(s, 0)))
  }

  lemma AskingMemtableRuns(s: Slot, mem: seq<Record>, latest: map<Slot, Ack>)
    ensures var t := Engine.Created(1).(mem := mem);
            Run(Small(s, t, latest), [SelectStart(s, 0, None)]) == Some(AskingMemtable(s, t, latest))
  {
    var t := Engine.Created(1).(mem := mem);
    var steps := [SelectStart(s, 0, None)];
    assert steps[..1] == steps;
    RunStep(Small(s, t, latest), steps, 0, Small(s, t, latest), AskingMemtable(s, t, latest));
  }

  lemma ScansFirst(s: Slot, a: Record, b: Record, latest: map<Slot, Ack>)
    requires a.key == b.key == s.key && a.timestamp == b.timestamp
    ensures var y := AskingMemtable(s, Engine.Created(1).(mem := [a, b]), latest);
            && Enabled(y, SelectEnd) && EndToEnd.Harmless(y, SelectEnd) && Answer(y, SelectEnd) == Some(a.value)
  {
    assert [a, b] == [a] + [b];
    ScanConcat([a], [b], s.key);
  }

  /** Of two records with the same timestamp a select answers with the first, although the second replaced it. */
  lemma TieIsServed(s: Slot, now: uint64, first: Text, second: Text)
    ensures var end := Run(Start(1, map[s.table := 1]),
                           Put(s, now, first) + Put(s, now, second) + [SelectStart(s, 0, None)]);
            && end.Some? && Enabled(end.value, SelectEnd) && EndToEnd.Harmless(end.value, SelectEnd)
            && Answer(end.value, SelectEnd) == Some(first)
            && s in end.value.latest && end.value.latest[s] == Ack(now, second)
  {
    var a, b, t0 := Record(now, s.key, first), Record(now, s.key, second), Engine.Created(1);
    var l1, l2 := map[s := Ack(now, first)], map[s := Ack(now, second)];
    var t2 := t0.(mem := [a, b]);
    var x := Start(1, map[s.table := 1]);
    assert x == Small(s, t0, map[]) && [] + [a] == [a] && [a] + [b] == [a, b] && l1[s := Ack(now, second)] == l2;
    PutRuns(s, t0, map[], now, first);
    PutRuns(s, t0.(mem := [a]), l1, now, second);
    RunsOn(x, Put(s, now, first), Small(s, t0.(mem := [a]), l1), Put(s, now, second), Small(s, t2, l2));
    AskingMemtableRuns(s, [a, b], l2);
    RunsOn(x, Put(s, now, first) + Put(s, now, second), Small(s, t2, l2), [SelectStart(s, 0, None)],
           AskingMemtable(s, t2, l2));
    ScansFirst(s, a, b, l2);
  }
}
