/**
 One memory over the engine, seen as a plain map.  All steps interleave freely: inserts, journals, the internal steps of
 every table, and both halves of a select that misses the cache, while the memory waits for its answer.
 */
module EndToEnd {
  import opened Basics
  import opened Records
  import opened PageCache
  import Engine
  import History

  /** The last acknowledged insert of a key. */
  datatype Ack = Ack(timestamp: uint64, value: Text)

  datatype System = System(
    cache: Cache,
    tables: map<string, Engine.Table>,
    journal: Option<set<Slot>>,
    reading: Option<Read>,
    latest: map<Slot, Ack>)

  /** The select that the memory waits for: what it wants, and its number in the engine. */
  datatype Read = Read(s: Slot, id: nat)

  datatype Step =
    | Insert(s: Slot, now: uint64, value: Text)
    | SelectHit(s: Slot)
    | SelectStart(missed: Slot, id: nat, found: Option<Record>)
    | SelectEnd
    | JournalStart
    | JournalEmit(dirty: Slot)
    | JournalEnd
    | SwapMemtable
    | Internal(table: string, action: Engine.Action)

  function RecordOf(s: Slot, a: Ack): Record {
    Record(a.timestamp, s.key, a.value)
  }

  /** The record of the last acknowledged insert. */
  function Last(latest: map<Slot, Ack>, s: Slot): Option<Record> {
    if s in latest then Some(RecordOf(s, latest[s])) else None
  }

  // ---- steps ----

  predicate Idle(sys: System) {
    sys.journal.None? && sys.reading.None?
  }

  /** The memory waits for a select that the engine has begun. */
  predicate Waits(sys: System) {
    && sys.reading.Some? && sys.journal.None? && sys.reading.value.s !in sys.cache.pages
    && var Read(s, id) := sys.reading.value;
       s.table in sys.tables && id in sys.tables[s.table].readers && sys.tables[s.table].readers[id].key == s.key
  }

  /** What the engine answers: newest of the files, read before, then of the memtable. */
  function StoreAnswer(sys: System): Option<Record>
    requires Waits(sys)
  {
    Engine.Answer(sys.tables[sys.reading.value.s.table], sys.reading.value.id)
  }

  /** The key a select is about, and what the client is told, whether or not the value finds room in the cache. */
  function Asked(sys: System, step: Step): Slot
    requires step.SelectHit? || (step.SelectEnd? && sys.reading.Some?)
  {
    if step.SelectHit? then step.s else sys.reading.value.s
  }

  function Answer(sys: System, step: Step): Option<Text>
    requires (step.SelectHit? && step.s in sys.cache.pages) || (step.SelectEnd? && Waits(sys))
  {
    if step.SelectHit? then Some(sys.cache.pages[step.s].value)
    else if StoreAnswer(sys).None? then None else Some(StoreAnswer(sys).value.value)
  }

  ghost predicate Enabled(sys: System, step: Step) {
    match step
    case Insert(s, _, _) => Idle(sys) && s.table in sys.tables
    case SelectHit(s) => Idle(sys) && s in sys.cache.pages
    case SelectStart(s, id, found) =>
      && Idle(sys) && s !in sys.cache.pages && s.table in sys.tables
      && Engine.Enabled(sys.tables[s.table], Engine.SelectFiles(id, s.key, found))
    case SelectEnd => Waits(sys)
    case JournalStart => Idle(sys)
    case JournalEmit(s) =>
      && sys.journal.Some? && s !in sys.journal.value && s in DirtySlots(sys.cache) && s.table in sys.tables
    case JournalEnd => sys.journal == Some(DirtySlots(sys.cache))
    case SwapMemtable => forall t :: t in sys.tables ==> Engine.Enabled(sys.tables[t], Engine.Swap)
    case Internal(t, a) =>
      && t in sys.tables && Engine.Enabled(sys.tables[t], a) && !a.Insert? && !a.Swap?
      && (sys.reading.Some? ==> !(t == sys.reading.value.s.table && a == Engine.SelectMemtable(sys.reading.value.id)))
  }

  /** The steps that the map survives: the clock moves on, no newest record is lost, no select misses a newer one. */
  ghost predicate Harmless(sys: System, step: Step)
    requires Enabled(sys, step)
  {
    match step
    case Insert(s, now, _) => s in sys.latest ==> sys.latest[s].timestamp < now
    case SelectEnd => Engine.NoneHidden(sys.tables[sys.reading.value.s.table], sys.reading.value.s.key)
    case Internal(t, a) => History.Lossless(sys.tables[t], a)
    case _ => true
  }

  ghost function Next(sys: System, step: Step): System
    requires Enabled(sys, step)
  {
    match step
    case Insert(s, now, value) =>
      var (cache, ok) := Upserted(sys.cache, s, now, value);
      sys.(cache := cache, latest := if ok then sys.latest[s := Ack(now, value)] else sys.latest)
    case SelectHit(s) => sys.(cache := Touched(sys.cache, s))
    case SelectStart(s, id, found) =>
      sys.(tables := sys.tables[s.table := Engine.Next(sys.tables[s.table], Engine.SelectFiles(id, s.key, found))],
           reading := Some(Read(s, id)))
    case SelectEnd =>
      var Read(s, id) := sys.reading.value;
      var r := StoreAnswer(sys);
      sys.(tables := sys.tables[s.table := Engine.Next(sys.tables[s.table], Engine.SelectMemtable(id))],
           reading := None,
           cache := if r.None? then sys.cache else Fetched(sys.cache, s, r.value.timestamp, r.value.value).0)
    case JournalStart => sys.(journal := Some({}))
    case JournalEmit(s) =>
      var e := sys.cache.pages[s];
      var a := Engine.Action.Insert(Record(e.timestamp, s.key, e.value));
      sys.(tables := sys.tables[s.table := Engine.Next(sys.tables[s.table], a)],
           journal := Some(sys.journal.value + {s}))
    case JournalEnd => sys.(cache := EmptyCache(sys.cache.capacity), journal := None)
    case SwapMemtable => sys.(tables := map t | t in sys.tables :: Engine.Next(sys.tables[t], Engine.Swap))
    case Internal(t, a) => sys.(tables := sys.tables[t := Engine.Next(sys.tables[t], a)])
  }

  // ---- the invariant ----

  /** Inserts that only the cache has. */
  ghost function Pending(sys: System): set<Slot> {
    DirtySlots(sys.cache) - (if sys.journal.Some? then sys.journal.value else {})
  }

  /** The records of a table: none newer than the last insert of its key, and that one there unless pending. */
  ghost predicate Agrees(records: set<Record>, table: string, latest: map<Slot, Ack>, pending: set<Slot>) {
    && (forall r {:trigger r in records} :: r in records ==>
          var s := Slot(table, r.key);
          s in latest && (r.timestamp < latest[s].timestamp || r == RecordOf(s, latest[s])))
    && (forall s :: s in latest && s.table == table && s !in pending ==> RecordOf(s, latest[s]) in records)
  }

  /** A page of the cache holds the last insert of its key. */
  ghost predicate CacheAgrees(cache: Cache, latest: map<Slot, Ack>) {
    forall s :: s in cache.pages ==> s in latest && latest[s] == Ack(cache.pages[s].timestamp, cache.pages[s].value)
  }

  ghost predicate TableAgrees(sys: System, t: string)
    requires t in sys.tables
  {
    Engine.Inv(sys.tables[t]) && Agrees(Engine.Logical(sys.tables[t]), t, sys.latest, Pending(sys))
  }

  ghost predicate TablesAgree(sys: System) {
    forall t {:trigger TableAgrees(sys, t)} :: t in sys.tables ==> TableAgrees(sys, t)
  }

  ghost predicate SysInv(sys: System) {
    && Inv(sys.cache) && CacheAgrees(sys.cache, sys.latest)
    && (forall s :: s in sys.latest ==> s.table in sys.tables)
    && (sys.journal.Some? ==> sys.journal.value <= DirtySlots(sys.cache))
    && (sys.reading.Some? ==> Waits(sys))
    && TablesAgree(sys)
  }

  // ---- records ----

  lemma CondensedAgrees(records': set<Record>, records: set<Record>, table: string, latest: map<Slot, Ack>,
                        pending: set<Slot>)
    requires Agrees(records, table, latest, pending) && Condenses(records', records)
    ensures Agrees(records', table, latest, pending)
  {
    forall s | s in latest && s.table == table && s !in pending ensures RecordOf(s, latest[s]) in records' {
      var r := RecordOf(s, latest[s]);
      assert HasCover(records', r);
      var a :| a in records' && Covers(a, r);
      assert a in records && Slot(table, a.key) == s;
    }
  }

  // ---- select ----

  /** The engine holds the last insert of a key, and nothing newer, unless only the cache has it. */
  lemma NewestIsLatest(records: set<Record>, table: string, latest: map<Slot, Ack>, pending: set<Slot>, s: Slot,
                       o: Option<Record>)
    requires Agrees(records, table, latest, pending) && s.table == table && s !in pending
    ensures IsNewest(records, s.key, o) <==> o == Last(latest, s)
  {
    if s in latest {
      assert RecordOf(s, latest[s]) in records;
      assert o.Some? && o.value in records ==> Slot(table, o.value.key) in latest;
    } else {
      assert forall r :: r in records ==> Slot(table, r.key) in latest;
    }
  }

  /** What the engine answers is the last insert exactly when no newer one is hidden in flight. */
  lemma StoreAnswerIsLatestIff(sys: System)
    requires SysInv(sys) && Enabled(sys, SelectEnd)
    ensures StoreAnswer(sys) == Last(sys.latest, sys.reading.value.s) <==> Harmless(sys, SelectEnd)
  {
    var Read(s, id) := sys.reading.value;
    var t := sys.tables[s.table];
    assert TableAgrees(sys, s.table);
    History.AnswerIsNewestIff(t, id);
    NewestIsLatest(Engine.Logical(t), s.table, sys.latest, Pending(sys), s, StoreAnswer(sys));
  }

  /** Every select answers with the last acknowledged insert of its key. */
  lemma SelectIsLatest(sys: System, step: Step)
    requires SysInv(sys) && Enabled(sys, step) && Harmless(sys, step) && (step.SelectHit? || step.SelectEnd?)
    ensures var s := Asked(sys, step);
            Answer(sys, step) == if s in sys.latest then Some(sys.latest[s].value) else None
  {
    if step.SelectEnd? {
      StoreAnswerIsLatestIff(sys);
    }
  }

  // ---- every step keeps the invariant ----

  lemma AcknowledgeKeeps(sys: System, sys': System, s: Slot, a: Ack)
    requires TablesAgree(sys) && (s in sys.latest ==> sys.latest[s].timestamp < a.timestamp)
    requires sys'.tables == sys.tables && sys'.latest == sys.latest[s := a]
    requires Pending(sys') == Pending(sys) + {s}
    ensures TablesAgree(sys')
  {
    forall t | t in sys'.tables ensures TableAgrees(sys', t) {
      assert TableAgrees(sys, t);
    }
  }

  lemma UpsertedAgrees(c: Cache, latest: map<Slot, Ack>, s: Slot, now: uint64, value: Text)
    requires Inv(c) && CacheAgrees(c, latest)
    ensures var (r, ok) := Upserted(c, s, now, value);
            && Inv(r) && CacheAgrees(r, if ok then latest[s := Ack(now, value)] else latest)
            && DirtySlots(r) == if ok then DirtySlots(c) + {s} else DirtySlots(c)
  {
    var (r, ok) := Upserted(c, s, now, value);
    UpsertedInv(c, s, now, value);
    UpsertedDirty(c, s, now, value);
    if ok {
    }
  }

  lemma InsertInv(sys: System, s: Slot, now: uint64, value: Text)
    requires SysInv(sys) && Enabled(sys, Insert(s, now, value)) && Harmless(sys, Insert(s, now, value))
    ensures SysInv(Next(sys, Insert(s, now, value)))
  {
    var sys' := Next(sys, Insert(s, now, value));
    UpsertedAgrees(sys.cache, sys.latest, s, now, value);
    if Upserted(sys.cache, s, now, value).1 {
      AcknowledgeKeeps(sys, sys', s, Ack(now, value));
    } else {
      SamePending(sys, sys');
    }
  }

  lemma SamePending(sys: System, sys': System)
    requires TablesAgree(sys) && sys'.tables == sys.tables && sys'.latest == sys.latest && Pending(sys') == Pending(sys)
    ensures TablesAgree(sys')
  {
    forall t | t in sys'.tables ensures TableAgrees(sys', t) {
      assert TableAgrees(sys, t);
    }
  }

  lemma SelectHitInv(sys: System, s: Slot)
    requires SysInv(sys) && Enabled(sys, SelectHit(s))
    ensures SysInv(Next(sys, SelectHit(s)))
  {
    TouchedInv(sys.cache, s);
    SamePending(sys, Next(sys, SelectHit(s)));
  }

  lemma SelectStartInv(sys: System, s: Slot, id: nat, found: Option<Record>)
    requires SysInv(sys) && Enabled(sys, SelectStart(s, id, found))
    ensures SysInv(Next(sys, SelectStart(s, id, found)))
  {
    StepKeepsTables(sys, Next(sys, SelectStart(s, id, found)), s.table, Engine.SelectFiles(id, s.key, found));
  }

  /** A page with the last insert may come into the cache. */
  lemma FetchedAgrees(c: Cache, latest: map<Slot, Ack>, s: Slot)
    requires Inv(c) && CacheAgrees(c, latest) && s in latest && s !in c.pages
    ensures var c' := Fetched(c, s, latest[s].timestamp, latest[s].value).0;
            Inv(c') && CacheAgrees(c', latest) && DirtySlots(c') == DirtySlots(c)
  {
    FetchedInv(c, s, latest[s].timestamp, latest[s].value);
    FetchedDirty(c, s, latest[s].timestamp, latest[s].value);
  }

  lemma SelectEndInv(sys: System)
    requires SysInv(sys) && Enabled(sys, SelectEnd) && Harmless(sys, SelectEnd)
    ensures SysInv(Next(sys, SelectEnd))
  {
    var Read(s, id) := sys.reading.value;
    StoreAnswerIsLatestIff(sys);
    if s in sys.latest {
      FetchedAgrees(sys.cache, sys.latest, s);
    }
    StepKeepsTables(sys, Next(sys, SelectEnd), s.table, Engine.SelectMemtable(id));
  }

  lemma EmitKeeps(t: Engine.Table, table: string, latest: map<Slot, Ack>, pending: set<Slot>, s: Slot)
    requires Engine.Inv(t) && Agrees(Engine.Logical(t), table, latest, pending) && s in latest
    ensures s.table != table ==> Agrees(Engine.Logical(t), table, latest, pending - {s})
    ensures var t' := Engine.Next(t, Engine.Action.Insert(RecordOf(s, latest[s])));
            s.table == table ==> Engine.Inv(t') && Agrees(Engine.Logical(t'), table, latest, pending - {s})
  {
    if s.table == table {
      var r := RecordOf(s, latest[s]);
      Engine.StepInv(t, Engine.Action.Insert(r));
      History.InsertRecords(t, r);
    }
  }

  lemma EmitKeepsTables(sys: System, sys': System, s: Slot)
    requires TablesAgree(sys) && s in sys.latest && s.table in sys.tables && sys'.latest == sys.latest
    requires var a := Engine.Action.Insert(RecordOf(s, sys.latest[s]));
             sys'.tables == sys.tables[s.table := Engine.Next(sys.tables[s.table], a)]
    requires Pending(sys') == Pending(sys) - {s}
    ensures TablesAgree(sys')
  {
    forall t | t in sys'.tables ensures TableAgrees(sys', t) {
      assert TableAgrees(sys, t);
      EmitKeeps(sys.tables[t], t, sys.latest, Pending(sys), s);
    }
  }

  lemma JournalEmitInv(sys: System, s: Slot)
    requires SysInv(sys) && Enabled(sys, JournalEmit(s))
    ensures SysInv(Next(sys, JournalEmit(s)))
  {
    var sys' := Next(sys, JournalEmit(s));
    assert Pending(sys') == Pending(sys) - {s};
    EmitKeepsTables(sys, sys', s);
  }

  /** A lossless internal step of a table keeps what the table has to hold. */
  lemma InternalAgrees(t: Engine.Table, a: Engine.Action, table: string, latest: map<Slot, Ack>, pending: set<Slot>)
    requires Engine.Inv(t) && Engine.Enabled(t, a) && History.Lossless(t, a) && !a.Insert?
    requires Agrees(Engine.Logical(t), table, latest, pending)
    ensures Engine.Inv(Engine.Next(t, a)) && Agrees(Engine.Logical(Engine.Next(t, a)), table, latest, pending)
  {
    Engine.StepInv(t, a);
    History.StepCondensesIff(t, a);
    assert Engine.Logical(t) + History.InsertedBy(a) == Engine.Logical(t);
    CondensedAgrees(Engine.Logical(Engine.Next(t, a)), Engine.Logical(t), table, latest, pending);
  }

  lemma StepKeepsTables(sys: System, sys': System, t: string, a: Engine.Action)
    requires TablesAgree(sys) && t in sys.tables && Engine.Enabled(sys.tables[t], a)
             && History.Lossless(sys.tables[t], a) && !a.Insert?
    requires sys'.tables == sys.tables[t := Engine.Next(sys.tables[t], a)] && sys'.latest == sys.latest
             && Pending(sys') == Pending(sys)
    ensures TablesAgree(sys')
  {
    forall u | u in sys'.tables ensures TableAgrees(sys', u) {
      assert TableAgrees(sys, u);
      if u == t {
        InternalAgrees(sys.tables[t], a, t, sys.latest, Pending(sys));
      }
    }
  }

  lemma InternalInv(sys: System, t: string, a: Engine.Action)
    requires SysInv(sys) && Enabled(sys, Internal(t, a)) && Harmless(sys, Internal(t, a))
    ensures SysInv(Next(sys, Internal(t, a)))
  {
    StepKeepsTables(sys, Next(sys, Internal(t, a)), t, a);
    if sys.reading.Some? && t == sys.reading.value.s.table {
      ReaderStays(sys.tables[t], a, sys.reading.value.id);
    }
  }

  /** Only the second half of a select ends it. */
  lemma ReaderStays(t: Engine.Table, a: Engine.Action, id: nat)
    requires Engine.Enabled(t, a) && id in t.readers && a != Engine.SelectMemtable(id)
    ensures id in Engine.Next(t, a).readers && Engine.Next(t, a).readers[id] == t.readers[id]
  {
  }

  lemma SwapInv(sys: System)
    requires SysInv(sys) && Enabled(sys, SwapMemtable)
    ensures SysInv(Next(sys, SwapMemtable))
  {
    var sys' := Next(sys, SwapMemtable);
    forall t | t in sys'.tables ensures TableAgrees(sys', t) {
      assert TableAgrees(sys, t);
      InternalAgrees(sys.tables[t], Engine.Swap, t, sys.latest, Pending(sys));
    }
  }

  lemma StepInv(sys: System, step: Step)
    requires SysInv(sys) && Enabled(sys, step) && Harmless(sys, step)
    ensures SysInv(Next(sys, step))
  {
    match step
    case Insert(s, now, value) => InsertInv(sys, s, now, value);
    case SelectHit(s) => SelectHitInv(sys, s);
    case SelectStart(s, id, found) => SelectStartInv(sys, s, id, found);
    case SelectEnd => SelectEndInv(sys);
    case JournalStart => SamePending(sys, Next(sys, step));
    case JournalEmit(s) => JournalEmitInv(sys, s);
    case JournalEnd =>
      EmptyInv(sys.cache.capacity);
      SamePending(sys, Next(sys, step));
    case SwapMemtable => SwapInv(sys);
    case Internal(t, a) => InternalInv(sys, t, a);
  }

  // ---- runs ----

  function Start(capacity: nat, partitions: map<string, nat>): System {
    System(EmptyCache(capacity), map t | t in partitions :: Engine.Created(partitions[t]), None, None, map[])
  }

  ghost function Run(sys: System, steps: seq<Step>): Option<System> {
    if steps == [] then Some(sys)
    else
      var before, step := Run(sys, steps[..|steps| - 1]), steps[|steps| - 1];
      if before.Some? && Enabled(before.value, step) then Some(Next(before.value, step)) else None
  }

  lemma RunOneMore(x: System, steps: seq<Step>, y: System, step: Step, z: System)
    requires Run(x, steps) == Some(y) && Enabled(y, step) && Next(y, step) == z
    ensures Run(x, steps + [step]) == Some(z)
  {
    assert (steps + [step])[..|steps|] == steps;
  }

  /** A run of harmless steps. */
  ghost predicate HarmlessRun(sys: System, steps: seq<Step>)
    requires Run(sys, steps).Some?
  {
    steps == [] ||
    (HarmlessRun(sys, steps[..|steps| - 1])
     && Harmless(Run(sys, steps[..|steps| - 1]).value, steps[|steps| - 1]))
  }

  lemma StartInv(capacity: nat, partitions: map<string, nat>)
    requires capacity > 0 && forall t :: t in partitions ==> partitions[t] > 0
    ensures SysInv(Start(capacity, partitions))
  {
    var sys := Start(capacity, partitions);
    EmptyInv(capacity);
    forall t | t in sys.tables ensures TableAgrees(sys, t) {
      Engine.CreatedInv(partitions[t]);
    }
  }

  lemma {:induction false} RunInv(capacity: nat, partitions: map<string, nat>, steps: seq<Step>)
    requires capacity > 0 && (forall t :: t in partitions ==> partitions[t] > 0)
    requires Run(Start(capacity, partitions), steps).Some? && HarmlessRun(Start(capacity, partitions), steps)
    ensures SysInv(Run(Start(capacity, partitions), steps).value)
  {
    if steps == [] {
      StartInv(capacity, partitions);
    } else {
      RunInv(capacity, partitions, steps[..|steps| - 1]);
      StepInv(Run(Start(capacity, partitions), steps[..|steps| - 1]).value, steps[|steps| - 1]);
    }
  }

  /**
   Memory and engine together are a map: after every harmless run, a select returns the last acknowledged insert, and
   one that asks the engine gets that record exactly when it is harmless itself.
   */
  lemma RunSelectsLatest(capacity: nat, partitions: map<string, nat>, steps: seq<Step>, step: Step)
    requires capacity > 0 && (forall t :: t in partitions ==> partitions[t] > 0)
    requires Run(Start(capacity, partitions), steps).Some? && HarmlessRun(Start(capacity, partitions), steps)
    requires Enabled(Run(Start(capacity, partitions), steps).value, step) && (step.SelectHit? || step.SelectEnd?)
    ensures var sys := Run(Start(capacity, partitions), steps).value;
            var s := Asked(sys, step);
            && (Harmless(sys, step) ==>
                  Answer(sys, step) == if s in sys.latest then Some(sys.latest[s].value) else None)
            && (step.SelectEnd? ==> (StoreAnswer(sys) == Last(sys.latest, s) <==> Harmless(sys, step)))
  {
    var sys := Run(Start(capacity, partitions), steps).value;
    RunInv(capacity, partitions, steps);
    if step.SelectEnd? {
      StoreAnswerIsLatestIff(sys);
    }
    if Harmless(sys, step) {
      SelectIsLatest(sys, step);
    }
  }

  /** A select that nothing interrupts is one step of the memory. */
  lemma SelectAtOnce(sys: System, s: Slot, found: Option<Record>) returns (o: Option<Record>)
    requires SysInv(sys) && s.table in sys.tables && sys.tables[s.table].readers == map[]
    requires Enabled(sys, SelectStart(s, 0, found)) && Engine.NoneHidden(sys.tables[s.table], s.key)
    ensures var t := sys.tables[s.table];
            o == Engine.Answer(Engine.Next(t, Engine.SelectFiles(0, s.key, found)), 0)
    ensures o == Last(sys.latest, s)
    ensures o.Some? ==> SysInv(sys.(cache := Fetched(sys.cache, s, o.value.timestamp, o.value.value).0))
  {
    var begun := Next(sys, SelectStart(s, 0, found));
    StepInv(sys, SelectStart(s, 0, found));
    SelectBegins(sys, s, found);
    o := StoreAnswer(begun);
    StoreAnswerIsLatestIff(begun);
    StepInv(begun, SelectEnd);
  }

  lemma ReadAtOnce(t: Engine.Table, key: uint16, found: Option<Record>)
    requires Engine.Enabled(t, Engine.SelectFiles(0, key, found)) && t.readers == map[]
    ensures var begun := Engine.Next(t, Engine.SelectFiles(0, key, found));
            Engine.Enabled(begun, Engine.SelectMemtable(0)) && Engine.Next(begun, Engine.SelectMemtable(0)) == t
  {
    assert map[0 := Engine.Reader(key, found)] - {0} == map[];
  }

  lemma SelectBegins(sys: System, s: Slot, found: Option<Record>)
    requires Enabled(sys, SelectStart(s, 0, found)) && sys.tables[s.table].readers == map[]
    ensures var begun := Next(sys, SelectStart(s, 0, found));
            && Enabled(begun, SelectEnd)
            && (Engine.NoneHidden(sys.tables[s.table], s.key) ==> Harmless(begun, SelectEnd))
            && StoreAnswer(begun) ==
               Engine.Answer(Engine.Next(sys.tables[s.table], Engine.SelectFiles(0, s.key, found)), 0)
            && Next(begun, SelectEnd) ==
               var o := StoreAnswer(begun);
               sys.(cache := if o.None? then sys.cache else Fetched(sys.cache, s, o.value.timestamp, o.value.value).0)
  {
    ReadAtOnce(sys.tables[s.table], s.key, found);
    assert Next(Next(sys, SelectStart(s, 0, found)), SelectEnd).tables == sys.tables;
  }

  /** After a journal the engine alone answers what the cache would have answered, unless it is hidden in flight. */
  lemma JournalHandsOver(sys: System, s: Slot, id: nat, found: Option<Record>)
    requires SysInv(sys) && Enabled(sys, JournalEnd) && s in sys.cache.pages
    requires Enabled(Next(sys, JournalEnd), SelectStart(s, id, found))
    ensures var begun, e := Next(Next(sys, JournalEnd), SelectStart(s, id, found)), sys.cache.pages[s];
            && Enabled(begun, SelectEnd)
            && (StoreAnswer(begun) == Some(Record(e.timestamp, s.key, e.value)) <==> Harmless(begun, SelectEnd))
  {
    StepInv(sys, JournalEnd);
    StepInv(Next(sys, JournalEnd), SelectStart(s, id, found));
    StoreAnswerIsLatestIff(Next(Next(sys, JournalEnd), SelectStart(s, id, found)));
  }
}
