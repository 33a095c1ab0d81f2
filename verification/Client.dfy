/**
 The memory process in front of the storage engine: the operations its clients call, proved
 against the map of the last acknowledged inserts, whatever the engine does in between.

 Every operation is a step, or a run of steps, of the machine of `EndToEnd`: `Makes` says which.
 What a SELECT does to the cache is `Fetches`, and what a journal does to the engine `Journalled`.
 */
module Client {
  import opened Basics
  import opened Records
  import opened Codec
  import opened Frames
  import opened PageCache
  import opened Memory
  import opened EndToEnd
  import Pages
  import Engine
  import History
  import Space
  import StoreView
  import Lfs

  datatype SelectResult = Ok(value: Text) | KeyNotFound | TableNotFound | MemoryFull(fullValue: Text) {
    /** The value that the client is told, if any. */
    function Told(): Option<Text> {
      match this
      case Ok(v) => Some(v)
      case MemoryFull(v) => Some(v)
      case _ => None
    }
  }
  datatype InsertResult = InsertOk | InsertFull | InsertOverflow

  /**
   What a select that misses makes of the newest record the engine shows: it is told in any case, and becomes a page
   when there is a free frame or a page may go.
   */
  ghost predicate Fetches(before: Cache, after: Cache, s: Slot, o: Option<Record>, result: SelectResult) {
    match o
    case None => result == KeyNotFound && after == before
    case Some(r) =>
      && result == (if HasRoom(before) then Ok(r.value) else MemoryFull(r.value))
      && (HasRoom(before) ==> RoomAndPage(before, after, s, Entry(r.timestamp, r.value, false)))
      && (!HasRoom(before) ==> after == before.(full := true))
  }

  function ValueOf(o: Option<Record>): Option<Text> {
    if o.None? then None else Some(o.value.value)
  }

  /** A value that both processes carry unchanged: a C string that fits a frame and a line. */
  predicate Fits(value: Text, maxValueLength: nat) {
    Legal(value) && IsString(value) && |value| <= maxValueLength
  }

  ghost predicate AllFit(latest: map<Slot, Ack>, maxValueLength: nat) {
    forall s :: s in latest ==> Fits(latest[s].value, maxValueLength)
  }

  ghost predicate TableFits(t: Engine.Table, maxValueLength: nat) {
    forall r {:trigger r in Engine.Logical(t)} :: r in Engine.Logical(t) ==> Fits(r.value, maxValueLength)
  }

  ghost predicate TablesFit(sys: System, maxValueLength: nat) {
    forall t {:trigger TableFits(sys.tables[t], maxValueLength)} :: t in sys.tables ==>
      TableFits(sys.tables[t], maxValueLength)
  }

  ghost predicate IsMap(sys: System, maxValueLength: nat) {
    AllFit(sys.latest, maxValueLength)
    && forall x {:trigger SysInv(x)} :: x == sys ==> SysInv(x) && TablesFit(x, maxValueLength)
  }

  /** The two processes share no bit map, buffer or disk. */
  ghost predicate Separate(memory: MainMemory, lfs: Lfs.StorageEngine) {
    var bitmap := lfs.fs.allocator.bitmap;
    && memory.frameStatus != bitmap && memory.frameStatus.bytes != bitmap.bytes
    && memory.frameStatus.bytes as object != lfs.fs.disk
    && memory.store.buffer as object != bitmap.bytes && memory.store.buffer as object != lfs.fs.disk
  }

  /** The program makes this step of the machine. */
  ghost predicate Makes(before: System, step: Step, after: System) {
    Enabled(before, step) && after == Next(before, step)
  }

  /** It makes both steps of a select that nothing interrupts. */
  ghost predicate Selects(before: System, s: Slot, found: Option<Record>, after: System) {
    && Enabled(before, SelectStart(s, 0, found))
    && Makes(Next(before, SelectStart(s, 0, found)), SelectEnd, after)
  }

  class Process {
    const memory: MainMemory
    const lfs: Lfs.StorageEngine
    /** The last acknowledged insert of each key. */
    ghost var latest: map<Slot, Ack>

    ghost function Journaling(emitted: Option<set<Slot>>): System
      reads this, memory, lfs
    {
      System(memory.cache, lfs.view, emitted, None, latest)
    }

    ghost predicate ValidIn(emitted: Option<set<Slot>>)
      reads this, memory, memory.store, memory.store.buffer, memory.frameStatus, memory.frameStatus.bytes
      reads lfs, lfs.fs, lfs.fs.allocator, lfs.fs.allocator.bitmap, lfs.fs.allocator.bitmap.bytes, lfs.fs.disk
    {
      && memory.Valid() && lfs.Valid() && Separate(memory, lfs)
      && IsMap(Journaling(emitted), memory.store.maxValueLength)
    }

    ghost predicate Valid()
      reads this, memory, memory.store, memory.store.buffer, memory.frameStatus, memory.frameStatus.bytes
      reads lfs, lfs.fs, lfs.fs.allocator, lfs.fs.allocator.bitmap, lfs.fs.allocator.bitmap.bytes, lfs.fs.disk
    {
      ValidIn(None)
    }

    /** An empty memory in front of an engine whose tables are empty. */
    constructor (memory: MainMemory, lfs: Lfs.StorageEngine)
      requires memory.Valid() && lfs.Valid() && memory.cache == EmptyCache(memory.cache.capacity)
      requires Separate(memory, lfs)
      requires forall t :: t in lfs.view ==> Engine.Logical(lfs.view[t]) == {}
      ensures Valid() && this.memory == memory && this.lfs == lfs && latest == map[]
    {
      this.memory, this.lfs, latest := memory, lfs, map[];
      new;
      EmptyIsMap(lfs.Now(), lfs.view, memory.cache.capacity, memory.store.maxValueLength);
    }

    /** The engine is not concerned. */
    method Upsert(s: Slot, now: uint64, value: Text) returns (ok: bool)
      requires memory.Valid() && lfs.Valid() && Separate(memory, lfs)
      requires IsString(value) && |value| <= memory.store.maxValueLength
      modifies memory, memory.frameStatus, memory.frameStatus.bytes, memory.store`frames, memory.store.buffer
      ensures memory.Valid() && lfs.Valid() && Separate(memory, lfs)
      ensures (memory.cache, ok) == Upserted(old(memory.cache), s, now, value)
    {
      ok := memory.UpsertValue(s, now, value);
    }

    /** `API_Insert`: too long a value is refused, a full memory refuses a new page. */
    method Insert(table: string, key: uint16, value: Text, now: uint64) returns (result: InsertResult)
      requires Valid() && table in lfs.tables && Legal(value) && IsString(value)
      requires Slot(table, key) in latest ==> latest[Slot(table, key)].timestamp < now
      modifies this`latest, memory, memory.frameStatus, memory.frameStatus.bytes, memory.store`frames,
               memory.store.buffer
      ensures Valid()
      ensures result.InsertOverflow? <==> |value| > memory.store.maxValueLength
      ensures result.InsertOverflow? ==> memory.cache == old(memory.cache)
      ensures !result.InsertOverflow? ==>
              && (memory.cache, result.InsertOk?) == Upserted(old(memory.cache), Slot(table, key), now, value)
              && (result.InsertOk? <==> Slot(table, key) in old(memory.cache).pages || HasRoom(old(memory.cache)))
              && Makes(old(Journaling(None)), Step.Insert(Slot(table, key), now, value), Journaling(None))
      ensures latest == if result.InsertOk? then old(latest)[Slot(table, key) := Ack(now, value)] else old(latest)
    {
      if |value| > memory.store.maxValueLength {
        return InsertOverflow;
      }
      ghost var sys := Journaling(None);
      var ok := Upsert(Slot(table, key), now, value);
      InsertIsMap(sys, Slot(table, key), now, value, memory.store.maxValueLength);
      InsertFindsRoom(sys, Slot(table, key), now, value, memory.store.maxValueLength);
      if !ok {
        return InsertFull;
      }
      latest := latest[Slot(table, key) := Ack(now, value)];
      result := InsertOk;
    }

    // ---- select ----

    /** The page is in the cache, or nothing newer is in flight than what the engine would answer. */
    ghost predicate Clear(s: Slot)
      reads memory, lfs
    {
      s in memory.cache.pages || (s.table in lfs.view ==> Engine.NoneHidden(lfs.view[s.table], s.key))
    }

    /** With this record in the cache, memory and engine are still the map. */
    ghost predicate MapWith(s: Slot, timestamp: uint64, value: Text)
      reads this, memory, memory.store, lfs
    {
      IsMap(Journaling(None).(cache := Fetched(memory.cache, s, timestamp, value).0), memory.store.maxValueLength)
    }

    /** `API_Select`: from the cache, else from the engine, and then into the cache if there is room. */
    method Select(table: string, key: uint16) returns (result: SelectResult)
      requires Valid()
      modifies memory, memory.frameStatus, memory.frameStatus.bytes, memory.store`frames, memory.store.buffer
      ensures memory.Valid() && lfs.Valid() && Separate(memory, lfs)
      ensures old(Clear(Slot(table, key))) ==> Valid() && result.Told() == ValueOf(Last(latest, Slot(table, key)))
      ensures result.TableNotFound? <==> table !in lfs.tables
      // a hit
      ensures Slot(table, key) in old(memory.cache).pages ==>
              && result == Ok(old(memory.cache).pages[Slot(table, key)].value)
              && memory.cache == Touched(old(memory.cache), Slot(table, key))
              && Makes(old(Journaling(None)), SelectHit(Slot(table, key)), Journaling(None))
      // a miss
      ensures Slot(table, key) !in old(memory.cache).pages && table !in lfs.view ==> memory.cache == old(memory.cache)
      ensures Slot(table, key) !in old(memory.cache).pages && table in lfs.view ==>
              exists o :: IsNewest(Engine.Visible(lfs.view[table]), key, o)
                          && Fetches(old(memory.cache), memory.cache, Slot(table, key), o, result)
      ensures Slot(table, key) !in old(memory.cache).pages && table in lfs.view ==>
              exists found :: Selects(old(Journaling(None)), Slot(table, key), found, Journaling(None))
    {
      var s := Slot(table, key);
      ghost var sys := Journaling(None);
      var f := memory.GetFrame(s);
      if f.Some? {
        HitIsMap(sys, s, memory.store.maxValueLength);
        TablesAreViews(lfs.Now(), lfs.view);
        return Ok(f.value.value);
      }
      ghost var o, found;
      result, o, found := ReadThrough(s);
    }

    /** The memory asks the engine; nothing changes. */
    method AskEngine(s: Slot) returns (answer: Lfs.SelectResult, ghost o: Option<Record>, ghost found: Option<Record>)
      requires Valid() && s !in memory.cache.pages
      ensures answer.TableNotFound? <==> s.table !in lfs.tables
      ensures lfs.tables.Keys == lfs.view.Keys && (s.table !in lfs.view ==> s !in latest)
      ensures s.table in lfs.view ==> answer == Lfs.ResultOf(o) && IsNewest(Engine.Visible(lfs.view[s.table]), s.key, o)
      ensures s.table in lfs.view && o.Some? ==> Fits(o.value.value, memory.store.maxValueLength)
      ensures s.table in lfs.view && Clear(s) ==>
              o == Last(latest, s) && (o.Some? ==> MapWith(s, o.value.timestamp, o.value.value))
      ensures s.table in lfs.view ==> Selects(Journaling(None), s, found, Cached(Journaling(None), s, o))
    {
      TablesAreViews(lfs.Now(), lfs.view);
      SlotsHaveTables(Journaling(None), memory.store.maxValueLength);
      answer, found := lfs.Select(s.table, s.key);
      o := None;
      if s.table in lfs.view {
        o := Engine.Answer(Engine.Next(lfs.view[s.table], Engine.SelectFiles(0, s.key, found)), 0);
        MissFits(lfs.Now(), Journaling(None), s, found, memory.store.maxValueLength);
        MissSelects(lfs.Now(), Journaling(None), s, found);
        if Clear(s) {
          MissIsMap(lfs.Now(), Journaling(None), s, found, memory.store.maxValueLength);
        }
      }
    }

    /** The rest of `API_Select` for a value that is not in the cache. */
    method ReadThrough(s: Slot) returns (result: SelectResult, ghost o: Option<Record>, ghost found: Option<Record>)
      requires Valid() && s !in memory.cache.pages
      modifies memory, memory.frameStatus, memory.frameStatus.bytes, memory.store`frames, memory.store.buffer
      ensures memory.Valid() && lfs.Valid() && Separate(memory, lfs)
      ensures old(Clear(s)) ==> Valid() && result.Told() == ValueOf(Last(latest, s))
      ensures result.TableNotFound? <==> s.table !in lfs.tables
      ensures s.table in lfs.tables <==> s.table in lfs.view
      ensures s.table !in lfs.view ==> memory.cache == old(memory.cache)
      ensures s.table in lfs.view ==> IsNewest(Engine.Visible(lfs.view[s.table]), s.key, o)
      ensures s.table in lfs.view ==> Fetches(old(memory.cache), memory.cache, s, o, result)
      ensures s.table in lfs.view ==> Selects(old(Journaling(None)), s, found, Journaling(None))
    {
      var answer;
      answer, o, found := AskEngine(s);
      if answer.TableNotFound? {
        return TableNotFound, o, found;
      }
      result := Deliver(s, answer, o);
    }

    /** What the engine answered is told, and becomes a page if there is room. */
    method Deliver(s: Slot, answer: Lfs.SelectResult, ghost o: Option<Record>) returns (result: SelectResult)
      requires Valid() && s !in memory.cache.pages && answer == Lfs.ResultOf(o)
      requires o.Some? ==> Fits(o.value.value, memory.store.maxValueLength) && o.value.key == s.key
      modifies memory, memory.frameStatus, memory.frameStatus.bytes, memory.store`frames, memory.store.buffer
      ensures memory.Valid() && lfs.Valid() && Separate(memory, lfs)
      ensures Journaling(None) == Cached(old(Journaling(None)), s, o)
      ensures Fetches(old(memory.cache), memory.cache, s, o, result) && result.Told() == ValueOf(o)
      ensures old(o.Some? ==> MapWith(s, o.value.timestamp, o.value.value)) ==> Valid()
    {
      if answer.KeyNotFound? {
        return KeyNotFound;
      }
      result := CacheValue(s, answer.timestamp, answer.value);
    }

    /** What the engine found goes into the cache if there is room, and to the client in any case. */
    method CacheValue(s: Slot, timestamp: uint64, found: Text) returns (result: SelectResult)
      requires Valid() && s !in memory.cache.pages && Fits(found, memory.store.maxValueLength)
      modifies memory, memory.frameStatus, memory.frameStatus.bytes, memory.store`frames, memory.store.buffer
      ensures memory.Valid() && lfs.Valid() && Separate(memory, lfs)
      ensures memory.cache == Fetched(old(memory.cache), s, timestamp, found).0
      ensures Fetches(old(memory.cache), memory.cache, s, Some(Record(timestamp, s.key, found)), result)
      ensures old(MapWith(s, timestamp, found)) ==> Valid()
    {
      var value := Cut(found, memory.store.maxValueLength);
      CacheIsSound(Journaling(None), memory.store.maxValueLength);
      FetchedPages(memory.cache, s, timestamp, found);
      var ok := memory.InsertNewValue(s, timestamp, value);
      result := if ok then Ok(value) else MemoryFull(value);
    }

    // ---- journal ----

    /** `Journal_Register`: the record of a dirty frame goes to the engine. */
    method JournalRegister(df: DirtyFrame, ghost s: Slot, ghost emitted: set<Slot>)
      requires ValidIn(Some(emitted)) && s !in emitted && s in DirtySlots(memory.cache)
      requires s in memory.index && df == DirtyFrame(s.table, memory.index[s].frame)
      modifies lfs`memtable, lfs`view
      ensures ValidIn(Some(emitted + {s})) && s.table in old(lfs.view)
      ensures Makes(old(Journaling(Some(emitted))), JournalEmit(s), Journaling(Some(emitted + {s})))
      ensures lfs.view == Emitted(old(lfs.view), s, memory.cache.pages[s])
    {
      ghost var sys := Journaling(Some(emitted));
      EmitIsMap(sys, s, emitted, memory.store.maxValueLength);
      EmitMakes(sys, s);
      SendFrame(df, s);
    }

    /** The record is read from the frame, not from the page table. */
    method SendFrame(df: DirtyFrame, ghost s: Slot)
      requires memory.Valid() && lfs.Valid() && Separate(memory, lfs)
      requires s in memory.cache.pages && s.table in lfs.view && Legal(memory.cache.pages[s].value)
      requires s in memory.index && df == DirtyFrame(s.table, memory.index[s].frame)
      modifies lfs`memtable, lfs`view
      ensures memory.Valid() && lfs.Valid() && Separate(memory, lfs)
      ensures lfs.view == Emitted(old(lfs.view), s, memory.cache.pages[s])
    {
      Pages.Resident(memory.index, memory.monotonicCounter, memory.Frames(), memory.cache, s);
      TablesAreViews(lfs.Now(), lfs.view);
      var frame := memory.store.Read(df.frame);
      var ok := lfs.Insert(df.table, frame.key, frame.value, frame.timestamp);
    }

    /** `API_Journal`: one insert for each dirty page and none for the others, then the memory is empty. */
    method Journal() returns (ghost slots: seq<Slot>)
      requires Valid()
      modifies memory, memory.frameStatus, memory.frameStatus.bytes, lfs`memtable, lfs`view
      ensures Valid() && memory.cache == EmptyCache(old(memory.cache).capacity)
      ensures Journalled(old(memory.cache), old(lfs.view), slots, lfs.view)
      ensures Run(old(Journaling(None)), EmitSteps(slots) + [JournalEnd]) == Some(Journaling(None))
    {
      var list;
      list, slots := memory.DirtyFrames();
      ghost var sys, length := Journaling(None), memory.store.maxValueLength;
      EmitAll(list, slots);
      CleanUp();
      JournalRuns(sys, slots, lfs.view, length);
    }

    /** The end of a journal: the memory is empty. */
    method CleanUp()
      requires ValidIn(Some(DirtySlots(memory.cache)))
      modifies memory, memory.frameStatus, memory.frameStatus.bytes
      ensures Valid() && memory.cache == EmptyCache(old(memory.cache).capacity)
    {
      JournalEndIsMap(Journaling(Some(DirtySlots(memory.cache))), memory.store.maxValueLength);
      memory.CleanMemory();
    }

    method EmitAll(list: seq<DirtyFrame>, ghost slots: seq<Slot>)
      requires Valid() && Memory.Lists(list, slots, memory.index, memory.cache)
      modifies lfs`memtable, lfs`view
      ensures ValidIn(Some(DirtySlots(memory.cache)))
      ensures lfs.view == AllEmitted(old(lfs.view), slots, memory.cache.pages)
    {
      ghost var emitted: set<Slot> := {};
      JournalStartIsMap(Journaling(None), memory.store.maxValueLength);
      for i := 0 to |list|
        invariant ValidIn(Some(emitted))
        invariant forall s :: s in emitted <==> s in slots[..i]
        invariant lfs.view == AllEmitted(old(lfs.view), slots[..i], memory.cache.pages)
      {
        ghost var s := slots[i];
        assert slots[..i + 1] == slots[..i] + [s];
        JournalRegister(list[i], s, emitted);
        emitted := emitted + {s};
      }
      assert slots[..|list|] == slots;
      assert emitted == DirtySlots(memory.cache);
    }

    method JournalThenInsert(table: string, key: uint16, value: Text, now: uint64)
      returns (result: InsertResult, ghost slots: seq<Slot>)
      requires Valid() && table in lfs.tables && Legal(value) && IsString(value)
      requires Slot(table, key) in latest ==> latest[Slot(table, key)].timestamp < now
      requires |value| <= memory.store.maxValueLength
      modifies this`latest, memory, memory.frameStatus, memory.frameStatus.bytes, memory.store`frames,
               memory.store.buffer
      modifies lfs`memtable, lfs`view
      ensures Valid() && result.InsertOk?
      ensures latest == old(latest)[Slot(table, key) := Ack(now, value)]
      ensures Journalled(old(memory.cache), old(lfs.view), slots, lfs.view)
      ensures memory.cache == OnePage(old(memory.cache).capacity, Slot(table, key), now, value)
    {
      CacheIsSound(Journaling(None), memory.store.maxValueLength);
      JournalMakesRoom(memory.cache, Slot(table, key), now, value);
      slots := Journal();
      result := Insert(table, key, value, now);
    }

    /** The kernel's side of an insert: while the memory is full, journal and try again.  Once is enough. */
    method InsertRetrying(table: string, key: uint16, value: Text, now: uint64, later: uint64)
      returns (result: InsertResult, ghost at: uint64, ghost slots: seq<Slot>)
      requires Valid() && table in lfs.tables && Legal(value) && IsString(value) && now <= later
      requires Slot(table, key) in latest ==> latest[Slot(table, key)].timestamp < now
      modifies this`latest, memory, memory.frameStatus, memory.frameStatus.bytes, memory.store`frames,
               memory.store.buffer
      modifies lfs`memtable, lfs`view
      ensures Valid()
      ensures result == if |value| > memory.store.maxValueLength then InsertOverflow else InsertOk
      ensures latest == if result.InsertOk? then old(latest)[Slot(table, key) := Ack(at, value)] else old(latest)
      ensures result.InsertOverflow? ==> memory.cache == old(memory.cache) && lfs.view == old(lfs.view)
      // no journal while the page is there or there is room
      ensures result.InsertOk? && (Slot(table, key) in old(memory.cache).pages || HasRoom(old(memory.cache))) ==>
              && at == now && lfs.view == old(lfs.view)
              && (memory.cache, true) == Upserted(old(memory.cache), Slot(table, key), now, value)
      // else one, of all dirty pages
      ensures result.InsertOk? && !(Slot(table, key) in old(memory.cache).pages || HasRoom(old(memory.cache))) ==>
              && at == later && Journalled(old(memory.cache), old(lfs.view), slots, lfs.view)
              && memory.cache == OnePage(old(memory.cache).capacity, Slot(table, key), later, value)
    {
      result := Insert(table, key, value, now);
      at, slots := now, [];
      ghost var room := Slot(table, key) in old(memory.cache).pages || HasRoom(old(memory.cache));
      while result.InsertFull?
        invariant Valid() && (result.InsertOverflow? <==> |value| > memory.store.maxValueLength)
        invariant latest == if result.InsertOk? then old(latest)[Slot(table, key) := Ack(at, value)] else old(latest)
        invariant result.InsertOverflow? ==> memory.cache == old(memory.cache) && lfs.view == old(lfs.view)
        invariant result.InsertFull? ==>
                    !room && lfs.view == old(lfs.view) && memory.cache == old(memory.cache).(full := true)
        invariant result.InsertOk? && room ==>
                    && at == now && lfs.view == old(lfs.view)
                    && (memory.cache, true) == Upserted(old(memory.cache), Slot(table, key), now, value)
        invariant result.InsertOk? && !room ==>
                    && at == later && Journalled(old(memory.cache), old(lfs.view), slots, lfs.view)
                    && memory.cache == OnePage(old(memory.cache).capacity, Slot(table, key), later, value)
        decreases result.InsertFull?
      {
        result, slots := JournalThenInsert(table, key, value, later);
        at := later;
      }
    }

    // ---- what the engine does between two operations of the memory ----

    method EngineSwap()
      requires Valid() && lfs.dumping == map[]
      modifies lfs`memtable, lfs`dumping, lfs`view
      ensures Valid() && lfs.view.Keys == old(lfs.view).Keys
      ensures forall t :: t in lfs.view ==>
                lfs.view[t] == old(lfs.view)[t].(mem := [], inflight := old(lfs.view)[t].mem)
      ensures Makes(old(Journaling(None)), SwapMemtable, Journaling(None))
    {
      ghost var sys := Journaling(None);
      lfs.SwapMemtable();
      assert forall t :: t in sys.tables ==> Engine.Enabled(sys.tables[t], Engine.Swap);
      SwapIsMap(sys, memory.store.maxValueLength);
    }

    /** The dump leaves the memory alone. */
    method DumpBehind(table: string) returns (outcome: Engine.Outcome)
      requires memory.Valid() && lfs.Valid() && Separate(memory, lfs) && table in lfs.dumping
      modifies lfs.fs, lfs.fs.allocator, lfs.fs.allocator.bitmap, lfs.fs.allocator.bitmap.bytes, lfs.fs.disk,
               lfs`dumping, lfs`view
      ensures memory.Valid() && lfs.Valid() && Separate(memory, lfs)
      ensures outcome == old(lfs.DumpOutcome(Render(lfs.dumping[table])))
      ensures table in old(lfs.view) && Engine.Enabled(old(lfs.view)[table], Engine.Action.DumpTable(outcome))
      ensures lfs.view ==
              old(lfs.view)[table := Engine.Next(old(lfs.view)[table], Engine.Action.DumpTable(outcome))]
    {
      outcome := lfs.DumpTable(table);
    }

    /** A dump for which there are blocks is invisible to the clients. */
    method EngineDump(table: string) returns (outcome: Engine.Outcome)
      requires Valid() && table in lfs.dumping
      modifies lfs.fs, lfs.fs.allocator, lfs.fs.allocator.bitmap, lfs.fs.allocator.bitmap.bytes, lfs.fs.disk,
               lfs`dumping, lfs`view
      ensures outcome == old(lfs.DumpOutcome(Render(lfs.dumping[table])))
      ensures table in old(lfs.view) && Engine.Enabled(old(lfs.view)[table], Engine.Action.DumpTable(outcome))
      ensures lfs.view ==
              old(lfs.view)[table := Engine.Next(old(lfs.view)[table], Engine.Action.DumpTable(outcome))]
      ensures Makes(old(Journaling(None)), Internal(table, Engine.Action.DumpTable(outcome)), Journaling(None))
      ensures old(lfs.DumpOutcome(Render(lfs.dumping[table]))).Stored? ==> Valid()
    {
      ghost var sys := Journaling(None);
      outcome := DumpBehind(table);
      InternalMakes(sys, table, Engine.Action.DumpTable(outcome));
      if outcome.Stored? {
        InternalIsMap(sys, table, Engine.Action.DumpTable(outcome), memory.store.maxValueLength);
      }
    }

    method EngineRename(table: string) returns (started: bool)
      requires Valid() && table !in lfs.compactions
      modifies lfs.fs`files, lfs.fs`volume, lfs`compactions, lfs`view
      ensures Valid() && started == (table in lfs.tables && old(lfs.TmpNumbers(table)) != {})
      ensures started ==> table in old(lfs.view) && Engine.Enabled(old(lfs.view)[table], Engine.Rename)
      ensures lfs.view == if started then old(lfs.view)[table := Engine.Next(old(lfs.view)[table], Engine.Rename)]
                          else old(lfs.view)
      ensures started ==> Makes(old(Journaling(None)), Internal(table, Engine.Rename), Journaling(None))
    {
      ghost var sys := Journaling(None);
      started := lfs.CompactRename(table);
      if started {
        InternalMakes(sys, table, Engine.Rename);
        InternalIsMap(sys, table, Engine.Rename, memory.store.maxValueLength);
      }
    }

    method EngineMergeBin(table: string)
      requires Valid() && table in lfs.compactions && table in lfs.tables
               && lfs.compactions[table].binsRead < lfs.tables[table]
      modifies lfs`compactions, lfs`view
      ensures Valid() && table in old(lfs.view) && Engine.Enabled(old(lfs.view)[table], Engine.MergeBin)
      ensures lfs.view == old(lfs.view)[table := Engine.Next(old(lfs.view)[table], Engine.MergeBin)]
      ensures Makes(old(Journaling(None)), Internal(table, Engine.MergeBin), Journaling(None))
    {
      ghost var sys := Journaling(None);
      lfs.CompactMergeBin(table);
      InternalMakes(sys, table, Engine.MergeBin);
      InternalIsMap(sys, table, Engine.MergeBin, memory.store.maxValueLength);
    }

    method EngineMergeTmpc(table: string) returns (n: nat)
      requires Valid() && table in lfs.compactions && table in lfs.tables
      requires lfs.compactions[table].binsRead == lfs.tables[table] && lfs.compactions[table].pending != {}
      modifies lfs`compactions, lfs`view
      ensures Valid() && table in old(lfs.view) && Engine.Enabled(old(lfs.view)[table], Engine.MergeTmpc(n))
      ensures lfs.view == old(lfs.view)[table := Engine.Next(old(lfs.view)[table], Engine.MergeTmpc(n))]
      ensures Makes(old(Journaling(None)), Internal(table, Engine.MergeTmpc(n)), Journaling(None))
    {
      ghost var sys := Journaling(None);
      n := lfs.CompactMergeTmpc(table);
      InternalMakes(sys, table, Engine.MergeTmpc(n));
      InternalIsMap(sys, table, Engine.MergeTmpc(n), memory.store.maxValueLength);
    }

    /** A commit for which there are blocks is invisible to the clients. */
    method EngineCommit(table: string) returns (ghost output: seq<seq<Record>>, ghost written: set<nat>)
      requires Valid() && table in lfs.compactions && table in lfs.tables
      requires lfs.compactions[table].binsRead == lfs.tables[table] && lfs.compactions[table].pending == {}
      modifies lfs.fs, lfs.fs.allocator, lfs.fs.allocator.bitmap, lfs.fs.allocator.bitmap.bytes, lfs.fs.disk,
               lfs`compactions, lfs`view
      ensures table in old(lfs.view) && Engine.Enabled(old(lfs.view)[table], Engine.Commit(output, written))
      ensures lfs.view == old(lfs.view)[table := Engine.Next(old(lfs.view)[table], Engine.Commit(output, written))]
      ensures Makes(old(Journaling(None)), Internal(table, Engine.Commit(output, written)), Journaling(None))
      ensures old(lfs.CommitFits(table)) ==> Valid()
    {
      ghost var sys := Journaling(None);
      output, written := lfs.CompactCommit(table);
      InternalMakes(sys, table, Engine.Commit(output, written));
      if old(lfs.CommitFits(table)) {
        InternalIsMap(sys, table, Engine.Commit(output, written), memory.store.maxValueLength);
      }
    }
  }

  /** What a step adds to a table fits as well. */
  lemma StepFits(t: Engine.Table, a: Engine.Action, maxValueLength: nat)
    requires Engine.Inv(t) && Engine.Enabled(t, a) && TableFits(t, maxValueLength)
    requires a.Insert? ==> Fits(a.r.value, maxValueLength)
    ensures TableFits(Engine.Next(t, a), maxValueLength)
  {
    History.StepCondenses(t, a);
    forall r | r in Engine.Logical(Engine.Next(t, a)) ensures Fits(r.value, maxValueLength) {
      assert r in Engine.Logical(t) + History.InsertedBy(a);
    }
  }

  lemma TableStepFits(sys: System, sys': System, table: string, a: Engine.Action, maxValueLength: nat)
    requires SysInv(sys) && TablesFit(sys, maxValueLength) && table in sys.tables
    requires Engine.Enabled(sys.tables[table], a) && (a.Insert? ==> Fits(a.r.value, maxValueLength))
    requires sys'.tables == sys.tables[table := Engine.Next(sys.tables[table], a)]
    ensures TablesFit(sys', maxValueLength)
  {
    assert TableAgrees(sys, table);
    StepFits(sys.tables[table], a, maxValueLength);
    forall t | t in sys'.tables ensures TableFits(sys'.tables[t], maxValueLength) {
      assert TableFits(sys.tables[t], maxValueLength);
    }
  }

  lemma SwapFits(sys: System, maxValueLength: nat)
    requires SysInv(sys) && TablesFit(sys, maxValueLength) && Enabled(sys, SwapMemtable)
    ensures TablesFit(Next(sys, SwapMemtable), maxValueLength)
  {
    forall t | t in sys.tables ensures TableFits(Next(sys, SwapMemtable).tables[t], maxValueLength) {
      assert TableAgrees(sys, t) && TableFits(sys.tables[t], maxValueLength);
      StepFits(sys.tables[t], Engine.Swap, maxValueLength);
    }
  }

  /** A harmless step, as long as its value fits. */
  lemma StepIsMap(sys: System, step: Step, maxValueLength: nat)
    requires IsMap(sys, maxValueLength) && Enabled(sys, step) && EndToEnd.Harmless(sys, step)
    requires step.Insert? ==> Fits(step.value, maxValueLength)
    ensures IsMap(Next(sys, step), maxValueLength)
  {
    var sys' := Next(sys, step);
    assert SysInv(sys);
    StepInv(sys, step);
    match step
    case SelectStart(s, id, found) =>
      TableStepFits(sys, sys', s.table, Engine.SelectFiles(id, s.key, found), maxValueLength);
    case SelectEnd =>
      var Read(s, id) := sys.reading.value;
      TableStepFits(sys, sys', s.table, Engine.SelectMemtable(id), maxValueLength);
    case JournalEmit(s) =>
      var e := sys.cache.pages[s];
      TableStepFits(sys, sys', s.table, Engine.Action.Insert(Record(e.timestamp, s.key, e.value)), maxValueLength);
    case SwapMemtable => SwapFits(sys, maxValueLength);
    case Internal(t, a) => TableStepFits(sys, sys', t, a, maxValueLength);
    case _ => assert sys'.tables == sys.tables;
  }

  lemma CacheIsSound(sys: System, maxValueLength: nat)
    requires IsMap(sys, maxValueLength)
    ensures PageCache.Inv(sys.cache)
  {
    assert SysInv(sys);
  }

  lemma InsertFindsRoom(sys: System, s: Slot, now: uint64, value: Text, maxValueLength: nat)
    requires IsMap(sys, maxValueLength)
    ensures Upserted(sys.cache, s, now, value).1 <==> s in sys.cache.pages || HasRoom(sys.cache)
    ensures !Upserted(sys.cache, s, now, value).1 ==>
              Upserted(sys.cache, s, now, value).0 == sys.cache.(full := true)
  {
    CacheIsSound(sys, maxValueLength);
    UpsertedPages(sys.cache, s, now, value);
  }

  lemma InsertIsMap(sys: System, s: Slot, now: uint64, value: Text, maxValueLength: nat)
    requires IsMap(sys, maxValueLength) && Fits(value, maxValueLength) && Enabled(sys, Step.Insert(s, now, value))
             && EndToEnd.Harmless(sys, Step.Insert(s, now, value))
    ensures IsMap(Next(sys, Step.Insert(s, now, value)), maxValueLength)
  {
    StepIsMap(sys, Step.Insert(s, now, value), maxValueLength);
  }

  lemma EmptyIsMap(w: StoreView.World, view: map<string, Engine.Table>, capacity: nat, maxValueLength: nat)
    requires StoreView.Represents(w, view) && capacity > 0 && forall t :: t in view ==> Engine.Logical(view[t]) == {}
    ensures IsMap(System(EmptyCache(capacity), view, None, None, map[]), maxValueLength)
  {
    var sys := System(EmptyCache(capacity), view, None, None, map[]);
    EmptyInv(capacity);
    forall t | t in view ensures TableAgrees(sys, t) && TableFits(view[t], maxValueLength) {
      StoreView.TableShown(w, view, t);
    }
    assert SysInv(sys) && TablesFit(sys, maxValueLength);
  }

  lemma HitIsMap(sys: System, s: Slot, maxValueLength: nat)
    requires IsMap(sys, maxValueLength) && Idle(sys) && s in sys.cache.pages
    ensures IsMap(sys.(cache := Touched(sys.cache, s)), maxValueLength)
    ensures s.table in sys.tables && s in sys.latest && sys.latest[s].value == sys.cache.pages[s].value
  {
    assert SysInv(sys);
    StepIsMap(sys, SelectHit(s), maxValueLength);
  }

  lemma TablesAreViews(w: StoreView.World, view: map<string, Engine.Table>)
    requires StoreView.Represents(w, view)
    ensures w.tables.Keys == view.Keys
  {
  }

  lemma SlotsHaveTables(sys: System, maxValueLength: nat)
    requires IsMap(sys, maxValueLength)
    ensures forall s :: s in sys.latest ==> s.table in sys.tables
  {
    assert SysInv(sys);
  }

  /** The system with what a read found in the cache, if there was room. */
  function Cached(sys: System, s: Slot, o: Option<Record>): System {
    if o.None? then sys else sys.(cache := Fetched(sys.cache, s, o.value.timestamp, o.value.value).0)
  }

  lemma MissSelects(w: StoreView.World, sys: System, s: Slot, found: Option<Record>)
    requires StoreView.Represents(w, sys.tables) && s.table in w.tables && Idle(sys) && s !in sys.cache.pages
    requires Engine.Enabled(sys.tables[s.table], Engine.SelectFiles(0, s.key, found))
    ensures var o := Engine.Answer(Engine.Next(sys.tables[s.table], Engine.SelectFiles(0, s.key, found)), 0);
            Selects(sys, s, found, Cached(sys, s, o))
  {
    StoreView.TableShown(w, sys.tables, s.table);
    SelectBegins(sys, s, found);
  }

  /** Whatever a read of the engine finds, the memory can hold. */
  lemma MissFits(w: StoreView.World, sys: System, s: Slot, found: Option<Record>, maxValueLength: nat)
    requires StoreView.Represents(w, sys.tables) && IsMap(sys, maxValueLength) && s.table in w.tables
    requires Engine.Enabled(sys.tables[s.table], Engine.SelectFiles(0, s.key, found))
    ensures var t := sys.tables[s.table];
            var o := Engine.Answer(Engine.Next(t, Engine.SelectFiles(0, s.key, found)), 0);
            IsNewest(Engine.Visible(t), s.key, o) && (o.Some? ==> Fits(o.value.value, maxValueLength))
  {
    var t := sys.tables[s.table];
    var begun := Engine.Next(t, Engine.SelectFiles(0, s.key, found));
    assert SysInv(sys) && TableAgrees(sys, s.table) && TableFits(t, maxValueLength);
    Engine.StepInv(t, Engine.SelectFiles(0, s.key, found));
    Engine.AnswerIsNewestVisible(begun, 0);
    assert forall r :: r in Engine.Visible(t) ==> r in Engine.Logical(t);
  }

  /** Unless something newer is in flight it is the last insert, and caching it changes nothing. */
  lemma MissIsMap(w: StoreView.World, sys: System, s: Slot, found: Option<Record>, maxValueLength: nat)
    requires StoreView.Represents(w, sys.tables) && s.table in w.tables
    requires IsMap(sys, maxValueLength) && Idle(sys) && s !in sys.cache.pages
    requires Engine.Enabled(sys.tables[s.table], Engine.SelectFiles(0, s.key, found))
    requires Engine.NoneHidden(sys.tables[s.table], s.key)
    ensures var t := sys.tables[s.table];
            var o := Engine.Answer(Engine.Next(t, Engine.SelectFiles(0, s.key, found)), 0);
            && o == Last(sys.latest, s)
            && (o.Some? ==>
                  IsMap(sys.(cache := Fetched(sys.cache, s, o.value.timestamp, o.value.value).0), maxValueLength))
  {
    assert SysInv(sys) && TablesFit(sys, maxValueLength);
    StoreView.TableShown(w, sys.tables, s.table);
    var o := SelectAtOnce(sys, s, found);
    if o.Some? {
      var sys' := sys.(cache := Fetched(sys.cache, s, o.value.timestamp, o.value.value).0);
      assert TablesFit(sys', maxValueLength);
    }
  }

  /** The engine after it received the record of one page. */
  ghost function Emitted(view: map<string, Engine.Table>, s: Slot, e: Entry): map<string, Engine.Table>
    requires s.table in view
  {
    view[s.table := Engine.Next(view[s.table], Engine.Action.Insert(Record(e.timestamp, s.key, e.value)))]
  }

  /** And after those of a list of pages, in this order. */
  ghost function AllEmitted(view: map<string, Engine.Table>, slots: seq<Slot>,
                            pages: map<Slot, Entry>): map<string, Engine.Table>
  {
    if slots == [] then view
    else
      var before, s := AllEmitted(view, slots[..|slots| - 1], pages), slots[|slots| - 1];
      if s in pages && s.table in before then Emitted(before, s, pages[s]) else before
  }

  function PageRecord(s: Slot, e: Entry): Record {
    Record(e.timestamp, s.key, e.value)
  }

  /** The record is that of one of the listed pages of the table. */
  ghost predicate Sent(slots: seq<Slot>, pages: map<Slot, Entry>, table: string, r: Record) {
    var s := Slot(table, r.key);
    s in slots && s in pages && r == PageRecord(s, pages[s])
  }

  /** Each table's memtable has grown by one record for each of the listed pages of the table, and by no other. */
  lemma {:induction false} EmittedOnce(view: map<string, Engine.Table>, slots: seq<Slot>, pages: map<Slot, Entry>,
                                       table: string)
    requires NoRepeats(slots) && table in view
    ensures AllEmitted(view, slots, pages).Keys == view.Keys
    ensures var after, before := AllEmitted(view, slots, pages)[table], view[table];
            && before.mem <= after.mem && after == before.(mem := after.mem)
            && Space.KeysApart(after.mem[|before.mem|..])
            && forall r :: r in after.mem[|before.mem|..] <==> Sent(slots, pages, table, r)
  {
    if slots != [] {
      var n := |slots| - 1;
      var s := slots[n];
      EmittedOnce(view, slots[..n], pages, table);
      var shorter, before := AllEmitted(view, slots[..n], pages)[table], view[table];
      var after := AllEmitted(view, slots, pages)[table];
      assert forall u :: u in slots <==> u in slots[..n] || u == s;
      assert s !in slots[..n];
      if s.table == table && s in pages {
        assert after.mem[|before.mem|..] == shorter.mem[|before.mem|..] + [PageRecord(s, pages[s])];
        assert forall r :: r in shorter.mem[|before.mem|..] ==> r.key != s.key;
        AppendedApart(shorter.mem[|before.mem|..], PageRecord(s, pages[s]));
      } else {
        assert after == shorter;
      }
    }
  }

  lemma AppendedApart(rs: seq<Record>, r: Record)
    requires Space.KeysApart(rs) && forall q :: q in rs ==> q.key != r.key
    ensures Space.KeysApart(rs + [r]) && forall q :: q in rs + [r] <==> q in rs || q == r
  {
  }

  /** The engine has received the record of each dirty page of a cache, once. */
  ghost predicate Journalled(before: Cache, view: map<string, Engine.Table>, slots: seq<Slot>,
                             after: map<string, Engine.Table>)
  {
    && NoRepeats(slots) && (forall s :: s in slots <==> s in before.pages && before.pages[s].dirty)
    && after == AllEmitted(view, slots, before.pages)
  }

  /** A journal that has sent these pages. */
  function EmitSteps(slots: seq<Slot>): seq<Step> {
    [JournalStart] + seq(|slots|, i requires 0 <= i < |slots| => JournalEmit(slots[i]))
  }

  /** The system in the middle of such a journal. */
  ghost function Emitting(sys: System, slots: seq<Slot>): System {
    sys.(journal := Some(set s | s in slots), tables := AllEmitted(sys.tables, slots, sys.cache.pages))
  }

  lemma EmittingOne(sys: System, slots: seq<Slot>, s: Slot)
    requires s !in slots && s in DirtySlots(sys.cache) && s.table in AllEmitted(sys.tables, slots, sys.cache.pages)
    ensures Makes(Emitting(sys, slots), JournalEmit(s), Emitting(sys, slots + [s]))
    ensures AllEmitted(sys.tables, slots + [s], sys.cache.pages).Keys ==
            AllEmitted(sys.tables, slots, sys.cache.pages).Keys
  {
    assert (slots + [s])[..|slots|] == slots;
    assert (set u | u in slots + [s]) == (set u | u in slots) + {s};
    EmitMakes(Emitting(sys, slots), s);
  }

  lemma {:induction false} EmitsRun(sys: System, slots: seq<Slot>)
    requires Idle(sys) && NoRepeats(slots)
    requires forall s :: s in slots ==> s in DirtySlots(sys.cache) && s.table in sys.tables
    ensures AllEmitted(sys.tables, slots, sys.cache.pages).Keys == sys.tables.Keys
    ensures Run(sys, EmitSteps(slots)) == Some(Emitting(sys, slots))
  {
    if slots == [] {
      assert EmitSteps(slots) == [] + [JournalStart] && (set s: Slot | s in slots) == {};
      RunOneMore(sys, [], sys, JournalStart, Emitting(sys, slots));
    } else {
      var n := |slots| - 1;
      EmitsRun(sys, slots[..n]);
      assert slots[..n] + [slots[n]] == slots && slots[n] in slots && slots[n] !in slots[..n];
      EmittingOne(sys, slots[..n], slots[n]);
      RunOneMore(sys, EmitSteps(slots[..n]), Emitting(sys, slots[..n]), JournalEmit(slots[n]), Emitting(sys, slots));
      assert EmitSteps(slots[..n]) + [JournalEmit(slots[n])] == EmitSteps(slots);
    }
  }

  lemma EmitMakes(sys: System, s: Slot)
    requires sys.journal.Some? && s !in sys.journal.value && s in DirtySlots(sys.cache) && s.table in sys.tables
    ensures Makes(sys, JournalEmit(s), sys.(journal := Some(sys.journal.value + {s}),
                                            tables := Emitted(sys.tables, s, sys.cache.pages[s])))
  {
  }

  /** A whole journal is a run of the machine. */
  lemma JournalRuns(sys: System, slots: seq<Slot>, after: map<string, Engine.Table>, maxValueLength: nat)
    requires IsMap(sys, maxValueLength) && Idle(sys) && Journalled(sys.cache, sys.tables, slots, after)
    ensures Run(sys, EmitSteps(slots) + [JournalEnd]) ==
            Some(sys.(cache := EmptyCache(sys.cache.capacity), tables := after))
  {
    assert SysInv(sys);
    EmitsRun(sys, slots);
    assert (set s | s in slots) == DirtySlots(sys.cache);
    RunOneMore(sys, EmitSteps(slots), Emitting(sys, slots), JournalEnd,
               sys.(cache := EmptyCache(sys.cache.capacity), tables := after));
  }

  lemma JournalStartIsMap(sys: System, maxValueLength: nat)
    requires IsMap(sys, maxValueLength) && Idle(sys)
    ensures IsMap(sys.(journal := Some({})), maxValueLength)
  {
    assert SysInv(sys);
    StepIsMap(sys, JournalStart, maxValueLength);
  }

  lemma EmitIsMap(sys: System, s: Slot, emitted: set<Slot>, maxValueLength: nat)
    requires IsMap(sys, maxValueLength) && sys.journal == Some(emitted) && s !in emitted && s in DirtySlots(sys.cache)
    ensures s.table in sys.tables && Fits(sys.cache.pages[s].value, maxValueLength)
    ensures IsMap(sys.(tables := Emitted(sys.tables, s, sys.cache.pages[s]), journal := Some(emitted + {s})),
            maxValueLength)
  {
    assert SysInv(sys);
    StepIsMap(sys, JournalEmit(s), maxValueLength);
  }

  lemma JournalEndIsMap(sys: System, maxValueLength: nat)
    requires IsMap(sys, maxValueLength) && sys.journal == Some(DirtySlots(sys.cache))
    ensures IsMap(sys.(cache := EmptyCache(sys.cache.capacity), journal := None), maxValueLength)
  {
    assert SysInv(sys);
    StepIsMap(sys, JournalEnd, maxValueLength);
  }

  lemma SwapIsMap(sys: System, maxValueLength: nat)
    requires IsMap(sys, maxValueLength) && StoreView.CanSwap(sys.tables)
    ensures IsMap(sys.(tables := StoreView.SwappedView(sys.tables)), maxValueLength)
  {
    assert SysInv(sys);
    assert forall t :: t in sys.tables ==> Engine.Enabled(sys.tables[t], Engine.Swap);
    StepIsMap(sys, SwapMemtable, maxValueLength);
    assert Next(sys, SwapMemtable).tables == StoreView.SwappedView(sys.tables);
  }

  lemma InternalMakes(sys: System, table: string, a: Engine.Action)
    requires table in sys.tables && Engine.Enabled(sys.tables[table], a) && !a.Insert? && !a.Swap? && sys.reading.None?
    ensures Makes(sys, Internal(table, a), sys.(tables := sys.tables[table := Engine.Next(sys.tables[table], a)]))
  {
  }

  lemma InternalIsMap(sys: System, table: string, a: Engine.Action, maxValueLength: nat)
    requires IsMap(sys, maxValueLength) && table in sys.tables && Engine.Enabled(sys.tables[table], a)
    requires !a.Insert? && !a.Swap? && History.FindsBlocks(sys.tables[table], a) && sys.reading.None?
    ensures IsMap(sys.(tables := sys.tables[table := Engine.Next(sys.tables[table], a)]), maxValueLength)
  {
    assert SysInv(sys) && TableAgrees(sys, table);
    History.FindsBlocksIsLossless(sys.tables[table], a);
    StepIsMap(sys, Internal(table, a), maxValueLength);
  }
}
