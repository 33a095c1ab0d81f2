/**
 The page cache of the program: frames in one buffer, a bit map of the used ones, and the segments.
 Each method is proved to do to the abstract cache what `PageCache` says, flag included.
 */
module Memory {
  import opened Basics
  import opened Bitarrays
  import opened BlockLists
  import opened Frames
  import opened PageCache
  import opened Pages

  /** The set bits are the frames with a page and those just handed out. */
  ghost predicate BitsShow(bits: seq<bool>, n: nat, owner: map<nat, Slot>, taken: set<nat>) {
    && n <= |bits| && (forall f :: f in owner ==> f < n)
    && forall b {:trigger bits[b]} :: 0 <= b < n ==> (bits[b] <==> b in owner || b in taken)
  }

  lemma FreeFrameExists(bits: seq<bool>, n: nat, owner: map<nat, Slot>, i: nat)
    requires BitsShow(bits, n, owner, {}) && i <= n && (forall b :: 0 <= b < i ==> bits[b])
    ensures i == n ==> |owner| == n
    ensures i < n && !bits[i] ==> |owner| < n && i !in owner
  {
    assert owner.Keys <= Upto(n);
    if i == n {
      assert owner.Keys == Upto(n) by {
        forall b | b in Upto(n) ensures b in owner.Keys { assert bits[b]; }
      }
    } else if !bits[i] {
      assert owner.Keys <= Upto(n) - {i};
      SubsetSize(owner.Keys, Upto(n) - {i});
    }
  }

  lemma BitFreed(bits: seq<bool>, n: nat, owner: map<nat, Slot>, f: nat)
    requires BitsShow(bits, n, owner, {}) && f < n
    ensures BitsShow(bits[f := false], n, owner - {f}, {})
  {
  }

  lemma SubsetSize(a: set<nat>, b: set<nat>)
    requires a <= b
    ensures |a| <= |b|
  {
    assert b == a + (b - a);
  }

  /** What making room leaves. */
  lemma RoomIs(index: map<Slot, Page>, bound: nat, st: Store, c: Cache)
    requires Linked(index, bound, st, c)
    ensures MakeRoom(c).1 ==> |MakeRoom(c).0.pages| < MakeRoom(c).0.capacity
    ensures forall s :: s in MakeRoom(c).0.pages ==> s in c.pages
    ensures MakeRoom(c).1 <==> HasRoom(c)
    ensures !c.full && |c.pages| < c.capacity ==> MakeRoom(c) == (c, true)
  {
    assert Details(index, bound, st, c);
    MakeRoomInv(c);
  }

  /** A clean page with the smallest use counter of a page table. */
  ghost predicate IsLru(pages: PageTable, best: Option<Page>) {
    match best
    case None => forall k :: k in pages ==> pages[k].dirty
    case Some(p) => (exists k :: k in pages && pages[k] == p) && !p.dirty
                    && forall k :: k in pages && !pages[k].dirty ==> p.counter <= pages[k].counter
  }

  ghost predicate NoBetter(pages: PageTable, minCounter: nat) {
    forall k :: k in pages && !pages[k].dirty ==> minCounter <= pages[k].counter
  }

  /** No table has a clean page: there is no victim. */
  lemma NoVictim(segments: Segments, index: map<Slot, Page>, bound: nat, st: Store, c: Cache)
    requires Indexed(segments, index) && Linked(index, bound, st, c)
    requires forall t :: t in segments ==> IsLru(segments[t], None)
    ensures FirstClean(c.recency, c.pages) == None
  {
    assert Details(index, bound, st, c);
    forall s | s in c.recency ensures c.pages[s].dirty {
      assert PageOf(segments, s) == Some(index[s]);
      assert Holds(index[s], s, c.pages[s], bound, st);
      assert IsLru(segments[s.table], None);
    }
    var i := FirstCleanIs(c.recency, c.pages);
  }

  /** The best page of all tables is the least recently used clean page of the cache. */
  lemma VictimIs(segments: Segments, index: map<Slot, Page>, bound: nat, st: Store, c: Cache, table: string, best: Page)
    returns (s: Slot)
    requires Indexed(segments, index) && Linked(index, bound, st, c)
    requires table in segments && IsLru(segments[table], Some(best))
    requires forall t :: t in segments ==> NoBetter(segments[t], best.counter)
    ensures FirstClean(c.recency, c.pages) == Some(s) && s.table == table && s in index && index[s] == best
  {
    var k :| k in segments[table] && segments[table][k] == best;
    s := Slot(table, k);
    assert PageOf(segments, s) == Some(best);
    assert Details(index, bound, st, c);
    assert Holds(index[s], s, c.pages[s], bound, st);
    forall u | u in c.recency && !c.pages[u].dirty ensures CounterOf(index, s) <= CounterOf(index, u) {
      assert PageOf(segments, u) == Some(index[u]);
      assert Holds(index[u], u, c.pages[u], bound, st);
      assert NoBetter(segments[u.table], best.counter);
    }
    SmallestIsVictim(index, c.recency, c.pages, s);
  }

  // ---- cleaning the frames of a table ----

  /** The frames of the pages of the table whose keys are not in `todo` have been cleaned. */
  ghost predicate CleanedSoFar(owner: map<nat, Slot>, left: map<nat, Slot>, table: string, todo: set<uint16>) {
    && (forall f :: f in left <==> f in owner && (owner[f].table != table || owner[f].key in todo))
    && (forall f :: f in left ==> left[f] == owner[f])
  }

  /** A page has one frame and no other page has it. */
  lemma OnlyFrame(segments: Segments, index: map<Slot, Page>, bound: nat, st: Store, c: Cache, s: Slot)
    requires Indexed(segments, index) && Linked(index, bound, st, c) && PageOf(segments, s).Some?
    ensures var frame := PageOf(segments, s).value.frame;
            frame < |st.frames| && forall f :: f in st.owner && st.owner[f] == s <==> f == frame
  {
    assert Details(index, bound, st, c);
    assert Holds(index[s], s, c.pages[s], bound, st);
  }

  lemma NoneCleaned(segments: Segments, index: map<Slot, Page>, bound: nat, st: Store, c: Cache, table: string)
    requires Indexed(segments, index) && Linked(index, bound, st, c) && table in segments
    ensures CleanedSoFar(st.owner, st.owner, table, segments[table].Keys)
  {
    assert Details(index, bound, st, c);
    forall f | f in st.owner && st.owner[f].table == table ensures st.owner[f].key in segments[table] {
      assert PageOf(segments, st.owner[f]) == Some(index[st.owner[f]]);
    }
  }

  lemma NoFrames(segments: Segments, index: map<Slot, Page>, bound: nat, st: Store, c: Cache, table: string)
    requires Indexed(segments, index) && Linked(index, bound, st, c) && table !in segments
    ensures OthersOwner(st.owner, table) == st.owner
  {
    assert Details(index, bound, st, c);
    forall f | f in st.owner ensures st.owner[f].table != table {
      assert PageOf(segments, st.owner[f]) == Some(index[st.owner[f]]);
    }
  }

  // ---- listing the dirty pages ----

  datatype DirtyFrame = DirtyFrame(table: string, frame: nat)

  /** The list names the frames of these pages, none of them twice. */
  ghost predicate ListsSome(list: seq<DirtyFrame>, slots: seq<Slot>, index: map<Slot, Page>) {
    && |list| == |slots| && NoRepeats(slots)
    && forall i :: 0 <= i < |list| ==> slots[i] in index && list[i] == DirtyFrame(slots[i].table, index[slots[i]].frame)
  }

  ghost predicate Lists(list: seq<DirtyFrame>, slots: seq<Slot>, index: map<Slot, Page>, c: Cache) {
    ListsSome(list, slots, index) && forall s :: s in slots <==> s in DirtySlots(c)
  }

  lemma DirtyAgree(index: map<Slot, Page>, bound: nat, st: Store, c: Cache)
    requires Linked(index, bound, st, c)
    ensures forall s :: s in DirtySlots(c) <==> s in index && index[s].dirty
  {
    assert Details(index, bound, st, c);
    forall s | s in index ensures s in c.pages && c.pages[s].dirty == index[s].dirty {
      assert Holds(index[s], s, c.pages[s], bound, st);
    }
  }

  class MainMemory {
    const store: FrameStore
    const frameStatus: Bitarray
    var segments: Segments
    var monotonicCounter: nat
    var full: bool
    /** The pages of all the segments, the page of each used frame, and the cache they stand for. */
    ghost var index: map<Slot, Page>
    ghost var owner: map<nat, Slot>
    ghost var cache: Cache

    ghost function Frames(): Store
      reads this, store
    {
      Store(store.frames, owner, store.maxValueLength)
    }

    /** The frames and their bit map; `taken` are frames whose bit is set and whose page does not exist yet. */
    ghost predicate StoreIsValid(taken: set<nat>)
      reads this, store, store.buffer, frameStatus, frameStatus.bytes
    {
      && store.Valid() && frameStatus.Valid() && store.buffer as object != frameStatus.bytes
      && BitsShow(frameStatus.bits, store.numFrames, owner, taken)
    }

    ghost predicate ValidWith(taken: set<nat>)
      reads this, store, store.buffer, frameStatus, frameStatus.bytes
    {
      && StoreIsValid(taken)
      && cache.capacity == store.numFrames > 0 && cache.full == full
      && Indexed(segments, index) && Linked(index, monotonicCounter, Frames(), cache)
    }

    ghost predicate Valid()
      reads this, store, store.buffer, frameStatus, frameStatus.bytes
    {
      ValidWith({})
    }

    /** `Memory_Initialize`, for a size that gives room for a frame. */
    constructor (bytes: nat, maxValueLength: nat)
      requires bytes / (HEADER_BYTES + maxValueLength) > 0
      ensures Valid() && fresh(store) && fresh(store.buffer) && fresh(frameStatus) && fresh(frameStatus.bytes)
      ensures cache == EmptyCache(bytes / (HEADER_BYTES + maxValueLength)) && store.maxValueLength == maxValueLength
    {
      store := new FrameStore(bytes, maxValueLength);
      var numFrames := bytes / (HEADER_BYTES + maxValueLength);
      var bitmapBytes := numFrames / 8;
      if numFrames % 8 != 0 { bitmapBytes := bitmapBytes + 1; }
      frameStatus := new Bitarray(bitmapBytes, MsbFirst);
      segments, monotonicCounter, full := map[], 0, false;
      index, owner, cache := map[], map[], EmptyCache(numFrames);
      new;
      EmptyLinked(0, Frames(), store.numFrames);
    }

    method PutPage(s: Slot, page: Page)
      requires Indexed(segments, index)
      modifies this`segments, this`index
      ensures Indexed(segments, index) && index == old(index)[s := page]
    {
      WithPageIndexed(segments, index, s, page);
      segments := WithPage(segments, s, page);
      index := index[s := page];
    }

    method RemovePage(s: Slot)
      requires Indexed(segments, index)
      modifies this`segments, this`index
      ensures Indexed(segments, index) && index == old(index) - {s}
    {
      WithoutPageIndexed(segments, index, s);
      segments := WithoutPage(segments, s);
      index := index - {s};
    }

    /** `SegmentTable_GetPageTable` and `hashmap_get`. */
    method FindPage(s: Slot) returns (page: Option<Page>)
      requires Indexed(segments, index)
      ensures page == if s in index then Some(index[s]) else None
    {
      assert PageOf(segments, s) == if s in index then Some(index[s]) else None;
      if s.table !in segments || s.key !in segments[s.table] {
        return None;
      }
      page := Some(segments[s.table][s.key]);
    }

    // ---- looking a page up ----

    /** `PageTable_GetFrameNumber`: finds the page and makes it the most recently used. */
    method FrameNumber(s: Slot) returns (frame: Option<nat>)
      requires Valid()
      modifies this`segments, this`monotonicCounter, this`index, this`cache
      ensures Valid() && cache == Touched(old(cache), s)
      ensures frame.Some? <==> s in cache.pages
      ensures frame.Some? ==> s in index && index[s].frame == frame.value
    {
      var page := FindPage(s);
      Resident(index, monotonicCounter, Frames(), cache, s);
      if page.None? {
        return None;
      }
      TouchPage(s, page.value);
      frame := Some(page.value.frame);
    }

    /** A use of a page: it gets the next value of the counter. */
    method TouchPage(s: Slot, page: Page)
      requires Valid() && s in index && page == index[s]
      modifies this`segments, this`monotonicCounter, this`index, this`cache
      ensures Valid() && cache == Touched(old(cache), s)
      ensures s in index && index[s].frame == page.frame
    {
      TouchKeeps(index, monotonicCounter, Frames(), cache, s);
      monotonicCounter := monotonicCounter + 1;
      PutPage(s, page.(counter := monotonicCounter));
      cache := Touched(cache, s);
    }

    /** `Memory_GetFrame`. */
    method GetFrame(s: Slot) returns (f: Option<Frame>)
      requires Valid()
      modifies this`segments, this`monotonicCounter, this`index, this`cache
      ensures Valid() && cache == Touched(old(cache), s)
      ensures f == if s in cache.pages then Some(Frame(cache.pages[s].timestamp, s.key, cache.pages[s].value)) else None
    {
      var frame := FrameNumber(s);
      if frame.None? {
        return None;
      }
      Resident(index, monotonicCounter, Frames(), cache, s);
      var read := store.Read(frame.value);
      f := Some(read);
    }

    // ---- choosing a victim ----

    /** `PageTable_GetLRUFrame`: one pass over the pages of a table, in whatever order they come. */
    method LruPage(pages: PageTable) returns (best: Option<Page>)
      ensures IsLru(pages, best)
    {
      best := None;
      var minCounter := 0;
      var todo := pages.Keys;
      while todo != {}
        invariant todo <= pages.Keys
        invariant best.None? ==> forall k :: k in pages.Keys - todo ==> pages[k].dirty
        invariant best.Some? ==> (exists k :: k in pages && pages[k] == best.value) && !best.value.dirty
                                 && minCounter == best.value.counter
                                 && forall k :: k in pages.Keys - todo && !pages[k].dirty ==>
                                    minCounter <= pages[k].counter
        decreases |todo|
      {
        var k :| k in todo;
        var page := pages[k];
        if !page.dirty && (best.None? || page.counter < minCounter) {
          minCounter := page.counter;
          best := Some(page);
        }
        todo := todo - {k};
      }
    }

    /** The scan of `SegmentTable_GetLRUFrame`: the best page of each segment, and the best of those. */
    method LruFrame() returns (table: string, best: Option<Page>)
      requires Valid()
      ensures best.None? <==> FirstClean(cache.recency, cache.pages).None?
      ensures best.Some? ==> table in segments &&
                             exists s :: FirstClean(cache.recency, cache.pages) == Some(s) && s.table == table
                                         && s in index && index[s] == best.value
    {
      table, best := "", None;
      var minCounter := 0;
      var todo := segments.Keys;
      while todo != {}
        invariant todo <= segments.Keys
        invariant best.None? ==> forall t :: t in segments.Keys - todo ==> IsLru(segments[t], None)
        invariant best.Some? ==> table in segments && IsLru(segments[table], best) && minCounter == best.value.counter
        invariant best.Some? ==> forall t :: t in segments.Keys - todo ==> NoBetter(segments[t], minCounter)
        decreases |todo|
      {
        var t :| t in todo;
        var lru := LruPage(segments[t]);
        if lru.Some? && (best.None? || lru.value.counter < minCounter) {
          table, best, minCounter := t, lru, lru.value.counter;
        }
        todo := todo - {t};
      }
      if best.None? {
        NoVictim(segments, index, monotonicCounter, Frames(), cache);
      } else {
        var s := VictimIs(segments, index, monotonicCounter, Frames(), cache, table, best.value);
      }
    }

    /** `PageTable_PreemptPage` for the page that the frame of the table holds, found again by the key stored in it. */
    method Preempt(table: string, frame: nat, ghost s: Slot)
      requires Valid() && s in index && s.table == table && index[s].frame == frame
      modifies this`segments, this`index, this`owner, this`cache, frameStatus, frameStatus.bytes
      ensures Valid() && cache == Evicted(old(cache), s)
      ensures frame < store.numFrames && frame !in owner
    {
      Resident(index, monotonicCounter, Frames(), cache, s);
      var f := store.Read(frame);
      EvictKeeps(index, monotonicCounter, Frames(), cache, s);
      BitFreed(frameStatus.bits, store.numFrames, owner, frame);
      RemovePage(Slot(table, f.key));
      frameStatus.CleanBit(frame);
      owner := owner - {frame};
      cache := Evicted(cache, s);
    }

    /** `SegmentTable_GetLRUFrame`: evicts the victim of the two-level scan. */
    method EvictLru() returns (found: bool, frame: nat)
      requires Valid()
      modifies this`segments, this`index, this`owner, this`cache, frameStatus, frameStatus.bytes
      ensures Valid()
      ensures found <==> FirstClean(old(cache).recency, old(cache).pages).Some?
      ensures cache ==
              if found then Evicted(old(cache), FirstClean(old(cache).recency, old(cache).pages).value) else old(cache)
      ensures found ==> frame < store.numFrames && frame !in owner
    {
      found, frame := false, 0;
      var table, best := LruFrame();
      if best.Some? {
        found, frame := true, best.value.frame;
        Preempt(table, frame, FirstClean(cache.recency, cache.pages).value);
      }
    }

    /** First frame whose bit is clear, or the number of frames. */
    method FirstFree() returns (i: nat)
      requires Valid()
      ensures i <= store.numFrames
      ensures i < store.numFrames <==> |cache.pages| < cache.capacity
      ensures i < store.numFrames ==> i !in owner
    {
      i := 0;
      while i < store.numFrames
        invariant i <= store.numFrames && forall b :: 0 <= b < i ==> frameStatus.bits[b]
      {
        var used := frameStatus.TestBit(i);
        if !used {
          break;
        }
        i := i + 1;
      }
      FreeFrameExists(frameStatus.bits, store.numFrames, owner, i);
      AsManyFrames(index, monotonicCounter, Frames(), cache);
    }

    /** A frame for a new page: a free one, else the victim's, else none and the memory is full. */
    method GetFreeFrame() returns (ok: bool, frame: nat)
      requires Valid()
      modifies this`segments, this`full, this`index, this`owner, this`cache, frameStatus, frameStatus.bytes
      ensures (cache, ok) == MakeRoom(old(cache)) && (ok <==> HasRoom(old(cache)))
      ensures !old(cache).full && |old(cache).pages| < old(cache).capacity ==> cache == old(cache)
      ensures !ok ==> Valid()
      ensures ok ==> frame < store.numFrames && ValidWith({frame}) && frame !in owner
    {
      RoomIs(index, monotonicCounter, Frames(), cache);
      if full {
        return false, 0;
      }
      frame := FirstFree();
      if frame == store.numFrames {
        var found;
        found, frame := EvictLru();
        if !found {
          full := true;
          FlagKeeps(index, monotonicCounter, Frames(), cache);
          cache := cache.(full := true);
          return false, 0;
        }
      }
      frameStatus.SetBit(frame);
      ok := true;
    }

    // ---- storing values ----

    method WriteNewFrame(s: Slot, frame: nat, timestamp: uint64, value: Text)
      requires StoreIsValid({frame}) && frame < store.numFrames
      modifies this`owner, store`frames, store.buffer
      ensures StoreIsValid({}) && |old(store.frames)| == store.numFrames
      ensures Frames() == Rewritten(old(Frames()), frame, s, timestamp, value)
    {
      store.Write(frame, Frame(timestamp, s.key, value));
      owner := owner[frame := s];
    }

    /**
     `CreateNewPage` and `WriteFrame`, and `PageTable_MarkDirty` for a client's value: a page in the frame just handed
     out.
     */
    method LoadPage(s: Slot, frame: nat, e: Entry)
      requires ValidWith({frame}) && frame < store.numFrames && |store.frames| == store.numFrames
      requires Linked(index[s := Page(monotonicCounter + 1, frame, e.dirty)], monotonicCounter + 1,
                      Rewritten(Frames(), frame, s, e.timestamp, e.value), Loaded(cache, s, e))
      modifies this`segments, this`monotonicCounter, this`index, this`owner, this`cache, store`frames, store.buffer
      ensures Valid() && cache == Loaded(old(cache), s, e)
    {
      var page := Page(monotonicCounter + 1, frame, e.dirty);
      monotonicCounter := monotonicCounter + 1;
      cache := Loaded(cache, s, e);
      PutPage(s, page);
      WriteNewFrame(s, frame, e.timestamp, e.value);
    }

    /** `WriteFrame` and `PageTable_MarkDirty` on the frame of a resident page. */
    method RewritePage(s: Slot, frame: nat, timestamp: uint64, value: Text)
      requires Valid() && s in index && index[s].frame == frame
      requires IsString(value) && |value| <= store.maxValueLength
      modifies this`segments, this`index, this`cache, store`frames, store.buffer
      ensures Valid() && cache == old(cache).(pages := old(cache).pages[s := Entry(timestamp, value, true)])
    {
      ghost var st, e := Frames(), Entry(timestamp, value, true);
      Resident(index, monotonicCounter, st, cache, s);
      store.Write(frame, Frame(timestamp, s.key, value));
      var page := FindPage(s);
      RewriteKeeps(index, monotonicCounter, st, cache, s, e, Frames());
      PutPage(s, page.value.(dirty := true));
      cache := cache.(pages := cache.pages[s := e]);
    }

    /** `GetFreeFrame` and, if there is one, a page in it. */
    method AddPage(s: Slot, e: Entry) returns (ok: bool)
      requires Valid() && s !in cache.pages && IsString(e.value) && |e.value| <= store.maxValueLength
      modifies this, frameStatus, frameStatus.bytes, store`frames, store.buffer
      ensures Valid() && ok == MakeRoom(old(cache)).1
      ensures cache == if ok then Loaded(MakeRoom(old(cache)).0, s, e) else MakeRoom(old(cache)).0
    {
      RoomIs(index, monotonicCounter, Frames(), cache);
      var frame;
      ok, frame := GetFreeFrame();
      if ok {
        AddKeeps(index, monotonicCounter, Frames(), cache, s, frame, e);
        LoadPage(s, frame, e);
      }
    }

    /** A value read from the storage engine; the caller has not found the page. */
    method InsertNewValue(s: Slot, timestamp: uint64, value: Text) returns (ok: bool)
      requires Valid() && s !in cache.pages && IsString(value) && |value| <= store.maxValueLength
      modifies this, frameStatus, frameStatus.bytes, store`frames, store.buffer
      ensures Valid() && (cache, ok) == Fetched(old(cache), s, timestamp, value)
    {
      ok := AddPage(s, Entry(timestamp, value, false));
    }

    /** A value written by a client at time `now`. */
    method UpsertValue(s: Slot, now: uint64, value: Text) returns (ok: bool)
      requires Valid() && IsString(value) && |value| <= store.maxValueLength
      modifies this, frameStatus, frameStatus.bytes, store`frames, store.buffer
      ensures Valid() && (cache, ok) == Upserted(old(cache), s, now, value)
    {
      var frame := FrameNumber(s);
      if frame.Some? {
        RewritePage(s, frame.value, now, value);
        ok := true;
      } else {
        ok := AddPage(s, Entry(now, value, true));
      }
    }

    // ---- dropping a table ----

    /** `PageTable_Destruct`: clears the bit of each frame of the table. */
    method CleanFrames(table: string)
      requires Valid() && table in segments
      modifies frameStatus, frameStatus.bytes
      ensures frameStatus.Valid() && BitsShow(frameStatus.bits, store.numFrames, OthersOwner(owner, table), {})
    {
      ghost var left := owner;
      NoneCleaned(segments, index, monotonicCounter, Frames(), cache, table);
      var pages := segments[table];
      var todo := pages.Keys;
      while todo != {}
        invariant todo <= pages.Keys && frameStatus.Valid() && BitsShow(frameStatus.bits, store.numFrames, left, {})
        invariant CleanedSoFar(owner, left, table, todo)
        decreases |todo|
      {
        var k :| k in todo;
        var frame := pages[k].frame;
        OnlyFrame(segments, index, monotonicCounter, Frames(), cache, Slot(table, k));
        BitFreed(frameStatus.bits, store.numFrames, left, frame);
        frameStatus.CleanBit(frame);
        left := left - {frame};
        todo := todo - {k};
      }
    }

    /** `Memory_EvictPages`: the pages of a table go, dirty or not; the full flag stays as it is. */
    method EvictPages(table: string)
      requires Valid()
      modifies this`segments, this`index, this`owner, this`cache, frameStatus, frameStatus.bytes
      ensures Valid() && cache == WithoutTable(old(cache), table)
    {
      DropKeeps(index, monotonicCounter, Frames(), cache, table);
      WithoutTableIndexed(segments, index, table);
      if table in segments {
        CleanFrames(table);
      } else {
        NoFrames(segments, index, monotonicCounter, Frames(), cache, table);
      }
      segments := segments - {table};
      index := WithoutTablePages(index, table);
      owner := OthersOwner(owner, table);
      cache := WithoutTable(cache, table);
    }

    // ---- journal ----

    /** `SegmentTable_GetDirtyFrames`: each dirty page once, whatever order the tables and pages come in. */
    method DirtyFrames() returns (list: seq<DirtyFrame>, ghost slots: seq<Slot>)
      requires Valid()
      ensures Lists(list, slots, index, cache)
    {
      list, slots := [], [];
      var todo := segments.Keys;
      assert forall s :: s in index ==> PageOf(segments, s) == Some(index[s]);
      while todo != {}
        invariant todo <= segments.Keys && ListsSome(list, slots, index)
        invariant forall s :: s in slots <==> s in index && index[s].dirty && s.table !in todo
        decreases |todo|
      {
        var t :| t in todo;
        list, slots := DirtyFramesOf(t, list, slots);
        todo := todo - {t};
      }
      DirtyAgree(index, monotonicCounter, Frames(), cache);
    }

    /** `PageTable_GetDirtyFrames`: appends the dirty pages of one table. */
    method DirtyFramesOf(table: string, before: seq<DirtyFrame>, ghost slotsBefore: seq<Slot>)
      returns (list: seq<DirtyFrame>, ghost slots: seq<Slot>)
      requires Valid() && table in segments && ListsSome(before, slotsBefore, index)
      requires forall s :: s in slotsBefore ==> s.table != table
      ensures ListsSome(list, slots, index)
      ensures forall s :: s in slots <==> (s in slotsBefore || (s in index && index[s].dirty && s.table == table))
    {
      list, slots := before, slotsBefore;
      var pages := segments[table];
      var todo := pages.Keys;
      while todo != {}
        invariant todo <= pages.Keys && ListsSome(list, slots, index)
        invariant forall s :: s in slots <==>
                    (s in slotsBefore || (s.table == table && s.key in pages.Keys - todo && pages[s.key].dirty))
        decreases |todo|
      {
        var k :| k in todo;
        var page := pages[k];
        todo := todo - {k};
        assert PageOf(segments, Slot(table, k)) == Some(page);
        if !page.dirty {
          continue;
        }
        list := list + [DirtyFrame(table, page.frame)];
        slots := slots + [Slot(table, k)];
      }
      assert forall s: Slot :: s.table == table ==> PageOf(segments, s) == if s in index then Some(index[s]) else None;
    }

    /** `_cleanMemory`. */
    method CleanMemory()
      requires Valid()
      modifies this`segments, this`full, this`index, this`owner, this`cache, frameStatus, frameStatus.bytes
      ensures Valid() && cache == EmptyCache(old(cache).capacity)
    {
      frameStatus.CleanAll();
      segments, full := map[], false;
      index, owner, cache := map[], map[], EmptyCache(cache.capacity);
      EmptyLinked(monotonicCounter, Frames(), cache.capacity);
    }
  }
}
