/**
 How the program keeps its cache: page tables, use counters, frame numbers and dirty bits.  `Linked` says that they are
 one value of `PageCache`, and the lemmas that each update of them is one of its operations.
 */
module Pages {
  import opened Basics
  import opened PageCache
  import opened Frames

  datatype Page = Page(counter: nat, frame: nat, dirty: bool)
  type PageTable = map<uint16, Page>
  type Segments = map<string, PageTable>

  // ---- segments as one map ----

  function PagesOf(segments: Segments, table: string): PageTable {
    if table in segments then segments[table] else map[]
  }

  function PageOf(segments: Segments, s: Slot): Option<Page> {
    if s.table in segments && s.key in segments[s.table] then Some(segments[s.table][s.key]) else None
  }

  function WithPage(segments: Segments, s: Slot, p: Page): Segments {
    segments[s.table := PagesOf(segments, s.table) + map[s.key := p]]
  }

  /** Removing the last page of a table removes its segment. */
  function WithoutPage(segments: Segments, s: Slot): Segments {
    var rest := PagesOf(segments, s.table) - {s.key};
    if rest == map[] then segments - {s.table} else segments[s.table := rest]
  }

  /** The index lists the pages of all the segments, none of which is empty. */
  ghost predicate Indexed(segments: Segments, index: map<Slot, Page>) {
    && (forall t :: t in segments ==> segments[t] != map[])
    && (forall s {:trigger PageOf(segments, s)} :: PageOf(segments, s) == if s in index then Some(index[s]) else None)
  }

  lemma WithPageIndexed(segments: Segments, index: map<Slot, Page>, s: Slot, p: Page)
    requires Indexed(segments, index)
    ensures Indexed(WithPage(segments, s, p), index[s := p])
  {
    var segments' := WithPage(segments, s, p);
    assert s.key in segments'[s.table];
    forall u ensures PageOf(segments', u) == if u in index[s := p] then Some(index[s := p][u]) else None {
      assert u != s ==> PageOf(segments', u) == PageOf(segments, u);
    }
  }

  lemma WithoutPageIndexed(segments: Segments, index: map<Slot, Page>, s: Slot)
    requires Indexed(segments, index)
    ensures Indexed(WithoutPage(segments, s), index - {s})
  {
    var rest := PagesOf(segments, s.table) - {s.key};
    var segments' := WithoutPage(segments, s);
    forall u ensures PageOf(segments', u) == if u in index - {s} then Some((index - {s})[u]) else None {
      if u.table == s.table && u != s {
        assert u.key in rest <==> PageOf(segments, u).Some?;
      } else {
        assert u != s ==> PageOf(segments', u) == PageOf(segments, u);
      }
    }
  }

  function WithoutTablePages(index: map<Slot, Page>, table: string): map<Slot, Page> {
    map s | s in index && s.table != table :: index[s]
  }

  lemma WithoutTableIndexed(segments: Segments, index: map<Slot, Page>, table: string)
    requires Indexed(segments, index)
    ensures Indexed(segments - {table}, WithoutTablePages(index, table))
  {
    var index' := WithoutTablePages(index, table);
    forall u ensures PageOf(segments - {table}, u) == if u in index' then Some(index'[u]) else None {
      assert PageOf(segments, u) == if u in index then Some(index[u]) else None;
    }
  }

  // ---- use counters and the recency list ----

  function CounterOf(index: map<Slot, Page>, s: Slot): nat {
    if s in index then index[s].counter else 0
  }

  /** The counters grow along the list. */
  ghost predicate Ordered(index: map<Slot, Page>, recency: seq<Slot>) {
    recency == [] ||
    ((forall u :: u in recency[1..] ==> CounterOf(index, recency[0]) < CounterOf(index, u))
     && Ordered(index, recency[1..]))
  }

  lemma {:induction false} OrderedStill(index: map<Slot, Page>, index': map<Slot, Page>, recency: seq<Slot>)
    requires Ordered(index, recency)
    requires forall u :: u in recency ==> CounterOf(index', u) == CounterOf(index, u)
    ensures Ordered(index', recency)
  {
    if recency != [] {
      OrderedStill(index, index', recency[1..]);
    }
  }

  lemma {:induction false} OrderedRemoved(index: map<Slot, Page>, recency: seq<Slot>, s: Slot)
    requires Ordered(index, recency)
    ensures Ordered(index, Removed(recency, s))
  {
    if recency != [] {
      OrderedRemoved(index, recency[1..], s);
      RemovedMembers(recency[1..], s);
      assert recency[0] != s ==> Removed(recency, s)[1..] == Removed(recency[1..], s);
    }
  }

  lemma {:induction false} OrderedRemovedTable(index: map<Slot, Page>, recency: seq<Slot>, table: string)
    requires Ordered(index, recency)
    ensures Ordered(index, RemovedTable(recency, table))
  {
    if recency != [] {
      OrderedRemovedTable(index, recency[1..], table);
      RemovedTableMembers(recency[1..], table);
      assert recency[0].table != table ==> RemovedTable(recency, table)[1..] == RemovedTable(recency[1..], table);
    }
  }

  lemma {:induction false} OrderedAppend(index: map<Slot, Page>, recency: seq<Slot>, s: Slot)
    requires Ordered(index, recency)
    requires forall u :: u in recency ==> CounterOf(index, u) < CounterOf(index, s)
    ensures Ordered(index, recency + [s])
  {
    if recency != [] {
      OrderedAppend(index, recency[1..], s);
      assert (recency + [s])[1..] == recency[1..] + [s];
    }
  }

  /** A page whose counter becomes the largest goes to the end of the list. */
  lemma MovedToEnd(index: map<Slot, Page>, recency: seq<Slot>, s: Slot, p: Page)
    requires Ordered(index, recency) && forall u :: u in recency ==> CounterOf(index, u) < p.counter
    ensures Ordered(index[s := p], Removed(recency, s) + [s])
  {
    OrderedRemoved(index, recency, s);
    RemovedMembers(recency, s);
    OrderedStill(index, index[s := p], Removed(recency, s));
    OrderedAppend(index[s := p], Removed(recency, s), s);
  }

  /** The clean page with the smallest counter is the first clean one of the recency list. */
  lemma {:induction false} SmallestIsVictim(index: map<Slot, Page>, recency: seq<Slot>, pages: map<Slot, Entry>,
                                            s: Slot)
    requires Ordered(index, recency) && s in recency && s in pages && !pages[s].dirty
    requires forall u :: u in recency && u in pages && !pages[u].dirty ==> CounterOf(index, s) <= CounterOf(index, u)
    ensures FirstClean(recency, pages) == Some(s)
  {
    if recency[0] != s {
      SmallestIsVictim(index, recency[1..], pages, s);
    }
  }

  lemma {:induction false} CountersDiffer(index: map<Slot, Page>, recency: seq<Slot>, s: Slot, u: Slot)
    requires Ordered(index, recency) && s in recency && u in recency && s != u
    ensures CounterOf(index, s) != CounterOf(index, u)
  {
    if recency[0] != s && recency[0] != u {
      CountersDiffer(index, recency[1..], s, u);
    }
  }

  // ---- the link between the two views ----

  /** Frames of the pages: the bytes of all the frames, and whose each used frame is. */
  datatype Store = Store(frames: seq<Text>, owner: map<nat, Slot>, maxValueLength: nat)

  ghost predicate Holds(p: Page, s: Slot, e: Entry, bound: nat, st: Store) {
    && p.dirty == e.dirty && p.counter <= bound
    && p.frame in st.owner && st.owner[p.frame] == s && p.frame < |st.frames|
    && IsString(e.value) && |e.value| <= st.maxValueLength
    && st.frames[p.frame] == Encode(Frame(e.timestamp, s.key, e.value), st.maxValueLength)
  }

  ghost predicate AllHold(index: map<Slot, Page>, bound: nat, st: Store, pages: map<Slot, Entry>) {
    forall s :: s in pages && s in index ==> Holds(index[s], s, pages[s], bound, st)
  }

  /** A used frame is the frame of a page. */
  ghost predicate NoLeak(index: map<Slot, Page>, st: Store) {
    |st.owner| == |index| && forall f :: f in st.owner ==> st.owner[f] in index && index[st.owner[f]].frame == f
  }

  ghost predicate Details(index: map<Slot, Page>, bound: nat, st: Store, c: Cache) {
    && index.Keys == c.pages.Keys && AllHold(index, bound, st, c.pages) && NoLeak(index, st)
    && Inv(c) && Ordered(index, c.recency)
  }

  /** The same, stated so that the verifier looks inside only where `Details` is mentioned. */
  ghost predicate Linked(index: map<Slot, Page>, bound: nat, st: Store, c: Cache) {
    forall d {:trigger Details(index, bound, st, d)} :: d == c ==> Details(index, bound, st, d)
  }

  /** A page has a frame of its own, and the frame holds its key. */
  lemma Resident(index: map<Slot, Page>, bound: nat, st: Store, c: Cache, s: Slot)
    requires Linked(index, bound, st, c)
    ensures s in index <==> s in c.pages
    ensures s in index ==> Holds(index[s], s, c.pages[s], bound, st)
                           && Decode(st.frames[index[s].frame]) == Frame(c.pages[s].timestamp, s.key, c.pages[s].value)
  {
    assert Details(index, bound, st, c);
    if s in index {
      assert Holds(index[s], s, c.pages[s], bound, st);
      FrameRoundTrip(Frame(c.pages[s].timestamp, s.key, c.pages[s].value), st.maxValueLength);
    }
  }

  /** Pages of different slots have different frames and different counters. */
  lemma PagesAreApart(index: map<Slot, Page>, bound: nat, st: Store, c: Cache, s: Slot, u: Slot)
    requires Linked(index, bound, st, c) && s in index && u in index && s != u
    ensures index[s].frame != index[u].frame && index[s].counter != index[u].counter
  {
    assert Details(index, bound, st, c);
    assert Holds(index[s], s, c.pages[s], bound, st) && Holds(index[u], u, c.pages[u], bound, st);
    CountersDiffer(index, c.recency, s, u);
  }

  // ---- the updates ----

  /** The frame of the page p of slot s after an update: its old frame, or one that nobody owned. */
  ghost predicate TakesFrame(index: map<Slot, Page>, st: Store, st': Store, s: Slot, p: Page) {
    && st'.maxValueLength == st.maxValueLength && |st'.frames| == |st.frames|
    && (forall g :: 0 <= g < |st.frames| && g != p.frame ==> st'.frames[g] == st.frames[g])
    && (if s in index then index[s].frame == p.frame && st'.owner == st.owner
        else p.frame !in st.owner && st'.owner == st.owner[p.frame := s])
  }

  lemma UpdateHolds(index: map<Slot, Page>, bound: nat, st: Store, pages: map<Slot, Entry>,
                    s: Slot, p: Page, e: Entry, bound': nat, st': Store)
    requires AllHold(index, bound, st, pages) && bound <= bound' && TakesFrame(index, st, st', s, p)
    requires index.Keys == pages.Keys && Holds(p, s, e, bound', st')
    ensures AllHold(index[s := p], bound', st', pages[s := e])
  {
  }

  lemma UpdateLeaksNothing(index: map<Slot, Page>, st: Store, s: Slot, p: Page, st': Store)
    requires NoLeak(index, st) && TakesFrame(index, st, st', s, p)
    ensures NoLeak(index[s := p], st')
  {
  }

  lemma LoadHolds(index: map<Slot, Page>, bound: nat, st: Store, c: Cache, s: Slot, p: Page, e: Entry, bound': nat,
                  st': Store)
    requires Linked(index, bound, st, c) && bound <= bound'
    requires TakesFrame(index, st, st', s, p) && Holds(p, s, e, bound', st')
    ensures index[s := p].Keys == c.pages[s := e].Keys
    ensures AllHold(index[s := p], bound', st', c.pages[s := e]) && NoLeak(index[s := p], st')
  {
    assert Details(index, bound, st, c);
    UpdateHolds(index, bound, st, c.pages, s, p, e, bound', st');
    UpdateLeaksNothing(index, st, s, p, st');
  }

  lemma LoadOrdered(index: map<Slot, Page>, bound: nat, st: Store, c: Cache, s: Slot, p: Page, e: Entry)
    requires Linked(index, bound, st, c) && p.counter == bound + 1
    requires s in c.pages || |c.pages| < c.capacity
    ensures Inv(Loaded(c, s, e)) && Ordered(index[s := p], Loaded(c, s, e).recency)
  {
    assert Details(index, bound, st, c);
    LoadedInv(c, s, e);
    MovedToEnd(index, c.recency, s, p);
  }

  /** A page used just now: new, or written again, or only read. */
  lemma LoadKeeps(index: map<Slot, Page>, bound: nat, st: Store, c: Cache, s: Slot, p: Page, e: Entry, st': Store)
    requires Linked(index, bound, st, c) && p.counter == bound + 1
    requires s in c.pages || |c.pages| < c.capacity
    requires TakesFrame(index, st, st', s, p) && Holds(p, s, e, bound + 1, st')
    ensures Linked(index[s := p], bound + 1, st', Loaded(c, s, e))
  {
    LoadHolds(index, bound, st, c, s, p, e, bound + 1, st');
    LoadOrdered(index, bound, st, c, s, p, e);
    assert Details(index[s := p], bound + 1, st', Loaded(c, s, e));
  }

  /** A clean page in a frame that nobody owned. */
  lemma AddKeeps(index: map<Slot, Page>, bound: nat, st: Store, c: Cache, s: Slot, f: nat, e: Entry)
    requires Linked(index, bound, st, c) && s !in c.pages && |c.pages| < c.capacity
    requires f < |st.frames| && f !in st.owner && IsString(e.value) && |e.value| <= st.maxValueLength
    ensures Linked(index[s := Page(bound + 1, f, e.dirty)], bound + 1, Rewritten(st, f, s, e.timestamp, e.value),
                   Loaded(c, s, e))
  {
    Resident(index, bound, st, c, s);
    LoadKeeps(index, bound, st, c, s, Page(bound + 1, f, e.dirty), e,
              Rewritten(st, f, s, e.timestamp, e.value));
  }

  function Rewritten(st: Store, f: nat, s: Slot, timestamp: uint64, value: Text): Store
    requires f < |st.frames|
  {
    Store(st.frames[f := Encode(Frame(timestamp, s.key, value), st.maxValueLength)], st.owner[f := s],
      st.maxValueLength)
  }

  lemma TouchKeeps(index: map<Slot, Page>, bound: nat, st: Store, c: Cache, s: Slot)
    requires Linked(index, bound, st, c) && s in index
    ensures Linked(index[s := index[s].(counter := bound + 1)], bound + 1, st, Touched(c, s))
  {
    Resident(index, bound, st, c, s);
    LoadKeeps(index, bound, st, c, s, index[s].(counter := bound + 1), c.pages[s], st);
    assert c.pages[s := c.pages[s]] == c.pages;
  }

  lemma RewriteOrdered(index: map<Slot, Page>, bound: nat, st: Store, c: Cache, s: Slot, e: Entry)
    requires Linked(index, bound, st, c) && s in index
    ensures Inv(c.(pages := c.pages[s := e])) && Ordered(index[s := index[s].(dirty := e.dirty)], c.recency)
  {
    assert index.Keys == c.pages.Keys && Inv(c) && Ordered(index, c.recency) by { assert Details(index, bound, st, c); }
    OrderedStill(index, index[s := index[s].(dirty := e.dirty)], c.recency);
    RewrittenInv(c, s, e);
  }

  /** Writing the frame of a page and marking it dirty does not change the order of use. */
  lemma RewriteKeeps(index: map<Slot, Page>, bound: nat, st: Store, c: Cache, s: Slot, e: Entry, st': Store)
    requires Linked(index, bound, st, c) && s in index
    requires var p := index[s].(dirty := e.dirty);
             TakesFrame(index, st, st', s, p) && Holds(p, s, e, bound, st')
    ensures Linked(index[s := index[s].(dirty := e.dirty)], bound, st', c.(pages := c.pages[s := e]))
  {
    var p := index[s].(dirty := e.dirty);
    LoadHolds(index, bound, st, c, s, p, e, bound, st');
    RewriteOrdered(index, bound, st, c, s, e);
    assert Details(index[s := p], bound, st', c.(pages := c.pages[s := e]));
  }

  /** The pages left after an eviction or a drop hold what they held. */
  lemma FewerHold(index: map<Slot, Page>, bound: nat, st: Store, pages: map<Slot, Entry>,
                  index': map<Slot, Page>, st': Store, pages': map<Slot, Entry>)
    requires index.Keys == pages.Keys && AllHold(index, bound, st, pages)
    requires st' == st.(owner := st'.owner) && index'.Keys <= index.Keys && pages'.Keys <= pages.Keys
    requires forall u :: u in index' ==> index'[u] == index[u] && index[u].frame in st'.owner
    requires forall f :: f in st'.owner ==> f in st.owner && st'.owner[f] == st.owner[f]
    requires forall u :: u in pages' ==> pages'[u] == pages[u]
    ensures AllHold(index', bound, st', pages')
  {
  }

  lemma EvictHolds(index: map<Slot, Page>, bound: nat, st: Store, c: Cache, s: Slot)
    requires Linked(index, bound, st, c) && s in index
    ensures index[s].frame in st.owner && (index - {s}).Keys == (c.pages - {s}).Keys
    ensures AllHold(index - {s}, bound, st.(owner := st.owner - {index[s].frame}), c.pages - {s})
  {
    assert Details(index, bound, st, c);
    assert Holds(index[s], s, c.pages[s], bound, st);
    forall u | u in index && u != s ensures index[u].frame in st.owner - {index[s].frame} {
      assert Holds(index[u], u, c.pages[u], bound, st);
    }
    FewerHold(index, bound, st, c.pages, index - {s}, st.(owner := st.owner - {index[s].frame}), c.pages - {s});
  }

  lemma EvictLeaksNothing(index: map<Slot, Page>, st: Store, s: Slot)
    requires NoLeak(index, st) && s in index && index[s].frame in st.owner && st.owner[index[s].frame] == s
    ensures NoLeak(index - {s}, st.(owner := st.owner - {index[s].frame}))
  {
  }

  lemma EvictOrdered(index: map<Slot, Page>, bound: nat, st: Store, c: Cache, s: Slot)
    requires Linked(index, bound, st, c) && s in index
    ensures Inv(Evicted(c, s)) && Ordered(index - {s}, Evicted(c, s).recency)
  {
    assert Details(index, bound, st, c);
    EvictedInv(c, s);
    RemovedMembers(c.recency, s);
    OrderedRemoved(index, c.recency, s);
    OrderedStill(index, index - {s}, Removed(c.recency, s));
  }

  lemma EvictKeeps(index: map<Slot, Page>, bound: nat, st: Store, c: Cache, s: Slot)
    requires Linked(index, bound, st, c) && s in index
    ensures Linked(index - {s}, bound, st.(owner := st.owner - {index[s].frame}), Evicted(c, s))
  {
    EvictHolds(index, bound, st, c, s);
    assert NoLeak(index, st) by { assert Details(index, bound, st, c); }
    Resident(index, bound, st, c, s);
    EvictLeaksNothing(index, st, s);
    EvictOrdered(index, bound, st, c, s);
    assert Details(index - {s}, bound, st.(owner := st.owner - {index[s].frame}), Evicted(c, s));
  }

  // ---- dropping a table ----

  function OthersOwner(owner: map<nat, Slot>, table: string): map<nat, Slot> {
    map f | f in owner && owner[f].table != table :: owner[f]
  }

  lemma DropHolds(index: map<Slot, Page>, bound: nat, st: Store, c: Cache, table: string)
    requires Linked(index, bound, st, c)
    ensures WithoutTablePages(index, table).Keys == WithoutTable(c, table).pages.Keys
    ensures AllHold(WithoutTablePages(index, table), bound, st.(owner := OthersOwner(st.owner, table)),
            WithoutTable(c, table).pages)
  {
    assert Details(index, bound, st, c);
    var index' := WithoutTablePages(index, table);
    forall u | u in index' ensures index[u].frame in OthersOwner(st.owner, table) {
      assert Holds(index[u], u, c.pages[u], bound, st);
    }
    FewerHold(index, bound, st, c.pages, index', st.(owner := OthersOwner(st.owner, table)),
      WithoutTable(c, table).pages);
  }

  lemma DropOrdered(index: map<Slot, Page>, bound: nat, st: Store, c: Cache, table: string)
    requires Linked(index, bound, st, c)
    ensures Inv(WithoutTable(c, table)) && Ordered(WithoutTablePages(index, table), WithoutTable(c, table).recency)
  {
    assert Inv(c) && Ordered(index, c.recency) && index.Keys == c.pages.Keys by { assert Details(index, bound, st, c); }
    WithoutTableInv(c, table);
    OrderedRemovedTable(index, c.recency, table);
    RemovedTableMembers(c.recency, table);
    OrderedStill(index, WithoutTablePages(index, table), RemovedTable(c.recency, table));
  }

  /** As many frames as pages: each page has its frame, each frame its page. */
  lemma SameNumber(index: map<Slot, Page>, owner: map<nat, Slot>)
    requires forall s :: s in index ==> index[s].frame in owner && owner[index[s].frame] == s
    requires forall f :: f in owner ==> owner[f] in index && index[owner[f]].frame == f
    ensures |owner| == |index|
    decreases |index|
  {
    if index == map[] {
      assert owner.Keys == {};
    } else {
      var s :| s in index;
      var f := index[s].frame;
      SameNumber(index - {s}, owner - {f});
      assert index.Keys == (index - {s}).Keys + {s};
      assert owner.Keys == (owner - {f}).Keys + {f};
    }
  }

  lemma DropLeaksNothing(index: map<Slot, Page>, bound: nat, st: Store, c: Cache, table: string)
    requires Linked(index, bound, st, c)
    ensures NoLeak(WithoutTablePages(index, table), st.(owner := OthersOwner(st.owner, table)))
  {
    var index', owner' := WithoutTablePages(index, table), OthersOwner(st.owner, table);
    assert Details(index, bound, st, c);
    forall s | s in index' ensures index'[s].frame in owner' && owner'[index'[s].frame] == s {
      assert Holds(index[s], s, c.pages[s], bound, st);
    }
    SameNumber(index', owner');
  }

  lemma DropKeeps(index: map<Slot, Page>, bound: nat, st: Store, c: Cache, table: string)
    requires Linked(index, bound, st, c)
    ensures Linked(WithoutTablePages(index, table), bound, st.(owner := OthersOwner(st.owner, table)),
            WithoutTable(c, table))
  {
    DropHolds(index, bound, st, c, table);
    DropLeaksNothing(index, bound, st, c, table);
    DropOrdered(index, bound, st, c, table);
    assert Details(WithoutTablePages(index, table), bound, st.(owner := OthersOwner(st.owner, table)),
           WithoutTable(c, table));
  }

  lemma EmptyLinked(bound: nat, st: Store, capacity: nat)
    requires st.owner == map[] && capacity > 0
    ensures Linked(map[], bound, st, EmptyCache(capacity))
  {
  }

  lemma AsManyFrames(index: map<Slot, Page>, bound: nat, st: Store, c: Cache)
    requires Linked(index, bound, st, c)
    ensures |st.owner| == |c.pages| <= c.capacity
  {
    assert Details(index, bound, st, c);
    assert |index| == |index.Keys| == |c.pages.Keys| == |c.pages|;
  }

  lemma FlagKeeps(index: map<Slot, Page>, bound: nat, st: Store, c: Cache)
    requires Linked(index, bound, st, c)
    ensures Linked(index, bound, st, c.(full := true))
  {
    assert Details(index, bound, st, c);
    assert Details(index, bound, st, c.(full := true));
  }
}
