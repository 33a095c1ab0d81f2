/**
 What the page cache is, whatever tables hold its pages: a bounded map from (table, key) to records, its pages by
 recency, and the flag that says that a search for a victim has failed.  Dirty pages are never evicted.
 */
module PageCache {
  import opened Basics

  datatype Slot = Slot(table: string, key: uint16)
  datatype Entry = Entry(timestamp: uint64, value: Text, dirty: bool)
  datatype Cache = Cache(capacity: nat, pages: map<Slot, Entry>, recency: seq<Slot>, full: bool)

  function EmptyCache(capacity: nat): Cache {
    Cache(capacity, map[], [], false)
  }

  // ---- the recency list ----

  function Removed(recency: seq<Slot>, s: Slot): seq<Slot> {
    if recency == [] then []
    else if recency[0] == s then Removed(recency[1..], s)
    else [recency[0]] + Removed(recency[1..], s)
  }

  function RemovedTable(recency: seq<Slot>, table: string): seq<Slot> {
    if recency == [] then []
    else if recency[0].table == table then RemovedTable(recency[1..], table)
    else [recency[0]] + RemovedTable(recency[1..], table)
  }

  ghost predicate NoRepeats(recency: seq<Slot>) {
    forall i, j :: 0 <= i < j < |recency| ==> recency[i] != recency[j]
  }

  /** The least recently used page that is not dirty. */
  function FirstClean(recency: seq<Slot>, pages: map<Slot, Entry>): Option<Slot> {
    if recency == [] then None
    else if recency[0] in pages && !pages[recency[0]].dirty then Some(recency[0])
    else FirstClean(recency[1..], pages)
  }

  lemma {:induction false} RemovedMembers(recency: seq<Slot>, s: Slot)
    ensures forall u :: u in Removed(recency, s) <==> u in recency && u != s
  {
    if recency != [] {
      RemovedMembers(recency[1..], s);
    }
  }

  lemma {:induction false} RemovedTableMembers(recency: seq<Slot>, table: string)
    ensures forall u :: u in RemovedTable(recency, table) <==> u in recency && u.table != table
  {
    if recency != [] {
      RemovedTableMembers(recency[1..], table);
    }
  }

  /** a was used before b. */
  ghost predicate Earlier(recency: seq<Slot>, a: Slot, b: Slot) {
    exists i, j :: 0 <= i < j < |recency| && recency[i] == a && recency[j] == b
  }

  /** The pages that are in neither list's `gone` are in the same order in both. */
  ghost predicate KeepsOrder(before: seq<Slot>, after: seq<Slot>, gone: set<Slot>) {
    forall a, b {:trigger Earlier(before, a, b)} {:trigger Earlier(after, a, b)} :: a !in gone && b !in gone ==>
      (Earlier(before, a, b) <==> Earlier(after, a, b))
  }

  lemma EarlierStep(recency: seq<Slot>, a: Slot, b: Slot)
    requires recency != []
    ensures Earlier(recency, a, b) <==> (recency[0] == a && b in recency[1..]) || Earlier(recency[1..], a, b)
  {
    if Earlier(recency, a, b) {
      var i, j :| 0 <= i < j < |recency| && recency[i] == a && recency[j] == b;
      assert recency[1..][j - 1] == b;
      if i > 0 {
        assert recency[1..][i - 1] == a;
      }
    }
    if recency[0] == a && b in recency[1..] {
      var j :| 0 <= j < |recency| - 1 && recency[1..][j] == b;
      assert recency[j + 1] == b;
    }
    if Earlier(recency[1..], a, b) {
      var i, j :| 0 <= i < j < |recency| - 1 && recency[1..][i] == a && recency[1..][j] == b;
      assert recency[i + 1] == a && recency[j + 1] == b;
    }
  }

  lemma {:induction false} RemovedOrder(recency: seq<Slot>, s: Slot)
    ensures KeepsOrder(recency, Removed(recency, s), {s})
  {
    if recency != [] {
      RemovedOrder(recency[1..], s);
      forall a, b | a != s && b != s ensures Earlier(recency, a, b) <==> Earlier(Removed(recency, s), a, b) {
        EarlierStep(recency, a, b);
        RemovedMembers(recency[1..], s);
        if recency[0] != s {
          EarlierStep(Removed(recency, s), a, b);
          assert Removed(recency, s)[1..] == Removed(recency[1..], s);
        }
      }
    }
  }

  lemma {:induction false} RemovedTableOrder(recency: seq<Slot>, table: string, a: Slot, b: Slot)
    requires a.table != table && b.table != table
    ensures Earlier(recency, a, b) <==> Earlier(RemovedTable(recency, table), a, b)
  {
    if recency != [] {
      RemovedTableOrder(recency[1..], table, a, b);
      EarlierStep(recency, a, b);
      RemovedTableMembers(recency[1..], table);
      if recency[0].table != table {
        EarlierStep(RemovedTable(recency, table), a, b);
        assert RemovedTable(recency, table)[1..] == RemovedTable(recency[1..], table);
      }
    }
  }

  lemma AppendedOrder(recency: seq<Slot>, s: Slot)
    ensures KeepsOrder(recency, recency + [s], {s})
  {
    var longer := recency + [s];
    forall a, b | a != s && b != s ensures Earlier(recency, a, b) <==> Earlier(longer, a, b) {
      if Earlier(recency, a, b) {
        var i, j :| 0 <= i < j < |recency| && recency[i] == a && recency[j] == b;
        assert longer[i] == a && longer[j] == b;
      }
      if Earlier(longer, a, b) {
        var i, j :| 0 <= i < j < |longer| && longer[i] == a && longer[j] == b;
        assert recency[i] == a && recency[j] == b;
      }
    }
  }

  // ---- operations ----

  function Evicted(c: Cache, s: Slot): Cache {
    c.(pages := c.pages - {s}, recency := Removed(c.recency, s))
  }

  /** Frees a frame if it can: a free one, else the victim's, else none and the cache is known to be full. */
  function MakeRoom(c: Cache): (Cache, bool) {
    if c.full then (c, false)
    else if |c.pages| < c.capacity then (c, true)
    else
      match FirstClean(c.recency, c.pages)
      case None => (c.(full := true), false)
      case Some(victim) => (Evicted(c, victim), true)
  }

  function Touched(c: Cache, s: Slot): Cache {
    if s in c.pages then c.(recency := Removed(c.recency, s) + [s]) else c
  }

  function Loaded(c: Cache, s: Slot, e: Entry): Cache {
    c.(pages := c.pages[s := e], recency := Removed(c.recency, s) + [s])
  }

  /** A value that comes from a client: written over its page or over a new one, and dirty. */
  function Upserted(c: Cache, s: Slot, timestamp: uint64, value: Text): (Cache, bool) {
    if s in c.pages then (Loaded(c, s, Entry(timestamp, value, true)), true)
    else
      var room := MakeRoom(c);
      if room.1 then (Loaded(room.0, s, Entry(timestamp, value, true)), true) else room
  }

  /** A value that comes from the storage engine. */
  function Fetched(c: Cache, s: Slot, timestamp: uint64, value: Text): (Cache, bool) {
    var room := MakeRoom(c);
    if room.1 then (Loaded(room.0, s, Entry(timestamp, value, false)), true) else room
  }

  function WithoutTable(c: Cache, table: string): Cache {
    c.(pages := map s | s in c.pages && s.table != table :: c.pages[s], recency := RemovedTable(c.recency, table))
  }

  function DirtySlots(c: Cache): set<Slot> {
    set s | s in c.pages && c.pages[s].dirty
  }

  /** There is a frame for a new page, or a page that may go. */
  ghost predicate HasRoom(c: Cache) {
    !c.full && (|c.pages| < c.capacity || exists s :: s in c.pages && !c.pages[s].dirty)
  }

  /** A clean page, and all the pages used before it are dirty. */
  ghost predicate IsVictim(c: Cache, v: Slot) {
    v in c.pages && !c.pages[v].dirty && forall u :: u in c.pages && Earlier(c.recency, u, v) ==> c.pages[u].dirty
  }

  /** The page is the last one used. */
  predicate IsLatest(recency: seq<Slot>, s: Slot) {
    recency != [] && recency[|recency| - 1] == s
  }

  // ---- the invariant ----

  ghost predicate Inv(c: Cache) {
    && c.capacity > 0 && |c.pages| <= c.capacity
    && NoRepeats(c.recency) && forall s :: s in c.recency <==> s in c.pages
  }

  /** The flag tells the truth: there is neither a free frame nor a clean page. */
  ghost predicate FullIsExact(c: Cache) {
    c.full ==> |c.pages| == c.capacity && DirtySlots(c) == c.pages.Keys
  }

  lemma EmptyInv(capacity: nat)
    requires capacity > 0
    ensures Inv(EmptyCache(capacity)) && FullIsExact(EmptyCache(capacity))
  {
  }

  lemma {:induction false} NoRepeatsRemoved(recency: seq<Slot>, s: Slot)
    requires NoRepeats(recency)
    ensures NoRepeats(Removed(recency, s))
  {
    if recency != [] {
      NoRepeatsRemoved(recency[1..], s);
      RemovedMembers(recency[1..], s);
      assert forall u :: u in recency[1..] ==> u != recency[0];
      assert forall i :: 0 <= i < |Removed(recency[1..], s)| ==>
             Removed(recency[1..], s)[i] in Removed(recency[1..], s);
    }
  }

  lemma {:induction false} NoRepeatsRemovedTable(recency: seq<Slot>, table: string)
    requires NoRepeats(recency)
    ensures NoRepeats(RemovedTable(recency, table))
  {
    if recency != [] {
      var rest := RemovedTable(recency[1..], table);
      NoRepeatsRemovedTable(recency[1..], table);
      RemovedTableMembers(recency[1..], table);
      assert forall u :: u in recency[1..] ==> u != recency[0];
      assert forall i :: 0 <= i < |rest| ==> rest[i] in rest;
    }
  }

  /** The victim is clean, and every page used before it is dirty; there is none exactly when all pages are dirty. */
  lemma {:induction false} FirstCleanIs(recency: seq<Slot>, pages: map<Slot, Entry>) returns (i: nat)
    requires forall s :: s in recency ==> s in pages
    ensures FirstClean(recency, pages).None? <==> forall s :: s in recency ==> pages[s].dirty
    ensures FirstClean(recency, pages).Some? ==>
              i < |recency| && FirstClean(recency, pages) == Some(recency[i]) && !pages[recency[i]].dirty
              && forall j :: 0 <= j < i ==> pages[recency[j]].dirty
  {
    if recency == [] || !pages[recency[0]].dirty {
      i := 0;
    } else {
      i := FirstCleanIs(recency[1..], pages);
      i := i + 1;
    }
  }

  lemma EvictedInv(c: Cache, s: Slot)
    requires Inv(c) && s in c.pages
    ensures Inv(Evicted(c, s)) && |Evicted(c, s).pages| == |c.pages| - 1
  {
    RemovedMembers(c.recency, s);
    NoRepeatsRemoved(c.recency, s);
    assert Evicted(c, s).pages.Keys == c.pages.Keys - {s};
  }

  /** One page goes and the others stay as they are, in their order. */
  lemma EvictedIs(c: Cache, s: Slot)
    ensures Evicted(c, s).pages == c.pages - {s} && KeepsOrder(c.recency, Evicted(c, s).recency, {s})
    ensures Evicted(c, s).full == c.full && Evicted(c, s).capacity == c.capacity
  {
    RemovedOrder(c.recency, s);
  }

  /** One page is new, or has new contents, and is the last one used. */
  lemma LoadedIs(c: Cache, s: Slot, e: Entry)
    ensures var r := Loaded(c, s, e);
            && r.pages == c.pages[s := e] && IsLatest(r.recency, s) && KeepsOrder(c.recency, r.recency, {s})
            && r.full == c.full && r.capacity == c.capacity
  {
    RemovedOrder(c.recency, s);
    AppendedOrder(Removed(c.recency, s), s);
  }

  /** A page that is used becomes the last one used; nothing else changes. */
  lemma TouchedIs(c: Cache, s: Slot)
    ensures var r := Touched(c, s);
            && r.pages == c.pages && r.full == c.full && r.capacity == c.capacity
            && (s in c.pages ==> IsLatest(r.recency, s) && KeepsOrder(c.recency, r.recency, {s}))
            && (s !in c.pages ==> r == c)
  {
    RemovedOrder(c.recency, s);
    AppendedOrder(Removed(c.recency, s), s);
  }

  lemma LoadedInv(c: Cache, s: Slot, e: Entry)
    requires Inv(c) && (s in c.pages || |c.pages| < c.capacity)
    ensures Inv(Loaded(c, s, e))
  {
    RemovedMembers(c.recency, s);
    NoRepeatsRemoved(c.recency, s);
    assert Loaded(c, s, e).pages.Keys == c.pages.Keys + {s};
    assert forall i :: 0 <= i < |Removed(c.recency, s)| ==> Removed(c.recency, s)[i] in Removed(c.recency, s);
  }

  lemma RewrittenInv(c: Cache, s: Slot, e: Entry)
    requires Inv(c) && s in c.pages
    ensures Inv(c.(pages := c.pages[s := e]))
  {
  }

  lemma TouchedInv(c: Cache, s: Slot)
    requires Inv(c)
    ensures Inv(Touched(c, s)) && (FullIsExact(c) ==> FullIsExact(Touched(c, s)))
  {
    if s in c.pages {
      LoadedInv(c, s, c.pages[s]);
      assert Touched(c, s) == Loaded(c, s, c.pages[s]);
    }
  }

  /** The first clean page of the list is the victim. */
  lemma FirstCleanIsVictim(c: Cache)
    requires Inv(c)
    ensures FirstClean(c.recency, c.pages).Some? ==> IsVictim(c, FirstClean(c.recency, c.pages).value)
    ensures FirstClean(c.recency, c.pages).None? ==> forall s :: s in c.pages ==> c.pages[s].dirty
  {
    var i := FirstCleanIs(c.recency, c.pages);
    if FirstClean(c.recency, c.pages).Some? {
      forall u | u in c.pages && Earlier(c.recency, u, c.recency[i]) ensures c.pages[u].dirty {
        var k, j :| 0 <= k < j < |c.recency| && c.recency[k] == u && c.recency[j] == c.recency[i];
        assert j == i;
      }
    }
  }

  /** A free frame is taken before any page goes; else the victim goes; else the flag is set. */
  lemma MakeRoomIs(c: Cache)
    requires Inv(c)
    ensures MakeRoom(c).1 <==> HasRoom(c)
    ensures c.full ==> MakeRoom(c) == (c, false)
    ensures !c.full && |c.pages| < c.capacity ==> MakeRoom(c) == (c, true)
    ensures !c.full && |c.pages| == c.capacity && !HasRoom(c) ==> MakeRoom(c) == (c.(full := true), false)
    ensures |c.pages| == c.capacity && HasRoom(c) ==>
              exists v :: IsVictim(c, v) && MakeRoom(c).0.pages == c.pages - {v}
                          && KeepsOrder(c.recency, MakeRoom(c).0.recency, {v})
    ensures MakeRoom(c).1 ==> !MakeRoom(c).0.full && MakeRoom(c).0.capacity == c.capacity
  {
    FirstCleanIsVictim(c);
    if !c.full && |c.pages| == c.capacity && FirstClean(c.recency, c.pages).Some? {
      var v := FirstClean(c.recency, c.pages).value;
      EvictedIs(c, v);
      assert IsVictim(c, v);
    }
  }

  /** Making room fails exactly when there is no free frame and no clean page, and never evicts a dirty page. */
  lemma MakeRoomInv(c: Cache)
    requires Inv(c)
    ensures var (r, ok) := MakeRoom(c);
            && Inv(r) && r.capacity == c.capacity && (ok ==> |r.pages| < r.capacity && !r.full)
            && (ok <==> HasRoom(c)) && (!c.full && |c.pages| < c.capacity ==> (r, ok) == (c, true))
            && (!ok ==> r.pages == c.pages && r.recency == c.recency)
            && (forall s :: s in c.pages && c.pages[s].dirty ==> s in r.pages)
            && (forall s :: s in r.pages ==> s in c.pages && r.pages[s] == c.pages[s])
    ensures FullIsExact(c) ==>
              && FullIsExact(MakeRoom(c).0)
              && (MakeRoom(c).1 <==> |c.pages| < c.capacity || DirtySlots(c) != c.pages.Keys)
  {
    MakeRoomIs(c);
    if !c.full && |c.pages| == c.capacity {
      var i := FirstCleanIs(c.recency, c.pages);
      if FirstClean(c.recency, c.pages).Some? {
        EvictedInv(c, c.recency[i]);
        assert c.recency[i] in c.pages.Keys && c.recency[i] !in DirtySlots(c);
      } else {
        assert DirtySlots(c) == c.pages.Keys;
      }
    }
  }

  lemma UpsertedInv(c: Cache, s: Slot, timestamp: uint64, value: Text)
    requires Inv(c)
    ensures Inv(Upserted(c, s, timestamp, value).0)
    ensures FullIsExact(c) ==> FullIsExact(Upserted(c, s, timestamp, value).0)
    ensures FullIsExact(c) ==> (Upserted(c, s, timestamp, value).1 <==>
              s in c.pages || |c.pages| < c.capacity || DirtySlots(c) != c.pages.Keys)
  {
    MakeRoomInv(c);
    var e := Entry(timestamp, value, true);
    if s in c.pages {
      LoadedInv(c, s, e);
      if c.full && FullIsExact(c) {
        assert Loaded(c, s, e).pages.Keys == c.pages.Keys;
        assert forall u :: u in c.pages ==> u in DirtySlots(c);
        assert DirtySlots(Loaded(c, s, e)) == c.pages.Keys;
      }
    } else if MakeRoom(c).1 {
      LoadedInv(MakeRoom(c).0, s, e);
    }
  }

  lemma FetchedInv(c: Cache, s: Slot, timestamp: uint64, value: Text)
    requires Inv(c)
    ensures Inv(Fetched(c, s, timestamp, value).0)
    ensures FullIsExact(c) ==> FullIsExact(Fetched(c, s, timestamp, value).0)
  {
    MakeRoomInv(c);
    if MakeRoom(c).1 {
      LoadedInv(MakeRoom(c).0, s, Entry(timestamp, value, false));
    }
  }

  lemma LoadedDirty(c: Cache, s: Slot, e: Entry)
    ensures DirtySlots(Loaded(c, s, e)) == if e.dirty then DirtySlots(c) + {s} else DirtySlots(c) - {s}
  {
  }

  /** A new page with room made for it: no other page goes while a frame is free, and then only the victim. */
  ghost predicate RoomAndPage(c: Cache, r: Cache, s: Slot, e: Entry) {
    && IsLatest(r.recency, s) && r.full == c.full && r.capacity == c.capacity
    && if |c.pages| < c.capacity then r.pages == c.pages[s := e] && KeepsOrder(c.recency, r.recency, {s})
       else exists v :: IsVictim(c, v) && r.pages == (c.pages - {v})[s := e]
                        && KeepsOrder(c.recency, r.recency, {v, s})
  }

  lemma OrderTwice(x: seq<Slot>, y: seq<Slot>, z: seq<Slot>, v: Slot, s: Slot)
    requires KeepsOrder(x, y, {v}) && KeepsOrder(y, z, {s})
    ensures KeepsOrder(x, z, {v, s})
  {
    forall a, b | a !in {v, s} && b !in {v, s} ensures Earlier(x, a, b) <==> Earlier(z, a, b) {
      assert Earlier(x, a, b) <==> Earlier(y, a, b);
    }
  }

  lemma InPlaceOf(c: Cache, v: Slot, s: Slot, e: Entry)
    requires IsVictim(c, v) && |c.pages| >= c.capacity
    ensures RoomAndPage(c, Loaded(Evicted(c, v), s, e), s, e)
  {
    EvictedIs(c, v);
    LoadedIs(Evicted(c, v), s, e);
    OrderTwice(c.recency, Evicted(c, v).recency, Loaded(Evicted(c, v), s, e).recency, v, s);
  }

  lemma NewPageIs(c: Cache, s: Slot, e: Entry)
    requires Inv(c) && MakeRoom(c).1
    ensures RoomAndPage(c, Loaded(MakeRoom(c).0, s, e), s, e)
  {
    if |c.pages| < c.capacity {
      LoadedIs(c, s, e);
    } else {
      FirstCleanIsVictim(c);
      InPlaceOf(c, FirstClean(c.recency, c.pages).value, s, e);
    }
  }

  /** An acknowledged insert is in the cache, dirty; the page that went, if any, is the victim. */
  lemma UpsertedPages(c: Cache, s: Slot, timestamp: uint64, value: Text)
    requires Inv(c)
    ensures var (r, ok) := Upserted(c, s, timestamp, value);
            && (ok <==> s in c.pages || HasRoom(c)) && (!ok ==> r == c.(full := true))
            && (s in c.pages ==> r.pages == c.pages[s := Entry(timestamp, value, true)] && IsLatest(r.recency, s)
                                 && KeepsOrder(c.recency, r.recency, {s}) && r.full == c.full)
            && (ok && s !in c.pages ==> RoomAndPage(c, r, s, Entry(timestamp, value, true)))
  {
    MakeRoomIs(c);
    if s in c.pages {
      LoadedIs(c, s, Entry(timestamp, value, true));
    } else if MakeRoom(c).1 {
      NewPageIs(c, s, Entry(timestamp, value, true));
    }
  }

  lemma UpsertedDirty(c: Cache, s: Slot, timestamp: uint64, value: Text)
    requires Inv(c)
    ensures var (r, ok) := Upserted(c, s, timestamp, value);
            && (forall u :: u in r.pages && u != s ==> u in c.pages && r.pages[u] == c.pages[u])
            && (ok ==> s in r.pages && r.pages[s] == Entry(timestamp, value, true))
            && (!ok ==> r.pages == c.pages)
            && DirtySlots(r) == if ok then DirtySlots(c) + {s} else DirtySlots(c)
  {
    var e := Entry(timestamp, value, true);
    MakeRoomInv(c);
    if s in c.pages {
      LoadedDirty(c, s, e);
    } else {
      LoadedDirty(MakeRoom(c).0, s, e);
    }
  }

  /** So is a value that was read, and clean. */
  lemma FetchedPages(c: Cache, s: Slot, timestamp: uint64, value: Text)
    requires Inv(c)
    ensures var (r, ok) := Fetched(c, s, timestamp, value);
            && (ok <==> HasRoom(c)) && (!ok ==> r == c.(full := true))
            && (ok ==> RoomAndPage(c, r, s, Entry(timestamp, value, false)))
  {
    MakeRoomIs(c);
    if MakeRoom(c).1 {
      NewPageIs(c, s, Entry(timestamp, value, false));
    }
  }

  lemma FetchedDirty(c: Cache, s: Slot, timestamp: uint64, value: Text)
    requires Inv(c) && s !in c.pages
    ensures var (r, ok) := Fetched(c, s, timestamp, value);
            && (forall u :: u in r.pages && u != s ==> u in c.pages && r.pages[u] == c.pages[u])
            && (ok ==> s in r.pages && r.pages[s] == Entry(timestamp, value, false))
            && DirtySlots(r) == DirtySlots(c)
  {
    MakeRoomInv(c);
  }

  // ---- dropping a table ----

  lemma FewerPages(pages: map<Slot, Entry>, kept: map<Slot, Entry>)
    requires kept.Keys <= pages.Keys
    ensures |kept| <= |pages| && (|kept| == |pages| ==> kept.Keys == pages.Keys)
  {
    assert pages.Keys == kept.Keys + (pages.Keys - kept.Keys);
    assert |kept.Keys| == |kept| && |pages.Keys| == |pages|;
  }

  /** The pages of the table go; the others stay, in their order, and so does the flag. */
  lemma WithoutTableIs(c: Cache, table: string, a: Slot, b: Slot)
    ensures var r := WithoutTable(c, table);
            && (a in r.pages <==> a in c.pages && a.table != table) && (a in r.pages ==> r.pages[a] == c.pages[a])
            && (a.table != table && b.table != table ==>
                  (Earlier(c.recency, a, b) <==> Earlier(r.recency, a, b)))
            && r.full == c.full && r.capacity == c.capacity
  {
    if a.table != table && b.table != table {
      RemovedTableOrder(c.recency, table, a, b);
    }
  }

  lemma WithoutTableInv(c: Cache, table: string)
    requires Inv(c)
    ensures Inv(WithoutTable(c, table))
  {
    RemovedTableMembers(c.recency, table);
    NoRepeatsRemovedTable(c.recency, table);
    FewerPages(c.pages, WithoutTable(c, table).pages);
  }

  /**
   Evicting the pages of a table leaves the flag as it was: it stays true to the pages only if it was clear, or there
   were none.
   */
  lemma DropKeepsFullExactIff(c: Cache, table: string)
    requires Inv(c) && FullIsExact(c)
    ensures FullIsExact(WithoutTable(c, table)) <==> !c.full || forall s :: s in c.pages ==> s.table != table
  {
    var kept := WithoutTable(c, table);
    FewerPages(c.pages, kept.pages);
    if forall s :: s in c.pages ==> s.table != table {
      assert kept.pages == c.pages;
    } else if c.full {
      var s :| s in c.pages && s.table == table;
      assert s !in kept.pages.Keys;
    }
  }

  /** A full cache that drops a table refuses new pages although it has free frames, until the next journal. */
  lemma DropLeavesCacheStuck(c: Cache, table: string, s: Slot, timestamp: uint64, value: Text)
    requires Inv(c) && c.full && FullIsExact(c) && (exists u :: u in c.pages && u.table == table) && s !in c.pages
    ensures var kept := WithoutTable(c, table);
            |kept.pages| < kept.capacity && Upserted(kept, s, timestamp, value) == (kept, false)
  {
    DropKeepsFullExactIff(c, table);
    FewerPages(c.pages, WithoutTable(c, table).pages);
    var u :| u in c.pages && u.table == table;
    assert u !in WithoutTable(c, table).pages.Keys;
  }

  /** After a journal the cache is empty, so the next insert finds room: the kernel retries at most once. */
  lemma JournalMakesRoom(c: Cache, s: Slot, timestamp: uint64, value: Text)
    requires c.capacity > 0
    ensures Upserted(EmptyCache(c.capacity), s, timestamp, value) == (OnePage(c.capacity, s, timestamp, value), true)
  {
    assert [] + [s] == [s];
  }

  /** A cache with one page, written by a client. */
  function OnePage(capacity: nat, s: Slot, timestamp: uint64, value: Text): Cache {
    Cache(capacity, map[s := Entry(timestamp, value, true)], [s], false)
  }

  // ---- runs ----

  datatype Operation =
    | Use(s: Slot)
    | Upsert(s: Slot, timestamp: uint64, value: Text)
    | Fetch(s: Slot, timestamp: uint64, value: Text)
    | Journal
    | DropTable(table: string)

  function Apply(c: Cache, op: Operation): Cache {
    match op
    case Use(s) => Touched(c, s)
    case Upsert(s, timestamp, value) => Upserted(c, s, timestamp, value).0
    case Fetch(s, timestamp, value) => Fetched(c, s, timestamp, value).0
    case Journal => EmptyCache(c.capacity)
    case DropTable(table) => WithoutTable(c, table)
  }

  function After(capacity: nat, ops: seq<Operation>): Cache {
    if ops == [] then EmptyCache(capacity)
    else Apply(After(capacity, ops[..|ops| - 1]), ops[|ops| - 1])
  }

  lemma AfterOne(capacity: nat, ops: seq<Operation>, n: nat)
    requires n < |ops|
    ensures After(capacity, ops[..n + 1]) == Apply(After(capacity, ops[..n]), ops[n])
  {
    assert ops[..n + 1][..n] == ops[..n];
  }

  /** Two inserts into a memory of one frame and a drop: the memory is empty and refuses every insert. */
  lemma StuckCacheIsReachable(a: Slot, b: Slot, timestamp: uint64, value: Text, s: Slot)
    requires a != b
    ensures var c := After(1, [Upsert(a, timestamp, value), Upsert(b, timestamp, value), DropTable(a.table)]);
            c == EmptyCache(1).(full := true) && Upserted(c, s, timestamp, value) == (c, false)
  {
    var ops := [Upsert(a, timestamp, value), Upsert(b, timestamp, value), DropTable(a.table)];
    AfterOne(1, ops, 0);
    AfterOne(1, ops, 1);
    AfterOne(1, ops, 2);
    assert ops[..3] == ops;
    var c := After(1, ops[..1]);
    assert c.pages == map[a := Entry(timestamp, value, true)] && c.recency == [] + [a] == [a];
    assert |c.pages| == 1 && [a][1..] == [];
    assert FirstClean([a], c.pages) == None;
    assert After(1, ops[..2]) == c.(full := true);
    assert WithoutTable(c, a.table).pages == map[];
    assert RemovedTable([a], a.table) == [];
  }

  /** A drop that leaves the flag exact: the flag is clear, or the table has no pages. */
  ghost predicate Harmless(c: Cache, op: Operation) {
    op.DropTable? ==> !c.full || forall s :: s in c.pages ==> s.table != op.table
  }

  ghost predicate AllHarmless(capacity: nat, ops: seq<Operation>) {
    ops == [] ||
    (AllHarmless(capacity, ops[..|ops| - 1]) && Harmless(After(capacity, ops[..|ops| - 1]), ops[|ops| - 1]))
  }

  lemma ApplyInv(c: Cache, op: Operation)
    requires Inv(c)
    ensures Inv(Apply(c, op)) && Apply(c, op).capacity == c.capacity
    ensures FullIsExact(c) && Harmless(c, op) ==> FullIsExact(Apply(c, op))
  {
    match op
    case Use(s) => TouchedInv(c, s);
    case Upsert(s, timestamp, value) => UpsertedInv(c, s, timestamp, value); MakeRoomInv(c);
    case Fetch(s, timestamp, value) => FetchedInv(c, s, timestamp, value); MakeRoomInv(c);
    case Journal => EmptyInv(c.capacity);
    case DropTable(table) =>
      WithoutTableInv(c, table);
      if FullIsExact(c) { DropKeepsFullExactIff(c, table); }
  }

  /** Whatever the operations, the flag is exact as long as no table with pages is dropped while it is set. */
  lemma {:induction false} RunInv(capacity: nat, ops: seq<Operation>)
    requires capacity > 0
    ensures Inv(After(capacity, ops)) && After(capacity, ops).capacity == capacity
    ensures AllHarmless(capacity, ops) ==> FullIsExact(After(capacity, ops))
  {
    if ops == [] {
      EmptyInv(capacity);
    } else {
      RunInv(capacity, ops[..|ops| - 1]);
      ApplyInv(After(capacity, ops[..|ops| - 1]), ops[|ops| - 1]);
    }
  }
}
