/**
 Two runs of the program that lose a record for lack of blocks, from the creation of the engine on: the exact conditions
 on dumps and commits exclude something that happens.
 */
module Losses {
  import opened Basics
  import opened Records
  import opened Codec
  import opened BlockLists
  import opened Volumes
  import opened Engine
  import opened Space
  import opened StoreView
  import opened Lfs

  /** The engine has one table, in this state, no dump or compaction runs, and so many blocks are free. */
  ghost predicate Stands(lfs: StorageEngine, table: string, s: Table, free: nat)
    reads lfs, lfs.fs, lfs.fs.allocator, lfs.fs.allocator.bitmap, lfs.fs.allocator.bitmap.bytes, lfs.fs.disk
  {
    && lfs.Valid() && lfs.view == map[table := s] && |lfs.fs.allocator.free| == free
    && lfs.dumping == map[] && lfs.compactions == map[]
  }

  method NewTable(table: string, partitions: uint16, blockSize: nat, numBlocks: nat) returns (lfs: StorageEngine)
    requires 0 < partitions <= numBlocks && blockSize > 0
    ensures fresh(lfs) && fresh(lfs.fs) && fresh(lfs.fs.Repr())
    ensures Stands(lfs, table, Engine.Created(partitions), numBlocks - partitions) && lfs.fs.blockSize == blockSize
    ensures lfs.fs.allocator.numBlocks == numBlocks
  {
    lfs := new StorageEngine(blockSize, numBlocks);
    var ok := lfs.Create(table, partitions);
  }

  method InsertOne(lfs: StorageEngine, table: string, r: Record, ghost s: Table, ghost free: nat)
    requires Stands(lfs, table, s, free) && Legal(r.value)
    modifies lfs`memtable, lfs`view
    ensures Stands(lfs, table, s.(mem := s.mem + [r]), free)
  {
    ViewIsTables(lfs);
    var ok := lfs.Insert(table, r.key, r.value, r.timestamp);
  }

  lemma ViewIsTables(lfs: StorageEngine)
    requires lfs.Valid()
    ensures lfs.view.Keys == lfs.tables.Keys
  {
  }

  lemma MemtableIs(lfs: StorageEngine, table: string, s: Table)
    requires lfs.Valid() && lfs.view == map[table := s] && s.mem != [] && lfs.dumping == map[]
    ensures lfs.memtable == map[table := s.mem] && s.inflight == []
  {
    TableShown(lfs.Now(), lfs.view, table);
  }

  method SwapOne(lfs: StorageEngine, table: string, ghost s: Table, ghost free: nat)
    requires Stands(lfs, table, s, free) && s.mem != []
    modifies lfs`memtable, lfs`dumping, lfs`view
    ensures Enabled(s, Swap) && lfs.Valid() && lfs.view == map[table := Next(s, Swap)]
    ensures lfs.dumping == map[table := s.mem] && lfs.compactions == map[] && |lfs.fs.allocator.free| == free
  {
    MemtableIs(lfs, table, s);
    lfs.SwapMemtable();
    assert lfs.view == map[table := Next(s, Swap)];
  }

  method DumpAll(lfs: StorageEngine, table: string, ghost s: Table, ghost free: nat) returns (outcome: Outcome)
    requires Stands(lfs, table, s, free) && s.mem != []
    modifies lfs.fs, lfs.fs.allocator, lfs.fs.allocator.bitmap, lfs.fs.allocator.bitmap.bytes, lfs.fs.disk,
             lfs`memtable, lfs`dumping, lfs`view
    ensures outcome ==
            if free == 0 then NoBlock else if DumpCost(s.mem, lfs.fs.blockSize) <= free then Stored else NoSpace
    ensures Enabled(s, Swap) && Enabled(Next(s, Swap), DumpTable(outcome))
    ensures Taken(s.mem, outcome, lfs.fs.blockSize) <= free
    ensures Stands(lfs, table, Next(Next(s, Swap), DumpTable(outcome)), free - Taken(s.mem, outcome, lfs.fs.blockSize))
  {
    SwapOne(lfs, table, s, free);
    outcome := lfs.DumpTable(table);
    assert lfs.dumping == map[];
  }

  // ---- a dump that finds no block ----

  /** A table of one block on a disk of one block: whatever it inserts, its first dump loses it. */
  method DumpLosesRecord(table: string, r: Record)
    returns (before: SelectResult, outcome: Outcome, answer: SelectResult)
    requires Legal(r.value)
    ensures before == Found(r.value, r.timestamp) && outcome.NoBlock? && answer == KeyNotFound
  {
    var lfs := NewTable(table, 1, 64, 1);
    ghost var s := Engine.Created(1);
    OneIsVisible(r);
    InsertOne(lfs, table, r, s, 0);
    before := Ask(lfs, table, r.key, s.(mem := [r]), Some(r));
    outcome := DumpAll(lfs, table, s.(mem := [r]), 0);
    answer := Ask(lfs, table, r.key, s, None);
  }

  lemma OneIsVisible(r: Record)
    ensures [] + [r] == [r] && Visible(Engine.Created(1)) == {} && Visible(Engine.Created(1).(mem := [r])) == {r}
  {
    assert SetOf([r]) == {r};
  }

  method Ask(lfs: StorageEngine, table: string, key: uint16, ghost s: Table, ghost newest: Option<Record>)
    returns (answer: SelectResult)
    requires lfs.Valid() && lfs.view == map[table := s]
    requires forall o :: IsNewest(Visible(s), key, o) ==> o == newest
    ensures answer == ResultOf(newest)
  {
    ViewIsTables(lfs);
    ghost var found;
    answer, found := lfs.Select(table, key);
  }

  // ---- a commit that finds blocks for one of two partitions ----

  /** A record whose line has six bytes. */
  function Small(key: uint16): Record {
    Record(1, key, [97])
  }

  function SmallOnes(keys: seq<uint16>): seq<Record> {
    seq(|keys|, i requires 0 <= i < |keys| => Small(keys[i]))
  }

  ghost function Smalls(keys: set<uint16>): set<Record> {
    set k | k in keys :: Small(k)
  }

  lemma {:induction false} SmallTotal(keys: seq<uint16>)
    requires forall k :: k in keys ==> k < 10
    ensures |Render(SmallOnes(keys))| == 6 * |keys|
  {
    if keys != [] {
      var n := |keys| - 1;
      assert forall k :: k in keys[..n] ==> k in keys;
      SmallTotal(keys[..n]);
      assert SmallOnes(keys)[..n] == SmallOnes(keys[..n]);
      assert keys[n] in keys;
    }
  }

  /** The keys of one of two partitions, each once. */
  ghost predicate Half(half: seq<uint16>, keys: set<uint16>, partition: nat) {
    && (forall k: uint16 :: k in half <==> k in keys && k < 10 && k % 2 == partition)
    && (forall i, j :: 0 <= i < j < |half| ==> half[i] != half[j])
  }

  lemma SmallScan(read: seq<Record>, keys: set<uint16>, k: uint16)
    requires SetOf(read) == Smalls(keys)
    ensures Scan(read, k) == if k in keys then Some(Small(k)) else None
  {
    ScanIsNewest(read, k);
    if k in keys {
      assert Small(k) in SetOf(read);
    }
  }

  lemma HalfLength(read: seq<Record>, keys: set<uint16>, half: seq<uint16>, partition: nat)
    requires SetOf(read) == Smalls(keys) && partition < 2 && Half(half, keys, partition)
    requires forall k :: k in keys ==> k < 10
    ensures |Render(Listing(read, partition, 2))| == 6 * |half|
  {
    var output := SmallOnes(half);
    forall r | r in output ensures r.key % 2 == partition && Scan(read, r.key) == Some(r) {
      SmallScan(read, keys, r.key);
    }
    forall k: uint16 | k % 2 == partition && Scan(read, k).Some? ensures Scan(read, k).value in output {
      SmallScan(read, keys, k);
      var i :| 0 <= i < |half| && half[i] == k;
      assert output[i] == Small(k);
    }
    ListingLength(output, read, partition, 2);
    SmallTotal(half);
  }

  /** The blocks that a partition with one block lacks for so many bytes. */
  function Lack(bytes: nat): nat {
    Growth(BlocksFor(bytes, 12), 1)
  }

  lemma TwoNeeds(read: seq<Record>, m: nat, n: nat)
    requires |Render(Listing(read, 0, 2))| == m && |Render(Listing(read, 1, 2))| == n
    ensures Needs(read, [1, 1], 12) == [Lack(m), Lack(n)]
  {
    var needs := Needs(read, [1, 1], 12);
    assert |needs| == 2 && needs[0] == Lack(m) && needs[1] == Lack(n);
  }

  lemma HalvesNeed(read: seq<Record>, keys: set<uint16>, evens: seq<uint16>, odds: seq<uint16>)
    requires SetOf(read) == Smalls(keys) && Half(evens, keys, 0) && Half(odds, keys, 1)
    requires forall k :: k in keys ==> k < 10
    ensures Needs(read, [1, 1], 12) == [Lack(6 * |evens|), Lack(6 * |odds|)]
  {
    HalfLength(read, keys, evens, 0);
    HalfLength(read, keys, odds, 1);
    TwoNeeds(read, 6 * |evens|, 6 * |odds|);
  }

  /** The keys that are there after a commit. */
  ghost function KeysLeft(before: set<uint16>, keys: set<uint16>, written: set<nat>): set<uint16> {
    set k | k in keys && (k % 2 in written || k in before)
  }

  /** After a commit a partition has the new keys if it was rewritten, and the old ones otherwise. */
  lemma KeysAfter(s: Table, s': Table, output: seq<seq<Record>>, written: set<nat>, before: set<uint16>,
                  keys: set<uint16>)
    requires CompactedFrom(s, s', output, written) && |s.bins| == 2 && Partitioned(s.bins)
    requires InBins(s.bins) == Smalls(before) && InBins(s.bins) + InFiles(s.tmp) == Smalls(keys)
    ensures InBins(s'.bins) == Smalls(KeysLeft(before, keys, written))
  {
    forall r ensures r in InBins(s'.bins) <==> r in Smalls(keys) && (r.key % 2 in written || r in Smalls(before)) {
      BinAfter(s, s', output, written, r);
      var p := r.key % 2;
      assert IsCompact(output[p], Smalls(keys), p, 2);
    }
  }

  lemma BinAfter(s: Table, s': Table, output: seq<seq<Record>>, written: set<nat>, r: Record)
    requires CompactedFrom(s, s', output, written) && |s.bins| == 2 && Partitioned(s.bins)
    ensures r in InBins(s'.bins) <==> if r.key % 2 in written then r in output[r.key % 2] else r in InBins(s.bins)
  {
    var p := r.key % 2;
    assert s'.bins[p] == if p in written then output[p] else s.bins[p];
    if r in InBins(s'.bins) {
      var i :| 0 <= i < 2 && r in s'.bins[i];
      assert s'.bins[i] == if i in written then output[i] else s.bins[i];
      assert IsCompact(output[i], InBins(s.bins) + InFiles(s.tmp), i, 2);
      assert i == p;
    }
    if r in InBins(s.bins) {
      var i :| 0 <= i < 2 && r in s.bins[i];
      assert i == p;
    }
  }

  function ThreePaths(table: string): set<Path> {
    {Path(table, Bin, 0), Path(table, Bin, 1), Path(table, Tmp, 0)}
  }

  /** Two partitions and one dump on three blocks: each file has one block. */
  lemma ThreeFiles(v: Volume, disk: seq<Text>, blockSize: nat, free: set<nat>, reserved: set<nat>, table: string)
    requires Volumes.Consistent(v, disk, blockSize, free, reserved) && v.files.Keys == ThreePaths(table) && |disk| == 3
    ensures BinBlocks(v.files, table, 2) == [1, 1] && |OwnedWithin(v.owner, {Path(table, Tmp, 0)})| == 1
  {
    assert |v.files.Keys| == 3;
    OneBlockEach(v, disk, blockSize, free, reserved, Path(table, Bin, 0));
    OneBlockEach(v, disk, blockSize, free, reserved, Path(table, Bin, 1));
    OneBlockEach(v, disk, blockSize, free, reserved, Path(table, Tmp, 0));
  }

  /** So the commit has room for one block. */
  lemma RoomForOne(lfs: StorageEngine, table: string, s: Table)
    requires Stands(lfs, table, s, 0) && lfs.fs.allocator.numBlocks == 3
    requires |s.bins| == 2 && s.tmp.Keys == {0} && s.tmpc == map[]
    ensures BinBlocks(lfs.fs.files, table, 2) == [1, 1] && lfs.Room(table, Tmp) == 1 && lfs.TmpNumbers(table) == {0}
  {
    var fs := lfs.fs;
    ContentsAre(lfs.Now(), lfs.view, table);
    fs.FilesHaveContents();
    ThreeFiles(fs.volume, fs.disk[..], fs.blockSize, fs.allocator.free, fs.reserved, table);
    assert forall p :: p in ThreePaths(table) && p.kind == Tmp ==> p == Path(table, Tmp, 0);
    assert BlocksOfKind(fs.volume, table, Tmp) == OwnedWithin(fs.volume.owner, {Path(table, Tmp, 0)}) by {
      fs.BlocksHaveFiles({});
    }
  }

  lemma ContentsAre(w: World, view: map<string, Table>, table: string)
    requires Represents(w, view) && view.Keys == {table}
    requires |view[table].bins| == 2 && view[table].tmp.Keys == {0} && view[table].tmpc == map[]
    ensures w.contents.Keys == ThreePaths(table)
  {
    var s := view[table];
    TableShown(w, view, table);
    assert Holds(w.contents, Path(table, Bin, 0), s.bins[0]) && Holds(w.contents, Path(table, Bin, 1), s.bins[1])
           && Holds(w.contents, Path(table, Tmp, 0), s.tmp[0]);
    assert forall q: Path :: q.table == table && q.kind == Tmpc ==> q == Path(table, Tmpc, q.number);
    forall p | p in w.contents ensures p in ThreePaths(table) {
      match p.kind
      case Bin => assert p == Path(table, Bin, p.number);
      case Tmp => assert p == Path(table, Tmp, p.number) && p.number in s.tmp;
      case Tmpc =>
    }
  }

  method CompactAll(lfs: StorageEngine, table: string, ghost s: Table)
    returns (ghost s': Table, ghost output: seq<seq<Record>>, ghost written: set<nat>, ghost read: seq<Record>)
    requires Stands(lfs, table, s, 0) && lfs.fs.blockSize == 12 && lfs.fs.allocator.numBlocks == 3
    requires |s.bins| == 2 && s.tmp.Keys == {0} && s.tmpc == map[]
    modifies lfs.fs, lfs.fs.allocator, lfs.fs.allocator.bitmap, lfs.fs.allocator.bitmap.bytes, lfs.fs.disk,
             lfs`compactions, lfs`view
    ensures CompactedFrom(s, s', output, written) && SetOf(read) == InBins(s.bins) + InFiles(s.tmp)
    ensures written == Granted(Needs(read, [1, 1], 12), 1)
    ensures Stands(lfs, table, s', BlocksLeft(Needs(read, [1, 1], 12), 1))
  {
    RoomForOne(lfs, table, s);
    PartitionsShown(lfs.Now(), lfs.view, table);
    var started;
    started, output, written, read := lfs.Compact(table);
    s' := lfs.view[table];
    NothingRuns(lfs, table);
  }

  lemma StaysPartitioned(lfs: StorageEngine, table: string)
    requires lfs.Valid() && table in lfs.view
    ensures Partitioned(lfs.view[table].bins)
  {
    ViewIsTables(lfs);
    TableShown(lfs.Now(), lfs.view, table);
  }

  lemma NothingRuns(lfs: StorageEngine, table: string)
    requires lfs.Valid() && lfs.view.Keys == {table} && table !in lfs.compactions
    ensures lfs.compactions == map[]
  {
    TableShown(lfs.Now(), lfs.view, table);
  }

  /** The state between two rounds: partitions with these keys, and one free block. */
  ghost predicate Rests(s: Table, keys: set<uint16>) {
    && s == Engine.Created(2).(bins := s.bins) && |s.bins| == 2 && Partitioned(s.bins)
    && InBins(s.bins) == Smalls(keys) && forall k :: k in keys ==> k < 10
  }

  ghost function WithDump(s: Table, a: uint16, b: uint16): Table {
    s.(tmp := map[0 := [Small(a), Small(b)]])
  }

  /** Two records are one block. */
  lemma TwoInADump(s: Table, a: uint16, b: uint16)
    requires s.mem == [] && s.inflight == [] && s.tmp == map[] && s.readers == map[] && a < 10 && b < 10
    ensures var t := s.(mem := [Small(a), Small(b)]);
            && DumpCost(t.mem, 12) == 1
            && Next(Next(t, Swap), DumpTable(Stored)) == WithDump(s, a, b)
    ensures s.mem + [Small(a)] + [Small(b)] == [Small(a), Small(b)]
    ensures InFiles(WithDump(s, a, b).tmp) == Smalls({a, b})
  {
    var rs := [Small(a), Small(b)];
    SmallTotal([a, b]);
    assert SmallOnes([a, b]) == rs;
    assert rs[0] == Small(a) && rs[1] == Small(b);
    InFilesAdd(map[], 0, rs);
    assert map[][0 := rs] == WithDump(s, a, b).tmp;
  }

  method InsertAndDump(lfs: StorageEngine, table: string, a: uint16, b: uint16, ghost s: Table)
    requires Stands(lfs, table, s, 1) && lfs.fs.blockSize == 12 && a < 10 && b < 10
    requires s.mem == [] && s.inflight == [] && s.tmp == map[] && s.readers == map[]
    modifies lfs.fs, lfs.fs.allocator, lfs.fs.allocator.bitmap, lfs.fs.allocator.bitmap.bytes, lfs.fs.disk,
             lfs`memtable, lfs`dumping, lfs`view
    ensures Stands(lfs, table, WithDump(s, a, b), 0)
  {
    InsertOne(lfs, table, Small(a), s, 1);
    InsertOne(lfs, table, Small(b), s.(mem := s.mem + [Small(a)]), 1);
    TwoInADump(s, a, b);
    var outcome := DumpAll(lfs, table, s.(mem := [Small(a), Small(b)]), 1);
  }

  /** What the compaction finds, and what it leaves. */
  lemma RoundEnds(s: Table, a: uint16, b: uint16, keys: set<uint16>, evens: seq<uint16>, odds: seq<uint16>,
                  s': Table, output: seq<seq<Record>>, written: set<nat>, read: seq<Record>)
    requires Rests(s, keys) && a < 10 && b < 10
    requires Half(evens, keys + {a, b}, 0) && Half(odds, keys + {a, b}, 1)
    requires var t := WithDump(s, a, b);
             CompactedFrom(t, s', output, written) && SetOf(read) == InBins(t.bins) + InFiles(t.tmp)
    ensures Needs(read, [1, 1], 12) == [Lack(6 * |evens|), Lack(6 * |odds|)]
    ensures Partitioned(s'.bins) ==> Rests(s', KeysLeft(keys, keys + {a, b}, written))
  {
    var t := WithDump(s, a, b);
    TwoInADump(s, a, b);
    assert Smalls(keys) + Smalls({a, b}) == Smalls(keys + {a, b});
    HalvesNeed(read, keys + {a, b}, evens, odds);
    KeysAfter(t, s', output, written, keys, keys + {a, b});
  }

  /** With at most two lines in each partition nothing is needed. */
  method QuietRound(lfs: StorageEngine, table: string, a: uint16, b: uint16, ghost s: Table, ghost keys: set<uint16>,
                    ghost evens: seq<uint16>, ghost odds: seq<uint16>)
    returns (ghost s': Table)
    requires Stands(lfs, table, s, 1) && lfs.fs.blockSize == 12 && lfs.fs.allocator.numBlocks == 3
    requires Rests(s, keys) && a < 10 && b < 10 && |evens| <= 2 && |odds| <= 2
    requires Half(evens, keys + {a, b}, 0) && Half(odds, keys + {a, b}, 1)
    modifies lfs.fs, lfs.fs.allocator, lfs.fs.allocator.bitmap, lfs.fs.allocator.bitmap.bytes, lfs.fs.disk,
             lfs`memtable, lfs`dumping, lfs`compactions, lfs`view
    ensures Stands(lfs, table, s', 1) && Rests(s', keys + {a, b})
  {
    ghost var output, written, read;
    InsertAndDump(lfs, table, a, b, s);
    s', output, written, read := CompactAll(lfs, table, WithDump(s, a, b));
    RoundEnds(s, a, b, keys, evens, odds, s', output, written, read);
    StaysPartitioned(lfs, table);
    TwoLinesFit(|evens|, |odds|);
    EveryKeyStays(keys, keys + {a, b}, written);
  }

  lemma TwoLinesFit(m: nat, n: nat)
    requires m <= 2 && n <= 2
    ensures Granted([Lack(6 * m), Lack(6 * n)], 1) == {0, 1} && BlocksLeft([Lack(6 * m), Lack(6 * n)], 1) == 1
  {
    assert Lack(6 * m) == 0 && Lack(6 * n) == 0;
    assert [0, 0][..1] == [0] && [0][..0] == [];
  }

  lemma EveryKeyStays(keys: set<uint16>, keys': set<uint16>, written: set<nat>)
    requires written == {0, 1}
    ensures KeysLeft(keys, keys', written) == keys'
  {
  }

  lemma ThreeLinesDoNot()
    ensures Granted([Lack(18), Lack(18)], 1) == {0}
  {
    assert BlocksFor(18, 12) == 1 + BlocksFor(6, 12);
    assert Lack(18) == 1 && [1, 1][..1] == [1] && [1][..0] == [];
  }

  lemma SmallIsNewest(S: set<Record>, keys: set<uint16>, k: uint16)
    requires S == Smalls(keys)
    ensures forall o :: IsNewest(S, k, o) ==> o == if k in keys then Some(Small(k)) else None
  {
    assert k in keys ==> Small(k) in S;
  }

  lemma VisibleBefore(s: Table, a: uint16, b: uint16, keys: set<uint16>)
    requires Rests(s, keys) && a < 10 && b < 10
    ensures forall o :: IsNewest(Visible(WithDump(s, a, b)), b, o) ==> o == Some(Small(b))
  {
    var t := WithDump(s, a, b);
    TwoInADump(s, a, b);
    assert Visible(t) == Smalls(keys) + Smalls({a, b}) == Smalls(keys + {a, b});
    SmallIsNewest(Visible(t), keys + {a, b}, b);
  }

  lemma GoneAfter(s': Table, keys: set<uint16>, k: uint16)
    requires Rests(s', keys) && k !in keys
    ensures forall o :: IsNewest(Visible(s'), k, o) ==> o == None
  {
    assert Visible(s') == Smalls(keys);
    SmallIsNewest(Visible(s'), keys, k);
  }

  /** With three lines in each partition a block is needed for both, and there is one: the second loses its record. */
  method LossyRound(lfs: StorageEngine, table: string, a: uint16, b: uint16, ghost s: Table, ghost keys: set<uint16>,
                    ghost evens: seq<uint16>, ghost odds: seq<uint16>)
    returns (before: SelectResult, ghost written: set<nat>, answer: SelectResult)
    requires Stands(lfs, table, WithDump(s, a, b), 0) && lfs.fs.blockSize == 12 && lfs.fs.allocator.numBlocks == 3
    requires Rests(s, keys) && a < 10 && b < 10 && b !in keys && b % 2 == 1 && |evens| == |odds| == 3
    requires Half(evens, keys + {a, b}, 0) && Half(odds, keys + {a, b}, 1)
    modifies lfs.fs, lfs.fs.allocator, lfs.fs.allocator.bitmap, lfs.fs.allocator.bitmap.bytes, lfs.fs.disk,
             lfs`compactions, lfs`view
    ensures before == Found([97], 1) && written == {0} && answer == KeyNotFound
  {
    ghost var s', output, read;
    VisibleBefore(s, a, b, keys);
    before := Ask(lfs, table, b, WithDump(s, a, b), Some(Small(b)));
    s', output, written, read := CompactAll(lfs, table, WithDump(s, a, b));
    RoundEnds(s, a, b, keys, evens, odds, s', output, written, read);
    StaysPartitioned(lfs, table);
    ThreeLinesDoNot();
    GoneAfter(s', KeysLeft(keys, keys + {a, b}, written), b);
    answer := Ask(lfs, table, b, s', None);
  }

  lemma FirstHalves()
    ensures Half([0, 2], {} + {0, 2}, 0) && Half([], {} + {0, 2}, 1)
    ensures Half([0, 2], {0, 2} + {1, 3}, 0) && Half([1, 3], {0, 2} + {1, 3}, 1)
    ensures {} + {0, 2} == {0, 2} && {0, 2} + {1, 3} == {0, 1, 2, 3}
  {
  }

  lemma LastHalves()
    ensures Half([0, 2, 4], {0, 1, 2, 3} + {4, 5}, 0) && Half([1, 3, 5], {0, 1, 2, 3} + {4, 5}, 1)
  {
  }

  lemma NewTableRests()
    ensures Rests(Engine.Created(2), {})
  {
    CreatedInv(2);
  }

  method TwoRounds(lfs: StorageEngine, table: string) returns (ghost s: Table)
    requires Stands(lfs, table, Engine.Created(2), 1) && lfs.fs.blockSize == 12 && lfs.fs.allocator.numBlocks == 3
    modifies lfs.fs, lfs.fs.allocator, lfs.fs.allocator.bitmap, lfs.fs.allocator.bitmap.bytes, lfs.fs.disk,
             lfs`memtable, lfs`dumping, lfs`compactions, lfs`view
    ensures Stands(lfs, table, s, 1) && Rests(s, {0, 1, 2, 3})
  {
    NewTableRests();
    FirstHalves();
    s := QuietRound(lfs, table, 0, 2, Engine.Created(2), {}, [0, 2], []);
    s := QuietRound(lfs, table, 1, 3, s, {0, 2}, [0, 2], [1, 3]);
  }

  /** Three rounds of two inserts, a dump and a compaction, on a disk of three blocks: the last one loses a record. */
  method CommitLosesRecord(table: string) returns (before: SelectResult, ghost written: set<nat>, answer: SelectResult)
    ensures before == Found([97], 1) && written == {0} && answer == KeyNotFound
  {
    var lfs := NewTable(table, 2, 12, 3);
    ghost var s := TwoRounds(lfs, table);
    InsertAndDump(lfs, table, 4, 5, s);
    LastHalves();
    before, written, answer := LossyRound(lfs, table, 4, 5, s, {0, 1, 2, 3}, [0, 2, 4], [1, 3, 5]);
  }
}
