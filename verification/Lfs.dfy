/**
 The storage engine of the program: its tables, its two memtables and its compactions, over the
 block file system.  Every operation is proved to make one step of the `Engine` machine.
 */
module Lfs {
  import opened Basics
  import opened Records
  import opened Codec
  import opened Volumes
  import opened BlockFs
  import opened BlockLists
  import opened Engine
  import opened Compaction
  import opened Space
  import opened StoreView

  datatype SelectResult = Found(value: Text, timestamp: uint64) | KeyNotFound | TableNotFound

  function ResultOf(o: Option<Record>): SelectResult {
    if o.None? then KeyNotFound else Found(o.value.value, o.value.timestamp)
  }

  class StorageEngine {
    const fs: BlockFileSystem
    /** Partitions of each table, from its metadata file. */
    var tables: map<string, nat>
    var memtable: map<string, seq<Record>>
    /** The old memtable of a running dump, without the tables already dumped. */
    var dumping: map<string, seq<Record>>
    var compactions: map<string, Progress>
    /** The state of the `Engine` machine of each table. */
    ghost var view: map<string, Table>

    ghost function Now(): World
      reads this, fs
    {
      World(tables, fs.volume.contents, memtable, dumping, compactions)
    }

    ghost predicate Valid()
      reads this, fs, fs.allocator, fs.allocator.bitmap, fs.allocator.bitmap.bytes, fs.disk
    {
      fs.Valid() && fs.reserved == {} && Represents(Now(), view)
    }

    constructor (blockSize: nat, numBlocks: nat)
      requires blockSize > 0
      ensures Valid() && fresh(fs) && fresh(fs.Repr()) && view == map[]
      ensures tables == map[] && memtable == map[] && dumping == map[] && compactions == map[]
      ensures fs.blockSize == blockSize && fs.allocator.numBlocks == |fs.allocator.free| == numBlocks
    {
      fs := new BlockFileSystem(blockSize, numBlocks);
      tables, memtable, dumping, compactions, view := map[], map[], map[], map[], map[];
    }

    // ---- insert ----

    method Insert(table: string, key: uint16, value: Text, timestamp: uint64) returns (ok: bool)
      requires Valid() && Legal(value)
      modifies this`memtable, this`view
      ensures Valid() && ok == (table in tables)
      ensures ok ==> table in old(view)
      ensures view ==
              if ok then old(view)[table := Next(old(view)[table], Action.Insert(Record(timestamp, key, value)))]
                      else old(view)
    {
      if table !in tables {
        return false;
      }
      InsertShown(Now(), view, table, Record(timestamp, key, value));
      memtable := memtable[table := RecordsOf(memtable, table) + [Record(timestamp, key, value)]];
      view := view[table := Next(view[table], Action.Insert(Record(timestamp, key, value)))];
      ok := true;
    }

    // ---- dump ----

    /** The exchange of memtables that starts a dump. */
    method SwapMemtable()
      requires Valid() && dumping == map[]
      modifies this`memtable, this`dumping, this`view
      ensures Valid() && memtable == map[] && dumping == old(memtable)
      ensures CanSwap(old(view)) && view == SwappedView(old(view))
    {
      SwapShown(Now(), view);
      dumping := memtable;
      memtable := map[];
      view := SwappedView(view);
    }

    /** Other tables take so many blocks, or all there are. */
    method OthersTake(n: nat)
      requires fs.Valid()
      modifies fs`reserved, fs.allocator`free, fs.allocator.bitmap, fs.allocator.bitmap.bytes
      ensures fs.Valid() && old(fs.reserved) <= fs.reserved && (n == 0 ==> fs.reserved == old(fs.reserved))
      ensures |fs.allocator.free| == LeftBy(|old(fs.allocator.free)|, n)
    {
      ghost var free := |fs.allocator.free|;
      for i := 0 to n
        invariant fs.Valid() && old(fs.reserved) <= fs.reserved && (i == 0 ==> fs.reserved == old(fs.reserved))
        invariant |fs.allocator.free| == LeftBy(free, i)
      {
        var found, block := fs.FindFreeBlock();
      }
    }

    /** The search for the name of a dump: the first `n.tmp` that does not exist. */
    method FreeTmpName(table: string, ghost tmp: map<nat, seq<Record>>) returns (n: nat)
      requires fs.Valid() && ShowsFiles(fs.volume.contents, table, Tmp, tmp)
      ensures n == FreeName(tmp) && Path(table, Tmp, n) !in fs.files
    {
      fs.FilesHaveContents();
      n := 0;
      while Path(table, Tmp, n) in fs.files
        invariant forall j :: 0 <= j < n ==> Path(table, Tmp, j) in fs.volume.contents
        decreases NamesFrom(tmp, n)
      {
        FewerNames(fs.volume.contents, table, tmp, n);
        n := n + 1;
      }
      FreeNameShown(fs.volume.contents, table, tmp, n);
    }

    /** The file of a dump: created with the reserved block, then written. */
    method StoreDump(path: Path, block: nat, rs: seq<Record>) returns (ok: bool)
      requires fs.Valid() && path !in fs.files && block in fs.reserved
      modifies fs, fs.allocator, fs.allocator.bitmap, fs.allocator.bitmap.bytes, fs.disk
      ensures fs.Valid() && fs.reserved == old(fs.reserved) - {block}
      ensures ok <==> BlocksFor(|Render(rs)|, fs.blockSize) <= 1 + |old(fs.allocator.free)|
      ensures fs.volume.contents == old(fs.volume.contents)[path := if ok then Render(rs) else []]
      ensures 1 + |old(fs.allocator.free)| == |fs.allocator.free| + if ok then DumpCost(rs, fs.blockSize) else 1
    {
      var content := RenderRecords(rs);
      ghost var before := fs.volume.contents;
      fs.CreateFile(path, block);
      ok := fs.WriteFile(path, content);
      assert before[path := []][path := content] == before[path := content];
    }

    /** How a dump ends depends on the free blocks alone, and on what others take once it has its first one. */
    ghost function DumpOutcome(content: Text, others: nat := 0): Outcome
      requires fs.blockSize > 0
      reads fs, fs.allocator
    {
      if fs.allocator.free == {} then NoBlock
      else if BlocksFor(|content|, fs.blockSize) <= 1 + LeftBy(|fs.allocator.free| - 1, others) then Outcome.Stored
      else NoSpace
    }

    /** `_dump_table` on the files: asks for a block, renders the records, finds a name and writes the file. */
    method WriteDump(table: string, rs: seq<Record>, others: nat, ghost tmp: map<nat, seq<Record>>)
      returns (outcome: Outcome)
      requires fs.Valid() && fs.reserved == {} && ShowsFiles(fs.volume.contents, table, Tmp, tmp)
      modifies fs, fs.allocator, fs.allocator.bitmap, fs.allocator.bitmap.bytes, fs.disk
      ensures fs.Valid() && (others == 0 ==> fs.reserved == {})
      ensures outcome == old(DumpOutcome(Render(rs), others))
      ensures outcome.NoBlock? <==> old(fs.allocator.free) == {}
      ensures outcome.Stored? <==>
              old(fs.allocator.free) != {}
              && BlocksFor(|Render(rs)|, fs.blockSize) <= 1 + LeftBy(|old(fs.allocator.free)| - 1, others)
      ensures outcome.NoBlock? ==> fs.volume == old(fs.volume)
      ensures outcome.NoSpace? ==>
              fs.volume.contents == old(fs.volume.contents)[Path(table, Tmp, FreeName(tmp)) := []]
      ensures outcome.Stored? ==>
              fs.volume.contents == old(fs.volume.contents)[Path(table, Tmp, FreeName(tmp)) := Render(rs)]
      ensures fs.volume.contents ==
              DumpedContents(old(fs.volume.contents), Path(table, Tmp, FreeName(tmp)), Render(rs), outcome)
      ensures others == 0 ==> |old(fs.allocator.free)| == |fs.allocator.free| + Taken(rs, outcome, fs.blockSize)
    {
      var found, block := fs.FindFreeBlock();
      if !found {
        return NoBlock;
      }
      OthersTake(others);
      var n := FreeTmpName(table, tmp);
      var ok := StoreDump(Path(table, Tmp, n), block, rs);
      outcome := if ok then Outcome.Stored else NoSpace;
    }

    /** Dumps the records of one table; whatever happens, they leave the old memtable. */
    method DumpTable(table: string) returns (outcome: Outcome)
      requires Valid() && table in dumping
      modifies fs, fs.allocator, fs.allocator.bitmap, fs.allocator.bitmap.bytes, fs.disk, this`dumping, this`view
      ensures Valid() && dumping == old(dumping) - {table} && memtable == old(memtable)
      ensures outcome == old(DumpOutcome(Render(dumping[table])))
      ensures |old(fs.allocator.free)| == |fs.allocator.free| + Taken(old(dumping)[table], outcome, fs.blockSize)
      ensures table in old(view) && Enabled(old(view)[table], Action.DumpTable(outcome))
      ensures view == old(view)[table := Next(old(view)[table], Action.DumpTable(outcome))]
      ensures var s := old(view)[table];
              view[table] == match outcome
                             case NoBlock => s.(inflight := [])
                             case NoSpace => s.(inflight := [], tmp := s.tmp[FreeName(s.tmp) := []])
                             case Stored => s.(inflight := [], tmp := s.tmp[FreeName(s.tmp) := s.inflight])
    {
      ghost var w := Now();
      DumpingIsShown(w, view, table);
      outcome := WriteDump(table, dumping[table], 0, view[table].tmp);
      DumpShown(w, view, table, outcome);
      dumping := dumping - {table};
      view := view[table := Next(view[table], Action.DumpTable(outcome))];
    }

    /** A running dump, in which the free blocks left account for what was stored. */
    ghost predicate Dumping(before: map<string, Table>, demand: nat, free: nat)
      reads this, fs, fs.allocator, fs.allocator.bitmap, fs.allocator.bitmap.bytes, fs.disk
    {
      && Valid() && memtable == map[] && HalfDumped(before, view, dumping.Keys)
      && Budget(before, view, dumping, fs.blockSize, |fs.allocator.free|, demand, free)
    }

    method StartDump()
      requires Valid() && dumping == map[]
      modifies this`memtable, this`dumping, this`view
      ensures dumping == old(memtable)
      ensures Dumping(old(view), Demand(old(memtable), fs.blockSize), |fs.allocator.free|)
    {
      DumpStarts(Now(), view);
      SwapMemtable();
    }

    /** One table of a running dump. */
    method DumpOne(table: string, ghost before: map<string, Table>, ghost demand: nat, ghost free: nat)
      requires table in dumping && Dumping(before, demand, free)
      modifies fs, fs.allocator, fs.allocator.bitmap, fs.allocator.bitmap.bytes, fs.disk, this`dumping, this`view
      ensures dumping == old(dumping) - {table} && Dumping(before, demand, free)
    {
      ghost var left := |fs.allocator.free|;
      var outcome := DumpTable(table);
      DumpContinues(before, old(view), old(dumping).Keys, table, outcome);
      BudgetContinues(before, old(view), old(dumping), fs.blockSize, left, demand, free, table, outcome);
    }

    /** `_dump`: the swap, then every table of the old memtable; all are stored exactly when the blocks suffice. */
    method Dump()
      requires Valid() && dumping == map[]
      modifies fs, fs.allocator, fs.allocator.bitmap, fs.allocator.bitmap.bytes, fs.disk, this`memtable, this`dumping,
               this`view
      ensures Valid() && memtable == map[] && dumping == map[]
      ensures HalfDumped(old(view), view, {})
      ensures AllStored(old(view), view, {}) <==> Demand(old(memtable), fs.blockSize) <= |old(fs.allocator.free)|
      ensures AllStored(old(view), view, {}) ==>
              |fs.allocator.free| == |old(fs.allocator.free)| - Demand(old(memtable), fs.blockSize)
    {
      ghost var demand, free := Demand(memtable, fs.blockSize), |fs.allocator.free|;
      StartDump();
      while dumping != map[]
        invariant Dumping(old(view), demand, free)
        decreases dumping.Keys
      {
        var table :| table in dumping;
        DumpOne(table, old(view), demand, free);
      }
    }

    // ---- compaction ----

    function TmpNumbers(table: string): (numbers: set<nat>)
      reads fs
    {
      set p | p in fs.files && p.table == table && p.kind == Tmp :: p.number
    }

    /** The free blocks once the files of a kind are deleted, as a commit deletes the renamed ones first. */
    ghost function Room(table: string, kind: Kind): nat
      reads fs, fs.allocator
    {
      |fs.allocator.free| + |BlocksOfKind(fs.volume, table, kind)|
    }

    /** The blocks that the partitions lack for the newest of the records read. */
    ghost function CommitNeeds(table: string, partitions: nat, read: seq<Record>): seq<nat>
      requires fs.blockSize > 0
      reads fs
    {
      Needs(read, BinBlocks(fs.files, table, partitions), fs.blockSize)
    }

    /** One file of the renaming pass. */
    method RenameOne(table: string, n: nat, ghost before: Volume, ghost moved: set<nat>)
      requires fs.Valid() && Path(table, Tmp, n) in fs.files && Path(table, Tmpc, n) !in fs.files
      requires MovedFiles(before, fs.volume, table, moved) && n !in moved
      modifies fs`files, fs`volume
      ensures fs.Valid() && MovedFiles(before, fs.volume, table, moved + {n})
      ensures fs.files ==
              (old(fs.files) - {Path(table, Tmp, n)})[Path(table, Tmpc, n) := old(fs.files[Path(table, Tmp, n)])]
    {
      fs.BlocksHaveFiles({});
      MoveFile(before, fs.volume, table, moved, n);
      fs.RenameFile(Path(table, Tmp, n), Path(table, Tmpc, n));
    }

    /** The renaming pass: each `n.tmp` of the directory becomes `n.tmpc`. */
    method RenameAll(table: string)
      requires fs.Valid() && forall n :: n in TmpNumbers(table) ==> Path(table, Tmpc, n) !in fs.files
      modifies fs`files, fs`volume
      ensures fs.Valid() && MovedFiles(old(fs.volume), fs.volume, table, old(TmpNumbers(table)))
    {
      var all := TmpNumbers(table);
      var todo := all;
      MovedNone(fs.volume, table);
      while todo != {}
        invariant fs.Valid() && todo <= all && MovedFiles(old(fs.volume), fs.volume, table, all - todo)
        invariant forall n :: n in todo ==> Path(table, Tmp, n) in fs.files && Path(table, Tmpc, n) !in fs.files
        decreases |todo|
      {
        var n :| n in todo;
        RenameOne(table, n, old(fs.volume), all - todo);
        assert all - (todo - {n}) == all - todo + {n};
        todo := todo - {n};
      }
      assert all - todo == all;
    }

    /** The same for a table without `.tmpc` files: these then have the blocks of the dumps. */
    method RenameDumps(table: string, ghost partitions: nat)
      requires fs.Valid() && forall n :: Path(table, Tmpc, n) !in fs.volume.contents
      modifies fs`files, fs`volume
      ensures fs.Valid() && Moved(old(fs.volume.contents), fs.volume.contents, table, old(TmpNumbers(table)))
      ensures BlocksOfKind(fs.volume, table, Tmpc) == old(BlocksOfKind(fs.volume, table, Tmp))
      ensures BinBlocks(fs.files, table, partitions) == old(BinBlocks(fs.files, table, partitions))
    {
      ghost var all := TmpNumbers(table);
      fs.BlocksHaveFiles({});
      RenameAll(table);
      fs.BlocksHaveFiles({});
      MovedAll(old(fs.volume), fs.volume, table, all, partitions);
    }

    /** First phase of `compactar`, under the exclusive lock.  Nothing starts without a temporary file. */
    method CompactRename(table: string) returns (started: bool)
      requires Valid() && table !in compactions
      modifies fs`files, fs`volume, this`compactions, this`view
      ensures Valid() && started == (table in tables && old(TmpNumbers(table)) != {})
      ensures compactions ==
              if started
              then old(compactions)[table := Progress(0, old(TmpNumbers(table)), NoDictionaries(tables[table]))]
              else old(compactions)
      ensures started ==> table in old(view) && Enabled(old(view)[table], Rename)
      ensures view == if started then old(view)[table := Next(old(view)[table], Rename)] else old(view)
      ensures started ==> BlocksOfKind(fs.volume, table, Tmpc) == old(BlocksOfKind(fs.volume, table, Tmp))
      ensures started ==> BinBlocks(fs.files, table, tables[table]) == old(BinBlocks(fs.files, table, tables[table]))
    {
      if table !in tables || TmpNumbers(table) == {} {
        return false;
      }
      ghost var w := Now();
      var numbers := TmpNumbers(table);
      fs.FilesHaveContents();
      IdleTableIsShown(w, view, table);
      assert numbers == Numbers(w.contents, table, Tmp);
      RenameDumps(table, tables[table]);
      compactions := compactions[table := Progress(0, numbers, NoDictionaries(tables[table]))];
      RenameShown(w, Now(), view, table);
      view := view[table := Next(view[table], Rename)];
      started := true;
    }

    /** Second phase: the next partition is merged into the dictionaries. */
    method CompactMergeBin(table: string)
      requires Valid() && table in compactions && table in tables && compactions[table].binsRead < tables[table]
      modifies this`compactions, this`view
      ensures Valid() && compactions.Keys == old(compactions).Keys
      ensures compactions[table].binsRead == old(compactions[table].binsRead) + 1
      ensures compactions[table].pending == old(compactions[table].pending)
      ensures table in old(view) && Enabled(old(view)[table], MergeBin)
      ensures view == old(view)[table := Next(old(view)[table], MergeBin)]
    {
      var p := compactions[table];
      MergeIsShown(Now(), view, table);
      BinIsThere(Now(), view, table, p.binsRead);
      var contents := fs.ReadFile(Path(table, Bin, p.binsRead));
      var dicts := MergeContents(contents.value, p.dicts, view[table].merge.value.read);
      MergeBinShown(Now(), view, table, dicts);
      compactions := compactions[table := p.(binsRead := p.binsRead + 1, dicts := dicts)];
      view := view[table := Next(view[table], MergeBin)];
    }

    /** Then the renamed files, in whatever order the directory lists them. */
    method CompactMergeTmpc(table: string) returns (n: nat)
      requires Valid() && table in compactions && table in tables
      requires compactions[table].binsRead == tables[table] && compactions[table].pending != {}
      modifies this`compactions, this`view
      ensures Valid() && compactions.Keys == old(compactions).Keys
      ensures compactions[table].binsRead == old(compactions[table].binsRead)
      ensures n in old(compactions[table].pending)
              && compactions[table].pending == old(compactions[table].pending) - {n}
      ensures table in old(view) && Enabled(old(view)[table], MergeTmpc(n))
      ensures view == old(view)[table := Next(old(view)[table], MergeTmpc(n))]
    {
      var p := compactions[table];
      n :| n in p.pending;
      MergeIsShown(Now(), view, table);
      TmpcIsThere(Now(), view, table, n);
      var contents := fs.ReadFile(Path(table, Tmpc, n));
      var dicts := MergeContents(contents.value, p.dicts, view[table].merge.value.read);
      MergeTmpcShown(Now(), view, table, n, dicts);
      compactions := compactions[table := p.(pending := p.pending - {n}, dicts := dicts)];
      view := view[table := Next(view[table], MergeTmpc(n))];
    }

    /** The next partition gets its new text if there are blocks for it, and keeps its old contents otherwise. */
    method RewritePartition(table: string, dicts: Dictionaries, i: nat, ghost read: seq<Record>)
      returns (ok: bool, ghost rs: seq<Record>)
      requires fs.Valid() && Agree(dicts, read) && i < |dicts| && Path(table, Bin, i) in fs.files
      modifies fs, fs.allocator, fs.allocator.bitmap, fs.allocator.bitmap.bytes, fs.disk
      ensures fs.Valid() && fs.reserved == old(fs.reserved) && Lists(rs, read, i, |dicts|)
      ensures var need := Growth(BlocksFor(|Render(Listing(read, i, |dicts|))|, fs.blockSize),
                                 old(BlocksOf(fs.files, Path(table, Bin, i))));
              && ok == (need <= |old(fs.allocator.free)|)
              && |old(fs.allocator.free)| == |fs.allocator.free| + if ok then need else 0
      ensures fs.volume.contents ==
              if ok then old(fs.volume.contents)[Path(table, Bin, i) := Render(rs)] else old(fs.volume.contents)
      ensures Path(table, Bin, i) in fs.files
              && fs.files == old(fs.files)[Path(table, Bin, i) := fs.files[Path(table, Bin, i)]]
    {
      var content;
      content, rs := RenderDictionary(dicts, i, read);
      ListingLength(rs, read, i, |dicts|);
      ok := fs.WriteFile(Path(table, Bin, i), content);
    }

    /** The next partition, after other tables have taken blocks. */
    method RewriteNext(table: string, dicts: Dictionaries, i: nat, taken: nat, ghost read: seq<Record>)
      returns (ok: bool, ghost rs: seq<Record>)
      requires fs.Valid() && Agree(dicts, read) && i < |dicts| && Path(table, Bin, i) in fs.files
      modifies fs, fs.allocator, fs.allocator.bitmap, fs.allocator.bitmap.bytes, fs.disk
      ensures fs.Valid() && (taken == 0 ==> fs.reserved == old(fs.reserved)) && Lists(rs, read, i, |dicts|)
      ensures var need := Growth(BlocksFor(|Render(Listing(read, i, |dicts|))|, fs.blockSize),
                                 old(BlocksOf(fs.files, Path(table, Bin, i))));
              && ok == (need <= LeftBy(|old(fs.allocator.free)|, taken))
              && |fs.allocator.free| == LeftBy(|old(fs.allocator.free)|, taken) - if ok then need else 0
      ensures fs.volume.contents ==
              if ok then old(fs.volume.contents)[Path(table, Bin, i) := Render(rs)] else old(fs.volume.contents)
      ensures Path(table, Bin, i) in fs.files
              && fs.files == old(fs.files)[Path(table, Bin, i) := fs.files[Path(table, Bin, i)]]
    {
      OthersTake(taken);
      ok, rs := RewritePartition(table, dicts, i, read);
    }

    /** The new partitions, one after the other; before each write other tables may have taken blocks. */
    method RewritePartitions(table: string, dicts: Dictionaries, others: seq<nat>, ghost read: seq<Record>)
      returns (ghost output: seq<seq<Record>>, ghost written: set<nat>)
      requires fs.Valid() && Agree(dicts, read) && |others| == |dicts|
      requires forall i :: 0 <= i < |dicts| ==> Path(table, Bin, i) in fs.files
      modifies fs, fs.allocator, fs.allocator.bitmap, fs.allocator.bitmap.bytes, fs.disk
      ensures fs.Valid() && ((forall i :: 0 <= i < |others| ==> others[i] == 0) ==> fs.reserved == old(fs.reserved))
      ensures |output| == |dicts| && forall i :: 0 <= i < |output| ==> Lists(output[i], read, i, |dicts|)
      ensures Rewriting(old(fs.volume.contents), fs.volume.contents, table, output, written)
      ensures var needs := Needs(read, old(BinBlocks(fs.files, table, |dicts|)), fs.blockSize);
              && written == GrantedAmid(needs, |old(fs.allocator.free)|, others)
              && |fs.allocator.free| == LeftAmid(needs, |old(fs.allocator.free)|, others)
    {
      output, written := [], {};
      ghost var needs := Needs(read, BinBlocks(fs.files, table, |dicts|), fs.blockSize);
      ghost var c, files, free := fs.volume.contents, fs.files, |fs.allocator.free|;
      RewriteNone(c, table);
      for i := 0 to |dicts|
        invariant fs.Valid() && ((forall j :: 0 <= j < i ==> others[j] == 0) ==> fs.reserved == old(fs.reserved))
        invariant |output| == i && (i > 0 ==> AllListed(output, read, |dicts|))
        invariant Rewriting(c, fs.volume.contents, table, output, written)
        invariant SpentSoFar(files, fs.files, table, |dicts|, i, needs, others, free, |fs.allocator.free|, written)
      {
        ghost var before, files', left := fs.volume.contents, fs.files, |fs.allocator.free|;
        var ok, rs := RewriteNext(table, dicts, i, others[i], read);
        OneMoreListed(output, rs, read, |dicts|);
        RewriteOne(c, before, table, output, written, rs, ok);
        SpendOne(files, files', fs.files, table, |dicts|, i, needs, others, free, left, written, ok);
        output := output + [rs];
        if ok {
          written := written + {i};
        }
      }
      assert needs[..|dicts|] == needs && others[..|dicts|] == others;
    }

    /** There are blocks for everything that the compaction of the table would write now. */
    ghost predicate CommitFits(table: string)
      requires fs.blockSize > 0 && table in tables && table in view && view[table].merge.Some?
      reads this, fs, fs.allocator
    {
      Sum(CommitNeeds(table, tables[table], view[table].merge.value.read)) <= Room(table, Tmpc)
    }

    /** The renamed files of a compaction go, and their blocks become free. */
    method DeleteTmpc(table: string, ghost partitions: nat)
      requires fs.Valid()
      modifies fs`files, fs`volume, fs.allocator`free, fs.allocator.bitmap, fs.allocator.bitmap.bytes
      ensures fs.Valid()
      ensures fs.volume.contents == old(fs.volume.contents - PathsOfKind(fs.volume.contents, table, Tmpc))
      ensures |fs.allocator.free| == old(Room(table, Tmpc))
      ensures BinBlocks(fs.files, table, partitions) == old(BinBlocks(fs.files, table, partitions))
    {
      var gone := set p | p in fs.files && p.table == table && p.kind == Tmpc;
      fs.BlocksHaveFiles(gone);
      assert gone == PathsOfKind(fs.volume.contents, table, Tmpc);
      assert OwnedWithin(fs.volume.owner, gone) == BlocksOfKind(fs.volume, table, Tmpc);
      fs.DeleteAll(gone);
    }

    /** The files of a commit: the renamed ones go, then the partitions are rewritten. */
    method CommitFiles(table: string, dicts: Dictionaries, ghost read: seq<Record>)
      returns (ghost output: seq<seq<Record>>, ghost written: set<nat>)
      requires fs.Valid() && Agree(dicts, read)
      requires forall i :: 0 <= i < |dicts| ==> Path(table, Bin, i) in fs.volume.contents
      modifies fs, fs.allocator, fs.allocator.bitmap, fs.allocator.bitmap.bytes, fs.disk
      ensures fs.Valid() && fs.reserved == old(fs.reserved)
      ensures |output| == |dicts| && forall i :: 0 <= i < |output| ==> Lists(output[i], read, i, |dicts|)
      ensures Rewriting(old(fs.volume.contents - PathsOfKind(fs.volume.contents, table, Tmpc)), fs.volume.contents,
              table, output, written)
      ensures written == old(Granted(CommitNeeds(table, |dicts|, read), Room(table, Tmpc)))
      ensures |fs.allocator.free| == old(BlocksLeft(CommitNeeds(table, |dicts|, read), Room(table, Tmpc)))
    {
      DeleteTmpc(table, |dicts|);
      fs.FilesHaveContents();
      NobodyAmid(Needs(read, BinBlocks(fs.files, table, |dicts|), fs.blockSize), |fs.allocator.free|);
      output, written := RewritePartitions(table, dicts, Nobody(|dicts|), read);
    }

    /** Last phase, under the exclusive lock.  The blocks there are before it decide which partitions it rewrites. */
    method CompactCommit(table: string) returns (ghost output: seq<seq<Record>>, ghost written: set<nat>)
      requires Valid() && table in compactions && table in tables
      requires compactions[table].binsRead == tables[table] && compactions[table].pending == {}
      modifies fs, fs.allocator, fs.allocator.bitmap, fs.allocator.bitmap.bytes, fs.disk, this`compactions, this`view
      ensures Valid() && compactions == old(compactions) - {table}
      ensures table in old(view) && Enabled(old(view)[table], Commit(output, written))
      ensures view == old(view)[table := Next(old(view)[table], Commit(output, written))]
      ensures var s := old(view)[table];
              && view[table] == s.(bins := view[table].bins, tmpc := map[], merge := None)
              && |view[table].bins| == |output| == |s.bins|
              && forall i :: 0 <= i < |s.bins| ==> view[table].bins[i] == if i in written then output[i] else s.bins[i]
      ensures written == old(Granted(CommitNeeds(table, tables[table], view[table].merge.value.read),
                                      Room(table, Tmpc)))
      ensures |fs.allocator.free| ==
              old(BlocksLeft(CommitNeeds(table, tables[table], view[table].merge.value.read), Room(table, Tmpc)))
      ensures old(CommitFits(table)) <==> forall i :: 0 <= i < |output| ==> i in written
    {
      ghost var w := Now();
      MergeIsShown(w, view, table);
      CommitIsReady(w, view, table);
      AllGrantedIff(CommitNeeds(table, tables[table], view[table].merge.value.read), Room(table, Tmpc));
      output, written := CommitFiles(table, compactions[table].dicts, view[table].merge.value.read);
      compactions := compactions - {table};
      CommitShown(w, Now(), view, table, output, written);
      view := view[table := Next(view[table], Commit(output, written))];
    }

    /** The table is in the middle of a compaction, and nothing else happened since `before`. */
    ghost predicate Compacting(table: string, before: map<string, Table>)
      reads this, fs, fs.allocator, fs.allocator.bitmap, fs.allocator.bitmap.bytes, fs.disk
    {
      && Valid() && table in compactions && table in tables && table in before && table in view
      && view == before[table := view[table]] && MergingFrom(before[table], view[table])
    }

    method MergeAllBins(table: string, ghost before: map<string, Table>)
      requires Compacting(table, before) && compactions[table].binsRead <= tables[table]
      modifies this`compactions, this`view
      ensures Compacting(table, before) && compactions[table].binsRead == tables[table]
    {
      while compactions[table].binsRead < tables[table]
        invariant Compacting(table, before) && compactions[table].binsRead <= tables[table]
        decreases tables[table] - compactions[table].binsRead
      {
        ghost var s := view[table];
        CompactMergeBin(table);
        MergeContinues(before[table], s, MergeBin);
      }
    }

    method MergeAllTmpc(table: string, ghost before: map<string, Table>)
      requires Compacting(table, before) && compactions[table].binsRead == tables[table]
      modifies this`compactions, this`view
      ensures Compacting(table, before) && compactions[table].binsRead == tables[table]
              && compactions[table].pending == {}
    {
      while compactions[table].pending != {}
        invariant Compacting(table, before) && compactions[table].binsRead == tables[table]
        decreases compactions[table].pending
      {
        ghost var s := view[table];
        var n := CompactMergeTmpc(table);
        MergeContinues(before[table], s, MergeTmpc(n));
      }
    }

    method StartCompaction(table: string) returns (started: bool)
      requires Valid() && table !in compactions
      modifies fs`files, fs`volume, this`compactions, this`view
      ensures Valid() && started == (table in tables && old(TmpNumbers(table)) != {})
      ensures started ==> Compacting(table, old(view)) && compactions[table].binsRead == 0
      ensures started ==> BlocksOfKind(fs.volume, table, Tmpc) == old(BlocksOfKind(fs.volume, table, Tmp))
      ensures started ==> BinBlocks(fs.files, table, tables[table]) == old(BinBlocks(fs.files, table, tables[table]))
      ensures !started ==> view == old(view) && compactions == old(compactions)
    {
      started := CompactRename(table);
      if started {
        IdleTableInv(old(Now()), old(view), table);
        RenameStarts(old(view)[table]);
      }
    }

    /** The commit of such a compaction; `read` is the order that the records were found in. */
    method FinishCompaction(table: string, ghost before: map<string, Table>, ghost blocks: seq<nat>, ghost room: nat)
      returns (ghost output: seq<seq<Record>>, ghost written: set<nat>, ghost read: seq<Record>)
      requires Compacting(table, before) && before[table].merge.None? && before[table].tmpc == map[]
      requires compactions[table].binsRead == tables[table] && compactions[table].pending == {}
      requires blocks == BinBlocks(fs.files, table, tables[table]) && room == Room(table, Tmpc)
      modifies fs, fs.allocator, fs.allocator.bitmap, fs.allocator.bitmap.bytes, fs.disk, this`compactions, this`view
      ensures Valid() && table !in compactions && table in before && table in view
              && view == before[table := view[table]]
      ensures CompactedFrom(before[table], view[table], output, written)
      ensures SetOf(read) == InBins(before[table].bins) + InFiles(before[table].tmp)
      ensures written == Granted(Needs(read, blocks, fs.blockSize), room)
      ensures |fs.allocator.free| == BlocksLeft(Needs(read, blocks, fs.blockSize), room)
    {
      ghost var s := view[table];
      read := s.merge.value.read;
      output, written := CompactCommit(table);
      CommitEnds(before[table], s, output, written);
      CommitHasReadAll(s, output, written);
    }

    /** `compactar` from end to end, with no other operation in between; `read` is the order it found the records in. */
    method Compact(table: string)
      returns (started: bool, ghost output: seq<seq<Record>>, ghost written: set<nat>, ghost read: seq<Record>)
      requires Valid() && table !in compactions
      modifies fs, fs.allocator, fs.allocator.bitmap, fs.allocator.bitmap.bytes, fs.disk, this`compactions, this`view
      ensures Valid() && table !in compactions && started == (table in tables && old(TmpNumbers(table)) != {})
      ensures !started ==> view == old(view)
      ensures started ==> table in old(view) && table in view && view == old(view)[table := view[table]]
                          && CompactedFrom(old(view)[table], view[table], output, written)
                          && SetOf(read) == InBins(old(view)[table].bins) + InFiles(old(view)[table].tmp)
      ensures started ==> var needs := Needs(read, old(BinBlocks(fs.files, table, tables[table])), fs.blockSize);
                          && written == Granted(needs, old(Room(table, Tmp)))
                          && |fs.allocator.free| == BlocksLeft(needs, old(Room(table, Tmp)))
    {
      output, written, read := [], {}, [];
      IdleTableInv(Now(), view, table);
      ghost var partitions := if table in tables then tables[table] else 0;
      ghost var blocks, room := BinBlocks(fs.files, table, partitions), Room(table, Tmp);
      started := StartCompaction(table);
      if started {
        MergeAllBins(table, old(view));
        MergeAllTmpc(table, old(view));
        output, written, read := FinishCompaction(table, old(view), blocks, room);
      }
    }

    // ---- select ----

    /** `scanParticion` and the scan of one temporary file. */
    method ScanFile(path: Path, key: uint16, ghost rs: seq<Record>) returns (result: Option<Record>)
      requires fs.Valid() && path in fs.volume.contents && Parse(fs.volume.contents[path]) == Some(rs)
      ensures result == Scan(rs, key) && IsNewest(SetOf(rs), key, result)
    {
      var contents := fs.ReadFile(path);
      ScanForIsScan(Tokens(contents.value, NEWLINE), key);
      result := GetBiggestTimestamp(contents.value, key);
      ScanIsNewest(rs, key);
    }

    /** The newest record of the key in all the `.tmp` and `.tmpc` files, in whatever order they are listed. */
    method ScanTemporaries(table: string, key: uint16) returns (newest: Option<Record>)
      requires Valid() && table in tables
      ensures table in view
      ensures IsNewest(Gathered(view[table], StoreView.Temporaries(fs.volume.contents, table)), key, newest)
    {
      fs.FilesHaveContents();
      var all := set p | p in fs.files && IsTemporary(p, table);
      ghost var s := view[table];
      assert all == StoreView.Temporaries(fs.volume.contents, table);
      newest := None;
      var todo := all;
      while todo != {}
        invariant todo <= all && IsNewest(Gathered(s, all - todo), key, newest)
        decreases |todo|
      {
        var p :| p in todo;
        TemporaryIsThere(Now(), view, table, p);
        var found := ScanFile(p, key, RecordsIn(s, p));
        GatherOne(s, all - todo, p);
        PickIsNewest(Gathered(s, all - todo), newest, SetOf(RecordsIn(s, p)), found, key);
        assert all - (todo - {p}) == all - todo + {p};
        todo := todo - {p};
        if found.None? {
          continue;
        }
        if newest.None? {
          newest := found;
        } else if newest.value.timestamp < found.value.timestamp {
          newest := Some(newest.value.(timestamp := found.value.timestamp, value := found.value.value));
        }
      }
      assert all - todo == all;
    }

    /** Files first, under the shared lock, then the memtable; the newest of the three results wins. */
    method Select(table: string, key: uint16) returns (result: SelectResult, ghost found: Option<Record>)
      requires Valid()
      ensures result.TableNotFound? <==> table !in tables
      ensures table in tables ==> table in view && Enabled(view[table], SelectFiles(0, key, found))
      ensures table in tables ==> result == ResultOf(Answer(Next(view[table], SelectFiles(0, key, found)), 0))
      ensures table in tables ==> exists o :: IsNewest(Visible(view[table]), key, o) && result == ResultOf(o)
      // of equally new records that of the partition is found, then one of the temporaries
      ensures table in tables ==>
              0 < tables[table] == |view[table].bins|
              && exists t :: IsNewest(Gathered(view[table], StoreView.Temporaries(fs.volume.contents, table)), key, t)
                             && found == Pick(Scan(view[table].bins[key % tables[table]], key), t)
    {
      if table !in tables {
        return TableNotFound, None;
      }
      PartitionsShown(Now(), view, table);
      var p := key % tables[table];
      BinIsThere(Now(), view, table, p);
      var partition := ScanFile(Path(table, Bin, p), key, view[table].bins[p]);
      var temporaries := ScanTemporaries(table, key);
      var inMemory := ScanRecords(RecordsOf(memtable, table), key);
      var newest := GetNewest(partition, temporaries, inMemory);
      found := Pick(partition, temporaries);
      SelectIsAnswer(Now(), view, table, key, partition, temporaries);
      SelectIsNewest(Now(), view, table, key, found);
      result := ResultOf(newest);
    }

    // ---- create and drop ----

    /** One more partition file, with the block just found. */
    method CreatePartition(table: string, n: nat, block: nat, ghost before: map<Path, Text>)
      requires fs.Valid() && fs.reserved == {block} && Path(table, Bin, n) !in fs.files
      requires fs.volume.contents == WithBins(before, table, n)
      modifies fs`files, fs`volume, fs`reserved
      ensures fs.Valid() && fs.reserved == {}
      ensures fs.volume.contents == WithBins(before, table, n + 1)
      ensures Without(fs.volume, PathsOf(fs.files, table)) == old(Without(fs.volume, PathsOf(fs.files, table)))
    {
      fs.NewFileThenWithout(Path(table, Bin, n), block);
      OneMoreBin(before, table, n);
      fs.CreateFile(Path(table, Bin, n), block);
    }

    /** One more partition file, if there is a block for it. */
    method CreateNext(table: string, n: nat, ghost before: map<Path, Text>) returns (ok: bool)
      requires fs.Valid() && fs.reserved == {} && fs.volume.contents == WithBins(before, table, n)
      requires forall p :: p in before ==> p.table != table
      modifies fs`files, fs`volume, fs`reserved, fs.allocator, fs.allocator.bitmap, fs.allocator.bitmap.bytes
      ensures fs.Valid() && fs.reserved == {} && ok == (old(fs.allocator.free) != {})
      ensures fs.volume.contents == WithBins(before, table, if ok then n + 1 else n)
      ensures |fs.allocator.free| == if ok then |old(fs.allocator.free)| - 1 else 0
      ensures Without(fs.volume, PathsOf(fs.files, table)) == old(Without(fs.volume, PathsOf(fs.files, table)))
    {
      fs.FilesHaveContents();
      var block;
      ok, block := fs.FindFreeBlock();
      if ok {
        CreatePartition(table, n, block, before);
      }
    }

    /** One empty file for each partition, as far as the blocks go. */
    method CreateFiles(table: string, partitions: nat) returns (ok: bool)
      requires fs.Valid() && fs.reserved == {} && forall p :: p in fs.volume.contents ==> p.table != table
      modifies fs`files, fs`volume, fs`reserved, fs.allocator, fs.allocator.bitmap, fs.allocator.bitmap.bytes
      ensures fs.Valid() && fs.reserved == {}
      ensures ok <==> partitions <= |old(fs.allocator.free)|
      ensures ok ==> fs.volume.contents == WithBins(old(fs.volume.contents), table, partitions)
                     && |fs.allocator.free| == |old(fs.allocator.free)| - partitions
      ensures Without(fs.volume, PathsOf(fs.files, table)) == old(fs.volume)
    {
      ghost var before, free := fs.volume, fs.allocator.free;
      fs.FilesHaveContents();
      assert PathsOf(fs.files, table) == {};
      WithoutNone(before);
      assert WithBins(before.contents, table, 0) == before.contents;
      ok := true;
      var n := 0;
      while ok && n < partitions
        invariant n <= partitions && fs.Valid() && fs.reserved == {}
        invariant |fs.allocator.free| + n == |free| && (!ok ==> fs.allocator.free == {} && n < partitions)
        invariant fs.volume.contents == WithBins(before.contents, table, n)
        invariant Without(fs.volume, PathsOf(fs.files, table)) == before
        decreases ok, partitions - n
      {
        ok := CreateNext(table, n, before.contents);
        if ok {
          n := n + 1;
        }
      }
    }

    /** All the partitions of a new table, or, when the blocks run out, none of them. */
    method CreatePartitions(table: string, partitions: nat) returns (ok: bool)
      requires fs.Valid() && fs.reserved == {} && forall p :: p in fs.volume.contents ==> p.table != table
      modifies fs, fs.allocator, fs.allocator.bitmap, fs.allocator.bitmap.bytes, fs.disk
      ensures fs.Valid() && fs.reserved == {}
      ensures ok <==> partitions <= |old(fs.allocator.free)|
      ensures ok ==> fs.volume.contents == WithBins(old(fs.volume.contents), table, partitions)
                     && |fs.allocator.free| == |old(fs.allocator.free)| - partitions
      ensures !ok ==> fs.volume == old(fs.volume) && fs.allocator.free == old(fs.allocator.free)
    {
      ghost var before, disk, free := fs.volume, fs.disk[..], fs.allocator.free;
      ok := CreateFiles(table, partitions);
      if !ok {
        fs.DeleteTable(table);
        FreeIsDetermined(before, disk, fs.blockSize, free, fs.disk[..], fs.allocator.free, {});
      }
    }

    /** Creates a table with empty partitions; when that fails nothing has changed. */
    method Create(table: string, partitions: uint16) returns (ok: bool)
      requires Valid() && partitions > 0
      modifies fs, fs.allocator, fs.allocator.bitmap, fs.allocator.bitmap.bytes, fs.disk, this`tables, this`view
      ensures Valid() && ok == (table !in old(tables) && partitions <= |old(fs.allocator.free)|)
      ensures tables == if ok then old(tables)[table := partitions] else old(tables)
      ensures view == if ok then old(view)[table := Engine.Created(partitions)] else old(view)
      ensures ok ==> |fs.allocator.free| == |old(fs.allocator.free)| - partitions
      ensures !ok ==> fs.volume == old(fs.volume) && fs.allocator.free == old(fs.allocator.free)
    {
      if table in tables {
        return false;
      }
      ghost var w := Now();
      NewTable(w, view, table);
      ok := CreatePartitions(table, partitions);
      if ok {
        CreateShown(w, view, table, partitions);
        tables := tables[table := partitions];
        view := view[table := Engine.Created(partitions)];
      }
    }

    /** Forgets the records in memory, the running compaction, and every file of the table. */
    method Drop(table: string) returns (ok: bool)
      requires Valid() && table !in dumping
      modifies fs, fs.allocator, fs.allocator.bitmap, fs.allocator.bitmap.bytes, fs.disk, this`tables, this`memtable,
               this`compactions, this`view
      ensures Valid() && ok == (table in old(tables))
      ensures tables == old(tables) - {table}
      ensures view == old(view) - {table}
      ensures ok ==>
                fs.allocator.free ==
                old(fs.allocator.free + OwnedWithin(fs.volume.owner, PathsOf(fs.files, table)))
      ensures !ok ==> fs.volume == old(fs.volume) && fs.allocator.free == old(fs.allocator.free)
    {
      if table !in tables {
        return false;
      }
      DropShown(Now(), view, table);
      fs.FilesHaveContents();
      memtable := memtable - {table};
      compactions := compactions - {table};
      fs.DeleteTable(table);
      tables := tables - {table};
      view := view - {table};
      ok := true;
    }
  }
}
