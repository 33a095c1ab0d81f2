/**
 The block file system on the machine: the allocator's bit map, the block files in `disk`, and the
 files.  Each operation is proved to do to the abstract volume what `Volumes` says it does.
 */
module BlockFs {
  import opened Basics
  import opened BlockLists
  import opened Allocation
  import opened Volumes

  // ---- reading ----

  /** After n blocks, `text` is what they hold, cut at the file's size. */
  ghost predicate ReadUpTo(blocks: seq<nat>, disk: seq<Text>, blockSize: nat, size: nat, n: nat, text: Text, left: nat)
  {
    && AllBelow(blocks, |disk|) && Formatted(disk, blockSize) && n <= |blocks| && |text| + left == size
    && text <= Flat(blocks[..n], disk)
    && (left > 0 ==> text == Flat(blocks[..n], disk))
  }

  lemma ReadOne(blocks: seq<nat>, disk: seq<Text>, blockSize: nat, size: nat, n: nat, text: Text, left: nat)
    requires ReadUpTo(blocks, disk, blockSize, size, n, text, left) && n < |blocks|
    ensures var len := if left < blockSize then left else blockSize;
            len <= |disk[blocks[n]]|
            && ReadUpTo(blocks, disk, blockSize, size, n + 1, text + disk[blocks[n]][..len], left - len)
  {
    assert blocks[..n + 1][..n] == blocks[..n];
  }

  lemma ReadAll(blocks: seq<nat>, disk: seq<Text>, blockSize: nat, size: nat, text: Text, left: nat)
    requires ReadUpTo(blocks, disk, blockSize, size, |blocks|, text, left) && size <= Offset(|blocks|, blockSize)
    ensures left == 0 && |text| == size && text <= Flat(blocks, disk)
  {
    assert blocks[..|blocks|] == blocks;
    FlatLength(blocks, disk, blockSize);
  }

  lemma SamePrefix(a: Text, b: Text, whole: Text)
    requires a <= whole && b <= whole && |a| == |b|
    ensures a == b
  {
  }

  // ---- writing ----

  /** A step of writing a list of blocks, that leaves the disk formatted and the other blocks as they were. */
  ghost predicate Writing(before: seq<Text>, disk: seq<Text>, blockSize: nat, blocks: seq<nat>) {
    AllBelow(blocks, |disk|) && Formatted(disk, blockSize) && SameExcept(before, disk, blocks)
  }

  /** Moreover the first n blocks of the list hold `data`: exactly when `full`, as a prefix otherwise. */
  ghost predicate HoldsSoFar(before: seq<Text>, disk: seq<Text>, blockSize: nat, blocks: seq<nat>, n: nat, data: Text,
                             full: bool)
  {
    && Writing(before, disk, blockSize, blocks) && n <= |blocks|
    && if full then data == Flat(blocks[..n], disk) else data <= Flat(blocks[..n], disk)
  }

  lemma WriteOne(before: seq<Text>, disk: seq<Text>, blockSize: nat, blocks: seq<nat>, n: nat, data: Text, more: Text)
    requires HoldsSoFar(before, disk, blockSize, blocks, n, data, true)
    requires Distinct(blocks) && n < |blocks| && |more| <= blockSize
    ensures var b := blocks[n];
            HoldsSoFar(before, disk[b := more + disk[b][|more|..]], blockSize, blocks, n + 1, data + more,
                       |more| == blockSize)
  {
    FlatWrite(blocks, n, disk, more);
  }

  /** Overwriting the i-th block of a list extends what the blocks before it hold. */
  lemma FlatWrite(blocks: seq<nat>, i: nat, disk: seq<Text>, data: Text)
    requires AllBelow(blocks, |disk|) && Distinct(blocks) && i < |blocks| && |data| <= |disk[blocks[i]]|
    ensures var b := blocks[i];
            var disk' := disk[b := data + disk[b][|data|..]];
            Flat(blocks[..i], disk) + data <= Flat(blocks[..i + 1], disk')
            && (|data| == |disk[b]| ==> Flat(blocks[..i + 1], disk') == Flat(blocks[..i], disk) + data)
  {
    var b := blocks[i];
    var disk' := disk[b := data + disk[b][|data|..]];
    forall j | 0 <= j < i ensures blocks[j] != b { DistinctIndices(blocks, j, i); }
    FlatFrame(blocks[..i], disk, disk');
    assert blocks[..i + 1][..i] == blocks[..i];
    assert Flat(blocks[..i + 1], disk') == Flat(blocks[..i], disk) + (data + disk[b][|data|..]);
  }

  class BlockFileSystem {
    const blockSize: nat
    const allocator: BlockAllocator
    const disk: array<Text>
    var files: map<Path, File>
    /** The volume the files and the disk stand for. */
    ghost var volume: Volume
    /** Blocks handed out by the allocator that are not part of a file yet. */
    ghost var reserved: set<nat>

    ghost predicate Valid()
      reads this, allocator, allocator.bitmap, allocator.bitmap.bytes, disk
    {
      && blockSize > 0
      && allocator.Valid()
      && disk.Length == allocator.numBlocks && disk as object != allocator.bitmap.bytes
      && Formatted(disk[..], blockSize)
      && files == volume.files
      && Consistent(volume, disk[..], blockSize, allocator.free, reserved)
    }

    ghost function Repr(): set<object> {
      {this, allocator, allocator.bitmap, allocator.bitmap.bytes, disk}
    }

    constructor (blockSize: nat, numBlocks: nat)
      requires blockSize > 0
      ensures Valid() && fresh(Repr())
      ensures this.blockSize == blockSize && allocator.numBlocks == numBlocks
      ensures volume == EMPTY && reserved == {} && allocator.free == Upto(numBlocks)
    {
      this.blockSize := blockSize;
      allocator := new BlockAllocator(numBlocks);
      disk := new Text[numBlocks](_ => seq(blockSize, _ => 0));
      files, volume, reserved := map[], EMPTY, {};
      new;
      EmptyIsConsistent(disk[..], blockSize, allocator.free);
    }

    /** Every block is free, part of exactly one file or reserved: the used bits are the owned blocks. */
    lemma BlocksAreConserved()
      requires Valid()
      ensures forall b {:trigger allocator.bitmap.bits[b]} ::
                0 <= b < allocator.numBlocks && b < |allocator.bitmap.bits| ==>
                (allocator.bitmap.bits[b] <==> (exists p :: p in files && b in AsSet(files[p].blocks)) || b in reserved)
      ensures forall p, q, b ::
                p in files && q in files && b in AsSet(files[p].blocks) && b in AsSet(files[q].blocks) ==> p == q
      ensures |allocator.free| + |volume.owner.Keys| + |reserved| == allocator.numBlocks
    {
      assert Accounted(volume, disk[..], blockSize, allocator.free, reserved);
      Ownership(volume, disk[..], blockSize);
      forall b {:trigger allocator.bitmap.bits[b]} | 0 <= b < allocator.numBlocks && b < |allocator.bitmap.bits|
        ensures allocator.bitmap.bits[b] <==> b in volume.owner || b in reserved
      {
        assert b in Upto(|disk[..]|);
      }
    }

    lemma FilesHaveContents()
      requires Valid()
      ensures volume.contents.Keys == files.Keys
    {
      Open(volume, disk[..], blockSize, allocator.free, reserved);
    }

    lemma BlocksHaveFiles(paths: set<Path>)
      requires Valid()
      ensures SameKeys(volume) && Exact(volume)
      ensures |allocator.free + OwnedWithin(volume.owner, paths)| ==
              |allocator.free| + |OwnedWithin(volume.owner, paths)|
    {
      Open(volume, disk[..], blockSize, allocator.free, reserved);
      assert OwnedWithin(volume.owner, paths) !! allocator.free;
    }

    lemma NewFileThenWithout(path: Path, block: nat)
      requires Valid() && path !in files && block in reserved
      ensures Without(Created(volume, path, block), PathsOf(Created(volume, path, block).files, path.table)) ==
              Without(volume, PathsOf(files, path.table))
    {
      Open(volume, disk[..], blockSize, allocator.free, reserved);
      CreatedThenWithout(volume, path, block);
    }

    /** `buscarBloqueLibre` seen from the file system: the block becomes reserved. */
    method FindFreeBlock() returns (found: bool, block: nat)
      requires Valid()
      modifies this`reserved, allocator`free, allocator.bitmap, allocator.bitmap.bytes
      ensures Valid()
      ensures found <==> old(allocator.free) != {}
      ensures found ==> block in old(allocator.free) && allocator.free == old(allocator.free) - {block}
      ensures !found ==> allocator.free == old(allocator.free)
      ensures reserved == if found then old(reserved) + {block} else old(reserved)
    {
      found, block := allocator.FindFreeBlock();
      if found {
        ReserveKeeps(volume, disk[..], blockSize, old(allocator.free), reserved, {block});
        reserved := reserved + {block};
      }
    }

    /** A new empty file that starts with a reserved block. */
    method CreateFile(path: Path, block: nat)
      requires Valid() && path !in files && block in reserved
      modifies this`files, this`volume, this`reserved
      ensures Valid() && volume == Created(old(volume), path, block)
      ensures files == old(files)[path := File(0, [block])] && reserved == old(reserved) - {block}
      ensures volume.contents == old(volume).contents[path := []]
    {
      CreateKeeps(volume, disk[..], blockSize, allocator.free, reserved, path, block);
      files := files[path := File(0, [block])];
      volume := Created(volume, path, block);
      reserved := reserved - {block};
    }

    /** Frees the blocks of a file and forgets it; nothing happens when there is no such file. */
    method DeleteFile(path: Path)
      requires Valid()
      modifies this`files, this`volume, allocator`free, allocator.bitmap, allocator.bitmap.bytes
      ensures Valid()
      ensures volume == if path in old(files) then Deleted(old(volume), path) else old(volume)
      ensures path in old(files) ==>
              files == old(files) - {path} && volume.contents == old(volume).contents - {path}
      ensures allocator.free ==
              old(allocator.free) + (if path in old(files) then AsSet(old(files)[path].blocks) else {})
    {
      if path !in files {
        return;
      }
      var blocks := files[path].blocks;
      FileIsConsistent(volume, disk[..], blockSize, allocator.free, reserved, path);
      DeleteKeeps(volume, disk[..], blockSize, allocator.free, reserved, path);
      allocator.MarkAllFree(blocks);
      files := files - {path};
      volume := Deleted(volume, path);
    }

    /** `rename`: the file keeps its blocks under another name. */
    method RenameFile(from: Path, to: Path)
      requires Valid() && from in files && to !in files
      modifies this`files, this`volume
      ensures from in old(volume.contents) && Valid() && volume == Renamed(old(volume), from, to)
      ensures files == (old(files) - {from})[to := old(files)[from]]
      ensures volume.contents == (old(volume).contents - {from})[to := old(volume).contents[from]]
    {
      RenameKeeps(volume, disk[..], blockSize, allocator.free, reserved, from, to);
      files := (files - {from})[to := files[from]];
      volume := Renamed(volume, from, to);
    }

    /** Deletes the files of a set one by one, whatever order the directory lists them in. */
    method DeleteAll(all: set<Path>)
      requires Valid() && all <= files.Keys
      modifies this`files, this`volume, allocator`free, allocator.bitmap, allocator.bitmap.bytes
      ensures Valid() && volume == Without(old(volume), all)
      ensures allocator.free == old(allocator.free) + OwnedWithin(old(volume.owner), all)
    {
      ghost var before, free := volume, allocator.free;
      var todo := all;
      WithoutNone(volume);
      assert all - todo == {};
      while todo != {}
        invariant Valid() && todo <= all && volume == Without(before, all - todo)
        decreases |todo|
      {
        var path :| path in todo;
        assert all - (todo - {path}) == all - todo + {path};
        DeletedOneMore(before, disk[..], blockSize, free, reserved, all - todo, path);
        DeleteFile(path);
        todo := todo - {path};
      }
      assert all - todo == all;
      FreedBlocks(before, disk[..], blockSize, free, reserved, all, allocator.free);
    }

    /** `traverse_to_drop`: every file of the table goes, and its blocks become free. */
    method DeleteTable(table: string)
      requires Valid()
      modifies this`files, this`volume, allocator`free, allocator.bitmap, allocator.bitmap.bytes
      ensures Valid() && volume == Without(old(volume), PathsOf(old(files), table))
      ensures forall p :: p in files <==> p in old(files) && p.table != table
      ensures forall p :: p in files ==> files[p] == old(files)[p]
      ensures allocator.free == old(allocator.free) + OwnedWithin(old(volume.owner), PathsOf(old(files), table))
    {
      DeleteAll(PathsOf(files, table));
    }

    /** `memcpy` of data into the first bytes of a block. */
    method WriteBlock(block: nat, data: Text)
      requires block < disk.Length && |data| <= |disk[block]|
      modifies disk
      ensures disk[..] == old(disk[..])[block := data + old(disk[block])[|data|..]]
    {
      disk[block] := data + disk[block][|data|..];
    }

    /** Fills the first blocks of the list, one `blockSize` piece of the buffer each. */
    method WriteFullBlocks(blocks: seq<nat>, buf: Text, whole: nat) returns (left: Text)
      requires Formatted(disk[..], blockSize) && AllBelow(blocks, disk.Length) && Distinct(blocks)
      requires whole <= |blocks| && Offset(whole, blockSize) <= |buf|
      modifies disk
      ensures |left| == |buf| - Offset(whole, blockSize) && left == buf[|buf| - |left|..]
      ensures HoldsSoFar(old(disk[..]), disk[..], blockSize, blocks, whole, buf[..|buf| - |left|], true)
    {
      ghost var before, done := disk[..], [];
      left := buf;
      for i := 0 to whole
        invariant done + left == buf && Offset(whole - i, blockSize) == |left| - (|buf| - Offset(whole, blockSize))
        invariant HoldsSoFar(before, disk[..], blockSize, blocks, i, done, true)
      {
        var piece := left[..blockSize];
        WriteOne(before, disk[..], blockSize, blocks, i, done, piece);
        WriteBlock(blocks[i], piece);
        done := done + piece;
        left := left[blockSize..];
      }
      assert done == buf[..|buf| - |left|];
    }

    /** Block by block: full blocks first, then what remains in the last one. */
    method WriteBlocks(blocks: seq<nat>, buf: Text)
      requires blockSize > 0 && Formatted(disk[..], blockSize)
      requires AllBelow(blocks, disk.Length) && Distinct(blocks) && BlocksFor(|buf|, blockSize) <= |blocks|
      modifies disk
      ensures Formatted(disk[..], blockSize) && buf <= Flat(blocks, disk[..])
      ensures SameExcept(old(disk[..]), disk[..], blocks)
    {
      var whole, rest := DivideLength(|buf|, blockSize);
      var left := WriteFullBlocks(blocks, buf, whole);
      ghost var done := buf[..|buf| - |left|];
      assert done + left == buf;
      if rest > 0 {
        WriteOne(old(disk[..]), disk[..], blockSize, blocks, whole, done, left);
        WriteBlock(blocks[whole], left);
      }
      FlatPrefix(blocks, disk[..], if rest > 0 then whole + 1 else whole);
    }

    /** Contents of a file, read block by block; surplus blocks of the file contribute nothing. */
    method ReadFile(path: Path) returns (content: Option<Text>)
      requires Valid()
      ensures content == if path in volume.contents then Some(volume.contents[path]) else None
    {
      FileIsConsistent(volume, disk[..], blockSize, allocator.free, reserved, path);
      if path !in files {
        return None;
      }
      var text := ReadBlocks(files[path].blocks, files[path].size);
      SamePrefix(text, volume.contents[path], Flat(files[path].blocks, disk[..]));
      content := Some(text);
    }

    method ReadBlocks(blocks: seq<nat>, size: nat) returns (text: Text)
      requires Formatted(disk[..], blockSize) && AllBelow(blocks, disk.Length) && size <= Offset(|blocks|, blockSize)
      ensures |text| == size && text <= Flat(blocks, disk[..])
    {
      ghost var d := disk[..];
      var bytesLeft: nat;
      text, bytesLeft := [], size;
      var readLen := if size < blockSize then size else blockSize;
      for i := 0 to |blocks|
        invariant ReadUpTo(blocks, d, blockSize, size, i, text, bytesLeft)
        invariant readLen == if bytesLeft < blockSize then bytesLeft else blockSize
      {
        ReadOne(blocks, d, blockSize, size, i, text, bytesLeft);
        text := text + disk[blocks[i]][..readLen];
        bytesLeft := bytesLeft - readLen;
        readLen := if bytesLeft < blockSize then bytesLeft else blockSize;
      }
      ReadAll(blocks, d, blockSize, size, text, bytesLeft);
    }

    /** Asks for the blocks a file lacks to have `total` of them; the file itself is not changed yet. */
    method GrowBlocks(path: Path, total: nat) returns (ok: bool, added: seq<nat>)
      requires Valid() && path in files
      modifies this`reserved, allocator`free, allocator.bitmap, allocator.bitmap.bytes
      ensures Valid()
      ensures ok <==> total <= |files[path].blocks| + |old(allocator.free)|
      ensures ok ==> total <= |files[path].blocks + added|
                     && |old(allocator.free)| == |allocator.free| + Growth(total, |files[path].blocks|)
                     && AllBelow(files[path].blocks + added, disk.Length) && Distinct(files[path].blocks + added)
      ensures ok ==> AsSet(added) !! old(reserved) && reserved == old(reserved) + AsSet(added)
                     && AsSet(added) <= old(allocator.free) && allocator.free == old(allocator.free) - AsSet(added)
      ensures !ok ==> allocator.free == old(allocator.free) && reserved == old(reserved)
    {
      ok, added := true, [];
      var blocks := files[path].blocks;
      FileIsConsistent(volume, disk[..], blockSize, allocator.free, reserved, path);
      if |blocks| < total {
        ok, added := allocator.RequestBlocks(total - |blocks|);
      }
      if ok {
        GrowsInto(blocks, added, old(allocator.free), disk.Length);
        ReserveKeeps(volume, disk[..], blockSize, old(allocator.free), reserved, AsSet(added));
        reserved := reserved + AsSet(added);
      }
    }

    /** Writes the buffer over the blocks of a file and reserved ones, and records size and blocks. */
    method StoreFile(path: Path, added: seq<nat>, buf: Text)
      requires Valid() && path in files && AsSet(added) <= reserved
      requires AllBelow(files[path].blocks + added, disk.Length) && Distinct(files[path].blocks + added)
      requires BlocksFor(|buf|, blockSize) <= |files[path].blocks + added|
      modifies this`files, this`volume, this`reserved, disk
      ensures Valid() && volume == Written(old(volume), path, added, buf)
      ensures reserved == old(reserved) - AsSet(added)
    {
      var blocks := files[path].blocks + added;
      WriteBlocks(blocks, buf);
      WriteKeeps(volume, old(disk[..]), blockSize, allocator.free, reserved, path, added, disk[..], buf);
      files := files[path := File(|buf|, blocks)];
      volume := Written(volume, path, added, buf);
      reserved := reserved - AsSet(added);
    }

    /** Replaces the contents of a file; `ok` tells whether the function got past its two early exits. */
    method WriteFile(path: Path, buf: Text) returns (ok: bool)
      requires Valid()
      modifies this, allocator, allocator.bitmap, allocator.bitmap.bytes, disk
      ensures Valid() && reserved == old(reserved)
      ensures ok <==> path in old(files) &&
                      BlocksFor(|buf|, blockSize) <= |old(files)[path].blocks| + |old(allocator.free)|
      ensures ok ==> exists added :: volume == Written(old(volume), path, added, buf)
      ensures ok ==> volume.contents == old(volume.contents)[path := buf]
      ensures ok ==> path in files && files == old(files)[path := files[path]]
                     && files[path].size == |buf| && old(files)[path].blocks <= files[path].blocks
      ensures ok ==> allocator.free <= old(allocator.free)
                     && |old(allocator.free)| ==
                        |allocator.free| + Growth(BlocksFor(|buf|, blockSize), |old(files)[path].blocks|)
      ensures !ok ==> volume == old(volume) && allocator.free == old(allocator.free) && disk[..] == old(disk[..])
    {
      if path !in files {
        return false;
      }
      var whole, rest := DivideLength(|buf|, blockSize);
      var added;
      ok, added := GrowBlocks(path, if rest > 0 then whole + 1 else whole);
      if ok {
        StoreFile(path, added, buf);
      }
    }
  }
}
