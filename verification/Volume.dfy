/**
 What a file system is, apart from the machine that holds it: files made of blocks, what they
 contain, and who owns each block.

 `Sound` is the invariant; the functions on volumes say what creating, writing and deleting a file
 do, and the lemmas that they keep it.
 */
module Volumes {
  import opened Basics
  import opened BlockLists

  datatype Kind = Bin | Tmp | Tmpc
  datatype Path = Path(table: string, kind: Kind, number: nat)
  datatype File = File(size: nat, blocks: seq<nat>)

  datatype Volume = Volume(files: map<Path, File>, contents: map<Path, Text>, owner: map<nat, Path>)

  const EMPTY := Volume(map[], map[], map[])

  // ---- the invariant ----

  /** Each block of a list belongs to the file p. */
  ghost predicate OwnedBy(blocks: seq<nat>, owner: map<nat, Path>, p: Path) {
    forall b :: b in AsSet(blocks) ==> b in owner && owner[b] == p
  }

  ghost predicate FileHolds(p: Path, f: File, disk: seq<Text>, blockSize: nat, content: Text, owner: map<nat, Path>) {
    && AllBelow(f.blocks, |disk|) && Distinct(f.blocks) && OwnedBy(f.blocks, owner, p)
    && f.size == |content| <= Offset(|f.blocks|, blockSize)
    && content <= Flat(f.blocks, disk)
  }

  ghost predicate AllHold(v: Volume, disk: seq<Text>, blockSize: nat) {
    forall p :: p in v.files && p in v.contents ==> FileHolds(p, v.files[p], disk, blockSize, v.contents[p], v.owner)
  }

  ghost predicate SameKeys(v: Volume) {
    forall p :: p in v.contents <==> p in v.files
  }

  /** Only blocks that a file lists have an owner. */
  ghost predicate Exact(v: Volume) {
    forall b :: b in v.owner ==> v.owner[b] in v.files && b in AsSet(v.files[v.owner[b]].blocks)
  }

  /** A file starts with a block and never gives one back. */
  ghost predicate NoneIsEmpty(files: map<Path, File>) {
    forall p {:trigger files[p]} :: p in files ==> |files[p].blocks| > 0
  }

  /** Every file holds its contents, in blocks of its own. */
  ghost predicate Sound(v: Volume, disk: seq<Text>, blockSize: nat) {
    SameKeys(v) && AllHold(v, disk, blockSize) && Exact(v)
  }

  lemma BlocksOfFile(v: Volume, disk: seq<Text>, blockSize: nat, path: Path)
    requires Sound(v, disk, blockSize) && path in v.files
    ensures path in v.contents && FileHolds(path, v.files[path], disk, blockSize, v.contents[path], v.owner)
    ensures AsSet(v.files[path].blocks) <= v.owner.Keys
  {
  }

  /** The owned blocks are exactly those of the files, and no block is in two of them. */
  lemma Ownership(v: Volume, disk: seq<Text>, blockSize: nat)
    requires Sound(v, disk, blockSize)
    ensures forall b :: b in v.owner <==> exists p :: p in v.files && b in AsSet(v.files[p].blocks)
    ensures forall p, q, b ::
              p in v.files && q in v.files && b in AsSet(v.files[p].blocks) && b in AsSet(v.files[q].blocks) ==> p == q
  {
  }

  // ---- operations ----

  /** Gives the blocks of a list to the file p. */
  ghost function Claim(owner: map<nat, Path>, blocks: seq<nat>, p: Path): (o: map<nat, Path>)
    ensures o.Keys == owner.Keys + AsSet(blocks)
  {
    map b | b in owner.Keys + AsSet(blocks) :: if b in AsSet(blocks) then p else owner[b]
  }

  ghost function Disown(owner: map<nat, Path>, blocks: seq<nat>): (o: map<nat, Path>)
    ensures o.Keys == owner.Keys - AsSet(blocks)
  {
    map b | b in owner && b !in AsSet(blocks) :: owner[b]
  }

  ghost function Created(v: Volume, path: Path, block: nat): (v': Volume)
    ensures v'.owner.Keys == v.owner.Keys + {block}
  {
    Volume(v.files[path := File(0, [block])], v.contents[path := []], v.owner[block := path])
  }

  ghost function Written(v: Volume, path: Path, added: seq<nat>, buf: Text): Volume
    requires path in v.files
  {
    Volume(v.files[path := File(|buf|, v.files[path].blocks + added)], v.contents[path := buf],
      Claim(v.owner, added, path))
  }

  ghost function Deleted(v: Volume, path: Path): Volume
    requires path in v.files
  {
    Volume(v.files - {path}, v.contents - {path}, Disown(v.owner, v.files[path].blocks))
  }

  ghost function Renamed(v: Volume, from: Path, to: Path): (v': Volume)
    requires from in v.files && from in v.contents
    ensures v'.owner.Keys == v.owner.Keys
  {
    Volume((v.files - {from})[to := v.files[from]], (v.contents - {from})[to := v.contents[from]],
           map b | b in v.owner :: if v.owner[b] == from then to else v.owner[b])
  }

  function PathsOf(files: map<Path, File>, table: string): set<Path> {
    set p | p in files && p.table == table
  }

  ghost function OwnedWithin(owner: map<nat, Path>, paths: set<Path>): set<nat> {
    set b | b in owner && owner[b] in paths
  }

  ghost function Without(v: Volume, paths: set<Path>): (v': Volume)
    ensures v'.owner.Keys == v.owner.Keys - OwnedWithin(v.owner, paths)
  {
    Volume(v.files - paths, v.contents - paths, map b | b in v.owner && v.owner[b] !in paths :: v.owner[b])
  }

  // ---- the operations keep the invariant ----

  /** Blocks of every file but `path` keep their owner and their bytes. */
  ghost predicate Undisturbed(path: Path, disk: seq<Text>, owner: map<nat, Path>, disk': seq<Text>,
                              owner': map<nat, Path>)
  {
    |disk| == |disk'| && forall b :: b in owner && owner[b] != path ==>
      b in owner' && owner'[b] == owner[b] && (b < |disk| ==> disk'[b] == disk[b])
  }

  lemma FileKeeps(path: Path, disk: seq<Text>, owner: map<nat, Path>, disk': seq<Text>, owner': map<nat, Path>,
                  p: Path, f: File, blockSize: nat, content: Text)
    requires FileHolds(p, f, disk, blockSize, content, owner) && p != path
    requires Undisturbed(path, disk, owner, disk', owner')
    ensures FileHolds(p, f, disk', blockSize, content, owner')
  {
    FlatFrame(f.blocks, disk, disk');
  }

  /** A file added or replaced, when nothing happens to the others. */
  lemma AllHoldUpdated(v: Volume, disk: seq<Text>, blockSize: nat, path: Path, f: File, content: Text,
                       owner': map<nat, Path>, disk': seq<Text>)
    requires AllHold(v, disk, blockSize) && SameKeys(v)
    requires Undisturbed(path, disk, v.owner, disk', owner')
    requires FileHolds(path, f, disk', blockSize, content, owner')
    ensures AllHold(Volume(v.files[path := f], v.contents[path := content], owner'), disk', blockSize)
  {
    forall p | p in v.files && p != path ensures FileHolds(p, v.files[p], disk', blockSize, v.contents[p], owner') {
      FileKeeps(path, disk, v.owner, disk', owner', p, v.files[p], blockSize, v.contents[p]);
    }
  }

  // creating

  lemma EmptyFileHolds(path: Path, block: nat, disk: seq<Text>, blockSize: nat, owner: map<nat, Path>)
    requires block < |disk| && block in owner && owner[block] == path
    ensures FileHolds(path, File(0, [block]), disk, blockSize, [], owner)
  {
    assert AsSet([block]) == {block};
  }

  lemma CreatedIsSound(v: Volume, disk: seq<Text>, blockSize: nat, path: Path, block: nat)
    requires Sound(v, disk, blockSize) && path !in v.files && block !in v.owner && block < |disk|
    ensures Sound(Created(v, path, block), disk, blockSize)
  {
    EmptyFileHolds(path, block, disk, blockSize, v.owner[block := path]);
    AllHoldUpdated(v, disk, blockSize, path, File(0, [block]), [], v.owner[block := path], disk);
  }

  // deleting

  lemma DeletedIsSound(v: Volume, disk: seq<Text>, blockSize: nat, path: Path)
    requires Sound(v, disk, blockSize) && path in v.files
    ensures Sound(Deleted(v, path), disk, blockSize)
  {
    var v' := Deleted(v, path);
    BlocksOfFile(v, disk, blockSize, path);
    forall p | p in v'.files ensures FileHolds(p, v'.files[p], disk, blockSize, v'.contents[p], v'.owner) {
      FileKeeps(path, disk, v.owner, disk, v'.owner, p, v.files[p], blockSize, v.contents[p]);
    }
  }

  // renaming

  lemma RenamedIsSound(v: Volume, disk: seq<Text>, blockSize: nat, from: Path, to: Path)
    requires Sound(v, disk, blockSize) && from in v.files && to !in v.files
    ensures from in v.contents && Sound(Renamed(v, from, to), disk, blockSize)
  {
    OwnsItsBlocks(v, disk, blockSize, from);
    RenamedIsExact(v, from, to);
    forall p | p in Renamed(v, from, to).files {
      RenamedFileHolds(v, disk, blockSize, from, to, p);
    }
  }

  lemma RenamedIsExact(v: Volume, from: Path, to: Path)
    requires SameKeys(v) && Exact(v) && from in v.files && to !in v.files
    ensures from in v.contents && SameKeys(Renamed(v, from, to)) && Exact(Renamed(v, from, to))
  {
  }

  lemma RenamedFileHolds(v: Volume, disk: seq<Text>, blockSize: nat, from: Path, to: Path, p: Path)
    requires Sound(v, disk, blockSize) && from in v.files && to !in v.files && from in v.contents
    requires p in Renamed(v, from, to).files
    ensures var v' := Renamed(v, from, to);
            p in v'.contents && FileHolds(p, v'.files[p], disk, blockSize, v'.contents[p], v'.owner)
  {
    OwnsItsBlocks(v, disk, blockSize, if p == to then from else p);
  }

  lemma OwnsItsBlocks(v: Volume, disk: seq<Text>, blockSize: nat, path: Path)
    requires Sound(v, disk, blockSize) && path in v.files
    ensures forall b :: b in AsSet(v.files[path].blocks) <==> b in v.owner && v.owner[b] == path
  {
  }

  /** Deleting one more file of a set: the blocks it gives back are those it owned. */
  lemma DeletedFrom(v: Volume, gone: set<Path>, path: Path)
    requires path in v.files && path !in gone
    requires forall b :: b in AsSet(v.files[path].blocks) <==> b in v.owner && v.owner[b] == path
    ensures path in Without(v, gone).files && Without(v, gone).files[path] == v.files[path]
    ensures Deleted(Without(v, gone), path) == Without(v, gone + {path})
  {
  }

  lemma WithoutNone(v: Volume)
    ensures Without(v, {}) == v
  {
  }

  // writing

  ghost predicate SameExcept(disk: seq<Text>, disk': seq<Text>, blocks: seq<nat>) {
    |disk| == |disk'| && forall b :: 0 <= b < |disk| && b !in AsSet(blocks) ==> disk[b] == disk'[b]
  }

  /** `buf` sits at the start of the blocks of the file followed by new ones, and only those were written. */
  ghost predicate Stored(disk: seq<Text>, blockSize: nat, blocks: seq<nat>, disk': seq<Text>, buf: Text) {
    && AllBelow(blocks, |disk'|) && Distinct(blocks) && Formatted(disk', blockSize)
    && SameExcept(disk, disk', blocks) && buf <= Flat(blocks, disk')
  }

  lemma StoredFileHolds(disk: seq<Text>, path: Path, blocks: seq<nat>, disk': seq<Text>, blockSize: nat, buf: Text,
                        owner: map<nat, Path>)
    requires Stored(disk, blockSize, blocks, disk', buf) && OwnedBy(blocks, owner, path)
    ensures FileHolds(path, File(|buf|, blocks), disk', blockSize, buf, owner)
  {
    FlatLength(blocks, disk', blockSize);
  }

  lemma WrittenAllHold(v: Volume, disk: seq<Text>, blockSize: nat, path: Path, added: seq<nat>, disk': seq<Text>,
                       buf: Text)
    requires Sound(v, disk, blockSize) && path in v.files && AsSet(added) !! v.owner.Keys
    requires Stored(disk, blockSize, v.files[path].blocks + added, disk', buf)
    ensures AllHold(Written(v, path, added, buf), disk', blockSize)
  {
    var blocks, owner' := v.files[path].blocks + added, Claim(v.owner, added, path);
    assert OwnedBy(blocks, owner', path) by {
      BlocksOfFile(v, disk, blockSize, path);
    }
    StoredFileHolds(disk, path, blocks, disk', blockSize, buf, owner');
    AllHoldUpdated(v, disk, blockSize, path, File(|buf|, blocks), buf, owner', disk');
  }

  lemma WrittenIsSound(v: Volume, disk: seq<Text>, blockSize: nat, path: Path, added: seq<nat>, disk': seq<Text>,
                       buf: Text)
    requires Sound(v, disk, blockSize) && path in v.files && AsSet(added) !! v.owner.Keys
    requires Stored(disk, blockSize, v.files[path].blocks + added, disk', buf)
    ensures Sound(Written(v, path, added, buf), disk', blockSize)
  {
    WrittenAllHold(v, disk, blockSize, path, added, disk', buf);
  }

  /** Free blocks can follow the blocks of a file. */
  lemma GrowsInto(blocks: seq<nat>, added: seq<nat>, free: set<nat>, n: nat)
    requires AllBelow(blocks, n) && Distinct(blocks) && AsSet(blocks) !! free
    requires free <= Upto(n) && AsSet(added) <= free && Distinct(added)
    ensures AllBelow(blocks + added, n) && Distinct(blocks + added)
  {
    DistinctConcat(blocks, added);
    forall i | 0 <= i < |added| ensures added[i] < n {
      assert added[i] in AsSet(added);
    }
  }

  // ---- every block is owned, free or reserved ----

  ghost predicate Parted(owned: set<nat>, free: set<nat>, reserved: set<nat>, n: nat) {
    owned !! free && owned !! reserved && free !! reserved && owned + free + reserved == Upto(n)
  }

  lemma FreeToReserved(owned: set<nat>, free: set<nat>, reserved: set<nat>, n: nat, blocks: set<nat>)
    requires Parted(owned, free, reserved, n) && blocks <= free
    ensures Parted(owned, free - blocks, reserved + blocks, n)
  {
  }

  lemma ReservedToOwned(owned: set<nat>, free: set<nat>, reserved: set<nat>, n: nat, blocks: set<nat>)
    requires Parted(owned, free, reserved, n) && blocks <= reserved
    ensures Parted(owned + blocks, free, reserved - blocks, n)
  {
  }

  lemma OwnedToFree(owned: set<nat>, free: set<nat>, reserved: set<nat>, n: nat, blocks: set<nat>)
    requires Parted(owned, free, reserved, n) && blocks <= owned
    ensures Parted(owned - blocks, free + blocks, reserved, n)
  {
  }

  lemma PartedCount(owned: set<nat>, free: set<nat>, reserved: set<nat>, n: nat)
    requires Parted(owned, free, reserved, n)
    ensures |owned| + |free| + |reserved| == n
  {
    assert |owned + free + reserved| == n;
  }

  lemma PartedFree(owned: set<nat>, free: set<nat>, reserved: set<nat>, n: nat, blocks: set<nat>, free': set<nat>)
    requires Parted(owned, free, reserved, n) && blocks <= owned && Parted(owned - blocks, free', reserved, n)
    ensures free' == free + blocks
  {
  }

  ghost predicate Accounted(v: Volume, disk: seq<Text>, blockSize: nat, free: set<nat>, reserved: set<nat>) {
    Sound(v, disk, blockSize) && Parted(v.owner.Keys, free, reserved, |disk|) && NoneIsEmpty(v.files)
  }

  /** The same, stated so that the verifier looks inside only where `Accounted` is mentioned. */
  ghost predicate Consistent(v: Volume, disk: seq<Text>, blockSize: nat, free: set<nat>, reserved: set<nat>) {
    forall u {:trigger Accounted(u, disk, blockSize, free, reserved)} :: u == v ==>
      Accounted(u, disk, blockSize, free, reserved)
  }

  lemma Open(v: Volume, disk: seq<Text>, blockSize: nat, free: set<nat>, reserved: set<nat>)
    requires Consistent(v, disk, blockSize, free, reserved)
    ensures Sound(v, disk, blockSize) && Parted(v.owner.Keys, free, reserved, |disk|) && NoneIsEmpty(v.files)
  {
    assert Accounted(v, disk, blockSize, free, reserved);
  }

  lemma FileIsConsistent(v: Volume, disk: seq<Text>, blockSize: nat, free: set<nat>, reserved: set<nat>, path: Path)
    requires Consistent(v, disk, blockSize, free, reserved)
    ensures path in v.files <==> path in v.contents
    ensures path in v.files ==> FileHolds(path, v.files[path], disk, blockSize, v.contents[path], v.owner)
    ensures path in v.files ==> AsSet(v.files[path].blocks) <= Upto(|disk|) && AsSet(v.files[path].blocks) !! free
  {
    Open(v, disk, blockSize, free, reserved);
    if path in v.files {
      BlocksOfFile(v, disk, blockSize, path);
      assert AsSet(v.files[path].blocks) <= v.owner.Keys;
    }
  }

  lemma RenamedNoneEmpty(files: map<Path, File>, from: Path, to: Path)
    requires NoneIsEmpty(files) && from in files
    ensures NoneIsEmpty((files - {from})[to := files[from]])
  {
  }

  lemma WrittenNoneEmpty(files: map<Path, File>, path: Path, added: seq<nat>, size: nat)
    requires NoneIsEmpty(files) && path in files
    ensures NoneIsEmpty(files[path := File(size, files[path].blocks + added)])
  {
  }

  lemma EmptyIsConsistent(disk: seq<Text>, blockSize: nat, free: set<nat>)
    requires free == Upto(|disk|)
    ensures Consistent(EMPTY, disk, blockSize, free, {})
  {
    assert Accounted(EMPTY, disk, blockSize, free, {});
  }

  // ---- files and blocks counted ----

  lemma OwnedWithOneMore(v: Volume, paths: set<Path>, p: Path)
    requires p in v.files && p !in paths && Distinct(v.files[p].blocks)
    requires forall b :: b in AsSet(v.files[p].blocks) <==> b in v.owner && v.owner[b] == p
    ensures |OwnedWithin(v.owner, paths + {p})| == |OwnedWithin(v.owner, paths)| + |v.files[p].blocks|
  {
    assert OwnedWithin(v.owner, paths + {p}) == OwnedWithin(v.owner, paths) + AsSet(v.files[p].blocks);
  }

  lemma {:induction false} OwnAtLeastOne(v: Volume, disk: seq<Text>, blockSize: nat, paths: set<Path>)
    requires Sound(v, disk, blockSize) && NoneIsEmpty(v.files) && paths <= v.files.Keys
    ensures |OwnedWithin(v.owner, paths)| >= |paths|
  {
    if paths != {} {
      var p :| p in paths;
      OwnAtLeastOne(v, disk, blockSize, paths - {p});
      BlocksOfFile(v, disk, blockSize, p);
      OwnsItsBlocks(v, disk, blockSize, p);
      OwnedWithOneMore(v, paths - {p}, p);
      assert paths - {p} + {p} == paths;
    }
  }

  lemma OnlyOneLeft(v: Volume, p: Path)
    requires p in v.files && Distinct(v.files[p].blocks) && |v.files[p].blocks| > 0
    requires forall b :: b in AsSet(v.files[p].blocks) <==> b in v.owner && v.owner[b] == p
    requires |OwnedWithin(v.owner, v.files.Keys - {p})| >= |v.files| - 1 && |v.owner| <= |v.files|
    ensures |v.files[p].blocks| == 1 && |OwnedWithin(v.owner, {p})| == 1
  {
    var others := v.files.Keys - {p};
    OwnedWithOneMore(v, others, p);
    OwnedWithOneMore(v, {}, p);
    assert {} + {p} == {p} && OwnedWithin(v.owner, {}) == {};
    SubsetSize(OwnedWithin(v.owner, others + {p}), v.owner.Keys);
  }

  lemma {:induction false} SubsetSize(a: set<nat>, b: set<nat>)
    requires a <= b
    ensures |a| <= |b|
  {
    assert b == a + (b - a);
  }

  lemma UsedBlocks(v: Volume, disk: seq<Text>, blockSize: nat, free: set<nat>, reserved: set<nat>)
    requires Consistent(v, disk, blockSize, free, reserved)
    ensures |v.owner| + |free| + |reserved| == |disk|
  {
    Open(v, disk, blockSize, free, reserved);
    PartedCount(v.owner.Keys, free, reserved, |disk|);
  }

  lemma ConsistentOwners(v: Volume, disk: seq<Text>, blockSize: nat, free: set<nat>, reserved: set<nat>, p: Path)
    requires Consistent(v, disk, blockSize, free, reserved) && p in v.files
    ensures Distinct(v.files[p].blocks) && |v.files[p].blocks| > 0
    ensures forall b :: b in AsSet(v.files[p].blocks) <==> b in v.owner && v.owner[b] == p
    ensures |OwnedWithin(v.owner, v.files.Keys - {p})| >= |v.files| - 1
  {
    Open(v, disk, blockSize, free, reserved);
    BlocksOfFile(v, disk, blockSize, p);
    OwnsItsBlocks(v, disk, blockSize, p);
    OwnAtLeastOne(v, disk, blockSize, v.files.Keys - {p});
  }

  /** When there are no more used blocks than files, each file has exactly one. */
  lemma OneBlockEach(v: Volume, disk: seq<Text>, blockSize: nat, free: set<nat>, reserved: set<nat>, p: Path)
    requires Consistent(v, disk, blockSize, free, reserved)
    requires p in v.files && |disk| <= |v.files| + |free| + |reserved|
    ensures |v.files[p].blocks| == 1 && |OwnedWithin(v.owner, {p})| == 1
  {
    UsedBlocks(v, disk, blockSize, free, reserved);
    ConsistentOwners(v, disk, blockSize, free, reserved, p);
    OnlyOneLeft(v, p);
  }

  lemma ReserveKeeps(v: Volume, disk: seq<Text>, blockSize: nat, free: set<nat>, reserved: set<nat>, blocks: set<nat>)
    requires Consistent(v, disk, blockSize, free, reserved) && blocks <= free
    ensures Consistent(v, disk, blockSize, free - blocks, reserved + blocks) && blocks !! reserved
  {
    Open(v, disk, blockSize, free, reserved);
    FreeToReserved(v.owner.Keys, free, reserved, |disk|, blocks);
  }

  lemma CreateKeeps(v: Volume, disk: seq<Text>, blockSize: nat, free: set<nat>, reserved: set<nat>, path: Path,
                    block: nat)
    requires Consistent(v, disk, blockSize, free, reserved) && path !in v.files && block in reserved
    ensures Consistent(Created(v, path, block), disk, blockSize, free, reserved - {block})
  {
    Open(v, disk, blockSize, free, reserved);
    ReservedToOwned(v.owner.Keys, free, reserved, |disk|, {block});
    assert block in Upto(|disk|);
    CreatedIsSound(v, disk, blockSize, path, block);
  }

  lemma DeleteKeeps(v: Volume, disk: seq<Text>, blockSize: nat, free: set<nat>, reserved: set<nat>, path: Path)
    requires Consistent(v, disk, blockSize, free, reserved) && path in v.files
    ensures Consistent(Deleted(v, path), disk, blockSize, free + AsSet(v.files[path].blocks), reserved)
  {
    Open(v, disk, blockSize, free, reserved);
    BlocksOfFile(v, disk, blockSize, path);
    OwnedToFree(v.owner.Keys, free, reserved, |disk|, AsSet(v.files[path].blocks));
    DeletedIsSound(v, disk, blockSize, path);
  }

  lemma RenameKeeps(v: Volume, disk: seq<Text>, blockSize: nat, free: set<nat>, reserved: set<nat>, from: Path,
                    to: Path)
    requires Consistent(v, disk, blockSize, free, reserved) && from in v.files && to !in v.files
    ensures from in v.contents && Consistent(Renamed(v, from, to), disk, blockSize, free, reserved)
  {
    Open(v, disk, blockSize, free, reserved);
    RenamedIsSound(v, disk, blockSize, from, to);
    RenamedNoneEmpty(v.files, from, to);
  }

  lemma WriteKeeps(v: Volume, disk: seq<Text>, blockSize: nat, free: set<nat>, reserved: set<nat>,
                   path: Path, added: seq<nat>, disk': seq<Text>, buf: Text)
    requires Consistent(v, disk, blockSize, free, reserved) && path in v.files && AsSet(added) <= reserved
    requires Stored(disk, blockSize, v.files[path].blocks + added, disk', buf)
    ensures Consistent(Written(v, path, added, buf), disk', blockSize, free, reserved - AsSet(added))
  {
    Open(v, disk, blockSize, free, reserved);
    ReservedToOwned(v.owner.Keys, free, reserved, |disk|, AsSet(added));
    WrittenIsSound(v, disk, blockSize, path, added, disk', buf);
    WrittenNoneEmpty(v.files, path, added, |buf|);
  }

  /** While the reserved blocks stay the same, what loses its owner becomes free. */
  lemma FreedBlocks(v: Volume, disk: seq<Text>, blockSize: nat, free: set<nat>, reserved: set<nat>, gone: set<Path>,
                    free': set<nat>)
    requires Consistent(v, disk, blockSize, free, reserved)
    requires Consistent(Without(v, gone), disk, blockSize, free', reserved)
    ensures free' == free + OwnedWithin(v.owner, gone)
  {
    assert Parted(v.owner.Keys, free, reserved, |disk|) by { Open(v, disk, blockSize, free, reserved); }
    assert Parted(Without(v, gone).owner.Keys, free', reserved, |disk|) by {
      Open(Without(v, gone), disk, blockSize, free', reserved);
    }
    PartedFree(v.owner.Keys, free, reserved, |disk|, OwnedWithin(v.owner, gone), free');
  }

  /** Deleting one more file of a set. */
  lemma DeletedOneMore(v: Volume, disk: seq<Text>, blockSize: nat, free: set<nat>, reserved: set<nat>, gone: set<Path>,
                       path: Path)
    requires Consistent(v, disk, blockSize, free, reserved) && path in v.files && path !in gone
    ensures path in Without(v, gone).files && Deleted(Without(v, gone), path) == Without(v, gone + {path})
  {
    Open(v, disk, blockSize, free, reserved);
    OwnsItsBlocks(v, disk, blockSize, path);
    DeletedFrom(v, gone, path);
  }

  /** Creating a file of a table and then removing the table's files is removing them. */
  lemma CreatedThenWithout(v: Volume, path: Path, block: nat)
    requires SameKeys(v) && Exact(v) && path !in v.files && block !in v.owner
    ensures Without(Created(v, path, block), PathsOf(Created(v, path, block).files, path.table)) ==
            Without(v, PathsOf(v.files, path.table))
  {
    var v' := Created(v, path, block);
    var gone, gone' := PathsOf(v.files, path.table), PathsOf(v'.files, path.table);
    assert gone' == gone + {path};
    assert v'.files - gone' == v.files - gone;
    assert v'.contents - gone' == v.contents - gone;
  }

  /** The used blocks and the reserved ones determine the free ones. */
  lemma FreeIsDetermined(v: Volume, disk: seq<Text>, blockSize: nat, free: set<nat>, disk': seq<Text>, free': set<nat>,
                         reserved: set<nat>)
    requires Consistent(v, disk, blockSize, free, reserved) && Consistent(v, disk', blockSize, free', reserved)
    requires |disk| == |disk'|
    ensures free == free'
  {
    assert Parted(v.owner.Keys, free, reserved, |disk|) by { Open(v, disk, blockSize, free, reserved); }
    assert Parted(v.owner.Keys, free', reserved, |disk|) by { Open(v, disk', blockSize, free', reserved); }
    assert v.owner.Keys - {} == v.owner.Keys;
    PartedFree(v.owner.Keys, free, reserved, |disk|, {}, free');
  }
}
