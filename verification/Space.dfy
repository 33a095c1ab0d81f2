/**
 The blocks that a commit and a dump need, counted before they run: how long the new text of a
 partition is, which partitions find room for theirs, and when all of them do.
 */
module Space {
  import opened Basics
  import opened Records
  import opened Codec
  import opened BlockLists
  import opened Engine
  import opened Volumes

  // ---- the new contents of a partition ----

  /** The record at i is the one that the scan for its key stops at, and belongs to the partition. */
  ghost predicate IsListed(read: seq<Record>, partition: nat, partitions: nat, i: nat)
    requires partitions > 0 && i < |read|
  {
    read[i].key % partitions == partition && FirstNewest(read, read[i].key, i)
  }

  ghost predicate KeysApart(rs: seq<Record>) {
    forall i, j :: 0 <= i < j < |rs| ==> rs[i].key != rs[j].key
  }

  /** Of the first n records, those of a partition that the scan for their key stops at. */
  ghost function ListingOf(read: seq<Record>, partition: nat, partitions: nat, n: nat): seq<Record>
    requires partitions > 0 && n <= |read|
  {
    if n == 0 then []
    else
      var before, r := ListingOf(read, partition, partitions, n - 1), read[n - 1];
      if IsListed(read, partition, partitions, n - 1) then before + [r] else before
  }

  /** What a compaction that has read these records writes into a partition, up to the order of the lines. */
  ghost function Listing(read: seq<Record>, partition: nat, partitions: nat): seq<Record>
    requires partitions > 0
  {
    ListingOf(read, partition, partitions, |read|)
  }

  lemma {:induction false} ListingHas(read: seq<Record>, partition: nat, partitions: nat, n: nat, i: nat)
    requires partitions > 0 && i < n <= |read| && IsListed(read, partition, partitions, i)
    ensures read[i] in ListingOf(read, partition, partitions, n)
  {
    if i < n - 1 {
      ListingHas(read, partition, partitions, n - 1, i);
    }
  }

  lemma {:induction false} ListingFrom(read: seq<Record>, partition: nat, partitions: nat, n: nat, r: Record)
    returns (i: nat)
    requires partitions > 0 && n <= |read| && r in ListingOf(read, partition, partitions, n)
    ensures i < n && read[i] == r && IsListed(read, partition, partitions, i)
  {
    if r in ListingOf(read, partition, partitions, n - 1) {
      i := ListingFrom(read, partition, partitions, n - 1, r);
    } else {
      i := n - 1;
    }
  }

  lemma {:induction false} ListingKeysApart(read: seq<Record>, partition: nat, partitions: nat, n: nat)
    requires partitions > 0 && n <= |read|
    ensures KeysApart(ListingOf(read, partition, partitions, n))
  {
    if n > 0 {
      ListingKeysApart(read, partition, partitions, n - 1);
      var before := ListingOf(read, partition, partitions, n - 1);
      if IsListed(read, partition, partitions, n - 1) {
        forall a | 0 <= a < |before| ensures before[a].key != read[n - 1].key {
          var i := ListingFrom(read, partition, partitions, n - 1, before[a]);
        }
      }
    }
  }

  lemma ListingLists(read: seq<Record>, partition: nat, partitions: nat)
    requires partitions > 0
    ensures Lists(Listing(read, partition, partitions), read, partition, partitions)
  {
    var l := Listing(read, partition, partitions);
    ListingKeysApart(read, partition, partitions, |read|);
    forall r | r in l ensures r.key % partitions == partition && Scan(read, r.key) == Some(r) {
      var i := ListingFrom(read, partition, partitions, |read|, r);
      ScanIsFirstNewest(read, r.key, Some(r));
    }
    forall k: uint16 | k % partitions == partition && Scan(read, k).Some? ensures Scan(read, k).value in l {
      ScanIsFirstNewest(read, k, Scan(read, k));
      var i :| 0 <= i < |read| && FirstNewest(read, k, i) && read[i] == Scan(read, k).value;
      ListingHas(read, partition, partitions, |read|, i);
    }
  }

  function LineSize(r: Record): nat {
    |LineOf(r)| + 1
  }

  ghost function Total(size: Record -> nat, rs: seq<Record>): nat {
    if rs == [] then 0 else Total(size, rs[..|rs| - 1]) + size(rs[|rs| - 1])
  }

  lemma {:induction false} RenderLength(rs: seq<Record>)
    ensures |Render(rs)| == Total(LineSize, rs)
  {
    if rs != [] {
      RenderLength(rs[..|rs| - 1]);
    }
  }

  lemma {:induction false} TotalWithout(size: Record -> nat, rs: seq<Record>, i: nat)
    requires i < |rs|
    ensures Total(size, rs) == Total(size, rs[..i] + rs[i + 1..]) + size(rs[i])
    decreases |rs|
  {
    var n := |rs| - 1;
    var less := rs[..i] + rs[i + 1..];
    if i == n {
      assert less == rs[..n];
    } else {
      TotalWithout(size, rs[..n], i);
      assert less[..|less| - 1] == rs[..n][..i] + rs[..n][i + 1..];
      assert less[|less| - 1] == rs[n];
    }
  }

  lemma LastIsIn(rs: seq<Record>)
    ensures rs != [] ==> rs[|rs| - 1] in rs
  {
  }

  /** The order of the records does not change their total size. */
  lemma {:induction false} SameRecordsSameTotal(size: Record -> nat, a: seq<Record>, b: seq<Record>)
    requires KeysApart(a) && KeysApart(b)
    requires forall r :: r in a <==> r in b
    ensures Total(size, a) == Total(size, b)
    decreases |a|
  {
    LastIsIn(b);
    if a != [] {
      var n := |a| - 1;
      var r := a[n];
      assert r in b;
      var j :| 0 <= j < |b| && b[j] == r;
      var less := b[..j] + b[j + 1..];
      TotalWithout(size, b, j);
      forall q ensures q in a[..n] <==> q in less {
        if q in a[..n] {
          assert q in b && q != r;
        }
        if q in less {
          assert q in a && q != r;
        }
      }
      SameRecordsSameTotal(size, a[..n], less);
    }
  }

  lemma ListingLength(output: seq<Record>, read: seq<Record>, partition: nat, partitions: nat)
    requires partitions > 0 && Lists(output, read, partition, partitions)
    ensures |Render(output)| == |Render(Listing(read, partition, partitions))|
  {
    ListingLists(read, partition, partitions);
    SameRecordsSameTotal(LineSize, output, Listing(read, partition, partitions));
    RenderLength(output);
    RenderLength(Listing(read, partition, partitions));
  }

  // ---- which partitions find room ----

  function BlocksOf(files: map<Path, File>, p: Path): nat {
    if p in files then |files[p].blocks| else 0
  }

  /** How many blocks each partition of a table has. */
  function BinBlocks(files: map<Path, File>, table: string, partitions: nat): seq<nat> {
    seq(partitions, i requires 0 <= i < partitions => BlocksOf(files, Path(table, Bin, i)))
  }

  /** The blocks that each partition lacks for its new contents. */
  ghost function Needs(read: seq<Record>, owned: seq<nat>, blockSize: nat): seq<nat>
    requires blockSize > 0
  {
    seq(|owned|, i requires 0 <= i < |owned| =>
      Growth(BlocksFor(|Render(Listing(read, i, |owned|))|, blockSize), owned[i]))
  }

  /** When records with equal timestamps are equal, the order they were read in does not change what is needed. */
  lemma NeedsOfSet(a: seq<Record>, b: seq<Record>, owned: seq<nat>, blockSize: nat)
    requires blockSize > 0 && SetOf(a) == SetOf(b) && Records.Consistent(SetOf(a))
    ensures Needs(a, owned, blockSize) == Needs(b, owned, blockSize)
  {
    forall k: uint16 ensures Scan(a, k) == Scan(b, k) {
      ScanIsNewest(a, k);
      ScanIsNewest(b, k);
    }
    forall i | 0 <= i < |owned| ensures |Render(Listing(a, i, |owned|))| == |Render(Listing(b, i, |owned|))| {
      ListingLists(a, i, |owned|);
      ListingLength(Listing(a, i, |owned|), b, i, |owned|);
    }
  }

  /** The free blocks that are left when each request in turn has been met or refused. */
  function BlocksLeft(needs: seq<nat>, free: nat): nat {
    if needs == [] then free
    else
      var left, need := BlocksLeft(needs[..|needs| - 1], free), needs[|needs| - 1];
      if need <= left then left - need else left
  }

  /** The requests that are met: a refused one leaves its blocks to the later ones. */
  function Granted(needs: seq<nat>, free: nat): set<nat> {
    if needs == [] then {}
    else
      var before, n := needs[..|needs| - 1], |needs| - 1;
      Granted(before, free) + if needs[n] <= BlocksLeft(before, free) then {n} else {}
  }

  function Sum(needs: seq<nat>): nat {
    if needs == [] then 0 else Sum(needs[..|needs| - 1]) + needs[|needs| - 1]
  }

  lemma {:induction false} GrantedBelow(needs: seq<nat>, free: nat)
    ensures forall i :: i in Granted(needs, free) ==> i < |needs|
  {
    if needs != [] {
      GrantedBelow(needs[..|needs| - 1], free);
    }
  }

  ghost predicate AllGranted(needs: seq<nat>, free: nat) {
    forall i :: 0 <= i < |needs| ==> i in Granted(needs, free)
  }

  /** Every request is met exactly when there are blocks for all of them together. */
  lemma {:induction false} AllGrantedIff(needs: seq<nat>, free: nat)
    ensures AllGranted(needs, free) <==> Sum(needs) <= free
    ensures Sum(needs) <= free ==> BlocksLeft(needs, free) == free - Sum(needs)
  {
    if needs != [] {
      var before, n := needs[..|needs| - 1], |needs| - 1;
      AllGrantedIff(before, free);
      GrantedBelow(before, free);
      if !AllGranted(before, free) {
        var i :| 0 <= i < n && i !in Granted(before, free);
        assert i !in Granted(needs, free);
      } else if needs[n] > BlocksLeft(before, free) {
        assert n !in Granted(needs, free);
        assert !AllGranted(needs, free);
      } else {
        forall i | 0 <= i < |needs| ensures i in Granted(needs, free) {
          assert i < n ==> i in Granted(before, free);
        }
        assert AllGranted(needs, free);
      }
    }
  }

  // ---- requests with others in between ----

  /** What others leave who take so many blocks, or all there are. */
  function LeftBy(free: nat, taken: nat): nat {
    if taken <= free then free - taken else 0
  }

  /** The same when other tables take blocks before each request. */
  function LeftAmid(needs: seq<nat>, free: nat, others: seq<nat>): nat
    requires |others| == |needs|
  {
    if needs == [] then free
    else
      var n := |needs| - 1;
      var room := LeftBy(LeftAmid(needs[..n], free, others[..n]), others[n]);
      if needs[n] <= room then room - needs[n] else room
  }

  function GrantedAmid(needs: seq<nat>, free: nat, others: seq<nat>): set<nat>
    requires |others| == |needs|
  {
    if needs == [] then {}
    else
      var n := |needs| - 1;
      var room := LeftBy(LeftAmid(needs[..n], free, others[..n]), others[n]);
      GrantedAmid(needs[..n], free, others[..n]) + if needs[n] <= room then {n} else {}
  }

  ghost predicate AllGrantedAmid(needs: seq<nat>, free: nat, others: seq<nat>)
    requires |others| == |needs|
  {
    forall i :: 0 <= i < |needs| ==> i in GrantedAmid(needs, free, others)
  }

  function Nobody(n: nat): seq<nat> {
    seq(n, _ => 0)
  }

  lemma {:induction false} NobodyAmid(needs: seq<nat>, free: nat)
    ensures LeftAmid(needs, free, Nobody(|needs|)) == BlocksLeft(needs, free)
    ensures GrantedAmid(needs, free, Nobody(|needs|)) == Granted(needs, free)
  {
    if needs != [] {
      NobodyAmid(needs[..|needs| - 1], free);
      assert Nobody(|needs|)[..|needs| - 1] == Nobody(|needs| - 1);
    }
  }

  lemma OneMoreAmid(needs: seq<nat>, i: nat, free: nat, others: seq<nat>)
    requires i < |needs| == |others|
    ensures var room := LeftBy(LeftAmid(needs[..i], free, others[..i]), others[i]);
            && LeftAmid(needs[..i + 1], free, others[..i + 1]) == (if needs[i] <= room then room - needs[i] else room)
            && GrantedAmid(needs[..i + 1], free, others[..i + 1]) ==
               GrantedAmid(needs[..i], free, others[..i]) + (if needs[i] <= room then {i} else {})
  {
    assert needs[..i + 1][..i] == needs[..i] && others[..i + 1][..i] == others[..i];
  }

  /** All are granted when there are blocks for them and for the others, and when nothing is asked for. */
  lemma {:induction false} EnoughForAll(needs: seq<nat>, free: nat, others: seq<nat>)
    requires |others| == |needs| && (Sum(needs) == 0 || Sum(needs) + Sum(others) <= free)
    ensures AllGrantedAmid(needs, free, others)
    ensures Sum(needs) + Sum(others) <= free ==> LeftAmid(needs, free, others) == free - Sum(needs) - Sum(others)
  {
    if needs != [] {
      var n := |needs| - 1;
      EnoughForAll(needs[..n], free, others[..n]);
      forall i | 0 <= i < |needs| ensures i in GrantedAmid(needs, free, others) {
        assert i < n ==> i in GrantedAmid(needs[..n], free, others[..n]);
      }
    }
  }

  /** Others who take the blocks just before a request that needs some make it fail, if not one before it. */
  lemma LastIsRefused(needs: seq<nat>, free: nat, budget: nat)
    requires needs != [] && needs[|needs| - 1] > 0 && Sum(needs) + budget > free
    ensures !AllGrantedAmid(needs, free, Nobody(|needs| - 1) + [budget])
  {
    var n := |needs| - 1;
    var before, others := needs[..n], Nobody(n) + [budget];
    assert others[..n] == Nobody(n);
    NobodyAmid(before, free);
    AllGrantedIff(before, free);
    GrantedBelow(before, free);
    if AllGranted(before, free) {
      assert n !in GrantedAmid(needs, free, others);
    } else {
      var i :| 0 <= i < n && i !in Granted(before, free);
      assert i !in GrantedAmid(needs, free, others);
    }
  }

  lemma LaterIsNoHelp(needs: seq<nat>, free: nat, others: seq<nat>)
    requires needs != [] && |others| == |needs| - 1 && !AllGrantedAmid(needs[..|needs| - 1], free, others)
    ensures !AllGrantedAmid(needs, free, others + [0])
  {
    var n := |needs| - 1;
    var i :| 0 <= i < n && i !in GrantedAmid(needs[..n], free, others);
    assert (others + [0])[..n] == others;
    assert i !in GrantedAmid(needs, free, others + [0]);
  }

  lemma {:induction false} OthersInterfere(needs: seq<nat>, free: nat, budget: nat) returns (others: seq<nat>)
    requires Sum(needs) > 0 && Sum(needs) + budget > free
    ensures |others| == |needs| && Sum(others) == budget && !AllGrantedAmid(needs, free, others)
  {
    var n := |needs| - 1;
    if needs[n] == 0 {
      var before := OthersInterfere(needs[..n], free, budget);
      LaterIsNoHelp(needs, free, before);
      others := before + [0];
      assert others[..n] == before;
    } else {
      LastIsRefused(needs, free, budget);
      NobodySums(n);
      others := Nobody(n) + [budget];
      assert others[..n] == Nobody(n);
    }
  }

  lemma {:induction false} NobodySums(n: nat)
    ensures Sum(Nobody(n)) == 0
  {
    if n > 0 {
      NobodySums(n - 1);
      assert Nobody(n)[..n - 1] == Nobody(n - 1);
    }
  }

  /** All is granted however others take up to `budget` blocks meanwhile, exactly when nothing is needed or all fits. */
  lemma AllGrantedAmidIff(needs: seq<nat>, free: nat, budget: nat)
    ensures (forall others: seq<nat> :: |others| == |needs| && Sum(others) <= budget ==>
               AllGrantedAmid(needs, free, others))
            <==> Sum(needs) == 0 || Sum(needs) + budget <= free
  {
    if Sum(needs) == 0 || Sum(needs) + budget <= free {
      forall others: seq<nat> | |others| == |needs| && Sum(others) <= budget
        ensures AllGrantedAmid(needs, free, others)
      {
        EnoughForAll(needs, free, others);
      }
    } else {
      var others := OthersInterfere(needs, free, budget);
    }
  }

  // ---- what a dump needs ----

  /** A dump's file has a block from the start, even before anything is written. */
  function DumpCost(rs: seq<Record>, blockSize: nat): nat
    requires blockSize > 0
  {
    1 + Growth(BlocksFor(|Render(rs)|, blockSize), 1)
  }

  /** The blocks that a dump takes, by how it ends. */
  function Taken(rs: seq<Record>, outcome: Outcome, blockSize: nat): nat
    requires blockSize > 0
  {
    match outcome
    case NoBlock => 0
    case NoSpace => 1
    case Stored => DumpCost(rs, blockSize)
  }

  /** The blocks that all the tables of a memtable need together. */
  ghost function Demand(memtable: map<string, seq<Record>>, blockSize: nat): nat
    requires blockSize > 0
    decreases memtable.Keys
  {
    if memtable == map[] then 0
    else
      var t :| t in memtable;
      DumpCost(memtable[t], blockSize) + Demand(memtable - {t}, blockSize)
  }

  lemma {:induction false} DemandOf(memtable: map<string, seq<Record>>, blockSize: nat, t: string)
    requires blockSize > 0 && t in memtable
    ensures Demand(memtable, blockSize) == DumpCost(memtable[t], blockSize) + Demand(memtable - {t}, blockSize)
    decreases memtable.Keys
  {
    var u :| u in memtable
             && Demand(memtable, blockSize) == DumpCost(memtable[u], blockSize) + Demand(memtable - {u}, blockSize);
    if u != t {
      DemandOf(memtable - {u}, blockSize, t);
      DemandOf(memtable - {t}, blockSize, u);
      assert memtable - {u} - {t} == memtable - {t} - {u};
    }
  }
}
