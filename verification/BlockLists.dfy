/**
 Lists of disk blocks: `Flat` is what they hold, one after the other; `AsSet` forgets their order, and `Distinct` says
 that this loses nothing.  `BlocksFor` is how many a length needs, and `Growth` how many of them a file lacks.
 */
module BlockLists {
  import opened Basics

  // ---- contents of a list of blocks ----

  ghost predicate AllBelow(blocks: seq<nat>, n: nat) {
    forall i :: 0 <= i < |blocks| ==> blocks[i] < n
  }

  function Flat(blocks: seq<nat>, disk: seq<Text>): Text
    requires AllBelow(blocks, |disk|)
  {
    if blocks == [] then [] else Flat(blocks[..|blocks| - 1], disk) + disk[blocks[|blocks| - 1]]
  }

  ghost predicate Formatted(disk: seq<Text>, blockSize: nat) {
    forall b :: 0 <= b < |disk| ==> |disk[b]| == blockSize
  }

  lemma {:induction false} FlatLength(blocks: seq<nat>, disk: seq<Text>, blockSize: nat)
    requires Formatted(disk, blockSize) && AllBelow(blocks, |disk|)
    ensures |Flat(blocks, disk)| == Offset(|blocks|, blockSize)
  {
    if blocks != [] {
      FlatLength(blocks[..|blocks| - 1], disk, blockSize);
    }
  }

  lemma {:induction false} FlatFrame(blocks: seq<nat>, disk: seq<Text>, disk': seq<Text>)
    requires |disk| == |disk'| && AllBelow(blocks, |disk|)
    requires forall i :: 0 <= i < |blocks| ==> disk[blocks[i]] == disk'[blocks[i]]
    ensures Flat(blocks, disk) == Flat(blocks, disk')
  {
    if blocks != [] {
      FlatFrame(blocks[..|blocks| - 1], disk, disk');
    }
  }

  lemma {:induction false} FlatPrefix(blocks: seq<nat>, disk: seq<Text>, n: nat)
    requires n <= |blocks| && AllBelow(blocks, |disk|)
    ensures Flat(blocks[..n], disk) <= Flat(blocks, disk)
    decreases |blocks|
  {
    if n < |blocks| {
      var m := |blocks| - 1;
      FlatPrefix(blocks[..m], disk, n);
      assert blocks[..m][..n] == blocks[..n];
    } else {
      assert blocks[..n] == blocks;
    }
  }

  /** The fewest blocks that hold `len` bytes: one more for every block's worth, even an incomplete one. */
  function BlocksFor(len: nat, blockSize: nat): nat
    requires blockSize > 0
  {
    if len == 0 then 0
    else if len <= blockSize then 1
    else 1 + BlocksFor(len - blockSize, blockSize)
  }

  /** The blocks that a file with `owned` of them lacks to have `total`. */
  function Growth(total: nat, owned: nat): nat {
    if total <= owned then 0 else total - owned
  }

  /** Where the i-th block of a buffer starts. */
  ghost function Offset(i: nat, blockSize: nat): nat {
    if i == 0 then 0 else Offset(i - 1, blockSize) + blockSize
  }

  lemma {:induction false} OffsetIsProduct(i: nat, blockSize: nat)
    ensures Offset(i, blockSize) == i * blockSize
  {
    if i > 0 {
      OffsetIsProduct(i - 1, blockSize);
      assert i * blockSize == (i - 1) * blockSize + blockSize;
    }
  }

  lemma {:induction false} BlocksForOffset(whole: nat, rest: nat, blockSize: nat)
    requires rest < blockSize
    ensures BlocksFor(Offset(whole, blockSize) + rest, blockSize) == whole + if rest > 0 then 1 else 0
    ensures Offset(whole, blockSize) + rest <= Offset(whole + if rest > 0 then 1 else 0, blockSize)
  {
    if whole > 0 {
      BlocksForOffset(whole - 1, rest, blockSize);
    }
  }

  /** So many bytes fit in n blocks exactly when n is at least what they need. */
  lemma {:induction false} FewestBlocks(len: nat, blockSize: nat, n: nat)
    requires blockSize > 0
    ensures len <= n * blockSize <==> BlocksFor(len, blockSize) <= n
    decreases n
  {
    if n > 0 {
      assert n * blockSize == (n - 1) * blockSize + blockSize;
      if len > blockSize {
        FewestBlocks(len - blockSize, blockSize, n - 1);
      }
    }
  }

  /** A number of whole blocks and a remainder, as the quotients of the program compute them. */
  method DivideLength(len: nat, blockSize: nat) returns (whole: nat, rest: nat)
    requires blockSize > 0
    ensures len == Offset(whole, blockSize) + rest && rest < blockSize
    ensures BlocksFor(len, blockSize) == whole + if rest > 0 then 1 else 0
  {
    whole, rest := len / blockSize, len % blockSize;
    assert len == whole * blockSize + rest;
    OffsetIsProduct(whole, blockSize);
    BlocksForOffset(whole, rest, blockSize);
  }

  // ---- sets and lists of blocks ----

  ghost function AsSet(blocks: seq<nat>): set<nat> {
    set b | b in blocks
  }

  lemma AsSetAppend(blocks: seq<nat>, b: nat)
    ensures AsSet(blocks + [b]) == AsSet(blocks) + {b}
  {
  }

  lemma AsSetStep(blocks: seq<nat>, i: nat)
    requires i < |blocks|
    ensures AsSet(blocks[..i + 1]) == AsSet(blocks[..i]) + {blocks[i]} && blocks[i] in AsSet(blocks)
  {
  }

  /** No block is listed twice: the set is as large as the list is long. */
  ghost predicate Distinct(blocks: seq<nat>) {
    |AsSet(blocks)| == |blocks|
  }

  lemma {:induction false} AsSetSize(blocks: seq<nat>)
    ensures |AsSet(blocks)| <= |blocks|
  {
    if blocks != [] {
      AsSetSize(blocks[..|blocks| - 1]);
      AsSetStep(blocks, |blocks| - 1);
      assert blocks[..|blocks|] == blocks;
    }
  }

  lemma {:induction false} DistinctPrefix(blocks: seq<nat>, n: nat)
    requires Distinct(blocks) && n < |blocks|
    ensures Distinct(blocks[..n]) && blocks[n] !in AsSet(blocks[..n])
    decreases |blocks|
  {
    var m := |blocks| - 1;
    AsSetSize(blocks[..m]);
    AsSetStep(blocks, m);
    assert blocks[..m + 1] == blocks;
    if n < m {
      DistinctPrefix(blocks[..m], n);
      assert blocks[..m][..n] == blocks[..n];
    }
  }

  lemma DistinctIndices(blocks: seq<nat>, i: nat, j: nat)
    requires Distinct(blocks) && i < j < |blocks|
    ensures blocks[i] != blocks[j]
  {
    DistinctPrefix(blocks, j);
    assert blocks[..j][i] == blocks[i];
  }

  lemma AsSetConcat(a: seq<nat>, b: seq<nat>)
    ensures AsSet(a + b) == AsSet(a) + AsSet(b)
  {
  }

  lemma DistinctConcat(a: seq<nat>, b: seq<nat>)
    requires Distinct(a) && Distinct(b) && AsSet(a) !! AsSet(b)
    ensures Distinct(a + b)
  {
    AsSetConcat(a, b);
  }

  ghost function Upto(n: nat): (s: set<nat>)
    ensures |s| == n && forall b: nat :: b in s <==> b < n
  {
    if n == 0 then {} else Upto(n - 1) + {n - 1}
  }
}
