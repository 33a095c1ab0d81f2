/**
 Bit maps packed eight to a byte, in either bit order.  A bit operation reads and writes a
 whole byte, so what has to be proved is that the seven neighbours survive it.
 */
module Bitarrays {

  datatype Numbering = LsbFirst | MsbFirst

  /** The byte with only the given bit set. */
  function BitInChar(bit: nat, mode: Numbering): bv8 {
    match mode
    case MsbFirst => 0x80 >> (bit % 8)
    case LsbFirst => 0x01 << (bit % 8)
  }

  /** Place of a bit in its byte, counted from the least significant end. */
  function Place(bit: nat, mode: Numbering): (n: nat)
    ensures n < 8
  {
    if mode.LsbFirst? then bit % 8 else 7 - bit % 8
  }

  /** The n-th power of two. */
  function Mask(n: nat): bv8 {
    if n == 0 then 0x01 else Mask(n - 1) << 1
  }

  lemma {:induction false} MaskTable()
    ensures Mask(0) == 0x01 && Mask(1) == 0x02 && Mask(2) == 0x04 && Mask(3) == 0x08
    ensures Mask(4) == 0x10 && Mask(5) == 0x20 && Mask(6) == 0x40 && Mask(7) == 0x80
  {
  }

  /** A byte has a bit of a mask. */
  predicate Has(b: bv8, mask: bv8) {
    b & mask != 0
  }

  predicate BitOf(b: bv8, n: nat)
    requires n < 8
  {
    Has(b, Mask(n))
  }

  function AllClean(n: nat): seq<bool> {
    seq(n, _ => false)
  }

  /** The shifted byte is the power of two at the bit's place. */
  lemma {:induction false} BitInCharIsMask(bit: nat, mode: Numbering)
    ensures BitInChar(bit, mode) == Mask(Place(bit, mode))
    ensures BitInChar(bit, LsbFirst) == Mask(bit % 8) && BitInChar(bit, MsbFirst) == Mask(7 - bit % 8)
  {
    MaskTable();
    var m := bit % 8;
    if m == 0 {} else if m == 1 {} else if m == 2 {} else if m == 3 {}
    else if m == 4 {} else if m == 5 {} else if m == 6 {} else {}
  }

  /** Setting or cleaning the bits of one mask leaves those of a disjoint mask alone. */
  lemma MaskKeeps(b: bv8, m: bv8, n: bv8)
    requires m != 0
    requires m & n == 0 || m == n
    ensures ((b | m) & n != 0) == (m == n || b & n != 0)
    ensures ((b & !m) & n != 0) == (m != n && b & n != 0)
  {
    if m != n {
      assert (b | m) & n == (b & n) | (m & n);
      assert (b & !m) & n == (b & n) & !(m & n);
    }
  }

  lemma {:induction false} MasksAreDisjoint(m: nat, n: nat)
    requires m < 8 && n < 8
    ensures Mask(m) != 0
    ensures m != n ==> Mask(m) & Mask(n) == 0 && Mask(m) != Mask(n)
  {
    MaskTable();
    if m == 0 {} else if m == 1 {} else if m == 2 {} else if m == 3 {}
    else if m == 4 {} else if m == 5 {} else if m == 6 {} else {}
  }

  lemma HasKeeps(b: bv8, m: bv8, n: bv8)
    requires m != 0 && (m & n == 0 || m == n)
    ensures Has(b | m, n) == (m == n || Has(b, n)) && Has(b & !m, n) == (m != n && Has(b, n))
  {
    MaskKeeps(b, m, n);
  }

  /** Setting one bit of a byte leaves the other bits of the byte alone. */
  lemma {:induction false} ByteSet(b: bv8, m: nat, n: nat)
    requires m < 8 && n < 8
    ensures BitOf(b | Mask(m), n) == (m == n || BitOf(b, n))
  {
    var x, y := Mask(m), Mask(n);
    assert x != 0 && (x & y == 0 || x == y) && (m == n <==> x == y) by { MasksAreDisjoint(m, n); }
    HasKeeps(b, x, y);
  }

  lemma {:induction false} ByteClean(b: bv8, m: nat, n: nat)
    requires m < 8 && n < 8
    ensures BitOf(b & !Mask(m), n) == (m != n && BitOf(b, n))
  {
    var x, y := Mask(m), Mask(n);
    assert x != 0 && (x & y == 0 || x == y) && (m == n <==> x == y) by { MasksAreDisjoint(m, n); }
    HasKeeps(b, x, y);
  }

  // ---- a run of bytes as a run of bits ----

  ghost function ByteBits(b: bv8, mode: Numbering): (bits: seq<bool>)
    ensures |bits| == 8
  {
    seq(8, n requires 0 <= n < 8 => BitOf(b, Place(n, mode)))
  }

  ghost function Unpack(bytes: seq<bv8>, mode: Numbering): seq<bool> {
    if bytes == [] then [] else Unpack(bytes[..|bytes| - 1], mode) + ByteBits(bytes[|bytes| - 1], mode)
  }

  lemma {:induction false} UnpackAt(bytes: seq<bv8>, mode: Numbering)
    ensures |Unpack(bytes, mode)| == 8 * |bytes|
    ensures forall i {:trigger Unpack(bytes, mode)[i]} :: 0 <= i < 8 * |bytes| ==>
              Unpack(bytes, mode)[i] == BitOf(bytes[i / 8], Place(i, mode))
  {
    if bytes != [] {
      var n := |bytes| - 1;
      UnpackAt(bytes[..n], mode);
      forall i | 0 <= i < 8 * |bytes|
        ensures Unpack(bytes, mode)[i] == BitOf(bytes[i / 8], Place(i, mode))
      {
        if i >= 8 * n {
          assert i / 8 == n && Place(i - 8 * n, mode) == Place(i, mode);
        }
      }
    }
  }

  /** Writing one byte changes one bit when it changes one bit of the byte. */
  lemma UnpackUpdate(bytes: seq<bv8>, mode: Numbering, index: nat, b: bv8, on: bool)
    requires index < 8 * |bytes|
    requires forall j {:trigger Place(j, mode)} :: 0 <= j && j / 8 == index / 8 ==>
               BitOf(b, Place(j, mode)) == if j == index then on else BitOf(bytes[index / 8], Place(j, mode))
    ensures |Unpack(bytes, mode)| == 8 * |bytes|
    ensures Unpack(bytes[index / 8 := b], mode) == Unpack(bytes, mode)[index := on]
  {
    var bytes' := bytes[index / 8 := b];
    UnpackAt(bytes, mode);
    UnpackAt(bytes', mode);
    forall j | 0 <= j < 8 * |bytes| ensures Unpack(bytes', mode)[j] == Unpack(bytes, mode)[index := on][j] {
    }
  }

  /** Within a byte, different bits have different places. */
  lemma PlacesApart(i: nat, j: nat, mode: Numbering)
    requires i / 8 == j / 8
    ensures Place(i, mode) == Place(j, mode) <==> i == j
  {
    assert i == 8 * (i / 8) + i % 8 && j == 8 * (j / 8) + j % 8;
  }

  lemma {:induction false} SetKeepsBit(b: bv8, index: nat, j: nat, mode: Numbering)
    requires j / 8 == index / 8
    ensures BitOf(b | Mask(Place(index, mode)), Place(j, mode)) == if j == index then true else BitOf(b, Place(j, mode))
  {
    PlacesApart(index, j, mode);
    ByteSet(b, Place(index, mode), Place(j, mode));
  }

  lemma SetKeeps(b: bv8, index: nat, mode: Numbering)
    ensures forall j {:trigger Place(j, mode)} :: 0 <= j && j / 8 == index / 8 ==>
              BitOf(b | Mask(Place(index, mode)), Place(j, mode)) ==
              if j == index then true else BitOf(b, Place(j, mode))
  {
    forall j | 0 <= j && j / 8 == index / 8 {
      SetKeepsBit(b, index, j, mode);
    }
  }

  lemma {:induction false} CleanKeepsBit(b: bv8, index: nat, j: nat, mode: Numbering)
    requires j / 8 == index / 8
    ensures BitOf(b & !Mask(Place(index, mode)), Place(j, mode)) ==
            if j == index then false else BitOf(b, Place(j, mode))
  {
    PlacesApart(index, j, mode);
    ByteClean(b, Place(index, mode), Place(j, mode));
  }

  lemma CleanKeeps(b: bv8, index: nat, mode: Numbering)
    ensures forall j {:trigger Place(j, mode)} :: 0 <= j && j / 8 == index / 8 ==>
              BitOf(b & !Mask(Place(index, mode)), Place(j, mode)) ==
              if j == index then false else BitOf(b, Place(j, mode))
  {
    forall j | 0 <= j && j / 8 == index / 8 {
      CleanKeepsBit(b, index, j, mode);
    }
  }

  lemma SetOne(bytes: seq<bv8>, mode: Numbering, index: nat)
    requires index < 8 * |bytes|
    ensures |Unpack(bytes, mode)| == 8 * |bytes|
    ensures var c := index / 8;
            Unpack(bytes[c := bytes[c] | Mask(Place(index, mode))], mode) == Unpack(bytes, mode)[index := true]
  {
    SetKeeps(bytes[index / 8], index, mode);
    UnpackUpdate(bytes, mode, index, bytes[index / 8] | Mask(Place(index, mode)), true);
  }

  lemma CleanOne(bytes: seq<bv8>, mode: Numbering, index: nat)
    requires index < 8 * |bytes|
    ensures |Unpack(bytes, mode)| == 8 * |bytes|
    ensures var c := index / 8;
            Unpack(bytes[c := bytes[c] & !Mask(Place(index, mode))], mode) == Unpack(bytes, mode)[index := false]
  {
    CleanKeeps(bytes[index / 8], index, mode);
    UnpackUpdate(bytes, mode, index, bytes[index / 8] & !Mask(Place(index, mode)), false);
  }

  lemma UnpackZeros(bytes: seq<bv8>, mode: Numbering)
    requires forall i :: 0 <= i < |bytes| ==> bytes[i] == 0
    ensures Unpack(bytes, mode) == AllClean(8 * |bytes|)
  {
  }

  class Bitarray {
    const bytes: array<bv8>
    const mode: Numbering
    /** The bits the bytes stand for. */
    ghost var bits: seq<bool>

    ghost predicate Valid()
      reads this, bytes
    {
      |bits| == 8 * bytes.Length && bits == Unpack(bytes[..], mode)
    }

    constructor (size: nat, mode: Numbering)
      ensures Valid() && fresh(bytes) && bytes.Length == size && this.mode == mode
      ensures bits == AllClean(8 * size)
    {
      bytes := new bv8[size](_ => 0);
      this.mode := mode;
      bits := AllClean(8 * size);
      new;
      UnpackZeros(bytes[..], mode);
    }

    method MaskFor(index: nat) returns (mask: bv8)
      ensures mask == Mask(Place(index, mode))
    {
      BitInCharIsMask(index, mode);
      mask := BitInChar(index, mode);
    }

    method TestBit(index: nat) returns (on: bool)
      requires Valid() && index < |bits|
      ensures on == bits[index]
    {
      var mask := MaskFor(index);
      UnpackAt(bytes[..], mode);
      on := bytes[index / 8] & mask != 0;
    }

    method SetBit(index: nat)
      requires Valid() && index < |bits|
      modifies this`bits, bytes
      ensures Valid() && bits == old(bits)[index := true]
    {
      var mask := MaskFor(index);
      var c := index / 8;
      SetOne(bytes[..], mode, index);
      bytes[c] := bytes[c] | mask;
      bits := bits[index := true];
      assert bytes[..] == old(bytes[..])[c := old(bytes[c]) | mask];
    }

    method CleanBit(index: nat)
      requires Valid() && index < |bits|
      modifies this`bits, bytes
      ensures Valid() && bits == old(bits)[index := false]
    {
      var mask := MaskFor(index);
      var c := index / 8;
      CleanOne(bytes[..], mode, index);
      bytes[c] := bytes[c] & !mask;
      bits := bits[index := false];
      assert bytes[..] == old(bytes[..])[c := old(bytes[c]) & !mask];
    }

    /** `memset` of the whole map to zero. */
    method CleanAll()
      requires Valid()
      modifies this`bits, bytes
      ensures Valid() && bits == AllClean(|old(bits)|)
    {
      for c := 0 to bytes.Length
        modifies bytes
        invariant forall i :: 0 <= i < c ==> bytes[i] == 0
      {
        bytes[c] := 0;
      }
      bits := AllClean(8 * bytes.Length);
      UnpackZeros(bytes[..], mode);
    }
  }
}
