/**
 The page frames of the cache: fixed-size records packed one after the other into one byte buffer.
 A frame is a timestamp, a key and a value that is NUL-terminated only when shorter than the maximum.
 */
module Frames {
  import opened Basics
  import opened BlockLists

  const TIMESTAMP_BYTES := 8
  const KEY_BYTES := 2
  const HEADER_BYTES := TIMESTAMP_BYTES + KEY_BYTES

  datatype Frame = Frame(timestamp: uint64, key: uint16, value: Text)

  /** A C string: no NUL inside. */
  predicate IsString(value: Text) {
    0 !in value
  }

  // ---- layout of one frame ----

  /** The n low bytes of x, least significant first. */
  function LittleEndian(x: nat, n: nat): (t: Text)
    ensures |t| == n
  {
    if n == 0 then [] else [x % 0x100] + LittleEndian(x / 0x100, n - 1)
  }

  function FromLittleEndian(t: Text): nat {
    if t == [] then 0 else t[0] + 0x100 * FromLittleEndian(t[1..])
  }

  /** `snprintf` into a buffer of n + 1 bytes. */
  function Cut(value: Text, n: nat): Text {
    if |value| <= n then value else value[..n]
  }

  /** `strncpy`: the string cut at n bytes, filled up with NULs. */
  function Padded(value: Text, n: nat): (t: Text)
    ensures |t| == n
  {
    if n <= |value| then value[..n] else value + seq(n - |value|, _ => 0)
  }

  /** `strncat` into an empty string: the bytes before the first NUL, or all of them. */
  function Unpadded(t: Text): Text {
    if t == [] || t[0] == 0 then [] else [t[0]] + Unpadded(t[1..])
  }

  function Encode(f: Frame, maxValueLength: nat): (t: Text)
    ensures |t| == HEADER_BYTES + maxValueLength
  {
    LittleEndian(f.timestamp, TIMESTAMP_BYTES) + LittleEndian(f.key, KEY_BYTES) + Padded(f.value, maxValueLength)
  }

  function Power256(n: nat): nat {
    if n == 0 then 1 else 0x100 * Power256(n - 1)
  }

  lemma {:induction false} FromLittleEndianBound(t: Text)
    ensures FromLittleEndian(t) < Power256(|t|)
  {
    if t != [] {
      FromLittleEndianBound(t[1..]);
    }
  }

  function Decode(t: Text): Frame
    requires |t| >= HEADER_BYTES
  {
    FromLittleEndianBound(t[..TIMESTAMP_BYTES]);
    FromLittleEndianBound(t[TIMESTAMP_BYTES..HEADER_BYTES]);
    assert Power256(8) == 0x1_0000_0000_0000_0000;
    Frame(FromLittleEndian(t[..TIMESTAMP_BYTES]), FromLittleEndian(t[TIMESTAMP_BYTES..HEADER_BYTES]),
          Unpadded(t[HEADER_BYTES..]))
  }

  lemma {:induction false} LittleEndianRoundTrip(x: nat, n: nat)
    requires x < Power256(n)
    ensures FromLittleEndian(LittleEndian(x, n)) == x
  {
    if n > 0 {
      LittleEndianRoundTrip(x / 0x100, n - 1);
      assert LittleEndian(x, n)[1..] == LittleEndian(x / 0x100, n - 1);
    }
  }

  lemma {:induction false} UnpaddedString(value: Text, zeros: Text)
    requires IsString(value) && forall i :: 0 <= i < |zeros| ==> zeros[i] == 0
    ensures Unpadded(value + zeros) == value
  {
    if value == [] {
      assert value + zeros == zeros;
    } else {
      assert (value + zeros)[1..] == value[1..] + zeros;
      UnpaddedString(value[1..], zeros);
    }
  }

  lemma {:induction false} UnpaddedIsString(t: Text)
    ensures IsString(Unpadded(t)) && |Unpadded(t)| <= |t|
  {
    if t != [] {
      UnpaddedIsString(t[1..]);
    }
  }

  lemma PaddedRoundTrip(value: Text, n: nat)
    requires IsString(value) && |value| <= n
    ensures Unpadded(Padded(value, n)) == value
  {
    if |value| < n {
      UnpaddedString(value, seq(n - |value|, _ => 0));
    } else {
      UnpaddedString(value, []);
      assert value + [] == value == value[..n];
    }
  }

  /** A frame is read back as it was written exactly when its value is a string that fits, terminator or not. */
  lemma FrameRoundTrip(f: Frame, maxValueLength: nat)
    ensures Decode(Encode(f, maxValueLength)) == f <==> IsString(f.value) && |f.value| <= maxValueLength
  {
    var t := Encode(f, maxValueLength);
    var padded := Padded(f.value, maxValueLength);
    assert t[..TIMESTAMP_BYTES] == LittleEndian(f.timestamp, TIMESTAMP_BYTES);
    assert t[TIMESTAMP_BYTES..HEADER_BYTES] == LittleEndian(f.key, KEY_BYTES);
    assert t[HEADER_BYTES..] == padded;
    assert Power256(8) == 0x1_0000_0000_0000_0000 && Power256(2) == 0x1_0000;
    LittleEndianRoundTrip(f.timestamp, TIMESTAMP_BYTES);
    LittleEndianRoundTrip(f.key, KEY_BYTES);
    UnpaddedIsString(padded);
    if IsString(f.value) && |f.value| <= maxValueLength {
      PaddedRoundTrip(f.value, maxValueLength);
    }
  }

  // ---- many frames in one buffer ----

  /** Frames do not overlap, and those that were counted fit in the buffer. */
  lemma {:induction false} FramesAreApart(i: nat, j: nat, frameSize: nat)
    requires i < j
    ensures Offset(i, frameSize) + frameSize <= Offset(j, frameSize)
  {
    if i + 1 < j {
      FramesAreApart(i, j - 1, frameSize);
    }
  }

  /** `TAM_MEM / FrameSize` frames fit, and one more would not. */
  lemma FramesFit(bytes: nat, frameSize: nat)
    requires frameSize > 0
    ensures Offset(bytes / frameSize, frameSize) <= bytes < Offset(bytes / frameSize + 1, frameSize)
  {
    OffsetIsProduct(bytes / frameSize, frameSize);
  }

  /** Frame f of a buffer holds these bytes. */
  ghost predicate IsAt(buffer: Text, f: nat, frameSize: nat, bytes: Text) {
    |bytes| == frameSize && Offset(f, frameSize) + frameSize <= |buffer|
    && buffer[Offset(f, frameSize)..Offset(f, frameSize) + frameSize] == bytes
  }

  function Overwritten(buffer: Text, start: nat, bytes: Text): (after: Text)
    requires start + |bytes| <= |buffer|
    ensures |after| == |buffer|
  {
    buffer[..start] + bytes + buffer[start + |bytes|..]
  }

  /** Writing one frame leaves the others alone. */
  lemma OverwrittenFrame(buffer: Text, f: nat, frameSize: nat, bytes: Text, g: nat, other: Text)
    requires Offset(f, frameSize) + frameSize <= |buffer| && |bytes| == frameSize
    requires g != f ==> IsAt(buffer, g, frameSize, other)
    ensures IsAt(Overwritten(buffer, Offset(f, frameSize), bytes), g, frameSize, if g == f then bytes else other)
  {
    if g < f {
      FramesAreApart(g, f, frameSize);
    } else if f < g {
      FramesAreApart(f, g, frameSize);
    }
  }

  ghost predicate AllAt(buffer: Text, frames: seq<Text>, frameSize: nat) {
    forall f {:trigger frames[f]} :: 0 <= f < |frames| ==> IsAt(buffer, f, frameSize, frames[f])
  }

  lemma OverwrittenFrames(buffer: Text, frames: seq<Text>, frameSize: nat, f: nat, bytes: Text)
    requires AllAt(buffer, frames, frameSize) && f < |frames| && |bytes| == frameSize
    ensures Offset(f, frameSize) + frameSize <= |buffer|
    ensures AllAt(Overwritten(buffer, Offset(f, frameSize), bytes), frames[f := bytes], frameSize)
  {
    assert IsAt(buffer, f, frameSize, frames[f]);
    forall g | 0 <= g < |frames| {
      OverwrittenFrame(buffer, f, frameSize, bytes, g, frames[g]);
    }
  }

  class FrameStore {
    const maxValueLength: nat
    const numFrames: nat
    const buffer: array<byte>
    /** The bytes of each frame. */
    ghost var frames: seq<Text>

    function FrameSize(): nat {
      HEADER_BYTES + maxValueLength
    }

    ghost predicate Valid()
      reads this, buffer
    {
      && |frames| == numFrames && Offset(numFrames, FrameSize()) <= buffer.Length
      && AllAt(buffer[..], frames, FrameSize())
    }

    constructor (bytes: nat, maxValueLength: nat)
      ensures Valid() && fresh(buffer)
      ensures this.maxValueLength == maxValueLength && numFrames == bytes / (HEADER_BYTES + maxValueLength)
    {
      this.maxValueLength := maxValueLength;
      var frameSize := HEADER_BYTES + maxValueLength;
      numFrames := bytes / frameSize;
      buffer := new byte[bytes](_ => 0);
      frames := seq(bytes / frameSize, _ => seq(frameSize, _ => 0));
      new;
      FramesFit(bytes, FrameSize());
      forall f | 0 <= f < numFrames ensures IsAt(buffer[..], f, FrameSize(), frames[f]) {
        FramesAreApart(f, numFrames, FrameSize());
      }
    }

    /** A frame starts at its number times the frame size, inside the buffer. */
    method Start(f: nat) returns (start: nat)
      requires Valid() && f < numFrames
      ensures start == Offset(f, FrameSize()) && start + FrameSize() <= buffer.Length
    {
      FramesAreApart(f, numFrames, FrameSize());
      OffsetIsProduct(f, FrameSize());
      start := f * FrameSize();
    }

    /** `Memory_Read`. */
    method Read(f: nat) returns (frame: Frame)
      requires Valid() && f < numFrames
      ensures |frames[f]| >= HEADER_BYTES && frame == Decode(frames[f])
    {
      assert IsAt(buffer[..], f, FrameSize(), frames[f]);
      var start := Start(f);
      frame := Decode(buffer[start..start + FrameSize()]);
    }

    method CopyBytes(start: nat, bytes: Text)
      requires start + |bytes| <= buffer.Length
      modifies buffer
      ensures buffer[..] == Overwritten(old(buffer[..]), start, bytes)
    {
      for i := 0 to |bytes|
        invariant forall j :: 0 <= j < buffer.Length ==>
                    buffer[j] == if start <= j < start + i then bytes[j - start] else old(buffer[j])
      {
        buffer[start + i] := bytes[i];
      }
    }

    /** Assigns the fields of a frame; every other frame keeps its bytes. */
    method Write(f: nat, frame: Frame)
      requires Valid() && f < numFrames
      modifies this`frames, buffer
      ensures Valid() && frames == old(frames)[f := Encode(frame, maxValueLength)]
    {
      var bytes := Encode(frame, maxValueLength);
      var start := Start(f);
      OverwrittenFrames(buffer[..], frames, FrameSize(), f, bytes);
      CopyBytes(start, bytes);
      frames := frames[f := bytes];
    }
  }
}
