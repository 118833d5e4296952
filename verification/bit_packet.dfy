/** The bit buffer the codec writes into and reads from: an ordered sequence
    of bits. Values are written and read most significant bit first, so a
    value written `w` bits wide reads back as its low `w` bits. The codec
    writes and reads values 5 bits wide (alphabet symbols and checksum
    groups) and 8 bits wide (bytes); padding and the checksum slot are runs
    of zero bits. */
module BitPacket {
  import opened Bitwise

  type Bits = seq<bool>

  /** An 8-bit byte. Java's signed bytes are modelled by their bit pattern. */
  type Byte = b: nat | b < 256

  /** A 5-bit group: one symbol of the alphabet, one step of the checksum. */
  type Group = g: nat | g < 32

  /** The bits `writeBit(x, w)` appends: the low `w` bits of `x`, most
      significant first. */
  function BitsOf(x: nat, w: nat): (r: Bits)
    ensures |r| == w
  {
    if w == 0 then [] else BitsOf(x / 2, w - 1) + [x % 2 == 1]
  }

  /** The value `readInt(|bits|)` returns: the bits as an unsigned number,
      most significant first. */
  function ReadInt(bits: Bits): (r: nat)
    ensures r < Pow2(|bits|)
  {
    if |bits| == 0 then 0
    else 2 * ReadInt(bits[..|bits| - 1]) + (if bits[|bits| - 1] then 1 else 0)
  }

  /** `w` zero bits. */
  function Zeros(w: nat): (r: Bits)
    ensures |r| == w
    ensures forall i :: 0 <= i < w ==> !r[i]
  {
    seq(w, _ => false)
  }

  /** The `n` lowest `w`-bit digits of `x`, most significant first. */
  function Digits(x: nat, n: nat, w: nat): (r: seq<nat>)
    ensures |r| == n
    ensures forall i :: 0 <= i < n ==> r[i] < Pow2(w)
  {
    if n == 0 then [] else Digits(Shr(x, w), n - 1, w) + [x % Pow2(w)]
  }

  /** The low `w` bits of each of `xs`. */
  function LowBits(xs: seq<nat>, w: nat): (r: seq<nat>)
    ensures |r| == |xs|
    ensures forall i :: 0 <= i < |xs| ==> r[i] == xs[i] % Pow2(w)
  {
    if xs == [] then [] else [xs[0] % Pow2(w)] + LowBits(xs[1..], w)
  }

  /** Writing each of `xs` in turn, `w` bits wide. */
  function WriteInts(xs: seq<nat>, w: nat): (r: Bits)
    ensures |r| == w * |xs|
  {
    if xs == [] then [] else BitsOf(xs[0], w) + WriteInts(xs[1..], w)
  }

  /** Reading `w`-bit values while at least `w` bits remain; a shorter
      remainder is discarded. */
  function ReadInts(bits: Bits, w: nat): (r: seq<nat>)
    requires w > 0
    ensures |r| == |bits| / w
    ensures forall i :: 0 <= i < |r| ==> r[i] < Pow2(w)
    decreases |bits|
  {
    DivSub(|bits|, w);
    if |bits| < w then [] else [ReadInt(bits[..w])] + ReadInts(bits[w..], w)
  }

  /** The bits of a sequence of 5-bit groups. */
  function WriteGroups(gs: seq<Group>): (r: Bits)
    ensures |r| == 5 * |gs|
  {
    WriteInts(gs, 5)
  }

  /** A bit sequence read as 5-bit groups; fewer than five leftover bits
      are discarded. */
  function ReadGroups(bits: Bits): (r: seq<Group>)
    ensures |r| == |bits| / 5
  {
    Pow2Values();
    ReadInts(bits, 5)
  }

  /** The bits of a byte sequence, eight per byte. */
  function WriteBytes(bs: seq<Byte>): (r: Bits)
    ensures |r| == 8 * |bs|
  {
    WriteInts(bs, 8)
  }

  /** A bit sequence read as bytes; fewer than eight leftover bits are
      discarded. */
  function ReadBytes(bits: Bits): (r: seq<Byte>)
    ensures |r| == |bits| / 8
  {
    Pow2Values();
    ReadInts(bits, 8)
  }

  /** `Bin.toByte`: the four big-endian bytes of the low 32 bits of `x`. */
  function IntBytes(x: nat): (r: seq<Byte>)
    ensures |r| == 4
  {
    Pow2Values();
    Digits(x, 4, 8)
  }

  /** Reading back what was written gives the value's low bits. */
  lemma {:induction false} ReadBitsOf(x: nat, w: nat)
    ensures ReadInt(BitsOf(x, w)) == x % Pow2(w)
  {
    if w > 0 {
      ReadBitsOf(x / 2, w - 1);
      assert BitsOf(x, w)[..w - 1] == BitsOf(x / 2, w - 1);
      ModStep(x, Pow2(w - 1));
    }
  }

  /** Writing back what was read gives the bits that were read. */
  lemma {:induction false} BitsOfRead(bits: Bits)
    ensures BitsOf(ReadInt(bits), |bits|) == bits
  {
    var w := |bits|;
    if w > 0 {
      BitsOfRead(bits[..w - 1]);
      assert bits == bits[..w - 1] + [bits[w - 1]];
    }
  }

  /** The `a + b` low bits of `x` are its `a` bits above the lowest `b`,
      then its lowest `b`. */
  lemma {:induction false} BitsOfSplit(x: nat, a: nat, b: nat)
    ensures BitsOf(x, a + b) == BitsOf(Shr(x, b), a) + BitsOf(x, b)
    decreases b
  {
    if b > 0 {
      BitsOfSplit(x / 2, a, b - 1);
      assert BitsOf(x, a + b) == BitsOf(x / 2, a + (b - 1)) + [x % 2 == 1];
    }
  }

  /** Only the low `w` bits of `x` are written. */
  lemma {:induction false} BitsOfMod(x: nat, w: nat)
    ensures BitsOf(x % Pow2(w), w) == BitsOf(x, w)
  {
    if w > 0 {
      BitsOfMod(x / 2, w - 1);
      ModStep(x, Pow2(w - 1));
    }
  }

  /** Writing zero writes zero bits. */
  lemma {:induction false} BitsOfZero(w: nat)
    ensures BitsOf(0, w) == Zeros(w)
  {
    if w > 0 {
      BitsOfZero(w - 1);
    }
  }

  lemma {:induction false} WriteIntsAppend(a: seq<nat>, b: seq<nat>, w: nat)
    ensures WriteInts(a + b, w) == WriteInts(a, w) + WriteInts(b, w)
  {
    if a == [] {
      assert a + b == b;
    } else {
      assert (a + b)[1..] == a[1..] + b;
      WriteIntsAppend(a[1..], b, w);
    }
  }

  /** Reading splits at any boundary that is a whole number of values. */
  lemma {:induction false} ReadIntsAppend(a: Bits, b: Bits, w: nat, k: nat)
    requires w > 0 && |a| == w * k
    ensures ReadInts(a + b, w) == ReadInts(a, w) + ReadInts(b, w)
    decreases k
  {
    if k > 0 {
      MulAtLeast(w, k);
      assert |a[w..]| == w * (k - 1);
      assert (a + b)[..w] == a[..w];
      assert (a + b)[w..] == a[w..] + b;
      ReadIntsAppend(a[w..], b, w, k - 1);
      assert ReadInts(a + b, w) == [ReadInt(a[..w])] + ReadInts(a[w..] + b, w);
      assert ReadInts(a, w) == [ReadInt(a[..w])] + ReadInts(a[w..], w);
    } else {
      assert a + b == b;
    }
  }

  /** Reading what was written gives back every value that fits. */
  lemma {:induction false} ReadWriteInts(xs: seq<nat>, w: nat)
    requires w > 0
    requires forall i :: 0 <= i < |xs| ==> xs[i] < Pow2(w)
    ensures ReadInts(WriteInts(xs, w), w) == xs
  {
    if xs != [] {
      var bits := WriteInts(xs, w);
      assert bits == BitsOf(xs[0], w) + WriteInts(xs[1..], w);
      assert bits[..w] == BitsOf(xs[0], w);
      assert bits[w..] == WriteInts(xs[1..], w);
      ReadBitsOf(xs[0], w);
      DivModUnique(xs[0], Pow2(w), 0, xs[0]);
      ReadWriteInts(xs[1..], w);
      assert ReadInts(bits, w) == [xs[0]] + xs[1..];
    }
  }

  /** Writing what was read gives back a stream of whole values. */
  lemma {:induction false} WriteReadInts(bits: Bits, w: nat, k: nat)
    requires w > 0 && |bits| == w * k
    ensures WriteInts(ReadInts(bits, w), w) == bits
    decreases k
  {
    if k > 0 {
      MulAtLeast(w, k);
      var head, rest := bits[..w], bits[w..];
      assert |rest| == w * (k - 1);
      WriteReadStep(bits, w);
      BitsOfRead(head);
      WriteReadInts(rest, w, k - 1);
      assert bits == head + rest;
    }
  }

  /** Reading then writing a stream of at least one value: the first
      value's bits, then the rest read and written. */
  lemma WriteReadStep(bits: Bits, w: nat)
    requires 0 < w <= |bits|
    ensures WriteInts(ReadInts(bits, w), w)
         == BitsOf(ReadInt(bits[..w]), w) + WriteInts(ReadInts(bits[w..], w), w)
  {
    var xs := ReadInts(bits, w);
    assert xs == [ReadInt(bits[..w])] + ReadInts(bits[w..], w);
    assert xs[1..] == ReadInts(bits[w..], w);
  }

  /** Only the low `w` bits of each value are written. */
  lemma {:induction false} WriteIntsLow(xs: seq<nat>, w: nat)
    ensures WriteInts(xs, w) == WriteInts(LowBits(xs, w), w)
  {
    if xs != [] {
      BitsOfMod(xs[0], w);
      WriteIntsLow(xs[1..], w);
    }
  }

  /** Reading what was written gives each value's low `w` bits. */
  lemma ReadWriteIntsLow(xs: seq<nat>, w: nat)
    requires w > 0
    ensures ReadInts(WriteInts(xs, w), w) == LowBits(xs, w)
  {
    WriteIntsLow(xs, w);
    ReadWriteInts(LowBits(xs, w), w);
  }

  /** Zero bits read as zero groups. */
  lemma {:induction false} ReadZeros(n: nat)
    ensures ReadGroups(Zeros(5 * n)) == seq(n, _ => 0)
  {
    if n > 0 {
      var z := Zeros(5 * n);
      assert z[..5] == Zeros(5) && z[5..] == Zeros(5 * (n - 1));
      ReadBitsOf(0, 5);
      BitsOfZero(5);
      ReadZeros(n - 1);
    }
  }

  /** The digits of `x`, written `w` bits wide, are the low `w * n` bits
      of `x`. */
  lemma {:induction false} WriteDigits(x: nat, n: nat, w: nat)
    ensures WriteInts(Digits(x, n, w), w) == BitsOf(x, w * n)
  {
    if n > 0 {
      WriteDigits(Shr(x, w), n - 1, w);
      WriteIntsAppend(Digits(Shr(x, w), n - 1, w), [x % Pow2(w)], w);
      BitsOfMod(x, w);
      assert w * n == w * (n - 1) + w;
      BitsOfSplit(x, w * (n - 1), w);
    }
  }

  /** The low `w * n` bits of `x`, read `w` bits at a time, are its
      digits. */
  lemma ReadDigits(x: nat, n: nat, w: nat)
    requires w > 0
    ensures ReadInts(BitsOf(x, w * n), w) == Digits(x, n, w)
  {
    WriteDigits(x, n, w);
    ReadWriteInts(Digits(x, n, w), w);
  }

  /** Groups written and read back are unchanged. */
  lemma ReadWriteGroups(gs: seq<Group>)
    ensures ReadGroups(WriteGroups(gs)) == gs
  {
    Pow2Values();
    ReadWriteInts(gs, 5);
  }

  /** Bytes written and read back are unchanged. */
  lemma ReadWriteBytes(bs: seq<Byte>)
    ensures ReadBytes(WriteBytes(bs)) == bs
  {
    Pow2Values();
    ReadWriteInts(bs, 8);
  }

  /** A stream of whole groups, read and written back, is unchanged. */
  lemma WriteReadGroups(bits: Bits)
    requires |bits| % 5 == 0
    ensures WriteGroups(ReadGroups(bits)) == bits
  {
    WriteReadInts(bits, 5, |bits| / 5);
  }

  lemma ReadGroupsAppend(a: Bits, b: Bits)
    requires |a| % 5 == 0
    ensures ReadGroups(a + b) == ReadGroups(a) + ReadGroups(b)
  {
    ReadIntsAppend(a, b, 5, |a| / 5);
  }

  lemma ReadBytesAppend(a: Bits, b: Bits)
    requires |a| % 8 == 0
    ensures ReadBytes(a + b) == ReadBytes(a) + ReadBytes(b)
  {
    ReadIntsAppend(a, b, 8, |a| / 8);
  }

  lemma WriteGroupsAppend(a: seq<Group>, b: seq<Group>)
    ensures WriteGroups(a + b) == WriteGroups(a) + WriteGroups(b)
  {
    WriteIntsAppend(a, b, 5);
  }

  /** The bytes of `Bin.toByte(x)` carry the low 32 bits of `x`. */
  lemma WriteIntBytes(x: nat)
    ensures WriteBytes(IntBytes(x)) == BitsOf(x, 32)
  {
    WriteDigits(x, 4, 8);
  }
}
