/** The BCH checksum of Bech32 (section "Checksum" of BIP-173): a 30-bit
    remainder over GF(32), computed by folding 5-bit groups into a state
    with shifts, masks and exclusive ors against five generator constants.
    The state is a Java `int` that never leaves [0, 2^30), where Java's
    `&`, `<<` and `>>` coincide with `%`, `*` and `/` on naturals. */
module Checksum {
  import opened Bitwise
  import opened BitPacket

  /** The generator constants, one per bit of the group shifted out. */
  const Gen: seq<nat> := [0x3b6a57b2, 0x26508e6d, 0x1ea119fa, 0x3d4233dd, 0x2a1462b3]

  /** Every checksum state lies below this bound: 30 bits. */
  const Limit: nat := 0x4000_0000

  /** The bits of the state that survive a step: its low 25. */
  const Keep: nat := 0x200_0000

  /** Two values below 2^30 have an exclusive or below 2^30. */
  lemma XorLimit(a: nat, b: nat)
    ensures a < Limit && b < Limit ==> Xor(a, b) < Limit
  {
    if a < Limit && b < Limit {
      Pow2Values();
      XorBound(a, b, 30);
    }
  }

  /** `((b >> i) & 1) == 0 ? 0 : GEN[i]`. */
  function Tap(b: nat, i: nat): (r: nat)
    requires i < 5
    ensures r < Limit
  {
    if Shr(b, i) % 2 == 0 then 0 else Gen[i]
  }

  /** The inner loop of `polymod` from index `i` on: `c` XOR-ed with
      `Gen[j]` for every `j` in `i..5` with bit `j` of `b` set. */
  function ApplyGen(c: nat, b: nat, i: nat): (r: nat)
    requires i <= 5
    ensures c < Limit ==> r < Limit
    decreases 5 - i
  {
    if i == 5 then c
    else
      XorLimit(c, Tap(b, i));
      ApplyGen(Xor(c, Tap(b, i)), b, i + 1)
  }

  /** One iteration of the reduction loop: the state keeps its low 25 bits
      shifted up by five with `v` entering at the bottom, and the five bits
      shifted out select the generators. */
  function Step(chk: nat, v: Group): (r: nat)
    ensures chk < Limit ==> r < Limit
  {
    var low := 32 * (chk % Keep);
    XorLimit(low, v);
    ApplyGen(Xor(low, v), chk / Keep, 0)
  }

  /** The reduction continued from state `chk` over the groups `gs`. */
  function PolymodFrom(chk: nat, gs: seq<Group>): (r: nat)
    ensures chk < Limit ==> r < Limit
    decreases |gs|
  {
    if gs == [] then chk else PolymodFrom(Step(chk, gs[0]), gs[1..])
  }

  /** `polymod`: the reduction of a bit stream read five bits at a time,
      starting from state 1. Its callers always hand it whole groups. */
  function Polymod(bits: Bits): (r: nat)
    requires |bits| % 5 == 0
    ensures r < Limit
  {
    PolymodFrom(1, ReadGroups(bits))
  }

  /** `k` zero groups: the checksum slot before it is filled. */
  function ZeroGroups(k: nat): (r: seq<Group>)
    ensures |r| == k
    ensures forall i :: 0 <= i < k ==> r[i] == 0
  {
    seq(k, _ => 0)
  }

  /** The value of `gs` read as base-32 digits, most significant first. */
  function Value(gs: seq<nat>): nat
  {
    if gs == [] then 0 else 32 * Value(gs[..|gs| - 1]) + gs[|gs| - 1]
  }

  /** The six 5-bit groups of a 30-bit checksum, most significant first. */
  function ChecksumGroups(k: nat): (r: seq<Group>)
    ensures |r| == 6
  {
    Pow2Values();
    Digits(k, 6, 5)
  }

  /** The reduction folds the stream left to right, so it splits at any
      group boundary. */
  lemma {:induction false} PolymodFromAppend(chk: nat, a: seq<Group>, b: seq<Group>)
    ensures PolymodFrom(chk, a + b) == PolymodFrom(PolymodFrom(chk, a), b)
    decreases |a|
  {
    if a == [] {
      assert a + b == b;
    } else {
      assert (a + b)[1..] == a[1..] + b;
      PolymodFromAppend(Step(chk, a[0]), a[1..], b);
    }
  }

  /** The group loop of `polymod` run over a stream split into two parts
      runs over the first part and then continues over the second. */
  lemma PolymodSplit(a: Bits, b: Bits)
    requires |a| % 5 == 0 && |b| % 5 == 0
    ensures Polymod(a + b) == PolymodFrom(Polymod(a), ReadGroups(b))
  {
    ReadGroupsAppend(a, b);
    PolymodFromAppend(1, ReadGroups(a), ReadGroups(b));
  }

  lemma PolymodFromSnoc(chk: nat, a: seq<Group>, g: Group)
    ensures PolymodFrom(chk, a + [g]) == Step(PolymodFrom(chk, a), g)
  {
    PolymodFromAppend(chk, a, [g]);
  }

  /** The generator taps are linear: XOR-ing `d` into the state before them
      is XOR-ing it in after them. */
  lemma {:induction false} ApplyGenXor(c: nat, d: nat, b: nat, i: nat)
    requires i <= 5
    ensures ApplyGen(Xor(c, d), b, i) == Xor(ApplyGen(c, b, i), d)
    decreases 5 - i
  {
    if i < 5 {
      var t := Tap(b, i);
      XorAssoc(c, d, t);
      XorComm(d, t);
      XorAssoc(c, t, d);
      ApplyGenXor(Xor(c, t), d, b, i + 1);
    }
  }

  /** A step, with the state split into the bits it keeps and the bits it
      shifts out. */
  lemma StepParts(chk: nat, v: Group, lo: nat, b: nat)
    requires lo == chk % Keep && b == chk / Keep
    ensures Step(chk, v) == ApplyGen(Xor(32 * lo, v), b, 0)
  {
    assert 32 * (chk % Keep) == 32 * lo;
  }

  /** Shifting the state's kept bits XOR `x` up by five and feeding `v`. */
  lemma ShiftFeed(lo: nat, x: nat, v: Group)
    ensures Xor(32 * Xor(lo, x), v) == Xor(32 * lo, Xor(32 * x, v))
  {
    XorShift5(lo, x);
    XorAssoc(32 * lo, 32 * x, v);
  }

  /** A step is linear in the state's low 25 bits and in the group fed in. */
  lemma StepLinear(t: nat, x: nat, v: Group)
    requires x < Keep
    ensures Step(Xor(t, x), v) == Xor(Step(t, 0), Xor(32 * x, v))
  {
    Pow2Values();
    var u, lo, b := Xor(t, x), t % Keep, t / Keep;
    XorLow(t, x, 25);
    StepParts(u, v, Xor(lo, x), b);
    ShiftFeed(lo, x, v);
    XorZero(32 * lo);
    StepParts(t, 0, lo, b);
    ApplyGenXor(32 * lo, Xor(32 * x, v), b, 0);
  }

  /** Reading base-32 digits one more group at a time. */
  lemma ValueSnoc(a: seq<nat>, g: nat)
    ensures Value(a + [g]) == 32 * Value(a) + g
  {
    assert (a + [g])[..|a|] == a;
  }

  /** `k` groups carry a value below 2^(5k). */
  lemma {:induction false} ValueBound(gs: seq<Group>)
    ensures Value(gs) < Pow2(5 * |gs|)
  {
    if gs != [] {
      var n := |gs|;
      ValueBound(gs[..n - 1]);
      Pow2Values();
      Pow2Add(5 * (n - 1), 5);
      assert 5 * n == 5 * (n - 1) + 5;
    }
  }

  lemma ZeroGroupsSnoc(k: nat)
    ensures ZeroGroups(k + 1) == ZeroGroups(k) + [0]
  {
  }

  /** The inductive step of `PolymodFromLinear`, from its parts. */
  lemma LinearClose(p: nat, q: nat, va: nat, vgs: nat, g: Group, zs: nat, za: nat)
    requires p == Step(q, g) && q == Xor(za, va)
    requires Step(Xor(za, va), g) == Xor(Step(za, 0), Xor(32 * va, g))
    requires Xor(32 * va, g) == vgs && Step(za, 0) == zs
    ensures p == Xor(zs, vgs)
  {
  }

  /** Feeding up to six groups is feeding as many zero groups and XOR-ing
      in their base-32 value afterwards. */
  lemma {:induction false} PolymodFromLinear(s: nat, gs: seq<Group>)
    requires |gs| <= 6
    ensures PolymodFrom(s, gs) == Xor(PolymodFrom(s, ZeroGroups(|gs|)), Value(gs))
    decreases |gs|
  {
    var n := |gs|;
    if n == 0 {
      assert ZeroGroups(0) == [];
      XorZero(s);
    } else {
      var a, g := gs[..n - 1], gs[n - 1];
      assert gs == a + [g];
      PolymodFromLinear(s, a);
      var za := PolymodFrom(s, ZeroGroups(n - 1));
      ValueBound(a);
      Pow2Values();
      Pow2Mono(5 * (n - 1), 25);
      StepLinear(za, Value(a), g);
      XorAppend5(Value(a), g);
      ValueSnoc(a, g);
      PolymodFromSnoc(s, a, g);
      ZeroGroupsSnoc(n - 1);
      PolymodFromSnoc(s, ZeroGroups(n - 1), 0);
      LinearClose(PolymodFrom(s, gs), PolymodFrom(s, a), Value(a), Value(gs), g,
                  PolymodFrom(s, ZeroGroups(n)), za);
    }
  }

  /** The base-32 digits of `x` read back give the low bits of `x`. */
  lemma {:induction false} ValueDigits(x: nat, n: nat)
    ensures Value(Digits(x, n, 5)) == x % Pow2(5 * n)
  {
    Pow2Values();
    if n == 0 {
      DivModUnique(x, 1, x, 0);
    } else {
      var p, rest := Pow2(5 * (n - 1)), Digits(Shr(x, 5), n - 1, 5);
      assert Digits(x, n, 5) == rest + [x % 32];
      ValueDigits(Shr(x, 5), n - 1);
      ValueSnoc(rest, x % 32);
      ShrDiv(x, 5);
      assert Value(Digits(x, n, 5)) == 32 * ((x / 32) % p) + x % 32;
      DivMulMod(x, 32, p);
      assert 5 * n == 5 + 5 * (n - 1);
      Pow2Add(5, 5 * (n - 1));
    }
  }

  /** The six checksum groups of a 30-bit value read back as that value. */
  lemma ValueChecksumGroups(k: nat)
    requires k < Limit
    ensures Value(ChecksumGroups(k)) == k
  {
    Pow2Values();
    ValueDigits(k, 6);
    DivModUnique(k, Limit, 0, k);
  }

  /** The residue law: from state `s`, the six groups of the reduction of
      six zero groups XOR `k` drive the reduction to exactly `k`. This is
      why a checksum made for one constant verifies against that constant. */
  lemma Residue(s: nat, k: nat)
    requires s < Limit && k < Limit
    ensures PolymodFrom(s, ChecksumGroups(Xor(PolymodFrom(s, ZeroGroups(6)), k))) == k
  {
    var p := PolymodFrom(s, ZeroGroups(6));
    var c := Xor(p, k);
    XorLimit(p, k);
    PolymodFromLinear(s, ChecksumGroups(c));
    ValueChecksumGroups(c);
    XorAssoc(p, p, k);
    XorSelf(p);
    XorZero(k);
  }
}
