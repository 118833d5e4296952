/** Java's `int` bit operations on nonnegative integers: powers of two,
    shifts as multiplication and division, masks as remainders, and
    exclusive or. Every value the codec computes with is nonnegative and
    below 2^32, where these agree with the operators on `int`. */
module Bitwise {

  /** 2^n. */
  function Pow2(n: nat): (r: nat)
    ensures r > 0
  {
    if n == 0 then 1 else 2 * Pow2(n - 1)
  }

  /** The powers of two the codec's widths and masks use. */
  lemma Pow2Values()
    ensures Pow2(2) == 4 && Pow2(5) == 32 && Pow2(8) == 256
    ensures Pow2(25) == 0x200_0000 && Pow2(30) == 0x4000_0000 && Pow2(32) == 0x1_0000_0000
  {
    assert Pow2(10) == 1024;
    assert Pow2(20) == 1024 * 1024 by { Pow2Add(10, 10); }
    Pow2Add(20, 5);
    Pow2Add(25, 5);
    Pow2Add(30, 2);
  }

  lemma {:induction false} Pow2Add(a: nat, b: nat)
    ensures Pow2(a + b) == Pow2(a) * Pow2(b)
    decreases b
  {
    if b > 0 {
      Pow2Add(a, b - 1);
    }
  }

  lemma {:induction false} Pow2Mono(a: nat, b: nat)
    requires a <= b
    ensures Pow2(a) <= Pow2(b)
    decreases b
  {
    if a < b {
      Pow2Mono(a, b - 1);
    }
  }

  /** `x >>> n`: `x` with its lowest `n` bits dropped. */
  function Shr(x: nat, n: nat): (r: nat)
    ensures r <= x
  {
    if n == 0 then x else Shr(x / 2, n - 1)
  }

  /** Dropping `n` low bits is dividing by 2^n. */
  lemma {:induction false} ShrDiv(x: nat, n: nat)
    ensures Shr(x, n) == x / Pow2(n)
  {
    if n > 0 {
      ShrDiv(x / 2, n - 1);
      DivStep(x, Pow2(n - 1));
    }
  }

  /** `a ^ b`: the bitwise exclusive or, bit by bit from the lowest. */
  function Xor(a: nat, b: nat): (r: nat)
    decreases a + b
  {
    if a == 0 && b == 0 then 0 else 2 * Xor(a / 2, b / 2) + XorBit(a, b)
  }

  /** The exclusive or of the low bits of `a` and `b`. */
  function XorBit(a: nat, b: nat): (r: nat)
    ensures r < 2
  {
    if a % 2 == b % 2 then 0 else 1
  }

  lemma DivModUnique(x: int, d: int, q: int, r: int)
    requires d > 0 && x == d * q + r && 0 <= r < d
    ensures x / d == q && x % d == r
  {
    var q', r' := x / d, x % d;
    assert d * q + r == d * q' + r';
    if q > q' {
      assert d * (q - q') == r' - r;
      MulAtLeast(d, q - q');
    } else if q < q' {
      assert d * (q' - q) == r - r';
      MulAtLeast(d, q' - q);
    }
  }

  lemma MulAtLeast(d: int, k: int)
    requires d > 0 && k >= 1
    ensures d * k >= d
  {
  }

  /** Dividing by `d` and then by `p` is dividing by `d * p`, and the
      remainder modulo `d * p` is made of the two remainders. */
  lemma DivMulMod(x: nat, d: nat, p: nat)
    requires d > 0 && p > 0
    ensures (x / d) / p == x / (d * p)
    ensures x % (d * p) == d * ((x / d) % p) + x % d
  {
    var a, s := (x / d) / p, (x / d) % p;
    assert x == d * (x / d) + x % d;
    assert x / d == p * a + s;
    assert x == (d * p) * a + (d * s + x % d);
    assert d * s + x % d < d * p by {
      MulAtLeast(d, p - s);
      assert d * (p - s) == d * p - d * s;
    }
    DivModUnique(x, d * p, a, d * s + x % d);
  }

  /** Taking `d` away from `n` takes one from `n / d`. */
  lemma DivSub(n: nat, d: nat)
    requires d > 0
    ensures n < d ==> n / d == 0
    ensures n >= d ==> n / d == (n - d) / d + 1
  {
    if n < d {
      DivModUnique(n, d, 0, n);
    } else {
      DivModUnique(n, d, (n - d) / d + 1, (n - d) % d);
    }
  }

  /** Halving commutes with taking the low bits. */
  lemma ModStep(x: nat, p: nat)
    requires p > 0
    ensures 2 * ((x / 2) % p) + x % 2 == x % (2 * p)
    ensures (x % (2 * p)) / 2 == (x / 2) % p
    ensures (x % (2 * p)) % 2 == x % 2
  {
    var a, s := (x / 2) / p, (x / 2) % p;
    assert x == (2 * p) * a + (2 * s + x % 2);
    DivModUnique(x, 2 * p, a, 2 * s + x % 2);
    DivModUnique(2 * s + x % 2, 2, s, x % 2);
  }

  /** Halving commutes with dropping the low bits. */
  lemma DivStep(x: nat, p: nat)
    requires p > 0
    ensures (x / 2) / p == x / (2 * p)
  {
    var a, s := (x / 2) / p, (x / 2) % p;
    assert x == (2 * p) * a + (2 * s + x % 2);
    DivModUnique(x, 2 * p, a, 2 * s + x % 2);
  }

  /** The defining step of `Xor` holds for every pair, zero included. */
  lemma XorHalves(a: nat, b: nat)
    ensures Xor(a, b) == 2 * Xor(a / 2, b / 2) + XorBit(a, b)
  {
  }

  lemma {:induction false} XorZero(a: nat)
    ensures Xor(a, 0) == a && Xor(0, a) == a
    decreases a
  {
    if a > 0 {
      XorZero(a / 2);
    }
  }

  lemma {:induction false} XorComm(a: nat, b: nat)
    ensures Xor(a, b) == Xor(b, a)
    decreases a + b
  {
    if a != 0 || b != 0 {
      XorComm(a / 2, b / 2);
    }
  }

  /** The high bits and the low bit of an exclusive or. */
  lemma XorParts(a: nat, b: nat)
    ensures Xor(a, b) / 2 == Xor(a / 2, b / 2)
    ensures Xor(a, b) % 2 == XorBit(a, b)
  {
    XorHalves(a, b);
    DivModUnique(Xor(a, b), 2, Xor(a / 2, b / 2), XorBit(a, b));
  }

  /** A number is determined by its high bits and its low bit. */
  lemma HalvesEqual(x: nat, y: nat)
    requires x / 2 == y / 2 && x % 2 == y % 2
    ensures x == y
  {
  }

  lemma {:induction false} XorAssoc(a: nat, b: nat, c: nat)
    ensures Xor(Xor(a, b), c) == Xor(a, Xor(b, c))
    decreases a + b + c
  {
    if a != 0 || b != 0 || c != 0 {
      XorAssoc(a / 2, b / 2, c / 2);
      var ab, bc := Xor(a, b), Xor(b, c);
      XorParts(a, b);
      XorParts(b, c);
      XorParts(ab, c);
      XorParts(a, bc);
      HalvesEqual(Xor(ab, c), Xor(a, bc));
    }
  }

  lemma {:induction false} XorSelf(a: nat)
    ensures Xor(a, a) == 0
    decreases a
  {
    if a > 0 {
      XorSelf(a / 2);
    }
  }

  /** Exclusive or of two n-bit values is an n-bit value. */
  lemma {:induction false} XorBound(a: nat, b: nat, n: nat)
    requires a < Pow2(n) && b < Pow2(n)
    ensures Xor(a, b) < Pow2(n)
    decreases n
  {
    if n == 0 {
      assert a == 0 && b == 0;
    } else if a != 0 || b != 0 {
      XorBound(a / 2, b / 2, n - 1);
    }
  }

  /** Exclusive or with an n-bit value leaves the bits above n alone and
      acts on the low n bits alone. */
  lemma {:induction false} XorLow(t: nat, x: nat, n: nat)
    requires x < Pow2(n)
    ensures Xor(t, x) / Pow2(n) == t / Pow2(n)
    ensures Xor(t, x) % Pow2(n) == Xor(t % Pow2(n), x)
    decreases n
  {
    if n == 0 {
      XorZero(t);
    } else {
      var p := Pow2(n - 1);
      XorLow(t / 2, x / 2, n - 1);
      XorParts(t, x);
      DivStep(Xor(t, x), p);
      DivStep(t, p);
      ModStep(Xor(t, x), p);
      ModStep(t, p);
      XorHalves(t % (2 * p), x);
    }
  }

  /** Doubling distributes over exclusive or. */
  lemma XorDouble(a: nat, b: nat)
    ensures Xor(2 * a, 2 * b) == 2 * Xor(a, b)
  {
    XorHalves(2 * a, 2 * b);
    DivModUnique(2 * a, 2, a, 0);
    DivModUnique(2 * b, 2, b, 0);
  }

  /** `(a << 5) ^ (b << 5) == (a ^ b) << 5`. */
  lemma XorShift5(a: nat, b: nat)
    ensures Xor(32 * a, 32 * b) == 32 * Xor(a, b)
  {
    var a2, b2 := 2 * a, 2 * b;
    var a4, b4 := 2 * a2, 2 * b2;
    var a8, b8 := 2 * a4, 2 * b4;
    var a16, b16 := 2 * a8, 2 * b8;
    XorDouble(a, b);
    XorDouble(a2, b2);
    XorDouble(a4, b4);
    XorDouble(a8, b8);
    XorDouble(a16, b16);
    assert 32 * a == 2 * a16 && 32 * b == 2 * b16;
  }

  /** `(a << 5) ^ v == (a << 5) | v` for a 5-bit `v`. */
  lemma XorAppend5(a: nat, v: nat)
    requires v < 32
    ensures Xor(32 * a, v) == 32 * a + v
  {
    assert Pow2(5) == 32;
    XorLow(32 * a, v, 5);
    DivModUnique(32 * a, 32, a, 0);
    XorZero(v);
    var r := Xor(32 * a, v);
    assert r == 32 * (r / 32) + r % 32;
  }
}
