/** Integer facts the intent mask relies on: powers of two, the JavaScript
    `<<` operator on 32-bit integers, and reading one bit of a non-negative integer. */
module Bits {

  /** 2 to the power n. */
  function Pow2(n: nat): (r: nat)
    ensures r >= 1
  {
    if n == 0 then 1 else 2 * Pow2(n - 1)
  }

  lemma {:induction false} Pow2Add(a: nat, b: nat)
    ensures Pow2(a + b) == Pow2(a) * Pow2(b)
  {
    if b > 0 {
      Pow2Add(a, b - 1);
      assert Pow2(a + b) == 2 * Pow2(a + b - 1);
    }
  }

  /** The powers of two the catalog and the 32-bit wrap-around need, by name. */
  lemma {:induction false} Pow2Values()
    ensures Pow2(16) == 0x1_0000 && Pow2(17) == 0x2_0000
    ensures Pow2(20) == 0x10_0000 && Pow2(21) == 0x20_0000 && Pow2(22) == 0x40_0000
    ensures Pow2(30) == 0x4000_0000 && Pow2(31) == 0x8000_0000
  {
    assert Pow2(5) == 32;
    Pow2Add(5, 5);
    Pow2Add(10, 6);
    Pow2Add(16, 1);
    Pow2Add(10, 10);
    Pow2Add(20, 1);
    Pow2Add(20, 2);
    Pow2Add(20, 10);
    Pow2Add(30, 1);
  }

  lemma {:induction false} Pow2Monotone(a: nat, b: nat)
    requires a <= b
    ensures Pow2(a) <= Pow2(b)
  {
    if a < b {
      Pow2Monotone(a, b - 1);
    }
  }

  /** ECMAScript ToInt32 on an integral Number: reduce modulo 2^32 into the signed 32-bit range. */
  function ToInt32(x: int): (r: int)
    ensures -0x8000_0000 <= r < 0x8000_0000
    ensures (x - r) % 0x1_0000_0000 == 0
  {
    var m := x % 0x1_0000_0000;
    if m >= 0x8000_0000 then m - 0x1_0000_0000 else m
  }

  lemma {:induction false} ToInt32Identity(x: int)
    requires -0x8000_0000 <= x < 0x8000_0000
    ensures ToInt32(x) == x
  {
    if x < 0 {
      assert x % 0x1_0000_0000 == x + 0x1_0000_0000;
    }
  }

  /** ECMAScript `x << n` for integral operands: the left operand is taken as a signed 32-bit
      integer, the shift count modulo 32, and the product wraps to signed 32 bits. */
  function JsShl(x: int, n: nat): (r: int)
    ensures -0x8000_0000 <= r < 0x8000_0000
    ensures (x == 1 || x == -1) && n <= 30 ==> r == x * Pow2(n)
  {
    var r := ToInt32(ToInt32(x) * Pow2(n % 32));
    assert (x == 1 || x == -1) && n <= 30 ==> r == x * Pow2(n) by {
      if (x == 1 || x == -1) && n <= 30 {
        JsShlSmall(x, n);
      }
    }
    r
  }

  lemma {:induction false} JsShlSmall(x: int, n: nat)
    requires x == 1 || x == -1
    requires n <= 30
    ensures ToInt32(ToInt32(x) * Pow2(n % 32)) == x * Pow2(n)
  {
    assert n % 32 == n;
    var p: int := Pow2(n);
    assert p <= 0x4000_0000 by {
      Pow2Monotone(n, 30);
      Pow2Values();
    }
    ToInt32Identity(x);
    assert -0x8000_0000 <= x * p < 0x8000_0000 by {
      if x == 1 {
        assert x * p == p;
      } else {
        assert x * p == -p;
      }
    }
    ToInt32Identity(x * p);
  }

  /** `1 << 31` is negative and `1 << 32` is 1: a bit position of 31 or more would not
      contribute 2^bit to a JavaScript mask. */
  lemma {:induction false} JsShlWraps()
    ensures JsShl(1, 31) == -0x8000_0000
    ensures JsShl(1, 32) == 1
  {
    ToInt32Identity(1);
    assert 31 % 32 == 31 && 32 % 32 == 0;
    assert Pow2(31) == 0x8000_0000 by {
      Pow2Values();
    }
    assert 0x8000_0000 % 0x1_0000_0000 == 0x8000_0000;
    assert ToInt32(0x8000_0000) == -0x8000_0000;
    assert Pow2(0) == 1;
  }

  /** Whether bit b (weight 2^b) of the non-negative integer m is 1. */
  predicate BitSet(m: nat, b: nat)
  {
    (m / Pow2(b)) % 2 == 1
  }

  /** Euclidean division is determined by quotient and remainder. */
  lemma {:induction false} DivUnique(a: int, d: int, q: int, r: int)
    requires d > 0 && 0 <= r < d && a == q * d + r
    ensures a / d == q && a % d == r
  {
    var q', r' := a / d, a % d;
    assert q' * d + r' == q * d + r;
    assert (q' - q) * d == r - r';
    if q' > q {
      MulAtLeast(q' - q, d);
    } else if q' < q {
      MulAtLeast(q - q', d);
    }
  }

  lemma {:induction false} MulAtLeast(k: int, d: int)
    requires k >= 1 && d > 0
    ensures k * d >= d
  {
  }

  /** Adding a multiple of d shifts the quotient by that multiple. */
  lemma {:induction false} DivAddMultiple(a: nat, d: nat, q: nat)
    requires d > 0
    ensures (a + q * d) / d == a / d + q
  {
    DivUnique(a + q * d, d, a / d + q, a % d);
  }

  /** Below 2^b, adding 2^b sets bit b, which was clear. */
  lemma {:induction false} BitOfPower(low: nat, b: nat)
    requires low < Pow2(b)
    ensures BitSet(low + Pow2(b), b) && !BitSet(low, b)
  {
    DivUnique(low + Pow2(b), Pow2(b), 1, low);
    DivUnique(low, Pow2(b), 0, low);
  }

  /** 2^hi is an even multiple of 2^b when b < hi. */
  lemma {:induction false} HigherPowerSplit(hi: nat, b: nat)
    requires b < hi
    ensures Pow2(hi) == (2 * Pow2(hi - b - 1)) * Pow2(b)
  {
    Pow2Add(b, hi - b);
    assert Pow2(hi - b) == 2 * Pow2(hi - b - 1);
  }

  lemma {:induction false} ParityAddEven(a: int, t: int)
    ensures (a + 2 * t) % 2 == a % 2
  {
    DivUnique(a + 2 * t, 2, a / 2 + t, a % 2);
  }

  /** Adding 2^hi leaves every lower bit unchanged. */
  lemma {:induction false} BitBelowPower(low: nat, hi: nat, b: nat)
    requires b < hi
    ensures BitSet(low + Pow2(hi), b) <==> BitSet(low, b)
  {
    var p := Pow2(b);
    var q := Pow2(hi - b - 1);
    HigherPowerSplit(hi, b);
    DivAddMultiple(low, p, 2 * q);
    assert (low + Pow2(hi)) / p == low / p + 2 * q;
    ParityAddEven(low / p, q);
  }

  /** A number below 2^b has no bit at position b or above. */
  lemma {:induction false} BitAboveRange(m: nat, b: nat)
    requires m < Pow2(b)
    ensures !BitSet(m, b)
  {
    DivUnique(m, Pow2(b), 0, m);
  }
}
