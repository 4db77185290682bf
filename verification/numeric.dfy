/** Integer helpers shared by the circuit builders: powers of two, the bit
    length that `floor(log2(x)) + 1` computes for positive integers, and the
    greatest common divisor that `Fraction` uses to reduce to lowest terms. */
module Numeric {

  function Pow2(k: nat): (r: nat)
    ensures r >= 1
  {
    if k == 0 then 1 else 2 * Pow2(k - 1)
  }

  lemma {:induction false} Pow2Add(a: nat, b: nat)
    ensures Pow2(a + b) == Pow2(a) * Pow2(b)
  {
    if b > 0 {
      Pow2Add(a, b - 1);
      assert Pow2(a + b) == 2 * Pow2(a + b - 1);
    }
  }

  lemma {:induction false} Pow2Monotone(a: nat, b: nat)
    requires a <= b
    ensures Pow2(a) <= Pow2(b)
  {
    if a < b {
      Pow2Monotone(a, b - 1);
    }
  }

  lemma Pow2StrictlyMonotone(a: nat, b: nat)
    requires a < b
    ensures Pow2(a) < Pow2(b)
  {
    Pow2Monotone(a, b - 1);
  }

  /** Number of binary digits of `x`, i.e. `len(bin(x)[2:])` for `x >= 1`. */
  function BitLength(x: nat): nat
  {
    if x == 0 then 0 else 1 + BitLength(x / 2)
  }

  /** For `x >= 1`, `BitLength(x) == floor(log2(x)) + 1`: it is the unique `L`
      with `2^(L-1) <= x < 2^L`. */
  lemma {:induction false} BitLengthBounds(x: nat)
    requires x >= 1
    ensures BitLength(x) >= 1
    ensures Pow2(BitLength(x) - 1) <= x < Pow2(BitLength(x))
  {
    if x >= 2 {
      BitLengthBounds(x / 2);
    }
  }

  lemma {:induction false} BitLengthBelow(x: nat)
    ensures x < Pow2(BitLength(x))
  {
    if x >= 1 {
      BitLengthBounds(x);
    }
  }

  /** The bit length is the least width that holds `x`. */
  lemma {:induction false} BitLengthLeast(x: nat, m: nat)
    requires x < Pow2(m)
    ensures BitLength(x) <= m
  {
    if x >= 1 {
      BitLengthBounds(x);
      if BitLength(x) > m {
        Pow2Monotone(m, BitLength(x) - 1);
      }
    }
  }

  lemma BitLengthMonotone(x: nat, y: nat)
    requires x <= y
    ensures BitLength(x) <= BitLength(y)
  {
    BitLengthBelow(y);
    BitLengthLeast(x, BitLength(y));
  }

  /** Euclid's algorithm, as `math.gcd` on non-negative arguments. */
  function Gcd(x: nat, y: nat): nat
    decreases y
  {
    if y == 0 then x else Gcd(y, x % y)
  }

  predicate Divides(d: nat, x: int)
  {
    d > 0 && x % d == 0
  }

  /** The gcd divides both arguments, and every common divisor divides it. */
  lemma {:induction false} GcdIsGreatestCommonDivisor(x: nat, y: nat)
    requires x > 0 || y > 0
    ensures Gcd(x, y) > 0
    ensures Divides(Gcd(x, y), x) && Divides(Gcd(x, y), y)
    ensures forall d: nat :: Divides(d, x) && Divides(d, y) ==> Divides(d, Gcd(x, y))
    decreases y
  {
    if y > 0 {
      GcdIsGreatestCommonDivisor(y, x % y);
      var g := Gcd(y, x % y);
      DivisorOfRemainder(g, x, y);
      forall d: nat | Divides(d, x) && Divides(d, y)
        ensures Divides(d, g)
      {
        DivisorOfRemainder2(d, x, y);
      }
    }
  }

  lemma DivisorOfRemainder(g: nat, x: nat, y: nat)
    requires y > 0 && Divides(g, y) && Divides(g, x % y)
    ensures Divides(g, x)
  {
    var q := x / y;
    assert x == q * y + x % y;
    var a := y / g;
    var b := (x % y) / g;
    assert y == a * g;
    assert x % y == b * g;
    assert x == (q * a + b) * g;
    ModOfMultiple(q * a + b, g);
  }

  lemma DivisorOfRemainder2(d: nat, x: nat, y: nat)
    requires y > 0 && Divides(d, x) && Divides(d, y)
    ensures Divides(d, x % y)
  {
    var q := x / y;
    assert x == q * y + x % y;
    var a := y / d;
    var b := x / d;
    assert y == a * d;
    assert x == b * d;
    assert x % y == (b - q * a) * d;
    ModOfMultiple(b - q * a, d);
  }

  lemma ModOfMultiple(k: int, d: nat)
    requires d > 0
    ensures (k * d) % d == 0
  {
    DivModUnique(k * d, d, k, 0);
  }

  /** Euclidean division is determined by quotient and remainder. */
  lemma DivModUnique(x: int, d: int, q: int, r: int)
    requires d > 0 && 0 <= r < d && x == q * d + r
    ensures x % d == r && x / d == q
  {
    var q', r' := x / d, x % d;
    assert x == q' * d + r';
    assert (q - q') * d == r' - r;
    MulSign(q - q', d);
  }

  lemma MulSign(k: int, d: int)
    requires d > 0
    ensures k >= 1 ==> k * d >= d
    ensures k <= -1 ==> k * d <= -d
  {
  }

  /** `x * d` and `y * d` have `d` times the gcd of `x` and `y`. */
  lemma {:induction false} GcdScale(x: nat, y: nat, d: nat)
    requires d > 0
    ensures Gcd(x * d, y * d) == Gcd(x, y) * d
    decreases y
  {
    if y > 0 {
      ModScale(x, y, d);
      GcdScale(y, x % y, d);
    }
  }

  lemma ModScale(x: nat, y: nat, d: nat)
    requires y > 0 && d > 0
    ensures (x * d) % (y * d) == (x % y) * d
  {
    var q, r := x / y, x % y;
    assert x * d == q * (y * d) + r * d;
    assert r * d < y * d;
    DivModUnique(x * d, y * d, q, r * d);
  }

  /** `(x // a) // b == x // (a * b)` for positive divisors. */
  lemma DivDiv(x: nat, a: nat, b: nat)
    requires a > 0 && b > 0
    ensures (x / a) / b == x / (a * b)
  {
    var q1, r1 := x / a, x % a;
    var q2, r2 := q1 / b, q1 % b;
    assert x == q1 * a + r1;
    assert q1 == q2 * b + r2;
    Regroup(q2, b, r2, a, r1);
    assert x == q2 * (a * b) + (r2 * a + r1);
    MulLe(r2, b - 1, a);
    assert (b - 1) * a == a * b - a;
    DivModUnique(x, a * b, q2, r2 * a + r1);
  }

  lemma Regroup(q: int, b: int, r: int, a: int, s: int)
    ensures (q * b + r) * a + s == q * (a * b) + (r * a + s)
  {
  }

  lemma MulLe(x: int, y: int, a: nat)
    requires x <= y
    ensures x * a <= y * a
  {
  }

  /** Bit `k` of `v`: `(v >> k) & 1`. */
  function Bit(v: nat, k: nat): int
  {
    (v / Pow2(k)) % 2
  }

  lemma BitShift(v: nat, k: nat)
    requires k >= 1
    ensures Bit(v, k) == Bit(v / 2, k - 1)
  {
    DivDiv(v, 2, Pow2(k - 1));
  }

  /** Bits at or above the bit length are zero. */
  lemma BitAboveLength(v: nat, k: nat)
    requires v < Pow2(k)
    ensures Bit(v, k) == 0
  {
    DivModUnique(v, Pow2(k), 0, v);
  }

  /** The value of the low `m` bits of `v`, summed from bit 0 upwards. */
  function LowBits(v: nat, m: nat): nat
  {
    if m == 0 then 0 else LowBits(v, m - 1) + Bit(v, m - 1) * Pow2(m - 1)
  }

  /** Bits are 0 or 1. */
  lemma BitBinary(v: nat, k: nat)
    ensures Bit(v, k) == 0 || Bit(v, k) == 1
  {
  }

  /** One more low bit adds `2^(m - 1)` when it is set and nothing otherwise. */
  lemma LowBitsSnoc(v: nat, m: nat)
    requires m >= 1
    ensures LowBits(v, m) == LowBits(v, m - 1) + if Bit(v, m - 1) == 1 then Pow2(m - 1) else 0
  {
    BitBinary(v, m - 1);
  }

  /** The low `m` bits of `v` make up `v mod 2^m`. */
  lemma {:induction false} LowBitsMod(v: nat, m: nat)
    ensures LowBits(v, m) == v % Pow2(m)
  {
    if m == 0 {
      DivModUnique(v, 1, v, 0);
    } else {
      LowBitsMod(v, m - 1);
      ModStep(v, m);
    }
  }

  lemma ModStep(v: nat, m: nat)
    requires m >= 1
    ensures v % Pow2(m) == v % Pow2(m - 1) + Bit(v, m - 1) * Pow2(m - 1)
  {
    var h := Pow2(m - 1);
    var q, r := v / h, v % h;
    assert v == (q / 2) * Pow2(m) + ((q % 2) * h + r);
    DivModUnique(v, Pow2(m), q / 2, (q % 2) * h + r);
  }

  /** Two numbers below `2^n` with the same `n` low bits are equal. */
  lemma BitsDetermine(i: nat, j: nat, n: nat)
    requires i < Pow2(n) && j < Pow2(n)
    requires forall k :: 0 <= k < n ==> Bit(i, k) == Bit(j, k)
    ensures i == j
  {
    LowBitsAgree(i, j, n);
    LowBitsMod(i, n);
    LowBitsMod(j, n);
    DivModUnique(i, Pow2(n), 0, i);
    DivModUnique(j, Pow2(n), 0, j);
  }

  lemma {:induction false} LowBitsAgree(i: nat, j: nat, m: nat)
    requires forall k :: 0 <= k < m ==> Bit(i, k) == Bit(j, k)
    ensures LowBits(i, m) == LowBits(j, m)
  {
    if m > 0 {
      LowBitsAgree(i, j, m - 1);
    }
  }

  /** `list(map(int, reversed(bin(x)[2:])))`: the binary digits of `x`,
      least significant first; `bin(0)` is `"0b0"`, so 0 has one digit. */
  function BinDigits(x: nat): (r: seq<int>)
    ensures |r| >= 1
    ensures forall k :: 0 <= k < |r| ==> r[k] == 0 || r[k] == 1
  {
    if x < 2 then [x] else [x % 2] + BinDigits(x / 2)
  }

  /** Digit `k` is bit `k`, and there is one digit per bit of the bit
      length (one digit for 0). */
  lemma BinDigitsBits(x: nat)
    ensures |BinDigits(x)| == if x == 0 then 1 else BitLength(x)
    ensures forall k :: 0 <= k < |BinDigits(x)| ==> BinDigits(x)[k] == Bit(x, k)
    ensures x < Pow2(|BinDigits(x)|)
  {
    BinDigitsLength(x);
    BinDigitsBelow(x);
    forall k | 0 <= k < |BinDigits(x)|
      ensures BinDigits(x)[k] == Bit(x, k)
    {
      BinDigitsBit(x, k);
    }
  }

  lemma {:induction false} BinDigitsLength(x: nat)
    ensures |BinDigits(x)| == if x == 0 then 1 else BitLength(x)
  {
    if x >= 2 {
      BinDigitsLength(x / 2);
    }
  }

  lemma {:induction false} BinDigitsBelow(x: nat)
    ensures x < Pow2(|BinDigits(x)|)
  {
    if x >= 2 {
      BinDigitsBelow(x / 2);
      var m := |BinDigits(x / 2)|;
      assert |BinDigits(x)| == m + 1;
      assert Pow2(m + 1) == 2 * Pow2(m);
      assert x == 2 * (x / 2) + x % 2;
    }
  }

  lemma {:induction false} BinDigitsBit(x: nat, k: nat)
    requires k < |BinDigits(x)|
    ensures BinDigits(x)[k] == Bit(x, k)
  {
    if k == 0 {
      assert Pow2(0) == 1;
      DivModUnique(x, 1, x, 0);
    } else {
      assert x >= 2;
      BinDigitsBit(x / 2, k - 1);
      BitShift(x, k);
    }
  }
}
