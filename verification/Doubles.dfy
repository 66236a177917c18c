// 64-bit floating-point arithmetic (binary64 of IEEE 754) on non-negative numbers:
// results are rounded to 53 significant binary digits, ties to the even last digit.
// The numbers modelled stay far from overflow and underflow.
module Doubles {
  const ULPS: real := 4503599627370496.0  // 2 to the power 52

  type Magnitude = x: real | x >= 0.0 witness 0.0

  /** The nearest integer, and the even one of two that are as near. */
  function Nearest(x: real): int {
    var below := x.Floor;
    var over := x - below as real;
    if over < 0.5 || (over == 0.5 && below % 2 == 0) then below else below + 1
  }

  /** How far a positive number is from the interval between one and two. */
  function Distance(x: real): (d: nat)
    requires x > 0.0
    ensures x < 1.0 ==> d >= 2
  {
    if x >= 1.0 then x.Floor
    else
      InverseAboveOne(x);
      (1.0 / x).Floor + 1
  }

  lemma InverseAboveOne(x: real)
    requires 0.0 < x < 1.0
    ensures 1.0 / x > 1.0
  {
    var a := 1.0 / x;
    assert a * x == 1.0;
    if a <= 1.0 {
      Shrinks(a, x);
    }
  }

  lemma Shrinks(a: real, x: real)
    requires 0.0 < x < 1.0 && 0.0 <= a <= 1.0
    ensures a * x < 1.0
  {
    assert a * x <= x by { assert (1.0 - a) * x >= 0.0; }
  }

  lemma DoublingIsNearer(x: real)
    requires 0.0 < x < 1.0
    ensures Distance(2.0 * x) < Distance(x)
  {
    var a := 1.0 / x;
    InverseAboveOne(x);
    if 2.0 * x < 1.0 {
      HalfInverse(x);
      InverseAboveOne(2.0 * x);
      assert 1.0 / (2.0 * x) == a / 2.0;
    }
  }

  lemma HalfInverse(x: real)
    requires x > 0.0
    ensures 1.0 / (2.0 * x) == 1.0 / x / 2.0
  {
    var a, b := 1.0 / x, 1.0 / (2.0 * x);
    assert a * x == 1.0 && b * (2.0 * x) == 1.0;
    Cancel(a, 2.0 * b, x);
  }

  lemma Cancel(a: real, b: real, x: real)
    requires x > 0.0 && a * x == 1.0 && b * x == 1.0
    ensures a == b
  {
    assert (a - b) * x == 0.0;
  }

  /** The nearest number with 53 significant binary digits. */
  function Double(x: Magnitude): (r: Magnitude)
    decreases if x > 0.0 then Distance(x) else 0
  {
    if x == 0.0 then 0.0
    else if x >= 2.0 then 2.0 * Double(x / 2.0)
    else if x < 1.0 then
      DoublingIsNearer(x);
      Double(2.0 * x) / 2.0
    else Nearest(x * ULPS) as real / ULPS
  }

  // ----- the rounding error

  const HALF_ULP: real := 1.0 / 9007199254740992.0  // 2 to the power -53

  lemma NearestNear(x: real)
    ensures -0.5 <= Nearest(x) as real - x <= 0.5
  {
  }

  /** The relative error is at most half a unit in the last place. */
  lemma {:induction false} DoubleNear(x: Magnitude)
    ensures -(x * HALF_ULP) <= Double(x) - x <= x * HALF_ULP
    decreases if x > 0.0 then Distance(x) else 0
  {
    if x >= 2.0 {
      DoubleNear(x / 2.0);
    } else if 0.0 < x < 1.0 {
      DoublingIsNearer(x);
      DoubleNear(2.0 * x);
    } else if x > 0.0 {
      NearestNear(x * ULPS);
    }
  }

  // ----- order

  lemma NearestMonotone(x: real, y: real)
    requires x <= y
    ensures Nearest(x) <= Nearest(y)
  {
  }

  lemma {:induction false} AboveOne(x: Magnitude)
    ensures x >= 1.0 ==> Double(x) >= 1.0
    ensures x <= 2.0 ==> Double(x) <= 2.0
    ensures x <= 1.0 ==> Double(x) <= 1.0
    decreases if x > 0.0 then Distance(x) else 0
  {
    if x >= 2.0 {
      AboveOne(x / 2.0);
    } else if 0.0 < x < 1.0 {
      DoublingIsNearer(x);
      AboveOne(2.0 * x);
    } else if x > 0.0 {
      NearestMonotone(ULPS, x * ULPS);
      NearestMonotone(x * ULPS, 2.0 * ULPS);
    }
  }

  lemma {:induction false} DoubleMonotone(x: Magnitude, y: Magnitude)
    requires x <= y
    ensures Double(x) <= Double(y)
    decreases if x > 0.0 then Distance(x) else 0, if y > 0.0 then Distance(y) else 0
  {
    if x == 0.0 {
    } else if x < 1.0 && y < 1.0 {
      DoublingIsNearer(x);
      DoubleMonotone(2.0 * x, 2.0 * y);
    } else if x < 1.0 {
      AboveOne(x);
      AboveOne(y);
    } else if x < 2.0 && y < 2.0 {
      NearestMonotone(x * ULPS, y * ULPS);
    } else if x < 2.0 {
      AboveOne(x);
      AboveOne(y / 2.0);
    } else {
      DoubleMonotone(x / 2.0, y / 2.0);
    }
  }

  // ----- whole numbers

  function Halved(n: nat, k: nat): Magnitude {
    if k == 0 then n as real else Halved(n, k - 1) / 2.0
  }

  function Doubled(n: nat, k: nat): nat {
    if k == 0 then n else 2 * Doubled(n, k - 1)
  }

  lemma {:induction false} DoubledTwice(n: nat, a: nat, b: nat)
    ensures Doubled(Doubled(n, a), b) == Doubled(n, a + b)
  {
    if b > 0 {
      DoubledTwice(n, a, b - 1);
    }
  }

  lemma DoubledToUlps(n: nat)
    ensures Doubled(n, 52) == 4503599627370496 * n
  {
    ManyFold(n);
    ManyFold(8192 * n);
    ManyFold(67108864 * n);
    ManyFold(549755813888 * n);
    DoubledTwice(n, 13, 13);
    DoubledTwice(n, 26, 13);
    DoubledTwice(n, 39, 13);
  }

  lemma ManyFold(n: nat)
    ensures Doubled(n, 13) == 8192 * n
  {
    Sixteenfold(n);
    Sixteenfold(16 * n);
    Sixteenfold(256 * n);
    DoubledTwice(n, 4, 4);
    DoubledTwice(n, 8, 4);
    assert Doubled(n, 13) == 2 * Doubled(n, 12);
  }

  lemma Sixteenfold(n: nat)
    ensures Doubled(n, 4) == 16 * n
  {
    assert Doubled(n, 1) == 2 * n;
    assert Doubled(n, 2) == 4 * n;
    assert Doubled(n, 3) == 8 * n;
  }

  lemma {:induction false} HalvedUlps(n: nat, k: nat)
    requires k <= 52
    ensures Halved(n, k) * ULPS == Doubled(n, 52 - k) as real
  {
    if k == 0 {
      DoubledToUlps(n);
    } else {
      HalvedUlps(n, k - 1);
    }
  }

  /** Whole numbers of up to 52 binary digits are not rounded, nor are their halves, quarters and so on. */
  lemma {:induction false} WholeIsExact(n: nat, k: nat)
    requires n <= 4503599627370496 && k <= 52 && Halved(n, k) >= 1.0
    ensures Double(Halved(n, k)) == Halved(n, k)
    decreases 52 - k
  {
    HalvedUlps(n, k);
    if Halved(n, k) >= 2.0 {
      WholeIsExact(n, k + 1);
    } else {
      WholeUlps(Halved(n, k), Doubled(n, 52 - k));
    }
  }

  lemma WholeUlps(x: Magnitude, m: nat)
    requires 1.0 <= x < 2.0 && x * ULPS == m as real
    ensures Double(x) == x
  {
    assert Nearest(m as real) == m;
  }

  lemma NaturalIsExact(n: nat)
    requires n <= 0x1_0000_0000
    ensures Double(n as real) == n as real
  {
    if n > 0 {
      WholeIsExact(n, 0);
    }
  }

  // ----- quotients

  /** Rounding cannot turn a share below nine tenths into nine tenths, or one above it into less. */
  lemma ShareIsEnough(part: nat, whole: nat)
    requires 0 < whole <= 0xFFFF_FFFF
    ensures Double(Share(part, whole)) >= Double(0.9) <==> 10 * part >= 9 * whole
  {
    assert Share(part, whole) * whole as real == part as real;
    QuotientIsEnough(part, whole, Share(part, whole));
  }

  lemma QuotientIsEnough(part: nat, whole: nat, q: Magnitude)
    requires 0 < whole <= 0xFFFF_FFFF && q * whole as real == part as real
    ensures Double(q) >= Double(0.9) <==> 10 * part >= 9 * whole
  {
    if 10 * part >= 9 * whole {
      assert 0.9 * whole as real <= part as real;
      Quotient(0.9, q, whole as real);
      DoubleMonotone(0.9, q);
    } else {
      BelowNineTenths(part, whole, q);
      DoubleNear(0.9);
      DoubleNear(q);
    }
  }

  lemma Quotient(a: real, b: real, c: real)
    requires c > 0.0 && a * c <= b * c
    ensures a <= b
  {
    if a > b {
      Strict(b, a, c);
    }
  }

  lemma Strict(a: real, b: real, c: real)
    requires a < b && c > 0.0
    ensures a * c < b * c
  {
    assert (b - a) * c > 0.0;
  }

  const GAP: real := 1.0 / 42949672950.0

  /** The gap below nine tenths is at least a tenth of the unit share. */
  lemma BelowNineTenths(part: nat, whole: nat, q: real)
    requires 0 < whole <= 0xFFFF_FFFF && q * whole as real == part as real && 10 * part < 9 * whole
    ensures q <= 0.9 - GAP
  {
    var w := whole as real;
    assert (0.9 - GAP) * w >= part as real by { assert 10 * part <= 9 * whole - 1; }
    Quotient(q, 0.9 - GAP, w);
  }

  lemma ShareOrder(a: real, b: real, whole: real)
    requires a <= b && whole > 0.0
    ensures a / whole <= b / whole
  {
    assert a / whole * whole == a && b / whole * whole == b;
    Quotient(a / whole, b / whole, whole);
  }

  /** A quotient of whole numbers, as it is before rounding. */
  function Share(part: nat, whole: nat): Magnitude
    requires whole > 0
  {
    ShareOrder(0.0, part as real, whole as real);
    part as real / whole as real
  }

  lemma ShareInUnit(part: nat, whole: nat)
    requires part <= whole && whole > 0
    ensures Share(part, whole) <= 1.0
  {
    ShareOrder(part as real, whole as real, whole as real);
    assert whole as real / whole as real == 1.0;
  }

  // ----- numbers that may be infinite

  datatype Float = Finite(value: Magnitude) | Infinite

  function Plus(a: Float, b: Float): Float {
    if a.Finite? && b.Finite? then Finite(Double(a.value + b.value)) else Infinite
  }

  function Over(a: Float, n: nat): Float
    requires n > 0
  {
    if a.Infinite? then Infinite
    else
      ShareOrder(0.0, a.value, n as real);
      Finite(Double(a.value / n as real))
  }

  /** One divided by `n`. */
  function Inverse(n: nat): Float { if n == 0 then Infinite else Finite(Double(Share(1, n))) }

  /** A sum of two numbers within `a` and `b` is within their sum. */
  lemma PlusBounded(x: Magnitude, a: nat, y: Magnitude, b: nat)
    requires x <= a as real && y <= b as real && a + b <= 0x1_0000_0000
    ensures Double(x + y) <= (a + b) as real
  {
    DoubleMonotone(x + y, (a + b) as real);
    NaturalIsExact(a + b);
  }

  lemma OverInUnit(x: Magnitude, n: nat)
    requires 0 < n && x <= n as real
    ensures Over(Finite(x), n).value <= 1.0
  {
    ShareOrder(0.0, x, n as real);
    ShareOrder(x, n as real, n as real);
    AtMostOne(x / n as real, n as real);
    AboveOne(x / n as real);
  }

  lemma AtMostOne(q: real, w: real)
    requires w > 0.0 && q <= w / w
    ensures q <= 1.0
  {
    assert w / w == 1.0;
  }

  lemma InverseInUnit(n: nat)
    requires n > 0
    ensures Inverse(n).value <= 1.0
    ensures -HALF_ULP <= Inverse(n).value - Share(1, n) <= HALF_ULP
  {
    ShareInUnit(1, n);
    AboveOne(Share(1, n));
    DoubleNear(Share(1, n));
  }
}
