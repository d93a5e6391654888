/** The arithmetic of a multiply-with-carry generator with 16-bit digits. */
module Mwc {
  import opened Arithmetic
  import opened Integers

  /** One step as the machine computes it: a 32-bit product and a 32-bit sum. */
  function Step(m: Uint32, x: Uint32): Uint32 {
    ((x % TWO_TO_16 * m) % TWO_TO_32 + x / TWO_TO_16) % TWO_TO_32
  }

  /** The number whose multiples the step respects. */
  function Modulus(m: Uint32): int {
    m * TWO_TO_16 - 1
  }

  ghost predicate IsMultiplier(m: Uint32) {
    1 < m < TWO_TO_16
  }

  // ---------------------------------------------------------------------------------------
  // Exactness and congruence
  // ---------------------------------------------------------------------------------------

  lemma ProductFits(m: Uint32, l: int)
    requires IsMultiplier(m) && 0 <= l < TWO_TO_16
    ensures 0 <= l * m <= (TWO_TO_16 - 1) * m
  {
    ProductMonotone(0, l, m);
    ProductMonotone(l, TWO_TO_16 - 1, m);
  }

  /** Neither the product nor the sum overflows. */
  lemma StepIsExact(m: Uint32, x: Uint32)
    requires IsMultiplier(m)
    ensures Step(m, x) == x % TWO_TO_16 * m + x / TWO_TO_16
  {
    ProductFits(m, x % TWO_TO_16);
    SmallRemainder(x % TWO_TO_16 * m, TWO_TO_32);
    SmallRemainder(x % TWO_TO_16 * m + x / TWO_TO_16, TWO_TO_32);
  }

  /** Multiplying the next state by 2^16 gives the state, up to a multiple of the modulus. */
  lemma StepCongruent(m: Uint32, x: Uint32)
    requires IsMultiplier(m)
    ensures TWO_TO_16 * Step(m, x) == x + x % TWO_TO_16 * Modulus(m)
  {
    StepIsExact(m, x);
    var l, h := x % TWO_TO_16, x / TWO_TO_16;
    assert x == TWO_TO_16 * h + l;
    calc {
      TWO_TO_16 * Step(m, x);
      TWO_TO_16 * (l * m + h);
      l * m * TWO_TO_16 + TWO_TO_16 * h;
      l * m * TWO_TO_16 + x - l;
      x + l * (m * TWO_TO_16 - 1);
    }
  }

  /** The state after `n` steps. */
  function Iterate(m: Uint32, x: Uint32, n: nat): Uint32 {
    if n == 0 then x else Step(m, Iterate(m, x, n - 1))
  }

  function Power(b: nat, n: nat): nat {
    if n == 0 then 1 else b * Power(b, n - 1)
  }

  ghost predicate Congruent(a: int, b: int, p: int) {
    exists k: int :: a == b + k * p
  }

  lemma Chained(t: int, w: int, s: int, y: int, l: int, p: int, x: int, k: int)
    requires t * s == y + l * p && w * y == x + k * p
    ensures t * w * s == x + (k + w * l) * p
  {
    calc {
      t * w * s;
      w * (t * s);
      w * (y + l * p);
      w * y + w * (l * p);
      x + k * p + (w * l) * p;
      x + (k + w * l) * p;
    }
  }

  /** After `n` steps, multiplying by 2^(16 n) leads back to the seed. */
  lemma {:induction false} IterateCongruent(m: Uint32, x: Uint32, n: nat)
    requires IsMultiplier(m)
    ensures Congruent(Power(TWO_TO_16, n) * Iterate(m, x, n), x, Modulus(m))
  {
    var p := Modulus(m);
    if n == 0 {
      assert Power(TWO_TO_16, 0) * Iterate(m, x, 0) == x + 0 * p;
    } else {
      var y, w := Iterate(m, x, n - 1), Power(TWO_TO_16, n - 1);
      IterateCongruent(m, x, n - 1);
      var k: int :| w * y == x + k * p;
      StepCongruent(m, y);
      Chained(TWO_TO_16, w, Step(m, y), y, y % TWO_TO_16, p, x, k);
    }
  }

  // ---------------------------------------------------------------------------------------
  // The step is a bijection on the states from zero to the modulus
  // ---------------------------------------------------------------------------------------

  ghost predicate InRange(m: Uint32, x: int) {
    0 <= x <= Modulus(m)
  }

  /** The state before. */
  function Back(m: Uint32, y: Uint32): int
    requires m > 0
  {
    y % m * TWO_TO_16 + y / m
  }

  lemma StepInRange(m: Uint32, x: Uint32)
    requires IsMultiplier(m) && InRange(m, x)
    ensures InRange(m, Step(m, x)) && Back(m, Step(m, x)) == x
    ensures x > 0 ==> Step(m, x) > 0
  {
    var l, h := x % TWO_TO_16, x / TWO_TO_16;
    assert x == TWO_TO_16 * h + l;
    StepIsExact(m, x);
    assert h < m;
    DivisionIs(Step(m, x), l, m, h);
    ProductFits(m, l);
  }

  lemma BackInRange(m: Uint32, y: Uint32)
    requires IsMultiplier(m) && InRange(m, y)
    ensures InRange(m, Back(m, y)) && Step(m, Back(m, y)) == y
  {
    var l, h := y / m, y % m;
    assert y == l * m + h;
    assert l < TWO_TO_16 by {
      assert l >= TWO_TO_16 ==> l * m >= TWO_TO_16 * m;
    }
    DivisionIs(Back(m, y), h, TWO_TO_16, l);
    assert h * TWO_TO_16 <= (m - 1) * TWO_TO_16;
    StepIsExact(m, Back(m, y));
  }

  /** Different states have different successors. */
  lemma StepIsInjective(m: Uint32, x: Uint32, y: Uint32)
    requires IsMultiplier(m) && InRange(m, x) && InRange(m, y) && Step(m, x) == Step(m, y)
    ensures x == y
  {
    StepInRange(m, x);
    StepInRange(m, y);
  }

  /** Only zero is followed by zero. */
  lemma OnlyZeroToZero(m: Uint32, x: Uint32)
    requires IsMultiplier(m)
    ensures Step(m, x) == 0 <==> x == 0
  {
    StepIsExact(m, x);
    ProductFits(m, x % TWO_TO_16);
    if x % TWO_TO_16 > 0 {
      assert x % TWO_TO_16 * m >= m;
    }
  }

  lemma {:induction false} NeverZero(m: Uint32, x: Uint32, n: nat)
    requires IsMultiplier(m) && x != 0
    ensures Iterate(m, x, n) != 0
  {
    if n == 0 {
    } else {
      NeverZero(m, x, n - 1);
      OnlyZeroToZero(m, Iterate(m, x, n - 1));
    }
  }

  /** Any 32-bit seed is in the range after two steps. */
  lemma InRangeAfterTwo(m: Uint32, x: Uint32)
    requires IsMultiplier(m)
    ensures InRange(m, Step(m, Step(m, x)))
  {
    var y := Step(m, x);
    var l, h := y % TWO_TO_16, y / TWO_TO_16;
    StepIsExact(m, x);
    StepIsExact(m, y);
    ProductFits(m, x % TWO_TO_16);
    ProductFits(m, l);
    assert y == TWO_TO_16 * h + l <= (TWO_TO_16 - 1) * m + (TWO_TO_16 - 1);
    assert h <= m;
    if h == m {
      MultiplesApart(l, TWO_TO_16 - m, m);
      assert (TWO_TO_16 - m) * m == TWO_TO_16 * m - m * m;
      ProductMonotone(1, m, m);
    }
  }

  // ---------------------------------------------------------------------------------------
  // Seeds that get stuck
  // ---------------------------------------------------------------------------------------

  /** The multipliers of the two halves of a lane. */
  const MULTIPLIER_A: Uint32 := 0x4650
  const MULTIPLIER_B: Uint32 := 0x78B7

  ghost predicate IsOurs(m: Uint32) {
    m == MULTIPLIER_A || m == MULTIPLIER_B
  }

  /** `m - 1` and 2^16 - 1 have no common divisor. */
  lemma Coprime(m: Uint32) returns (a: int, b: int)
    requires IsOurs(m)
    ensures a * (m - 1) + b * (TWO_TO_16 - 1) == 1
  {
    if m == MULTIPLIER_A {
      a, b := 18704, -5137;
    } else {
      a, b := -24187, 11405;
    }
  }

  lemma Bezout(l: int, a: int, s: int, b: int, n: int, h: int)
    requires a * s + b * n == 1 && l * s == n * h
    ensures l == n * (a * h + b * l)
  {
    assert l * (a * s + b * n) == l * (a * s) + l * (b * n);
    assert l * (a * s) == a * (l * s);
    assert a * (n * h) == n * (a * h);
    assert l * (b * n) == n * (b * l);
    assert n * (a * h + b * l) == n * (a * h) + n * (b * l);
  }

  lemma FixedDigits(m: Uint32, l: int, h: int)
    requires IsOurs(m) && 0 <= l < TWO_TO_16 && l * (m - 1) == (TWO_TO_16 - 1) * h
    ensures l == 0 || l == TWO_TO_16 - 1
  {
    var a, b := Coprime(m);
    Bezout(l, a, m - 1, b, TWO_TO_16 - 1, h);
  }

  /** Two states only are followed by themselves: zero and the modulus. */
  lemma FixedPoints(m: Uint32, x: Uint32)
    requires IsOurs(m)
    ensures Step(m, x) == x <==> x == 0 || x == Modulus(m)
  {
    var l, h := x % TWO_TO_16, x / TWO_TO_16;
    assert x == TWO_TO_16 * h + l;
    StepIsExact(m, x);
    if Step(m, x) == x {
      assert l * (m - 1) == l * m - l;
      FixedDigits(m, l, h);
    } else if x == Modulus(m) {
      DivisionIs(x, m - 1, TWO_TO_16, TWO_TO_16 - 1);
    }
  }

  ghost predicate Divides(p: int, x: int) {
    exists k: int :: x == k * p
  }

  lemma MultipleForward(t: int, m: int, y: int, j: int, p: int)
    requires t * y == j * p && p == m * t - 1
    ensures y == (m * j - y) * p
  {
    calc {
      (m * j - y) * p;
      m * (j * p) - y * p;
      m * (t * y) - y * (m * t - 1);
      y;
    }
  }

  lemma MultipleBack(t: int, y: int, x: int, k: int, l: int, p: int)
    requires y == k * p && t * y == x + l * p
    ensures x == (t * k - l) * p
  {
    assert t * (k * p) == t * k * p;
  }

  lemma SumOfMultiples(j: int, k: int, p: int)
    ensures j * p + k * p == (j + k) * p
  {
  }

  /** The step keeps being a multiple of the modulus, and not being one. */
  lemma StepKeepsDivides(m: Uint32, x: Uint32)
    requires IsMultiplier(m)
    ensures Divides(Modulus(m), Step(m, x)) <==> Divides(Modulus(m), x)
  {
    StepCongruent(m, x);
    DividesBoth(TWO_TO_16, m, Step(m, x), x, x % TWO_TO_16, Modulus(m));
  }

  lemma DividesBoth(t: int, m: int, y: int, x: int, l: int, p: int)
    requires t * y == x + l * p && p == m * t - 1
    ensures Divides(p, y) <==> Divides(p, x)
  {
    if Divides(p, x) {
      var k: int :| x == k * p;
      SumOfMultiples(k, l, p);
      MultipleForward(t, m, y, k + l, p);
    }
    if Divides(p, y) {
      var k: int :| y == k * p;
      MultipleBack(t, y, x, k, l, p);
    }
  }

  lemma {:induction false} IterateKeepsDivides(m: Uint32, x: Uint32, n: nat)
    requires IsMultiplier(m)
    ensures Divides(Modulus(m), Iterate(m, x, n)) <==> Divides(Modulus(m), x)
  {
    if n == 0 {
    } else {
      IterateKeepsDivides(m, x, n - 1);
      StepKeepsDivides(m, Iterate(m, x, n - 1));
    }
  }

  lemma MultiplesInRange(m: Uint32, x: Uint32)
    requires IsMultiplier(m) && InRange(m, x)
    ensures Divides(Modulus(m), x) <==> x == 0 || x == Modulus(m)
  {
    var p := Modulus(m);
    assert 0 == 0 * p && p == 1 * p;
    if Divides(p, x) {
      var k: int :| x == k * p;
      assert k >= 2 ==> k * p >= 2 * p;
      assert k <= -1 ==> k * p <= -p;
    }
  }

  ghost predicate IsStuck(m: Uint32, x: Uint32, n: nat) {
    Iterate(m, x, n + 1) == Iterate(m, x, n)
  }

  /** A seed ends in a constant sequence exactly if it is a multiple of the modulus. So there are
      seeds that do besides zero and the modulus. */
  lemma StuckIffMultiple(m: Uint32, seed: Uint32)
    requires IsOurs(m)
    ensures (exists n: nat :: IsStuck(m, seed, n)) <==> Divides(Modulus(m), seed)
  {
    if Divides(Modulus(m), seed) {
      IterateKeepsDivides(m, seed, 2);
      InRangeAfterTwo(m, seed);
      assert Iterate(m, seed, 2) == Step(m, Step(m, seed)) by {
        assert Iterate(m, seed, 1) == Step(m, seed);
      }
      MultiplesInRange(m, Iterate(m, seed, 2));
      FixedPoints(m, Iterate(m, seed, 2));
      assert IsStuck(m, seed, 2);
    }
    if n: nat :| IsStuck(m, seed, n) {
      FixedPoints(m, Iterate(m, seed, n));
      assert 0 == 0 * Modulus(m) && Modulus(m) == 1 * Modulus(m);
      IterateKeepsDivides(m, seed, n);
    }
  }

  /** For example twice the modulus, which is a 32-bit number too. */
  lemma TwiceModulusGetsStuck(m: Uint32)
    requires IsOurs(m)
    ensures 2 * Modulus(m) < TWO_TO_32 && exists n: nat :: IsStuck(m, 2 * Modulus(m), n)
  {
    StuckIffMultiple(m, 2 * Modulus(m));
  }
}
