/** Arithmetic of table lengths: powers of two, bit masks and doubling in 32 bits. */
module TableLengths {
  import opened Arithmetic
  import opened Integers

  function Pow2(k: nat): (n: nat)
    ensures n > 0
  {
    if k == 0 then 1 else 2 * Pow2(k - 1)
  }

  ghost predicate IsPow2(n: nat) {
    exists k: nat :: n == Pow2(k)
  }

  lemma {:induction false} Pow2Monotone(j: nat, k: nat)
    requires j <= k
    ensures Pow2(j) <= Pow2(k)
    ensures j < k ==> 2 * Pow2(j) <= Pow2(k)
  {
    if j == k {
    } else {
      Pow2Monotone(j, k - 1);
    }
  }

  /** Between a power of two and its double there is no other power of two. */
  lemma NoPowerBetween(a: nat, b: nat)
    requires IsPow2(a) && IsPow2(b) && a <= b < 2 * a
    ensures a == b
  {
    var j: nat :| a == Pow2(j);
    var k: nat :| b == Pow2(k);
    if j < k {
      Pow2Monotone(j, k);
    } else {
      Pow2Monotone(k, j);
    }
  }

  /** Bitwise and of two unsigned numbers. */
  function And(a: nat, b: nat): (r: nat)
    ensures r <= a && r <= b
    decreases a
  {
    if a == 0 then 0 else 2 * And(a / 2, b / 2) + (if a % 2 == 1 && b % 2 == 1 then 1 else 0)
  }

  lemma {:induction false} AndZero(a: nat)
    ensures And(a, 0) == 0
  {
    if a == 0 {
    } else {
      AndZero(a / 2);
    }
  }

  lemma RemainderOfDouble(h: nat, m: nat)
    requires m > 0
    ensures h % (2 * m) == 2 * ((h / 2) % m) + h % 2
  {
    var q, r := (h / 2) / m, (h / 2) % m;
    assert h / 2 == q * m + r;
    assert q * (2 * m) == 2 * (q * m);
    DivisionIs(h, q, 2 * m, 2 * r + h % 2);
  }

  lemma AndOdd(h: nat, m: nat)
    requires m > 0
    ensures And(h, 2 * m - 1) == 2 * And(h / 2, m - 1) + h % 2
  {
    assert (2 * m - 1) / 2 == m - 1;
    assert (2 * m - 1) % 2 == 1;
  }

  /** Masking with `length - 1` is the remainder, for a power of two. */
  lemma {:induction false} MaskIsRemainder(h: nat, k: nat)
    ensures And(h, Pow2(k) - 1) == h % Pow2(k)
    decreases k
  {
    if k == 0 {
      AndZero(h);
    } else {
      var m := Pow2(k - 1);
      AndOdd(h, m);
      MaskIsRemainder(h / 2, k - 1);
      RemainderOfDouble(h, m);
    }
  }

  // ---------------------------------------------------------------------------------------
  // The loop that picks the new length
  // ---------------------------------------------------------------------------------------

  /** The value of `new_length` after `k` rounds of doubling, which wraps at 32 bits. */
  function Doubled(k: nat): (n: nat)
    ensures n < TWO_TO_32
  {
    if k == 0 then 4
    else
      var n := Doubled(k - 1);
      if n < TWO_TO_31 then 2 * n else 2 * n - TWO_TO_32
  }

  lemma {:induction false} Pow2Sum(j: nat, k: nat)
    ensures Pow2(j + k) == Pow2(j) * Pow2(k)
  {
    if k == 0 {
    } else {
      Pow2Sum(j, k - 1);
      calc {
        Pow2(j + k);
        2 * Pow2(j + (k - 1));
        2 * (Pow2(j) * Pow2(k - 1));
        Pow2(j) * (2 * Pow2(k - 1));
        Pow2(j) * Pow2(k);
      }
    }
  }

  lemma Pow2UpTo29(k: nat)
    requires k <= 29
    ensures Pow2(k) <= 0x2000_0000
    ensures k < 29 ==> Pow2(k) <= 0x1000_0000
    ensures k == 29 ==> Pow2(k) == 0x2000_0000
  {
    assert Pow2(7) == 128;
    Pow2Sum(7, 7);
    Pow2Sum(14, 7);
    Pow2Sum(21, 7);
    assert Pow2(29) == 2 * Pow2(28);
    Pow2Monotone(k, 29);
  }

  lemma {:induction false} DoubledValue(k: nat)
    ensures k <= 29 ==> Doubled(k) == 4 * Pow2(k)
    ensures k > 29 ==> Doubled(k) == 0
  {
    if k == 0 {
    } else {
      DoubledValue(k - 1);
      if k <= 30 {
        Pow2UpTo29(k - 1);
      }
    }
  }

  ghost predicate LoopEnds(elems: nat) {
    exists k: nat :: Doubled(k) >= elems
  }

  /** The doubling loop ends exactly if there are at most 2^31 entries: beyond that the 32-bit
      length wraps to zero and stays there. */
  lemma DoublingReaches(elems: nat)
    requires elems < TWO_TO_32
    ensures LoopEnds(elems) <==> elems <= TWO_TO_31
  {
    DoubledValue(29);
    Pow2UpTo29(29);
    forall k: nat ensures Doubled(k) <= TWO_TO_31 {
      DoubledValue(k);
      if k <= 29 {
        Pow2UpTo29(k);
      }
    }
    assert Doubled(29) == TWO_TO_31;
  }
}
