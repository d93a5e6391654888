/** The random number generator of the benchmark: four lanes, a buffer that is refilled, and two
    ways to read it. */
module RandomGenerator {
  import opened Arithmetic
  import opened Integers
  import opened Mwc

  const LANES: nat := 4

  /** The numbers in the buffer. */
  const STORED: nat := 9600

  /** The numbers a window steps over. */
  const WINDOW: nat := 24

  /** A 32-bit shift to the left by 16. */
  function ShiftLeft16(x: Uint32): Uint32 {
    (x * TWO_TO_16) % TWO_TO_32
  }

  /** The number that a lane puts out: the low half of `a` above the low half of `b`. */
  function Output(a: Uint32, b: Uint32): Uint32 {
    (ShiftLeft16(a) + b % TWO_TO_16) % TWO_TO_32
  }

  lemma OutputHalves(a: Uint32, b: Uint32)
    ensures Output(a, b) / TWO_TO_16 == a % TWO_TO_16
    ensures Output(a, b) % TWO_TO_16 == b % TWO_TO_16
  {
    var l, h := a % TWO_TO_16, a / TWO_TO_16;
    assert a == h * TWO_TO_16 + l;
    DivisionIs(a * TWO_TO_16, h, TWO_TO_32, l * TWO_TO_16);
    SmallRemainder(l * TWO_TO_16 + b % TWO_TO_16, TWO_TO_32);
    DivisionIs(Output(a, b), l, TWO_TO_16, b % TWO_TO_16);
  }

  /** The seeds of the lanes. */
  datatype Seeds = Seeds(a: seq<Uint32>, b: seq<Uint32>)

  ghost predicate SeedsOk(seeds: Seeds) {
    |seeds.a| == |seeds.b| == LANES
  }

  /** Sixteen 16-bit numbers seed the lanes: low half and high half of `a`, then of `b`. */
  function SeedsFrom(init: seq<Uint16>): (seeds: Seeds)
    requires |init| >= 4 * LANES
    ensures SeedsOk(seeds)
  {
    Seeds(seq(LANES, i requires 0 <= i < LANES => init[4 * i] + TWO_TO_16 * init[4 * i + 1]),
          seq(LANES, i requires 0 <= i < LANES => init[4 * i + 2] + TWO_TO_16 * init[4 * i + 3]))
  }

  /** 32-bit numbers as 16-bit numbers, low half first. */
  function HalvesOf(words: seq<Uint32>): (halves: seq<Uint16>)
    ensures |halves| == 2 * |words|
  {
    seq(2 * |words|, i requires 0 <= i < 2 * |words| =>
      if i % 2 == 0 then words[i / 2] % TWO_TO_16 else words[i / 2] / TWO_TO_16)
  }

  /** Which halves the sixteen numbers become. */
  lemma SeedHalves(init: seq<Uint16>, i: nat)
    requires |init| >= 4 * LANES && i < LANES
    ensures var seeds := SeedsFrom(init);
      && seeds.a[i] % 0x1_0000 == init[4 * i] && seeds.a[i] / 0x1_0000 == init[4 * i + 1]
      && seeds.b[i] % 0x1_0000 == init[4 * i + 2] && seeds.b[i] / 0x1_0000 == init[4 * i + 3]
  {
    DivisionIs(SeedsFrom(init).a[i], init[4 * i + 1], TWO_TO_16, init[4 * i]);
    DivisionIs(SeedsFrom(init).b[i], init[4 * i + 3], TWO_TO_16, init[4 * i + 2]);
  }

  /** Without seeds, the numbers drawn are the seeds: first for `a`, then for `b`, lane by lane. */
  lemma DrawnSeeds(rand: seq<Uint32>, i: nat)
    requires |rand| == 2 * LANES && i < LANES
    ensures var seeds := SeedsFrom(HalvesOf(rand));
      seeds.a[i] == rand[2 * i] && seeds.b[i] == rand[2 * i + 1]
  {
    var halves := HalvesOf(rand);
    assert halves[4 * i] == rand[2 * i] % TWO_TO_16 && halves[4 * i + 1] == rand[2 * i] / TWO_TO_16;
    assert halves[4 * i + 2] == rand[2 * i + 1] % TWO_TO_16 && halves[4 * i + 3] == rand[2 * i + 1] / TWO_TO_16;
  }

  /** The number that lane `i` puts out in round `n`; the first round is number one. */
  ghost function LaneOutput(seeds: Seeds, i: nat, n: nat): Uint32
    requires SeedsOk(seeds) && i < LANES
  {
    Output(Iterate(MULTIPLIER_A, seeds.a[i], n), Iterate(MULTIPLIER_B, seeds.b[i], n))
  }

  /** The stream of all numbers that the generator will ever make. */
  ghost function Stream(seeds: Seeds, k: nat): Uint32
    requires SeedsOk(seeds)
  {
    LaneOutput(seeds, k % LANES, k / LANES + 1)
  }

  /** Adding one in 32 bits. */
  function Increment(x: Uint32): Uint32 {
    if x == TWO_TO_32 - 1 then 0 else x + 1
  }

  /** A number cut to `0..maxValue`. */
  function CutTo(x: Uint32, maxValue: Uint32): (r: Uint32)
    requires maxValue < TWO_TO_32 - 1
    ensures r <= maxValue
  {
    x % Increment(maxValue)
  }

  /** What drawing a single number gives: the number, or an undefined operation. */
  datatype Outcome = Number(value: Uint32) | OutsideBuffer | DivisionByZero

  class Random {
    const a: array<Uint32>
    const b: array<Uint32>
    const res: array<Uint32>
    const randomUnsignedInts: array<Uint32>
    var nextUnsignedInt: Uint32

    ghost const seeds: Seeds

    /** The rounds made so far, and where in the stream the buffer begins. */
    ghost var rounds: nat
    ghost var base: nat

    /** The windows and the single numbers handed out so far. */
    ghost var windows: nat
    ghost var singles: nat

    ghost predicate LanesOk()
      reads this, a, b
    {
      && a.Length == b.Length == res.Length == LANES && randomUnsignedInts.Length == STORED
      && a != b && a != res && b != res
      && randomUnsignedInts != a && randomUnsignedInts != b && randomUnsignedInts != res
      && SeedsOk(seeds)
      && (forall i :: 0 <= i < LANES ==>
            && a[i] == Iterate(MULTIPLIER_A, seeds.a[i], rounds)
            && b[i] == Iterate(MULTIPLIER_B, seeds.b[i], rounds))
    }

    /** The buffer holds the latest numbers of the stream. */
    ghost predicate Valid()
      reads this, a, b, randomUnsignedInts
    {
      && LanesOk()
      && LANES * rounds == base + STORED
      && nextUnsignedInt <= STORED
      && base + nextUnsignedInt == WINDOW * windows + singles
      && (forall k :: 0 <= k < STORED ==> randomUnsignedInts[k] == Stream(seeds, base + k))
    }

    /** The place in the stream of the number that is next. */
    ghost function Position(): nat
      reads this
    {
      base + nextUnsignedInt
    }

    /** Seeds the lanes, from `rand()` if no seeds are given, and fills the buffer. */
    constructor (init: seq<Uint16>, rand: seq<Uint32>)
      requires init == [] || |init| >= 4 * LANES
      requires |rand| == 2 * LANES
      ensures Valid() && Position() == 0 && windows == singles == 0
      ensures seeds == SeedsFrom(if init == [] then HalvesOf(rand) else init)
    {
      var s := SeedsFrom(if init == [] then HalvesOf(rand) else init);
      a := new Uint32[LANES](i requires 0 <= i < LANES => s.a[i]);
      b := new Uint32[LANES](i requires 0 <= i < LANES => s.b[i]);
      res := new Uint32[LANES](_ => 0);
      randomUnsignedInts := new Uint32[STORED](_ => 0);
      seeds, rounds, base, windows, singles := s, 0, 0, 0, 0;
      nextUnsignedInt := STORED;
      new;
      RefillAll();
    }

    /** Makes the next number of every lane. */
    method Generate()
      requires LanesOk()
      modifies this`rounds, a, b, res
      ensures LanesOk() && rounds == old(rounds) + 1
      ensures forall i :: 0 <= i < LANES ==> res[i] == LaneOutput(seeds, i, rounds)
      ensures forall i :: 0 <= i < LANES ==>
        && a[i] == old(a[i]) % 0x1_0000 * 18000 + old(a[i]) / 0x1_0000
        && b[i] == old(b[i]) % 0x1_0000 * 30903 + old(b[i]) / 0x1_0000
        && res[i] / 0x1_0000 == a[i] % 0x1_0000
        && res[i] % 0x1_0000 == b[i] % 0x1_0000
    {
      StepLanes(a, MULTIPLIER_A);
      StepLanes(b, MULTIPLIER_B);
      forall i | 0 <= i < LANES {
        res[i] := Output(a[i], b[i]);
      }
      rounds := rounds + 1;
      forall i | 0 <= i < LANES
        ensures a[i] == old(a[i]) % TWO_TO_16 * MULTIPLIER_A + old(a[i]) / TWO_TO_16
        ensures b[i] == old(b[i]) % TWO_TO_16 * MULTIPLIER_B + old(b[i]) / TWO_TO_16
        ensures res[i] / TWO_TO_16 == a[i] % TWO_TO_16 && res[i] % TWO_TO_16 == b[i] % TWO_TO_16
      {
        StepIsExact(MULTIPLIER_A, old(a[i]));
        StepIsExact(MULTIPLIER_B, old(b[i]));
        OutputHalves(a[i], b[i]);
      }
    }

    static method StepLanes(x: array<Uint32>, m: Uint32)
      requires x.Length == LANES
      modifies x
      ensures forall i :: 0 <= i < LANES ==> x[i] == Step(m, old(x[i]))
    {
      forall i | 0 <= i < LANES {
        x[i] := Step(m, x[i]);
      }
    }

    method StoreResults(i: nat)
      requires res.Length == LANES && randomUnsignedInts.Length == STORED && res != randomUnsignedInts
      requires LANES * i + LANES <= STORED
      modifies randomUnsignedInts
      ensures forall k :: 0 <= k < STORED ==>
        randomUnsignedInts[k] ==
        if LANES * i <= k < LANES * i + LANES then res[k - LANES * i] else old(randomUnsignedInts[k])
    {
      forall j | 0 <= j < LANES {
        randomUnsignedInts[LANES * i + j] := res[j];
      }
    }

    /** Replaces the numbers that have been used, rounded up to a multiple of four, by the next
        numbers of the stream. */
    method RefillRandomUnsignedInts()
      requires LanesOk() && nextUnsignedInt <= STORED
      modifies this`rounds, this`nextUnsignedInt, a, b, res, randomUnsignedInts
      ensures LanesOk() && nextUnsignedInt == 0
      ensures var limit := (old(nextUnsignedInt) + LANES - 1) / LANES;
        && rounds == old(rounds) + limit
        && (forall k :: 0 <= k < LANES * limit ==>
              randomUnsignedInts[k] == Stream(seeds, LANES * old(rounds) + k))
        && (forall k :: LANES * limit <= k < STORED ==> randomUnsignedInts[k] == old(randomUnsignedInts[k]))
    {
      var limit := nextUnsignedInt / LANES + (if nextUnsignedInt % LANES != 0 then 1 else 0);
      var i := 0;
      while i < limit
        invariant 0 <= i <= limit
        invariant LanesOk() && rounds == old(rounds) + i
        invariant forall k :: 0 <= k < LANES * i ==>
          randomUnsignedInts[k] == Stream(seeds, LANES * old(rounds) + k)
        invariant forall k :: LANES * i <= k < STORED ==> randomUnsignedInts[k] == old(randomUnsignedInts[k])
      {
        Generate();
        StoreResults(i);
        i := i + 1;
      }
      nextUnsignedInt := 0;
    }

    /** Steps to the next window of numbers, refilling the buffer behind the last. It steps before it
        hands out, so if only windows are taken the first begins at place 24 of the stream and the
        n-th at place 24 n: the windows stay in the buffer and follow one another without gap or
        overlap, and none holds the first 24 numbers. */
    method NextWindow() returns (start: nat)
      requires Valid() && IsAligned(nextUnsignedInt)
      modifies this`rounds, this`base, this`nextUnsignedInt, this`windows, a, b, res, randomUnsignedInts
      ensures Valid() && IsAligned(nextUnsignedInt) && start == nextUnsignedInt
      ensures nextUnsignedInt == OffsetAfter(old(nextUnsignedInt), 1)
      ensures start + WINDOW <= STORED
      ensures Position() == old(Position()) + WINDOW && windows == old(windows) + 1
      ensures forall k :: start <= k < start + WINDOW ==>
        randomUnsignedInts[k] == Stream(seeds, WINDOW * windows + singles + (k - start))
    {
      NextIsAligned(nextUnsignedInt);
      windows := windows + 1;
      nextUnsignedInt := nextUnsignedInt + WINDOW;
      if nextUnsignedInt == STORED {
        base := base + STORED;
        RefillAll();
      }
      start := nextUnsignedInt;
    }

    /** Refills a buffer that is used up. */
    method RefillAll()
      requires LanesOk() && nextUnsignedInt == STORED && base == LANES * rounds == WINDOW * windows + singles
      modifies this`rounds, this`nextUnsignedInt, a, b, res, randomUnsignedInts
      ensures Valid() && nextUnsignedInt == 0
    {
      RefillRandomUnsignedInts();
    }

    /** The next number, cut to `0..maxValue`. This never refills the buffer, and the program checks
        neither that a number is left nor that `maxValue + 1` does not wrap to zero. */
    method NextNumber(maxValue: Uint32) returns (r: Outcome)
      requires Valid()
      modifies this`nextUnsignedInt, this`singles
      ensures Valid() && base == old(base)
      ensures singles == if r.Number? then old(singles) + 1 else old(singles)
      ensures r.OutsideBuffer? <==> old(nextUnsignedInt) == STORED
      ensures r.DivisionByZero? <==> old(nextUnsignedInt) < STORED && maxValue == TWO_TO_32 - 1
      ensures r.Number? ==> r.value == Stream(seeds, old(Position())) % (maxValue + 1)
      ensures nextUnsignedInt == if r.Number? then old(nextUnsignedInt) + 1 else old(nextUnsignedInt)
    {
      if nextUnsignedInt == STORED {
        return OutsideBuffer;
      }
      if Increment(maxValue) == 0 {
        return DivisionByZero;
      }
      r := Number(CutTo(randomUnsignedInts[nextUnsignedInt], maxValue));
      singles := singles + 1;
      nextUnsignedInt := nextUnsignedInt + 1;
    }
  }

  // ---------------------------------------------------------------------------------------
  // Mixing the two ways to read
  // ---------------------------------------------------------------------------------------

  /** The offset after `n` more windows; it is a 32-bit number. */
  function OffsetAfter(offset: Uint32, n: nat): Uint32 {
    if n == 0 then offset
    else
      var next := (OffsetAfter(offset, n - 1) + WINDOW) % TWO_TO_32;
      if next == STORED then 0 else next
  }

  ghost predicate StaysInside(offset: Uint32) {
    forall n: nat :: n > 0 ==> OffsetAfter(offset, n) + WINDOW <= STORED
  }

  /** An offset inside the buffer, on a multiple of the window. */
  ghost predicate IsAligned(offset: Uint32) {
    offset % WINDOW == 0 && offset < STORED
  }

  /** Windows stay in the buffer exactly if the offset before them is aligned, or wraps to zero with
      the first. */
  lemma InsideIffAligned(offset: Uint32)
    ensures StaysInside(offset) <==> IsAligned(offset) || offset == TWO_TO_32 - WINDOW
  {
    if IsAligned(offset) || offset == TWO_TO_32 - WINDOW {
      forall n: nat | n > 0 ensures OffsetAfter(offset, n) + WINDOW <= STORED {
        AlignedStays(offset, n);
      }
    } else {
      var n := MisalignedLeaves(offset);
      assert OffsetAfter(offset, n) + WINDOW > STORED;
    }
  }

  lemma NextIsAligned(offset: Uint32)
    requires IsAligned(offset)
    ensures offset + WINDOW == STORED || IsAligned(offset + WINDOW)
    ensures (offset + WINDOW) % TWO_TO_32 == offset + WINDOW
  {
    var q := offset / WINDOW;
    assert offset == q * WINDOW;
    DivisionIs(offset + WINDOW, q + 1, WINDOW, 0);
    SmallRemainder(offset + WINDOW, TWO_TO_32);
  }

  lemma {:induction false} AlignedStays(offset: Uint32, n: nat)
    requires IsAligned(offset) || (offset == TWO_TO_32 - WINDOW && n > 0)
    ensures IsAligned(OffsetAfter(offset, n))
  {
    if n == 0 {
    } else if n == 1 && offset == TWO_TO_32 - WINDOW {
      assert OffsetAfter(offset, 0) == offset;
    } else {
      AlignedStays(offset, n - 1);
      NextIsAligned(OffsetAfter(offset, n - 1));
    }
  }

  /** From any other offset some window reaches behind the buffer: at once, or after one that wraps,
      or when the refill has been missed. */
  lemma MisalignedLeaves(offset: Uint32) returns (n: nat)
    requires !IsAligned(offset) && offset != TWO_TO_32 - WINDOW
    ensures n > 0 && OffsetAfter(offset, n) + WINDOW > STORED
  {
    assert OffsetAfter(offset, 0) == offset;
    if offset < STORED {
      n := STORED / WINDOW;
      MisalignedWalks(offset, n);
    } else if offset + WINDOW < TWO_TO_32 {
      n := 1;
      SmallRemainder(offset + WINDOW, TWO_TO_32);
    } else {
      var low := OffsetAfter(offset, 1);
      DivisionIs(offset + WINDOW, 1, TWO_TO_32, offset + WINDOW - TWO_TO_32);
      assert 0 < low < WINDOW;
      n := STORED / WINDOW + 1;
      MisalignedWalks(low, STORED / WINDOW);
      OffsetsCompose(offset, 1, STORED / WINDOW);
    }
  }

  lemma {:induction false} MisalignedWalks(offset: Uint32, n: nat)
    requires offset % WINDOW != 0 && offset < STORED && n <= STORED / WINDOW
    ensures OffsetAfter(offset, n) == offset + WINDOW * n
  {
    if n == 0 {
    } else {
      MisalignedWalks(offset, n - 1);
      SmallRemainder(offset + WINDOW * n, TWO_TO_32);
      var q := offset / WINDOW;
      assert offset == WINDOW * q + offset % WINDOW;
    }
  }

  lemma {:induction false} OffsetsCompose(offset: Uint32, m: nat, n: nat)
    ensures OffsetAfter(offset, m + n) == OffsetAfter(OffsetAfter(offset, m), n)
  {
    if n == 0 {
    } else {
      OffsetsCompose(offset, m, n - 1);
      assert m + n - 1 == m + (n - 1);
    }
  }

  /** So after `k` single numbers, read from an aligned offset, windows stay in the buffer exactly if
      `k` is a multiple of 24 and the buffer is not used up. */
  lemma SingleNumbersBreakWindows(offset: Uint32, k: nat)
    requires IsAligned(offset) && offset + k <= STORED
    ensures StaysInside(offset + k) <==> k % WINDOW == 0 && offset + k < STORED
  {
    InsideIffAligned(offset + k);
    assert (offset + k) % WINDOW == k % WINDOW;
  }
}
