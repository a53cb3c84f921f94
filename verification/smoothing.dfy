/**
 The smoothing filter of the internal ADC: an accumulator of 16 times the output. It never exceeds the
 largest input, and for a constant input it reaches exactly that input, on a way that is known step by step.
 */
module Smoothing {
  import opened Arithmetic

  /** The output and the accumulator after one more input, in the widths of the source. */
  function Output(acc: nat, x: nat): nat {
    (acc + x) % UINT32 / 16 % UINT16
  }

  function Accumulate(acc: nat, x: nat): nat {
    ((acc + x) % UINT32 - Output(acc, x)) % UINT32
  }

  /** The accumulator after the first n inputs. */
  function AccAfter(acc: nat, xs: seq<nat>, n: nat): nat
    requires n <= |xs|
  {
    if n == 0 then acc else Accumulate(AccAfter(acc, xs, n - 1), xs[n - 1])
  }

  lemma {:induction false} AccPrefix(acc: nat, xs: seq<nat>, x: nat, n: nat)
    requires n <= |xs|
    ensures AccAfter(acc, xs + [x], n) == AccAfter(acc, xs, n)
  {
    if n > 0 {
      AccPrefix(acc, xs, x, n - 1);
    }
  }

  // ----- Bound -----

  /** Inputs up to m, from a start of at most 15 * m: every output is at most m. */
  lemma {:induction false} OutputBounded(acc: nat, xs: seq<nat>, n: nat, m: nat)
    requires n <= |xs| && acc <= 15 * m && m < UINT16
    requires forall k :: 0 <= k < |xs| ==> xs[k] <= m
    ensures AccAfter(acc, xs, n) <= 15 * m
    ensures n < |xs| ==> Output(AccAfter(acc, xs, n), xs[n]) <= m
  {
    if n > 0 {
      OutputBounded(acc, xs, n - 1, m);
      StepBounded(AccAfter(acc, xs, n - 1), xs[n - 1], m);
    }
    if n < |xs| {
      StepBounded(AccAfter(acc, xs, n), xs[n], m);
    }
  }

  lemma StepBounded(acc: nat, x: nat, m: nat)
    requires acc <= 15 * m && x <= m < UINT16
    ensures Output(acc, x) <= m && Accumulate(acc, x) <= 15 * m
  {
    NoWrap(acc, x);
  }

  /** Nothing wraps as long as the sum fits 20 bits. */
  lemma NoWrap(acc: nat, x: nat)
    requires acc + x < 16 * UINT16
    ensures Output(acc, x) == (acc + x) / 16 && Accumulate(acc, x) == acc + x - (acc + x) / 16
  {
    Fits(acc + x, UINT32);
    Fits((acc + x) / 16, UINT16);
    Fits(acc + x - (acc + x) / 16, UINT32);
  }

  lemma Fits(v: nat, width: nat)
    requires v < width
    ensures v % width == v
  {
  }

  // ----- Convergence -----

  /** How far the accumulator is from the band [15 x, 15 x + 15] where the output is x: negative below it, positive
      above it. */
  function Distance(acc: int, x: int): int {
    if acc < 15 * x then acc - 15 * x else if acc > 15 * x + 15 then acc - 15 * x - 15 else 0
  }

  /** The distance after one more step. */
  function Shrunk(d: int): int {
    if d >= 0 then 15 * d / 16 else -(15 * -d / 16)
  }

  /** The error of the output while the distance is d: the part of d that the step takes off. */
  function ErrorAt(d: int): int {
    d - Shrunk(d)
  }

  function DistanceAfter(d: int, n: nat): int {
    if n == 0 then d else Shrunk(DistanceAfter(d, n - 1))
  }

  /** The accumulator after n inputs x. */
  function Settled(acc: nat, x: nat, n: nat): nat {
    if n == 0 then acc else Accumulate(Settled(acc, x, n - 1), x)
  }

  lemma OneStep(acc: nat, x: nat)
    requires acc + x < 16 * UINT16 && x < UINT16
    ensures Accumulate(acc, x) + x < 16 * UINT16
    ensures Distance(Accumulate(acc, x), x) == Shrunk(Distance(acc, x))
    ensures Output(acc, x) == x + ErrorAt(Distance(acc, x))
  {
    NoWrap(acc, x);
  }

  /** Step by step: the distance follows DistanceAfter, and the next output is off by exactly its ErrorAt. */
  lemma {:induction false} FollowsDistance(acc: nat, x: nat, n: nat)
    requires acc + x < 16 * UINT16 && x < UINT16
    ensures Settled(acc, x, n) + x < 16 * UINT16
    ensures Distance(Settled(acc, x, n), x) == DistanceAfter(Distance(acc, x), n)
    ensures Output(Settled(acc, x, n), x) == x + ErrorAt(DistanceAfter(Distance(acc, x), n))
  {
    if n > 0 {
      FollowsDistance(acc, x, n - 1);
      OneStep(Settled(acc, x, n - 1), x);
    }
    OneStep(Settled(acc, x, n), x);
  }

  lemma ShrunkCloser(d: int)
    ensures d > 0 ==> 0 <= Shrunk(d) < d && 0 < ErrorAt(d)
    ensures d < 0 ==> d < Shrunk(d) <= 0 && ErrorAt(d) < 0
    ensures d == 0 ==> Shrunk(d) == 0 == ErrorAt(d)
    ensures d >= 0 ==> ErrorAt(Shrunk(d)) <= ErrorAt(d)
    ensures d <= 0 ==> ErrorAt(Shrunk(d)) >= ErrorAt(d)
  {
  }

  /** Monotone: each output is at least as close to the constant input as the one before, on the same side. */
  lemma OutputsApproach(acc: nat, x: nat, n: nat)
    requires acc + x < 16 * UINT16 && x < UINT16
    ensures var y, z := Output(Settled(acc, x, n), x), Output(Settled(acc, x, n + 1), x);
            if Distance(acc, x) >= 0 then x <= z <= y else y <= z <= x
  {
    FollowsDistance(acc, x, n);
    FollowsDistance(acc, x, n + 1);
    SameSide(Distance(acc, x), n);
    SameSide(Distance(acc, x), n + 1);
    ShrunkCloser(DistanceAfter(Distance(acc, x), n));
    ShrunkCloser(DistanceAfter(Distance(acc, x), n + 1));
  }

  lemma {:induction false} SameSide(d: int, n: nat)
    ensures if d >= 0 then 0 <= DistanceAfter(d, n) <= d else d <= DistanceAfter(d, n) <= 0
  {
    if n > 0 {
      SameSide(d, n - 1);
      ShrunkCloser(DistanceAfter(d, n - 1));
    }
  }

  /** The output has reached the constant input exactly when the distance is used up; it is then there to stay. */
  lemma ReachedExactly(acc: nat, x: nat, n: nat)
    requires acc + x < 16 * UINT16 && x < UINT16
    ensures Output(Settled(acc, x, n), x) == x <==> DistanceAfter(Distance(acc, x), n) == 0
    ensures Output(Settled(acc, x, n), x) == x ==> Settled(acc, x, n + 1) == Settled(acc, x, n)
  {
    FollowsDistance(acc, x, n);
    ShrunkCloser(DistanceAfter(Distance(acc, x), n));
    NoWrap(Settled(acc, x, n), x);
  }

  /** In eleven steps the distance at least halves. */
  lemma Halves(d: int, n: nat)
    ensures var e := DistanceAfter(d, n); var f := DistanceAfter(d, n + 11);
            if d >= 0 then f <= e / 2 else -f <= -e / 2
  {
    var e := DistanceAfter(d, n);
    SameSide(d, n);
    assert DistanceAfter(d, n + 1) == Shrunk(e);
    assert DistanceAfter(d, n + 2) == Shrunk(Shrunk(e));
    assert DistanceAfter(d, n + 3) == Shrunk(DistanceAfter(d, n + 2));
    assert DistanceAfter(d, n + 4) == Shrunk(DistanceAfter(d, n + 3));
    assert DistanceAfter(d, n + 5) == Shrunk(DistanceAfter(d, n + 4));
    assert DistanceAfter(d, n + 6) == Shrunk(DistanceAfter(d, n + 5));
    assert DistanceAfter(d, n + 7) == Shrunk(DistanceAfter(d, n + 6));
    assert DistanceAfter(d, n + 8) == Shrunk(DistanceAfter(d, n + 7));
    assert DistanceAfter(d, n + 9) == Shrunk(DistanceAfter(d, n + 8));
    assert DistanceAfter(d, n + 10) == Shrunk(DistanceAfter(d, n + 9));
    assert DistanceAfter(d, n + 11) == Shrunk(DistanceAfter(d, n + 10));
  }

  /** d has at most k bits. */
  predicate HasBits(d: int, k: nat) {
    d < Pow2(k) && -d < Pow2(k)
  }

  /** After 11 steps for each of j bits, k - j bits of the distance remain. */
  lemma {:induction false} HalvedTimes(d: int, k: nat, j: nat, n: nat)
    requires j <= k && n >= 11 * j && HasBits(d, k)
    ensures HasBits(DistanceAfter(d, n), k - j)
  {
    if j == 0 {
      SameSide(d, n);
    } else {
      HalvedTimes(d, k, j - 1, n - 11);
      Halves(d, n - 11);
      SameSide(d, n - 11);
      SameSide(d, n);
    }
  }

  /** From every state that does not wrap, a constant input is reached exactly after at most 220 steps, and stays. */
  lemma Converges(acc: nat, x: nat, n: nat)
    requires acc + x < 16 * UINT16 && x < UINT16 && n >= 220
    ensures Output(Settled(acc, x, n), x) == x
  {
    assert Pow2(20) == 0x10_0000 by {
      assert Pow2(4) == 16 && Pow2(8) == 256 && Pow2(12) == 4096 && Pow2(16) == 65536;
    }
    HalvedTimes(Distance(acc, x), 20, 20, n);
    ReachedExactly(acc, x, n);
  }
}
