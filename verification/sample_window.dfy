/**
 One measuring window of the external ADC: sums, sums of squares and peaks that are gathered record by
 record and published when the window closes. Whatever the samples, the published values of a channel are
 ordered, |average| <= effective <= peak, no 64-bit accumulator overflows, and the power measured with two
 wattmeters is that of all three phases.
 */
module SampleWindow {
  import opened Arithmetic
  import opened Samples
  import opened CalibrationBlock

  // ----- Sums over the samples of a channel -----

  function Abs(v: int): nat {
    if v < 0 then -v else v
  }

  function Max(a: int, b: int): int {
    if a < b then b else a
  }

  function Sum(s: seq<int>): int {
    if s == [] then 0 else Sum(s[..|s| - 1]) + s[|s| - 1]
  }

  function Squares(s: seq<int>): nat {
    if s == [] then 0 else Squares(s[..|s| - 1]) + s[|s| - 1] * s[|s| - 1]
  }

  function Peak(s: seq<int>): nat {
    if s == [] then 0 else Max(Peak(s[..|s| - 1]), Abs(s[|s| - 1]))
  }

  /** The peak is the largest magnitude: none exceeds it, and one attains it. */
  lemma {:induction false} PeakIsMaximum(s: seq<int>)
    ensures forall k :: 0 <= k < |s| ==> Abs(s[k]) <= Peak(s)
    ensures s != [] ==> exists k :: 0 <= k < |s| && Abs(s[k]) == Peak(s)
  {
    if s != [] {
      var before := s[..|s| - 1];
      PeakIsMaximum(before);
      forall k | 0 <= k < |s|
        ensures Abs(s[k]) <= Peak(s)
      {
        if k < |s| - 1 {
          assert before[k] == s[k];
        }
      }
      if Peak(before) <= Abs(s[|s| - 1]) {
        assert Abs(s[|s| - 1]) == Peak(s);
      } else {
        var k :| 0 <= k < |before| && Abs(before[k]) == Peak(before);
        assert Abs(s[k]) == Peak(s);
      }
    }
  }

  // ----- The mean, the mean square and the peak are ordered -----

  lemma SquareMonotone(a: int, b: int)
    requires 0 <= a <= b
    ensures a * a <= b * b
  {
    Scale(a, b, a);
    Scale(a, b, b);
  }

  lemma SquareOfAbs(v: int)
    ensures Abs(v) * Abs(v) == v * v
  {
  }

  /** The square of the sum is at most the number of samples times the sum of squares. */
  lemma {:induction false} CauchySchwarz(s: seq<int>)
    ensures Sum(s) * Sum(s) <= |s| * Squares(s)
  {
    if s != [] {
      CauchySchwarz(s[..|s| - 1]);
      CauchyStep(|s| - 1, Sum(s[..|s| - 1]), Squares(s[..|s| - 1]), s[|s| - 1]);
    }
  }

  lemma CauchyStep(n: nat, a: int, q: nat, x: int)
    requires a * a <= n * q && (n == 0 ==> a == 0 && q == 0)
    ensures (a + x) * (a + x) <= (n + 1) * (q + x * x)
  {
    SquareOfSum(a, x);
    OneTimesMore(n, q + x * x);
    Distribute(n, q, x * x);
    if n > 0 {
      MeanProduct(n, a, q, x);
    }
  }

  lemma SquareOfSum(a: int, x: int)
    ensures (a + x) * (a + x) == a * a + 2 * (a * x) + x * x
  {
  }

  lemma Distribute(n: int, a: int, b: int)
    ensures n * (a + b) == n * a + n * b
  {
  }

  lemma Negated(a: int, b: int)
    ensures a * -b == -(a * b) && -b * -b == b * b
  {
  }

  lemma SquareNotNegative(a: int)
    ensures a * a >= 0
  {
  }

  lemma TwiceProduct(a: int, b: int)
    ensures 2 * (a * b) <= a * a + b * b
  {
    SquareNotNegative(a + -b);
    SquareOfSum(a, -b);
    Negated(a, b);
  }

  lemma MoveFactor(n: int, a: int, x: int)
    ensures a * (n * x) == n * (a * x)
  {
  }

  lemma MoveFactors(n: int, x: int)
    ensures (n * x) * (n * x) == n * (n * (x * x))
  {
    MoveFactor(n, n * x, x);
    MoveFactor(n, x, x);
  }

  lemma Cancel(n: int, a: int, b: int)
    requires n > 0 && n * a <= n * b
    ensures a <= b
  {
    if a > b {
      Scale(b + 1, a, n);
    }
  }

  /** n times twice the product is at most a * a + n * n * x * x, and so at most n * (q + n * x * x). */
  lemma MeanProduct(n: nat, a: int, q: nat, x: int)
    requires n > 0 && a * a <= n * q
    ensures 2 * (a * x) <= q + n * (x * x)
  {
    TwiceProduct(a, n * x);
    MoveFactor(n, a, x);
    MoveFactors(n, x);
    Distribute(n, a * x, a * x);
    Distribute(n, q, n * (x * x));
    Cancel(n, 2 * (a * x), q + n * (x * x));
  }

  /** No sample of s exceeds m in magnitude. */
  predicate Within(s: seq<int>, m: nat) {
    forall k :: 0 <= k < |s| ==> Abs(s[k]) <= m
  }

  lemma {:induction false} SumBounds(s: seq<int>, m: nat)
    requires Within(s, m)
    ensures Abs(Sum(s)) <= |s| * m && Squares(s) <= |s| * (m * m)
  {
    if s != [] {
      var before := s[..|s| - 1];
      SumBounds(before, m);
      SquareMonotone(Abs(s[|s| - 1]), m);
      SquareOfAbs(s[|s| - 1]);
      OneTimesMore(|before|, m);
      OneTimesMore(|before|, m * m);
    }
  }

  lemma OneTimesMore(n: nat, m: nat)
    ensures (n + 1) * m == n * m + m
  {
  }

  function Mean(s: seq<int>): int
    requires s != []
  {
    TruncatedDiv(Sum(s), |s|)
  }

  function MeanSquare(s: seq<int>): nat
    requires s != []
  {
    Squares(s) / |s|
  }

  lemma TruncatedBounds(a: int, n: nat)
    requires n > 0
    ensures Abs(TruncatedDiv(a, n)) * n <= Abs(a)
  {
  }

  lemma QuotientAtLeast(a: int, n: nat, b: int)
    requires n > 0 && n * b <= a
    ensures b <= a / n
  {
    if a / n < b {
      Scale(a / n + 1, b, n);
    }
  }

  lemma QuotientAtMost(a: int, n: nat, b: int)
    requires n > 0 && a <= n * b
    ensures a / n <= b
  {
    if a / n > b {
      Scale(b + 1, a / n, n);
    }
  }

  /** The integer nearest to the square root of m. There is no tie: the square of k + 1/2 is no integer. */
  predicate IsNearestRoot(m: nat, r: nat) {
    (r > 0 ==> (2 * r - 1) * (2 * r - 1) < 4 * m) && 4 * m < (2 * r + 1) * (2 * r + 1)
  }

  function NearestRoot(m: nat): (r: nat)
    ensures IsNearestRoot(m, r)
  {
    if m == 0 then 0
    else
      var r := NearestRoot(m - 1);
      OddSquare(r);
      OddSquare(r + 1);
      if 4 * m < (2 * r + 1) * (2 * r + 1) then r else r + 1
  }

  lemma OddSquare(r: nat)
    ensures (2 * r + 1) * (2 * r + 1) == 4 * (r * r + r) + 1
    ensures (r + 1) * (r + 1) == r * r + 2 * r + 1
  {
  }

  lemma NearestRootBetween(m: nat, a: nat, b: nat)
    requires a * a <= m <= b * b
    ensures a <= NearestRoot(m) <= b
  {
    var r := NearestRoot(m);
    hide NearestRoot;
    assert (2 * a) * (2 * a) == 4 * (a * a) && (2 * b) * (2 * b) == 4 * (b * b);
    if r < a {
      SquareMonotone(2 * r + 1, 2 * a);
    }
    if r > b {
      SquareMonotone(2 * b, 2 * r - 1);
    }
  }

  /** For every window of every length: the square of the truncated mean is at most the floored mean square, which is
      at most the square of the peak. */
  lemma MeansAreOrdered(s: seq<int>)
    requires s != []
    ensures Mean(s) * Mean(s) <= MeanSquare(s) <= Peak(s) * Peak(s)
  {
    hide Sum, Squares, Peak;
    CauchySchwarz(s);
    PeakIsMaximum(s);
    SumBounds(s, Peak(s));
    MeanBound(|s|, Sum(s), Squares(s));
    QuotientAtMost(Squares(s), |s|, Peak(s) * Peak(s));
  }

  lemma MeanBound(n: nat, a: int, q: nat)
    requires n > 0 && a * a <= n * q
    ensures TruncatedDiv(a, n) * TruncatedDiv(a, n) <= q / n
  {
    hide TruncatedDiv;
    var m := TruncatedDiv(a, n);
    TruncatedBounds(a, n);
    SquareOfAbs(a);
    SquareOfAbs(m);
    MeanStep(n, Abs(m), Abs(a), q);
    QuotientAtLeast(q, n, m * m);
  }

  lemma MeanStep(n: nat, m: nat, a: nat, q: nat)
    requires n > 0 && m * n <= a && a * a <= n * q
    ensures n * (m * m) <= q
  {
    SquareMonotone(m * n, a);
    var y := n * (m * m);
    assert (m * n) * (m * n) == y * n;
    if y > q {
      Scale(q + 1, y, n);
    }
  }

  /** What is published of a channel is ordered, |average| <= effective <= peak, and fits its 16-bit type. */
  lemma PublishedAreOrdered(s: seq<Int16>)
    requires s != []
    ensures Abs(Mean(s)) <= NearestRoot(MeanSquare(s)) <= Peak(s) <= 0x8000
    ensures ToInt16(Mean(s)) == Mean(s)
  {
    hide Sum, Squares, Peak, Mean, MeanSquare, NearestRoot, ToInt16;
    MeansAreOrdered(s);
    SquareOfAbs(Mean(s));
    NearestRootBetween(MeanSquare(s), Abs(Mean(s)), Peak(s));
    PeakIsMaximum(s);
    MeanBelow(s);
    Int16Exact(Mean(s));
  }

  lemma MeanBelow(s: seq<Int16>)
    requires s != []
    ensures Mean(s) <= 0x7FFF
  {
    hide Sum;
    SumAbove(s);
    QuotientAtMost(Sum(s), |s|, 0x7FFF);
  }

  lemma {:induction false} SumAbove(s: seq<Int16>)
    ensures Sum(s) <= 0x7FFF * |s|
  {
    if s != [] {
      SumAbove(s[..|s| - 1]);
    }
  }

  // ----- No accumulator overflows -----

  /** In a window of fewer than 2^32 records no sum and no sum of squares leaves its 64-bit type, whatever the
      samples. */
  lemma SumsFit(s: seq<Int16>)
    requires |s| < UINT32
    ensures -INT64 <= Sum(s) < INT64 && Squares(s) < INT64
  {
    assert Within(s, 0x8000);
    SumBounds(s, 0x8000);
  }

  /** What the source adds up to notice an overflow: 4096 * 4096 for each record. */
  function Guard(n: nat): nat {
    n * 4096 * 4096
  }

  /** As long as its assertion holds, sums of squares of magnitudes up to 4096 do not overflow. */
  lemma GuardSuffices(s: seq<int>)
    requires Within(s, 4096) && Guard(|s|) < INT64
    ensures Squares(s) <= Guard(|s|) < INT64
  {
    SumBounds(s, 4096);
  }

  // ----- Power with two wattmeters -----

  function RecordPower(r: Record): int {
    r[VOLT_L32] * r[CURR_L3] + -(r[VOLT_L21] as int) * r[CURR_L1]
  }

  function PowerOf(records: seq<Record>): int {
    if records == [] then 0 else PowerOf(records[..|records| - 1]) + RecordPower(records[|records| - 1])
  }

  /** The voltages of the three phases. */
  datatype Phases = Phases(u1: int, u2: int, u3: int)

  /** The two measured line voltages are differences of phase voltages. */
  predicate LineVoltages(r: Record, u: Phases) {
    r[VOLT_L21] == u.u2 - u.u1 && r[VOLT_L32] == u.u3 - u.u2
  }

  function PhasePower(r: Record, u: Phases): int {
    u.u1 * r[CURR_L1] + u.u2 * r[CURR_L2] + u.u3 * r[CURR_L3]
  }

  function CurrentSum(r: Record): int {
    r[CURR_L1] as int + r[CURR_L2] as int + r[CURR_L3] as int
  }

  /** The current that does not come back, at the voltage of phase 2. */
  function Leakage(r: Record, u: Phases): int {
    u.u2 * CurrentSum(r)
  }

  function PhasePowers(records: seq<Record>, us: seq<Phases>): int
    requires |records| == |us|
  {
    if records == [] then 0
    else PhasePowers(records[..|records| - 1], us[..|us| - 1]) + PhasePower(records[|records| - 1], us[|us| - 1])
  }

  function Leakages(records: seq<Record>, us: seq<Phases>): int
    requires |records| == |us|
  {
    if records == [] then 0
    else Leakages(records[..|records| - 1], us[..|us| - 1]) + Leakage(records[|records| - 1], us[|us| - 1])
  }

  lemma TwoWattmeters(r: Record, u: Phases)
    requires LineVoltages(r, u)
    ensures RecordPower(r) == PhasePower(r, u) - Leakage(r, u)
  {
    var i1: int, i2: int, i3: int := r[CURR_L1], r[CURR_L2], r[CURR_L3];
    assert (u.u3 - u.u2) * i3 == u.u3 * i3 - u.u2 * i3;
    assert -(u.u2 - u.u1) * i1 == u.u1 * i1 - u.u2 * i1;
    assert u.u2 * (i1 + i2 + i3) == u.u2 * i1 + u.u2 * i2 + u.u2 * i3;
  }

  /** For every window: the accumulated power is that of all three phases, less the leakage; if the currents of
      every record add up to zero, it is exactly that of all three phases. */
  lemma {:induction false} PowerIsThreePhase(records: seq<Record>, us: seq<Phases>)
    requires |records| == |us|
    requires forall k :: 0 <= k < |us| ==> LineVoltages(records[k], us[k])
    ensures PowerOf(records) == PhasePowers(records, us) - Leakages(records, us)
    ensures (forall k :: 0 <= k < |us| ==> CurrentSum(records[k]) == 0)
              ==> PowerOf(records) == PhasePowers(records, us)
  {
    if records != [] {
      PowerIsThreePhase(records[..|records| - 1], us[..|us| - 1]);
      TwoWattmeters(records[|records| - 1], us[|us| - 1]);
    }
  }

  lemma RecordPowerBound(r: Record)
    ensures -0x8000_0000 <= RecordPower(r) <= 0x7FFF_FFFF
  {
    ProductRange(r[VOLT_L32], r[CURR_L3]);
    ProductRange(r[VOLT_L21], r[CURR_L1]);
  }

  lemma ProductRange(a: Int16, b: Int16)
    ensures -0x8000 * 0x7FFF <= a * b <= 0x8000 * 0x8000
  {
    ProductBound(a, b, 0x8000, 0x8000);
    if b >= 0 {
      Scale(-0x8000, a, b);
    } else {
      Scale(a, 0x7FFF, -(b as int));
    }
  }

  /** If no sample exceeds m, the power is at most 2 * m * m a record. */
  lemma {:induction false} PowerBounds(records: seq<Record>, m: nat)
    requires forall k, c :: 0 <= k < |records| && 0 <= c < VALUES ==> Abs(records[k][c]) <= m
    ensures Abs(PowerOf(records)) <= |records| * (2 * (m * m))
  {
    if records != [] {
      var r := records[|records| - 1];
      PowerBounds(records[..|records| - 1], m);
      ProductBound(r[VOLT_L32], r[CURR_L3], m, m);
      ProductBound(-(r[VOLT_L21] as int), r[CURR_L1], m, m);
      OneTimesMore(|records| - 1, 2 * (m * m));
    }
  }

  lemma {:induction false} PowerRange(records: seq<Record>)
    ensures -0x8000_0000 * |records| <= PowerOf(records) <= 0x7FFF_FFFF * |records|
  {
    if records != [] {
      hide RecordPower;
      PowerRange(records[..|records| - 1]);
      RecordPowerBound(records[|records| - 1]);
    }
  }

  /** The power of a window of fewer than 2^32 records fits its 64-bit sum, and its mean fits the 32 bits published. */
  lemma PowerFits(records: seq<Record>)
    requires 0 < |records| < UINT32
    ensures -INT64 <= PowerOf(records) < INT64
    ensures ToInt32(TruncatedDiv(PowerOf(records), |records|)) == TruncatedDiv(PowerOf(records), |records|)
  {
    hide PowerOf, TruncatedDiv, ToInt32;
    PowerRange(records);
    TruncatedBetween(PowerOf(records), |records|, 0x8000_0000, 0x7FFF_FFFF);
    Int32Exact(TruncatedDiv(PowerOf(records), |records|));
  }

  lemma TruncatedBetween(a: int, n: nat, low: int, high: int)
    requires n > 0 && low >= 0 && high >= 0 && -(low * n) <= a <= high * n
    ensures -low <= TruncatedDiv(a, n) <= high
  {
    if a >= 0 {
      QuotientAtMost(a, n, high);
      QuotientAtLeast(a, n, 0);
    } else {
      QuotientAtMost(-a, n, low);
      QuotientAtLeast(-a, n, 0);
    }
  }

  // ----- Gathering and publishing -----

  /** Sums are kept of every channel but the reference, squares of currents and line voltages, peaks of these and of the
      auxiliary voltage. */
  predicate Summed(channel: nat) {
    channel != VREF
  }

  predicate IsCurrent(channel: nat) {
    channel <= CURR_L3
  }

  predicate IsTemperature(channel: nat) {
    channel >= TEMP_L1
  }

  predicate Squared(channel: nat) {
    IsCurrent(channel) || VOLT_L21 <= channel <= VOLT_L13
  }

  predicate Peaked(channel: nat) {
    IsCurrent(channel) || VOLT_L21 <= channel <= AUX_VOLT
  }

  datatype Tally = Tally(sum: int, squares: nat, peak: nat)

  const NO_TALLY := Tally(0, 0, 0)

  function AbsInt16(v: Int16): nat {
    if v < 0 then -(v as int) else v
  }

  function Gathered(t: Tally, channel: nat, v: Int16): Tally {
    Tally(if Summed(channel) then t.sum + v else t.sum,
          if Squared(channel) then t.squares + v * v else t.squares,
          if Peaked(channel) && t.peak < AbsInt16(v) then AbsInt16(v) else t.peak)
  }

  /** The tally of a channel over a window's samples. */
  function TallyOf(channel: nat, s: seq<int>): Tally {
    Tally(if Summed(channel) then Sum(s) else 0,
          if Squared(channel) then Squares(s) else 0,
          if Peaked(channel) then Peak(s) else 0)
  }

  lemma GatheredIsTally(channel: nat, s: seq<int>, v: Int16)
    ensures Gathered(TallyOf(channel, s), channel, v) == TallyOf(channel, s + [v])
  {
    assert (s + [v])[..|s|] == s;
  }

  datatype Published = Published(average: int, effective: nat, peak: int)

  /** The held peak of a current is signed: 32768 is kept as -32768. */
  function Hold(channel: nat, held: int, peak: nat): int {
    if peak > held then (if IsCurrent(channel) then ToInt16(peak) else ToUInt16(peak)) else held
  }

  /** What is published when a window of n records closes. */
  function Publish(p: Published, channel: nat, t: Tally, n: nat): Published
    requires n > 0
  {
    if !Summed(channel) then p
    else
      var mean := TruncatedDiv(t.sum, n);
      Published(if IsTemperature(channel) then ToUInt16(mean) else ToInt16(mean),
                if Squared(channel) then ToUInt16(NearestRoot(t.squares / n)) else p.effective,
                if Peaked(channel) then Hold(channel, p.peak, t.peak) else p.peak)
  }

  /** The published average of a current or voltage is exactly the mean, and the effective value of a current or line
      voltage exactly the root of the mean square; they are ordered. */
  lemma PublishExact(p: Published, channel: nat, s: seq<Int16>)
    requires s != [] && Summed(channel) && !IsTemperature(channel)
    ensures var q := Publish(p, channel, TallyOf(channel, s), |s|);
            && q.average == Mean(s) && Abs(q.average) <= Peak(s)
            && (Squared(channel) ==>
                  q.effective == NearestRoot(MeanSquare(s)) && Abs(q.average) <= q.effective <= Peak(s))
  {
    hide Sum, Squares, Peak, NearestRoot, TruncatedDiv, ToInt16, ToUInt16, Hold;
    PublishedAreOrdered(s);
    UInt16Exact(NearestRoot(MeanSquare(s)));
  }

  class Window {
    const tallies: array<Tally>
    const published: array<Published>
    var power: int
    var publishedPower: int
    var n: nat         // an unsigned 32-bit count
    var guard: nat
    ghost var records: seq<Record>            // the records of the window so far
    ghost var since: seq<seq<seq<Record>>>    // for each channel, the windows closed since its peak was handed out

    ghost predicate Valid()
      reads this, tallies, published
    {
      && tallies.Length == published.Length == VALUES
      && (tallies as object) != published
      && n == |records| % UINT32 && guard == Guard(|records|) && power == PowerOf(records)
      && Tallied(tallies[..], records)
      && HeldSince(published[..], since)
    }

    constructor ()
      ensures Valid() && records == [] && fresh(tallies) && fresh(published)
    {
      tallies := new Tally[VALUES](_ => NO_TALLY);
      published := new Published[VALUES](_ => Published(0, 0, 0));
      power, publishedPower, n, guard := 0, 0, 0, 0;
      records, since := [], seq(VALUES, _ => []);
    }

    /** One more record. The source asserts that the guard has not reached 2^63. */
    method Gather(r: Record) returns (ok: bool)
      requires Valid()
      modifies this, tallies
      ensures ok <==> (|old(records)| + 1) * 4096 * 4096 < INT64
      ensures Valid() && records == old(records) + [r] && publishedPower == old(publishedPower)
      ensures since == old(since)
    {
      hide Gathered, Tallied, RecordPower, HeldSince;
      ghost var before, ps := tallies[..], published[..];
      forall c | 0 <= c < VALUES {
        tallies[c] := Gathered(tallies[c], c, r[c]);
      }
      TalliedNext(before, tallies[..], records, r);
      power := power + RecordPower(r);
      guard := guard + 4096 * 4096;
      n := (n + 1) % UINT32;
      records := records + [r];
      assert records[..|records| - 1] == old(records) && published[..] == ps;
      ok := guard < INT64;
    }

    /** Publishes the window and begins a new one. The source asserts that there has been a record. */
    method Close() returns (ok: bool)
      requires Valid()
      modifies this, tallies, published
      ensures ok <==> |old(records)| % UINT32 != 0
      ensures Valid() && records == if ok then [] else old(records)
      ensures ok ==>
                var count := |old(records)| % UINT32;
                && publishedPower == ToInt32(TruncatedDiv(PowerOf(old(records)), count))
                && PublishedFrom(old(published[..]), published[..], old(records), count)
      ensures ok && |old(records)| < UINT32 ==>
                && PublishedMeans(old(published[..]), published[..], old(records))
                && Rounds(PowerOf(old(records)), |old(records)|, publishedPower)
      ensures |since| == VALUES
      ensures forall c :: 0 <= c < VALUES ==> since[c] == if ok then old(since)[c] + [old(records)] else old(since)[c]
    {
      hide Tallied, PublishedFrom, PublishedMeans, Publish, PowerOf, HeldSince, ToInt32, TruncatedDiv, Rounds;
      SinceAll(published[..], since);
      if n == 0 {
        return false;
      }
      ghost var ps, ts, rs := published[..], tallies[..], records;
      forall c | 0 <= c < VALUES {
        published[c] := Publish(published[c], c, tallies[c], n);
      }
      ghost var qs := published[..];
      AllPublished(ps, qs, ts, rs, n);
      HeldNext(ps, qs, since, rs, n);
      if |rs| < UINT32 {
        MeansFrom(ps, qs, rs);
        PowerFits(rs);
        DivRounds(PowerOf(rs), |rs|);
      }
      publishedPower := ToInt32(TruncatedDiv(power, n));
      forall c | 0 <= c < VALUES {
        tallies[c] := NO_TALLY;
      }
      NothingTallied(tallies[..]);
      power, guard, n := 0, 0, 0;
      since := With(since, rs);
      records := [];
      assert published[..] == qs;
      return true;
    }

    /** Hands out the held peak and begins to hold anew: the largest magnitude in all windows closed since the last
        time, for currents under a condition on these. */
    method TakePeak(channel: nat) returns (peak: nat)
      requires Valid() && channel < VALUES
      modifies published, this`since
      ensures Valid() && peak == ToUInt16(old(published[channel].peak))
      ensures published[..] == old(published[..])[channel := old(published[channel]).(peak := 0)]
      ensures |old(since)| == VALUES && since == old(since)[channel := []]
      ensures channel <= CURR_L3 || VOLT_L21 <= channel <= AUX_VOLT ==> HandsOut(peak, channel, old(since)[channel])
    {
      hide Tallied, HandsOut, HeldSince, ToUInt16;
      ghost var ps := published[..];
      SinceAll(ps, since);
      HeldIsHandedOut(ps, since, channel);
      peak := ToUInt16(published[channel].peak);
      published[channel] := published[channel].(peak := 0);
      HeldTaken(ps, since, channel);
      since := since[channel := []];
      assert published[..] == ps[channel := ps[channel].(peak := 0)];
    }
  }

  /** Each channel has the tally of its samples. */
  predicate Tallied(ts: seq<Tally>, records: seq<Record>) {
    |ts| == VALUES && forall c :: 0 <= c < VALUES ==> ts[c] == TallyOf(c, ChannelOf(records, c))
  }

  lemma NothingTallied(ts: seq<Tally>)
    requires |ts| == VALUES && forall c :: 0 <= c < VALUES ==> ts[c] == NO_TALLY
    ensures Tallied(ts, []) && PowerOf([]) == 0
  {
  }

  /** What every channel has published after a window with these records, when n of them have been counted: that is
      all of them, unless the 32-bit count has wrapped. */
  predicate PublishedFrom(before: seq<Published>, after: seq<Published>, records: seq<Record>, n: nat)
    requires n > 0
  {
    && |before| == |after| == VALUES
    && forall c :: 0 <= c < VALUES ==>
         after[c] == Publish(before[c], c, TallyOf(c, ChannelOf(records, c)), n)
  }

  lemma AllPublished(before: seq<Published>, after: seq<Published>, ts: seq<Tally>, records: seq<Record>, n: nat)
    requires n > 0 && Tallied(ts, records) && |before| == |after| == VALUES
    requires forall c :: 0 <= c < VALUES ==> after[c] == Publish(before[c], c, ts[c], n)
    ensures PublishedFrom(before, after, records, n)
  {
    hide Publish, TallyOf;
  }

  lemma TalliedNext(ts: seq<Tally>, ts': seq<Tally>, records: seq<Record>, r: Record)
    requires Tallied(ts, records) && |ts'| == VALUES
    requires forall c :: 0 <= c < VALUES ==> ts'[c] == Gathered(ts[c], c, r[c])
    ensures Tallied(ts', records + [r])
  {
    hide Gathered, TallyOf;
    ExtendsChannels(records, r);
    forall c | 0 <= c < VALUES
      ensures ts'[c] == TallyOf(c, ChannelOf(records + [r], c))
    {
      GatheredIsTally(c, ChannelOf(records, c), r[c]);
    }
  }

  lemma ExtendsChannels(records: seq<Record>, r: Record)
    ensures forall c :: 0 <= c < VALUES ==> ChannelOf(records + [r], c) == ChannelOf(records, c) + [r[c]]
  {
  }

  // ----- What is published, channel by channel -----

  /** What channel c publishes after a window with samples s, all of them counted: every current and voltage has its
      mean, rounded towards zero, every current and line voltage the root of its mean square, every temperature its mean
      as an unsigned value; the reference is left alone, and so is the effective value of the auxiliary voltage. */
  ghost predicate PublishedMean(c: nat, before: Published, after: Published, s: seq<int>)
    requires s != []
  {
    && (c in {0, 1, 2, 4, 5, 6, 7} ==> Rounds(Sum(s), |s|, after.average) && Abs(after.average) <= Peak(s))
    && (c in {0, 1, 2, 4, 5, 6} ==>
          IsNearestRoot(Squares(s) / |s|, after.effective) && Abs(after.average) <= after.effective <= Peak(s))
    && (c in {8, 9, 10} ==>
          0 <= after.average < UINT16 && exists k :: Rounds(Sum(s), |s|, after.average + k * UINT16))
    && (c == 3 ==> after == before)
    && (c == 7 ==> after.effective == before.effective)
  }

  ghost predicate PublishedMeans(before: seq<Published>, after: seq<Published>, records: seq<Record>)
    requires records != []
  {
    && |before| == |after| == VALUES
    && forall c :: 0 <= c < VALUES ==> PublishedMean(c, before[c], after[c], ChannelOf(records, c))
  }

  lemma MeanFrom(c: nat, before: Published, s: seq<Int16>)
    requires c < VALUES && s != []
    ensures PublishedMean(c, before, Publish(before, c, TallyOf(c, s), |s|), s)
  {
    hide Rounds, Sum, Squares, Peak, NearestRoot, TruncatedDiv, ToInt16, ToUInt16, Hold, IsNearestRoot;
    DivRounds(Sum(s), |s|);
    if c in {0, 1, 2, 4, 5, 6, 7} {
      PublishExact(before, c, s);
    } else if c in {8, 9, 10} {
      var k := UInt16Wraps(Mean(s));
    }
  }

  lemma MeansFrom(before: seq<Published>, after: seq<Published>, records: seq<Record>)
    requires records != [] && PublishedFrom(before, after, records, |records|)
    ensures PublishedMeans(before, after, records)
  {
    hide PublishedMean, Publish, TallyOf;
    forall c | 0 <= c < VALUES
      ensures PublishedMean(c, before[c], after[c], ChannelOf(records, c))
    {
      MeanFrom(c, before[c], ChannelOf(records, c));
    }
  }

  // ----- Held peaks -----

  /** The peaks of a channel in a sequence of windows. */
  function PeaksOf(windows: seq<seq<Record>>, channel: nat): (peaks: seq<nat>)
    requires channel < VALUES
    ensures |peaks| == |windows|
  {
    seq(|windows|, i requires 0 <= i < |windows| => Peak(ChannelOf(windows[i], channel)))
  }

  /** What is held of each channel is what its windows since the last time make of it. */
  predicate HeldSince(ps: seq<Published>, since: seq<seq<seq<Record>>>) {
    && |ps| == |since| == VALUES
    && forall c :: 0 <= c < VALUES && Peaked(c) ==> ps[c].peak == HeldOver(c, PeaksOf(since[c], c))
  }

  lemma SinceAll(ps: seq<Published>, since: seq<seq<seq<Record>>>)
    requires HeldSince(ps, since)
    ensures |ps| == |since| == VALUES
  {
  }

  function With(since: seq<seq<seq<Record>>>, records: seq<Record>): (more: seq<seq<seq<Record>>>)
    ensures |more| == |since| && forall c :: 0 <= c < |since| ==> more[c] == since[c] + [records]
  {
    seq(|since|, c requires 0 <= c < |since| => since[c] + [records])
  }

  lemma HeldNext(ps: seq<Published>, qs: seq<Published>, since: seq<seq<seq<Record>>>, records: seq<Record>, n: nat)
    requires HeldSince(ps, since) && n > 0 && PublishedFrom(ps, qs, records, n)
    ensures HeldSince(qs, With(since, records))
  {
    hide Hold, HeldOver, Peak, PeaksOf;
    var more := With(since, records);
    forall c | 0 <= c < VALUES && Peaked(c)
      ensures qs[c].peak == HeldOver(c, PeaksOf(more[c], c))
    {
      HeldOneMore(c, since[c], records);
      assert Summed(c) && qs[c].peak == Hold(c, ps[c].peak, Peak(ChannelOf(records, c)));
    }
  }

  lemma HeldOneMore(channel: nat, windows: seq<seq<Record>>, records: seq<Record>)
    requires channel < VALUES
    ensures HeldOver(channel, PeaksOf(windows + [records], channel)) ==
            Hold(channel, HeldOver(channel, PeaksOf(windows, channel)), Peak(ChannelOf(records, channel)))
  {
    hide Hold, Peak;
    var peaks := PeaksOf(windows + [records], channel);
    assert peaks[..|peaks| - 1] == PeaksOf(windows, channel);
  }

  lemma HeldTaken(ps: seq<Published>, since: seq<seq<seq<Record>>>, channel: nat)
    requires HeldSince(ps, since) && channel < VALUES
    ensures HeldSince(ps[channel := ps[channel].(peak := 0)], since[channel := []])
  {
    hide Hold, Peak;
    assert PeaksOf([], channel) == [];
  }

  /** The magnitude p is the largest that the channel has in these windows; 0 if they have no records. */
  ghost predicate Largest(p: nat, channel: nat, windows: seq<seq<Record>>)
    requires channel < VALUES
  {
    && (forall i, k :: 0 <= i < |windows| && 0 <= k < |windows[i]| ==> Abs(windows[i][k][channel]) <= p)
    && (p == 0 || exists i, k :: 0 <= i < |windows| && 0 <= k < |windows[i]| && Abs(windows[i][k][channel]) == p)
  }

  /** No sample has the magnitude 32768, or the last window has one. */
  ghost predicate TopOnlyLast(channel: nat, windows: seq<seq<Record>>)
    requires channel < VALUES
  {
    || (forall i, k :: 0 <= i < |windows| && 0 <= k < |windows[i]| ==> Abs(windows[i][k][channel]) != 0x8000)
    || (windows != [] && var last := windows[|windows| - 1];
        exists k :: 0 <= k < |last| && Abs(last[k][channel]) == 0x8000)
  }

  /** For voltages the largest magnitude is handed out, for currents exactly under the condition on the magnitude
      32768. */
  ghost predicate HandsOut(peak: nat, channel: nat, windows: seq<seq<Record>>)
    requires channel < VALUES
  {
    Largest(peak, channel, windows) <==> channel > 2 || TopOnlyLast(channel, windows)
  }

  /** The peak held after windows with these peaks, begun anew before. */
  function HeldOver(channel: nat, peaks: seq<nat>): int {
    if peaks == [] then 0 else Hold(channel, HeldOver(channel, peaks[..|peaks| - 1]), peaks[|peaks| - 1])
  }

  /** For voltages the peak handed out is the largest since the last time. For currents that is so if and only if
      no window, or the last one, has the peak 32768. */
  lemma {:induction false} HeldExactly(channel: nat, peaks: seq<nat>)
    requires Peaked(channel) && peaks != [] && forall k :: 0 <= k < |peaks| ==> peaks[k] <= 0x8000
    ensures ToUInt16(HeldOver(channel, peaks)) == Peak(peaks) <==>
              !IsCurrent(channel) || 0x8000 !in peaks || peaks[|peaks| - 1] == 0x8000
  {
    HeldState(channel, peaks);
    PeakIsMaximum(peaks);
  }

  lemma {:induction false} HeldState(channel: nat, peaks: seq<nat>)
    requires Peaked(channel) && forall k :: 0 <= k < |peaks| ==> peaks[k] <= 0x8000
    ensures var h := HeldOver(channel, peaks);
            if !IsCurrent(channel) || 0x8000 !in peaks then h == Peak(peaks)
            else if peaks[|peaks| - 1] == 0x8000 then h == -0x8000
            else 0 <= h < 0x8000
  {
    if peaks != [] {
      var before, last := peaks[..|peaks| - 1], peaks[|peaks| - 1];
      assert peaks == before + [last];
      assert 0x8000 in peaks <==> 0x8000 in before || last == 0x8000;
      HeldState(channel, before);
      PeakIsMaximum(before);
      HoldOne(channel, HeldOver(channel, before), last);
    }
  }

  lemma HoldOne(channel: nat, held: int, peak: nat)
    requires peak <= 0x8000 && -0x8000 <= held <= 0x8000
    ensures var h := Hold(channel, held, peak);
            if peak <= held then h == held else if IsCurrent(channel) && peak == 0x8000 then h == -0x8000 else h == peak
  {
  }

  lemma LargestIsPeak(channel: nat, windows: seq<seq<Record>>, p: nat)
    requires channel < VALUES
    ensures Largest(p, channel, windows) <==> p == Peak(PeaksOf(windows, channel))
  {
    hide Peak;
    var top := Peak(PeaksOf(windows, channel));
    PeakIsLargest(channel, windows);
    if Largest(p, channel, windows) {
      LargestAtMost(channel, windows, p, top);
      LargestAtMost(channel, windows, top, p);
    }
  }

  lemma LargestAtMost(channel: nat, windows: seq<seq<Record>>, p: nat, q: nat)
    requires channel < VALUES && Largest(p, channel, windows) && Largest(q, channel, windows)
    ensures p <= q
  {
  }

  lemma SampleAt(records: seq<Record>, channel: nat, k: nat)
    requires channel < VALUES && k < |records|
    ensures ChannelOf(records, channel)[k] == records[k][channel]
  {
  }

  lemma PeakIsLargest(channel: nat, windows: seq<seq<Record>>)
    requires channel < VALUES
    ensures Largest(Peak(PeaksOf(windows, channel)), channel, windows)
  {
    hide Peak;
    var peaks := PeaksOf(windows, channel);
    PeakIsMaximum(peaks);
    forall i, k | 0 <= i < |windows| && 0 <= k < |windows[i]|
      ensures Abs(windows[i][k][channel]) <= Peak(peaks)
    {
      PeakIsMaximum(ChannelOf(windows[i], channel));
      SampleAt(windows[i], channel, k);
      assert Abs(ChannelOf(windows[i], channel)[k]) <= peaks[i] == Abs(peaks[i]);
    }
    if Peak(peaks) != 0 {
      PeakOfNothing();
      var i :| 0 <= i < |peaks| && Abs(peaks[i]) == Peak(peaks);
      var s := ChannelOf(windows[i], channel);
      PeakIsMaximum(s);
      var k :| 0 <= k < |s| && Abs(s[k]) == Peak(s);
      SampleAt(windows[i], channel, k);
      assert Abs(windows[i][k][channel]) == Peak(peaks);
    }
  }

  lemma PeakOfNothing()
    ensures Peak([]) == 0
  {
  }

  lemma TopIsPeak(channel: nat, records: seq<Record>)
    requires channel < VALUES
    ensures Peak(ChannelOf(records, channel)) <= 0x8000
    ensures Peak(ChannelOf(records, channel)) == 0x8000 <==>
              exists k :: 0 <= k < |records| && Abs(records[k][channel]) == 0x8000
  {
    hide Peak;
    var s := ChannelOf(records, channel);
    PeakOfNothing();
    PeakIsMaximum(s);
    if s != [] {
      var k :| 0 <= k < |s| && Abs(s[k]) == Peak(s);
      SampleAt(records, channel, k);
    }
    forall k | 0 <= k < |records|
      ensures Abs(records[k][channel]) <= Peak(s)
    {
      SampleAt(records, channel, k);
    }
  }

  lemma TopIsLast(channel: nat, windows: seq<seq<Record>>)
    requires channel < VALUES && windows != []
    ensures var peaks := PeaksOf(windows, channel);
            && (forall i :: 0 <= i < |peaks| ==> peaks[i] <= 0x8000)
            && (TopOnlyLast(channel, windows) <==> 0x8000 !in peaks || peaks[|peaks| - 1] == 0x8000)
  {
    hide Peak;
    var peaks := PeaksOf(windows, channel);
    forall i | 0 <= i < |windows|
      ensures peaks[i] <= 0x8000
      ensures peaks[i] == 0x8000 <==> exists k :: 0 <= k < |windows[i]| && Abs(windows[i][k][channel]) == 0x8000
    {
      TopIsPeak(channel, windows[i]);
    }
  }

  lemma HeldIsHandedOut(ps: seq<Published>, since: seq<seq<seq<Record>>>, channel: nat)
    requires HeldSince(ps, since) && channel < VALUES
    ensures channel <= CURR_L3 || VOLT_L21 <= channel <= AUX_VOLT ==>
              HandsOut(ToUInt16(ps[channel].peak), channel, since[channel])
  {
    hide Peak, HeldOver, TopOnlyLast, Largest, ToUInt16;
    if channel <= CURR_L3 || VOLT_L21 <= channel <= AUX_VOLT {
      var windows := since[channel];
      LargestIsPeak(channel, windows, ToUInt16(ps[channel].peak));
      if windows == [] {
        NothingHeld(channel);
      } else {
        TopIsLast(channel, windows);
        HeldExactly(channel, PeaksOf(windows, channel));
      }
    }
  }

  lemma NothingHeld(channel: nat)
    requires channel < VALUES
    ensures ToUInt16(HeldOver(channel, PeaksOf([], channel))) == Peak(PeaksOf([], channel)) && TopOnlyLast(channel, [])
  {
    assert PeaksOf([], channel) == [];
  }

  /** The magnitude 32768 is within reach: with these coefficients a raw current of 4095 becomes -32768. */
  lemma PeakOfCurrentReached(channel: nat, cal: Calibrations)
    requires IsCurrent(channel) && cal[channel] == Coefficients(0xFFF8_0000, 0xFFF8_0000, 0)
    ensures Current(4095, 0) == 4095 && Calibrate(4095, cal, channel) == -0x8000
    ensures AbsInt16(Calibrate(4095, cal, channel)) == 0x8000
  {
    hide Signed;
    SignedWitness();
    assert Polynomial(4095, cal[channel]) == -524288 * 4096;
  }

  lemma SignedWitness()
    ensures Signed(0xFFF8_0000) == -524288 && Signed(0) == 0
  {
  }
}
