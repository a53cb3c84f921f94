/**
 The period counter of the external ADC: a trigger with hysteresis on the voltage between phases 1 and 2.
 A cycle is counted at a sample below the negative threshold, if every earlier sample of that kind is
 separated from it by one above the positive threshold. The counted periods are laid end to end: no sample
 is lost between them and none belongs to two of them.
 */
module PeriodCounting {

  /** A sample, and the peak of the window before it, half of which is the threshold in force. */
  datatype Reading = Reading(value: int, peak: nat) {
    predicate Below() {
      value < -(peak / 2)
    }

    predicate Above() {
      value > peak / 2
    }
  }

  // ----- Which samples end a period -----

  /** Since the last sample below there has been one above; or there has been none below. */
  ghost predicate Armed(h: seq<Reading>) {
    forall j :: 0 <= j < |h| && h[j].Below() ==> exists i :: j < i < |h| && h[i].Above()
  }

  /** The last sample of h ends a period. */
  ghost predicate EndsPeriod(h: seq<Reading>) {
    h != [] && h[|h| - 1].Below() && Armed(h[..|h| - 1])
  }

  /** The number of samples up to and including the last one that ended a period. */
  ghost function LastEnd(h: seq<Reading>): nat {
    if h == [] then 0 else if EndsPeriod(h) then |h| else LastEnd(h[..|h| - 1])
  }

  /** The lengths of the periods that have ended. */
  ghost function Periods(h: seq<Reading>): seq<int> {
    if h == [] then []
    else
      var before := h[..|h| - 1];
      Periods(before) + if EndsPeriod(h) then [|h| - LastEnd(before)] else []
  }

  ghost function Total(lengths: seq<int>): int {
    if lengths == [] then 0 else Total(lengths[..|lengths| - 1]) + lengths[|lengths| - 1]
  }

  lemma TotalOneMore(lengths: seq<int>, x: int)
    ensures Total(lengths + [x]) == Total(lengths) + x
  {
    assert (lengths + [x])[..|lengths|] == lengths;
  }

  /** Conservation: together, the periods that have ended are as long as all samples up to the end of the last. */
  lemma {:induction false} PeriodsConserve(h: seq<Reading>)
    ensures Total(Periods(h)) == LastEnd(h) <= |h|
  {
    hide EndsPeriod, Total;
    if h == [] {
      TotalNothing();
    } else {
      var before := h[..|h| - 1];
      PeriodsConserve(before);
      if EndsPeriod(h) {
        TotalOneMore(Periods(before), |h| - LastEnd(before));
      } else {
        assert Periods(h) == Periods(before);
      }
    }
  }

  lemma TotalNothing()
    ensures Total([]) == 0
  {
  }

  /** Between two samples that end periods the signal has been above the positive threshold then in force. */
  lemma CrossedBetween(h: seq<Reading>, a: nat, b: nat) returns (i: nat)
    requires a < b <= |h| && EndsPeriod(h[..a]) && EndsPeriod(h[..b])
    ensures a <= i < b - 1 && h[i].Above()
  {
    var before := h[..b][..b - 1];
    assert before[a - 1] == h[a - 1] == h[..a][a - 1];
    i :| a - 1 < i < |before| && before[i].Above();
    assert before[i] == h[i];
  }

  /** So no period but the first is shorter than two samples. */
  lemma {:induction false} PeriodsAreLong(h: seq<Reading>, k: nat)
    requires 0 < k < |Periods(h)|
    ensures Periods(h)[k] >= 2
  {
    if h != [] {
      var before := h[..|h| - 1];
      if k < |Periods(before)| {
        PeriodsAreLong(before, k);
      } else {
        var a := LastEnd(before);
        EndedBefore(before);
        assert h[..|h|] == h && before[..a] == h[..a];
        var i := CrossedBetween(h, a, |h|);
      }
    }
  }

  lemma {:induction false} EndedBefore(h: seq<Reading>)
    requires Periods(h) != []
    ensures LastEnd(h) <= |h| && EndsPeriod(h[..LastEnd(h)])
  {
    if EndsPeriod(h) {
      assert h[..|h|] == h;
    } else {
      var before := h[..|h| - 1];
      EndedBefore(before);
      assert before[..LastEnd(before)] == h[..LastEnd(before)];
    }
  }

  /** How one more sample changes what has been said so far. */
  lemma OneMore(h: seq<Reading>, x: Reading)
    ensures var h' := h + [x];
            && EndsPeriod(h') == (Armed(h) && x.Below())
            && Armed(h') == (if Armed(h) then !x.Below() else x.Above())
            && LastEnd(h') == (if EndsPeriod(h') then |h'| else LastEnd(h))
            && Periods(h') == Periods(h) + if EndsPeriod(h') then [|h'| - LastEnd(h)] else []
  {
    var h' := h + [x];
    assert h'[..|h|] == h;
    ArmedNext(h, x);
  }

  lemma ArmedNext(h: seq<Reading>, x: Reading)
    ensures Armed(h + [x]) == (if Armed(h) then !x.Below() else x.Above())
  {
    var h' := h + [x];
    assert forall j :: 0 <= j < |h| ==> h'[j] == h[j];
    if Armed(h) {
      if x.Below() {
        assert h'[|h|].Below();
      }
    } else if x.Above() {
      assert h'[|h|].Above();
    } else {
      var j :| 0 <= j < |h| && h[j].Below() && forall i :: j < i < |h| ==> !h[i].Above();
      assert h'[j].Below();
    }
  }

  /** The samples of w end no period: if the trigger is armed when they begin, none is below; if it is not, none is
      below after one above. */
  ghost predicate Quiet(armed: bool, w: seq<Reading>) {
    if armed then forall j :: 0 <= j < |w| ==> !w[j].Below()
    else forall i, j :: 0 <= i < j < |w| && w[i].Above() ==> !w[j].Below()
  }

  /** Exactly then is no period counted in a window, and the source divides by zero. */
  lemma {:induction false} NoPeriodExactly(h: seq<Reading>, w: seq<Reading>)
    ensures |Periods(h)| <= |Periods(h + w)|
    ensures |Periods(h + w)| == |Periods(h)| <==> Quiet(Armed(h), w)
    ensures Quiet(Armed(h), w) ==>
              (Armed(h + w) <==> Armed(h) || exists i :: 0 <= i < |w| && w[i].Above())
  {
    if w == [] {
      assert h + w == h;
    } else {
      var before, x := w[..|w| - 1], w[|w| - 1];
      assert h + w == (h + before) + [x] && w == before + [x];
      NoPeriodExactly(h, before);
      OneMore(h + before, x);
      QuietNext(Armed(h), before, x);
    }
  }

  lemma QuietNext(armed: bool, w: seq<Reading>, x: Reading)
    ensures Quiet(armed, w + [x]) <==>
              Quiet(armed, w) && (x.Below() ==> !armed && forall i :: 0 <= i < |w| ==> !w[i].Above())
    ensures (exists i :: 0 <= i < |w + [x]| && (w + [x])[i].Above()) <==>
              x.Above() || exists i :: 0 <= i < |w| && w[i].Above()
  {
    var w' := w + [x];
    assert w'[|w|] == x && forall i :: 0 <= i < |w| ==> w'[i] == w[i];
  }

  // ----- The counter -----

  class PeriodCounter {
    var rising: bool
    var counter: int
    var sum: int
    var cycles: int
    var oldPeak: nat
    var periodLength: int
    ghost var heard: seq<Reading>    // every sample so far
    ghost var past: seq<Reading>   // those before the current window

    ghost predicate Valid()
      reads this
    {
      && rising == Armed(heard)
      && counter == |heard| - LastEnd(heard)
      && sum == LastEnd(heard) - LastEnd(past)
      && cycles == |Periods(heard)| - |Periods(past)|
      && sum >= 0 && cycles >= 0
    }

    constructor ()
      ensures Valid() && heard == past == [] && oldPeak == 0
    {
      rising, counter, sum, cycles, oldPeak, periodLength := true, 0, 0, 0, 0, 0;
      heard, past := [], [];
    }

    method Count(v: int)
      requires Valid()
      modifies this
      ensures Valid() && heard == old(heard) + [Reading(v, old(oldPeak))]
      ensures past == old(past) && oldPeak == old(oldPeak) && periodLength == old(periodLength)
    {
      OneMore(heard, Reading(v, oldPeak));
      PeriodsConserve(heard);
      counter := counter + 1;
      if rising {
        if v < -(oldPeak / 2) {
          rising := false;
          sum := sum + counter;
          counter := 0;
          cycles := cycles + 1;
        }
      } else {
        if v > oldPeak / 2 {
          rising := true;
        }
      }
      heard := heard + [Reading(v, oldPeak)];
    }

    /** The end of a window: the period length is the time from the last end of a period before the window to the last
        one inside, divided by the number of periods. The source divides even if there was none; what it then
        publishes is not defined. */
    method CloseWindow(peak: nat)
      requires Valid()
      modifies this
      ensures Valid() && heard == past == old(heard) && oldPeak == peak
      ensures var n := |Periods(old(heard))| - |Periods(old(past))|;
              n > 0 ==> periodLength == (LastEnd(old(heard)) - LastEnd(old(past))) / n
    {
      oldPeak := peak;
      if cycles == 0 {
        periodLength := *;
      } else {
        periodLength := sum / cycles;
      }
      sum := 0;
      cycles := 0;
      past := heard;
    }
  }
}
