/**
 The task of the internal ADC: five channels are converted one after the other, each conversion being
 started when the result of the one before has been taken from the queue. However the interrupt and the
 task interleave, results arrive in the cyclic order of the channels, none is lost, and each smoothing step
 works on the five values of one round.
 */
module TaskAdc {
  import opened Smoothing

  /** Temperature, external current, supply, coin cell, and the reference, which ends a round. */
  const CHANNELS: nat := 5
  const REFERENCE: nat := 4

  const QUEUE_SIZE: nat := 10
  const ROUNDS_NEEDED: nat := 16

  type Value = v: int | 0 <= v < 0x1_0000

  type Round = r: seq<Value> | |r| == CHANNELS witness seq(CHANNELS, _ => 0)

  /** What a round is converted into before it is smoothed: unsigned 32-bit words. */
  type Inputs = x: seq<nat> | |x| == CHANNELS witness seq(CHANNELS, _ => 0)

  datatype Conversion = Conversion(index: nat, value: Value)

  /** The inputs of one channel. */
  function InputsOf(inputs: seq<Inputs>, channel: nat): (xs: seq<nat>)
    requires channel < CHANNELS
    ensures |xs| == |inputs|
  {
    seq(|inputs|, k requires 0 <= k < |inputs| => inputs[k][channel])
  }

  /** Round k of the results taken from the queue. */
  function RoundOf(taken: seq<Value>, k: nat): Round
    requires CHANNELS * (k + 1) <= |taken|
  {
    taken[CHANNELS * k..CHANNELS * (k + 1)]
  }

  class AdcTask {
    const convert: Round -> Inputs   // the conversion to millivolts and degrees
    const plain: array<Value>
    const accumulators: array<nat>
    const smoothed: array<nat>
    var acquired: nat
    var sequenceIndex: nat
    var queue: seq<Conversion>
    ghost var running: bool          // a conversion has been started and has not completed
    ghost var taken: seq<Value>      // the results taken from the queue
    ghost var rounds: nat
    ghost var inputs: seq<Inputs>    // the inputs of every smoothing step

    /** The sequence: one conversion is under way, or its result is in the queue, never both. */
    ghost predicate InSequence()
      reads this
    {
      && sequenceIndex < CHANNELS && |taken| == CHANNELS * rounds + sequenceIndex
      && if running then queue == [] else |queue| == 1 && queue[0].index == sequenceIndex
    }

    /** Every channel has been through the filter once a round, and its output is that of the last round. */
    ghost predicate Filtered()
      requires accumulators.Length == smoothed.Length == CHANNELS
      reads this, accumulators, smoothed
    {
      && |inputs| == rounds
      && acquired == (if rounds <= ROUNDS_NEEDED then rounds else ROUNDS_NEEDED + 1)
      && Smoothed(accumulators[..], smoothed[..], inputs)
    }

    ghost predicate Valid()
      reads this, plain, accumulators, smoothed
    {
      && plain.Length == accumulators.Length == smoothed.Length == CHANNELS
      && (plain as object) !in {accumulators, smoothed} && accumulators != smoothed
      && InSequence() && Filtered()
      && plain[..sequenceIndex] == taken[CHANNELS * rounds..]
      && Converted(convert, taken, inputs)
    }

    constructor (convert: Round -> Inputs)
      ensures Valid() && running && taken == [] && this.convert == convert
    {
      this.convert := convert;
      plain := new Value[CHANNELS](_ => 0);
      accumulators := new nat[CHANNELS](_ => 0);
      smoothed := new nat[CHANNELS](_ => 0);
      acquired := 0;
      // startConversion(0)
      sequenceIndex, queue, running := 0, [], true;
      taken, rounds, inputs := [], 0, [];
    }

    method StartConversion(channel: nat)
      modifies this
      ensures sequenceIndex == channel && running
      ensures queue == old(queue) && acquired == old(acquired)
      ensures taken == old(taken) && rounds == old(rounds) && inputs == old(inputs)
    {
      sequenceIndex := channel;
      running := true;
    }

    /** The interrupt at the end of a conversion. The queue has room, so that no result is dropped. */
    method ConversionComplete(value: Value)
      requires Valid() && running
      modifies this
      ensures Valid() && !running && queue == [Conversion(sequenceIndex, value)]
      ensures |old(queue)| < QUEUE_SIZE
      ensures taken == old(taken) && rounds == old(rounds)
    {
      if |queue| < QUEUE_SIZE {
        queue := queue + [Conversion(sequenceIndex, value)];
      }
      running := false;
    }

    /** One turn of the task's loop: nothing if the queue stays empty. */
    method Turn()
      requires Valid()
      modifies this, plain, accumulators, smoothed
      ensures Valid()
      ensures old(running) ==> running && taken == old(taken)
      ensures !old(running) ==> running && taken == old(taken) + [old(queue[0].value)]
    {
      if queue == [] {
        return;
      }
      hide Converted, Smoothed;
      var result := queue[0];
      ConvertedMore(convert, taken, inputs, result.value);
      queue := queue[1..];
      plain[result.index] := result.value;
      taken := taken + [result.value];
      var next := result.index + 1;
      if result.index == REFERENCE {
        assert plain[..] == RoundOf(taken, rounds);
        ConvertedRound(convert, taken, inputs);
        Smooth();
        next := 0;
      }
      assert plain[..next] == taken[CHANNELS * rounds..];
      StartConversion(next);
    }

    method Smooth()
      requires plain.Length == accumulators.Length == smoothed.Length == CHANNELS && accumulators != smoothed
      requires (plain as object) !in {accumulators, smoothed} && Filtered()
      modifies this`acquired, this`rounds, this`inputs, accumulators, smoothed
      ensures Filtered() && rounds == old(rounds) + 1 && inputs == old(inputs) + [convert(plain[..])]
    {
      hide Smoothed;
      ghost var round := plain[..];
      var x := convert(plain[..]);
      ghost var accs, outs := accumulators[..], smoothed[..];
      forall c | 0 <= c < CHANNELS {
        smoothed[c] := Output(accumulators[c], x[c]);
      }
      forall c | 0 <= c < CHANNELS {
        accumulators[c] := Accumulate(accumulators[c], x[c]);
      }
      if !(ROUNDS_NEEDED < acquired) {
        acquired := acquired + 1;
      }
      SmoothedNext(accs, outs, accumulators[..], smoothed[..], inputs, x);
      inputs := inputs + [x];
      rounds := rounds + 1;
      assert plain[..] == round;
    }

    method ValuesValid() returns (valid: bool)
      requires Valid()
      ensures valid <==> rounds > 16
    {
      valid := ROUNDS_NEEDED < acquired;
    }
  }

  /** Smoothing step k worked on round k. */
  ghost predicate Converted(convert: Round -> Inputs, taken: seq<Value>, inputs: seq<Inputs>) {
    && CHANNELS * |inputs| <= |taken|
    && forall k :: 0 <= k < |inputs| ==> inputs[k] == convert(RoundOf(taken, k))
  }

  lemma ConvertedMore(convert: Round -> Inputs, taken: seq<Value>, inputs: seq<Inputs>, v: Value)
    requires Converted(convert, taken, inputs)
    ensures Converted(convert, taken + [v], inputs)
  {
    forall k | 0 <= k < |inputs|
      ensures inputs[k] == convert(RoundOf(taken + [v], k))
    {
      assert RoundOf(taken + [v], k) == RoundOf(taken, k);
    }
  }

  lemma ConvertedRound(convert: Round -> Inputs, taken: seq<Value>, inputs: seq<Inputs>)
    requires Converted(convert, taken, inputs) && CHANNELS * (|inputs| + 1) <= |taken|
    ensures Converted(convert, taken, inputs + [convert(RoundOf(taken, |inputs|))])
  {
  }

  /** The accumulators and outputs after these inputs, from a start at zero. */
  ghost predicate Smoothed(accs: seq<nat>, outs: seq<nat>, inputs: seq<Inputs>) {
    && |accs| == |outs| == CHANNELS
    && forall c :: 0 <= c < CHANNELS ==>
         var xs := InputsOf(inputs, c); var n := |inputs|;
         accs[c] == AccAfter(0, xs, n) && (n > 0 ==> outs[c] == Output(AccAfter(0, xs, n - 1), xs[n - 1]))
  }

  lemma SmoothedNext(accs: seq<nat>, outs0: seq<nat>, accs': seq<nat>, outs: seq<nat>,
                     inputs: seq<Inputs>, x: Inputs)
    requires |accs'| == |outs| == CHANNELS && Smoothed(accs, outs0, inputs)
    requires forall c :: 0 <= c < CHANNELS ==> accs'[c] == Accumulate(accs[c], x[c]) && outs[c] == Output(accs[c], x[c])
    ensures Smoothed(accs', outs, inputs + [x])
  {
    hide Output, Accumulate;
    forall c | 0 <= c < CHANNELS
      ensures var xs := InputsOf(inputs + [x], c); var n := |inputs|;
              accs'[c] == AccAfter(0, xs, n + 1) && outs[c] == Output(AccAfter(0, xs, n), xs[n])
    {
      assert InputsOf(inputs + [x], c) == InputsOf(inputs, c) + [x[c]];
      AccPrefix(0, InputsOf(inputs, c), x[c], |inputs|);
    }
  }
}
