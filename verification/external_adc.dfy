/**
 The sampling task of the external ADC, word by word. Each completed record goes through the period
 counter, the window and the recorder, so that all three always speak of the same stream of records: the
 window of its last records, the period counter of one of its channels, the recorder of its blocks.
 */
module ExternalAdc {
  import opened Arithmetic
  import opened CalibrationBlock
  import opened Samples
  import opened SampleWindow
  import opened PeriodCounting
  import opened ChunkRecorder

  /** The channel that is sent last; its word completes a record. */
  const LAST_RAW: nat := 10

  class SampleTask {
    const raws: array<Raw>
    const window: Window
    const periods: PeriodCounter
    const recorder: Recorder

    /** The arrays are distinct. */
    ghost predicate Apart() {
      var r: object, t: object, p: object, f: object, c: object :=
        raws, window.tallies, window.published, recorder.filling, recorder.complete;
      r !in {t, p, f, c} && t !in {f, c} && p !in {f, c}
    }

    ghost predicate Valid()
      reads window, window.tallies, window.published, periods, recorder, recorder.filling, recorder.complete
    {
      && raws.Length == 16 && Apart()
      && window.Valid() && periods.Valid() && recorder.Valid()
      && OneStream(recorder.stream, window.records, periods.heard, periods.past)
    }

    constructor ()
      ensures Valid() && recorder.stream == []
    {
      raws := new Raw[16](_ => 0);
      window := new Window();
      periods := new PeriodCounter();
      recorder := new Recorder();
    }

    /** One word of the converter. The clock decides whether the window closes with this record. The result is false
        if an assertion of the source fails, which stops the device. */
    method Word(channel: nat, value: Raw, cal: Calibrations, closes: bool) returns (ok: bool)
      requires Valid() && channel < 16
      modifies raws, window, window.tallies, window.published
      modifies periods, recorder, recorder.filling, recorder.complete
      ensures raws[..] == old(raws[..])[channel := value]
      ensures channel != 10 ==> ok && recorder.stream == old(recorder.stream)
      ensures ok ==> Valid()
      ensures channel == 10 ==>
                (ok <==> && (|old(window.records)| + 1) * 4096 * 4096 < INT64
                         && (closes ==> (|old(window.records)| + 1) % UINT32 != 0))
      ensures ok && channel == 10 ==>
                && |recorder.stream| > 0
                && var r := recorder.stream[|recorder.stream| - 1];
                   && recorder.stream == old(recorder.stream) + [r] && Acquired(r, raws[..], cal)
                   && ((forall i :: 0 <= i < 26 ==> cal[i] == IDENTITY) ==> Represents(r, raws[..]))
      ensures ok && channel == 10 ==>
                var r := Calibrated(Assemble(raws[..]), cal);
                && recorder.stream == old(recorder.stream) + [r]
                && window.records == if closes then [] else old(window.records) + [r]
    {
      hide Acquired, Represents, Calibrated, Assemble;
      raws[channel] := value;
      ok := true;
      if channel == LAST_RAW {
        var r := Calibrated(Assemble(raws[..]), cal);
        CalibratedIsAcquired(raws[..], cal);
        ok := Process(r, closes);
      }
    }

    method Process(r: Record, closes: bool) returns (ok: bool)
      requires Valid()
      modifies window, window.tallies, window.published
      modifies periods, recorder, recorder.filling, recorder.complete
      ensures ok <==> && (|old(window.records)| + 1) * 4096 * 4096 < INT64
                      && (closes ==> (|old(window.records)| + 1) % UINT32 != 0)
      ensures ok ==> Valid() && recorder.stream == old(recorder.stream) + [r]
      ensures ok && !closes ==> window.records == old(window.records) + [r] && periods.oldPeak == old(periods.oldPeak)
      ensures ok && closes ==>
                && window.records == []
                && periods.oldPeak == Peak(ChannelOf(old(window.records) + [r], VOLT_L21))
                && var count := (|old(window.records)| + 1) % UINT32;
                   count > 0
                   && PublishedFrom(old(window.published[..]), window.published[..], old(window.records) + [r], count)
    {
      hide OneStream, Tallied, PublishedFrom, PowerOf, Armed, LastEnd, Periods, TallyOf, Peak, HeldSince;
      hide PublishedMeans;
      ghost var stream, rs, heard, past := recorder.stream, window.records, periods.heard, periods.past;
      periods.Count(r[VOLT_L21]);
      StreamNext(stream, rs, heard, past, r, periods.oldPeak);
      ok := window.Gather(r);
      if !ok {
        return;
      }
      if closes {
        var peak := window.tallies[VOLT_L21].peak;
        PeakTallied(window.tallies[..], window.records);
        ok := window.Close();
        if !ok {
          return;
        }
        periods.CloseWindow(peak);
      }
      recorder.Push(r);
    }
  }

  /** The window holds the last records of the stream, the period counter has heard one channel of it, and the
      windows of the two are the same. */
  ghost predicate OneStream(stream: seq<Record>, records: seq<Record>, heard: seq<Reading>, past: seq<Reading>) {
    && |records| <= |stream| == |heard|
    && records == stream[|stream| - |records|..]
    && past == heard[..|stream| - |records|]
    && forall k :: 0 <= k < |stream| ==> heard[k].value == stream[k][VOLT_L21]
  }

  lemma StreamNext(stream: seq<Record>, records: seq<Record>, heard: seq<Reading>, past: seq<Reading>,
                   r: Record, peak: nat)
    requires OneStream(stream, records, heard, past)
    ensures var heard' := heard + [Reading(r[VOLT_L21], peak)];
            OneStream(stream + [r], records + [r], heard', past) && OneStream(stream + [r], [], heard', heard')
  {
  }

  lemma PeakTallied(ts: seq<Tally>, records: seq<Record>)
    requires Tallied(ts, records)
    ensures ts[VOLT_L21].peak == Peak(ChannelOf(records, VOLT_L21))
  {
    hide Peak;
  }
}
