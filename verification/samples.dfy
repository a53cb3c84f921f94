/**
 The samples of the external ADC: how the words it sends are put together into records of one signed,
 calibrated 16-bit value a channel.
 */
module Samples {
  import opened Arithmetic
  import opened CalibrationBlock

  type Int16 = x: int | -0x8000 <= x < 0x8000

  /** The value channels, in the order of their enumeration. */
  const VALUES: nat := 11
  const CURR_L1: nat := 0
  const CURR_L2: nat := 1
  const CURR_L3: nat := 2
  const VREF: nat := 3
  const VOLT_L21: nat := 4
  const VOLT_L32: nat := 5
  const VOLT_L13: nat := 6
  const AUX_VOLT: nat := 7
  const TEMP_L1: nat := 8   // and two more after it

  /** One sample of each value channel. */
  type Record = r: seq<Int16> | |r| == VALUES witness seq(VALUES, _ => 0)

  /** The samples of one channel. */
  function ChannelOf(records: seq<Record>, channel: nat): (samples: seq<Int16>)
    requires channel < VALUES
    ensures |samples| == |records|
  {
    seq(|records|, i requires 0 <= i < |records| => records[i][channel])
  }

  // ----- From raw channels to values -----

  /** What the converter last sent for each of its 16 channels: 12 bits each. */
  type Raw = w: int | 0 <= w < 0x1000

  type Raws = r: seq<Raw> | |r| == 16 witness seq(16, _ => 0)

  /** Each current has one sensor for either direction. */
  function Current(pos: Raw, neg: Raw): Int16 {
    if pos > neg then pos else -(neg as int)
  }

  function AgainstReference(volt: Raw, vref: Raw): Int16 {
    volt as int - vref as int
  }

  function Assemble(raw: Raws): Record {
    [Current(raw[0], raw[1]), Current(raw[2], raw[3]), Current(raw[4], raw[5]), raw[6],
     AgainstReference(raw[7], raw[6]), AgainstReference(raw[8], raw[6]), AgainstReference(raw[9], raw[6]),
     raw[10], raw[12], raw[13], raw[14]]
  }

  /** The stronger of the two sensors, with the sign of its direction; of a current that drives only one sensor it is
      the current itself, and exchanging the sensors reverses it. */
  lemma CurrentMeaning(pos: Raw, neg: Raw)
    ensures var c := Current(pos, neg);
            && IsCurrentOf(c, pos, neg)
            && (pos == 0 || neg == 0 ==> c as int == pos as int - neg as int)
            && (pos != neg ==> Current(neg, pos) as int == -(c as int))
  {
  }

  /** c is the stronger of two sensors, with the sign of its direction. */
  predicate IsCurrentOf(c: int, pos: Raw, neg: Raw) {
    && (c > 0 <==> pos > neg)
    && (if c < 0 then -c else c) == (if pos > neg then pos else neg)
  }

  /** The record r is what the 16 channels of the converter mean. */
  predicate Represents(r: Record, raw: Raws) {
    && IsCurrentOf(r[CURR_L1], raw[0], raw[1])
    && IsCurrentOf(r[CURR_L2], raw[2], raw[3])
    && IsCurrentOf(r[CURR_L3], raw[4], raw[5])
    && r[VREF] as int == raw[6] as int
    && r[VOLT_L21] as int + raw[6] as int == raw[7] as int
    && r[VOLT_L32] as int + raw[6] as int == raw[8] as int
    && r[VOLT_L13] as int + raw[6] as int == raw[9] as int
    && r[AUX_VOLT] as int == raw[10] as int
    && r[TEMP_L1] as int == raw[12] as int
    && r[TEMP_L1 + 1] as int == raw[13] as int
    && r[TEMP_L1 + 2] as int == raw[14] as int
  }

  lemma AssembledRepresents(raw: Raws)
    ensures Represents(Assemble(raw), raw)
  {
    hide Current;
    CurrentMeaning(raw[0], raw[1]);
    CurrentMeaning(raw[2], raw[3]);
    CurrentMeaning(raw[4], raw[5]);
  }

  /** Before calibration every value stays below 4096 in magnitude. */
  lemma AssembledBelow4096(raw: Raws)
    ensures forall c :: 0 <= c < VALUES ==> -4096 < Assemble(raw)[c] < 4096
  {
    hide AgainstReference, Current;
    CurrentMeaning(raw[0], raw[1]);
    CurrentMeaning(raw[2], raw[3]);
    CurrentMeaning(raw[4], raw[5]);
    AgainstReferenceRange(raw[7], raw[6]);
    AgainstReferenceRange(raw[8], raw[6]);
    AgainstReferenceRange(raw[9], raw[6]);
  }

  lemma AgainstReferenceRange(volt: Raw, vref: Raw)
    ensures -4096 < AgainstReference(volt, vref) < 4096
  {
  }

  /** Positive values have coefficients of their own. */
  function Calibrate(v: Int16, cal: Calibrations, channel: nat): Int16
    requires channel < VALUES
  {
    ToInt16(ApplyCalibration(v, if v > 0 then cal[channel] else cal[VALUES + channel]))
  }

  /** r is v put through the triple of its sign: those of the positive values come first, those of the others after the
      11 positive ones. It is rounded towards zero, and kept to 16 bits. */
  ghost predicate IsCalibrated(v: Int16, r: Int16, cal: Calibrations, channel: nat)
    requires channel < VALUES
  {
    var c := cal[if v > 0 then channel else 11 + channel];
    exists k :: Rounds(Signed(c.c0) + Signed(c.c1) * v + Signed(c.c2) * v * v, 65536, r + k * UINT16)
  }

  lemma CalibrateIsCalibrated(v: Int16, cal: Calibrations, channel: nat)
    requires channel < VALUES
    ensures IsCalibrated(v, Calibrate(v, cal, channel), cal, channel)
  {
    hide Signed, ApplyCalibration, ToInt16, Rounds;
    var x: int := v;
    var c := cal[if v > 0 then channel else VALUES + channel];
    CalibrationExact(x, c);
    var r := ApplyCalibration(x, c);
    var p := Signed(c.c0) + Signed(c.c1) * x + Signed(c.c2) * x * x;
    var j :| Rounds(p, 65536, r + j * UINT32);
    var k := Int16Wraps(r);
    assert r + j * UINT32 == ToInt16(r) + (k + 65536 * j) * UINT16;
    assert Rounds(p, 65536, ToInt16(r) + (k + 65536 * j) * UINT16);
  }

  /** The record that is made of the raw channels: what they mean, calibrated channel by channel. */
  ghost predicate Acquired(r: Record, raw: Raws, cal: Calibrations) {
    exists u: Record :: Represents(u, raw) && forall c :: 0 <= c < VALUES ==> IsCalibrated(u[c], r[c], cal, c)
  }

  lemma CalibratedIsAcquired(raw: Raws, cal: Calibrations)
    ensures Acquired(Calibrated(Assemble(raw), cal), raw, cal)
    ensures (forall i :: 0 <= i < CHANNELS ==> cal[i] == IDENTITY) ==> Represents(Calibrated(Assemble(raw), cal), raw)
  {
    hide Assemble, Represents, IsCalibrated, Calibrate;
    var u := Assemble(raw);
    AssembledRepresents(raw);
    forall c | 0 <= c < VALUES
      ensures IsCalibrated(u[c], Calibrated(u, cal)[c], cal, c)
    {
      CalibrateIsCalibrated(u[c], cal, c);
    }
    if forall i :: 0 <= i < CHANNELS ==> cal[i] == IDENTITY {
      DefaultKeepsRecord(u, cal);
    }
  }

  function Calibrated(r: Record, cal: Calibrations): Record {
    seq(VALUES, c requires 0 <= c < VALUES => Calibrate(r[c], cal, c))
  }

  /** Under the default calibration a record is what the converter sent. */
  lemma DefaultKeepsRecord(r: Record, cal: Calibrations)
    requires forall i :: 0 <= i < CHANNELS ==> cal[i] == IDENTITY
    ensures Calibrated(r, cal) == r
  {
    hide ApplyCalibration;
    forall c | 0 <= c < VALUES
      ensures Calibrated(r, cal)[c] == r[c]
    {
      DefaultIsIdentity(r[c]);
    }
  }
}
