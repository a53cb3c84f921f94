/**
 The checksum of the calibration block. The byte loop of the source is the bit-serial CRC with generator
 x^16 + x^12 + x^5 + 1, most significant bit first, started at 0x1021; as such it detects every error
 burst of up to 16 bits, at any bit position and in messages of any length.
 */
module Crc {

  const START: bv16 := 0x1021

  // ----- The byte loop of the source -----

  function Folded(crc: bv16, b: bv8): bv8 {
    var x := ((crc >> 8) as bv8) ^ b;
    x ^ (x >> 4)
  }

  function Mixed(crc: bv16, x: bv8): bv16 {
    (crc << 8) ^ ((x as bv16) << 12) ^ ((x as bv16) << 5) ^ (x as bv16)
  }

  /** The body of the source's loop. */
  function ByteStep(crc: bv16, b: bv8): bv16 {
    Mixed(crc, Folded(crc, b))
  }

  /** The register after the first n bytes. */
  function ByteCrc(bytes: seq<bv8>, n: nat): bv16
    requires n <= |bytes|
  {
    if n == 0 then START else ByteStep(ByteCrc(bytes, n - 1), bytes[n - 1])
  }

  function Crc16(bytes: seq<bv8>): bv16 {
    ByteCrc(bytes, |bytes|)
  }

  /** The source's loop, and what it computes: the bit-serial CRC, defined below, of the bits of the message. */
  method CalcCrc(data: seq<bv8>) returns (crc: bv16)
    ensures crc == Crc16(data)
    ensures RegOf(crc) == BitCrc(StartRegister(), Bits(data, |data|), 8 * |data|)
    ensures |data| == 0 ==> crc == 0x1021
  {
    hide RegOf, BitCrc, Bits, StartRegister;
    CrcIsBitSerial(data, |data|);
    crc := START;
    var i := 0;
    while i < |data|
      invariant 0 <= i <= |data|
      invariant crc == ByteCrc(data, i)
    {
      crc := ByteStep(crc, data[i]);
      i := i + 1;
    }
  }

  // ----- Bit-serial division, the reference -----

  /** A register: its 16 bits, least significant first. */
  type Reg = r: seq<bool> | |r| == 16 witness seq(16, _ => false)

  /** The coefficients of the generator below its top term. */
  predicate Generator(i: int) {
    i == 0 || i == 5 || i == 12
  }

  /** One step of the division: the register shifts up, and where the bit that falls out differs from the bit that
      enters, the generator is subtracted. */
  function BitStep(r: Reg, bit: bool): Reg {
    seq(16, i requires 0 <= i < 16 => (i > 0 && r[i - 1]) != (Generator(i) && r[15] != bit))
  }

  /** The register after the first k bits, started at r. */
  function BitCrc(r: Reg, bits: seq<bool>, k: nat): Reg
    requires k <= |bits|
  {
    if k == 0 then r else BitStep(BitCrc(r, bits, k - 1), bits[k - 1])
  }

  /** Bit i of a word. */
  predicate Test(c: bv16, i: nat) {
    match i
    case 0 => c & 0x1 != 0
    case 1 => c & 0x2 != 0
    case 2 => c & 0x4 != 0
    case 3 => c & 0x8 != 0
    case 4 => c & 0x10 != 0
    case 5 => c & 0x20 != 0
    case 6 => c & 0x40 != 0
    case 7 => c & 0x80 != 0
    case 8 => c & 0x100 != 0
    case 9 => c & 0x200 != 0
    case 10 => c & 0x400 != 0
    case 11 => c & 0x800 != 0
    case 12 => c & 0x1000 != 0
    case 13 => c & 0x2000 != 0
    case 14 => c & 0x4000 != 0
    case 15 => c & 0x8000 != 0
    case _ => false
  }

  predicate Test8(b: bv8, i: nat) {
    Test(b as bv16, i)
  }

  function RegOf(c: bv16): Reg {
    seq(16, i requires 0 <= i < 16 => Test(c, i))
  }

  /** The register that the CRC starts from: 0x1021, the bits 0, 5 and 12. */
  function StartRegister(): Reg {
    [true, false, false, false, false, true, false, false, false, false, false, false, true, false, false, false]
  }

  lemma StartsThere()
    ensures RegOf(START) == StartRegister()
  {
    forall i: nat | i < 16
      ensures Test(START, i) == StartRegister()[i]
    {
      match i
      case 0 =>
      case 1 =>
      case 2 =>
      case 3 =>
      case 4 =>
      case 5 =>
      case 6 =>
      case 7 =>
      case 8 =>
      case 9 =>
      case 10 =>
      case 11 =>
      case 12 =>
      case 13 =>
      case 14 =>
      case 15 =>
    }
  }

  /** The bits of a byte in the order they enter, most significant first. */
  function BitsOf(b: bv8): (bits: seq<bool>)
    ensures |bits| == 8
  {
    seq(8, j requires 0 <= j < 8 => Test8(b, 7 - j))
  }

  /** The bits of the first n bytes. */
  function Bits(bytes: seq<bv8>, n: nat): (bits: seq<bool>)
    requires n <= |bytes|
    ensures |bits| == 8 * n
  {
    if n == 0 then [] else Bits(bytes, n - 1) + BitsOf(bytes[n - 1])
  }

  // ----- Eight bit steps are one byte step -----

  /** The bit fed back in the j-th of eight steps. From the fifth step on it contains the one of four steps
      before, come round through the term x^12; this is the folding x ^ (x >> 4) of the byte step. */
  predicate Fed(r: Reg, bits: seq<bool>, j: int)
    requires |bits| == 8 && 0 <= j < 8
  {
    (r[15 - j] != bits[j]) != (j >= 4 && r[15 - (j - 4)] != bits[j - 4])
  }

  /** The feedback of the first k steps as it has arrived at position i: fed in at a generator position g, it has
      shifted up since. */
  predicate FedAt(r: Reg, bits: seq<bool>, k: nat, i: int, g: int)
    requires |bits| == 8 && k <= 8
  {
    0 <= i - g < k && Fed(r, bits, k - 1 - (i - g))
  }

  /** Bit i of the register after k of eight steps, in closed form. */
  predicate Midway(r: Reg, bits: seq<bool>, k: nat, i: int)
    requires |bits| == 8 && k <= 8 && 0 <= i < 16
  {
    (((i >= k && r[i - k]) != FedAt(r, bits, k, i, 12)) != FedAt(r, bits, k, i, 5)) != FedAt(r, bits, k, i, 0)
  }

  lemma {:induction false} EightSteps(r: Reg, bits: seq<bool>, k: nat)
    requires |bits| == 8 && k <= 8
    ensures forall i :: 0 <= i < 16 ==> BitCrc(r, bits, k)[i] == Midway(r, bits, k, i)
  {
    if k > 0 {
      EightSteps(r, bits, k - 1);
    }
  }

  /** The folded byte x ^ (x >> 4), bit by bit. */
  lemma FoldBits(c: bv16, b: bv8, k: nat)
    requires k < 8
    ensures Test8(Folded(c, b), k) ==
            ((Test(c, k + 8) != Test8(b, k)) != (k < 4 && Test(c, k + 12) != Test8(b, k + 4)))
  {
    match k
    case 0 =>
    case 1 =>
    case 2 =>
    case 3 =>
    case 4 =>
    case 5 =>
    case 6 =>
    case 7 =>
  }

  /** The mixed word, bit by bit. */
  lemma MixBits(c: bv16, x: bv8, i: nat)
    requires i < 16
    ensures Test(Mixed(c, x), i) ==
            ((((i >= 8 && Test(c, i - 8)) != (i >= 12 && Test8(x, i - 12))) != (5 <= i < 13 && Test8(x, i - 5)))
             != (i < 8 && Test8(x, i)))
  {
    match i
    case 0 =>
    case 1 =>
    case 2 =>
    case 3 =>
    case 4 =>
    case 5 =>
    case 6 =>
    case 7 =>
    case 8 =>
    case 9 =>
    case 10 =>
    case 11 =>
    case 12 =>
    case 13 =>
    case 14 =>
    case 15 =>
  }

  lemma RegBit(c: bv16, i: nat)
    requires i < 16
    ensures RegOf(c)[i] == Test(c, i)
  {
  }

  lemma ByteBit(b: bv8, j: nat)
    requires j < 8
    ensures BitsOf(b)[j] == Test8(b, 7 - j)
  {
  }

  /** What the eight bit steps feed back is the folded byte. */
  lemma FedIsFolded(c: bv16, b: bv8, j: nat)
    requires j < 8
    ensures Fed(RegOf(c), BitsOf(b), j) == Test8(Folded(c, b), 7 - j)
  {
    hide Test, Test8, Folded, RegOf, BitsOf;
    FoldBits(c, b, 7 - j);
    RegBit(c, 15 - j);
    ByteBit(b, j);
    if j >= 4 {
      RegBit(c, 15 - (j - 4));
      ByteBit(b, j - 4);
    }
  }

  lemma StepBit(c: bv16, b: bv8, i: nat)
    requires i < 16
    ensures RegOf(ByteStep(c, b))[i] == Midway(RegOf(c), BitsOf(b), 8, i)
  {
    hide Test, Test8, Folded, Mixed, RegOf, BitsOf, Fed;
    RegBit(ByteStep(c, b), i);
    MixBits(c, Folded(c, b), i);
    if i >= 8 {
      RegBit(c, i - 8);
    } else {
      FedIsFolded(c, b, 7 - i);
    }
    if i >= 12 {
      FedIsFolded(c, b, 7 - (i - 12));
    }
    if 5 <= i < 13 {
      FedIsFolded(c, b, 7 - (i - 5));
    }
  }

  /** One byte step is eight bit steps. */
  lemma ByteIsEightBits(c: bv16, b: bv8)
    ensures RegOf(ByteStep(c, b)) == BitCrc(RegOf(c), BitsOf(b), 8)
  {
    hide RegOf, BitsOf, ByteStep, Midway;
    EightSteps(RegOf(c), BitsOf(b), 8);
    forall i | 0 <= i < 16
      ensures RegOf(ByteStep(c, b))[i] == Midway(RegOf(c), BitsOf(b), 8, i)
    {
      StepBit(c, b, i);
    }
  }

  // ----- The whole loop is the bit-serial division -----

  lemma {:induction false} BitCrcConcat(r: Reg, a: seq<bool>, b: seq<bool>, k: nat)
    requires k <= |b|
    ensures BitCrc(r, a + b, |a| + k) == BitCrc(BitCrc(r, a, |a|), b, k)
  {
    if k > 0 {
      BitCrcConcat(r, a, b, k - 1);
      assert (a + b)[|a| + k - 1] == b[k - 1];
    } else {
      BitCrcSame(r, a + b, a, |a|);
    }
  }

  lemma {:induction false} BitCrcSame(r: Reg, a: seq<bool>, b: seq<bool>, k: nat)
    requires k <= |a| && k <= |b| && a[..k] == b[..k]
    ensures BitCrc(r, a, k) == BitCrc(r, b, k)
  {
    if k > 0 {
      assert a[..k - 1] == a[..k][..k - 1] && b[..k - 1] == b[..k][..k - 1];
      assert a[k - 1] == a[..k][k - 1] && b[k - 1] == b[..k][k - 1];
      BitCrcSame(r, a, b, k - 1);
    }
  }

  lemma CrcUnfold(bytes: seq<bv8>, n: nat)
    requires n <= |bytes|
    ensures n == 0 ==> RegOf(ByteCrc(bytes, 0)) == BitCrc(StartRegister(), Bits(bytes, 0), 0)
    ensures n > 0 ==> ByteCrc(bytes, n) == ByteStep(ByteCrc(bytes, n - 1), bytes[n - 1])
    ensures n > 0 ==> Bits(bytes, n) == Bits(bytes, n - 1) + BitsOf(bytes[n - 1])
  {
    hide RegOf, ByteStep, BitStep, StartRegister;
    StartsThere();
  }

  /** For every message, of whatever length, the byte loop computes the bit-serial CRC of the message's bits. */
  lemma {:induction false} CrcIsBitSerial(bytes: seq<bv8>, n: nat)
    requires n <= |bytes|
    ensures RegOf(ByteCrc(bytes, n)) == BitCrc(StartRegister(), Bits(bytes, n), 8 * n)
  {
    hide *;
    CrcUnfold(bytes, n);
    if n > 0 {
      CrcIsBitSerial(bytes, n - 1);
      ByteIsEightBits(ByteCrc(bytes, n - 1), bytes[n - 1]);
      BitCrcConcat(StartRegister(), Bits(bytes, n - 1), BitsOf(bytes[n - 1]), 8);
    }
  }

  // ----- Burst detection -----

  /** The registers differ in one of the lowest t bits. */
  predicate DifferBelow(a: Reg, b: Reg, t: nat) {
    exists i :: 0 <= i < t && i < 16 && a[i] != b[i]
  }

  /** While the burst goes on: a difference moves up by at most one, or comes in again at the bottom. */
  lemma BurstStep(a: Reg, b: Reg, x: bool, y: bool, t: nat)
    requires DifferBelow(a, b, t) && t < 16
    ensures DifferBelow(BitStep(a, x), BitStep(b, y), t + 1)
  {
    var i :| 0 <= i < t && i < 16 && a[i] != b[i];
    var a', b' := BitStep(a, x), BitStep(b, y);
    if (a[15] != x) != (b[15] != y) {
      assert a'[0] != b'[0];
    } else {
      assert a'[i + 1] != b'[i + 1];
    }
  }

  /** After the burst: equal bits keep different registers different. */
  lemma QuietStep(a: Reg, b: Reg, x: bool)
    requires DifferBelow(a, b, 16)
    ensures DifferBelow(BitStep(a, x), BitStep(b, x), 16)
  {
    var i :| 0 <= i < 16 && a[i] != b[i];
    var a', b' := BitStep(a, x), BitStep(b, x);
    if a[15] != b[15] {
      assert a'[0] != b'[0];
    } else {
      assert a'[i + 1] != b'[i + 1];
    }
  }

  /** Two messages that first differ at bit f and agree from bit f + 16 on. */
  lemma {:induction false} BurstRun(r: Reg, u: seq<bool>, v: seq<bool>, f: nat, k: nat)
    requires |u| == |v| && f < k <= |u|
    requires u[..f] == v[..f] && u[f] != v[f]
    requires forall j :: f + 16 <= j < |u| ==> u[j] == v[j]
    ensures DifferBelow(BitCrc(r, u, k), BitCrc(r, v, k), if k - f <= 16 then k - f else 16)
  {
    var a, b := BitCrc(r, u, k - 1), BitCrc(r, v, k - 1);
    if k - 1 == f {
      BitCrcSame(r, u, v, f);
      assert BitStep(a, u[f])[0] != BitStep(b, v[f])[0];
    } else {
      BurstRun(r, u, v, f, k - 1);
      if k - 1 - f < 16 {
        BurstStep(a, b, u[k - 1], v[k - 1], k - 1 - f);
      } else {
        QuietStep(a, b, u[k - 1]);
      }
    }
  }

  /** The bits of two messages differ, but only inside a window of 16 consecutive bits. */
  predicate BurstOf16(u: seq<bool>, v: seq<bool>, w: nat) {
    && |u| == |v| && u != v
    && forall j :: 0 <= j < |u| && u[j] != v[j] ==> w <= j < w + 16
  }

  lemma FirstDifference(u: seq<bool>, v: seq<bool>) returns (f: nat)
    requires |u| == |v| && u != v
    ensures f < |u| && u[..f] == v[..f] && u[f] != v[f]
  {
    assert u[..|u|] == u && v[..|v|] == v;
    f := 0;
    while f < |u| && u[f] == v[f]
      invariant f <= |u| && u[..f] == v[..f]
    {
      assert u[..f + 1] == u[..f] + [u[f]] && v[..f + 1] == v[..f] + [v[f]];
      f := f + 1;
    }
  }

  /** Every error burst of up to 16 bits, wherever it starts and however long the message, changes the checksum. */
  lemma BurstDetected(a: seq<bv8>, b: seq<bv8>, w: nat)
    requires |a| == |b| && BurstOf16(Bits(a, |a|), Bits(b, |b|), w)
    ensures Crc16(a) != Crc16(b)
  {
    var u, v := Bits(a, |a|), Bits(b, |b|);
    var f := FirstDifference(u, v);
    BurstRun(StartRegister(), u, v, f, |u|);
    CrcIsBitSerial(a, |a|);
    CrcIsBitSerial(b, |b|);
  }

  lemma {:induction false} BitsAt(bytes: seq<bv8>, n: nat, j: nat)
    requires n <= |bytes| && j < 8 * n
    ensures Bits(bytes, n)[j] == BitsOf(bytes[j / 8])[j % 8]
  {
    hide BitsOf;
    if j < 8 * (n - 1) {
      BitsAt(bytes, n - 1, j);
    } else {
      assert j / 8 == n - 1;
    }
  }

  lemma ByteDetermined(a: bv8, b: bv8)
    requires BitsOf(a) == BitsOf(b)
    ensures a == b
  {
    hide Test, Test8, BitsOf;
    forall i: nat | i < 8
      ensures Test8(a, i) == Test8(b, i)
    {
      ByteBit(a, 7 - i);
      ByteBit(b, 7 - i);
    }
    TestsDetermine(a, b);
  }

  lemma TestsDetermine(a: bv8, b: bv8)
    requires forall i: nat :: i < 8 ==> Test8(a, i) == Test8(b, i)
    ensures a == b
  {
    assert Test8(a, 0) == Test8(b, 0) && Test8(a, 1) == Test8(b, 1) && Test8(a, 2) == Test8(b, 2);
    assert Test8(a, 3) == Test8(b, 3) && Test8(a, 4) == Test8(b, 4) && Test8(a, 5) == Test8(b, 5);
    assert Test8(a, 6) == Test8(b, 6) && Test8(a, 7) == Test8(b, 7);
  }

  /** In particular, messages that differ, but only inside two adjacent bytes, have different checksums. */
  lemma TwoBytesDetected(a: seq<bv8>, b: seq<bv8>, i: nat)
    requires |a| == |b| && a != b
    requires forall k :: 0 <= k < |a| && a[k] != b[k] ==> i <= k <= i + 1
    ensures Crc16(a) != Crc16(b)
  {
    hide BitsOf, Crc16;
    var u, v := Bits(a, |a|), Bits(b, |b|);
    forall j | 0 <= j < |u| && u[j] != v[j]
      ensures 8 * i <= j < 8 * i + 16
    {
      BitsAt(a, |a|, j);
      BitsAt(b, |b|, j);
    }
    var k :| 0 <= k < |a| && a[k] != b[k];
    if u == v {
      forall j | 0 <= j < 8
        ensures BitsOf(a[k])[j] == BitsOf(b[k])[j]
      {
        BitsAt(a, |a|, 8 * k + j);
        BitsAt(b, |b|, 8 * k + j);
      }
      ByteDetermined(a[k], b[k]);
    }
    BurstDetected(a, b, 8 * i);
  }

  // ----- A difference in one byte, carried to the end -----

  function Difference16(c: bv16, d: bv16): bv16 {
    c ^ d
  }

  function Difference(a: bv8, b: bv8): bv8 {
    a ^ b
  }

  lemma DifferenceBit16(c: bv16, d: bv16, i: nat)
    requires i < 16
    ensures Test(Difference16(c, d), i) == (Test(c, i) != Test(d, i))
  {
    match i
    case 0 =>
    case 1 =>
    case 2 =>
    case 3 =>
    case 4 =>
    case 5 =>
    case 6 =>
    case 7 =>
    case 8 =>
    case 9 =>
    case 10 =>
    case 11 =>
    case 12 =>
    case 13 =>
    case 14 =>
    case 15 =>
  }

  lemma DifferenceBit(a: bv8, b: bv8, i: nat)
    requires i < 8
    ensures Test8(Difference(a, b), i) == (Test8(a, i) != Test8(b, i))
  {
    match i
    case 0 =>
    case 1 =>
    case 2 =>
    case 3 =>
    case 4 =>
    case 5 =>
    case 6 =>
    case 7 =>
  }

  lemma TestsDetermineLow(c: bv16, d: bv16)
    requires forall i: nat :: i < 16 ==> Test(c, i) == Test(d, i)
    ensures c & 0xFF == d & 0xFF
  {
    assert Test(c, 0) == Test(d, 0) && Test(c, 1) == Test(d, 1) && Test(c, 2) == Test(d, 2);
    assert Test(c, 3) == Test(d, 3) && Test(c, 4) == Test(d, 4) && Test(c, 5) == Test(d, 5);
    assert Test(c, 6) == Test(d, 6) && Test(c, 7) == Test(d, 7);
  }

  lemma TestsDetermineHigh(c: bv16, d: bv16)
    requires forall i: nat :: i < 16 ==> Test(c, i) == Test(d, i)
    ensures c & 0xFF00 == d & 0xFF00
  {
    assert Test(c, 8) == Test(d, 8) && Test(c, 9) == Test(d, 9) && Test(c, 10) == Test(d, 10);
    assert Test(c, 11) == Test(d, 11) && Test(c, 12) == Test(d, 12) && Test(c, 13) == Test(d, 13);
    assert Test(c, 14) == Test(d, 14) && Test(c, 15) == Test(d, 15);
  }

  lemma HalvesDetermine(c: bv16, d: bv16)
    requires c & 0xFF == d & 0xFF && c & 0xFF00 == d & 0xFF00
    ensures c == d
  {
  }

  lemma TestsDetermine16(c: bv16, d: bv16)
    requires forall i: nat :: i < 16 ==> Test(c, i) == Test(d, i)
    ensures c == d
  {
    hide *;
    TestsDetermineLow(c, d);
    TestsDetermineHigh(c, d);
    HalvesDetermine(c, d);
  }

  lemma FoldedIsLinear(c: bv16, d: bv16, a: bv8, b: bv8)
    ensures Difference(Folded(c, a), Folded(d, b)) == Folded(Difference16(c, d), Difference(a, b))
  {
    hide *;
    forall k: nat | k < 8
      ensures Test8(Difference(Folded(c, a), Folded(d, b)), k) == Test8(Folded(Difference16(c, d), Difference(a, b)), k)
    {
      FoldBits(c, a, k);
      FoldBits(d, b, k);
      FoldBits(Difference16(c, d), Difference(a, b), k);
      DifferenceBit(Folded(c, a), Folded(d, b), k);
      DifferenceBit(a, b, k);
      DifferenceBit16(c, d, k + 8);
      if k < 4 {
        DifferenceBit(a, b, k + 4);
        DifferenceBit16(c, d, k + 12);
      }
    }
    TestsDetermine(Difference(Folded(c, a), Folded(d, b)), Folded(Difference16(c, d), Difference(a, b)));
  }

  lemma MixedIsLinear(c: bv16, d: bv16, x: bv8, y: bv8)
    ensures Difference16(Mixed(c, x), Mixed(d, y)) == Mixed(Difference16(c, d), Difference(x, y))
  {
    hide *;
    forall i: nat | i < 16
      ensures Test(Difference16(Mixed(c, x), Mixed(d, y)), i) == Test(Mixed(Difference16(c, d), Difference(x, y)), i)
    {
      MixBits(c, x, i);
      MixBits(d, y, i);
      MixBits(Difference16(c, d), Difference(x, y), i);
      DifferenceBit16(Mixed(c, x), Mixed(d, y), i);
      if i >= 8 {
        DifferenceBit16(c, d, i - 8);
      } else {
        DifferenceBit(x, y, i);
      }
      if i >= 12 {
        DifferenceBit(x, y, i - 12);
      }
      if 5 <= i < 13 {
        DifferenceBit(x, y, i - 5);
      }
    }
    TestsDetermine16(Difference16(Mixed(c, x), Mixed(d, y)), Mixed(Difference16(c, d), Difference(x, y)));
  }

  lemma ZeroBit(i: nat)
    ensures !Test(0, i)
  {
  }

  /** Words without a difference are the same. */
  lemma DifferenceZero(c: bv16, d: bv16)
    requires Difference16(c, d) == 0
    ensures c == d
  {
    hide *;
    forall i: nat | i < 16
      ensures Test(c, i) == Test(d, i)
    {
      DifferenceBit16(c, d, i);
      ZeroBit(i);
    }
    TestsDetermine16(c, d);
  }

  lemma SameDifference(c: bv16, d: bv16, e: bv16)
    requires Difference16(c, d) == Difference16(c, e)
    ensures d == e
  {
    hide *;
    forall i: nat | i < 16
      ensures Test(d, i) == Test(e, i)
    {
      DifferenceBit16(c, d, i);
      DifferenceBit16(c, e, i);
    }
    TestsDetermine16(d, e);
  }

  lemma NoDifference(c: bv16, a: bv8)
    ensures Difference16(c, c) == 0 && Difference(a, a) == 0
  {
  }

  /** The step is linear: the difference of two registers and two bytes steps as a register and a byte do. */
  lemma StepIsLinear(c: bv16, d: bv16, a: bv8, b: bv8)
    ensures Difference16(ByteStep(c, a), ByteStep(d, b)) == ByteStep(Difference16(c, d), Difference(a, b))
  {
    hide Difference16, Difference, Folded, Mixed;
    FoldedIsLinear(c, d, a, b);
    MixedIsLinear(c, d, Folded(c, a), Folded(d, b));
  }

  /** A register after n zero bytes. */
  function ZeroBytes(c: bv16, n: nat): bv16 {
    if n == 0 then c else ByteStep(ZeroBytes(c, n - 1), 0)
  }

  predicate DifferOnlyAt(a: seq<bv8>, b: seq<bv8>, i: nat) {
    |a| == |b| && i < |a| && forall k :: 0 <= k < |a| && k != i ==> a[k] == b[k]
  }

  lemma {:induction false} ByteCrcSame(a: seq<bv8>, b: seq<bv8>, i: nat, n: nat)
    requires DifferOnlyAt(a, b, i) && n <= i
    ensures ByteCrc(a, n) == ByteCrc(b, n)
  {
    hide ByteStep;
    if n > 0 {
      ByteCrcSame(a, b, i, n - 1);
    }
  }

  /** The checksums of two messages that differ only at byte i differ by what becomes of that byte's difference. */
  lemma {:induction false} DifferenceCarried(a: seq<bv8>, b: seq<bv8>, i: nat, n: nat)
    requires DifferOnlyAt(a, b, i) && i < n <= |a|
    ensures Difference16(ByteCrc(a, n), ByteCrc(b, n)) == ZeroBytes(ByteStep(0, Difference(a[i], b[i])), n - 1 - i)
  {
    hide ByteStep, Difference16, Difference;
    var c, d := ByteCrc(a, n - 1), ByteCrc(b, n - 1);
    StepIsLinear(c, d, a[n - 1], b[n - 1]);
    NoDifference(c, a[n - 1]);
    if n - 1 == i {
      ByteCrcSame(a, b, i, i);
    } else {
      DifferenceCarried(a, b, i, n - 1);
    }
  }

  /** Four bytes after a difference, the high byte shows it. */
  lemma HighByteAfterFour(d: bv8)
    requires ZeroBytes(ByteStep(0, d), 4) >> 8 == 0
    ensures d == 0
  {
    var c := ByteStep(0, d);
    assert ZeroBytes(c, 1) == ByteStep(c, 0);
    assert ZeroBytes(c, 2) == ByteStep(ByteStep(c, 0), 0);
    assert ZeroBytes(c, 3) == ByteStep(ByteStep(ByteStep(c, 0), 0), 0);
    assert ZeroBytes(c, 4) == ByteStep(ByteStep(ByteStep(ByteStep(c, 0), 0), 0), 0);
  }

  /** One byte after a difference, the low byte shows it, with one exception. */
  lemma LowByteAfterOne(d: bv8)
    ensures ZeroBytes(ByteStep(0, d), 1) & 0xFF == 0 <==> d == 0 || d == 0x89
    ensures ZeroBytes(ByteStep(0, 0), 1) == 0 && ZeroBytes(ByteStep(0, 0x89), 1) == 0xA100
  {
  }
}
