/**
 The calibration block: 26 triples of coefficients and a checksum, as coefficients, as bytes and as the
 half-words that are stored. Encoding loses nothing, and no two intact blocks differ in one half-word only.
 */
module CalibrationBlock {
  import opened Arithmetic
  import opened Flash
  import opened Crc

  /** The number of variables that the block takes. */
  const WORDS: nat := 0xA0

  /** 11 positive and 11 negative channels of the external ADC and 4 of the internal one. */
  const CHANNELS: nat := 26
  const DATA_BYTES: nat := 312

  /** The coefficients, the checksum and two bytes of padding. */
  const BLOCK_BYTES: nat := 316

  // ----- Coefficients -----

  /** y = (c0 + c1 * x + c2 * x * x) / 65536, the coefficients being 32-bit two's complement words. */
  datatype Coefficients = Coefficients(c0: bv32, c1: bv32, c2: bv32)

  const IDENTITY := Coefficients(0, 65536, 0)

  type Calibrations = d: seq<Coefficients> | |d| == CHANNELS witness seq(CHANNELS, _ => IDENTITY)

  function Signed(w: bv32): int {
    if w < 0x8000_0000 then w as int else w as int - 0x1_0000_0000
  }

  function Polynomial(x: int, c: Coefficients): int {
    Signed(c.c0) + Signed(c.c1) * x + Signed(c.c2) * x * x
  }

  function ApplyCalibration(x: int, c: Coefficients): int {
    ToInt32(TruncatedDiv(Polynomial(x, c), 65536))
  }

  /** The result is the polynomial over 65536, rounded towards zero, whenever that fits 32 bits; and it always is up to
      multiples of 2^32. */
  lemma CalibrationExact(x: int, c: Coefficients)
    ensures var v := Signed(c.c0) + Signed(c.c1) * x + Signed(c.c2) * x * x; var r := ApplyCalibration(x, c);
            && -0x8000_0000 <= r < 0x8000_0000
            && (exists k :: Rounds(v, 65536, r + k * UINT32))
            && (-0x8000_0001 * 65536 < v < 0x8000_0000 * 65536 ==> Rounds(v, 65536, r))
  {
    hide Signed, Polynomial, TruncatedDiv, ToInt32;
    PolynomialIs(x, c);
    var v := Polynomial(x, c);
    var q := TruncatedDiv(v, 65536);
    DivRounds(v, 65536);
    var k := Int32Wraps(q);
    assert Rounds(v, 65536, ToInt32(q) + k * UINT32);
    if -0x8000_0001 * 65536 < v < 0x8000_0000 * 65536 {
      Int32Exact(q);
    }
  }

  lemma PolynomialIs(x: int, c: Coefficients)
    ensures Polynomial(x, c) == Signed(c.c0) + Signed(c.c1) * x + Signed(c.c2) * x * x
  {
    hide Signed;
  }

  /** Under the default coefficients every 32-bit input is unchanged. */
  lemma DefaultIsIdentity(x: int)
    requires -0x8000_0000 <= x < 0x8000_0000
    ensures ApplyCalibration(x, IDENTITY) == x
  {
    assert Polynomial(x, IDENTITY) == 65536 * x;
  }

  predicate FitsInt64(v: int) {
    -INT64 <= v < INT64
  }

  /** No step of the 64-bit evaluation overflows. */
  predicate Computable(x: int, c: Coefficients) {
    var first, second := Signed(c.c1) * x, Signed(c.c2) * x;
    && FitsInt64(first) && FitsInt64(Signed(c.c0) + first)
    && FitsInt64(second) && FitsInt64(second * x)
    && FitsInt64(Polynomial(x, c))
  }

  /** Coefficients with which the sum overflows for every x beyond 16 unsigned bits. */
  function Overflowing(x: int): Coefficients {
    Coefficients(0, if x > 0 then 0x8000_0000 else 0x7FFF_FFFF, 0x8000_0000)
  }

  /** The evaluation is safe for every choice of coefficients exactly for inputs of magnitude up to 0xFFFF. */
  lemma PolynomialFits(x: int)
    ensures (forall c :: Computable(x, c)) <==> -0xFFFF <= x <= 0xFFFF
    ensures !(-0xFFFF <= x <= 0xFFFF) ==> !FitsInt64(Polynomial(x, Overflowing(x)))
  {
    hide Signed, Polynomial, FitsInt64, Overflowing;
    if -0xFFFF <= x <= 0xFFFF {
      forall c
        ensures Computable(x, c)
      {
        SmallInput(x, c);
      }
    } else {
      LargeInput(x);
      assert !Computable(x, Overflowing(x));
    }
  }

  lemma SmallInput(x: int, c: Coefficients)
    requires -0xFFFF <= x <= 0xFFFF
    ensures Computable(x, c)
  {
    hide Signed;
    SignedRange(c.c0);
    SignedRange(c.c1);
    SignedRange(c.c2);
    ProductBound(Signed(c.c1), x, 0x8000_0000, 0xFFFF);
    ProductBound(Signed(c.c2), x, 0x8000_0000, 0xFFFF);
    ProductBound(Signed(c.c2) * x, x, 0x8000_0000 * 0xFFFF, 0xFFFF);
  }

  lemma LargeInput(x: int)
    requires x < -0xFFFF || 0xFFFF < x
    ensures !FitsInt64(Polynomial(x, Overflowing(x)))
  {
    hide Signed;
    SignedExtremes();
    var n := if x > 0 then x else -x;
    assert n * n == x * x;
    Scale(0x1_0000, n, n);
  }

  lemma SignedExtremes()
    ensures Signed(0) == 0 && Signed(0x8000_0000) == -0x8000_0000 && Signed(0x7FFF_FFFF) == 0x7FFF_FFFF
  {
  }

  lemma SignedRange(w: bv32)
    ensures -0x8000_0000 <= Signed(w) < 0x8000_0000
  {
  }

  // ----- The block as bytes and as half-words, least significant byte first -----

  function ByteOf32(w: bv32, j: nat): bv8 {
    match j
    case 0 => (w & 0xFF) as bv8
    case 1 => ((w >> 8) & 0xFF) as bv8
    case 2 => ((w >> 16) & 0xFF) as bv8
    case _ => (w >> 24) as bv8
  }

  function Word32(b0: bv8, b1: bv8, b2: bv8, b3: bv8): bv32 {
    (b0 as bv32) | ((b1 as bv32) << 8) | ((b2 as bv32) << 16) | ((b3 as bv32) << 24)
  }

  function CoefficientByte(c: Coefficients, j: nat): bv8 {
    ByteOf32(if j < 4 then c.c0 else if j < 8 then c.c1 else c.c2, j % 4)
  }

  function CoefficientsAt(bytes: seq<bv8>, o: nat): Coefficients
    requires o + 12 <= |bytes|
  {
    Coefficients(Word32(bytes[o], bytes[o + 1], bytes[o + 2], bytes[o + 3]),
                 Word32(bytes[o + 4], bytes[o + 5], bytes[o + 6], bytes[o + 7]),
                 Word32(bytes[o + 8], bytes[o + 9], bytes[o + 10], bytes[o + 11]))
  }

  type Block = b: seq<bv8> | |b| == BLOCK_BYTES witness seq(BLOCK_BYTES, _ => 0)

  function Encode(d: Calibrations): (bytes: seq<bv8>)
    ensures |bytes| == DATA_BYTES
  {
    seq(DATA_BYTES, k requires 0 <= k < DATA_BYTES => CoefficientByte(d[k / 12], k % 12))
  }

  function Decode(b: Block): Calibrations {
    seq(CHANNELS, i requires 0 <= i < CHANNELS => CoefficientsAt(b, 12 * i))
  }

  function WordOf(lo: bv8, hi: bv8): bv16 {
    ((hi as bv16) << 8) | (lo as bv16)
  }

  function Low(w: bv16): bv8 {
    (w & 0xFF) as bv8
  }

  function High(w: bv16): bv8 {
    (w >> 8) as bv8
  }

  function ByteOf(w: Half, i: nat): bv8 {
    if i % 2 == 0 then Low(w as bv16) else High(w as bv16)
  }

  /** The buffer of half-words that the block is copied into; what lies behind the block is zero. */
  function WordsOf(b: Block): (words: seq<Half>)
    ensures |words| == WORDS
  {
    seq(WORDS, j requires 0 <= j < WORDS => WordIn(b, j))
  }

  function WordIn(b: Block, j: nat): Half {
    if 2 * j < BLOCK_BYTES then WordOf(b[2 * j], b[2 * j + 1]) as int else 0
  }

  function BytesOf(words: seq<Half>): Block
    requires |words| == WORDS
  {
    seq(BLOCK_BYTES, i requires 0 <= i < BLOCK_BYTES => ByteOf(words[i / 2], i))
  }

  lemma BytesOfWord(lo: bv8, hi: bv8)
    ensures ByteOf(WordOf(lo, hi) as int, 0) == lo && ByteOf(WordOf(lo, hi) as int, 1) == hi
  {
  }

  lemma ByteAt(words: seq<Half>, i: nat)
    requires |words| == WORDS && i < BLOCK_BYTES
    ensures BytesOf(words)[i] == ByteOf(words[i / 2], i)
  {
    hide ByteOf;
  }

  lemma WordAt(b: Block, j: nat)
    requires j < WORDS
    ensures WordsOf(b)[j] == WordIn(b, j)
  {
    hide WordIn;
  }

  lemma WordInside(b: Block, j: nat)
    requires 2 * j + 1 < BLOCK_BYTES
    ensures WordIn(b, j) == WordOf(b[2 * j], b[2 * j + 1]) as int
  {
    hide WordOf, WordsOf;
  }

  lemma ByteOfParity(w: Half, i: nat)
    ensures ByteOf(w, i) == ByteOf(w, i % 2)
  {
    hide Low, High;
  }

  /** Copying a block into half-words and back gives the block. */
  lemma BytesOfWords(b: Block)
    ensures BytesOf(WordsOf(b)) == b
  {
    hide WordOf, ByteOf, WordIn, WordsOf, BytesOf;
    forall i | 0 <= i < BLOCK_BYTES
      ensures BytesOf(WordsOf(b))[i] == b[i]
    {
      var j := i / 2;
      ByteAt(WordsOf(b), i);
      WordAt(b, j);
      WordInside(b, j);
      ByteOfParity(WordsOf(b)[j], i);
      BytesOfWord(b[2 * j], b[2 * j + 1]);
    }
  }

  lemma Word32OfBytes(w: bv32)
    ensures Word32(ByteOf32(w, 0), ByteOf32(w, 1), ByteOf32(w, 2), ByteOf32(w, 3)) == w
  {
  }

  lemma EncodedByte(d: Calibrations, tail: seq<bv8>, i: nat, j: nat)
    requires i < CHANNELS && j < 12
    ensures (Encode(d) + tail)[12 * i + j] == CoefficientByte(d[i], j)
  {
    hide CoefficientByte;
    assert (12 * i + j) / 12 == i && (12 * i + j) % 12 == j;
  }

  lemma DecodedCoefficients(b: seq<bv8>, o: nat, c: Coefficients)
    requires o + 12 <= |b|
    requires forall j :: 0 <= j < 12 ==> b[o + j] == CoefficientByte(c, j)
    ensures CoefficientsAt(b, o) == c
  {
    hide ByteOf32, Word32;
    Word32OfBytes(c.c0);
    Word32OfBytes(c.c1);
    Word32OfBytes(c.c2);
    assert b[o + 0] == CoefficientByte(c, 0) && b[o + 1] == CoefficientByte(c, 1);
    assert b[o + 2] == CoefficientByte(c, 2) && b[o + 3] == CoefficientByte(c, 3);
    assert b[o + 4] == CoefficientByte(c, 4) && b[o + 5] == CoefficientByte(c, 5);
    assert b[o + 6] == CoefficientByte(c, 6) && b[o + 7] == CoefficientByte(c, 7);
    assert b[o + 8] == CoefficientByte(c, 8) && b[o + 9] == CoefficientByte(c, 9);
    assert b[o + 10] == CoefficientByte(c, 10) && b[o + 11] == CoefficientByte(c, 11);
  }

  /** What is decoded is what was encoded, whatever stands in the checksum and the padding. */
  lemma DecodeOfEncode(d: Calibrations, tail: seq<bv8>)
    requires |tail| == BLOCK_BYTES - DATA_BYTES
    ensures Decode(Encode(d) + tail) == d
  {
    hide CoefficientByte, CoefficientsAt, Encode;
    var b := Encode(d) + tail;
    forall i | 0 <= i < CHANNELS
      ensures CoefficientsAt(b, 12 * i) == d[i]
    {
      forall j | 0 <= j < 12
        ensures b[12 * i + j] == CoefficientByte(d[i], j)
      {
        EncodedByte(d, tail, i, j);
      }
      DecodedCoefficients(b, 12 * i, d[i]);
    }
  }

  /** The bytes of the default: of each triple only 65536 is not zero, and of that only its third byte. */
  lemma DefaultBytes(d: Calibrations, k: nat)
    requires k < DATA_BYTES && forall i :: 0 <= i < CHANNELS ==> d[i] == IDENTITY
    ensures Encode(d)[k] == if k % 12 == 6 then 1 else 0
  {
  }

  /** The layout: triple after triple, and in each of them c0, c1 and c2. */
  lemma EncodedLayout(d: Calibrations, i: nat, j: nat)
    requires i < CHANNELS && j < 4
    ensures Encode(d)[12 * i + j] == ByteOf32(d[i].c0, j)
    ensures Encode(d)[12 * i + 4 + j] == ByteOf32(d[i].c1, j)
    ensures Encode(d)[12 * i + 8 + j] == ByteOf32(d[i].c2, j)
  {
    hide ByteOf32;
    var tail := seq(BLOCK_BYTES - DATA_BYTES, _ => 0 as bv8);
    EncodedByte(d, tail, i, j);
    EncodedByte(d, tail, i, 4 + j);
    EncodedByte(d, tail, i, 8 + j);
  }

  /** Behind the block the buffer is zero. */
  lemma BufferTail(b: Block)
    ensures WordsOf(b)[158] == WordsOf(b)[159] == 0
  {
    hide WordOf;
  }

  /** Least significant byte first. */
  lemma LittleEndian(b0: bv8, b1: bv8, b2: bv8, b3: bv8)
    ensures var w := Word32(b0, b1, b2, b3);
            && ByteOf32(w, 0) == b0 && ByteOf32(w, 1) == b1 && ByteOf32(w, 2) == b2 && ByteOf32(w, 3) == b3
            && w & 0xFF == b0 as bv32 && w >> 24 == b3 as bv32
  {
  }

  // ----- The checksum of the block -----

  /** The block with its checksum field taken as zero. */
  function Cleared(b: Block): Block {
    b[DATA_BYTES := 0][DATA_BYTES + 1 := 0]
  }

  function Checksum(b: Block): bv16 {
    Crc16(Cleared(b))
  }

  function Field(b: Block): bv16 {
    WordOf(b[DATA_BYTES], b[DATA_BYTES + 1])
  }

  function WithField(b: Block, crc: bv16): Block {
    b[DATA_BYTES := Low(crc)][DATA_BYTES + 1 := High(crc)]
  }

  function Sealed(b: Block): Block {
    WithField(b, Checksum(b))
  }

  predicate Intact(b: Block) {
    Checksum(b) == Field(b)
  }

  lemma WordOfBytes(w: bv16)
    ensures WordOf(Low(w), High(w)) == w
  {
  }

  lemma SealedIsIntact(b: Block)
    ensures Intact(Sealed(b))
    ensures Sealed(b)[..DATA_BYTES] == b[..DATA_BYTES]
  {
    hide WordOf, Low, High, Crc16;
    WordOfBytes(Checksum(b));
    assert Cleared(Sealed(b)) == Cleared(b);
  }

  // ----- Corruption -----

  /** The bytes differ at most at positions i and i + 1. */
  predicate AgreeOutside(a: seq<bv8>, b: seq<bv8>, i: nat) {
    |a| == |b| && forall k :: 0 <= k < |a| && a[k] != b[k] ==> i <= k <= i + 1
  }

  lemma FieldDetermined(a: Block, b: Block)
    requires Field(a) == Field(b)
    ensures a[DATA_BYTES] == b[DATA_BYTES] && a[DATA_BYTES + 1] == b[DATA_BYTES + 1]
  {
    hide WordOf;
    BytesOfWord(a[DATA_BYTES], a[DATA_BYTES + 1]);
    BytesOfWord(b[DATA_BYTES], b[DATA_BYTES + 1]);
  }

  /** The one other block, for every block, that the checksum does not tell apart although only two adjacent bytes
      differ: the high byte of the field and the first byte of padding. */
  function Twin(b: Block): Block {
    b[DATA_BYTES + 1 := b[DATA_BYTES + 1] ^ 0xA1][DATA_BYTES + 2 := b[DATA_BYTES + 2] ^ 0x89]
  }

  lemma WordDifference(lo: bv8, hi: bv8, lo': bv8, hi': bv8)
    ensures hi == hi' ==> Difference16(WordOf(lo, hi), WordOf(lo', hi')) >> 8 == 0
    ensures lo == lo' ==> Difference16(WordOf(lo, hi), WordOf(lo', hi')) & 0xFF == 0
    ensures lo == lo' ==> (Difference16(WordOf(lo, hi), WordOf(lo', hi')) == 0xA100 <==> hi' == hi ^ 0xA1)
  {
  }

  lemma DifferenceExact(a: bv8, b: bv8)
    ensures Difference(a, b) == 0 <==> a == b
    ensures Difference(a, b) == 0x89 <==> b == a ^ 0x89
  {
  }

  /** The data byte before the field and the low byte of the field. */
  lemma LowerEdge(a: Block, b: Block)
    requires Intact(a) && Intact(b) && AgreeOutside(a, b, DATA_BYTES - 1)
    ensures a[DATA_BYTES - 1] == b[DATA_BYTES - 1]
  {
    hide WordOf, ByteStep, ByteCrc, ZeroBytes, Difference, Difference16;
    var i := DATA_BYTES - 1;
    DifferenceCarried(Cleared(a), Cleared(b), i, BLOCK_BYTES);
    WordDifference(a[i + 1], a[i + 2], b[i + 1], b[i + 2]);
    HighByteAfterFour(Difference(a[i], b[i]));
    DifferenceExact(a[i], b[i]);
  }

  /** The high byte of the field and the byte of padding after it. */
  lemma UpperEdge(a: Block, b: Block)
    requires Intact(a) && Intact(b) && AgreeOutside(a, b, DATA_BYTES + 1)
    ensures b == a || b == Twin(a)
  {
    hide *;
    UpperBytes(a, b);
    UpperBlocks(a, b);
  }

  lemma UpperBytes(a: Block, b: Block)
    requires Intact(a) && Intact(b) && AgreeOutside(a, b, DATA_BYTES + 1)
    ensures var f, p := DATA_BYTES + 1, DATA_BYTES + 2;
            (b[p] == a[p] && b[f] == a[f]) || (b[p] == a[p] ^ 0x89 && b[f] == a[f] ^ 0xA1)
  {
    hide WordOf, ByteStep, ByteCrc, ZeroBytes, Difference, Difference16;
    var i := DATA_BYTES + 2;
    DifferenceCarried(Cleared(a), Cleared(b), i, BLOCK_BYTES);
    WordDifference(a[i - 2], a[i - 1], b[i - 2], b[i - 1]);
    LowByteAfterOne(Difference(a[i], b[i]));
    DifferenceExact(a[i], b[i]);
    if a[i] == b[i] {
      DifferenceZero(Field(a), Field(b));
      FieldDetermined(a, b);
    }
  }

  lemma UpperBlocks(a: Block, b: Block)
    requires AgreeOutside(a, b, DATA_BYTES + 1)
    requires var f, p := DATA_BYTES + 1, DATA_BYTES + 2;
             (b[p] == a[p] && b[f] == a[f]) || (b[p] == a[p] ^ 0x89 && b[f] == a[f] ^ 0xA1)
    ensures b == a || b == Twin(a)
  {
  }

  /** Every block has a twin, and they are intact together. */
  lemma TwinIsIntact(b: Block)
    requires Intact(b)
    ensures Twin(b) != b && Intact(Twin(b))
  {
    hide WordOf, ByteStep, ByteCrc, ZeroBytes, Difference, Difference16;
    var i, t := DATA_BYTES + 2, Twin(b);
    DifferenceCarried(Cleared(b), Cleared(t), i, BLOCK_BYTES);
    WordDifference(b[i - 2], b[i - 1], t[i - 2], t[i - 1]);
    LowByteAfterOne(0x89);
    DifferenceExact(b[i], t[i]);
    SameDifference(Field(b), Field(t), Checksum(t));
  }

  /** Of an intact block and any block that differs from it only in two adjacent bytes, anywhere, the other is intact
      exactly if it is the same block or its twin. */
  lemma IntactBlocksApart(a: Block, b: Block, i: nat)
    requires Intact(a) && AgreeOutside(a, b, i)
    ensures Intact(b) <==> b == a || b == Twin(a)
  {
    hide WordOf, Crc16, Twin;
    TwinIsIntact(a);
    if Intact(b) {
      if i == DATA_BYTES + 1 {
        UpperEdge(a, b);
      } else {
        SameUnlessUpperEdge(a, b, i);
      }
    }
  }

  lemma SameUnlessUpperEdge(a: Block, b: Block, i: nat)
    requires Intact(a) && Intact(b) && AgreeOutside(a, b, i) && i != DATA_BYTES + 1
    ensures a == b
  {
    hide WordOf, Crc16;
    var x, y := Cleared(a), Cleared(b);
    if i == DATA_BYTES - 1 {
      LowerEdge(a, b);
    }
    if i == DATA_BYTES - 1 || i == DATA_BYTES {
      assert x == y;
      FieldDetermined(a, b);
    } else {
      assert Field(a) == Field(b);
      if x != y {
        TwoBytesDetected(x, y, i);
      }
    }
    assert forall k :: 0 <= k < BLOCK_BYTES && k != DATA_BYTES && k != DATA_BYTES + 1 ==>
                         a[k] == x[k] && b[k] == y[k];
  }
}
