/**
 The calibration in RAM and in the EEPROM emulation. After every initialisation and every store the RAM
 copy is intact and equal to what the flash holds; a stored calibration survives the next power-up; and a
 power loss that leaves one half-word unwritten is always noticed.
 */
module StorageCalibration {
  import opened Flash
  import opened SlotLog
  import opened Store
  import opened WriteSafety
  import opened Recovery
  import opened PowerLoss
  import opened Eeprom
  import opened EepromStorage
  import opened Crc
  import opened CalibrationBlock

  /** The first variable that the block takes. */
  const CALIBRATION_START: nat := 0

  /** The half-words in the block's variables, if there is one in each of them. */
  ghost predicate HasWords(m: Memory, words: seq<Half>) {
    |words| == WORDS
    && forall j: nat :: j < WORDS ==> ReadVariable(m, j) == Found(words[j])
  }

  /** The flash holds block b. */
  ghost predicate Holds(m: Memory, b: Block) {
    exists words: seq<Half> :: HasWords(m, words) && BytesOf(words) == b
  }

  lemma HoldsOne(m: Memory, a: Block, b: Block)
    requires Holds(m, a) && Holds(m, b)
    ensures a == b
  {
    var u :| HasWords(m, u) && BytesOf(u) == a;
    var v :| HasWords(m, v) && BytesOf(v) == b;
    forall j: nat | j < WORDS
      ensures u[j] == v[j]
    {
      assert ReadVariable(m, CALIBRATION_START + j) == Found(u[j]) == Found(v[j]);
    }
    assert u == v;
  }

  lemma LoadedWords(m: Memory, words: seq<Half>)
    requires |words| == WORDS
    requires forall i :: 0 <= i < WORDS ==> ReadVariable(m, CALIBRATION_START + i) == Found(words[i])
    ensures Holds(m, BytesOf(words))
  {
    hide ReadVariable, BytesOf;
    assert HasWords(m, words);
  }

  lemma MissingWord(m: Memory, f: nat)
    requires f < WORDS && !ReadVariable(m, CALIBRATION_START + f).Found?
    ensures forall b: Block :: !Holds(m, b)
  {
    hide ReadVariable, BytesOf;
    if words: seq<Half> :| HasWords(m, words) {
      WordFound(m, words, f);
    }
  }

  lemma WordFound(m: Memory, words: seq<Half>, j: nat)
    requires HasWords(m, words) && j < WORDS
    ensures ReadVariable(m, CALIBRATION_START + j) == Found(words[j])
  {
  }

  function StoreBlockRun(m: Memory, b: Block): Outcome {
    BufferRun(m, CALIBRATION_START, WordsOf(b), 0)
  }

  /** What calib_init does: it takes an intact block out of the flash and leaves the flash alone; failing that it
      stores the default. */
  ghost predicate Initialised(m0: Memory, t0: seq<Op>, m: Memory, t: seq<Op>, b: Block, st: Status) {
    if exists c: Block :: Holds(m0, c) && Intact(c) then
      m == m0 && t == t0 && st == Ok && Holds(m0, b) && Intact(b)
    else
      Intact(b) && Decode(b) == Defaults() && Ran(m0, t0, StoreBlockRun(m0, b), m, t, st)
  }

  function Defaults(): Calibrations {
    seq(CHANNELS, _ => IDENTITY)
  }

  lemma EveryDefaultIsIdentity(i: nat, x: int)
    requires i < CHANNELS && -0x8000_0000 <= x < 0x8000_0000
    ensures ApplyCalibration(x, Defaults()[i]) == x
  {
    DefaultIsIdentity(x);
  }

  class Calibration {
    const store: Emulation
    const block: array<bv8>

    ghost predicate Valid() {
      && store.Valid() && block.Length == BLOCK_BYTES
      && (block as object) !in {store.slots0, store.slots1}
    }

    /** At power-up the RAM copy is all zeros. */
    constructor (e: Emulation)
      requires e.Valid()
      ensures Valid() && store == e && fresh(block)
      ensures forall i :: 0 <= i < BLOCK_BYTES ==> block[i] == 0
    {
      store := e;
      block := new bv8[BLOCK_BYTES](_ => 0);
    }

    method SetCrc()
      requires Valid()
      modifies block
      ensures block[..] == Sealed(old(block[..]))
    {
      block[DATA_BYTES], block[DATA_BYTES + 1] := 0, 0;
      assert block[..] == Cleared(old(block[..]));
      var crc := CalcCrc(block[..]);
      block[DATA_BYTES], block[DATA_BYTES + 1] := Low(crc), High(crc);
    }

    /** Takes the checksum out, computes it anew, and puts it back. */
    method CheckCrc() returns (ok: bool)
      requires Valid()
      modifies block
      ensures block[..] == old(block[..])
      ensures ok == Intact(block[..])
    {
      var lo, hi := block[DATA_BYTES], block[DATA_BYTES + 1];
      block[DATA_BYTES], block[DATA_BYTES + 1] := 0, 0;
      assert block[..] == Cleared(old(block[..]));
      var crc := CalcCrc(block[..]);
      block[DATA_BYTES], block[DATA_BYTES + 1] := lo, hi;
      assert block[..] == old(block[..]);
      ok := crc == WordOf(lo, hi);
    }

    /** The block is overwritten even when a variable is missing. */
    method Load() returns (ok: bool)
      requires Valid()
      modifies block
      ensures store.Mem() == old(store.Mem())
      ensures ok ==> Holds(store.Mem(), block[..])
      ensures !ok ==> forall b: Block :: !Holds(store.Mem(), b)
    {
      ghost var m := store.Mem();
      var buffer := new Half[WORDS](_ => 0);
      ghost var before := buffer[..];
      ok := ReadBuffer(store, CALIBRATION_START, buffer);
      var words := buffer[..];
      if ok {
        LoadedWords(m, words);
      } else {
        ghost var f :| 0 <= f < WORDS && StoppedAt(m, CALIBRATION_START, before, words, f);
        MissingWord(m, f);
      }
      forall i | 0 <= i < BLOCK_BYTES {
        block[i] := ByteOf(words[i / 2], i);
      }
      assert block[..] == BytesOf(words);
    }

    /** The first two steps of storing: the coefficients are copied in and the checksum is set. */
    method SetCoefficients(d: Calibrations)
      requires Valid()
      modifies block
      ensures Intact(block[..]) && Decode(block[..]) == d
    {
      ghost var tail := block[DATA_BYTES..];
      var bytes := Encode(d);
      forall i | 0 <= i < DATA_BYTES {
        block[i] := bytes[i];
      }
      assert block[..] == bytes + tail;
      SetCrc();
      SealedEncoded(d, tail);
    }

    method Store(d: Calibrations) returns (st: Status)
      requires Valid()
      modifies block, store, store.slots0, store.slots1
      ensures Intact(block[..]) && Decode(block[..]) == d
      ensures Ran(old(store.Mem()), old(store.trace), StoreBlockRun(old(store.Mem()), block[..]),
                  store.Mem(), store.trace, st)
      ensures Called(store.failing, old(store.calls), old(store.trace), store.calls, store.trace, st)
    {
      hide Called;
      SetCoefficients(d);
      st := WriteBuffer(store, CALIBRATION_START, WordsOf(block[..]));
    }

    method LoadDefault() returns (st: Status)
      requires Valid()
      modifies block, store, store.slots0, store.slots1
      ensures Intact(block[..]) && Decode(block[..]) == Defaults()
      ensures Ran(old(store.Mem()), old(store.trace), StoreBlockRun(old(store.Mem()), block[..]),
                  store.Mem(), store.trace, st)
      ensures Called(store.failing, old(store.calls), old(store.trace), store.calls, store.trace, st)
    {
      hide Called;
      var d := seq(CHANNELS, _ => Coefficients(0, 0, 0));
      for i := 0 to CHANNELS
        invariant |d| == CHANNELS
        invariant forall j :: 0 <= j < i ==> d[j] == IDENTITY
        invariant forall j :: i <= j < CHANNELS ==> d[j] == Coefficients(0, 0, 0)
      {
        d := d[i := d[i].(c1 := 65536)];
      }
      assert d == Defaults();
      st := Store(d);
    }

    method Init() returns (st: Status)
      requires Valid()
      modifies block, store, store.slots0, store.slots1
      ensures Initialised(old(store.Mem()), old(store.trace), store.Mem(), store.trace, block[..], st)
      ensures Called(store.failing, old(store.calls), old(store.trace), store.calls, store.trace, st)
    {
      hide Called;
      CalledNothing(store.failing, store.calls, store.trace);
      var loaded := Load();
      var intact := CheckCrc();
      if intact && loaded {
        st := Ok;
      } else {
        if c: Block :| Holds(store.Mem(), c) && Intact(c) {
          HoldsOne(store.Mem(), c, block[..]);
        }
        st := LoadDefault();
      }
    }

    method Get() returns (d: Calibrations)
      requires Valid()
      ensures d == Decode(block[..])
    {
      d := Decode(block[..]);
    }
  }

  lemma SealedEncoded(d: Calibrations, tail: seq<bv8>)
    requires |tail| == BLOCK_BYTES - DATA_BYTES
    ensures Intact(Sealed(Encode(d) + tail)) && Decode(Sealed(Encode(d) + tail)) == d
  {
    hide Decode, Encode, Intact, Checksum, Low, High;
    var b := Encode(d) + tail;
    SealedIsIntact(b);
    DecodeOfEncode(d, Sealed(b)[DATA_BYTES..]);
    assert Sealed(b) == Encode(d) + Sealed(b)[DATA_BYTES..];
  }

  // ----- RAM and flash agree -----

  /** The store is stable in page p with n slots a page, and holds block b. */
  ghost predicate Keeps(m: Memory, p: PageId, n: nat, vs: Vars, b: Block) {
    StableAt(m, p, n, vs) && Holds(m, b)
  }

  lemma StoredBlockHeld(m: Memory, p: PageId, n: nat, vs: Vars, b: Block) returns (q: PageId)
    requires StableAt(m, p, n, vs) && NB_OF_VAR <= n
    ensures var r := StoreBlockRun(m, b);
            r.status == Ok && Keeps(Apply(m, r.ops), q, n, Stored(vs, CALIBRATION_START, WordsOf(b), 0, WORDS), b)
  {
    hide StableAt, ReadVariable, BufferRun, Apply, Stored, BytesOf, WordIn;
    var words := WordsOf(b);
    var m' := Apply(m, StoreBlockRun(m, b).ops);
    q := BufferCompletes(m, p, n, vs, CALIBRATION_START, words, 0);
    forall j: nat | j < WORDS
      ensures ReadVariable(m', CALIBRATION_START + j) == Found(words[j])
    {
      BufferRoundTrip(m, p, n, vs, CALIBRATION_START, words, CALIBRATION_START + j);
    }
    LoadedWords(m', words);
    BytesOfWords(b);
  }

  /** After calib_store the RAM copy, which the store left intact, is what the flash holds. */
  lemma StoreAgrees(m0: Memory, t0: seq<Op>, p: PageId, n: nat, vs: Vars, m: Memory, t: seq<Op>, b: Block, st: Status)
    returns (q: PageId)
    requires StableAt(m0, p, n, vs) && NB_OF_VAR <= n
    requires Ran(m0, t0, StoreBlockRun(m0, b), m, t, st) && st != HalFailed
    ensures st == Ok && Keeps(m, q, n, Stored(vs, CALIBRATION_START, WordsOf(b), 0, WORDS), b)
  {
    hide StableAt, ReadVariable, After, BytesOf, BufferRun;
    q := StoredBlockHeld(m0, p, n, vs, b);
    RanAll(m0, t0, StoreBlockRun(m0, b), m, t);
  }

  /** Likewise after calib_init, from any stable store and whatever the block's variables hold: the RAM copy is intact,
      it is what the flash holds, and the store is stable. */
  lemma InitAgrees(m0: Memory, t0: seq<Op>, p: PageId, n: nat, vs: Vars, m: Memory, t: seq<Op>, b: Block, st: Status)
    returns (q: PageId, vs': Vars)
    requires StableAt(m0, p, n, vs) && NB_OF_VAR <= n
    requires Initialised(m0, t0, m, t, b, st) && st != HalFailed
    ensures st == Ok && Intact(b) && Keeps(m, q, n, vs', b)
  {
    hide StableAt, ReadVariable, Apply, After, Intact, Decode, BytesOf, Ran;
    if exists c: Block :: Holds(m0, c) && Intact(c) {
      q, vs' := p, vs;
    } else {
      q := StoreAgrees(m0, t0, p, n, vs, m, t, b, st);
      vs' := Stored(vs, CALIBRATION_START, WordsOf(b), 0, WORDS);
    }
  }

  /** A stored calibration survives the next power-up: EE_Init keeps it, and calib_init takes it over without writing
      anything. */
  lemma SurvivesPowerUp(m0: Memory, t0: seq<Op>, p: PageId, n: nat, vs: Vars, b: Block,
                        m: Memory, t: seq<Op>, c: Block, st: Status)
    requires Keeps(m0, p, n, vs, b) && Intact(b) && NB_OF_VAR <= n
    requires Initialised(Apply(m0, InitRun(m0).ops), t0, m, t, c, st)
    ensures InitRun(m0).status == Ok
    ensures c == b && st == Ok && t == t0 && m == Apply(m0, InitRun(m0).ops)
  {
    hide ReadVariable, Apply, Intact, Decode, BytesOf, Sound, Meaning, InitRun;
    var q := InitCompletes(m0, n);
    HoldsSame(m0, p, Apply(m0, InitRun(m0).ops), q, n, vs, b);
    HoldsOne(Apply(m0, InitRun(m0).ops), b, c);
  }

  lemma HoldsSame(m: Memory, p: PageId, m': Memory, q: PageId, n: nat, vs: Vars, b: Block)
    requires StableAt(m, p, n, vs) && StableAt(m', q, n, vs) && Holds(m, b)
    ensures Holds(m', b)
  {
    hide StableAt, ReadVariable, BytesOf;
    StableReads(m, p, n, vs);
    StableReads(m', q, n, vs);
    var words :| HasWords(m, words) && BytesOf(words) == b;
    forall j: nat | j < WORDS
      ensures ReadVariable(m', CALIBRATION_START + j) == Found(words[j])
    {
      WordFound(m, words, j);
    }
    LoadedWords(m', words);
  }

  /** If the flash holds no intact block, every channel is the identity after calib_init, on every 32-bit input. */
  lemma MissingBlockIsIdentity(m0: Memory, t0: seq<Op>, m: Memory, t: seq<Op>, b: Block, st: Status, i: nat, x: int)
    requires Initialised(m0, t0, m, t, b, st) && !exists c: Block :: Holds(m0, c) && Intact(c)
    requires i < CHANNELS && -0x8000_0000 <= x < 0x8000_0000
    ensures ApplyCalibration(x, Decode(b)[i]) == x
  {
    hide Holds, Intact, Ran, ApplyCalibration;
    EveryDefaultIsIdentity(i, x);
  }

  // ----- Torn stores -----

  /** The bytes of u up to word j, and of v from there on. */
  function Mix(u: Block, v: Block, j: nat): Block
    requires j <= WORDS
  {
    if 2 * j <= BLOCK_BYTES then u[..2 * j] + v[2 * j..] else u
  }

  lemma BytesOfMix(b: Block, before: seq<Half>, j: nat)
    requires |before| == WORDS && j <= WORDS
    ensures BytesOf(WordsOf(b)[..j] + before[j..]) == Mix(b, BytesOf(before), j)
  {
    hide ByteOf, BytesOf, WordsOf;
    BytesOfWords(b);
    var words := WordsOf(b)[..j] + before[j..];
    forall i | 0 <= i < BLOCK_BYTES
      ensures BytesOf(words)[i] == Mix(b, BytesOf(before), j)[i]
    {
      ByteAt(words, i);
      ByteAt(WordsOf(b), i);
      ByteAt(before, i);
    }
  }

  /** The flash after the first j words of block b have been stored over what words gives. */
  lemma HoldsMix(m: Memory, p: PageId, n: nat, vs: Vars, words: seq<Half>, b: Block,
                 m': Memory, q: PageId, j: nat)
    requires StableAt(m, p, n, vs) && HasWords(m, words) && j <= WORDS
    requires StableAt(m', q, n, Stored(vs, CALIBRATION_START, WordsOf(b), 0, j))
    ensures Holds(m', Mix(b, BytesOf(words), j))
  {
    hide StableAt, ReadVariable, BytesOf, Stored, Mix, WordIn;
    var vs' := Stored(vs, CALIBRATION_START, WordsOf(b), 0, j);
    StableReads(m, p, n, vs);
    StableReads(m', q, n, vs');
    var mixed := WordsOf(b)[..j] + words[j..];
    forall i: nat | i < WORDS
      ensures ReadVariable(m', CALIBRATION_START + i) == Found(mixed[i])
    {
      StoredAt(vs, CALIBRATION_START, WordsOf(b), 0, j, CALIBRATION_START + i);
      WordFound(m, words, i);
    }
    LoadedWords(m', mixed);
    BytesOfMix(b, words, j);
  }

  /** The power fails k operations into calib_store. The EE_Init at the next power-up completes exactly when the
      receiving page has room, which it always has with 512 slots a page; and whenever it does, the flash holds the
      new block up to some word, and the old block from there on. */
  lemma TornStore(m: Memory, p: PageId, n: nat, vs: Vars, before: Block, b: Block, k: nat)
    returns (q: PageId, vs': Vars, j: nat)
    requires Keeps(m, p, n, vs, before) && NB_OF_VAR <= n && k <= |StoreBlockRun(m, b).ops|
    ensures var c := After(m, StoreBlockRun(m, b).ops, k); var r := InitRun(c);
            && j <= WORDS
            && (r.status == Ok <==> RecoveryNeeds(c) <= n)
            && (r.status == Ok ==> Keeps(Apply(c, r.ops), q, n, vs', Mix(b, before, j)))
            && (2 * NB_OF_VAR <= n ==> r.status == Ok)
  {
    hide StableAt, ReadVariable, BytesOf, BufferRun, Apply, After, InitRun, RecoveryNeeds, Worth, Stored, Mix;
    j := BufferCrash(m, p, n, vs, CALIBRATION_START, WordsOf(b), 0, k);
    var c := After(m, StoreBlockRun(m, b).ops, k);
    vs' := Stored(vs, CALIBRATION_START, WordsOf(b), 0, j);
    q := WorthRecovers(c, n, vs');
    if InitRun(c).status == Ok {
      var words :| HasWords(m, words) && BytesOf(words) == before;
      HoldsMix(m, p, n, vs, words, b, Apply(c, InitRun(c).ops), q, j);
    }
  }

  /** A torn block is noticed if it misses the new block, or goes beyond the old one, by one word only: unless it is
      the new or the old block, it is not intact, and calib_init falls back to the default. */
  lemma OneWordMissingIsNoticed(before: Block, b: Block, j: nat, w: nat)
    requires Intact(before) && Intact(b) && j <= WORDS
    requires AgreeOutside(Mix(b, before, j), b, 2 * w) || AgreeOutside(Mix(b, before, j), before, 2 * w)
    requires Mix(b, before, j) != b && Mix(b, before, j) != before
    ensures !Intact(Mix(b, before, j))
  {
    hide Intact, Mix;
    var torn := Mix(b, before, j);
    if Intact(torn) {
      if AgreeOutside(torn, b, 2 * w) {
        SameUnlessUpperEdge(torn, b, 2 * w);
      } else {
        SameUnlessUpperEdge(torn, before, 2 * w);
      }
    }
  }
}
