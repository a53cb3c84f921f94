/**
 The flash memory under the EEPROM emulation, as the emulation sees it: two pages, each one header
 half-word and a row of slots, a slot being a data half-word followed by a virtual-address half-word.
 The only operations that change it are "program one half-word" and "erase one page".  Each of them
 is atomic: a power loss falls between two operations, never inside one.
 */
module Flash {
  import opened Arithmetic

  type Half = x: int | 0 <= x < 0x10000

  const ERASED: Half := 0xFFFF
  const RECEIVE_DATA: Half := 0xEEEE
  const VALID_PAGE: Half := 0x0000

  /** The number of variables; virtual addresses run from 0 to NB_OF_VAR - 1. */
  const NB_OF_VAR: nat := 256

  datatype PageId = Page0 | Page1 {
    function Other(): PageId {
      if Page0? then Page1 else Page0
    }
  }

  datatype Slot = Slot(data: Half, va: Half) {
    /** The 32-bit word of the slot reads 0xFFFFFFFF. */
    predicate Free() {
      data == ERASED && va == ERASED
    }

    /** The slot carries a variable. A slot with only its data half programmed does not. */
    predicate Complete() {
      va < NB_OF_VAR
    }
  }

  const FREE_SLOT := Slot(ERASED, ERASED)

  datatype Page = Page(header: Half, slots: seq<Slot>)

  datatype Memory = Memory(page0: Page, page1: Page) {
    function At(p: PageId): Page {
      if p.Page0? then page0 else page1
    }

    function With(p: PageId, page: Page): Memory {
      if p.Page0? then this.(page0 := page) else this.(page1 := page)
    }

    /** Both pages have n slots. */
    predicate Sized(n: nat) {
      |page0.slots| == n && |page1.slots| == n
    }
  }

  datatype Op =
    | ProgramHeader(page: PageId, value: Half)
    | ProgramData(page: PageId, k: nat, value: Half)
    | ProgramVa(page: PageId, k: nat, value: Half)
    | ErasePage(page: PageId)

  // ----- Programming: bits can only be cleared -----

  /** Bitwise and of the low w bits. */
  function BitAnd(a: nat, b: nat, w: nat): (r: nat) {
    if w == 0 then 0
    else (if a % 2 == 1 && b % 2 == 1 then 1 else 0) + 2 * BitAnd(a / 2, b / 2, w - 1)
  }

  lemma {:induction false} BitAndBelow(a: nat, b: nat, w: nat)
    ensures BitAnd(a, b, w) < Pow2(w)
  {
    if w != 0 {
      BitAndBelow(a / 2, b / 2, w - 1);
    }
  }

  lemma {:induction false} BitAndOnes(b: nat, w: nat)
    requires b < Pow2(w)
    ensures BitAnd(Pow2(w) - 1, b, w) == b
  {
    if w != 0 {
      assert (Pow2(w) - 1) / 2 == Pow2(w - 1) - 1;
      BitAndOnes(b / 2, w - 1);
    }
  }

  lemma {:induction false} BitAndZero(a: nat, w: nat)
    ensures BitAnd(a, 0, w) == 0
  {
    if w != 0 {
      BitAndZero(a / 2, w - 1);
    }
  }

  /** What a cell holds after value is programmed into it. */
  function Nor(cell: Half, value: Half): (r: Half)
    ensures cell == ERASED ==> r == value
    ensures value == 0 ==> r == 0
  {
    assert Pow2(16) == 0x10000 by { assert Pow2(4) == 16 && Pow2(8) == 256 && Pow2(12) == 4096; }
    BitAndBelow(cell, value, 16);
    BitAndOnes(value, 16);
    BitAndZero(cell, 16);
    BitAnd(cell, value, 16)
  }

  predicate Bit(v: nat, i: nat) {
    if i == 0 then v % 2 == 1 else Bit(v / 2, i - 1)
  }

  lemma {:induction false} BitAndBit(a: nat, b: nat, w: nat, i: nat)
    requires i < w
    ensures Bit(BitAnd(a, b, w), i) <==> Bit(a, i) && Bit(b, i)
  {
    if i > 0 {
      BitAndBit(a / 2, b / 2, w - 1, i - 1);
      assert BitAnd(a, b, w) / 2 == BitAnd(a / 2, b / 2, w - 1);
    }
  }

  /** Programming clears bits and sets none: a bit of the cell stays set exactly if the value has it too. */
  lemma NorIsBitwise(cell: Half, value: Half, i: nat)
    requires i < 16
    ensures Bit(Nor(cell, value), i) <==> Bit(cell, i) && Bit(value, i)
  {
    hide Bit, BitAnd;
    BitAndBit(cell, value, 16, i);
  }

  // ----- The effect of operations -----

  function Erased(page: Page): Page {
    Page(ERASED, seq(|page.slots|, _ => FREE_SLOT))
  }

  function Apply1(m: Memory, op: Op): Memory {
    var page := m.At(op.page);
    match op
    case ProgramHeader(p, v) => m.With(p, page.(header := Nor(page.header, v)))
    case ProgramData(p, k, v) =>
      if k < |page.slots| then
        m.With(p, page.(slots := page.slots[k := page.slots[k].(data := Nor(page.slots[k].data, v))]))
      else m
    case ProgramVa(p, k, v) =>
      if k < |page.slots| then
        m.With(p, page.(slots := page.slots[k := page.slots[k].(va := Nor(page.slots[k].va, v))]))
      else m
    case ErasePage(p) => m.With(p, Erased(page))
  }

  /** The memory after the first k operations of a run: what a power loss at that point leaves. */
  function After(m: Memory, ops: seq<Op>, k: nat): Memory
    requires k <= |ops|
  {
    if k == 0 then m else Apply1(After(m, ops, k - 1), ops[k - 1])
  }

  /** The memory after a run of operations. */
  function Apply(m: Memory, ops: seq<Op>): Memory {
    After(m, ops, |ops|)
  }

  /** A run cut inside its first part, and one cut inside its second. */
  lemma {:induction false} AfterConcat(m: Memory, a: seq<Op>, b: seq<Op>, k: nat)
    requires k <= |a| + |b|
    ensures k <= |a| ==> After(m, a + b, k) == After(m, a, k)
    ensures k >= |a| ==> After(m, a + b, k) == After(Apply(m, a), b, k - |a|)
  {
    if k > 0 {
      AfterConcat(m, a, b, k - 1);
    }
  }

  lemma ApplyConcat(m: Memory, a: seq<Op>, b: seq<Op>)
    ensures Apply(m, a + b) == Apply(Apply(m, a), b)
  {
    AfterConcat(m, a, b, |a| + |b|);
  }

  // ----- Discipline: what NOR flash asks of its user -----

  /** The operation programs only a half-word that still reads 0xFFFF, or moves a header from
      RECEIVE_DATA to VALID_PAGE. */
  predicate Disciplined1(m: Memory, op: Op) {
    var page := m.At(op.page);
    match op
    case ProgramHeader(p, v) => page.header == ERASED || (page.header == RECEIVE_DATA && v == VALID_PAGE)
    case ProgramData(p, k, v) => k < |page.slots| && page.slots[k].data == ERASED
    case ProgramVa(p, k, v) => k < |page.slots| && page.slots[k].va == ERASED
    case ErasePage(p) => true
  }

  predicate Disciplined(m: Memory, ops: seq<Op>) {
    forall k :: 0 <= k < |ops| ==> Disciplined1(After(m, ops, k), ops[k])
  }

  /** The memory if programming simply stored the value. */
  function Assign1(m: Memory, op: Op): Memory {
    var page := m.At(op.page);
    match op
    case ProgramHeader(p, v) => m.With(p, page.(header := v))
    case ProgramData(p, k, v) =>
      if k < |page.slots| then m.With(p, page.(slots := page.slots[k := page.slots[k].(data := v)])) else m
    case ProgramVa(p, k, v) =>
      if k < |page.slots| then m.With(p, page.(slots := page.slots[k := page.slots[k].(va := v)])) else m
    case ErasePage(p) => m.With(p, Erased(page))
  }

  function Assign(m: Memory, ops: seq<Op>, k: nat): Memory
    requires k <= |ops|
  {
    if k == 0 then m else Assign1(Assign(m, ops, k - 1), ops[k - 1])
  }

  lemma DisciplinedStep(m: Memory, op: Op)
    requires Disciplined1(m, op)
    ensures Apply1(m, op) == Assign1(m, op)
  {
    hide BitAnd;
  }

  /** In a disciplined run programming is plain assignment. */
  lemma {:induction false} DisciplinedIsAssignment(m: Memory, ops: seq<Op>, k: nat)
    requires Disciplined(m, ops) && k <= |ops|
    ensures After(m, ops, k) == Assign(m, ops, k)
  {
    hide Apply1, Assign1, Disciplined1;
    if k > 0 {
      DisciplinedIsAssignment(m, ops, k - 1);
      DisciplinedStep(After(m, ops, k - 1), ops[k - 1]);
    }
  }

  lemma DisciplinedConcat(m: Memory, a: seq<Op>, b: seq<Op>)
    requires Disciplined(m, a) && Disciplined(Apply(m, a), b)
    ensures Disciplined(m, a + b)
  {
    forall k | 0 <= k < |a + b|
      ensures Disciplined1(After(m, a + b, k), (a + b)[k])
    {
      AfterConcat(m, a, b, k);
      if k >= |a| {
        assert (a + b)[k] == b[k - |a|];
      }
    }
  }
}
