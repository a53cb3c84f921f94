/**
 The byte addresses of the two pages. The rest of the model uses the layout that reads and writes share: two
 pages of 0x20000 bytes, one after the other. In that layout every half-word has its own address. The
 address constants and loop bounds of the source deviate from it in four places; each is stated here with
 exactly what it misses.
 */
module ShippedLayout {
  import opened Flash
  import opened SlotLog
  import opened Store
  import opened StoreSteps
  import opened WriteSafety
  import opened Recovery

  const START: int := 0x080C_0000
  const PAGE_SIZE: int := 0x2_0000

  /** The header constant of page 1, which the source passes wherever it means that page's header or base. */
  const PAGE1_CONSTANT: int := START + 0x4000

  /** The slots of which both half-words lie inside the page. */
  const SLOTS: nat := 0x7FFF

  function Base(p: PageId): int {
    if p.Page0? then START else START + PAGE_SIZE
  }

  function DataAddress(p: PageId, k: nat): int {
    Base(p) + 2 + 4 * k
  }

  function VaAddress(p: PageId, k: nat): int {
    Base(p) + 4 + 4 * k
  }

  // ----- The layout -----

  datatype Place = Header(p: PageId) | Data(p: PageId, k: nat) | Va(p: PageId, k: nat)

  /** The number of the half-word in its page. */
  function HalfWord(c: Place): nat {
    match c
    case Header(_) => 0
    case Data(_, k) => 1 + 2 * k
    case Va(_, k) => 2 + 2 * k
  }

  function AddressOf(c: Place): int {
    match c
    case Header(p) => Base(p)
    case Data(p, k) => DataAddress(p, k)
    case Va(p, k) => VaAddress(p, k)
  }

  predicate InPage(c: Place) {
    c.Header? || c.k < SLOTS
  }

  lemma AddressIsHalfWord(c: Place)
    ensures AddressOf(c) == Base(c.p) + 2 * HalfWord(c)
    ensures InPage(c) ==> HalfWord(c) < PAGE_SIZE / 2 - 1
  {
  }

  lemma HalfWordDetermines(c: Place, d: Place)
    requires c.p == d.p && HalfWord(c) == HalfWord(d)
    ensures c == d
  {
  }

  lemma PagesAreApart(p: PageId, q: PageId)
    ensures Base(p) % 2 == 0
    ensures p != q ==> Base(p) + PAGE_SIZE <= Base(q) || Base(q) + PAGE_SIZE <= Base(p)
  {
  }

  lemma EvenOffset(base: int, h: int)
    requires base % 2 == 0
    ensures (base + 2 * h) % 2 == 0
  {
  }

  /** Every half-word lies inside its page, on an even address, and no two share one. */
  lemma PlacesAreApart(c: Place, d: Place)
    requires InPage(c) && InPage(d)
    ensures Base(c.p) <= AddressOf(c) < Base(c.p) + PAGE_SIZE - 1 && AddressOf(c) % 2 == 0
    ensures c != d ==> AddressOf(c) + 2 <= AddressOf(d) || AddressOf(d) + 2 <= AddressOf(c)
  {
    hide AddressOf, Base, HalfWord, InPage;
    AddressIsHalfWord(c);
    AddressIsHalfWord(d);
    PagesAreApart(c.p, d.p);
    EvenOffset(Base(c.p), HalfWord(c));
    if c.p == d.p && HalfWord(c) == HalfWord(d) {
      HalfWordDetermines(c, d);
    }
  }

  // ----- Deviations of the shipped constants -----

  /** The header constant of page 1 is not the base that reads and writes use: it is a virtual address inside page 0. */
  lemma HeaderConstantInsidePage0()
    ensures PAGE1_CONSTANT == AddressOf(Va(Page0, 0xFFF)) != AddressOf(Header(Page1))
  {
  }

  /** The memory as the source sees it, reading page 1's header at the constant. */
  function ShippedView(m: Memory): Memory
    requires |m.page0.slots| > 0xFFF
  {
    m.(page1 := m.page1.(header := m.page0.slots[0xFFF].va))
  }

  /** The two views of an initialised store are the same exactly as long as slot 0xFFF of page 0 carries no virtual
      address. */
  lemma ShippedViewExactly(m: Memory, n: nat, vs: Vars)
    requires StableAt(m, Page0, n, vs) && 0xFFF < n
    ensures ShippedView(m) == m <==> m.page0.slots[0xFFF].va == ERASED
  {
    hide Sound, Meaning;
  }

  /** The append that fills slot 0xFFF of page 0 overwrites what the source takes for page 1's header. If it is variable
      0 that is appended, both pages look valid and the next EE_Init formats; any other gives the stray header. */
  lemma HeaderConstantCollides(m: Memory, n: nat, vs: Vars, va: Half, d: Half)
    requires StableAt(m, Page0, n, vs) && 0xFFF < n && FirstFree(m.page0.slots) == 0xFFF && va < NB_OF_VAR
    ensures AppendRun(ShippedView(m), va, d) == AppendRun(m, va, d) && AppendRun(m, va, d).status == Ok
    ensures var m' := Apply(m, AppendRun(m, va, d).ops);
            && m'.Sized(n) && ShippedView(m').page1.header == va
            && (if va == 0 then PhaseOf(ShippedView(m')) == Doubled else StrayHeader(ShippedView(m')))
            && InitRun(ShippedView(m')) ==
               if va == 0 then FormatRun(ShippedView(m')) else ResumeRun(ShippedView(m'), Page0)
  {
    hide ResumeRun, FormatRun, CopyRun, Tidy, Replay, Apply;
    AppendEffect(m, Page0, va, d);
  }

  /** The loop that looks for a free slot visits one slot more than the page has. The virtual address of that slot
      lies behind the page; for page 0 it is the header of page 1. */
  lemma WriteScanVisits(p: PageId, k: nat)
    ensures DataAddress(p, k) < Base(p) + PAGE_SIZE - 1 <==> k < SLOTS + 1
    ensures VaAddress(p, SLOTS) == Base(p) + PAGE_SIZE
    ensures VaAddress(Page0, SLOTS) == AddressOf(Header(Page1))
  {
  }

  /** The erased check, called with page 0's base or with page 1's constant, steps through virtual addresses of page 0
      only, up to its end. */
  lemma ErasedCheckVisits(i: nat)
    ensures START + 4 * i == if i == 0 then AddressOf(Header(Page0)) else AddressOf(Va(Page0, i - 1))
    ensures START + 4 * i <= START + (PAGE_SIZE - 1) <==> i <= SLOTS
    ensures PAGE1_CONSTANT + 4 * i == AddressOf(Va(Page0, 0xFFF + i))
    ensures PAGE1_CONSTANT + 4 * i <= START + (PAGE_SIZE - 1) <==> i < 0x7000
  {
  }

  /** The half-word at a word-aligned address of page 0. */
  function Contents(page: Page, a: int): Half
    requires |page.slots| == SLOTS && START <= a < START + PAGE_SIZE
  {
    if a < START + 4 then page.header else page.slots[(a - START) / 4 - 1].va
  }

  /** The loop of the erased check from address a on. */
  predicate ScanErased(page: Page, a: int)
    requires |page.slots| == SLOTS && START <= a
    decreases START + PAGE_SIZE - a, |page.slots|
  {
    a <= START + (PAGE_SIZE - 1) ==> Contents(page, a) == ERASED && ScanErased(page, a + 4)
  }

  lemma {:induction false} ScanErasedFrom(page: Page, k: nat)
    requires |page.slots| == SLOTS && k <= SLOTS
    ensures ScanErased(page, VaAddress(Page0, k)) <==> forall j :: k <= j < SLOTS ==> page.slots[j].va == ERASED
    decreases SLOTS - k
  {
    if k < SLOTS {
      ScanErasedFrom(page, k + 1);
      assert VaAddress(Page0, k) + 4 == VaAddress(Page0, k + 1);
      assert Contents(page, VaAddress(Page0, k)) == page.slots[k].va;
    }
  }

  /** For page 0 the check answers as it should. For page 1 it answers whether the slots of page 0 from 0xFFF on carry
      no virtual address, whatever page 1 holds. */
  lemma ErasedCheckAnswers(page: Page)
    requires |page.slots| == SLOTS
    ensures ScanErased(page, START) <==> FullyErased(page)
    ensures ScanErased(page, PAGE1_CONSTANT) <==> forall j :: 0xFFF <= j < SLOTS ==> page.slots[j].va == ERASED
  {
    ScanErasedFrom(page, 0);
    ScanErasedFrom(page, 0xFFF);
  }

  /** The reading loop visits the slots from two behind the page down to slot 1. Behind page 0 these are the header and
      slot 0 of page 1. */
  lemma ReadScanVisits(p: PageId, i: nat)
    requires i <= SLOTS + 1
    ensures var a := Base(p) + PAGE_SIZE + 2 - 4 * i;
            && a == DataAddress(p, SLOTS + 1 - i)
            && (a > Base(p) + 4 <==> SLOTS + 1 - i >= 1)
    ensures VaAddress(Page0, SLOTS) == AddressOf(Header(Page1))
    ensures DataAddress(Page0, SLOTS + 1) == AddressOf(Data(Page1, 0))
    ensures VaAddress(Page0, SLOTS + 1) == AddressOf(Va(Page1, 0))
  {
  }

  /** What that loop finds below slot k. */
  function ShippedBelow(s: seq<Slot>, va: Half, k: nat): Option<Half>
    requires k <= |s|
  {
    if k <= 1 then None
    else if s[k - 1].va == va then Some(s[k - 1].data)
    else ShippedBelow(s, va, k - 1)
  }

  /** The shipped loop finds the same as a scan of the whole page exactly in these cases: a slot behind the page has the
      variable, and its value is the same; or none has, and slot 0 is not the only slot of the page that has it. */
  lemma ShippedReadExactly(s: seq<Slot>, va: Half, behind: seq<Slot>)
    requires s != []
    ensures ShippedBelow(s + behind, va, |s + behind|) == Newest(s, va) <==>
              if Newest(behind, va).Some? then Newest(s, va) == Newest(behind, va)
              else s[0].va == va ==> exists k :: 1 <= k < |s| && s[k].va == va
  {
    ShippedBehind(s, va, behind, |behind|);
    ShippedInside(s + behind, s, va, |s|);
  }

  lemma {:induction false} ShippedBehind(s: seq<Slot>, va: Half, behind: seq<Slot>, n: nat)
    requires s != [] && n <= |behind|
    ensures ShippedBelow(s + behind, va, |s| + n) ==
            if NewestBelow(behind, va, n).Some? then NewestBelow(behind, va, n)
            else ShippedBelow(s + behind, va, |s|)
  {
    if n > 0 {
      ShippedBehind(s, va, behind, n - 1);
    }
  }

  lemma {:induction false} ShippedInside(t: seq<Slot>, s: seq<Slot>, va: Half, k: nat)
    requires 1 <= k <= |s| <= |t| && t[..|s|] == s
    ensures ShippedBelow(t, va, k) == NewestBelow(s, va, k) <==>
              s[0].va == va ==> exists i :: 1 <= i < k && s[i].va == va
  {
    assert t[k - 1] == t[..|s|][k - 1];
    if k > 1 && s[k - 1].va != va {
      ShippedInside(t, s, va, k - 1);
    }
  }
}
