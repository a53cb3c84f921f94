/**
 What each operation of the emulation does to the flash: the run of flash operations it issues and the
 status it returns, as functions of the memory it starts from. The functions are total: they follow
 the source on every header value and every page content. A power loss, or a flash error that makes
 the source return early, leaves a prefix of the run performed.
 */
module Store {
  import opened Flash
  import opened SlotLog

  datatype Status = Ok | HalFailed | PageFull | NoValidPage

  datatype ReadResult = Found(data: Half) | NotFound | NoPageToRead

  datatype Purpose = ReadFrom | WriteTo

  datatype Outcome = Outcome(ops: seq<Op>, status: Status) {
    /** This run, then the next one if this one succeeded. */
    function Then(next: Outcome): Outcome {
      if status.Ok? then Outcome(ops + next.ops, next.status) else this
    }
  }

  const NOTHING := Outcome([], Ok)

  function FindValidPage(m: Memory, purpose: Purpose): Option<PageId> {
    var h0, h1 := m.page0.header, m.page1.header;
    match purpose
    case WriteTo =>
      if h1 == VALID_PAGE then Some(if h0 == RECEIVE_DATA then Page0 else Page1)
      else if h0 == VALID_PAGE then Some(if h1 == RECEIVE_DATA then Page1 else Page0)
      else None
    case ReadFrom =>
      if h0 == VALID_PAGE then Some(Page0)
      else if h1 == VALID_PAGE then Some(Page1)
      else None
  }

  /** The emulation's own test for an erased page. It looks at the header and at the virtual-address
      half-words only, so a slot with just its data half programmed passes. */
  predicate FullyErased(page: Page) {
    page.header == ERASED && forall k :: 0 <= k < |page.slots| ==> page.slots[k].va == ERASED
  }

  function ReadVariable(m: Memory, va: int): ReadResult {
    match FindValidPage(m, ReadFrom)
    case None => NoPageToRead
    case Some(p) =>
      match Newest(m.At(p).slots, va)
      case None => NotFound
      case Some(d) => Found(d)
  }

  /** EE_VerifyPageFullWriteVariable: data, then virtual address, in the first free slot. */
  function AppendRun(m: Memory, va: Half, d: Half): Outcome {
    match FindValidPage(m, WriteTo)
    case None => Outcome([], NoValidPage)
    case Some(p) =>
      var k := FirstFree(m.At(p).slots);
      if k == |m.At(p).slots| then Outcome([], PageFull)
      else Outcome([ProgramData(p, k, d), ProgramVa(p, k, va)], Ok)
  }

  /** Which variable a copying loop passes over: the one being written, or whichever slot 0 of the
      receiving page carries at that moment. */
  datatype Skip = Variable(va: int) | FirstSlotOf(page: PageId)

  predicate Skips(m: Memory, skip: Skip, va: int) {
    match skip
    case Variable(v) => va == v
    case FirstSlotOf(p) => |m.At(p).slots| > 0 && m.At(p).slots[0].va == va
  }

  /** One turn of a copying loop. */
  function CopyOneRun(m: Memory, skip: Skip, va: Half): Outcome {
    if Skips(m, skip, va) then NOTHING
    else
      match ReadVariable(m, va)
      case NotFound => NOTHING
      case Found(d) => AppendRun(m, va, d)
      case NoPageToRead => AppendRun(m, va, 0)
  }

  /** The copying loop from variable va on. */
  function CopyRun(m: Memory, skip: Skip, va: nat): Outcome
    requires va <= NB_OF_VAR
    decreases NB_OF_VAR - va, skip
  {
    if va == NB_OF_VAR then NOTHING
    else
      var one := CopyOneRun(m, skip, va);
      one.Then(CopyRun(Apply(m, one.ops), skip, va + 1))
  }

  /** The end of a transfer out of page p: copying all variables but va, then switching pages. */
  function TransferTail(m: Memory, p: PageId, va: int): Outcome {
    CopyRun(m, Variable(va), 0).Then(Outcome([ErasePage(p), ProgramHeader(p.Other(), VALID_PAGE)], Ok))
  }

  function TransferRun(m: Memory, va: Half, d: Half): Outcome {
    match FindValidPage(m, ReadFrom)
    case None => Outcome([], NoValidPage)
    case Some(p) =>
      var mark := Outcome([ProgramHeader(p.Other(), RECEIVE_DATA)], Ok);
      var m1 := Apply(m, mark.ops);
      var first := AppendRun(m1, va, d);
      mark.Then(first.Then(TransferTail(Apply(m1, first.ops), p, va)))
  }

  function WriteRun(m: Memory, va: Half, d: Half): Outcome {
    var r := AppendRun(m, va, d);
    if r.status.PageFull? then TransferRun(m, va, d) else r
  }

  function EraseIfNeeded(m: Memory, p: PageId): Outcome {
    if FullyErased(m.At(p)) then NOTHING else Outcome([ErasePage(p)], Ok)
  }

  function Mark(p: PageId): Outcome {
    Outcome([ProgramHeader(p, VALID_PAGE)], Ok)
  }

  function FormatRun(m: Memory): Outcome {
    EraseIfNeeded(m, Page0).Then(Mark(Page0)).Then(EraseIfNeeded(m, Page1))
  }

  /** EE_Init resuming a transfer out of page p. */
  function ResumeRun(m: Memory, p: PageId): Outcome {
    var copy := CopyRun(m, FirstSlotOf(p.Other()), 0);
    var marked := copy.Then(Mark(p.Other()));
    marked.Then(EraseIfNeeded(Apply(m, marked.ops), p))
  }

  function InitRun(m: Memory): Outcome {
    var h0, h1 := m.page0.header, m.page1.header;
    if h0 == ERASED then
      if h1 == VALID_PAGE then EraseIfNeeded(m, Page0)
      else if h1 == RECEIVE_DATA then EraseIfNeeded(m, Page0).Then(Mark(Page1))
      else FormatRun(m)
    else if h0 == RECEIVE_DATA then
      if h1 == VALID_PAGE then ResumeRun(m, Page1)
      else if h1 == ERASED then EraseIfNeeded(m, Page1).Then(Mark(Page0))
      else FormatRun(m)
    else if h0 == VALID_PAGE then
      if h1 == VALID_PAGE then FormatRun(m)
      else if h1 == ERASED then EraseIfNeeded(m, Page1)
      else ResumeRun(m, Page0)
    else FormatRun(m)
  }

  // ----- What is stored in a memory -----

  /** Where the page headers say the store is. */
  datatype Phase =
    | Stable(valid: PageId)     // one page valid, the other erased
    | Receiving(from: PageId)   // a transfer out of page "from" is under way
    | Switching(from: PageId)   // the transfer is complete and page "from" is already erased
    | Blank                     // both pages erased
    | Doubled                   // both pages valid
    | Broken                    // some other header value

  function PhaseOf(m: Memory): Phase {
    var h0, h1 := m.page0.header, m.page1.header;
    if h0 == VALID_PAGE && h1 == ERASED then Stable(Page0)
    else if h0 == ERASED && h1 == VALID_PAGE then Stable(Page1)
    else if h0 == VALID_PAGE && h1 == RECEIVE_DATA then Receiving(Page0)
    else if h0 == RECEIVE_DATA && h1 == VALID_PAGE then Receiving(Page1)
    else if h0 == ERASED && h1 == RECEIVE_DATA then Switching(Page0)
    else if h0 == RECEIVE_DATA && h1 == ERASED then Switching(Page1)
    else if h0 == ERASED && h1 == ERASED then Blank
    else if h0 == VALID_PAGE && h1 == VALID_PAGE then Doubled
    else Broken
  }

  /** During a transfer out of page p: the old variables, except that slot 0 of the receiving page, once
      complete, overrides them. */
  function Merged(m: Memory, p: PageId): Vars {
    var before := Replay(m.At(p).slots);
    var s := m.At(p.Other()).slots;
    if |s| > 0 && s[0].Complete() then before[s[0].va := s[0].data] else before
  }

  /** The variables a memory stands for, whatever point a power loss has stopped it at. */
  function Meaning(m: Memory): Vars {
    match PhaseOf(m)
    case Stable(p) => Replay(m.At(p).slots)
    case Receiving(p) => Merged(m, p)
    case Switching(p) => Replay(m.At(p.Other()).slots)
    case _ => map[]
  }

  predicate Within(a: Vars, b: Vars) {
    forall va :: va in a ==> va in b && b[va] == a[va]
  }

  /** The states the store can be in after any run with any power losses. */
  predicate Sound(m: Memory) {
    && m.Sized(|m.page0.slots|)
    && match PhaseOf(m)
       case Stable(p) => Tidy(m.At(p).slots) && AllFree(m.At(p.Other()).slots)
       case Receiving(p) =>
         && Tidy(m.At(p).slots)
         && Tidy(m.At(p.Other()).slots)
         && Within(Replay(m.At(p.Other()).slots), Merged(m, p))
       case Switching(p) => AllFree(m.At(p).slots) && Tidy(m.At(p.Other()).slots)
       case Blank => AllFree(m.page0.slots) && AllFree(m.page1.slots)
       case Doubled => Tidy(m.page0.slots) && Tidy(m.page1.slots)
       case Broken => false
  }
}
