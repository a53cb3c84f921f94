/**
 EE_Init: from any memory it leaves one valid page and one erased page; from a sound memory it keeps
 what the memory means, at every point but one where a power loss can stop it.
 */
module Recovery {
  import opened Flash
  import opened SlotLog
  import opened Store
  import opened StoreSteps
  import opened WriteSafety

  // ----- From any memory -----

  /** All operations program slots. Such runs erase nothing and leave headers alone. */
  predicate OnSlots(ops: seq<Op>) {
    forall k :: 0 <= k < |ops| ==> ops[k].ProgramData? || ops[k].ProgramVa?
  }

  predicate SameHeaders(m: Memory, m': Memory) {
    m'.page0.header == m.page0.header && m'.page1.header == m.page1.header
  }

  lemma {:induction false} OnSlotsKeepsHeaders(m: Memory, ops: seq<Op>, k: nat)
    requires OnSlots(ops) && k <= |ops|
    ensures SameHeaders(m, After(m, ops, k))
  {
    if k > 0 {
      OnSlotsKeepsHeaders(m, ops, k - 1);
    }
  }

  lemma AppendOnSlots(m: Memory, va: Half, d: Half)
    ensures OnSlots(AppendRun(m, va, d).ops)
  {
  }

  lemma {:induction false} CopyOnSlots(m: Memory, skip: Skip, va: nat)
    requires va <= NB_OF_VAR
    ensures OnSlots(CopyRun(m, skip, va).ops)
    decreases NB_OF_VAR - va
  {
    if va < NB_OF_VAR {
      var one := CopyOneRun(m, skip, va);
      assert OnSlots(one.ops);
      hide CopyOneRun, Apply;
      CopyOnSlots(Apply(m, one.ops), skip, va + 1);
    }
  }

  /** Exactly one page is valid; the other has an erased header and no slot with a virtual address. */
  predicate Normal(m: Memory) {
    PhaseOf(m).Stable? && FullyErased(m.At(PhaseOf(m).valid.Other()))
  }

  lemma NormalPagesCoincide(m: Memory)
    requires Normal(m)
    ensures FindValidPage(m, ReadFrom) == FindValidPage(m, WriteTo) == Some(PhaseOf(m).valid)
  {
  }

  lemma EraseMakesErased(m: Memory, p: PageId)
    ensures var m' := Apply(m, EraseIfNeeded(m, p).ops);
            FullyErased(m'.At(p)) && m'.At(p.Other()) == m.At(p.Other())
    ensures Disciplined(m, EraseIfNeeded(m, p).ops)
  {
    ApplyOne(m, ErasePage(p));
  }

  lemma MarkMakesValid(m: Memory, p: PageId)
    ensures var m' := Apply(m, Mark(p).ops);
            m'.At(p).header == VALID_PAGE && m'.At(p.Other()) == m.At(p.Other())
    ensures Disciplined(m, Mark(p).ops) <==> m.At(p).header == ERASED || m.At(p).header == RECEIVE_DATA
  {
    ApplyOne(m, ProgramHeader(p, VALID_PAGE));
    assert After(m, Mark(p).ops, 0) == m;
    assert Mark(p).ops[0] == ProgramHeader(p, VALID_PAGE);
    assert Disciplined(m, Mark(p).ops) ==> Disciplined1(After(m, Mark(p).ops, 0), Mark(p).ops[0]);
  }

  /** Erase page p, mark page q valid: in either order this normalises, if the order leaves q markable. */
  lemma EraseThenMark(m: Memory, p: PageId)
    ensures var r := EraseIfNeeded(m, p).Then(Mark(p.Other())); Normal(Apply(m, r.ops))
    ensures m.At(p.Other()).header == RECEIVE_DATA ==>
              Disciplined(m, EraseIfNeeded(m, p).Then(Mark(p.Other())).ops)
  {
    var e := EraseIfNeeded(m, p).ops;
    var m1 := Apply(m, e);
    var h := Mark(p.Other()).ops;
    EraseMakesErased(m, p);
    MarkMakesValid(m1, p.Other());
    ApplyConcat(m, e, h);
    if m.At(p.Other()).header == RECEIVE_DATA {
      DisciplinedConcat(m, e, h);
    }
  }

  lemma FormatNormalises(m: Memory)
    ensures FormatRun(m).status == Ok && Normal(Apply(m, FormatRun(m).ops)) && Disciplined(m, FormatRun(m).ops)
  {
    var a, b, c := EraseIfNeeded(m, Page0).ops, Mark(Page0).ops, EraseIfNeeded(m, Page1).ops;
    EraseMakesErased(m, Page0);
    var m1 := Apply(m, a);
    MarkMakesValid(m1, Page0);
    var m2 := Apply(m1, b);
    ApplyConcat(m, a, b);
    assert EraseIfNeeded(m, Page1) == EraseIfNeeded(m2, Page1);
    EraseMakesErased(m2, Page1);
    ApplyConcat(m, a + b, c);
    DisciplinedConcat(m, a, b);
    DisciplinedConcat(m, a + b, c);
  }

  /** Resuming a transfer out of a valid page p, whatever the other page holds. */
  lemma ResumeNormalises(m: Memory, p: PageId)
    requires m.At(p).header == VALID_PAGE
    ensures var r := ResumeRun(m, p); var h := m.At(p.Other()).header;
            && (r.status == Ok ==> Normal(Apply(m, r.ops)))
            && (r.status == Ok ==> (Disciplined(m, r.ops) <==> h == ERASED || h == RECEIVE_DATA))
            && (r.status != Ok ==> Disciplined(m, r.ops))
  {
    hide CopyRun, Apply1;
    var q := p.Other();
    var copy := CopyRun(m, FirstSlotOf(q), 0);
    CopyOnSlots(m, FirstSlotOf(q), 0);
    CopyDisciplined(m, FirstSlotOf(q), 0);
    OnSlotsKeepsHeaders(m, copy.ops, |copy.ops|);
    if copy.status == Ok {
      var m1 := Apply(m, copy.ops);
      var h := Mark(q).ops;
      MarkMakesValid(m1, q);
      var m2 := Apply(m1, h);
      ApplyConcat(m, copy.ops, h);
      var e := EraseIfNeeded(m2, p).ops;
      EraseMakesErased(m2, p);
      ApplyConcat(m, copy.ops + h, e);
      assert ResumeRun(m, p) == Outcome(copy.ops + h + e, Ok);
      if Disciplined(m1, h) {
        DisciplinedConcat(m, copy.ops, h);
        DisciplinedConcat(m, copy.ops + h, e);
      } else {
        var all := copy.ops + h + e;
        AfterConcat(m, copy.ops + h, e, |copy.ops|);
        AfterConcat(m, copy.ops, h, |copy.ops|);
        assert all[|copy.ops|] == h[0];
        assert After(m1, h, 0) == m1;
        assert !Disciplined1(After(m, all, |copy.ops|), all[|copy.ops|]);
      }
    }
  }

  /** The one header combination that EE_Init treats as an interrupted transfer although neither the writer
      nor EE_Init ever produces it: page 0 valid, page 1 neither erased, receiving nor valid. */
  predicate StrayHeader(m: Memory) {
    m.page0.header == VALID_PAGE && m.page1.header !in {ERASED, RECEIVE_DATA, VALID_PAGE}
  }

  /** From any headers and any contents: if EE_Init succeeds, exactly one page is valid and the other is
      erased, and it kept to the flash's rules unless it met the stray header. */
  lemma InitNormalises(m: Memory)
    ensures var r := InitRun(m);
            && (r.status == Ok ==> Normal(Apply(m, r.ops)))
            && (r.status == Ok ==> (Disciplined(m, r.ops) <==> !StrayHeader(m)))
            && (r.status != Ok ==> Disciplined(m, r.ops))
  {
    var h0, h1 := m.page0.header, m.page1.header;
    FormatNormalises(m);
    EraseMakesErased(m, Page0);
    EraseMakesErased(m, Page1);
    EraseThenMark(m, Page0);
    EraseThenMark(m, Page1);
    if h0 == RECEIVE_DATA && h1 == VALID_PAGE {
      ResumeNormalises(m, Page1);
    } else if h0 == VALID_PAGE && h1 != VALID_PAGE && h1 != ERASED {
      ResumeNormalises(m, Page0);
    }
  }

  /** A page that is valid next to one with an erased header keeps all it holds, and so does one that is receiving,
      whatever the slots of the other page hold. */
  lemma InitKeepsPage(m: Memory, p: PageId)
    requires m.At(p.Other()).header == ERASED
    requires m.At(p).header == VALID_PAGE || m.At(p).header == RECEIVE_DATA
    ensures InitRun(m).status == Ok
    ensures Apply(m, InitRun(m).ops).At(p) == Page(VALID_PAGE, m.At(p).slots)
    ensures forall va: Half :: m.At(p).header == VALID_PAGE ==>
              ReadVariable(Apply(m, InitRun(m).ops), va) == ReadVariable(m, va)
  {
    hide Newest, FullyErased;
    ApplyNone(m);
    ApplyOne(m, ErasePage(p.Other()));
    var m1 := Apply(m, EraseIfNeeded(m, p.Other()).ops);
    ApplyOne(m1, ProgramHeader(p, VALID_PAGE));
    ApplyConcat(m, EraseIfNeeded(m, p.Other()).ops, Mark(p).ops);
  }

  // ----- From a sound memory -----

  lemma StableInit(m: Memory, p: PageId, n: nat, vs: Vars)
    requires StableAt(m, p, n, vs)
    ensures InitRun(m) == NOTHING
  {
  }

  /** The transfer is complete and its source erased: only the mark is missing. */
  lemma SwitchingInit(m: Memory, p: PageId)
    requires Sound(m) && PhaseOf(m) == Switching(p)
    ensures InitRun(m) == Mark(p.Other())
    ensures StableAt(Apply(m, Mark(p.Other()).ops), p.Other(), |m.page0.slots|, Meaning(m))
  {
    ApplyOne(m, ProgramHeader(p.Other(), VALID_PAGE));
  }

  lemma BlankInit(m: Memory)
    requires Sound(m) && PhaseOf(m) == Blank
    ensures InitRun(m) == Mark(Page0)
    ensures StableAt(Apply(m, Mark(Page0).ops), Page0, |m.page0.slots|, map[])
  {
    ApplyOne(m, ProgramHeader(Page0, VALID_PAGE));
    ReplayFree(m.page0.slots);
  }

  /** Both pages valid: EE_Init formats, and all variables are lost. But if it is cut right after its first operation,
      page 1 is the valid page again, with all it holds; and if it is cut after the second, both are valid as before. */
  lemma DoubledInit(m: Memory, n: nat, k: nat)
    requires m.Sized(n) && Sound(m) && PhaseOf(m) == Doubled && k <= 3
    ensures var r := InitRun(m); var c := After(m, r.ops, k);
            && r == Outcome([ErasePage(Page0), ProgramHeader(Page0, VALID_PAGE), ErasePage(Page1)], Ok)
            && Apply(m, r.ops) == After(m, r.ops, 3)
            && c.Sized(n) && Sound(c)
            && (k == 0 || k == 2 ==> PhaseOf(c) == Doubled && c.page1.slots == m.page1.slots)
            && (k == 1 ==> StableAt(c, Page1, n, Replay(m.page1.slots)))
            && (k == 3 ==> StableAt(c, Page0, n, map[]))
  {
    var a, b, c := ErasePage(Page0), ProgramHeader(Page0, VALID_PAGE), ErasePage(Page1);
    var ops := [a, b, c];
    var m1 := Apply1(m, a);
    var m2 := Apply1(m1, b);
    var m3 := Apply1(m2, c);
    assert After(m, ops, 0) == m;
    assert After(m, ops, 1) == m1;
    assert After(m, ops, 2) == m2;
    assert After(m, ops, 3) == m3;
    hide After;
    ReplayFree(m2.page0.slots);
    ReplayFree(m3.page1.slots);
  }

  /** A finished copy, the mark, the erasure of the source: in this order both pages are valid in between. */
  lemma ResumeEnds(m: Memory, p: PageId, n: nat, before: Vars, t: seq<Slot>)
    requires ReceivingAt(m, p, n, before, t) && Replay(t) == Overridden(before, t)
    ensures var h, e := ProgramHeader(p.Other(), VALID_PAGE), ErasePage(p);
            var m1 := Apply1(m, h); var m2 := Apply1(m1, e);
            && EraseIfNeeded(m1, p) == Outcome([e], Ok)
            && m1.Sized(n) && Sound(m1) && PhaseOf(m1) == Doubled && Meaning(m1) == map[]
            && StableAt(m2, p.Other(), n, Overridden(before, t))
  {
    ReplayFree(Erased(m.At(p)).slots);
  }

  /** The operations of a resumed transfer whose copy succeeds. */
  lemma ResumeOps(m: Memory, p: PageId)
    requires CopyRun(m, FirstSlotOf(p.Other()), 0).status == Ok
    requires var m3 := Apply(m, CopyRun(m, FirstSlotOf(p.Other()), 0).ops);
             EraseIfNeeded(Apply1(m3, ProgramHeader(p.Other(), VALID_PAGE)), p) == Outcome([ErasePage(p)], Ok)
    ensures ResumeRun(m, p) ==
            Outcome(CopyRun(m, FirstSlotOf(p.Other()), 0).ops
                      + [ProgramHeader(p.Other(), VALID_PAGE), ErasePage(p)], Ok)
  {
    var copy := CopyRun(m, FirstSlotOf(p.Other()), 0).ops;
    var h := ProgramHeader(p.Other(), VALID_PAGE);
    hide Apply1, EraseIfNeeded, CopyRun;
    ApplyOne(Apply(m, copy), h);
    ApplyConcat(m, copy, [h]);
    assert copy + [h] + [ErasePage(p)] == copy + [h, ErasePage(p)];
  }

  lemma ReceivingInit(m: Memory, p: PageId)
    requires PhaseOf(m) == Receiving(p)
    ensures InitRun(m) == ResumeRun(m, p)
  {
  }

  lemma NothingCovered(before: Vars, s: seq<Slot>)
    requires forall v :: v in before ==> 0 <= v
    ensures Covered(before, s, 0)
  {
  }

  /** A resumed transfer: it succeeds exactly when the receiving page has room for what is left to copy,
      and then delivers what the transfer stood for. */
  lemma ResumeCompletes(m: Memory, p: PageId, n: nat, before: Vars, s: seq<Slot>) returns (t: seq<Slot>)
    requires ReceivingAt(m, p, n, before, s)
    ensures var r := InitRun(m); var m' := Apply(m, r.ops);
            var copy := CopyRun(m, FirstSlotOf(p.Other()), 0);
            && (r.status == Ok || r.status == PageFull)
            && (r.status == Ok <==> Needed(before, s, 0) <= n)
            && r.status == copy.status
            && (r.status != Ok ==> r == copy)
            && (r.status == Ok ==>
                  && StableAt(m', p.Other(), n, Overridden(before, s))
                  && |t| == n && Consistent(before, t) && Overridden(before, t) == Overridden(before, s)
                  && Replay(t) == Overridden(before, t)
                  && Apply(m, copy.ops) == WithSlots(m, p.Other(), t)
                  && EraseIfNeeded(Apply1(Apply(m, copy.ops), ProgramHeader(p.Other(), VALID_PAGE)), p)
                     == Outcome([ErasePage(p)], Ok))
  {
    assert SkipFits(p, FirstSlotOf(p.Other()), s);
    var copy := CopyRun(m, FirstSlotOf(p.Other()), 0);
    assert copy.status != Ok ==> ResumeRun(m, p) == copy;
    assert PhaseOf(m) == Receiving(p);
    hide *;
    ReceivingParts(m, p, n, before, s);
    ReceivingInit(m, p);
    NothingCovered(before, s);
    t := CopyLoop(m, p, before, s, FirstSlotOf(p.Other()));
    if copy.status == Ok {
      ReceivingSlots(m, p, n, before, s, t);
      ResumeEnds(WithSlots(m, p.Other(), t), p, n, before, t);
      ResumeOps(m, p);
      AfterTwoMore(m, copy.ops, ProgramHeader(p.Other(), VALID_PAGE), ErasePage(p), 0);
    }
  }

  /** The slots the receiving page needs before a recovery can finish; 0 if no transfer is under way. */
  function RecoveryNeeds(m: Memory): nat {
    match PhaseOf(m)
    case Receiving(p) => Needed(Replay(m.At(p).slots), m.At(p.Other()).slots, 0)
    case _ => 0
  }

  /** The point of a resumed transfer at which both pages are marked valid: the receiving page has room, and only the
      last operation, the erasure, is missing. */
  predicate AtDoublePoint(m: Memory, k: nat) {
    PhaseOf(m).Receiving? && RecoveryNeeds(m) <= |m.page0.slots| && k == |InitRun(m).ops| - 1
  }

  /** A resumed transfer, cut after k operations. */
  lemma ResumeCrash(m: Memory, p: PageId, n: nat, before: Vars, s: seq<Slot>, k: nat)
    requires ReceivingAt(m, p, n, before, s) && k <= |InitRun(m).ops|
    ensures var m' := After(m, InitRun(m).ops, k);
            && (!AtDoublePoint(m, k) ==> Worth(m', n, Overridden(before, s), Needed(before, s, 0)))
            && (AtDoublePoint(m, k) ==>
                  m'.Sized(n) && Sound(m') && PhaseOf(m') == Doubled && Meaning(m') == map[])
  {
    assert SkipFits(p, FirstSlotOf(p.Other()), s);
    assert PhaseOf(m) == Receiving(p);
    assert AtDoublePoint(m, k) <==> Needed(before, s, 0) <= n && k == |InitRun(m).ops| - 1;
    hide *;
    ReceivingInit(m, p);
    ReceivingParts(m, p, n, before, s);
    var copy := CopyRun(m, FirstSlotOf(p.Other()), 0);
    var t := ResumeCompletes(m, p, n, before, s);
    if copy.status == Ok {
      ResumeOps(m, p);
      AfterTwoMore(m, copy.ops, ProgramHeader(p.Other(), VALID_PAGE), ErasePage(p), k);
    }
    if k <= |copy.ops| {
      var u := CopyLoopCrash(m, p, before, s, FirstSlotOf(p.Other()), 0, k);
      LeavesParts(m, p, before, s, 0, After(m, copy.ops, k), u);
      ReceivingSlots(m, p, n, before, s, u);
      WorthMore(WithSlots(m, p.Other(), u), n, Overridden(before, s), FirstFree(u), Needed(before, s, 0));
    } else {
      ReceivingSlots(m, p, n, before, s, t);
      ResumeEnds(WithSlots(m, p.Other(), t), p, n, before, t);
      StableWorth(Apply(m, InitRun(m).ops), p.Other(), n, Overridden(before, s), Needed(before, s, 0));
    }
  }
}
