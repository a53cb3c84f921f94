/**
 The two pages of a transfer, as its operations leave them: until it is erased, the page copied from keeps its
 contents, and the page copied into only ever fills up.
 */
module SourcePage {
  import opened Flash
  import opened SlotLog
  import opened Store
  import opened StoreSteps
  import opened WriteSafety
  import opened Recovery

  // ----- The page copied from -----

  predicate OnPage(ops: seq<Op>, q: PageId) {
    forall i :: 0 <= i < |ops| ==> ops[i].page == q
  }

  lemma {:induction false} OtherPageKept(m: Memory, ops: seq<Op>, q: PageId, k: nat)
    requires OnPage(ops, q) && k <= |ops|
    ensures After(m, ops, k).At(q.Other()) == m.At(q.Other())
  {
    if k > 0 {
      OtherPageKept(m, ops, q, k - 1);
    }
  }

  lemma {:induction false} CopyOnPage(m: Memory, skip: Skip, va: nat, q: PageId)
    requires va <= NB_OF_VAR && FindValidPage(m, WriteTo) == Some(q)
    ensures OnPage(CopyRun(m, skip, va).ops, q)
    decreases NB_OF_VAR - va
  {
    if va < NB_OF_VAR {
      var one := CopyOneRun(m, skip, va);
      assert OnPage(one.ops, q) && OnSlots(one.ops);
      OnSlotsKeepsHeaders(m, one.ops, |one.ops|);
      hide CopyOneRun, Apply1;
      CopyOnPage(Apply(m, one.ops), skip, va + 1, q);
    }
  }

  /** If a transfer is under way, the page it copies from holds these variables. */
  predicate SourceHolds(m: Memory, before: Vars) {
    PhaseOf(m).Receiving? ==> Replay(m.At(PhaseOf(m).from).slots) == before
  }

  lemma SourceErased(c: Memory, p: PageId, before: Vars)
    requires c.At(p).header == ERASED
    ensures SourceHolds(c, before)
  {
  }

  /** Filling the receiving page does not touch the source. */
  lemma SourceKept(m: Memory, p: PageId, n: nat, before: Vars, s: seq<Slot>, t: seq<Slot>)
    requires ReceivingAt(m, p, n, before, s)
    ensures SourceHolds(m, before) && SourceHolds(WithSlots(m, p.Other(), t), before)
  {
    hide Sound, Replay;
  }

  /** The same for any run on the receiving page. */
  lemma SourceKeptBy(m: Memory, p: PageId, n: nat, before: Vars, s: seq<Slot>, ops: seq<Op>, k: nat)
    requires ReceivingAt(m, p, n, before, s) && OnPage(ops, p.Other()) && k <= |ops|
    ensures SourceHolds(After(m, ops, k), before)
  {
    hide Sound, Replay, After;
    OtherPageKept(m, ops, p.Other(), k);
  }

  lemma ReceivingWritesTo(m: Memory, p: PageId, n: nat, before: Vars, s: seq<Slot>)
    requires ReceivingAt(m, p, n, before, s)
    ensures FindValidPage(m, WriteTo) == Some(p.Other())
  {
  }

  /** The end of a transfer, cut anywhere. */
  lemma TailSource(m2: Memory, p: PageId, n: nat, before: Vars, t: seq<Slot>, va: Half, k: nat)
    requires ReceivingAt(m2, p, n, before, t) && k <= |TransferTail(m2, p, va).ops|
    ensures SourceHolds(After(m2, TransferTail(m2, p, va).ops, k), before)
  {
    hide *;
    var copy := CopyRun(m2, Variable(va), 0).ops;
    TailShape(m2, p, va, k);
    if k <= |copy| {
      ReceivingWritesTo(m2, p, n, before, t);
      CopyOnPage(m2, Variable(va), 0, p.Other());
      SourceKeptBy(m2, p, n, before, t, copy, k);
    } else {
      SwitchedHeaders(Apply(m2, copy), p);
      SourceErased(After(m2, TransferTail(m2, p, va).ops, k), p, before);
    }
  }

  lemma SwitchedHeaders(m3: Memory, p: PageId)
    ensures var e, h := ErasePage(p), ProgramHeader(p.Other(), VALID_PAGE);
            Apply1(m3, e).At(p).header == ERASED && Apply1(Apply1(m3, e), h).At(p).header == ERASED
  {
  }

  /** A transfer cut anywhere: as long as it is under way, the source holds the variables from before. */
  lemma TransferSource(m: Memory, p: PageId, n: nat, vs: Vars, va: Half, d: Half, k: nat)
    requires StableAt(m, p, n, vs) && n > 0 && va < NB_OF_VAR && k <= |TransferRun(m, va, d).ops|
    ensures SourceHolds(After(m, TransferRun(m, va, d).ops, k), vs)
  {
    hide *;
    var t := TransferSeeded(m, p, n, vs, va, d);
    var m1 := Marked(m, p);
    var s := m.At(p.Other()).slots;
    var first := AppendRun(m1, va, d).ops;
    var m2 := Apply(m1, first);
    MarkedIs(m, p);
    AfterThree(m, ProgramHeader(p.Other(), RECEIVE_DATA), first, TransferTail(m2, p, va).ops, k);
    TransferBegins(m, p, n, vs);
    StableSource(m, p, n, vs);
    SeedTransfer(m1, p, n, vs, s, va, d);
    SourceKept(m1, p, n, vs, s, s[0 := Slot(d, ERASED)]);
    SourceKept(m1, p, n, vs, s, s[0 := Slot(d, va)]);
    if k > 3 {
      TailSource(m2, p, n, vs, t, va, k - 3);
    }
  }

  lemma StableSource(m: Memory, p: PageId, n: nat, vs: Vars)
    requires StableAt(m, p, n, vs)
    ensures forall before :: SourceHolds(m, before)
  {
  }

  /** A write cut anywhere. */
  lemma WriteSource(m: Memory, p: PageId, n: nat, vs: Vars, va: Half, d: Half, k: nat)
    requires StableAt(m, p, n, vs) && n > 0 && va < NB_OF_VAR && k <= |WriteRun(m, va, d).ops|
    ensures SourceHolds(After(m, WriteRun(m, va, d).ops, k), vs)
  {
    hide WriteRun, AppendRun, TransferRun, StableAt, SourceHolds, After, Full;
    WriteShape(m, p, n, vs, va, d);
    if Full(m, p) {
      TransferSource(m, p, n, vs, va, d, k);
    } else {
      AppendCrash(m, p, n, vs, va, d, 2);
      AppendCrash(m, p, n, vs, va, d, k);
      StableSource(After(m, AppendRun(m, va, d).ops, k), p, n, if k == 2 then vs[va := d] else vs);
    }
  }

  /** A resumed transfer whose copy succeeds: its memory after k operations. */
  lemma ResumeAfter(m: Memory, p: PageId, n: nat, before: Vars, s: seq<Slot>, k: nat) returns (t: seq<Slot>)
    requires ReceivingAt(m, p, n, before, s) && Needed(before, s, 0) <= n && k <= |InitRun(m).ops|
    ensures var copy := CopyRun(m, FirstSlotOf(p.Other()), 0).ops;
            var h, e := ProgramHeader(p.Other(), VALID_PAGE), ErasePage(p);
            var m3 := WithSlots(m, p.Other(), t); var c := After(m, InitRun(m).ops, k);
            && |InitRun(m).ops| == |copy| + 2 && Replay(t) == Overridden(before, s)
            && (k <= |copy| ==> c == After(m, copy, k))
            && (k == |copy| + 1 ==> c == Apply1(m3, h))
            && (k == |copy| + 2 ==> c == Apply1(Apply1(m3, h), e))
  {
    hide *;
    var copy := CopyRun(m, FirstSlotOf(p.Other()), 0).ops;
    t := ResumeCompletes(m, p, n, before, s);
    ResumePhase(m, p, n, before, s);
    ReceivingInit(m, p);
    ResumeOps(m, p);
    AfterTwoMore(m, copy, ProgramHeader(p.Other(), VALID_PAGE), ErasePage(p), k);
  }

  lemma ResumePhase(m: Memory, p: PageId, n: nat, before: Vars, s: seq<Slot>)
    requires ReceivingAt(m, p, n, before, s)
    ensures m.Sized(n) && Sound(m) && PhaseOf(m) == Receiving(p) && Replay(m.At(p).slots) == before
    ensures RecoveryNeeds(m) == Needed(before, s, 0) && Meaning(m) == Overridden(before, s)
  {
    hide Sound, Needed, Replay;
  }

  lemma InitSourceReceiving(m: Memory, p: PageId, n: nat, before: Vars, s: seq<Slot>, k: nat)
    requires ReceivingAt(m, p, n, before, s) && k <= |InitRun(m).ops| && !AtDoublePoint(m, k)
    ensures SourceHolds(After(m, InitRun(m).ops, k), before)
  {
    hide ReceivingAt, InitRun, CopyRun, SourceHolds, Needed, Apply1, After;
    var copy := CopyRun(m, FirstSlotOf(p.Other()), 0).ops;
    ReceivingWritesTo(m, p, n, before, s);
    CopyOnPage(m, FirstSlotOf(p.Other()), 0, p.Other());
    ResumePhase(m, p, n, before, s);
    if Needed(before, s, 0) <= n {
      var t := ResumeAfter(m, p, n, before, s, k);
      if k <= |copy| {
        SourceKeptBy(m, p, n, before, s, copy, k);
      } else {
        ErasedHeader(WithSlots(m, p.Other(), t), p);
        SourceErased(After(m, InitRun(m).ops, k), p, before);
      }
    } else {
      var t := ResumeCompletes(m, p, n, before, s);
      SourceKeptBy(m, p, n, before, s, copy, k);
    }
  }

  lemma ErasedHeader(m3: Memory, p: PageId)
    ensures Apply1(Apply1(m3, ProgramHeader(p.Other(), VALID_PAGE)), ErasePage(p)).At(p).header == ERASED
  {
  }

  /** A recovery cut anywhere but at the double point. */
  lemma InitSource(m: Memory, n: nat, before: Vars, k: nat)
    requires m.Sized(n) && Sound(m) && PhaseOf(m) != Doubled && SourceHolds(m, before)
    requires k <= |InitRun(m).ops| && !AtDoublePoint(m, k)
    ensures SourceHolds(After(m, InitRun(m).ops, k), before)
  {
    match PhaseOf(m)
    case Receiving(p) =>
      hide After, InitRun, Sound;
      InitSourceReceiving(m, p, n, before, m.At(p.Other()).slots, k);
    case Stable(p) =>
      StableInit(m, p, n, Meaning(m));
    case Switching(p) =>
      SwitchingInit(m, p);
      assert k == 0 || After(m, InitRun(m).ops, k) == Apply(m, InitRun(m).ops);
    case Blank =>
      BlankInit(m);
      assert k == 0 || After(m, InitRun(m).ops, k) == Apply(m, InitRun(m).ops);
  }

  /** The double point: page 1 holds the new variables if it is the page copied into, and otherwise those from
      before. */
  lemma DoublePointSides(m: Memory, p: PageId, n: nat, before: Vars, s: seq<Slot>, k: nat)
    requires ReceivingAt(m, p, n, before, s) && k <= |InitRun(m).ops| && AtDoublePoint(m, k)
    ensures var c := After(m, InitRun(m).ops, k);
            Replay(c.page1.slots) == if p == Page0 then Overridden(before, s) else before
  {
    hide InitRun, CopyRun, Needed, Replay, Sound;
    ResumePhase(m, p, n, before, s);
    var t := ResumeAfter(m, p, n, before, s, k);
  }

  // ----- The page copied into -----

  /** t has all the used slots of s unchanged. */
  predicate Extends(s: seq<Slot>, t: seq<Slot>) {
    |t| == |s| && forall i :: 0 <= i < FirstFree(s) ==> t[i] == s[i]
  }

  lemma ExtendsMore(s: seq<Slot>, t: seq<Slot>)
    requires Extends(s, t)
    ensures FirstFree(s) <= FirstFree(t)
  {
    assert forall i :: 0 <= i < FirstFree(s) ==> !t[i].Free();
  }

  lemma ExtendsFurther(s: seq<Slot>, t: seq<Slot>, u: seq<Slot>)
    requires Extends(s, t) && Extends(t, u)
    ensures Extends(s, u)
  {
    ExtendsMore(s, t);
  }

  lemma AppendExtends(m: Memory, va: Half, d: Half, q: PageId, k: nat)
    requires FindValidPage(m, WriteTo) == Some(q) && k <= |AppendRun(m, va, d).ops|
    ensures Extends(m.At(q).slots, After(m, AppendRun(m, va, d).ops, k).At(q).slots)
  {
    hide FindValidPage, After, Apply;
    if FirstFree(m.At(q).slots) < |m.At(q).slots| {
      AppendEffect(m, q, va, d);
    } else {
      ApplyNone(m);
    }
  }

  lemma OneExtends(m: Memory, skip: Skip, va: Half, q: PageId, k: nat)
    requires FindValidPage(m, WriteTo) == Some(q) && k <= |CopyOneRun(m, skip, va).ops|
    ensures var c := After(m, CopyOneRun(m, skip, va).ops, k);
            Extends(m.At(q).slots, c.At(q).slots) && FindValidPage(c, WriteTo) == Some(q)
  {
    hide FirstFree, Newest, After, Apply;
    var ops := CopyOneRun(m, skip, va).ops;
    assert OnSlots(ops);
    OnSlotsKeepsHeaders(m, ops, k);
    if ops == [] {
      ApplyNone(m);
      ExtendsItself(m.At(q).slots);
    } else {
      AppendExtends(m, va, if ReadVariable(m, va).Found? then ReadVariable(m, va).data else 0, q, k);
    }
  }

  lemma {:induction false} CopyExtends(m: Memory, skip: Skip, va: nat, q: PageId, k: nat)
    requires va <= NB_OF_VAR && FindValidPage(m, WriteTo) == Some(q) && k <= |CopyRun(m, skip, va).ops|
    ensures Extends(m.At(q).slots, After(m, CopyRun(m, skip, va).ops, k).At(q).slots)
    decreases NB_OF_VAR - va
  {
    hide CopyOneRun, FindValidPage, Extends;
    if va == NB_OF_VAR {
      ExtendsItself(m.At(q).slots);
    } else {
      var one := CopyOneRun(m, skip, va);
      if one.status != Ok || k < |one.ops| {
        OneExtends(m, skip, va, q, k);
        if one.status == Ok {
          CopyUnfoldAfter(m, skip, va, k);
        }
      } else {
        OneExtends(m, skip, va, q, |one.ops|);
        CopyUnfoldAfter(m, skip, va, k);
        var m1 := Apply(m, one.ops);
        CopyExtends(m1, skip, va + 1, q, k - |one.ops|);
        ExtendsFurther(m.At(q).slots, m1.At(q).slots, After(m, CopyRun(m, skip, va).ops, k).At(q).slots);
      }
    }
  }

  lemma ExtendsItself(s: seq<Slot>)
    ensures Extends(s, s)
  {
  }

  /** A fuller receiving page needs no less room in all. */
  lemma NeededGrows(before: Vars, s: seq<Slot>, t: seq<Slot>)
    requires Extends(s, t) && forall v :: v in before ==> 0 <= v < NB_OF_VAR
    ensures Needed(before, s, 0) <= Needed(before, t, 0)
  {
    ExtendsMore(s, t);
    if FirstFree(s) > 0 || FirstFree(t) == 0 {
      assert ToCopy(before, t, 0) == ToCopy(before, s, 0);
    } else {
      assert ToCopy(before, s, 0) == before.Keys;
      assert before.Keys <= ToCopy(before, t, 0) + {t[0].va as int};
      assert |before.Keys| <= |ToCopy(before, t, 0) + {t[0].va as int}| by {
        SubsetSize(before.Keys, ToCopy(before, t, 0) + {t[0].va as int});
      }
    }
  }

  lemma {:induction false} SubsetSize(a: set<int>, b: set<int>)
    requires a <= b
    ensures |a| <= |b|
  {
    assert b == a + (b - a);
  }

  /** Without room, a recovery changes nothing for the better: it reports a full page, and wherever it is cut, there is
      still no room. */
  lemma NoRoomPersists(m: Memory, n: nat, k: nat)
    requires m.Sized(n) && Sound(m) && RecoveryNeeds(m) > n && k <= |InitRun(m).ops|
    ensures InitRun(m).status == PageFull
    ensures var c := After(m, InitRun(m).ops, k);
            PhaseOf(c) == PhaseOf(m) && PhaseOf(m).Receiving? && RecoveryNeeds(m) <= RecoveryNeeds(c)
  {
    var p := PhaseOf(m).from;
    var q := p.Other();
    var before, s := Replay(m.At(p).slots), m.At(q).slots;
    NoRoomIsCopy(m, p, n, before, s);
    hide CopyRun, After, Replay, Needed, Sound, ReceivingAt, InitRun;
    var copy := CopyRun(m, FirstSlotOf(q), 0).ops;
    ReceivingWritesTo(m, p, n, before, s);
    CopyOnSlots(m, FirstSlotOf(q), 0);
    OnSlotsKeepsHeaders(m, copy, k);
    CopyOnPage(m, FirstSlotOf(q), 0, q);
    OtherPageKept(m, copy, q, k);
    CopyExtends(m, FirstSlotOf(q), 0, q, k);
    NeededGrows(before, s, After(m, copy, k).At(q).slots);
  }

  lemma NoRoomIsCopy(m: Memory, p: PageId, n: nat, before: Vars, s: seq<Slot>)
    requires m.Sized(n) && Sound(m) && PhaseOf(m) == Receiving(p) && RecoveryNeeds(m) > n
    requires before == Replay(m.At(p).slots) && s == m.At(p.Other()).slots
    ensures ReceivingAt(m, p, n, before, s)
    ensures InitRun(m) == CopyRun(m, FirstSlotOf(p.Other()), 0) && InitRun(m).status == PageFull
  {
    hide CopyRun, Needed, InitRun, Sound;
    var t := ResumeCompletes(m, p, n, before, s);
  }
}
