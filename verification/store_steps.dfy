/**
 How the meaning of the flash moves under single appends and under the copying loop, at every point
 where a power loss could stop them.
 */
module StoreSteps {
  import opened Flash
  import opened SlotLog
  import opened Store

  lemma ApplyNone(m: Memory)
    ensures After(m, [], 0) == Apply(m, []) == m
  {
  }

  lemma ApplyOne(m: Memory, op: Op)
    ensures Apply(m, [op]) == Apply1(m, op)
    ensures Disciplined1(m, op) ==> Disciplined(m, [op])
  {
    assert After(m, [op], 0) == m;
  }

  lemma ApplyTwo(m: Memory, a: Op, b: Op)
    ensures Apply(m, [a, b]) == Apply1(Apply1(m, a), b)
    ensures After(m, [a, b], 0) == m && After(m, [a, b], 1) == Apply1(m, a)
    ensures Disciplined1(m, a) && Disciplined1(Apply1(m, a), b) ==> Disciplined(m, [a, b])
  {
    assert After(m, [a, b], 0) == m;
    assert After(m, [a, b], 1) == Apply1(m, a);
  }

  /** A run followed by two operations, cut after k operations. */
  lemma AfterTwoMore(m: Memory, copy: seq<Op>, a: Op, b: Op, k: nat)
    ensures var m3 := Apply(m, copy); var ops := copy + [a, b];
            && Apply(m, ops) == Apply1(Apply1(m3, a), b)
            && (k <= |ops| ==>
                  After(m, ops, k) == if k <= |copy| then After(m, copy, k)
                                      else if k == |copy| + 1 then Apply1(m3, a)
                                      else Apply1(Apply1(m3, a), b))
  {
    ApplyTwo(Apply(m, copy), a, b);
    ApplyConcat(m, copy, [a, b]);
    if k <= |copy| + 2 {
      AfterConcat(m, copy, [a, b], k);
    }
  }

  /** Page p with its slots replaced. */
  function WithSlots(m: Memory, p: PageId, s: seq<Slot>): Memory {
    m.With(p, m.At(p).(slots := s))
  }

  /** The three memories an append can leave, and its discipline: it only ever programs free cells. */
  lemma AppendEffect(m: Memory, p: PageId, va: Half, d: Half)
    requires FindValidPage(m, WriteTo) == Some(p) && FirstFree(m.At(p).slots) < |m.At(p).slots|
    ensures var s := m.At(p).slots; var f := FirstFree(s); var r := AppendRun(m, va, d);
            && r.status == Ok && |r.ops| == 2
            && After(m, r.ops, 0) == m
            && After(m, r.ops, 1) == WithSlots(m, p, s[f := Slot(d, ERASED)])
            && After(m, r.ops, 2) == Apply(m, r.ops) == WithSlots(m, p, s[f := Slot(d, va)])
            && Disciplined(m, r.ops)
  {
    var s := m.At(p).slots;
    var f := FirstFree(s);
    var a, b := ProgramData(p, f, d), ProgramVa(p, f, va);
    var m1 := Apply1(m, a);
    assert m1 == WithSlots(m, p, s[f := Slot(d, ERASED)]);
    assert Apply1(m1, b) == WithSlots(m, p, s[f := Slot(d, va)]);
    ApplyTwo(m, a, b);
  }

  lemma {:induction false} EntryReplayed(s: seq<Slot>, j: nat, n: nat)
    requires j < n <= |s| && s[j].Complete()
    ensures s[j].va in ReplayTo(s, n)
  {
    if j < n - 1 {
      EntryReplayed(s, j, n - 1);
    }
  }

  // ----- The copying loop, on the slots of the receiving page -----

  /** What a transfer delivers: the variables of the page it reads from, except that slot 0 of the
      receiving page, once complete, overrides them. */
  function Overridden(before: Vars, s: seq<Slot>): Vars {
    if |s| > 0 && s[0].Complete() then before[s[0].va := s[0].data] else before
  }

  /** The receiving page holds nothing that the transfer does not deliver. */
  predicate Consistent(before: Vars, s: seq<Slot>) {
    Tidy(s) && Within(Replay(s), Overridden(before, s))
  }

  predicate InFirstSlot(s: seq<Slot>, va: int) {
    |s| > 0 && s[0].va == va
  }

  /** The variables still to be copied once the loop has reached va. */
  function ToCopy(before: Vars, s: seq<Slot>, va: nat): set<int> {
    set v <- before.Keys | va <= v && !InFirstSlot(s, v)
  }

  /** The slots in use once the rest of the loop is done. */
  function Needed(before: Vars, s: seq<Slot>, va: nat): nat {
    FirstFree(s) + |ToCopy(before, s, va)|
  }

  /** The receiving page s at the turn for va may become t while the rest of the loop runs: the transfer
      delivers the same, and no more slots are in use than the loop needs. */
  predicate Reaches(before: Vars, s: seq<Slot>, va: nat, t: seq<Slot>) {
    && |t| == |s| && Consistent(before, t)
    && Overridden(before, t) == Overridden(before, s)
    && FirstFree(t) <= Needed(before, s, va)
  }

  /** Every variable below va that the transfer delivers is in the receiving page already. */
  predicate Covered(before: Vars, s: seq<Slot>, va: nat) {
    forall v :: v in Overridden(before, s) && v < va ==> v in Replay(s)
  }

  /** Between the two half-words of a copied entry the transfer still delivers the same. */
  lemma CopyTorn(before: Vars, s: seq<Slot>, va: Half)
    requires Consistent(before, s) && FirstFree(s) < |s|
    requires va in before && va < NB_OF_VAR
    ensures var t := s[FirstFree(s) := Slot(before[va], ERASED)];
            && Consistent(before, t) && Overridden(before, t) == Overridden(before, s)
            && FirstFree(t) <= FirstFree(s) + 1
  {
    AppendTorn(s, before[va]);
  }

  /** After a copied entry the transfer delivers the same, and one variable more is in place. */
  lemma CopyWhole(before: Vars, s: seq<Slot>, va: Half)
    requires Consistent(before, s) && FirstFree(s) < |s|
    requires va in before && va < NB_OF_VAR && !InFirstSlot(s, va)
    ensures var t := s[FirstFree(s) := Slot(before[va], va)];
            && Consistent(before, t) && Overridden(before, t) == Overridden(before, s)
            && FirstFree(t) == FirstFree(s) + 1
            && Replay(t) == Replay(s)[va := before[va]]
            && (t[0] == s[0] || (s[0].Free() && t[0].va == va))
  {
    AppendComplete(s, va, before[va]);
    if FirstFree(s) == 0 {
      assert s[0].Free();
      assert before[va := before[va]] == before;
    }
  }

  /** The set left to copy loses the variable just passed. */
  lemma ToCopyNext(before: Vars, s: seq<Slot>, t: seq<Slot>, va: nat)
    requires |s| == |t|
    requires |s| > 0 ==> s[0] == t[0] || (s[0].Free() && t[0].va == va)
    requires forall v :: v in before ==> v < NB_OF_VAR
    ensures ToCopy(before, t, va + 1) == ToCopy(before, s, va) - {va}
    ensures |ToCopy(before, t, va + 1)| == |ToCopy(before, s, va)| - (if va in ToCopy(before, s, va) then 1 else 0)
  {
  }

  /** A transfer out of page p as the copying loop sees it. */
  predicate Copying(m: Memory, p: PageId, before: Vars, s: seq<Slot>) {
    && FindValidPage(m, WriteTo) == Some(p.Other())
    && FindValidPage(m, ReadFrom) == Some(p)
    && Replay(m.At(p).slots) == before
    && m.At(p.Other()).slots == s
  }

  lemma CopyingSlots(m: Memory, p: PageId, before: Vars, s: seq<Slot>)
    requires Copying(m, p, before, s)
    ensures WithSlots(m, p.Other(), s) == m
  {
  }

  lemma WithSlotsTwice(m: Memory, p: PageId, s: seq<Slot>, t: seq<Slot>)
    ensures WithSlots(WithSlots(m, p, s), p, t) == WithSlots(m, p, t)
  {
  }

  /** Both ways of passing a variable over mean the one in slot 0. */
  predicate SkipFits(p: PageId, skip: Skip, s: seq<Slot>) {
    match skip
    case Variable(v) => InFirstSlot(s, v) && v < NB_OF_VAR
    case FirstSlotOf(q) => q == p.Other()
  }

  /** One turn of the loop appends exactly when the variable is due. */
  lemma CopyOneCases(m: Memory, p: PageId, before: Vars, s: seq<Slot>, skip: Skip, va: Half)
    requires Copying(m, p, before, s) && SkipFits(p, skip, s) && va < NB_OF_VAR
    ensures CopyOneRun(m, skip, va) ==
            if va in ToCopy(before, s, va) then AppendRun(m, va, before[va]) else NOTHING
  {
    NewestIsReplay(m.At(p).slots, va);
  }

  /** A turn that does not append. */
  lemma PassOver(before: Vars, s: seq<Slot>, va: nat)
    requires va !in ToCopy(before, s, va) && va < NB_OF_VAR
    ensures Covered(before, s, va) ==> Covered(before, s, va + 1)
  {
    if InFirstSlot(s, va) {
      EntryReplayed(s, 0, |s|);
    }
  }

  /** One turn that finds room. */
  lemma Turn(m: Memory, p: PageId, before: Vars, s: seq<Slot>, skip: Skip, va: Half) returns (t: seq<Slot>)
    requires Copying(m, p, before, s) && SkipFits(p, skip, s) && va < NB_OF_VAR
    requires Consistent(before, s)
    requires va in ToCopy(before, s, va) ==> FirstFree(s) < |s|
    ensures var one := CopyOneRun(m, skip, va); var m1 := Apply(m, one.ops);
            && one.status == Ok && Disciplined(m, one.ops)
            && m1 == WithSlots(m, p.Other(), t) && Copying(m1, p, before, t) && SkipFits(p, skip, t)
    ensures |t| == |s| && Consistent(before, t) && Overridden(before, t) == Overridden(before, s)
    ensures Covered(before, s, va) ==> Covered(before, t, va + 1)
    ensures Needed(before, t, va + 1) == Needed(before, s, va)
  {
    t := s;
    CopyOneCases(m, p, before, s, skip, va);
    if va in ToCopy(before, s, va) {
      AppendEffect(m, p.Other(), va, before[va]);
      CopyWhole(before, s, va);
      t := s[FirstFree(s) := Slot(before[va], va)];
    } else {
      PassOver(before, s, va);
    }
    ToCopyNext(before, s, t, va);
  }

  /** One turn stopped before its last operation. */
  lemma TurnCrash(m: Memory, p: PageId, before: Vars, s: seq<Slot>, skip: Skip, va: Half, k: nat)
    returns (t: seq<Slot>)
    requires Copying(m, p, before, s) && SkipFits(p, skip, s) && va < NB_OF_VAR
    requires Consistent(before, s)
    requires k < |CopyOneRun(m, skip, va).ops|
    ensures Leaves(m, p, before, s, va, After(m, CopyOneRun(m, skip, va).ops, k), t)
  {
    CopyOneCases(m, p, before, s, skip, va);
    AppendEffect(m, p.Other(), va, before[va]);
    CopyTorn(before, s, va);
    t := if k == 0 then s else s[FirstFree(s) := Slot(before[va], ERASED)];
  }

  /** A turn and the rest of the loop. */
  lemma CopyUnfold(m: Memory, skip: Skip, va: nat)
    requires va < NB_OF_VAR && CopyOneRun(m, skip, va).status == Ok
    ensures var one := CopyOneRun(m, skip, va).ops; var m1 := Apply(m, one);
            var r := CopyRun(m, skip, va); var next := CopyRun(m1, skip, va + 1);
            && r.status == next.status && r.ops == one + next.ops
            && Apply(m, r.ops) == Apply(m1, next.ops)
  {
    var one := CopyOneRun(m, skip, va).ops;
    ApplyConcat(m, one, CopyRun(Apply(m, one), skip, va + 1).ops);
  }

  lemma CopyUnfoldAfter(m: Memory, skip: Skip, va: nat, k: nat)
    requires va < NB_OF_VAR && CopyOneRun(m, skip, va).status == Ok
    requires k <= |CopyRun(m, skip, va).ops|
    ensures var one := CopyOneRun(m, skip, va).ops; var m1 := Apply(m, one);
            var next := CopyRun(m1, skip, va + 1).ops;
            && (k < |one| ==> After(m, CopyRun(m, skip, va).ops, k) == After(m, one, k))
            && (k >= |one| ==>
                  && k - |one| <= |next|
                  && After(m, CopyRun(m, skip, va).ops, k) == After(m1, next, k - |one|))
  {
    CopyUnfold(m, skip, va);
    var one := CopyOneRun(m, skip, va).ops;
    AfterConcat(m, one, CopyRun(Apply(m, one), skip, va + 1).ops, k);
  }

  /** A loop that issues nothing: it is at its end, or it finds the page full. */
  lemma CopyNothing(m: Memory, p: PageId, before: Vars, s: seq<Slot>, skip: Skip, va: nat)
    requires Copying(m, p, before, s) && SkipFits(p, skip, s) && va <= NB_OF_VAR
    requires va == NB_OF_VAR || (va in ToCopy(before, s, va) && FirstFree(s) == |s|)
    ensures Consistent(before, s) ==> Reaches(before, s, va, s)
    ensures va < NB_OF_VAR ==> |s| < Needed(before, s, va)
    ensures CopyRun(m, skip, va) == Outcome([], if va == NB_OF_VAR then Ok else PageFull)
  {
    if va < NB_OF_VAR {
      CopyOneCases(m, p, before, s, skip, va);
      assert |ToCopy(before, s, va)| > 0;
    }
  }

  /** At its end the loop has delivered everything. */
  lemma AllCovered(before: Vars, s: seq<Slot>, va: nat)
    requires va == NB_OF_VAR && Consistent(before, s) && Covered(before, s, va)
    requires forall v :: v in before ==> v < NB_OF_VAR
    ensures Needed(before, s, va) == FirstFree(s) && Replay(s) == Overridden(before, s)
    ensures FirstFree(s) <= |s|
  {
    assert ToCopy(before, s, va) == {};
    var all := Overridden(before, s);
    assert forall v :: v in all ==> v < NB_OF_VAR;
    assert Replay(s).Keys == all.Keys;
  }

  /** The receiving page t, once the loop from variable va on has filled s: everything is delivered, one slot
      for each variable copied. */
  predicate Delivered(before: Vars, s: seq<Slot>, va: nat, t: seq<Slot>) {
    && |t| == |s| && Consistent(before, t) && Overridden(before, t) == Overridden(before, s)
    && FirstFree(t) == Needed(before, s, va)
    && Replay(t) == Overridden(before, s)
  }

  /** The run r of the loop succeeds exactly when there is room, and then leaves page t. */
  predicate Copies(m: Memory, p: PageId, before: Vars, s: seq<Slot>, va: nat, r: Outcome, t: seq<Slot>) {
    && (r.status == Ok || r.status == PageFull)
    && (r.status == Ok <==> Needed(before, s, va) <= |s|)
    && (r.status == Ok ==> Apply(m, r.ops) == WithSlots(m, p.Other(), t) && Delivered(before, s, va, t))
  }

  lemma CopiesNothing(m: Memory, p: PageId, before: Vars, s: seq<Slot>, skip: Skip, va: nat)
    requires Copying(m, p, before, s) && SkipFits(p, skip, s) && va <= NB_OF_VAR
    requires Consistent(before, s) && Covered(before, s, va)
    requires va == NB_OF_VAR || (va in ToCopy(before, s, va) && FirstFree(s) == |s|)
    ensures Copies(m, p, before, s, va, CopyRun(m, skip, va), s)
  {
    CopyNothing(m, p, before, s, skip, va);
    CopyingSlots(m, p, before, s);
    ApplyNone(m);
    if va == NB_OF_VAR {
      AllCovered(before, s, va);
    }
  }

  lemma CopiesLater(m: Memory, p: PageId, before: Vars, s: seq<Slot>, va: nat, r: Outcome,
                    t1: seq<Slot>, r1: Outcome, t: seq<Slot>)
    requires Copies(WithSlots(m, p.Other(), t1), p, before, t1, va + 1, r1, t)
    requires |t1| == |s| && Overridden(before, t1) == Overridden(before, s)
    requires Needed(before, t1, va + 1) == Needed(before, s, va)
    requires r.status == r1.status && Apply(m, r.ops) == Apply(WithSlots(m, p.Other(), t1), r1.ops)
    ensures Copies(m, p, before, s, va, r, t)
  {
    hide Apply, Overridden, Needed, Consistent, FirstFree, Replay;
    WithSlotsTwice(m, p.Other(), t1, t);
  }

  lemma {:induction false} CopyLoopFrom(m: Memory, p: PageId, before: Vars, s: seq<Slot>, skip: Skip, va: nat)
    returns (t: seq<Slot>)
    requires Copying(m, p, before, s) && SkipFits(p, skip, s) && va <= NB_OF_VAR
    requires Consistent(before, s) && Covered(before, s, va)
    ensures Copies(m, p, before, s, va, CopyRun(m, skip, va), t)
    decreases NB_OF_VAR - va
  {
    hide *;
    VariableFits(va);
    if va == NB_OF_VAR || (va in ToCopy(before, s, va) && FirstFree(s) == |s|) {
      CopiesNothing(m, p, before, s, skip, va);
      return s;
    }
    var m1 := Apply(m, CopyOneRun(m, skip, va).ops);
    var t1 := Turn(m, p, before, s, skip, va);
    CopyUnfold(m, skip, va);
    t := CopyLoopFrom(m1, p, before, t1, skip, va + 1);
    CopiesLater(m, p, before, s, va, CopyRun(m, skip, va), t1, CopyRun(m1, skip, va + 1), t);
  }

  /** The loop as a whole: it succeeds exactly when the receiving page has room, uses one slot for each
      variable copied, and delivers every variable. */
  lemma CopyLoop(m: Memory, p: PageId, before: Vars, s: seq<Slot>, skip: Skip)
    returns (t: seq<Slot>)
    requires Copying(m, p, before, s) && SkipFits(p, skip, s)
    requires Consistent(before, s) && Covered(before, s, 0)
    ensures var r := CopyRun(m, skip, 0);
            && (r.status == Ok || r.status == PageFull)
            && (r.status == Ok <==> Needed(before, s, 0) <= |s|)
            && (r.status == Ok ==>
                  && Apply(m, r.ops) == WithSlots(m, p.Other(), t)
                  && |t| == |s| && Consistent(before, t) && Overridden(before, t) == Overridden(before, s)
                  && FirstFree(t) == Needed(before, s, 0)
                  && Replay(t) == Overridden(before, s))
  {
    t := CopyLoopFrom(m, p, before, s, skip, 0);
    assert Copies(m, p, before, s, 0, CopyRun(m, skip, 0), t);
  }

  /** What a power loss in the loop leaves: the receiving page t in place of s. */
  predicate Leaves(m: Memory, p: PageId, before: Vars, s: seq<Slot>, va: nat, m': Memory, t: seq<Slot>) {
    m' == WithSlots(m, p.Other(), t) && Reaches(before, s, va, t)
  }

  lemma LeavesNothing(m: Memory, p: PageId, before: Vars, s: seq<Slot>, skip: Skip, va: nat)
    requires Copying(m, p, before, s) && SkipFits(p, skip, s) && va <= NB_OF_VAR && Consistent(before, s)
    requires va == NB_OF_VAR || (va in ToCopy(before, s, va) && FirstFree(s) == |s|)
    ensures CopyRun(m, skip, va).ops == [] && Leaves(m, p, before, s, va, After(m, [], 0), s)
  {
    hide *;
    CopyingSlots(m, p, before, s);
    CopyNothing(m, p, before, s, skip, va);
    ApplyNone(m);
    LeavesIntro(m, p, before, s, va, m, s);
  }

  lemma LeavesIntro(m: Memory, p: PageId, before: Vars, s: seq<Slot>, va: nat, m': Memory, t: seq<Slot>)
    requires m' == WithSlots(m, p.Other(), t) && Reaches(before, s, va, t)
    ensures Leaves(m, p, before, s, va, m', t)
  {
  }

  lemma LeavesLater(m: Memory, p: PageId, before: Vars, s: seq<Slot>, va: nat,
                    t1: seq<Slot>, m': Memory, t: seq<Slot>)
    requires |t1| == |s| && Overridden(before, t1) == Overridden(before, s)
    requires Needed(before, t1, va + 1) == Needed(before, s, va)
    requires Leaves(WithSlots(m, p.Other(), t1), p, before, t1, va + 1, m', t)
    ensures Leaves(m, p, before, s, va, m', t)
  {
    hide Overridden, Needed, Consistent, FirstFree;
    WithSlotsTwice(m, p.Other(), t1, t);
  }

  lemma VariableFits(va: nat)
    ensures va <= NB_OF_VAR ==> va < 0x1_0000
  {
  }

  /** The loop stopped after any number of operations. */
  lemma {:induction false} CopyLoopCrash(
      m: Memory, p: PageId, before: Vars, s: seq<Slot>, skip: Skip, va: nat, k: nat)
    returns (t: seq<Slot>)
    requires Copying(m, p, before, s) && SkipFits(p, skip, s) && va <= NB_OF_VAR
    requires Consistent(before, s)
    requires k <= |CopyRun(m, skip, va).ops|
    ensures Leaves(m, p, before, s, va, After(m, CopyRun(m, skip, va).ops, k), t)
    decreases NB_OF_VAR - va
  {
    hide *;
    VariableFits(va);
    if va == NB_OF_VAR || (va in ToCopy(before, s, va) && FirstFree(s) == |s|) {
      LeavesNothing(m, p, before, s, skip, va);
      return s;
    }
    var one := CopyOneRun(m, skip, va).ops;
    var m1 := Apply(m, one);
    var t1 := Turn(m, p, before, s, skip, va);
    CopyUnfoldAfter(m, skip, va, k);
    if k < |one| {
      t := TurnCrash(m, p, before, s, skip, va, k);
    } else {
      t := CopyLoopCrash(m1, p, before, t1, skip, va + 1, k - |one|);
      LeavesLater(m, p, before, s, va, t1, After(m, CopyRun(m, skip, va).ops, k), t);
    }
  }

  /** Appends and copies are disciplined from any memory: they only program cells they have just seen free. */
  lemma AppendDisciplined(m: Memory, va: Half, d: Half)
    ensures Disciplined(m, AppendRun(m, va, d).ops)
  {
    match FindValidPage(m, WriteTo)
    case None =>
    case Some(p) =>
      if FirstFree(m.At(p).slots) < |m.At(p).slots| {
        AppendEffect(m, p, va, d);
      }
  }

  lemma {:induction false} CopyDisciplined(m: Memory, skip: Skip, va: nat)
    requires va <= NB_OF_VAR
    ensures Disciplined(m, CopyRun(m, skip, va).ops)
    decreases NB_OF_VAR - va
  {
    if va < NB_OF_VAR {
      assert va < 256;
      hide *;
      var one := CopyOneRun(m, skip, va);
      CopyOneDisciplined(m, skip, va);
      if one.status == Ok {
        CopyUnfold(m, skip, va);
        CopyDisciplined(Apply(m, one.ops), skip, va + 1);
        DisciplinedConcat(m, one.ops, CopyRun(Apply(m, one.ops), skip, va + 1).ops);
      } else {
        CopyStopped(m, skip, va);
      }
    }
  }

  lemma CopyStopped(m: Memory, skip: Skip, va: nat)
    requires va < NB_OF_VAR && CopyOneRun(m, skip, va).status != Ok
    ensures CopyRun(m, skip, va) == CopyOneRun(m, skip, va)
  {
  }

  lemma CopyOneDisciplined(m: Memory, skip: Skip, va: Half)
    ensures Disciplined(m, CopyOneRun(m, skip, va).ops)
  {
    AppendDisciplined(m, va, 0);
    match ReadVariable(m, va)
    case Found(d) => AppendDisciplined(m, va, d);
    case _ =>
  }
}
