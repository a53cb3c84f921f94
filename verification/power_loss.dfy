/**
 Power losses, one at a time: a write or a recovery cut at any point, and what the next EE_Init makes of it. A write
 is atomic; a recovery is safe but for one point, at which it can lose everything; and it can run out of room.
 */
module PowerLoss {
  import opened Flash
  import opened SlotLog
  import opened Store
  import opened StoreSteps
  import opened WriteSafety
  import opened Recovery
  import opened SourcePage

  /** EE_ReadVariable finds exactly the variables vs. */
  predicate ReadsAs(m: Memory, vs: Vars) {
    forall va: Half :: va < NB_OF_VAR ==>
      ReadVariable(m, va) == if va in vs then Found(vs[va]) else NotFound
  }

  lemma StableReads(m: Memory, p: PageId, n: nat, vs: Vars)
    requires StableAt(m, p, n, vs)
    ensures ReadsAs(m, vs)
  {
    StableParts(m, p, n, vs);
    forall va: Half | va < NB_OF_VAR
      ensures ReadVariable(m, va) == if va in vs then Found(vs[va]) else NotFound
    {
      NewestIsReplay(m.At(p).slots, va);
    }
  }

  /** A completed EE_Init keeps the meaning of a sound memory, and it completes exactly when the
      receiving page has room. */
  lemma InitCompletes(m: Memory, n: nat) returns (p: PageId)
    requires m.Sized(n) && Sound(m) && PhaseOf(m) != Doubled
    ensures InitRun(m).status == Ok <==> RecoveryNeeds(m) <= n
    ensures InitRun(m).status == Ok ==> StableAt(Apply(m, InitRun(m).ops), p, n, Meaning(m))
  {
    match PhaseOf(m)
    case Stable(v) =>
      p := v;
      StableInit(m, p, n, Meaning(m));
      ApplyNone(m);
    case Switching(v) =>
      p := v.Other();
      SwitchingInit(m, v);
    case Blank =>
      p := Page0;
      BlankInit(m);
    case Receiving(v) =>
      p := v.Other();
      var t := ResumeCompletes(m, v, n, Replay(m.At(v).slots), m.At(v.Other()).slots);
  }

  /** EE_Init cut after k operations: the meaning is kept unless both pages have just become valid. */
  lemma InitCrash(m: Memory, n: nat, k: nat)
    requires m.Sized(n) && Sound(m) && PhaseOf(m) != Doubled && k <= |InitRun(m).ops|
    ensures var m' := After(m, InitRun(m).ops, k);
            if AtDoublePoint(m, k) then m'.Sized(n) && Sound(m') && PhaseOf(m') == Doubled && Meaning(m') == map[]
            else Worth(m', n, Meaning(m), RecoveryNeeds(m))
  {
    match PhaseOf(m)
    case Stable(p) =>
      StableInit(m, p, n, Meaning(m));
    case Switching(p) =>
      SwitchingInit(m, p);
      assert k == 0 || After(m, InitRun(m).ops, k) == Apply(m, InitRun(m).ops);
    case Blank =>
      BlankInit(m);
      assert k == 0 || After(m, InitRun(m).ops, k) == Apply(m, InitRun(m).ops);
    case Receiving(p) =>
      ResumeCrash(m, p, n, Replay(m.At(p).slots), m.At(p.Other()).slots, k);
  }

  /** The exact condition under which cutting a recovery short loses nothing: not between marking the
      receiving page valid and erasing the other, unless there was nothing to lose. */
  lemma RecoveryCutExactly(m: Memory, n: nat, k: nat)
    requires m.Sized(n) && Sound(m) && PhaseOf(m) != Doubled && k <= |InitRun(m).ops|
    ensures Meaning(After(m, InitRun(m).ops, k)) == Meaning(m) <==> !AtDoublePoint(m, k) || Meaning(m) == map[]
  {
    InitCrash(m, n, k);
  }

  /** At that point the next EE_Init formats: every variable is gone. */
  lemma DoublePointLosesAll(m: Memory, n: nat, k: nat)
    requires m.Sized(n) && Sound(m) && k <= |InitRun(m).ops| && AtDoublePoint(m, k)
    ensures var c := After(m, InitRun(m).ops, k);
            InitRun(c).status == Ok && ReadsAs(Apply(c, InitRun(c).ops), map[])
  {
    InitCrash(m, n, k);
    var c := After(m, InitRun(m).ops, k);
    DoubledInit(c, n, 3);
    StableReads(Apply(c, InitRun(c).ops), Page0, n, map[]);
  }

  // ----- Room -----

  lemma {:induction false} SizeBelow(s: set<int>, n: nat)
    requires forall v :: v in s ==> 0 <= v < n
    ensures |s| <= n
  {
    if n == 0 {
      assert s == {} by {
        forall v ensures v !in s {
        }
      }
    } else {
      SizeBelow(s - {n - 1}, n - 1);
    }
  }

  lemma LiveBound(vs: Vars, va: Half)
    requires va < NB_OF_VAR && forall v :: v in vs ==> 0 <= v < NB_OF_VAR
    ensures 1 <= Live(vs, va) <= NB_OF_VAR
  {
    assert va as int in vs.Keys + {va as int};
    SizeBelow(vs.Keys + {va as int}, NB_OF_VAR);
  }

  /** A recovery takes at most one more slot per variable. */
  lemma NeedsBound(m: Memory)
    ensures RecoveryNeeds(m) <= ReceiverUsed(m) + NB_OF_VAR
  {
    match PhaseOf(m)
    case Receiving(p) =>
      SizeBelow(ToCopy(Replay(m.At(p).slots), m.At(p.Other()).slots, 0), NB_OF_VAR);
    case _ =>
  }

  /** The next EE_Init completes exactly when the receiving page has room, and then keeps what a memory is worth;
      room for two copies of all variables is always enough. */
  lemma WorthRecovers(m: Memory, n: nat, vs: Vars) returns (q: PageId)
    requires Worth(m, n, vs, NB_OF_VAR)
    ensures InitRun(m).status == Ok <==> RecoveryNeeds(m) <= n
    ensures InitRun(m).status == Ok ==> StableAt(Apply(m, InitRun(m).ops), q, n, vs)
    ensures 2 * NB_OF_VAR <= n ==> InitRun(m).status == Ok
  {
    hide Sound, Meaning, ReceiverUsed, RecoveryNeeds, InitRun, Apply;
    NeedsBound(m);
    q := InitCompletes(m, n);
  }

  // ----- One write and a power loss -----

  /** Power-loss atomicity, end to end: cut a write after any number of operations and let EE_Init run. It completes
      exactly when the receiving page has room, which it always has with 512 slots a page; and whenever it does,
      every variable reads as before, or as before with exactly this one updated, and which of the two depends
      only on whether its virtual address had been programmed. */
  lemma WriteIsAtomic(m: Memory, p: PageId, n: nat, vs: Vars, va: Half, d: Half, k: nat)
    requires StableAt(m, p, n, vs) && n > 0 && va < NB_OF_VAR && k <= |WriteRun(m, va, d).ops|
    ensures var c := After(m, WriteRun(m, va, d).ops, k); var r := InitRun(c);
            && (r.status == Ok <==> RecoveryNeeds(c) <= n)
            && (r.status == Ok ==> ReadsAs(Apply(c, r.ops), if k >= CommitPoint(m, p) then vs[va := d] else vs))
            && (2 * NB_OF_VAR <= n ==> r.status == Ok)
  {
    hide Sound, Meaning, InitRun, WriteRun, RecoveryNeeds, ReadsAs;
    StableParts(m, p, n, vs);
    WriteCrash(m, p, n, vs, va, d, k);
    LiveBound(vs, va);
    var c := After(m, WriteRun(m, va, d).ops, k);
    var after := if k >= CommitPoint(m, p) then vs[va := d] else vs;
    WorthMore(c, n, after, Live(vs, va), NB_OF_VAR);
    var q := WorthRecovers(c, n, after);
    if InitRun(c).status == Ok {
      StableReads(Apply(c, InitRun(c).ops), q, n, after);
    }
  }

  /** A transfer that can be resumed has a double point. */
  lemma ResumedDoubles(m: Memory, p: PageId, n: nat, before: Vars, s: seq<Slot>) returns (k: nat)
    requires ReceivingAt(m, p, n, before, s) && Needed(before, s, 0) <= n
    ensures k <= |InitRun(m).ops| && AtDoublePoint(m, k)
    ensures Meaning(After(m, InitRun(m).ops, k)) == map[]
  {
    hide CopyRun, EraseIfNeeded, Apply, After, Sound, Meaning, Needed, ResumeRun;
    var t := ResumeCompletes(m, p, n, before, s);
    ReceivingInit(m, p);
    ResumeOps(m, p);
    k := |InitRun(m).ops| - 1;
    ReceivingNeeds(m, p, n, before, s);
    InitCrash(m, n, k);
  }

  lemma ReceivingNeeds(m: Memory, p: PageId, n: nat, before: Vars, s: seq<Slot>)
    requires ReceivingAt(m, p, n, before, s)
    ensures m.Sized(n) && Sound(m) && PhaseOf(m) == Receiving(p) && RecoveryNeeds(m) == Needed(before, s, 0)
  {
    hide Sound, Needed, Replay;
  }

  /** A transfer right after its new value counts. */
  lemma TransferBegun(m: Memory, p: PageId, n: nat, vs: Vars, va: Half, d: Half) returns (t: seq<Slot>)
    requires StableAt(m, p, n, vs) && n > 0 && va < NB_OF_VAR && Full(m, p)
    ensures |WriteRun(m, va, d).ops| >= 3
    ensures var c := After(m, WriteRun(m, va, d).ops, 3);
            && ReceivingAt(c, p, n, vs, t) && Worth(c, n, vs[va := d], Live(vs, va))
            && Needed(vs, t, 0) == Live(vs, va)
  {
    hide *;
    t := TransferSeeded(m, p, n, vs, va, d);
    var m1 := Marked(m, p);
    var first := AppendRun(m1, va, d).ops;
    MarkedIs(m, p);
    AfterThree(m, ProgramHeader(p.Other(), RECEIVE_DATA), first, TransferTail(Apply(m1, first), p, va).ops, 3);
    WriteShape(m, p, n, vs, va, d);
  }

  /** The loss is real: cut any write that needs a transfer right after its new value counts. The memory then holds
      that value, and it can reach the double point; if the next EE_Init is cut there, every variable is lost. */
  lemma DoublePointIsReached(m: Memory, p: PageId, n: nat, vs: Vars, va: Half, d: Half) returns (k: nat)
    requires StableAt(m, p, n, vs) && n > 0 && va < NB_OF_VAR && Full(m, p) && Live(vs, va) <= n
    ensures |WriteRun(m, va, d).ops| >= 3
    ensures var c := After(m, WriteRun(m, va, d).ops, 3);
            && c.Sized(n) && Sound(c) && PhaseOf(c) != Doubled && Meaning(c) == vs[va := d] && va in Meaning(c)
            && k <= |InitRun(c).ops| && AtDoublePoint(c, k)
            && Meaning(After(c, InitRun(c).ops, k)) == map[]
  {
    hide WriteRun, After, InitRun, Sound, Meaning, Needed, Full, Live, AtDoublePoint;
    var t := TransferBegun(m, p, n, vs, va, d);
    k := ResumedDoubles(After(m, WriteRun(m, va, d).ops, 3), p, n, vs, t);
  }

  /** More than that, a write can be undone after it has counted: if page 1 is the source of its transfer, cut the
      recovery at the double point, and the format after its first operation. The store is then what it was before
      the write. */
  lemma CommittedWriteUndone(m: Memory, n: nat, vs: Vars, va: Half, d: Half) returns (k: nat)
    requires StableAt(m, Page1, n, vs) && n > 0 && va < NB_OF_VAR && Full(m, Page1) && Live(vs, va) <= n
    ensures |WriteRun(m, va, d).ops| >= 3
    ensures var c1 := After(m, WriteRun(m, va, d).ops, 3);
            && Meaning(c1) == vs[va := d] && k <= |InitRun(c1).ops|
            && var c2 := After(c1, InitRun(c1).ops, k);
               |InitRun(c2).ops| == 3 && StableAt(After(c2, InitRun(c2).ops, 1), Page1, n, vs)
  {
    hide WriteRun, After, InitRun, Sound, Meaning, Needed, Full, Live, AtDoublePoint, Replay;
    var t := TransferBegun(m, Page1, n, vs, va, d);
    var c1 := After(m, WriteRun(m, va, d).ops, 3);
    k := ResumedDoubles(c1, Page1, n, vs, t);
    DoublePointSides(c1, Page1, n, vs, t, k);
    InitCrash(c1, n, k);
    DoubledInit(After(c1, InitRun(c1).ops, k), n, 1);
  }

  // ----- Without room -----

  lemma WithoutErasure(m2: Memory, p: PageId, va: Half)
    requires CopyRun(m2, Variable(va), 0).status == Ok
    ensures var copy := CopyRun(m2, Variable(va), 0).ops; var tail := TransferTail(m2, p, va).ops;
            |tail| == |copy| + 2 && After(m2, tail, |copy|) == Apply(m2, copy)
  {
    hide CopyRun, After, Apply1;
    var copy := CopyRun(m2, Variable(va), 0).ops;
    AfterTwoMore(m2, copy, ErasePage(p), ProgramHeader(p.Other(), VALID_PAGE), |copy|);
    ApplyIs(m2, copy);
  }

  lemma ApplyIs(m: Memory, ops: seq<Op>)
    ensures Apply(m, ops) == After(m, ops, |ops|)
  {
    hide After;
  }

  lemma FullCopyNeeds(vs: Vars, t: seq<Slot>, u: seq<Slot>, va: Half)
    requires Extends(t, u) && InFirstSlot(t, va) && va < NB_OF_VAR && FirstFree(u) == Live(vs, va)
    requires forall v :: v in vs ==> 0 <= v < NB_OF_VAR
    ensures Needed(vs, u, 0) == 2 * Live(vs, va) - 1
  {
    assert !t[0].Free() && u[0] == t[0];
    assert ToCopy(vs, u, 0) == vs.Keys - {va as int};
    assert vs.Keys + {va as int} == (vs.Keys - {va as int}) + {va as int};
  }

  /** The end of a transfer, with all copied and nothing erased. */
  lemma FullCopy(m2: Memory, p: PageId, n: nat, vs: Vars, t: seq<Slot>, va: Half)
    requires ReceivingAt(m2, p, n, vs, t) && InFirstSlot(t, va) && va < NB_OF_VAR && Covered(vs, t, 0)
    requires Needed(vs, t, 0) == Live(vs, va) <= n
    ensures CopyRun(m2, Variable(va), 0).status == Ok
    ensures var c := Apply(m2, CopyRun(m2, Variable(va), 0).ops);
            && c.Sized(n) && Sound(c) && PhaseOf(c) == Receiving(p) && Meaning(c) == Overridden(vs, t)
            && RecoveryNeeds(c) == 2 * Live(vs, va) - 1
  {
    hide CopyRun, Apply, After, Sound, Meaning, RecoveryNeeds, Needed, Replay, Overridden, Live, Extends;
    assert SkipFits(p, Variable(va), t);
    ReceivingParts(m2, p, n, vs, t);
    var copy := CopyRun(m2, Variable(va), 0).ops;
    var u := CopyLoop(m2, p, vs, t, Variable(va));
    ReceivingWritesTo(m2, p, n, vs, t);
    CopyExtends(m2, Variable(va), 0, p.Other(), |copy|);
    ApplyIs(m2, copy);
    assert Apply(m2, copy).At(p.Other()).slots == u;
    FullCopyNeeds(vs, t, u, va);
    ReceivingSlots(m2, p, n, vs, t, u);
    ResumePhase(WithSlots(m2, p.Other(), u), p, n, vs, u);
  }

  /** A power loss can leave a store without room: cut a transfer just before it erases the old page. The next recovery
      then needs 2 * L - 1 slots, L being the number of variables; with 256 variables it fails for N below 511. */
  lemma NoRoomIsReached(m: Memory, p: PageId, n: nat, vs: Vars, va: Half, d: Half) returns (k: nat)
    requires StableAt(m, p, n, vs) && n > 0 && va < NB_OF_VAR && Full(m, p) && Live(vs, va) <= n
    ensures k <= |WriteRun(m, va, d).ops|
    ensures var c := After(m, WriteRun(m, va, d).ops, k);
            && c.Sized(n) && Sound(c) && PhaseOf(c) == Receiving(p) && Meaning(c) == vs[va := d]
            && RecoveryNeeds(c) == 2 * Live(vs, va) - 1
  {
    hide *;
    var t := TransferSeeded(m, p, n, vs, va, d);
    var m1 := Marked(m, p);
    var first := AppendRun(m1, va, d).ops;
    var m2 := Apply(m1, first);
    var copy := CopyRun(m2, Variable(va), 0).ops;
    FullCopy(m2, p, n, vs, t, va);
    WithoutErasure(m2, p, va);
    MarkedIs(m, p);
    WriteShape(m, p, n, vs, va, d);
    k := |copy| + 3;
    AfterThree(m, ProgramHeader(p.Other(), RECEIVE_DATA), first, TransferTail(m2, p, va).ops, k);
    if copy == [] {
      ApplyNone(m2);
    }
  }
}
