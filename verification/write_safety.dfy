/**
 Power-loss safety of the store: at every point of a write the memory is sound, and it means either the
 variables from before or the variables with exactly the one being written updated.
 */
module WriteSafety {
  import opened Flash
  import opened SlotLog
  import opened Store
  import opened StoreSteps

  /** Slots used in the page a transfer is filling; 0 outside a transfer. */
  function ReceiverUsed(m: Memory): nat {
    match PhaseOf(m)
    case Receiving(p) => FirstFree(m.At(p.Other()).slots)
    case _ => 0
  }

  /** What the memory is worth: sound, not with two valid pages, holding variables vs, and with at most
      used slots taken in a receiving page. */
  predicate Worth(m: Memory, n: nat, vs: Vars, used: nat) {
    m.Sized(n) && Sound(m) && PhaseOf(m) != Doubled && Meaning(m) == vs && ReceiverUsed(m) <= used
  }

  /** A stable memory, taken apart. */
  predicate StableAt(m: Memory, p: PageId, n: nat, vs: Vars) {
    m.Sized(n) && Sound(m) && PhaseOf(m) == Stable(p) && Meaning(m) == vs
  }

  predicate ReceivingAt(m: Memory, p: PageId, n: nat, before: Vars, s: seq<Slot>) {
    && m.Sized(n) && Sound(m) && PhaseOf(m) == Receiving(p)
    && Replay(m.At(p).slots) == before && m.At(p.Other()).slots == s
  }

  lemma StableParts(m: Memory, p: PageId, n: nat, vs: Vars)
    requires StableAt(m, p, n, vs)
    ensures Replay(m.At(p).slots) == vs && Tidy(m.At(p).slots) && AllFree(m.At(p.Other()).slots)
    ensures FindValidPage(m, ReadFrom) == FindValidPage(m, WriteTo) == Some(p)
    ensures |m.At(p).slots| == |m.At(p.Other()).slots| == n
    ensures Worth(m, n, vs, 0)
    ensures forall v :: v in vs ==> 0 <= v < NB_OF_VAR
  {
  }

  lemma StableSlots(m: Memory, p: PageId, n: nat, vs: Vars, t: seq<Slot>)
    requires StableAt(m, p, n, vs) && |t| == n && Tidy(t)
    ensures StableAt(WithSlots(m, p, t), p, n, Replay(t))
  {
  }

  lemma ReceivingSlots(m: Memory, p: PageId, n: nat, before: Vars, s: seq<Slot>, t: seq<Slot>)
    requires ReceivingAt(m, p, n, before, s) && |t| == n && Consistent(before, t)
    ensures var m' := WithSlots(m, p.Other(), t);
            ReceivingAt(m', p, n, before, t) && Worth(m', n, Overridden(before, t), FirstFree(t))
  {
  }

  lemma ReceivingParts(m: Memory, p: PageId, n: nat, before: Vars, s: seq<Slot>)
    requires ReceivingAt(m, p, n, before, s)
    ensures Consistent(before, s) && |s| == n && Copying(m, p, before, s)
    ensures Worth(m, n, Overridden(before, s), FirstFree(s))
    ensures forall v :: v in before ==> 0 <= v < NB_OF_VAR
  {
  }

  // ----- A write that finds a free slot -----

  lemma AppendCrash(m: Memory, p: PageId, n: nat, vs: Vars, va: Half, d: Half, k: nat)
    requires StableAt(m, p, n, vs) && FirstFree(m.At(p).slots) < n && va < NB_OF_VAR && k <= 2
    ensures var r := AppendRun(m, va, d); var m' := After(m, r.ops, k);
            && r.status == Ok && |r.ops| == 2
            && StableAt(m', p, n, if k == 2 then vs[va := d] else vs)
            && (k == 2 ==> m' == Apply(m, r.ops) && FirstFree(m'.At(p).slots) == FirstFree(m.At(p).slots) + 1)
  {
    StableParts(m, p, n, vs);
    var s := m.At(p).slots;
    AppendEffect(m, p, va, d);
    AppendTorn(s, d);
    AppendComplete(s, va, d);
    hide Sound, Tidy, Meaning, AppendRun, After, Apply;
    StableSlots(m, p, n, vs, s[FirstFree(s) := Slot(d, ERASED)]);
    StableSlots(m, p, n, vs, s[FirstFree(s) := Slot(d, va)]);
  }

  // ----- The stages of a transfer -----

  /** The memory once the other page has been marked as receiving. */
  function Marked(m: Memory, p: PageId): Memory {
    Apply1(m, ProgramHeader(p.Other(), RECEIVE_DATA))
  }

  lemma TransferBegins(m: Memory, p: PageId, n: nat, vs: Vars)
    requires StableAt(m, p, n, vs)
    ensures var s := m.At(p.Other()).slots;
            ReceivingAt(Marked(m, p), p, n, vs, s) && AllFree(s) && |s| == n
    ensures Worth(Marked(m, p), n, vs, 0)
    ensures Disciplined1(m, ProgramHeader(p.Other(), RECEIVE_DATA))
  {
    ReplayFree(m.At(p.Other()).slots);
  }

  lemma TransferEnds(m: Memory, p: PageId, n: nat, before: Vars, t: seq<Slot>)
    requires ReceivingAt(m, p, n, before, t) && Replay(t) == Overridden(before, t)
    ensures var e, h := ErasePage(p), ProgramHeader(p.Other(), VALID_PAGE);
            var m1 := Apply1(m, e); var m2 := Apply1(m1, h);
            && Disciplined1(m, e) && Disciplined1(m1, h)
            && Worth(m1, n, Overridden(before, t), 0)
            && StableAt(m2, p.Other(), n, Overridden(before, t))
            && m2.At(p.Other()).slots == t
  {
  }

  lemma SeedTorn(before: Vars, s: seq<Slot>, d: Half)
    requires |s| > 0 && AllFree(s)
    ensures var t := s[0 := Slot(d, ERASED)];
            Consistent(before, t) && Overridden(before, t) == before && FirstFree(t) <= 1
  {
    ReplayFree(s);
    AppendTorn(s, d);
  }

  /** The receiving page right after the variable being written has been put in its slot 0. */
  lemma SeedWhole(before: Vars, s: seq<Slot>, va: Half, d: Half)
    requires |s| > 0 && AllFree(s) && va < NB_OF_VAR
    requires forall v :: v in before ==> 0 <= v
    ensures var t := s[0 := Slot(d, va)];
            && Consistent(before, t) && Overridden(before, t) == before[va := d]
            && Needed(before, t, 0) == |before.Keys + {va as int}|
            && Covered(before, t, 0)
            && FirstFree(t) == 1
  {
    ReplayFree(s);
    AppendComplete(s, va, d);
    var t := s[0 := Slot(d, va)];
    assert before.Keys + {va as int} == ToCopy(before, t, 0) + {va as int};
  }

  lemma SeedTransfer(m1: Memory, p: PageId, n: nat, before: Vars, s: seq<Slot>, va: Half, d: Half)
    requires ReceivingAt(m1, p, n, before, s) && AllFree(s) && n > 0 && va < NB_OF_VAR
    ensures var q := p.Other(); var r := AppendRun(m1, va, d);
            && r.status == Ok && |r.ops| == 2
            && After(m1, r.ops, 1) == WithSlots(m1, q, s[0 := Slot(d, ERASED)])
            && After(m1, r.ops, 2) == Apply(m1, r.ops) == WithSlots(m1, q, s[0 := Slot(d, va)])
  {
    ReceivingParts(m1, p, n, before, s);
    ReplayFree(s);
    AppendEffect(m1, p.Other(), va, d);
  }

  /** A transfer is the mark, the two halves of the first entry, and the tail. */
  lemma TransferShape(m: Memory, p: PageId, va: Half, d: Half)
    requires FindValidPage(m, ReadFrom) == Some(p)
    requires AppendRun(Marked(m, p), va, d).status == Ok
    ensures var m1 := Marked(m, p); var first := AppendRun(m1, va, d).ops;
            var tail := TransferTail(Apply(m1, first), p, va);
            TransferRun(m, va, d) ==
            Outcome([ProgramHeader(p.Other(), RECEIVE_DATA)] + (first + tail.ops), tail.status)
  {
    ApplyOne(m, ProgramHeader(p.Other(), RECEIVE_DATA));
  }

  lemma AfterThree(m: Memory, op: Op, a: seq<Op>, b: seq<Op>, k: nat)
    requires |a| == 2 && k <= 3 + |b|
    ensures var m1 := Apply1(m, op); var ops := [op] + (a + b);
            && Apply(m, ops) == Apply(Apply(m1, a), b)
            && After(m, ops, k) == if k == 0 then m
                                   else if k <= 3 then After(m1, a, k - 1)
                                   else After(Apply(m1, a), b, k - 3)
  {
    ApplyOne(m, op);
    ApplyConcat(m, [op], a + b);
    ApplyConcat(Apply1(m, op), a, b);
    AfterConcat(m, [op], a + b, k);
    if k > 0 {
      AfterConcat(Apply1(m, op), a, b, k - 1);
    }
  }

  /** The tail, cut after k operations. */
  lemma TailShape(m2: Memory, p: PageId, va: Half, k: nat)
    requires k <= |TransferTail(m2, p, va).ops|
    ensures var copy := CopyRun(m2, Variable(va), 0); var tail := TransferTail(m2, p, va);
            var e, h := ErasePage(p), ProgramHeader(p.Other(), VALID_PAGE); var m3 := Apply(m2, copy.ops);
            && tail.status == copy.status
            && (copy.status == Ok ==> Apply(m2, tail.ops) == Apply1(Apply1(m3, e), h))
            && (k <= |copy.ops| ==> After(m2, tail.ops, k) == After(m2, copy.ops, k))
            && (k > |copy.ops| ==>
                  && copy.status == Ok
                  && After(m2, tail.ops, k) ==
                     if k == |copy.ops| + 1 then Apply1(m3, e) else Apply1(Apply1(m3, e), h))
  {
    AfterTwoMore(m2, CopyRun(m2, Variable(va), 0).ops, ErasePage(p), ProgramHeader(p.Other(), VALID_PAGE), k);
  }

  lemma TailCompletes(m2: Memory, p: PageId, n: nat, before: Vars, t: seq<Slot>, va: Half)
    requires ReceivingAt(m2, p, n, before, t) && InFirstSlot(t, va) && va < NB_OF_VAR && Covered(before, t, 0)
    ensures var r := TransferTail(m2, p, va); var m' := Apply(m2, r.ops);
            && (r.status == Ok || r.status == PageFull)
            && (r.status == Ok <==> Needed(before, t, 0) <= n)
            && (r.status == Ok ==>
                  && StableAt(m', p.Other(), n, Overridden(before, t))
                  && FirstFree(m'.At(p.Other()).slots) == Needed(before, t, 0))
  {
    assert SkipFits(p, Variable(va), t);
    hide *;
    ReceivingParts(m2, p, n, before, t);
    var u := CopyLoop(m2, p, before, t, Variable(va));
    TailShape(m2, p, va, 0);
    if CopyRun(m2, Variable(va), 0).status == Ok {
      ReceivingSlots(m2, p, n, before, t, u);
      TransferEnds(WithSlots(m2, p.Other(), u), p, n, before, u);
    }
  }

  lemma TailCrash(m2: Memory, p: PageId, n: nat, before: Vars, t: seq<Slot>, va: Half, k: nat)
    requires ReceivingAt(m2, p, n, before, t) && InFirstSlot(t, va) && va < NB_OF_VAR && Covered(before, t, 0)
    requires k <= |TransferTail(m2, p, va).ops|
    ensures Worth(After(m2, TransferTail(m2, p, va).ops, k), n, Overridden(before, t), Needed(before, t, 0))
  {
    assert SkipFits(p, Variable(va), t);
    hide *;
    ReceivingParts(m2, p, n, before, t);
    TailShape(m2, p, va, k);
    if k <= |CopyRun(m2, Variable(va), 0).ops| {
      var u := CopyLoopCrash(m2, p, before, t, Variable(va), 0, k);
      LeavesParts(m2, p, before, t, 0, After(m2, CopyRun(m2, Variable(va), 0).ops, k), u);
      ReceivingSlots(m2, p, n, before, t, u);
      WorthMore(WithSlots(m2, p.Other(), u), n, Overridden(before, t), FirstFree(u), Needed(before, t, 0));
    } else {
      var u := CopyLoop(m2, p, before, t, Variable(va));
      ReceivingSlots(m2, p, n, before, t, u);
      var m3 := WithSlots(m2, p.Other(), u);
      TransferEnds(m3, p, n, before, u);
      var m4 := Apply1(m3, ErasePage(p));
      WorthMore(m4, n, Overridden(before, t), 0, Needed(before, t, 0));
      StableWorth(Apply1(m4, ProgramHeader(p.Other(), VALID_PAGE)), p.Other(), n, Overridden(before, t),
                  Needed(before, t, 0));
    }
  }

  lemma LeavesParts(m: Memory, p: PageId, before: Vars, s: seq<Slot>, va: nat, m': Memory, t: seq<Slot>)
    requires Leaves(m, p, before, s, va, m', t)
    ensures m' == WithSlots(m, p.Other(), t) && |t| == |s| && Consistent(before, t)
    ensures Overridden(before, t) == Overridden(before, s) && FirstFree(t) <= Needed(before, s, va)
  {
  }

  lemma WorthMore(m: Memory, n: nat, vs: Vars, used: nat, more: nat)
    requires Worth(m, n, vs, used) && used <= more
    ensures Worth(m, n, vs, more)
  {
  }

  lemma StableWorth(m: Memory, p: PageId, n: nat, vs: Vars, used: nat)
    requires StableAt(m, p, n, vs)
    ensures Worth(m, n, vs, used)
  {
  }

  // ----- A whole transfer -----

  /** The variables once va is written: one slot each after a transfer. */
  function Live(vs: Vars, va: int): nat {
    |vs.Keys + {va}|
  }

  /** A transfer up to its tail. */
  lemma TransferSeeded(m: Memory, p: PageId, n: nat, vs: Vars, va: Half, d: Half) returns (t: seq<Slot>)
    requires StableAt(m, p, n, vs) && n > 0 && va < NB_OF_VAR
    ensures var m1 := Marked(m, p); var first := AppendRun(m1, va, d); var m2 := Apply(m1, first.ops);
            var tail := TransferTail(m2, p, va);
            && first.status == Ok && |first.ops| == 2
            && TransferRun(m, va, d) ==
               Outcome([ProgramHeader(p.Other(), RECEIVE_DATA)] + (first.ops + tail.ops), tail.status)
            && Worth(m, n, vs, Live(vs, va)) && Worth(m1, n, vs, Live(vs, va))
            && Worth(After(m1, first.ops, 1), n, vs, Live(vs, va))
            && After(m1, first.ops, 0) == m1 && After(m1, first.ops, 2) == m2
            && ReceivingAt(m2, p, n, vs, t) && Worth(m2, n, vs[va := d], Live(vs, va))
            && InFirstSlot(t, va) && Covered(vs, t, 0)
            && Overridden(vs, t) == vs[va := d] && Needed(vs, t, 0) == Live(vs, va)
  {
    var s := m.At(p.Other()).slots;
    t := s[0 := Slot(d, va)];
    StableParts(m, p, n, vs);
    TransferBegins(m, p, n, vs);
    SeedTorn(vs, s, d);
    SeedWhole(vs, s, va, d);
    assert InFirstSlot(t, va);
    var m1 := Marked(m, p);
    assert After(m1, AppendRun(m1, va, d).ops, 0) == m1;
    var live := Live(vs, va);
    assert live == |vs.Keys + {va as int}| >= 1 by { assert va as int in vs.Keys + {va as int}; }
    hide *;
    StableWorth(m, p, n, vs, live);
    WorthMore(m1, n, vs, 0, live);
    SeedTransfer(m1, p, n, vs, s, va, d);
    TransferShape(m, p, va, d);
    ReceivingSlots(m1, p, n, vs, s, s[0 := Slot(d, ERASED)]);
    ReceivingSlots(m1, p, n, vs, s, t);
    WorthMore(WithSlots(m1, p.Other(), s[0 := Slot(d, ERASED)]), n, vs, FirstFree(s[0 := Slot(d, ERASED)]), live);
    WorthMore(WithSlots(m1, p.Other(), t), n, vs[va := d], FirstFree(t), live);
  }

  /** A transfer succeeds exactly when the variables fit in one page, and leaves one slot per variable. */
  lemma TransferCompletes(m: Memory, p: PageId, n: nat, vs: Vars, va: Half, d: Half)
    requires StableAt(m, p, n, vs) && n > 0 && va < NB_OF_VAR
    ensures var r := TransferRun(m, va, d); var m' := Apply(m, r.ops);
            && (r.status == Ok || r.status == PageFull)
            && (r.status == Ok <==> Live(vs, va) <= n)
            && (r.status == Ok ==>
                  StableAt(m', p.Other(), n, vs[va := d]) && FirstFree(m'.At(p.Other()).slots) == Live(vs, va))
  {
    hide *;
    var t := TransferSeeded(m, p, n, vs, va, d);
    var m1 := Marked(m, p);
    var first := AppendRun(m1, va, d).ops;
    var m2 := Apply(m1, first);
    TailCompletes(m2, p, n, vs, t, va);
    MarkedIs(m, p);
    AfterThree(m, ProgramHeader(p.Other(), RECEIVE_DATA), first, TransferTail(m2, p, va).ops, 0);
  }

  lemma MarkedIs(m: Memory, p: PageId)
    ensures Marked(m, p) == Apply1(m, ProgramHeader(p.Other(), RECEIVE_DATA))
  {
  }

  /** A transfer cut after k operations. The new value counts from the third operation on, the one that
      programs its virtual address. */
  lemma TransferCrash(m: Memory, p: PageId, n: nat, vs: Vars, va: Half, d: Half, k: nat)
    requires StableAt(m, p, n, vs) && n > 0 && va < NB_OF_VAR
    requires k <= |TransferRun(m, va, d).ops|
    ensures Worth(After(m, TransferRun(m, va, d).ops, k), n, if k >= 3 then vs[va := d] else vs, Live(vs, va))
  {
    hide *;
    var t := TransferSeeded(m, p, n, vs, va, d);
    var m1 := Marked(m, p);
    var first := AppendRun(m1, va, d).ops;
    var m2 := Apply(m1, first);
    MarkedIs(m, p);
    AfterThree(m, ProgramHeader(p.Other(), RECEIVE_DATA), first, TransferTail(m2, p, va).ops, k);
    if k > 3 {
      TailCrash(m2, p, n, vs, t, va, k - 3);
    }
  }

  // ----- Writes -----

  predicate Full(m: Memory, p: PageId) {
    FirstFree(m.At(p).slots) == |m.At(p).slots|
  }

  /** The number of operations from which on a write counts: the programming of the virtual address. */
  function CommitPoint(m: Memory, p: PageId): nat {
    if Full(m, p) then 3 else 2
  }

  lemma WriteShape(m: Memory, p: PageId, n: nat, vs: Vars, va: Half, d: Half)
    requires StableAt(m, p, n, vs)
    ensures WriteRun(m, va, d) == if Full(m, p) then TransferRun(m, va, d) else AppendRun(m, va, d)
    ensures !Full(m, p) ==> FirstFree(m.At(p).slots) < n
  {
  }

  /** A completed write: it succeeds if there is a free slot or all variables fit in one page, and then the
      store holds the old variables with this one updated. */
  lemma WriteCompletes(m: Memory, p: PageId, n: nat, vs: Vars, va: Half, d: Half)
    requires StableAt(m, p, n, vs) && n > 0 && va < NB_OF_VAR
    ensures var r := WriteRun(m, va, d); var m' := Apply(m, r.ops);
            && (r.status == Ok || r.status == PageFull)
            && (r.status == Ok <==> !Full(m, p) || Live(vs, va) <= n)
            && (r.status == Ok && !Full(m, p) ==>
                  StableAt(m', p, n, vs[va := d]) && FirstFree(m'.At(p).slots) == FirstFree(m.At(p).slots) + 1)
            && (r.status == Ok && Full(m, p) ==>
                  StableAt(m', p.Other(), n, vs[va := d]) && FirstFree(m'.At(p.Other()).slots) == Live(vs, va))
  {
    WriteShape(m, p, n, vs, va, d);
    hide *;
    if Full(m, p) {
      TransferCompletes(m, p, n, vs, va, d);
    } else {
      AppendCrash(m, p, n, vs, va, d, 2);
    }
  }

  /** A write cut after k operations, any k: all of it counts or nothing of it. */
  lemma WriteCrash(m: Memory, p: PageId, n: nat, vs: Vars, va: Half, d: Half, k: nat)
    requires StableAt(m, p, n, vs) && n > 0 && va < NB_OF_VAR
    requires k <= |WriteRun(m, va, d).ops|
    ensures Worth(After(m, WriteRun(m, va, d).ops, k), n,
                  if k >= CommitPoint(m, p) then vs[va := d] else vs, Live(vs, va))
  {
    WriteShape(m, p, n, vs, va, d);
    assert CommitPoint(m, p) == if Full(m, p) then 3 else 2;
    hide *;
    if Full(m, p) {
      TransferCrash(m, p, n, vs, va, d, k);
    } else {
      AppendCrash(m, p, n, vs, va, d, 2);
      AppendCrash(m, p, n, vs, va, d, k);
      StableWorth(After(m, AppendRun(m, va, d).ops, k), p, n, if k == 2 then vs[va := d] else vs, Live(vs, va));
    }
  }

  /** Every operation of a write is disciplined. */
  lemma WriteDisciplined(m: Memory, p: PageId, n: nat, vs: Vars, va: Half, d: Half)
    requires StableAt(m, p, n, vs) && n > 0 && va < NB_OF_VAR
    ensures Disciplined(m, WriteRun(m, va, d).ops)
  {
    WriteShape(m, p, n, vs, va, d);
    AppendDisciplined(m, va, d);
    if Full(m, p) {
      TransferDisciplined(m, p, n, vs, va, d);
    }
  }

  lemma TransferDisciplined(m: Memory, p: PageId, n: nat, vs: Vars, va: Half, d: Half)
    requires StableAt(m, p, n, vs) && n > 0 && va < NB_OF_VAR
    ensures Disciplined(m, TransferRun(m, va, d).ops)
  {
    hide *;
    var t := TransferSeeded(m, p, n, vs, va, d);
    var mark := ProgramHeader(p.Other(), RECEIVE_DATA);
    var m1 := Marked(m, p);
    var first := AppendRun(m1, va, d).ops;
    var m2 := Apply(m1, first);
    var tail := TransferTail(m2, p, va).ops;
    MarkedIs(m, p);
    TransferBegins(m, p, n, vs);
    ApplyOne(m, mark);
    AppendDisciplined(m1, va, d);
    TailDisciplined(m2, p, n, vs, t, va);
    DisciplinedConcat(m1, first, tail);
    DisciplinedConcat(m, [mark], first + tail);
  }

  lemma TailDisciplined(m2: Memory, p: PageId, n: nat, before: Vars, t: seq<Slot>, va: Half)
    requires ReceivingAt(m2, p, n, before, t) && InFirstSlot(t, va) && va < NB_OF_VAR && Covered(before, t, 0)
    ensures Disciplined(m2, TransferTail(m2, p, va).ops)
  {
    assert SkipFits(p, Variable(va), t);
    var copy := CopyRun(m2, Variable(va), 0);
    var e, h := ErasePage(p), ProgramHeader(p.Other(), VALID_PAGE);
    assert TransferTail(m2, p, va).ops == if copy.status == Ok then copy.ops + [e, h] else copy.ops;
    hide *;
    CopyDisciplined(m2, Variable(va), 0);
    if copy.status == Ok {
      ReceivingParts(m2, p, n, before, t);
      var u := CopyLoop(m2, p, before, t, Variable(va));
      ReceivingSlots(m2, p, n, before, t, u);
      TransferEnds(WithSlots(m2, p.Other(), u), p, n, before, u);
      ApplyTwo(Apply(m2, copy.ops), e, h);
      DisciplinedConcat(m2, copy.ops, [e, h]);
    }
  }
}
