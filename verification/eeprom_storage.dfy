/**
 Buffers in the EEPROM emulation: a range of variables is written word by word, words that already hold their
 value being left alone, and read back word by word.
 */
module EepromStorage {
  import opened Flash
  import opened SlotLog
  import opened Store
  import opened StoreSteps
  import opened WriteSafety
  import opened Recovery
  import opened PowerLoss
  import opened Eeprom

  // ----- What writing a buffer does -----

  function WordRun(m: Memory, va: Half, d: Half): Outcome {
    if ReadVariable(m, va) == Found(d) then NOTHING else WriteRun(m, va, d)
  }

  /** Writing the words from index i on. The source stops at the first write that fails. */
  function BufferRun(m: Memory, a: nat, data: seq<Half>, i: nat): Outcome
    requires a + |data| <= NB_OF_VAR && i <= |data|
    decreases |data| - i
  {
    if i == |data| then NOTHING
    else
      var one := WordRun(m, a + i, data[i]);
      one.Then(BufferRun(Apply(m, one.ops), a, data, i + 1))
  }

  method WriteWord(e: Emulation, va: Half, d: Half) returns (st: Status)
    requires e.Valid() && va < NB_OF_VAR
    modifies e, e.slots0, e.slots1
    ensures Ran(old(e.Mem()), old(e.trace), WordRun(old(e.Mem()), va, d), e.Mem(), e.trace, st)
    ensures Called(e.failing, old(e.calls), old(e.trace), e.calls, e.trace, st)
  {
    hide Called;
    RanNothing(e.Mem(), e.trace, Ok);
    CalledNothing(e.failing, e.calls, e.trace);
    st := Ok;
    var probe := e.Read(va);
    if probe != Found(d) {
      st := e.Write(va, d);
    }
  }

  method WriteBuffer(e: Emulation, a: nat, data: seq<Half>) returns (st: Status)
    requires e.Valid() && a + |data| <= NB_OF_VAR
    modifies e, e.slots0, e.slots1
    ensures Ran(old(e.Mem()), old(e.trace), BufferRun(old(e.Mem()), a, data, 0), e.Mem(), e.trace, st)
    ensures Called(e.failing, old(e.calls), old(e.trace), e.calls, e.trace, st)
  {
    hide Ran, Buffered, Called;
    ghost var m0, t0, c0, done := e.Mem(), e.trace, e.calls, NOTHING;
    CalledNothing(e.failing, c0, t0);
    BufferBegin(m0, t0, a, data);
    var i := 0;
    while i < |data|
      invariant 0 <= i <= |data|
      invariant Buffered(m0, t0, a, data, i, done, e.Mem(), e.trace)
      invariant Called(e.failing, c0, t0, e.calls, e.trace, Ok)
    {
      ghost var m1, t1, c1 := e.Mem(), e.trace, e.calls;
      st := WriteWord(e, a + i, data[i]);
      CalledThen(e.failing, c0, t0, c1, t1, e.calls, e.trace, st);
      BufferTurn(m0, t0, a, data, i, done, m1, t1, e.Mem(), e.trace, st);
      if st != Ok {
        return;
      }
      done := done.Then(WordRun(m1, a + i, data[i]));
      i := i + 1;
    }
    BufferEnd(m0, t0, a, data, done, e.Mem(), e.trace);
    return Ok;
  }

  /** The loop at word i: done so far, and what remains. */
  ghost predicate Buffered(m0: Memory, t0: seq<Op>, a: nat, data: seq<Half>, i: nat,
                           done: Outcome, m: Memory, t: seq<Op>)
    requires a + |data| <= NB_OF_VAR && i <= |data|
  {
    Ran(m0, t0, done, m, t, Ok) && BufferRun(m0, a, data, 0) == done.Then(BufferRun(m, a, data, i))
  }

  lemma BufferBegin(m0: Memory, t0: seq<Op>, a: nat, data: seq<Half>)
    requires a + |data| <= NB_OF_VAR
    ensures Buffered(m0, t0, a, data, 0, NOTHING, m0, t0)
  {
    hide BufferRun;
    RanNothing(m0, t0, Ok);
    NothingThen(BufferRun(m0, a, data, 0));
  }

  lemma BufferTurn(m0: Memory, t0: seq<Op>, a: nat, data: seq<Half>, i: nat, done: Outcome,
                   m1: Memory, t1: seq<Op>, m2: Memory, t2: seq<Op>, st: Status)
    requires a + |data| <= NB_OF_VAR && i < |data|
    requires Buffered(m0, t0, a, data, i, done, m1, t1)
    requires Ran(m1, t1, WordRun(m1, a + i, data[i]), m2, t2, st)
    ensures if st == Ok then Buffered(m0, t0, a, data, i + 1, done.Then(WordRun(m1, a + i, data[i])), m2, t2)
            else Ran(m0, t0, BufferRun(m0, a, data, 0), m2, t2, st)
  {
    var one := WordRun(m1, a + i, data[i]);
    RanStep(m0, t0, BufferRun(m0, a, data, 0), done, m1, t1, one, BufferRun(Apply(m1, one.ops), a, data, i + 1),
            m2, t2, st);
  }

  lemma BufferEnd(m0: Memory, t0: seq<Op>, a: nat, data: seq<Half>, done: Outcome, m: Memory, t: seq<Op>)
    requires a + |data| <= NB_OF_VAR
    requires Buffered(m0, t0, a, data, |data|, done, m, t)
    ensures Ran(m0, t0, BufferRun(m0, a, data, 0), m, t, Ok)
  {
    assert done.Then(BufferRun(m, a, data, |data|)) == done;
  }

  /** Fills the caller's array; stops at the first variable that is not found, leaving 0xFFFF there. */
  method ReadBuffer(e: Emulation, a: nat, data: array<Half>) returns (ok: bool)
    requires e.Valid() && a + data.Length <= NB_OF_VAR
    modifies data
    ensures e.Mem() == old(e.Mem())
    ensures ok ==> forall i :: 0 <= i < data.Length ==> ReadVariable(e.Mem(), a + i) == Found(data[i])
    ensures !ok ==> exists f :: 0 <= f < data.Length && StoppedAt(e.Mem(), a, old(data[..]), data[..], f)
  {
    var i := 0;
    while i < data.Length
      invariant 0 <= i <= data.Length
      invariant e.Mem() == old(e.Mem())
      invariant forall j :: 0 <= j < i ==> ReadVariable(e.Mem(), a + j) == Found(data[j])
      invariant forall j :: i <= j < data.Length ==> data[j] == old(data[j])
    {
      data[i] := 0xFFFF;
      var r := e.Read(a + i);
      if !r.Found? {
        assert StoppedAt(e.Mem(), a, old(data[..]), data[..], i);
        return false;
      }
      data[i] := r.data;
      i := i + 1;
    }
    return true;
  }

  /** The read stopped at word f: the words before it are read, it is 0xFFFF, the rest is as it was. */
  ghost predicate StoppedAt(m: Memory, a: nat, before: seq<Half>, data: seq<Half>, f: int) {
    && |before| == |data| && 0 <= f < |data|
    && (forall j :: 0 <= j < f ==> ReadVariable(m, a + j) == Found(data[j]))
    && data[f] == 0xFFFF && !ReadVariable(m, a + f).Found?
    && (forall j :: f < j < |data| ==> data[j] == before[j])
  }

  // ----- Round trip, frame, growth and power loss -----

  /** vs with the words from index i to j - 1 of the buffer stored. */
  function Stored(vs: Vars, a: nat, data: seq<Half>, i: nat, j: nat): Vars
    requires i <= j <= |data|
    decreases j - i
  {
    if i == j then vs else Stored(vs[a + i := data[i]], a, data, i + 1, j)
  }

  /** The number of words from index i on that are absent or different. */
  function Changed(vs: Vars, a: nat, data: seq<Half>, i: nat): nat
    requires i <= |data|
    decreases |data| - i
  {
    if i == |data| then 0
    else (if Lookup(vs, a + i) == Some(data[i]) then 0 else 1) + Changed(vs, a, data, i + 1)
  }

  lemma {:induction false} StoredAt(vs: Vars, a: nat, data: seq<Half>, i: nat, j: nat, va: int)
    requires i <= j <= |data|
    ensures Lookup(Stored(vs, a, data, i, j), va) ==
            if a + i <= va < a + j then Some(data[va - a]) else Lookup(vs, va)
    decreases j - i
  {
    if i < j {
      StoredAt(vs[a + i := data[i]], a, data, i + 1, j, va);
    }
  }

  /** Storing a word does not change which later words differ. */
  lemma {:induction false} ChangedLater(vs: Vars, a: nat, data: seq<Half>, i: nat, va: int, d: Half)
    requires i <= |data| && va < a + i
    ensures Changed(vs[va := d], a, data, i) == Changed(vs, a, data, i)
    decreases |data| - i
  {
    if i < |data| {
      ChangedLater(vs, a, data, i + 1, va, d);
    }
  }

  /** One word has been written from page p and the store is now in page q: nothing happens if the word is there
      already, and otherwise one slot is taken if there is one. */
  predicate WordDone(m: Memory, p: PageId, n: nat, vs: Vars, va: Half, d: Half, q: PageId) {
    var r := WordRun(m, va, d);
    var m' := Apply(m, r.ops);
    && r.status == Ok && StableAt(m', q, n, vs[va := d])
    && (Lookup(vs, va) == Some(d) ==> r == NOTHING && m' == m && q == p)
    && (Lookup(vs, va) != Some(d) && FirstFree(m.At(p).slots) < n ==>
          && q == p && FirstFree(m'.At(p).slots) == FirstFree(m.At(p).slots) + 1
          && |r.ops| == 2 && OnSlots(r.ops))
  }

  lemma WordCompletes(m: Memory, p: PageId, n: nat, vs: Vars, va: Half, d: Half) returns (q: PageId)
    requires StableAt(m, p, n, vs) && NB_OF_VAR <= n && va < NB_OF_VAR
    ensures WordDone(m, p, n, vs, va, d, q)
    ensures WordRun(m, va, d).status == Ok && StableAt(Apply(m, WordRun(m, va, d).ops), q, n, vs[va := d])
  {
    StableParts(m, p, n, vs);
    StableReads(m, p, n, vs);
    q := p;
    if ReadVariable(m, va) == Found(d) {
      ApplyNone(m);
      assert vs[va := d] == vs;
    } else {
      WordWritten(m, p, n, vs, va, d);
      if Full(m, p) {
        q := p.Other();
      }
    }
  }

  lemma WordWritten(m: Memory, p: PageId, n: nat, vs: Vars, va: Half, d: Half)
    requires StableAt(m, p, n, vs) && NB_OF_VAR <= n && va < NB_OF_VAR
    ensures var r := WriteRun(m, va, d); var m' := Apply(m, r.ops);
            && r.status == Ok
            && StableAt(m', if Full(m, p) then p.Other() else p, n, vs[va := d])
            && (FirstFree(m.At(p).slots) < n ==>
                  && !Full(m, p) && FirstFree(m'.At(p).slots) == FirstFree(m.At(p).slots) + 1
                  && |r.ops| == 2 && OnSlots(r.ops))
  {
    hide WriteRun, StableAt, Apply, After, Worth, FirstFree, Live;
    StableParts(m, p, n, vs);
    LiveBound(vs, va);
    WriteShape(m, p, n, vs, va, d);
    WriteCompletes(m, p, n, vs, va, d);
    if FirstFree(m.At(p).slots) < n {
      AppendCrash(m, p, n, vs, va, d, 2);
      AppendOnSlots(m, va, d);
    }
  }

  lemma BufferUnfold(m: Memory, a: nat, data: seq<Half>, i: nat)
    requires a + |data| <= NB_OF_VAR && i < |data|
    requires WordRun(m, a + i, data[i]).status == Ok
    ensures var one := WordRun(m, a + i, data[i]).ops; var m1 := Apply(m, one);
            var r := BufferRun(m, a, data, i); var next := BufferRun(m1, a, data, i + 1);
            && r == Outcome(one + next.ops, next.status)
            && Apply(m, r.ops) == Apply(m1, next.ops)
  {
    var one := WordRun(m, a + i, data[i]).ops;
    ApplyConcat(m, one, BufferRun(Apply(m, one), a, data, i + 1).ops);
  }

  /** The words from i on have been written from page p, and the store is now in page q: every word is stored; and
      if the words that differ fit in the free slots, exactly that many slots are taken, two operations each,
      all of them on slots: no page is erased. */
  predicate BufferDone(m: Memory, p: PageId, n: nat, vs: Vars, a: nat, data: seq<Half>, i: nat, q: PageId)
    requires a + |data| <= NB_OF_VAR && i <= |data|
  {
    var r := BufferRun(m, a, data, i);
    var m' := Apply(m, r.ops);
    var c := Changed(vs, a, data, i);
    && r.status == Ok && StableAt(m', q, n, Stored(vs, a, data, i, |data|))
    && (FirstFree(m.At(p).slots) + c <= n ==>
          && q == p && FirstFree(m'.At(p).slots) == FirstFree(m.At(p).slots) + c
          && |r.ops| == 2 * c && OnSlots(r.ops))
  }

  lemma BufferDoneNext(m: Memory, p: PageId, n: nat, vs: Vars, a: nat, data: seq<Half>, i: nat,
                       q1: PageId, q: PageId)
    requires StableAt(m, p, n, vs) && NB_OF_VAR <= n && a + |data| <= NB_OF_VAR && i < |data|
    requires WordDone(m, p, n, vs, a + i, data[i], q1)
    requires BufferDone(Apply(m, WordRun(m, a + i, data[i]).ops), q1, n, vs[a + i := data[i]], a, data, i + 1, q)
    ensures BufferDone(m, p, n, vs, a, data, i, q)
  {
    hide WordRun, BufferRun, StableAt, FirstFree, Apply;
    BufferUnfold(m, a, data, i);
    ChangedLater(vs, a, data, i + 1, a + i, data[i]);
  }

  lemma AddressFits(a: nat, data: seq<Half>, i: nat)
    requires a + |data| <= NB_OF_VAR
    ensures i < |data| ==> a + i < 0x1_0000
  {
  }

  lemma {:induction false} BufferCompletes(m: Memory, p: PageId, n: nat, vs: Vars, a: nat, data: seq<Half>, i: nat)
    returns (q: PageId)
    requires StableAt(m, p, n, vs) && NB_OF_VAR <= n && a + |data| <= NB_OF_VAR && i <= |data|
    ensures BufferDone(m, p, n, vs, a, data, i, q)
    decreases |data| - i
  {
    hide *;
    AddressFits(a, data, i);
    if i == |data| {
      q := p;
      BufferDoneEnd(m, p, n, vs, a, data);
    } else {
      var va: Half, d := a + i, data[i];
      var q1 := WordCompletes(m, p, n, vs, va, d);
      q := BufferCompletes(Apply(m, WordRun(m, va, d).ops), q1, n, vs[va := d], a, data, i + 1);
      BufferDoneNext(m, p, n, vs, a, data, i, q1, q);
    }
  }

  lemma BufferDoneEnd(m: Memory, p: PageId, n: nat, vs: Vars, a: nat, data: seq<Half>)
    requires StableAt(m, p, n, vs) && a + |data| <= NB_OF_VAR
    ensures BufferDone(m, p, n, vs, a, data, |data|, p)
  {
    ApplyNone(m);
  }

  /** Round trip and frame: after a buffer has been written each of its words reads back, and every variable outside
      its range reads as before. */
  lemma BufferRoundTrip(m: Memory, p: PageId, n: nat, vs: Vars, a: nat, data: seq<Half>, va: Half)
    requires StableAt(m, p, n, vs) && NB_OF_VAR <= n && a + |data| <= NB_OF_VAR && va < NB_OF_VAR
    ensures var r := BufferRun(m, a, data, 0);
            && r.status == Ok
            && ReadVariable(Apply(m, r.ops), va) ==
               if a <= va < a + |data| then Found(data[va - a]) else ReadVariable(m, va)
  {
    var q := BufferCompletes(m, p, n, vs, a, data, 0);
    StableReads(m, p, n, vs);
    StableReads(Apply(m, BufferRun(m, a, data, 0).ops), q, n, Stored(vs, a, data, 0, |data|));
    StoredAt(vs, a, data, 0, |data|, va);
  }

  lemma {:induction false} NothingChanged(m: Memory, p: PageId, n: nat, vs: Vars, a: nat, data: seq<Half>, i: nat)
    requires StableAt(m, p, n, vs) && a + |data| <= NB_OF_VAR && i <= |data|
    requires forall j :: i <= j < |data| ==> Lookup(vs, a + j) == Some(data[j])
    ensures BufferRun(m, a, data, i) == NOTHING
    decreases |data| - i
  {
    if i < |data| {
      StableReads(m, p, n, vs);
      ApplyNone(m);
      NothingChanged(m, p, n, vs, a, data, i + 1);
    }
  }

  /** Writing the same buffer again performs no flash operation at all. */
  lemma RewriteIsFree(m: Memory, p: PageId, n: nat, vs: Vars, a: nat, data: seq<Half>)
    requires StableAt(m, p, n, vs) && NB_OF_VAR <= n && a + |data| <= NB_OF_VAR
    ensures BufferRun(Apply(m, BufferRun(m, a, data, 0).ops), a, data, 0) == NOTHING
  {
    var q := BufferCompletes(m, p, n, vs, a, data, 0);
    var vs' := Stored(vs, a, data, 0, |data|);
    forall j | 0 <= j < |data|
      ensures Lookup(vs', a + j) == Some(data[j])
    {
      StoredAt(vs, a, data, 0, |data|, a + j);
    }
    NothingChanged(Apply(m, BufferRun(m, a, data, 0).ops), q, n, vs', a, data, 0);
  }

  /** A buffer write cut after k operations has stored the words up to word j. */
  predicate CutAt(m: Memory, n: nat, vs: Vars, a: nat, data: seq<Half>, i: nat, k: nat, j: nat)
    requires a + |data| <= NB_OF_VAR && i <= |data| && k <= |BufferRun(m, a, data, i).ops|
  {
    i <= j <= |data| && Worth(After(m, BufferRun(m, a, data, i).ops, k), n, Stored(vs, a, data, i, j), NB_OF_VAR)
  }

  lemma CutAtEnd(m: Memory, p: PageId, n: nat, vs: Vars, a: nat, data: seq<Half>)
    requires StableAt(m, p, n, vs) && a + |data| <= NB_OF_VAR
    ensures BufferRun(m, a, data, |data|).ops == [] && CutAt(m, n, vs, a, data, |data|, 0, |data|)
  {
    StableWorth(m, p, n, vs, NB_OF_VAR);
  }

  lemma CutLater(m: Memory, n: nat, vs: Vars, a: nat, data: seq<Half>, i: nat, k: nat, j: nat)
    requires a + |data| <= NB_OF_VAR && i < |data| && WordRun(m, a + i, data[i]).status == Ok
    requires var one := WordRun(m, a + i, data[i]).ops;
             && |one| <= k <= |BufferRun(m, a, data, i).ops|
             && k - |one| <= |BufferRun(Apply(m, one), a, data, i + 1).ops|
             && CutAt(Apply(m, one), n, vs[a + i := data[i]], a, data, i + 1, k - |one|, j)
    ensures CutAt(m, n, vs, a, data, i, k, j)
  {
    hide WordRun, BufferRun, Worth, After, Apply;
    var one := WordRun(m, a + i, data[i]).ops;
    BufferUnfold(m, a, data, i);
    AfterConcat(m, one, BufferRun(Apply(m, one), a, data, i + 1).ops, k);
  }

  lemma CutNow(m: Memory, p: PageId, n: nat, vs: Vars, a: nat, data: seq<Half>, i: nat, k: nat) returns (j: nat)
    requires StableAt(m, p, n, vs) && NB_OF_VAR <= n && a + |data| <= NB_OF_VAR && i < |data|
    requires WordRun(m, a + i, data[i]).status == Ok && k < |WordRun(m, a + i, data[i]).ops|
    requires k <= |BufferRun(m, a, data, i).ops|
    ensures CutAt(m, n, vs, a, data, i, k, j)
  {
    hide *;
    AddressFits(a, data, i);
    var written := WordCrash(m, p, n, vs, a + i, data[i], k);
    j := if written then i + 1 else i;
    CutInside(m, n, vs, a, data, i, k, written);
  }

  lemma CutInside(m: Memory, n: nat, vs: Vars, a: nat, data: seq<Half>, i: nat, k: nat, written: bool)
    requires a + |data| <= NB_OF_VAR && i < |data|
    requires WordRun(m, a + i, data[i]).status == Ok && k <= |WordRun(m, a + i, data[i]).ops|
    requires k <= |BufferRun(m, a, data, i).ops|
    requires Worth(After(m, WordRun(m, a + i, data[i]).ops, k), n,
                   if written then vs[a + i := data[i]] else vs, NB_OF_VAR)
    ensures CutAt(m, n, vs, a, data, i, k, if written then i + 1 else i)
  {
    hide WordRun, BufferRun, Worth, After, Apply;
    var one := WordRun(m, a + i, data[i]).ops;
    assert Stored(vs, a, data, i, i) == vs;
    assert Stored(vs, a, data, i, i + 1) == Stored(vs[a + i := data[i]], a, data, i + 1, i + 1);
    BufferUnfold(m, a, data, i);
    AfterConcat(m, one, BufferRun(Apply(m, one), a, data, i + 1).ops, k);
  }

  /** A power loss k operations into writing a buffer, any k: the store holds the buffer's words up to some word j, and
      the old values from there on. */
  lemma {:induction false} BufferCrash(m: Memory, p: PageId, n: nat, vs: Vars, a: nat, data: seq<Half>, i: nat, k: nat)
    returns (j: nat)
    requires StableAt(m, p, n, vs) && NB_OF_VAR <= n && a + |data| <= NB_OF_VAR && i <= |data|
    requires k <= |BufferRun(m, a, data, i).ops|
    ensures CutAt(m, n, vs, a, data, i, k, j)
    decreases |data| - i
  {
    hide *;
    AddressFits(a, data, i);
    if i == |data| {
      CutAtEnd(m, p, n, vs, a, data);
      return i;
    }
    var va: Half, d := a + i, data[i];
    var one := WordRun(m, va, d).ops;
    var q1 := WordCompletes(m, p, n, vs, va, d);
    BufferUnfold(m, a, data, i);
    if k >= |one| {
      j := BufferCrash(Apply(m, one), q1, n, vs[va := d], a, data, i + 1, k - |one|);
      CutLater(m, n, vs, a, data, i, k, j);
    } else {
      j := CutNow(m, p, n, vs, a, data, i, k);
    }
  }

  lemma WordCrash(m: Memory, p: PageId, n: nat, vs: Vars, va: Half, d: Half, k: nat) returns (written: bool)
    requires StableAt(m, p, n, vs) && NB_OF_VAR <= n && va < NB_OF_VAR && k < |WordRun(m, va, d).ops|
    ensures Worth(After(m, WordRun(m, va, d).ops, k), n, if written then vs[va := d] else vs, NB_OF_VAR)
  {
    written := k >= CommitPoint(m, p);
    hide WriteRun, StableAt, After, Worth, ReadVariable, Live;
    StableParts(m, p, n, vs);
    LiveBound(vs, va);
    WriteCrash(m, p, n, vs, va, d, k);
    WorthMore(After(m, WriteRun(m, va, d).ops, k), n, if written then vs[va := d] else vs, Live(vs, va), NB_OF_VAR);
  }
}
