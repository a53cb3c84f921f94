/**
 The life of the store without power losses: any sequence of writes behaves as on a plain map, and the
 pages are erased rarely.
 */
module StoreWear {
  import opened Flash
  import opened SlotLog
  import opened Store
  import opened WriteSafety
  import opened Recovery
  import opened PowerLoss

  datatype Assignment = Assignment(va: Half, d: Half)

  /** The memory after a sequence of writes. */
  function WriteAll(m: Memory, ws: seq<Assignment>): Memory
    decreases |ws|
  {
    if ws == [] then m else WriteAll(Apply(m, WriteRun(m, ws[0].va, ws[0].d).ops), ws[1..])
  }

  /** The plain map after a sequence of writes. */
  function UpdateAll(vs: Vars, ws: seq<Assignment>): Vars
    decreases |ws|
  {
    if ws == [] then vs else UpdateAll(vs[ws[0].va := ws[0].d], ws[1..])
  }

  /** The number of page erasures among the first k operations. */
  function ErasuresTo(ops: seq<Op>, k: nat): nat
    requires k <= |ops|
  {
    if k == 0 then 0 else ErasuresTo(ops, k - 1) + if ops[k - 1].ErasePage? then 1 else 0
  }

  function Erasures(ops: seq<Op>): nat {
    ErasuresTo(ops, |ops|)
  }

  /** The number of page erasures in a sequence of writes. */
  function Wear(m: Memory, ws: seq<Assignment>): nat
    decreases |ws|
  {
    if ws == [] then 0
    else
      var ops := WriteRun(m, ws[0].va, ws[0].d).ops;
      Erasures(ops) + Wear(Apply(m, ops), ws[1..])
  }

  lemma {:induction false} ErasuresConcat(a: seq<Op>, b: seq<Op>, k: nat)
    requires k <= |a + b|
    ensures ErasuresTo(a + b, k) == if k <= |a| then ErasuresTo(a, k) else Erasures(a) + ErasuresTo(b, k - |a|)
  {
    if k > 0 {
      ErasuresConcat(a, b, k - 1);
    }
  }

  lemma {:induction false} SlotsEraseNothing(ops: seq<Op>, k: nat)
    requires OnSlots(ops) && k <= |ops|
    ensures ErasuresTo(ops, k) == 0
  {
    if k > 0 {
      SlotsEraseNothing(ops, k - 1);
    }
  }

  /** A write erases one page if it needs a transfer, and none otherwise. */
  lemma WriteErasures(m: Memory, p: PageId, n: nat, vs: Vars, va: Half, d: Half)
    requires StableAt(m, p, n, vs) && n > 0 && va < NB_OF_VAR
    requires WriteRun(m, va, d).status == Ok
    ensures Erasures(WriteRun(m, va, d).ops) == if Full(m, p) then 1 else 0
  {
    WriteShape(m, p, n, vs, va, d);
    hide *;
    if Full(m, p) {
      var t := TransferSeeded(m, p, n, vs, va, d);
      var first := AppendRun(Marked(m, p), va, d).ops;
      var m2 := Apply(Marked(m, p), first);
      TailParts(m2, p, va);
      AppendOnSlots(Marked(m, p), va, d);
      CopyOnSlots(m2, Variable(va), 0);
      TransferErasures([ProgramHeader(p.Other(), RECEIVE_DATA)], first, CopyRun(m2, Variable(va), 0).ops,
                       [ErasePage(p), ProgramHeader(p.Other(), VALID_PAGE)]);
    } else {
      AppendOnSlots(m, va, d);
      SlotsEraseNothing(AppendRun(m, va, d).ops, |AppendRun(m, va, d).ops|);
      ErasuresIs(AppendRun(m, va, d).ops);
    }
  }

  lemma ErasuresIs(ops: seq<Op>)
    ensures Erasures(ops) == ErasuresTo(ops, |ops|)
  {
  }

  lemma TailParts(m2: Memory, p: PageId, va: Half)
    requires TransferTail(m2, p, va).status == Ok
    ensures TransferTail(m2, p, va).ops ==
            CopyRun(m2, Variable(va), 0).ops + [ErasePage(p), ProgramHeader(p.Other(), VALID_PAGE)]
  {
  }

  lemma TransferErasures(mark: seq<Op>, first: seq<Op>, copy: seq<Op>, switch: seq<Op>)
    requires |mark| == 1 && mark[0].ProgramHeader? && OnSlots(first) && OnSlots(copy)
    requires |switch| == 2 && switch[0].ErasePage? && switch[1].ProgramHeader?
    ensures Erasures(mark + (first + (copy + switch))) == 1
  {
    SlotsEraseNothing(first, |first|);
    SlotsEraseNothing(copy, |copy|);
    ErasuresConcat(copy, switch, |copy + switch|);
    ErasuresConcat(first, copy + switch, |first + (copy + switch)|);
    ErasuresConcat(mark, first + (copy + switch), |mark + (first + (copy + switch))|);
    assert ErasuresTo(switch, 1) == 1;
    assert ErasuresTo(mark, 0) == 0;
  }

  predicate AllVariables(ws: seq<Assignment>) {
    forall i :: 0 <= i < |ws| ==> ws[i].va < NB_OF_VAR
  }

  /** One write: what it does to the variables, to the slots in use and to the erasures. */
  lemma WriteAndWear(m: Memory, p: PageId, n: nat, vs: Vars, va: Half, d: Half)
    requires StableAt(m, p, n, vs) && NB_OF_VAR <= n && va < NB_OF_VAR
    ensures var r := WriteRun(m, va, d); var m' := Apply(m, r.ops);
            var q := if Full(m, p) then p.Other() else p;
            && StableAt(m', q, n, vs[va := d])
            && Erasures(r.ops) == (if Full(m, p) then 1 else 0)
            && (Full(m, p) ==> FirstFree(m.At(p).slots) == n && FirstFree(m'.At(q).slots) <= 256)
            && (!Full(m, p) ==> FirstFree(m'.At(q).slots) == FirstFree(m.At(p).slots) + 1)
  {
    StableParts(m, p, n, vs);
    assert Full(m, p) <==> FirstFree(m.At(p).slots) == n;
    LiveBound(vs, va);
    assert Live(vs, va) <= 256;
    assert n > 0;
    hide *;
    WriteCompletes(m, p, n, vs, va, d);
    WriteErasures(m, p, n, vs, va, d);
  }

  /** The writes that pay for a number of erasures. */
  function Cost(erasures: nat, n: nat): int {
    erasures * (n - 255)
  }

  /** A transfer pays for its erasure with the slots it frees. */
  lemma Budget(e: nat, w: nat, n: nat, used: nat, used': nat, final: nat, writes: nat)
    requires Cost(w, n) + final <= used' + writes
    requires (e == 0 && used' == used + 1) || (e == 1 && used == n && used' <= 256)
    ensures Cost(e + w, n) + final <= used + writes + 1
  {
    if e == 1 {
      assert (1 + w) * (n - 255) == w * (n - 255) + (n - 255);
    }
  }

  /** After the writes ws, starting from page p, the store holds in page q what a plain map would, and its page
      erasures, each bought with n - 255 writes, plus the slots then in use do not exceed the writes plus
      the slots in use before. */
  predicate Refines(m: Memory, p: PageId, n: nat, vs: Vars, ws: seq<Assignment>, q: PageId) {
    && StableAt(WriteAll(m, ws), q, n, UpdateAll(vs, ws))
    && Cost(Wear(m, ws), n) + FirstFree(WriteAll(m, ws).At(q).slots) <= FirstFree(m.At(p).slots) + |ws|
  }

  lemma RefinesOneMore(m: Memory, p: PageId, n: nat, vs: Vars, ws: seq<Assignment>, p1: PageId, q: PageId)
    requires ws != [] && StableAt(m, p, n, vs) && NB_OF_VAR <= n && ws[0].va < NB_OF_VAR
    requires p1 == if Full(m, p) then p.Other() else p
    requires Refines(Apply(m, WriteRun(m, ws[0].va, ws[0].d).ops), p1, n, vs[ws[0].va := ws[0].d], ws[1..], q)
    ensures Refines(m, p, n, vs, ws, q)
  {
    var va, d := ws[0].va, ws[0].d;
    var ops := WriteRun(m, va, d).ops;
    var m1 := Apply(m, ops);
    WriteAndWear(m, p, n, vs, va, d);
    hide StableAt, WriteRun, Apply, Erasures, FirstFree, Full, Cost;
    Budget(Erasures(ops), Wear(m1, ws[1..]), n, FirstFree(m.At(p).slots), FirstFree(m1.At(p1).slots),
           FirstFree(WriteAll(m1, ws[1..]).At(q).slots), |ws| - 1);
  }

  /** Refinement and wear together, for every sequence of writes. */
  lemma {:induction false} WritesRefineMap(m: Memory, p: PageId, n: nat, vs: Vars, ws: seq<Assignment>)
    returns (q: PageId)
    requires StableAt(m, p, n, vs) && NB_OF_VAR <= n && AllVariables(ws)
    ensures Refines(m, p, n, vs, ws, q)
    decreases |ws|
  {
    q := p;
    if ws != [] {
      var va, d := ws[0].va, ws[0].d;
      assert AllVariables(ws[1..]);
      assert va < 256;
      hide *;
      WriteAndWear(m, p, n, vs, va, d);
      var p1 := if Full(m, p) then p.Other() else p;
      q := WritesRefineMap(Apply(m, WriteRun(m, va, d).ops), p1, n, vs[va := d], ws[1..]);
      RefinesOneMore(m, p, n, vs, ws, p1, q);
    }
  }

  /** The wear bound: starting from an empty store, W writes cause T erasures with T * (N - 255) <= W. */
  lemma WearBound(m: Memory, p: PageId, n: nat, ws: seq<Assignment>)
    requires StableAt(m, p, n, map[]) && FirstFree(m.At(p).slots) == 0 && NB_OF_VAR <= n && AllVariables(ws)
    ensures Wear(m, ws) * (n - 255) <= |ws|
  {
    var q := WritesRefineMap(m, p, n, map[], ws);
  }

  /** The index of the last write to va, or -1. */
  predicate LastWrite(ws: seq<Assignment>, va: int, i: int) {
    && -1 <= i < |ws|
    && (i >= 0 ==> ws[i].va == va)
    && forall j :: i < j < |ws| ==> ws[j].va != va
  }

  lemma {:induction false} LastUpdate(vs: Vars, ws: seq<Assignment>, va: int, i: int)
    requires LastWrite(ws, va, i)
    ensures Lookup(UpdateAll(vs, ws), va) == if i >= 0 then Some(ws[i].d) else Lookup(vs, va)
    decreases |ws|
  {
    if ws != [] {
      LastUpdate(vs[ws[0].va := ws[0].d], ws[1..], va, if i <= 0 then -1 else i - 1);
    }
  }

  /** Whatever was written last to a variable is what EE_ReadVariable returns; a variable never written is
      not found. */
  lemma ReadsLastWrite(m: Memory, p: PageId, n: nat, ws: seq<Assignment>, va: Half, i: int)
    requires StableAt(m, p, n, map[]) && NB_OF_VAR <= n && AllVariables(ws) && va < NB_OF_VAR
    requires LastWrite(ws, va, i)
    ensures ReadVariable(WriteAll(m, ws), va) == if i >= 0 then Found(ws[i].d) else NotFound
  {
    var q := WritesRefineMap(m, p, n, map[], ws);
    assert Refines(m, p, n, map[], ws, q);
    StableReads(WriteAll(m, ws), q, n, UpdateAll(map[], ws));
    LastUpdate(map[], ws, va, i);
  }
}
