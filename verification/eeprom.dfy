/**
 The EEPROM emulation itself, on flash cells that are programmed and erased in place. Every method performs
 the run of flash operations that its specification function gives, or, when the HAL reports an error,
 stops after a prefix of that run and returns the error.
 */
module Eeprom {
  import opened Flash
  import opened SlotLog
  import opened Store

  /** From memory m0 and trace t0, the run was performed up to memory m and trace t with status st: in full with
      its own status, or cut short by a HAL error. */
  ghost predicate Ran(m0: Memory, t0: seq<Op>, run: Outcome, m: Memory, t: seq<Op>, st: Status) {
    var k := |t| - |t0|;
    && 0 <= k <= |run.ops|
    && t == t0 + run.ops[..k]
    && m == After(m0, run.ops, k)
    && (if st == HalFailed then k < |run.ops| else st == run.status && k == |run.ops|)
  }

  /** Between call c0 and call c of the HAL the trace grew from t0 to t: every call performed one operation, but the
      last one if it reported an error, which ends the run. */
  ghost predicate Called(failing: nat -> bool, c0: nat, t0: seq<Op>, c: nat, t: seq<Op>, st: Status) {
    var performed := |t| - |t0|;
    && performed >= 0 && c == c0 + performed + (if st == HalFailed then 1 else 0)
    && (forall i: nat :: c0 <= i < c0 + performed ==> !failing(i))
    && (st == HalFailed ==> failing(c0 + performed))
  }

  lemma CalledNothing(failing: nat -> bool, c: nat, t: seq<Op>)
    ensures forall st :: st != HalFailed ==> Called(failing, c, t, c, t, st)
  {
  }

  lemma CalledThen(failing: nat -> bool, c0: nat, t0: seq<Op>, c1: nat, t1: seq<Op>, c2: nat, t2: seq<Op>, st: Status)
    requires Called(failing, c0, t0, c1, t1, Ok) && Called(failing, c1, t1, c2, t2, st)
    ensures Called(failing, c0, t0, c2, t2, st)
  {
  }

  lemma RanNothing(m: Memory, t: seq<Op>, st: Status)
    requires st != HalFailed
    ensures Ran(m, t, Outcome([], st), m, t, st)
  {
  }

  lemma RanOne(m: Memory, t: seq<Op>, op: Op, st: Status, m': Memory, t': seq<Op>)
    requires st == Ok || st == HalFailed
    requires st == Ok ==> m' == Apply1(m, op) && t' == t + [op]
    requires st == HalFailed ==> m' == m && t' == t
    ensures Ran(m, t, Outcome([op], Ok), m', t', st)
  {
    assert After(m, [op], 0) == m;
    assert After(m, [op], 1) == Apply1(m, op);
    assert [op][..1] == [op];
  }

  /** A run that succeeded, followed by another. */
  lemma RanThen(m0: Memory, t0: seq<Op>, r1: Outcome, m1: Memory, t1: seq<Op>,
                r2: Outcome, m2: Memory, t2: seq<Op>, st: Status)
    requires Ran(m0, t0, r1, m1, t1, Ok) && Ran(m1, t1, r2, m2, t2, st)
    ensures m1 == Apply(m0, r1.ops) && Ran(m0, t0, r1.Then(r2), m2, t2, st)
  {
    hide After, Apply1;
    var k := |t2| - |t1|;
    assert r1.ops[..|r1.ops|] == r1.ops;
    AfterConcat(m0, r1.ops, r2.ops, |r1.ops| + k);
    assert (r1.ops + r2.ops)[..|r1.ops| + k] == r1.ops + r2.ops[..k];
  }

  /** A run that did not succeed, whatever would have followed. */
  lemma RanStop(m0: Memory, t0: seq<Op>, r1: Outcome, r2: Outcome, m: Memory, t: seq<Op>, st: Status)
    requires Ran(m0, t0, r1, m, t, st) && st != Ok
    ensures Ran(m0, t0, r1.Then(r2), m, t, st)
  {
    if r1.status.Ok? {
      var k := |t| - |t0|;
      AfterConcat(m0, r1.ops, r2.ops, k);
      assert (r1.ops + r2.ops)[..k] == r1.ops[..k];
    }
  }

  /** How far a run goes is decided by the HAL alone: it stops with HalFailed exactly if one of the calls for its
      operations fails; otherwise it has been performed as a whole, with its own status. */
  lemma RanExactly(m0: Memory, t0: seq<Op>, r: Outcome, m: Memory, t: seq<Op>, st: Status,
                   failing: nat -> bool, c0: nat, c: nat)
    requires Ran(m0, t0, r, m, t, st) && Called(failing, c0, t0, c, t, st)
    requires r.status != HalFailed
    ensures st == HalFailed <==> exists i: nat :: c0 <= i < c0 + |r.ops| && failing(i)
    ensures st != HalFailed ==> m == Apply(m0, r.ops) && t == t0 + r.ops && st == r.status
  {
    assert r.ops[..|r.ops|] == r.ops;
  }

  lemma RanAll(m0: Memory, t0: seq<Op>, r: Outcome, m: Memory, t: seq<Op>)
    requires Ran(m0, t0, r, m, t, Ok)
    ensures m == Apply(m0, r.ops)
  {
  }

  lemma ThenAssociates(a: Outcome, b: Outcome, c: Outcome)
    ensures a.Then(b).Then(c) == a.Then(b.Then(c))
  {
    assert a.ops + b.ops + c.ops == a.ops + (b.ops + c.ops);
  }

  /** One more step of a longer run: after an error the whole run is over, otherwise the rest remains. */
  lemma RanStep(m0: Memory, t0: seq<Op>, all: Outcome, done: Outcome, m1: Memory, t1: seq<Op>,
                step: Outcome, rest: Outcome, m2: Memory, t2: seq<Op>, st: Status)
    requires Ran(m0, t0, done, m1, t1, Ok) && Ran(m1, t1, step, m2, t2, st)
    requires all == done.Then(step.Then(rest))
    ensures st != Ok ==> Ran(m0, t0, all, m2, t2, st)
    ensures st == Ok ==>
              && Ran(m0, t0, done.Then(step), m2, t2, Ok)
              && m2 == Apply(m1, step.ops)
              && all == done.Then(step).Then(rest)
  {
    ThenAssociates(done, step, rest);
    RanThen(m0, t0, done, m1, t1, step, m2, t2, st);
    if st != Ok {
      RanStop(m0, t0, done.Then(step), rest, m2, t2, st);
    } else {
      RanThen(m0, t0, done.Then(step), m2, t2, NOTHING, m2, t2, Ok);
    }
  }

  /** The copying loop at the turn for va: done so far, and what remains. */
  ghost predicate Copied(m0: Memory, t0: seq<Op>, skip: Skip, va: nat, done: Outcome, m: Memory, t: seq<Op>) {
    && va <= NB_OF_VAR
    && Ran(m0, t0, done, m, t, Ok)
    && CopyRun(m0, skip, 0) == done.Then(CopyRun(m, skip, va))
  }

  lemma NothingThen(r: Outcome)
    ensures NOTHING.Then(r) == r
  {
    assert [] + r.ops == r.ops;
  }

  lemma CopyBegin(m0: Memory, t0: seq<Op>, skip: Skip)
    ensures Copied(m0, t0, skip, 0, NOTHING, m0, t0)
  {
    hide CopyRun;
    RanNothing(m0, t0, Ok);
    NothingThen(CopyRun(m0, skip, 0));
  }

  lemma CopyTurn(m0: Memory, t0: seq<Op>, skip: Skip, va: nat, done: Outcome, m1: Memory, t1: seq<Op>,
                 m2: Memory, t2: seq<Op>, st: Status)
    requires Copied(m0, t0, skip, va, done, m1, t1) && va < NB_OF_VAR
    requires Ran(m1, t1, CopyOneRun(m1, skip, va), m2, t2, st)
    ensures if st == Ok then Copied(m0, t0, skip, va + 1, done.Then(CopyOneRun(m1, skip, va)), m2, t2)
            else Ran(m0, t0, CopyRun(m0, skip, 0), m2, t2, st)
  {
    var one := CopyOneRun(m1, skip, va);
    RanStep(m0, t0, CopyRun(m0, skip, 0), done, m1, t1, one, CopyRun(Apply(m1, one.ops), skip, va + 1), m2, t2, st);
  }

  lemma CopyEnd(m0: Memory, t0: seq<Op>, skip: Skip, done: Outcome, m: Memory, t: seq<Op>)
    requires Copied(m0, t0, skip, NB_OF_VAR, done, m, t)
    ensures Ran(m0, t0, CopyRun(m0, skip, 0), m, t, Ok)
  {
    assert done.Then(CopyRun(m, skip, NB_OF_VAR)) == done;
  }

  /** Erasing and marking page 0 leaves page 1 alone. */
  lemma FormatFirst(m: Memory)
    ensures var r := EraseIfNeeded(m, Page0).Then(Mark(Page0));
            EraseIfNeeded(Apply(m, r.ops), Page1) == EraseIfNeeded(m, Page1)
  {
    var e := EraseIfNeeded(m, Page0).ops;
    ApplyConcat(m, e, Mark(Page0).ops);
    assert After(m, e, 0) == m;
    assert Apply(m, e).page1 == m.page1;
    assert After(Apply(m, e), Mark(Page0).ops, 0) == Apply(m, e);
    assert Apply(Apply(m, e), Mark(Page0).ops).page1 == m.page1;
  }

  class Emulation {
    const failing: nat -> bool   // which calls of the HAL report an error
    const slots0: array<Slot>
    const slots1: array<Slot>
    var header0: Half
    var header1: Half
    var calls: nat               // the calls of the HAL so far
    ghost var trace: seq<Op>     // the flash operations performed so far

    ghost predicate Valid() {
      slots0 != slots1 && slots0.Length == slots1.Length > 0
    }

    /** Power-up, with whatever the flash holds. */
    constructor (m: Memory, failing: nat -> bool)
      requires |m.page0.slots| > 0 && m.Sized(|m.page0.slots|)
      ensures Valid() && Mem() == m && trace == [] && calls == 0 && this.failing == failing
      ensures fresh(slots0) && fresh(slots1)
    {
      var n := |m.page0.slots|;
      slots0 := new Slot[n](k requires 0 <= k < n => m.page0.slots[k]);
      slots1 := new Slot[n](k requires 0 <= k < n => m.page1.slots[k]);
      header0, header1 := m.page0.header, m.page1.header;
      trace, calls := [], 0;
      this.failing := failing;
      new;
      assert slots0[..] == m.page0.slots && slots1[..] == m.page1.slots;
    }

    function SlotsOf(p: PageId): array<Slot> {
      if p.Page0? then slots0 else slots1
    }

    function HeaderOf(p: PageId): Half
      reads this
    {
      if p.Page0? then header0 else header1
    }

    /** The flash contents as a value. */
    ghost function Mem(): Memory
      reads this, slots0, slots1
    {
      Memory(Page(header0, slots0[..]), Page(header1, slots1[..]))
    }

    // ----- The HAL: one atomic operation, or an error and no change -----

    method HalProgram(op: Op) returns (st: Status)
      requires Valid() && !op.ErasePage?
      requires !op.ProgramHeader? ==> op.k < slots0.Length
      modifies this, slots0, slots1
      ensures st == if failing(old(calls)) then HalFailed else Ok
      ensures Called(failing, old(calls), old(trace), calls, trace, st)
      ensures st == Ok ==> Mem() == Apply1(old(Mem()), op) && trace == old(trace) + [op]
      ensures st == HalFailed ==> Mem() == old(Mem()) && trace == old(trace)
    {
      calls := calls + 1;
      if failing(calls - 1) {
        return HalFailed;
      }
      match op {
        case ProgramHeader(p, v) =>
          if p.Page0? {
            header0 := Nor(header0, v);
          } else {
            header1 := Nor(header1, v);
          }
        case ProgramData(p, k, v) =>
          var cells := SlotsOf(p);
          cells[k] := cells[k].(data := Nor(cells[k].data, v));
        case ProgramVa(p, k, v) =>
          var cells := SlotsOf(p);
          cells[k] := cells[k].(va := Nor(cells[k].va, v));
      }
      trace := trace + [op];
      return Ok;
    }

    method HalErase(p: PageId) returns (st: Status)
      requires Valid()
      modifies this, slots0, slots1
      ensures st == if failing(old(calls)) then HalFailed else Ok
      ensures Called(failing, old(calls), old(trace), calls, trace, st)
      ensures st == Ok ==> Mem() == Apply1(old(Mem()), ErasePage(p)) && trace == old(trace) + [ErasePage(p)]
      ensures st == HalFailed ==> Mem() == old(Mem()) && trace == old(trace)
    {
      calls := calls + 1;
      if failing(calls - 1) {
        return HalFailed;
      }
      if p.Page0? {
        header0 := ERASED;
      } else {
        header1 := ERASED;
      }
      var cells := SlotsOf(p);
      forall k | 0 <= k < cells.Length {
        cells[k] := FREE_SLOT;
      }
      trace := trace + [ErasePage(p)];
      return Ok;
    }

    // ----- Inspecting the flash -----

    method FindValid(purpose: Purpose) returns (page: Option<PageId>)
      ensures page == FindValidPage(Mem(), purpose)
    {
      match purpose {
        case WriteTo =>
          if header1 == VALID_PAGE {
            page := Some(if header0 == RECEIVE_DATA then Page0 else Page1);
          } else if header0 == VALID_PAGE {
            page := Some(if header1 == RECEIVE_DATA then Page1 else Page0);
          } else {
            page := None;
          }
        case ReadFrom =>
          if header0 == VALID_PAGE {
            page := Some(Page0);
          } else if header1 == VALID_PAGE {
            page := Some(Page1);
          } else {
            page := None;
          }
      }
    }

    /** The scan of the header and of every virtual-address half-word. */
    method IsFullyErased(p: PageId) returns (erased: bool)
      ensures erased <==> FullyErased(Mem().At(p))
    {
      if HeaderOf(p) != ERASED {
        return false;
      }
      var cells := SlotsOf(p);
      var k := 0;
      while k < cells.Length
        invariant 0 <= k <= cells.Length
        invariant forall i :: 0 <= i < k ==> cells[i].va == ERASED
      {
        if cells[k].va != ERASED {
          assert Mem().At(p).slots[k].va != ERASED;
          return false;
        }
        k := k + 1;
      }
      return true;
    }

    /** The scan from the last slot back to the newest entry of va. */
    method Read(va: Half) returns (r: ReadResult)
      requires va < NB_OF_VAR
      ensures r == ReadVariable(Mem(), va)
    {
      var page := FindValid(ReadFrom);
      if page.None? {
        return NoPageToRead;
      }
      var cells := SlotsOf(page.value);
      var k := cells.Length;
      while k > 0
        invariant 0 <= k <= cells.Length
        invariant Newest(cells[..], va) == NewestBelow(cells[..], va, k)
      {
        if cells[k - 1].va == va {
          return Found(cells[k - 1].data);
        }
        k := k - 1;
      }
      return NotFound;
    }

    // ----- Writing -----

    /** The scan for the first free slot; its data half-word is programmed first, then its virtual address. */
    method Append(va: Half, d: Half) returns (st: Status)
      requires Valid() && va < NB_OF_VAR
      modifies this, slots0, slots1
      ensures Ran(old(Mem()), old(trace), AppendRun(old(Mem()), va, d), Mem(), trace, st)
      ensures Called(failing, old(calls), old(trace), calls, trace, st)
    {
      hide Called;
      ghost var m0, t0, c0 := Mem(), trace, calls;
      CalledNothing(failing, c0, t0);
      var page := FindValid(WriteTo);
      if page.None? {
        RanNothing(m0, t0, NoValidPage);
        return NoValidPage;
      }
      var p := page.value;
      var cells := SlotsOf(p);
      var k := 0;
      while k < cells.Length
        invariant 0 <= k <= cells.Length
        invariant FirstFreeFrom(cells[..], 0) == FirstFreeFrom(cells[..], k)
        invariant Mem() == m0 && trace == t0 && calls == old(calls)
      {
        if cells[k].Free() {
          st := HalProgram(ProgramData(p, k, d));
          ghost var m1, t1, c1 := Mem(), trace, calls;
          RanOne(m0, t0, ProgramData(p, k, d), st, m1, t1);
          ghost var second := Outcome([ProgramVa(p, k, va)], Ok);
          assert AppendRun(m0, va, d) == Outcome([ProgramData(p, k, d)], Ok).Then(second);
          if st != Ok {
            RanStop(m0, t0, Outcome([ProgramData(p, k, d)], Ok), second, m1, t1, st);
            return;
          }
          st := HalProgram(ProgramVa(p, k, va));
          CalledThen(failing, c0, t0, c1, t1, calls, trace, st);
          RanOne(m1, t1, ProgramVa(p, k, va), st, Mem(), trace);
          RanThen(m0, t0, Outcome([ProgramData(p, k, d)], Ok), m1, t1, second, Mem(), trace, st);
          return;
        }
        k := k + 1;
      }
      RanNothing(m0, t0, PageFull);
      return PageFull;
    }

    predicate MustSkip(skip: Skip, va: int)
      reads this, slots0, slots1
      ensures MustSkip(skip, va) == Skips(Mem(), skip, va)
    {
      match skip
      case Variable(v) => va == v
      case FirstSlotOf(p) => SlotsOf(p).Length > 0 && SlotsOf(p)[0].va == va
    }

    method CopyOne(skip: Skip, va: Half) returns (st: Status)
      requires Valid() && va < NB_OF_VAR
      modifies this, slots0, slots1
      ensures Ran(old(Mem()), old(trace), CopyOneRun(old(Mem()), skip, va), Mem(), trace, st)
      ensures Called(failing, old(calls), old(trace), calls, trace, st)
    {
      hide Called;
      RanNothing(Mem(), trace, Ok);
      CalledNothing(failing, calls, trace);
      if MustSkip(skip, va) {
        return Ok;
      }
      var r := Read(va);
      match r {
        case NotFound => return Ok;
        case Found(d) => st := Append(va, d);
        case NoPageToRead => st := Append(va, 0);
      }
    }

    /** The loop over all variables that copies the newest value of each into the page being written, shared
        by the page transfer and by the two branches of Init that resume one. */
    method CopyVariables(skip: Skip) returns (st: Status)
      requires Valid()
      modifies this, slots0, slots1
      ensures Ran(old(Mem()), old(trace), CopyRun(old(Mem()), skip, 0), Mem(), trace, st)
      ensures Called(failing, old(calls), old(trace), calls, trace, st)
    {
      hide Ran, Copied, Called;
      ghost var m0, t0, c0, done := Mem(), trace, calls, NOTHING;
      CalledNothing(failing, c0, t0);
      CopyBegin(m0, t0, skip);
      var va := 0;
      while va < NB_OF_VAR
        invariant 0 <= va <= NB_OF_VAR
        invariant Copied(m0, t0, skip, va, done, Mem(), trace) 
                  && Called(failing, c0, t0, calls, trace, Ok)
      {
        ghost var m1, t1, c1 := Mem(), trace, calls;
        st := CopyOne(skip, va);
        CalledThen(failing, c0, t0, c1, t1, calls, trace, st);
        CopyTurn(m0, t0, skip, va, done, m1, t1, Mem(), trace, st);
        if st != Ok {
          return;
        }
        done := done.Then(CopyOneRun(m1, skip, va));
        va := va + 1;
      }
      CopyEnd(m0, t0, skip, done, Mem(), trace);
      return Ok;
    }

    method Transfer(va: Half, d: Half) returns (st: Status)
      requires Valid() && va < NB_OF_VAR
      modifies this, slots0, slots1
      ensures Ran(old(Mem()), old(trace), TransferRun(old(Mem()), va, d), Mem(), trace, st)
      ensures Called(failing, old(calls), old(trace), calls, trace, st)
    {
      hide Called;
      ghost var m0, t0, c0 := Mem(), trace, calls;
      CalledNothing(failing, c0, t0);
      ghost var all := TransferRun(m0, va, d);
      RanNothing(m0, t0, Ok);
      var page := FindValid(ReadFrom);
      if page.None? {
        RanNothing(m0, t0, NoValidPage);
        return NoValidPage;
      }
      var p, q := page.value, page.value.Other();

      var mark := ProgramHeader(q, RECEIVE_DATA);
      ghost var step1 := Outcome([mark], Ok);
      ghost var first := AppendRun(Apply(m0, [mark]), va, d);
      ghost var tail := TransferTail(Apply(Apply(m0, [mark]), first.ops), p, va);
      assert all == NOTHING.Then(step1.Then(first.Then(tail)));
      st := HalProgram(mark);
      ghost var m1, t1, c1 := Mem(), trace, calls;
      RanOne(m0, t0, mark, st, m1, t1);
      RanStep(m0, t0, all, NOTHING, m0, t0, step1, first.Then(tail), m1, t1, st);
      if st != Ok {
        return;
      }

      st := Append(va, d);
      ghost var m2, t2, c2 := Mem(), trace, calls;
      CalledThen(failing, c0, t0, c1, t1, c2, t2, st);
      RanStep(m0, t0, all, NOTHING.Then(step1), m1, t1, first, tail, m2, t2, st);
      if st != Ok {
        return;
      }

      st := TransferEnd(p, va);
      CalledThen(failing, c0, t0, c2, t2, calls, trace, st);
      ghost var done := NOTHING.Then(step1).Then(first);
      RanThen(m0, t0, done, m2, t2, tail, Mem(), trace, st);
    }

    /** The end of Transfer: copy the other variables, erase the old page, mark the new one valid. */
    method TransferEnd(p: PageId, va: Half) returns (st: Status)
      requires Valid() && va < NB_OF_VAR
      modifies this, slots0, slots1
      ensures Ran(old(Mem()), old(trace), TransferTail(old(Mem()), p, va), Mem(), trace, st)
      ensures Called(failing, old(calls), old(trace), calls, trace, st)
    {
      hide Called;
      ghost var m0, t0, c0 := Mem(), trace, calls;
      ghost var copy := CopyRun(m0, Variable(va), 0);
      var erase, mark := ErasePage(p), ProgramHeader(p.Other(), VALID_PAGE);
      ghost var stepE, stepM := Outcome([erase], Ok), Outcome([mark], Ok);
      assert stepE.Then(stepM).ops == [erase, mark];
      assert TransferTail(m0, p, va) == NOTHING.Then(copy.Then(stepE.Then(stepM)));
      RanNothing(m0, t0, Ok);

      st := CopyVariables(Variable(va));
      ghost var m1, t1, c1 := Mem(), trace, calls;
      RanStep(m0, t0, TransferTail(m0, p, va), NOTHING, m0, t0, copy, stepE.Then(stepM), m1, t1, st);
      if st != Ok {
        return;
      }

      st := HalErase(p);
      ghost var m2, t2, c2 := Mem(), trace, calls;
      CalledThen(failing, c0, t0, c1, t1, c2, t2, st);
      RanOne(m1, t1, erase, st, m2, t2);
      RanStep(m0, t0, TransferTail(m0, p, va), NOTHING.Then(copy), m1, t1, stepE, stepM, m2, t2, st);
      if st != Ok {
        return;
      }

      st := HalProgram(mark);
      CalledThen(failing, c0, t0, c2, t2, calls, trace, st);
      RanOne(m2, t2, mark, st, Mem(), trace);
      RanThen(m0, t0, NOTHING.Then(copy).Then(stepE), m2, t2, stepM, Mem(), trace, st);
    }

    method Write(va: Half, d: Half) returns (st: Status)
      requires Valid() && va < NB_OF_VAR
      modifies this, slots0, slots1
      ensures Ran(old(Mem()), old(trace), WriteRun(old(Mem()), va, d), Mem(), trace, st)
      ensures Called(failing, old(calls), old(trace), calls, trace, st)
    {
      ghost var m0, t0 := Mem(), trace;
      st := Append(va, d);
      if st == PageFull {
        assert AppendRun(m0, va, d) == Outcome([], PageFull);
        assert Mem() == m0 && trace == t0;
        st := Transfer(va, d);
      }
    }

    // ----- Initialising -----

    method EraseUnlessErased(p: PageId) returns (st: Status)
      requires Valid()
      modifies this, slots0, slots1
      ensures Ran(old(Mem()), old(trace), EraseIfNeeded(old(Mem()), p), Mem(), trace, st)
      ensures Called(failing, old(calls), old(trace), calls, trace, st)
    {
      hide Called;
      ghost var m0, t0 := Mem(), trace;
      CalledNothing(failing, calls, t0);
      RanNothing(m0, t0, Ok);
      st := Ok;
      var erased := IsFullyErased(p);
      if !erased {
        st := HalErase(p);
        RanOne(m0, t0, ErasePage(p), st, Mem(), trace);
      }
    }

    method MarkValid(p: PageId) returns (st: Status)
      requires Valid()
      modifies this, slots0, slots1
      ensures Ran(old(Mem()), old(trace), Mark(p), Mem(), trace, st)
      ensures Called(failing, old(calls), old(trace), calls, trace, st)
    {
      ghost var m0, t0 := Mem(), trace;
      st := HalProgram(ProgramHeader(p, VALID_PAGE));
      RanOne(m0, t0, ProgramHeader(p, VALID_PAGE), st, Mem(), trace);
    }

    method EraseAndMark(p: PageId) returns (st: Status)
      requires Valid()
      modifies this, slots0, slots1
      ensures Ran(old(Mem()), old(trace), EraseIfNeeded(old(Mem()), p).Then(Mark(p.Other())), Mem(), trace, st)
      ensures Called(failing, old(calls), old(trace), calls, trace, st)
    {
      hide Called;
      ghost var m0, t0, c0 := Mem(), trace, calls;
      st := EraseUnlessErased(p);
      ghost var m1, t1, c1 := Mem(), trace, calls;
      if st != Ok {
        RanStop(m0, t0, EraseIfNeeded(m0, p), Mark(p.Other()), m1, t1, st);
        return;
      }
      st := MarkValid(p.Other());
      CalledThen(failing, c0, t0, c1, t1, calls, trace, st);
      RanThen(m0, t0, EraseIfNeeded(m0, p), m1, t1, Mark(p.Other()), Mem(), trace, st);
    }

    method Format() returns (st: Status)
      requires Valid()
      modifies this, slots0, slots1
      ensures Ran(old(Mem()), old(trace), FormatRun(old(Mem())), Mem(), trace, st)
      ensures Called(failing, old(calls), old(trace), calls, trace, st)
    {
      hide Called;
      ghost var m0, t0, c0 := Mem(), trace, calls;
      ghost var e0, e1 := EraseIfNeeded(m0, Page0), EraseIfNeeded(m0, Page1);
      st := EraseUnlessErased(Page0);
      ghost var m1, t1, c1 := Mem(), trace, calls;
      if st != Ok {
        RanStop(m0, t0, e0, Mark(Page0), m1, t1, st);
        RanStop(m0, t0, e0.Then(Mark(Page0)), e1, m1, t1, st);
        return;
      }
      st := MarkValid(Page0);
      ghost var m2, t2, c2 := Mem(), trace, calls;
      CalledThen(failing, c0, t0, c1, t1, c2, t2, st);
      RanThen(m0, t0, e0, m1, t1, Mark(Page0), m2, t2, st);
      if st != Ok {
        RanStop(m0, t0, e0.Then(Mark(Page0)), e1, m2, t2, st);
        return;
      }
      FormatFirst(m0);
      st := EraseUnlessErased(Page1);
      CalledThen(failing, c0, t0, c2, t2, calls, trace, st);
      RanThen(m0, t0, e0.Then(Mark(Page0)), m2, t2, e1, Mem(), trace, st);
    }

    /** The branches of Init that resume a transfer out of page p. */
    method Resume(p: PageId) returns (st: Status)
      requires Valid()
      modifies this, slots0, slots1
      ensures Ran(old(Mem()), old(trace), ResumeRun(old(Mem()), p), Mem(), trace, st)
      ensures Called(failing, old(calls), old(trace), calls, trace, st)
    {
      hide Called;
      ghost var m0, t0, c0 := Mem(), trace, calls;
      ghost var copy := CopyRun(m0, FirstSlotOf(p.Other()), 0);
      ghost var marked := copy.Then(Mark(p.Other()));
      ghost var e := EraseIfNeeded(Apply(m0, marked.ops), p);
      assert ResumeRun(m0, p) == marked.Then(e);
      hide Ran, CopyRun, Mark, EraseIfNeeded, Apply, ResumeRun;
      st := CopyVariables(FirstSlotOf(p.Other()));
      ghost var m1, t1, c1 := Mem(), trace, calls;
      if st != Ok {
        RanStop(m0, t0, copy, Mark(p.Other()), m1, t1, st);
        RanStop(m0, t0, marked, e, m1, t1, st);
        return;
      }
      st := MarkValid(p.Other());
      ghost var m2, t2, c2 := Mem(), trace, calls;
      CalledThen(failing, c0, t0, c1, t1, c2, t2, st);
      RanThen(m0, t0, copy, m1, t1, Mark(p.Other()), m2, t2, st);
      if st != Ok {
        RanStop(m0, t0, marked, e, m2, t2, st);
        return;
      }
      RanAll(m0, t0, marked, m2, t2);
      st := EraseUnlessErased(p);
      CalledThen(failing, c0, t0, c2, t2, calls, trace, st);
      RanThen(m0, t0, marked, m2, t2, e, Mem(), trace, st);
    }

    /** Brings the pages to a known good state after power-up. */
    method Init() returns (st: Status)
      requires Valid()
      modifies this, slots0, slots1
      ensures Ran(old(Mem()), old(trace), InitRun(old(Mem())), Mem(), trace, st)
      ensures Called(failing, old(calls), old(trace), calls, trace, st)
    {
      if header0 == ERASED {
        if header1 == VALID_PAGE {
          st := EraseUnlessErased(Page0);
        } else if header1 == RECEIVE_DATA {
          st := EraseAndMark(Page0);
        } else {
          st := Format();
        }
      } else if header0 == RECEIVE_DATA {
        if header1 == VALID_PAGE {
          st := Resume(Page1);
        } else if header1 == ERASED {
          st := EraseAndMark(Page1);
        } else {
          st := Format();
        }
      } else if header0 == VALID_PAGE {
        if header1 == VALID_PAGE {
          st := Format();
        } else if header1 == ERASED {
          st := EraseUnlessErased(Page1);
        } else {
          st := Resume(Page0);
        }
      } else {
        st := Format();
      }
    }
  }
}
