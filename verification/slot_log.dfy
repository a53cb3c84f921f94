/**
 A page as a log. Entries are appended in the first free slot; the newest entry of a variable is its
 value. This module relates the two scans of the emulation (forwards for a free slot, backwards for
 the newest entry) to the map that a forward replay of the log builds.
 */
module SlotLog {
  import opened Flash

  datatype Option<+T> = None | Some(value: T)

  type Vars = map<int, Half>

  /** The forward scan from slot i for a free slot; the number of slots when there is none. */
  function FirstFreeFrom(s: seq<Slot>, i: nat): (n: nat)
    requires i <= |s|
    ensures i <= n <= |s|
    ensures forall j :: i <= j < n ==> !s[j].Free()
    ensures n < |s| ==> s[n].Free()
    decreases |s| - i
  {
    if i == |s| || s[i].Free() then i else FirstFreeFrom(s, i + 1)
  }

  function FirstFree(s: seq<Slot>): (n: nat)
    ensures n <= |s|
    ensures forall j :: 0 <= j < n ==> !s[j].Free()
    ensures n < |s| ==> s[n].Free()
  {
    FirstFreeFrom(s, 0)
  }

  /** The backward scan below slot n for the last slot that carries va. */
  function NewestBelow(s: seq<Slot>, va: int, n: nat): Option<Half>
    requires n <= |s|
  {
    if n == 0 then None
    else if s[n - 1].va == va then Some(s[n - 1].data)
    else NewestBelow(s, va, n - 1)
  }

  function Newest(s: seq<Slot>, va: int): Option<Half> {
    NewestBelow(s, va, |s|)
  }

  /** The variables in the first n slots: the entries replayed from the front, a later one overwriting an
      earlier one. Slots that carry no variable are passed over. */
  function ReplayTo(s: seq<Slot>, n: nat): (m: Vars)
    requires n <= |s|
    ensures forall va :: va in m ==> 0 <= va < NB_OF_VAR
  {
    if n == 0 then map[]
    else
      var m := ReplayTo(s, n - 1);
      var last := s[n - 1];
      if last.Complete() then m[last.va := last.data] else m
  }

  /** The variables a page holds. */
  function Replay(s: seq<Slot>): (m: Vars)
    ensures forall va :: va in m ==> 0 <= va < NB_OF_VAR
  {
    ReplayTo(s, |s|)
  }

  function Lookup(m: Vars, va: int): Option<Half> {
    if va in m then Some(m[va]) else None
  }

  lemma {:induction false} NewestBelowIsReplay(s: seq<Slot>, va: int, n: nat)
    requires va < NB_OF_VAR && n <= |s|
    ensures NewestBelow(s, va, n) == Lookup(ReplayTo(s, n), va)
  {
    if n > 0 {
      NewestBelowIsReplay(s, va, n - 1);
    }
  }

  /** The backward scan for the newest entry agrees with the forward replay. */
  lemma NewestIsReplay(s: seq<Slot>, va: int)
    requires va < NB_OF_VAR
    ensures Newest(s, va) == Lookup(Replay(s), va)
  {
    NewestBelowIsReplay(s, va, |s|);
  }

  /** The used slots form a prefix, and each of them is a complete entry or a torn one, whose
      virtual address was never programmed. */
  predicate Tidy(s: seq<Slot>) {
    && (forall i :: FirstFree(s) <= i < |s| ==> s[i].Free())
    && (forall i :: 0 <= i < |s| ==> s[i].Complete() || s[i].va == ERASED)
  }

  predicate AllFree(s: seq<Slot>) {
    forall i :: 0 <= i < |s| ==> s[i].Free()
  }

  /** Being tidy with n used slots, seen slot by slot. */
  lemma TidyAt(s: seq<Slot>, n: nat)
    requires n <= |s|
    requires forall i :: 0 <= i < n ==> !s[i].Free()
    requires forall i :: n <= i < |s| ==> s[i].Free()
    requires forall i :: 0 <= i < |s| ==> s[i].Complete() || s[i].va == ERASED
    ensures Tidy(s) && FirstFree(s) == n
  {
    assert n < |s| ==> s[n].Free();
  }

  lemma {:induction false} ReplayTail(s: seq<Slot>, n: nat, k: nat)
    requires n <= k <= |s|
    requires forall i :: n <= i < |s| ==> !s[i].Complete()
    ensures ReplayTo(s, k) == ReplayTo(s, n)
    decreases k
  {
    if n < k {
      ReplayTail(s, n, k - 1);
    }
  }

  lemma {:induction false} ReplaySame(s: seq<Slot>, t: seq<Slot>, n: nat)
    requires n <= |s| && n <= |t|
    requires forall i :: 0 <= i < n ==> s[i] == t[i]
    ensures ReplayTo(s, n) == ReplayTo(t, n)
  {
    if n > 0 {
      ReplaySame(s, t, n - 1);
    }
  }

  lemma ReplayFree(s: seq<Slot>)
    requires AllFree(s)
    ensures Replay(s) == map[] && Tidy(s) && FirstFree(s) == 0
  {
    ReplayTail(s, 0, |s|);
    TidyAt(s, 0);
  }

  /** The first half of an append: the data half-word of the first free slot is programmed. The page
      stays tidy and keeps its variables; the slot counts as used unless the data is 0xFFFF. */
  lemma AppendTorn(s: seq<Slot>, d: Half)
    requires Tidy(s) && FirstFree(s) < |s|
    ensures var k := FirstFree(s); var t := s[k := Slot(d, ERASED)];
            && Tidy(t) && Replay(t) == Replay(s)
            && FirstFree(t) == if d == ERASED then k else k + 1
  {
    var k := FirstFree(s);
    var t := s[k := Slot(d, ERASED)];
    ReplayTail(s, k, |s|);
    ReplayTail(t, k, |t|);
    ReplaySame(s, t, k);
    TidyAt(t, if d == ERASED then k else k + 1);
  }

  /** The whole append: the variable has its new value and nothing else changes. */
  lemma AppendComplete(s: seq<Slot>, va: Half, d: Half)
    requires Tidy(s) && FirstFree(s) < |s|
    requires va < NB_OF_VAR
    ensures var k := FirstFree(s); var t := s[k := Slot(d, va)];
            Tidy(t) && Replay(t) == Replay(s)[va := d] && FirstFree(t) == k + 1
  {
    var k := FirstFree(s);
    var t := s[k := Slot(d, va)];
    ReplayTail(s, k, |s|);
    ReplayTail(t, k + 1, |t|);
    ReplaySame(s, t, k);
    TidyAt(t, k + 1);
  }
}
