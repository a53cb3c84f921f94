/**
 Whole lives of the store: any number of writes and recoveries, for any number of slots a page that holds all
 variables, and power losses at any point of any of them.
 */
module StoreRuns {
  import opened Flash
  import opened SlotLog
  import opened Store
  import opened StoreSteps
  import opened WriteSafety
  import opened Recovery
  import opened SourcePage
  import opened PowerLoss

  // ----- Any run -----

  /** What can happen to the store: a write or an EE_Init, completed, or cut by a power loss after k operations. */
  datatype Event =
    | Write(va: Half, d: Half)
    | WriteCut(va: Half, d: Half, k: nat)
    | Init
    | InitCut(k: nat)

  /** The flash, and how many recoveries in a row have not been completed. */
  datatype World = World(m: Memory, cuts: nat)

  function RunOf(m: Memory, e: Event): Outcome {
    match e
    case Write(va, d) => WriteRun(m, va, d)
    case WriteCut(va, d, _) => WriteRun(m, va, d)
    case Init => InitRun(m)
    case InitCut(_) => InitRun(m)
  }

  /** Writes are issued to an initialised store; everything else can happen at any time. */
  predicate Legal(w: World, e: Event) {
    match e
    case Write(va, _) => va < NB_OF_VAR && PhaseOf(w.m).Stable?
    case WriteCut(va, d, k) => va < NB_OF_VAR && PhaseOf(w.m).Stable? && k <= |RunOf(w.m, e).ops|
    case Init => true
    case InitCut(k) => k <= |RunOf(w.m, e).ops|
  }

  function Next(w: World, e: Event): World
    requires Legal(w, e)
  {
    var r := RunOf(w.m, e);
    match e
    case Write(_, _) => World(Apply(w.m, r.ops), 0)
    case WriteCut(_, _, k) => World(After(w.m, r.ops, k), 0)
    case Init => World(Apply(w.m, r.ops), if r.status == Ok then 0 else w.cuts + 1)
    case InitCut(k) => World(After(w.m, r.ops, k), w.cuts + 1)
  }

  predicate LegalRun(w: World, es: seq<Event>)
    decreases |es|
  {
    es == [] || (Legal(w, es[0]) && LegalRun(Next(w, es[0]), es[1..]))
  }

  function Final(w: World, es: seq<Event>): World
    requires LegalRun(w, es)
    decreases |es|
  {
    if es == [] then w else Final(Next(w, es[0]), es[1..])
  }

  // ----- What the store holds in a run -----

  /** The reference: plain maps. The store holds variables, and remembers those from before the last write; or a cut
      recovery has left it to be formatted, and then this is left in page 1. */
  datatype Content =
    | Holding(vs: Vars, before: Vars)
    | Formatting(left: Vars)

  /** The content after one event. A cut write counts from its commit point on. A recovery changes nothing, unless it is
      cut at the double point; after that, only a format cut right after its first operation brings page 1 back. */
  function Follow(m: Memory, c: Content, e: Event): Content {
    match c
    case Holding(vs, before) => (
      match e
      case Write(va, d) => Holding(vs[va := d], vs)
      case WriteCut(va, d, k) =>
        Holding(if PhaseOf(m).Stable? && k >= CommitPoint(m, PhaseOf(m).valid) then vs[va := d] else vs, vs)
      case Init => c
      case InitCut(k) =>
        if AtDoublePoint(m, k) then Formatting(if PhaseOf(m).from == Page0 then vs else before) else c
    )
    case Formatting(left) => (
      match e
      case InitCut(k) => if k == 1 then Holding(left, left) else if k == 3 then Holding(map[], map[]) else c
      case _ => Holding(map[], map[])
    )
  }

  function ContentAfter(w: World, c: Content, es: seq<Event>): Content
    requires LegalRun(w, es)
    decreases |es|
  {
    if es == [] then c else ContentAfter(Next(w, es[0]), Follow(w.m, c, es[0]), es[1..])
  }

  /** The invariant of every run. */
  predicate Fit(w: World, n: nat, c: Content) {
    match c
    case Holding(vs, before) =>
      && Worth(w.m, n, vs, NB_OF_VAR * (w.cuts + 1))
      && SourceHolds(w.m, before)
      && forall v :: v in vs ==> 0 <= v < NB_OF_VAR
    case Formatting(left) =>
      && w.m.Sized(n) && Sound(w.m) && PhaseOf(w.m) == Doubled
      && Replay(w.m.page1.slots) == left
  }

  /** What is promised of one event: its operations are disciplined, a completed write succeeds, and EE_Init succeeds
      exactly if the receiving page has room, which is sure for 256 * (j + 2) slots after j recoveries in a row
      that have not been completed. */
  predicate Serves(w: World, n: nat, e: Event) {
    var r := RunOf(w.m, e);
    && Disciplined(w.m, r.ops)
    && (e.Write? ==> r.status == Ok)
    && (e.Init? ==> (r.status == Ok <==> RecoveryNeeds(w.m) <= n))
    && (e.Init? && NB_OF_VAR * (w.cuts + 2) <= n ==> r.status == Ok)
  }

  predicate Served(w: World, n: nat, es: seq<Event>)
    requires LegalRun(w, es)
    decreases |es|
  {
    es == [] || (Serves(w, n, es[0]) && Served(Next(w, es[0]), n, es[1..]))
  }

  lemma WriteStep(m: Memory, n: nat, vs: Vars, va: Half, d: Half)
    requires NB_OF_VAR <= n && PhaseOf(m).Stable? && va < NB_OF_VAR
    requires StableAt(m, PhaseOf(m).valid, n, vs)
    ensures var r := WriteRun(m, va, d); var m' := Apply(m, r.ops);
            && r.status == Ok && Disciplined(m, r.ops)
            && PhaseOf(m').Stable? && StableAt(m', PhaseOf(m').valid, n, vs[va := d]) && Worth(m', n, vs[va := d], 0)
  {
    var p := PhaseOf(m).valid;
    StableParts(m, p, n, vs);
    LiveBound(vs, va);
    hide *;
    WriteCompletes(m, p, n, vs, va, d);
    WriteDisciplined(m, p, n, vs, va, d);
    var m' := Apply(m, WriteRun(m, va, d).ops);
    if Full(m, p) {
      StablePhase(m', p.Other(), n, vs[va := d]);
    } else {
      StablePhase(m', p, n, vs[va := d]);
    }
  }

  lemma StablePhase(m: Memory, p: PageId, n: nat, vs: Vars)
    requires StableAt(m, p, n, vs)
    ensures PhaseOf(m) == Stable(p) && Worth(m, n, vs, 0)
  {
  }

  lemma WriteCutStep(m: Memory, n: nat, vs: Vars, va: Half, d: Half, k: nat)
    requires NB_OF_VAR <= n && PhaseOf(m).Stable? && va < NB_OF_VAR
    requires StableAt(m, PhaseOf(m).valid, n, vs)
    requires k <= |WriteRun(m, va, d).ops|
    ensures var r := WriteRun(m, va, d); var c := After(m, r.ops, k);
            && Disciplined(m, r.ops)
            && Worth(c, n, if k >= CommitPoint(m, PhaseOf(m).valid) then vs[va := d] else vs, NB_OF_VAR)
            && SourceHolds(c, vs)
  {
    hide WriteRun, StableAt, After, Worth, SourceHolds, Disciplined, Live, CommitPoint;
    var p := PhaseOf(m).valid;
    StableParts(m, p, n, vs);
    LiveBound(vs, va);
    WriteCrash(m, p, n, vs, va, d, k);
    WriteDisciplined(m, p, n, vs, va, d);
    WriteSource(m, p, n, vs, va, d, k);
    WorthMore(After(m, WriteRun(m, va, d).ops, k), n,
              if k >= CommitPoint(m, p) then vs[va := d] else vs, Live(vs, va), NB_OF_VAR);
  }

  /** A recovery of a store that holds variables, completed or cut after k operations. */
  lemma InitStep(m: Memory, n: nat, vs: Vars, before: Vars, used: nat, k: nat)
    requires Worth(m, n, vs, used) && SourceHolds(m, before) && k <= |InitRun(m).ops|
    ensures InitRun(m).status == Ok <==> RecoveryNeeds(m) <= n
    ensures used + NB_OF_VAR <= n ==> InitRun(m).status == Ok
    ensures InitRun(m).status == Ok ==> Worth(Apply(m, InitRun(m).ops), n, vs, 0)
    ensures InitRun(m).status == Ok ==> SourceHolds(Apply(m, InitRun(m).ops), before)
    ensures var c := After(m, InitRun(m).ops, k);
            if AtDoublePoint(m, k) then
              c.Sized(n) && Sound(c) && PhaseOf(c) == Doubled
              && Replay(c.page1.slots) == if PhaseOf(m).from == Page0 then vs else before
            else Worth(c, n, vs, used + NB_OF_VAR) && SourceHolds(c, before)
  {
    hide InitRun, Apply, After, Sound, Meaning, RecoveryNeeds, ReceiverUsed, Replay;
    NeedsBound(m);
    var p := InitCompletes(m, n);
    if InitRun(m).status == Ok {
      StableWorth(Apply(m, InitRun(m).ops), p, n, vs, 0);
      StableSource(Apply(m, InitRun(m).ops), p, n, vs);
    }
    InitCrash(m, n, k);
    if AtDoublePoint(m, k) {
      var from := PhaseOf(m).from;
      MeaningReceiving(m, from, n);
      DoublePointSides(m, from, n, before, m.At(from.Other()).slots, k);
    } else {
      InitSource(m, n, before, k);
      WorthMore(After(m, InitRun(m).ops, k), n, vs, RecoveryNeeds(m), used + NB_OF_VAR);
    }
  }

  lemma MeaningReceiving(m: Memory, p: PageId, n: nat)
    requires m.Sized(n) && Sound(m) && PhaseOf(m) == Receiving(p)
    ensures var before, s := Replay(m.At(p).slots), m.At(p.Other()).slots;
            ReceivingAt(m, p, n, before, s) && Meaning(m) == Overridden(before, s)
  {
    hide Sound, Replay;
  }

  lemma HoldingStep(w: World, n: nat, vs: Vars, before: Vars, e: Event)
    requires NB_OF_VAR <= n && Fit(w, n, Holding(vs, before)) && Legal(w, e)
    ensures Fit(Next(w, e), n, Follow(w.m, Holding(vs, before), e)) && Serves(w, n, e)
  {
    hide WriteRun, InitRun, Apply, After, Worth, SourceHolds, Disciplined, RecoveryNeeds, AtDoublePoint, CommitPoint;
    InitDisciplined(w.m, n, vs, NB_OF_VAR * (w.cuts + 1));
    match e
    case Write(va, d) =>
      StableWorthAt(w.m, n, vs, NB_OF_VAR * (w.cuts + 1));
      WriteStep(w.m, n, vs, va, d);
      StableSource(Apply(w.m, WriteRun(w.m, va, d).ops), PhaseOf(Apply(w.m, WriteRun(w.m, va, d).ops)).valid, n,
                   vs[va := d]);
      WorthMore(Apply(w.m, WriteRun(w.m, va, d).ops), n, vs[va := d], 0, NB_OF_VAR);
    case WriteCut(va, d, k) =>
      StableWorthAt(w.m, n, vs, NB_OF_VAR * (w.cuts + 1));
      WriteCutStep(w.m, n, vs, va, d, k);
    case Init =>
      InitStep(w.m, n, vs, before, NB_OF_VAR * (w.cuts + 1), |InitRun(w.m).ops|);
      NotDoubleAtEnd(w.m);
      ApplyIs(w.m, InitRun(w.m).ops);
      if InitRun(w.m).status == Ok {
        WorthMore(Apply(w.m, InitRun(w.m).ops), n, vs, 0, NB_OF_VAR);
      }
    case InitCut(k) =>
      InitStep(w.m, n, vs, before, NB_OF_VAR * (w.cuts + 1), k);
  }

  lemma InitDisciplined(m: Memory, n: nat, vs: Vars, used: nat)
    requires Worth(m, n, vs, used)
    ensures Disciplined(m, InitRun(m).ops)
  {
    hide InitRun, Disciplined, Normal, Apply, Meaning, ReceiverUsed;
    InitNormalises(m);
  }

  lemma StableWorthAt(m: Memory, n: nat, vs: Vars, used: nat)
    requires Worth(m, n, vs, used) && PhaseOf(m).Stable?
    ensures StableAt(m, PhaseOf(m).valid, n, vs)
  {
    hide Sound, Meaning, ReceiverUsed;
  }

  lemma NotDoubleAtEnd(m: Memory)
    ensures !AtDoublePoint(m, |InitRun(m).ops|)
  {
    hide InitRun, RecoveryNeeds;
  }

  lemma FormattingStep(w: World, n: nat, left: Vars, e: Event)
    requires NB_OF_VAR <= n && Fit(w, n, Formatting(left)) && Legal(w, e)
    ensures Fit(Next(w, e), n, Follow(w.m, Formatting(left), e)) && Serves(w, n, e)
  {
    hide WriteRun, InitRun, Apply, After, Disciplined, Sound, Replay;
    InitNormalises(w.m);
    DoubledInit(w.m, n, 3);
    match e
    case Init =>
      StableFit(Next(w, e), Page0, n, map[]);
    case InitCut(k) =>
      DoubledInit(w.m, n, k);
      if k == 1 {
        StableFit(Next(w, e), Page1, n, left);
      } else if k == 3 {
        StableFit(Next(w, e), Page0, n, map[]);
      }
  }

  lemma StableFit(w: World, p: PageId, n: nat, vs: Vars)
    requires StableAt(w.m, p, n, vs)
    ensures Fit(w, n, Holding(vs, vs))
  {
    hide SourceHolds, Worth;
    StableParts(w.m, p, n, vs);
    StableWorth(w.m, p, n, vs, NB_OF_VAR * (w.cuts + 1));
    StableSource(w.m, p, n, vs);
  }

  lemma StepKeepsFit(w: World, n: nat, c: Content, e: Event)
    requires NB_OF_VAR <= n && Fit(w, n, c) && Legal(w, e)
    ensures Fit(Next(w, e), n, Follow(w.m, c, e)) && Serves(w, n, e)
  {
    hide *;
    match c
    case Holding(vs, before) => HoldingStep(w, n, vs, before, e);
    case Formatting(left) => FormattingStep(w, n, left, e);
  }

  /** Safety over every run, however long and wherever the power fails: every completed write succeeds, every completed
      recovery succeeds exactly if it has room, every flash operation is disciplined, and the store holds exactly
      what the reference says. */
  lemma {:induction false} RunIsSafe(w: World, n: nat, c: Content, es: seq<Event>)
    requires NB_OF_VAR <= n && Fit(w, n, c) && LegalRun(w, es)
    ensures Fit(Final(w, es), n, ContentAfter(w, c, es)) && Served(w, n, es)
    decreases |es|
  {
    hide Fit, Legal, Next, Follow, Serves;
    if es != [] {
      StepKeepsFit(w, n, c, es[0]);
      RunIsSafe(Next(w, es[0]), n, Follow(w.m, c, es[0]), es[1..]);
    }
  }

  // ----- What the reference promises -----

  /** No recovery of the run is cut at the double point. */
  predicate AvoidsDoublePoint(w: World, es: seq<Event>)
    requires LegalRun(w, es)
    decreases |es|
  {
    es == [] || ((es[0].InitCut? ==> !AtDoublePoint(w.m, es[0].k)) && AvoidsDoublePoint(Next(w, es[0]), es[1..]))
  }

  /** A plain map of variables: a completed write updates it; a write cut short may have updated it or not; recovery,
      completed or not, leaves it alone. */
  predicate Possible(before: Vars, es: seq<Event>, after: Vars)
    decreases |es|
  {
    if es == [] then after == before
    else
      match es[0]
      case Write(va, d) => Possible(before[va := d], es[1..], after)
      case WriteCut(va, d, _) => Possible(before, es[1..], after) || Possible(before[va := d], es[1..], after)
      case _ => Possible(before, es[1..], after)
  }

  /** A run that avoids the double point loses nothing. */
  lemma {:induction false} NothingLost(w: World, vs: Vars, before: Vars, es: seq<Event>)
    requires LegalRun(w, es) && AvoidsDoublePoint(w, es)
    ensures var c := ContentAfter(w, Holding(vs, before), es); c.Holding? && Possible(vs, es, c.vs)
    decreases |es|
  {
    hide Legal, Next, AtDoublePoint, CommitPoint;
    if es != [] {
      var c := Follow(w.m, Holding(vs, before), es[0]);
      NothingLost(Next(w, es[0]), c.vs, c.before, es[1..]);
    }
  }

  /** Somewhere in the content, va has value d. */
  predicate Knows(c: Content, va: int, d: Half) {
    match c
    case Holding(vs, before) => Lookup(vs, va) == Some(d) || Lookup(before, va) == Some(d)
    case Formatting(left) => Lookup(left, va) == Some(d)
  }

  predicate Wrote(e: Event, va: int, d: Half) {
    (e.Write? || e.WriteCut?) && e.va == va && e.d == d
  }

  /** Whatever happens, nothing is invented: every value in the end was there in the beginning or has been written. */
  lemma {:induction false} NothingInvented(w: World, c: Content, es: seq<Event>, va: int, d: Half)
    requires LegalRun(w, es) && Knows(ContentAfter(w, c, es), va, d)
    ensures Knows(c, va, d) || exists i :: 0 <= i < |es| && Wrote(es[i], va, d)
    decreases |es|
  {
    hide Legal, Next, AtDoublePoint, CommitPoint;
    if es != [] {
      var next := Follow(w.m, c, es[0]);
      NothingInvented(Next(w, es[0]), next, es[1..], va, d);
      if Knows(next, va, d) {
        assert Knows(c, va, d) || Wrote(es[0], va, d);
      } else {
        var i :| 0 <= i < |es| - 1 && Wrote(es[1..][i], va, d);
        assert Wrote(es[i + 1], va, d);
      }
    }
  }

  /** What reading finds once the next EE_Init has completed. */
  function Readable(c: Content): Vars {
    match c
    case Holding(vs, _) => vs
    case Formatting(_) => map[]
  }

  /** From a blank chip to a working store: after any run, one more EE_Init succeeds exactly if it has room, and reading
      then finds exactly what the reference holds; without a cut at the double point that is a possible outcome
      of the run over a plain map. */
  lemma LifeOfAStore(m: Memory, n: nat, es: seq<Event>)
    requires NB_OF_VAR <= n && m.Sized(n) && Sound(m) && PhaseOf(m) == Blank && LegalRun(World(m, 0), es)
    ensures var w := World(m, 0); var f := Final(w, es).m; var c := ContentAfter(w, Holding(map[], map[]), es);
            && Served(w, n, es)
            && (InitRun(f).status == Ok <==> RecoveryNeeds(f) <= n)
            && (InitRun(f).status == Ok ==> ReadsAs(Apply(f, InitRun(f).ops), Readable(c)))
            && (AvoidsDoublePoint(w, es) ==> Possible(map[], es, Readable(c)))
  {
    hide InitRun, ReadsAs, RecoveryNeeds, Served, Next, Legal, LegalRun, Apply, Possible, AvoidsDoublePoint;
    var w := World(m, 0);
    var c0 := Holding(map[], map[]);
    BlankFits(m, n);
    RunIsSafe(w, n, c0, es);
    FitReads(Final(w, es), n, ContentAfter(w, c0, es));
    if AvoidsDoublePoint(w, es) {
      NothingLost(w, map[], map[], es);
    }
  }

  lemma BlankFits(m: Memory, n: nat)
    requires m.Sized(n) && Sound(m) && PhaseOf(m) == Blank
    ensures Fit(World(m, 0), n, Holding(map[], map[]))
  {
  }

  /** One more EE_Init, and reading. */
  lemma FitReads(w: World, n: nat, c: Content)
    requires Fit(w, n, c)
    ensures InitRun(w.m).status == Ok <==> RecoveryNeeds(w.m) <= n
    ensures InitRun(w.m).status == Ok ==> ReadsAs(Apply(w.m, InitRun(w.m).ops), Readable(c))
  {
    hide InitRun, ReadsAs, Apply, After, Sound, Meaning, RecoveryNeeds, ReceiverUsed, Replay, SourceHolds;
    match c
    case Holding(vs, _) =>
      var p := InitCompletes(w.m, n);
      if InitRun(w.m).status == Ok {
        StableReads(Apply(w.m, InitRun(w.m).ops), p, n, vs);
      }
    case Formatting(_) =>
      DoubledInit(w.m, n, 3);
      DoubledNeeds(w.m);
      StableReads(Apply(w.m, InitRun(w.m).ops), Page0, n, map[]);
  }

  lemma DoubledNeeds(m: Memory)
    requires PhaseOf(m) == Doubled
    ensures RecoveryNeeds(m) == 0
  {
  }

  // ----- Without room -----

  /** A store without room stays so, whatever is tried: no write is legal, every recovery fails, and nothing it holds
      changes. */
  lemma {:induction false} NoRoomForever(w: World, n: nat, es: seq<Event>)
    requires w.m.Sized(n) && Sound(w.m) && RecoveryNeeds(w.m) > n && LegalRun(w, es)
    ensures var f := Final(w, es).m;
            && f.Sized(n) && Sound(f) && Meaning(f) == Meaning(w.m)
            && RecoveryNeeds(f) >= RecoveryNeeds(w.m) && InitRun(f).status == PageFull
    ensures forall e :: e in es ==> e.Init? || e.InitCut?
    decreases |es|
  {
    hide Sound, Meaning, RecoveryNeeds, InitRun, WriteRun, After, Apply;
    if es == [] {
      NoRoomPersists(w.m, n, 0);
    } else {
      NoRoomStep(w, n, es[0]);
      NoRoomForever(Next(w, es[0]), n, es[1..]);
    }
  }

  lemma NoRoomStep(w: World, n: nat, e: Event)
    requires w.m.Sized(n) && Sound(w.m) && RecoveryNeeds(w.m) > n && Legal(w, e)
    ensures e.Init? || e.InitCut?
    ensures var c := Next(w, e).m;
            c.Sized(n) && Sound(c) && Meaning(c) == Meaning(w.m) && RecoveryNeeds(c) >= RecoveryNeeds(w.m)
  {
    hide Sound, Meaning, RecoveryNeeds, InitRun, WriteRun, After, Apply, ReceiverUsed;
    var k := if e.InitCut? then e.k else |InitRun(w.m).ops|;
    NoRoomPersists(w.m, n, 0);
    NoRoomPersists(w.m, n, k);
    ApplyIs(w.m, InitRun(w.m).ops);
    NoRoomIsNotDouble(w.m, n, k);
    InitCrash(w.m, n, k);
  }

  lemma NoRoomIsNotDouble(m: Memory, n: nat, k: nat)
    requires m.Sized(n) && RecoveryNeeds(m) > n
    ensures !AtDoublePoint(m, k)
  {
    hide RecoveryNeeds, InitRun;
  }
}
