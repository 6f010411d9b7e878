/**
  The exception queue of va_tr/kvm/x86.c outside guest mode: one slot that is empty, pending
  (to be injected on the next entry) or injected, and a second arrival that replaces,
  merges to a double fault, or shuts the machine down.

  Masks of the debug register and the answers of the vendor hooks are parameters.
 */
module ExceptionQueue {

  const DE: nat := 0
  const DB: nat := 1
  const NMI: nat := 2
  const BP: nat := 3
  const OF: nat := 4
  const DF: nat := 8
  const TS: nat := 10
  const NP: nat := 11
  const SS: nat := 12
  const GP: nat := 13
  const PF: nat := 14
  const MC: nat := 18

  const RF: bv64 := 0x10000
  const GD: bv64 := 0x2000
  const BIT12: bv64 := 0x1000
  const EBUSY: int := 16

  /** What callers may queue: an exception vector. */
  type Vector = x: nat | x <= 31 && x != 2 witness 0

  /** struct kvm_queued_exception. */
  datatype Exception = Exception(
    pending: bool, injected: bool, hasError: bool, nr: nat, errorCode: nat, hasPayload: bool, payload: bv64)

  const NOTHING := Exception(false, false, false, 0, 0, false, 0)

  /** The arguments of kvm_multiple_exception. */
  datatype Arrival = Arrival(
    nr: Vector, hasError: bool, errorCode: nat, hasPayload: bool, payload: bv64, reinject: bool)

  /** The part of struct kvm_vcpu_events that concerns exceptions. */
  datatype Events = Events(
    knownFlags: bool, validPayload: bool, smmWhileInit: bool,
    pending: bool, injected: bool, hasError: bool, nr: nat, errorCode: nat, hasPayload: bool, payload: bv64)

  predicate Live(x: Exception) { x.pending || x.injected }

  // ----- what a second exception does: the manual's table of double faults

  const CONTRIBUTORY: set<nat> := {DE, TS, NP, SS, GP}

  predicate DoubleFaults(first: nat, second: nat) {
    || (first in CONTRIBUTORY && second in CONTRIBUTORY)
    || (first == PF && (second in CONTRIBUTORY || second == PF))
  }

  datatype Fate = Queued | Doubled | Shutdown

  function FateOf(x: Exception, nr: nat): Fate {
    if !Live(x) then Queued
    else if x.nr == DF then Shutdown
    else if DoubleFaults(x.nr, nr) then Doubled
    else Queued
  }

  /** The slot after an arrival; payloads are delivered at once, or dropped on reinjection. */
  function Arrive(x: Exception, a: Arrival): Exception {
    match FateOf(x, a.nr)
    case Shutdown => x
    case Doubled => Exception(true, false, true, DF, 0, false, 0)
    case Queued =>
      Exception(a.reinject ==> x.pending, a.reinject, a.hasError, a.nr, a.errorCode, false,
                if a.hasPayload then 0 else a.payload)
  }

  predicate IsVector(nr: nat) { nr <= 31 && nr != NMI }

  predicate Accepted(e: Events, payloadEnabled: bool) {
    && e.knownFlags
    && (e.validPayload ==> payloadEnabled)
    && ((if e.validPayload then e.pending || e.injected else e.injected) ==> IsVector(e.nr))
    && !e.smmWhileInit
  }

  /** Without the payload flag a pending exception cannot be expressed; with it, pending wins. */
  function Configured(e: Events): Exception {
    if e.validPayload
    then Exception(e.pending, !e.pending && e.injected, e.hasError, e.nr, e.errorCode,
                   e.pending && e.hasPayload, e.payload)
    else Exception(false, e.injected, e.hasError, e.nr, e.errorCode, false, e.payload)
  }

  /** What the vendor code is handed: outside protected mode there is no error code. */
  function Handed(x: Exception, protMode: bool): Exception {
    x.(errorCode := if protMode then x.errorCode else 0)
  }

  /** Entry hands over a live exception; a pending one becomes injected, and a debug exception gives up its payload. */
  function Entered(x: Exception, protMode: bool): Exception {
    if !Live(x) then x
    else if !x.pending then Handed(x, protMode)
    else
      var delivered := x.nr == DB && x.hasPayload;
      Handed(x.(pending := false, injected := true,
                hasPayload := x.hasPayload && !delivered, payload := if delivered then 0 else x.payload), protMode)
  }

  function Cleared(x: Exception): Exception { x.(pending := false, injected := false) }

  /**
    What an arrival leaves, by vector numbers: over a double fault nothing changes, over an exception it
    merges with a pending double fault with error code 0, otherwise the arrival itself with its payload delivered.
   */
  lemma ArrivalLeaves(x: Exception, a: Arrival)
    ensures Live(x) && x.nr == 8 ==> Arrive(x, a) == x
    ensures Live(x) && x.nr != 8 && DoubleFaults(x.nr, a.nr) ==> Arrive(x, a) == Exception(true, false, true, 8, 0, false, 0)
    ensures !Live(x) || (x.nr != 8 && !DoubleFaults(x.nr, a.nr)) ==>
      && Arrive(x, a).nr == a.nr && Arrive(x, a).hasError == a.hasError && Arrive(x, a).errorCode == a.errorCode
      && Arrive(x, a).injected == a.reinject && (!a.reinject ==> Arrive(x, a).pending)
      && !Arrive(x, a).hasPayload && (a.hasPayload ==> Arrive(x, a).payload == 0)
    ensures FateOf(x, a.nr) == Shutdown <==> Live(x) && x.nr == 8
  {
    hide DoubleFaults;
  }

  /** Which event sets are refused: by vector numbers, and what an accepted one leaves. */
  lemma AcceptedLeaves(e: Events, payloadEnabled: bool)
    requires Accepted(e, payloadEnabled)
    ensures var x := Configured(e);
      && (Live(x) ==> x.nr == e.nr && x.nr < 32 && x.nr != 2 && x.hasError == e.hasError && x.errorCode == e.errorCode)
      && (x.pending <==> e.validPayload && e.pending)
      && (x.injected <==> e.injected && !x.pending)
      && (x.hasPayload <==> x.pending && e.hasPayload) && x.payload == e.payload
  {
  }

  // ----- runs

  datatype Step = Arrives(a: Arrival) | Configures(e: Events) | Enters(protMode: bool) | Clears

  function Next(x: Exception, s: Step, payloadEnabled: bool): Exception {
    match s
    case Arrives(a) => Arrive(x, a)
    case Configures(e) => if Accepted(e, payloadEnabled) then Configured(e) else x
    case Enters(protMode) => Entered(x, protMode)
    case Clears => Cleared(x)
  }

  function After(run: seq<Step>, payloadEnabled: bool): Exception
    decreases |run|
  {
    if run == [] then NOTHING
    else Next(After(run[..|run| - 1], payloadEnabled), run[|run| - 1], payloadEnabled)
  }

  /** Reinjection happens only when nothing is pending. */
  predicate Legal(x: Exception, s: Step) { s.Arrives? && s.a.reinject ==> !x.pending }

  ghost predicate LegalRun(run: seq<Step>, payloadEnabled: bool) {
    forall k :: 0 <= k < |run| ==> Legal(After(run[..k], payloadEnabled), run[k])
  }

  /** Never both, and what is live is an exception vector. */
  predicate Inv(x: Exception) {
    !(x.pending && x.injected) && (Live(x) ==> IsVector(x.nr))
  }

  lemma StepInv(x: Exception, s: Step, payloadEnabled: bool)
    requires Inv(x) && Legal(x, s)
    ensures Inv(Next(x, s, payloadEnabled))
  {
  }

  lemma {:induction false} RunInv(run: seq<Step>, payloadEnabled: bool)
    requires LegalRun(run, payloadEnabled)
    ensures Inv(After(run, payloadEnabled))
    decreases |run|
  {
    if run != [] {
      var front := run[..|run| - 1];
      forall k | 0 <= k < |front| ensures Legal(After(front[..k], payloadEnabled), front[k]) {
        assert front[..k] == run[..k] && front[k] == run[k];
      }
      RunInv(front, payloadEnabled);
      StepInv(After(front, payloadEnabled), run[|run| - 1], payloadEnabled);
    }
  }

  /** One arrival breaks the invariant exactly when it reinjects over a pending exception it does not merge with. */
  lemma ArrivalKeepsExactly(x: Exception, a: Arrival)
    requires Inv(x)
    ensures Inv(Arrive(x, a)) <==> !(a.reinject && x.pending && FateOf(x, a.nr) == Queued)
  {
    if a.reinject && x.pending && FateOf(x, a.nr) == Queued {
      assert Arrive(x, a).pending && Arrive(x, a).injected;
    }
  }

  // ----- where double and triple faults come from

  /** The step empties or replaces the slot: a clear, or an accepted event set. */
  predicate Resets(s: Step, payloadEnabled: bool) {
    s.Clears? || (s.Configures? && Accepted(s.e, payloadEnabled))
  }

  /** The step brings an exception: an arrival, or an accepted event set with a live one. */
  predicate Brings(s: Step, payloadEnabled: bool) {
    s.Arrives? || (s.Configures? && Accepted(s.e, payloadEnabled) && Live(Configured(s.e)))
  }

  function VectorOf(s: Step): nat {
    match s
    case Arrives(a) => a.nr
    case Configures(e) => e.nr
    case _ => 0
  }

  predicate Unreset(run: seq<Step>, from: nat, payloadEnabled: bool) {
    forall m :: from <= m < |run| ==> !Resets(run[m], payloadEnabled)
  }

  /** Nothing arrives and nothing is reset from one step up to another. */
  predicate Still(run: seq<Step>, from: nat, to: nat, payloadEnabled: bool) {
    forall m :: from <= m < to && m < |run| ==> !run[m].Arrives? && !Resets(run[m], payloadEnabled)
  }

  /** The exception of step i is the last one brought and has not been reset. */
  predicate Latest(run: seq<Step>, i: nat, payloadEnabled: bool) {
    i < |run| && Brings(run[i], payloadEnabled) && Still(run, i + 1, |run|, payloadEnabled)
  }

  /** Step j is an arrival right after the exception of step i, and the two merge. */
  predicate Merges(run: seq<Step>, i: nat, j: nat, payloadEnabled: bool) {
    && i < j < |run| && Brings(run[i], payloadEnabled) && run[j].Arrives?
    && Still(run, i + 1, j, payloadEnabled) && DoubleFaults(VectorOf(run[i]), run[j].a.nr)
  }

  /** Step j leaves a double fault, by name or by merging, and nothing was reset since. */
  ghost predicate DoubleFrom(run: seq<Step>, j: nat, payloadEnabled: bool) {
    && j < |run| && Unreset(run, j + 1, payloadEnabled)
    && ((Brings(run[j], payloadEnabled) && VectorOf(run[j]) == DF) || exists i: nat :: Merges(run, i, j, payloadEnabled))
  }

  lemma {:induction false} LatestIsLive(run: seq<Step>, i: nat, payloadEnabled: bool)
    requires Latest(run, i, payloadEnabled)
    ensures var x := After(run, payloadEnabled); Live(x) && (x.nr == VectorOf(run[i]) || x.nr == DF)
    decreases |run|
  {
    var front := run[..|run| - 1];
    if i < |front| {
      assert forall m :: 0 <= m < |front| ==> front[m] == run[m];
      LatestIsLive(front, i, payloadEnabled);
    }
  }

  /** A double fault stays until it is reset, whatever arrives. */
  lemma {:induction false} DoubleStays(run: seq<Step>, j: nat, payloadEnabled: bool)
    requires DoubleFrom(run, j, payloadEnabled)
    ensures var x := After(run, payloadEnabled); Live(x) && x.nr == DF
    decreases |run|
  {
    hide DoubleFaults;
    var front := run[..|run| - 1];
    assert forall m :: 0 <= m < |front| ==> front[m] == run[m];
    if j < |front| {
      DoubleInFront(run, j, payloadEnabled);
      DoubleStays(front, j, payloadEnabled);
    } else if i: nat :| Merges(run, i, j, payloadEnabled) {
      LatestIsLive(front, i, payloadEnabled);
    }
  }

  lemma DoubleInFront(run: seq<Step>, j: nat, payloadEnabled: bool)
    requires DoubleFrom(run, j, payloadEnabled) && j < |run| - 1
    ensures DoubleFrom(run[..|run| - 1], j, payloadEnabled)
  {
    hide Brings, Resets, DoubleFaults;
    var front := run[..|run| - 1];
    assert forall m :: 0 <= m < |front| ==> front[m] == run[m];
    if i: nat :| Merges(run, i, j, payloadEnabled) {
      assert Merges(front, i, j, payloadEnabled);
    }
  }

  /** What was so after the steps before the last one, and the last one resets nothing. */
  lemma DoubleInWhole(run: seq<Step>, j: nat, payloadEnabled: bool)
    requires run != [] && DoubleFrom(run[..|run| - 1], j, payloadEnabled) && !Resets(run[|run| - 1], payloadEnabled)
    ensures DoubleFrom(run, j, payloadEnabled)
  {
    hide Brings, Resets, DoubleFaults;
    var front := run[..|run| - 1];
    assert forall m :: 0 <= m < |front| ==> front[m] == run[m];
    if i: nat :| Merges(front, i, j, payloadEnabled) {
      assert Merges(run, i, j, payloadEnabled);
    }
  }

  /** A live double fault was left by some step; any other live exception is the last one brought. */
  lemma {:induction false} LiveOrigin(run: seq<Step>, payloadEnabled: bool)
    requires Live(After(run, payloadEnabled))
    ensures var x := After(run, payloadEnabled);
      if x.nr == DF then exists j: nat :: DoubleFrom(run, j, payloadEnabled)
      else exists i: nat :: Latest(run, i, payloadEnabled) && VectorOf(run[i]) == x.nr
    decreases |run|
  {
    hide Brings, DoubleFaults;
    var n := |run| - 1;
    var front, s := run[..n], run[n];
    assert forall m :: 0 <= m < |front| ==> front[m] == run[m];
    var x := After(front, payloadEnabled);
    if Resets(s, payloadEnabled) || (s.Arrives? && FateOf(x, s.a.nr) == Queued) {
      BroughtLast(run, payloadEnabled);
    } else {
      StillLive(x, s, payloadEnabled);
      LiveOrigin(front, payloadEnabled);
      hide Resets, After;
      if x.nr == DF {
        var j: nat :| DoubleFrom(front, j, payloadEnabled);
        DoubleInWhole(run, j, payloadEnabled);
      } else {
        var i: nat :| Latest(front, i, payloadEnabled) && VectorOf(front[i]) == x.nr;
        if s.Arrives? {
          assert Merges(run, i, n, payloadEnabled);
          assert DoubleFrom(run, n, payloadEnabled);
        } else {
          assert Latest(run, i, payloadEnabled);
        }
      }
    }
  }

  lemma BroughtLast(run: seq<Step>, payloadEnabled: bool)
    requires run != [] && Live(After(run, payloadEnabled))
    requires var s := run[|run| - 1];
      || Resets(s, payloadEnabled)
      || (s.Arrives? && FateOf(After(run[..|run| - 1], payloadEnabled), s.a.nr) == Queued)
    ensures Latest(run, |run| - 1, payloadEnabled) && VectorOf(run[|run| - 1]) == After(run, payloadEnabled).nr
    ensures VectorOf(run[|run| - 1]) == DF ==> DoubleFrom(run, |run| - 1, payloadEnabled)
  {
  }

  /** A step that neither resets nor queues leaves what was live, or merges it to a double fault. */
  lemma StillLive(x: Exception, s: Step, payloadEnabled: bool)
    requires Live(Next(x, s, payloadEnabled)) && !Resets(s, payloadEnabled)
    requires s.Arrives? ==> FateOf(x, s.a.nr) != Queued
    ensures Live(x)
    ensures Next(x, s, payloadEnabled).nr == if s.Arrives? then DF else x.nr
    ensures s.Arrives? && x.nr != DF ==> DoubleFaults(x.nr, s.a.nr)
  {
  }

  predicate TripleFaults(run: seq<Step>, k: nat, payloadEnabled: bool)
    requires k < |run|
  {
    run[k].Arrives? && FateOf(After(run[..k], payloadEnabled), run[k].a.nr) == Shutdown
  }

  /**
    Over every run from an empty queue, an arrival asks for a triple fault exactly when an
    earlier step left a double fault (two exceptions merged, or one came by name, queued or in
    an accepted event set) and nothing has been reset since.
   */
  lemma TripleExactly(run: seq<Step>, k: nat, payloadEnabled: bool)
    requires k < |run| && run[k].Arrives?
    ensures TripleFaults(run, k, payloadEnabled) <==> exists j: nat :: DoubleFrom(run[..k], j, payloadEnabled)
  {
    hide DoubleFrom;
    var before := run[..k];
    if TripleFaults(run, k, payloadEnabled) {
      LiveOrigin(before, payloadEnabled);
    }
    if j: nat :| DoubleFrom(before, j, payloadEnabled) {
      DoubleStays(before, j, payloadEnabled);
    }
  }

  // ----- entry: which event goes in

  datatype Injection = AnException | AnNmi | AnInterrupt | AnSmi

  /** The hooks' answers: positive allows, zero defers, negative is an error. */
  datatype Hooks = Hooks(blockIrq: bool, smiAllowed: int, nmiAllowed: int, irqAllowed: int, hasIrq: bool)

  /** What waits besides the exception. */
  datatype Others = Others(nmiInjected: bool, irqInjected: bool, smiPending: bool, nmiPending: nat)

  /** What already owns this entry. */
  function Owner(x: Exception, o: Others): seq<Injection> {
    if Live(x) then [AnException]
    else if o.nmiInjected then [AnNmi]
    else if o.irqInjected then [AnInterrupt]
    else []
  }

  /** What a free entry takes: the first of SMI, NMI and interrupt that waits and is not refused with an error before it. */
  function Taken(o: Others, h: Hooks): seq<Injection> {
    if h.blockIrq then []
    else if o.smiPending && h.smiAllowed != 0 then (if h.smiAllowed > 0 then [AnSmi] else [])
    else if o.nmiPending > 0 && h.nmiAllowed != 0 then (if h.nmiAllowed > 0 then [AnNmi] else [])
    else if h.hasIrq && h.irqAllowed > 0 then [AnInterrupt]
    else []
  }

  /** The first refusal that a free entry meets; an event behind one that goes in is refused with -16, EBUSY. */
  function Refusal(o: Others, h: Hooks): int {
    if h.blockIrq then 0
    else if o.smiPending && h.smiAllowed != 0 then
      (if h.smiAllowed < 0 then h.smiAllowed else if o.nmiPending > 0 || h.hasIrq then -16 else 0)
    else if o.nmiPending > 0 && h.nmiAllowed != 0 then
      (if h.nmiAllowed < 0 then h.nmiAllowed else if h.hasIrq then -16 else 0)
    else if h.hasIrq && h.irqAllowed < 0 then h.irqAllowed
    else 0
  }

  /** The event that goes in: what owns the entry, or else what is taken. */
  function Entry(x: Exception, o: Others, h: Hooks): seq<Injection> {
    var owner := Owner(x, o);
    if owner != [] then owner else Taken(o, h)
  }

  /** Exactly when each event goes in: nothing that comes before it is there or allowed. */
  lemma EntryExactly(x: Exception, o: Others, h: Hooks)
    ensures Entry(x, o, h) == [AnException] <==> x.pending || x.injected
    ensures Entry(x, o, h) == [AnNmi] <==>
      && !Live(x)
      && (o.nmiInjected || (!o.irqInjected && !h.blockIrq && !(o.smiPending && h.smiAllowed != 0)
                            && o.nmiPending > 0 && h.nmiAllowed > 0))
    ensures Entry(x, o, h) == [AnSmi] <==>
      !Live(x) && !o.nmiInjected && !o.irqInjected && !h.blockIrq && o.smiPending && h.smiAllowed > 0
    ensures Entry(x, o, h) == [AnInterrupt] <==>
      && !Live(x) && !o.nmiInjected
      && (o.irqInjected || (!h.blockIrq && !(o.smiPending && h.smiAllowed != 0) && !(o.nmiPending > 0 && h.nmiAllowed != 0)
                            && h.hasIrq && h.irqAllowed > 0))
  {
  }

  predicate Waiting(o: Others, h: Hooks) { !h.blockIrq && (o.smiPending || o.nmiPending > 0 || h.hasIrq) }

  /** Neither a trap (1, 3, 4) nor an abort (8, 18). */
  predicate IsFault(nr: nat) { nr !in {1, 3, 4, 8, 18} }

  function Bit(vector: nat): bv32
    requires vector < 32
  {
    1 << vector
  }

  /** exception_type: 0 for a fault, 1 for a trap, 2 for an abort, by the vector's place in two masks. */
  function ExceptionType(vector: Vector): nat {
    if Bit(vector) & (Bit(DB) | Bit(BP) | Bit(OF)) != 0 then 1
    else if Bit(vector) & (Bit(DF) | Bit(MC)) != 0 then 2
    else 0
  }

  /** The masks of the code pick the traps and the aborts. */
  lemma TypesDecide(vector: Vector)
    ensures ExceptionType(vector) == 0 <==> IsFault(vector)
  {
    match vector
    case 0 =>
    case 1 =>
    case 3 =>
    case 4 =>
    case 5 =>
    case 6 =>
    case 7 =>
    case 8 =>
    case 9 =>
    case 10 =>
    case 11 =>
    case 12 =>
    case 13 =>
    case 14 =>
    case 15 =>
    case 16 =>
    case 17 =>
    case 18 =>
    case 19 =>
    case 20 =>
    case 21 =>
    case 22 =>
    case 23 =>
    case 24 =>
    case 25 =>
    case 26 =>
    case 27 =>
    case 28 =>
    case 29 =>
    case 30 =>
    case 31 =>
  }

  // ----- register bits

  /**
    The debug status register after a payload: active-low bits read inverted, the others are
    raised by the payload or kept unless they are trap bits, and bit 12 is clear.
   */
  predicate Reflected(now: bv64, was: bv64, payload: bv64, trapBits: bv64, activeLow: bv64) {
    now == Cleared12(Muxed(was & !trapBits, payload, activeLow))
  }

  function Cleared12(m: bv64): bv64 { m & !BIT12 }

  function Muxed(kept: bv64, p: bv64, a: bv64): bv64 { (a & !p) | ((kept | p) & !a) }

  /** Raise the active-low bits and the payload, then flip back the active-low bits it sets. */
  function Flipped(kept: bv64, p: bv64, a: bv64): bv64 { ((kept | a) | p) ^ (p & a) }

  lemma FlippedIsMuxed(kept: bv64, p: bv64, a: bv64)
    ensures Flipped(kept, p, a) == Muxed(kept, p, a)
  {
    LowBits(kept, p, a);
    HighBits(kept, p, a);
    hide Flipped;
    Halves(Flipped(kept, p, a), a);
  }

  lemma LowBits(kept: bv64, p: bv64, a: bv64)
    ensures Flipped(kept, p, a) & a == a & !p
  {
  }

  lemma HighBits(kept: bv64, p: bv64, a: bv64)
    ensures Flipped(kept, p, a) & !a == (kept | p) & !a
  {
  }

  lemma Halves(x: bv64, a: bv64)
    ensures x == (x & a) | (x & !a)
  {
  }

  /** The assignments to dr6, in order. */
  function Reflect(dr6: bv64, payload: bv64, trapBits: bv64, activeLow: bv64): (now: bv64)
    ensures Reflected(now, dr6, payload, trapBits, activeLow)
  {
    hide Flipped, Muxed;
    FlippedIsMuxed(dr6 & !trapBits, payload, activeLow);
    Cleared12(Flipped(dr6 & !trapBits, payload, activeLow))
  }

  predicate HasGd(d: bv64) { d & GD != 0 }

  function WithoutGd(d: bv64): (r: bv64)
    ensures !HasGd(r) && (!HasGd(d) ==> r == d)
  {
    d & !GD
  }

  function WithRf(flags: bv64): bv64 { flags | RF }

  /** Bit 13 of the debug control register is cleared, bit 16 of the flags set, and all others kept. */
  lemma ChangedBits(d: bv64, flags: bv64)
    ensures WithoutGd(d) & 0x2000 == 0 && WithoutGd(d) & !0x2000 == d & !0x2000
    ensures WithRf(flags) & 0x10000 == 0x10000 && WithRf(flags) & !0x10000 == flags & !0x10000
  {
  }

  /** Two words agree on the bits of a mask. */
  predicate Agree(x: bv64, y: bv64, mask: bv64) { x & mask == y & mask }

  /** What the debug status register reads after a payload, bit by bit. */
  lemma ReflectedBits(now: bv64, was: bv64, payload: bv64, trapBits: bv64, activeLow: bv64)
    requires Reflected(now, was, payload, trapBits, activeLow)
    ensures Agree(now, 0, 0x1000)
    ensures Agree(now, !payload, activeLow & !0x1000)
    ensures Agree(now, (was & !trapBits) | payload, !activeLow & !0x1000)
  {
    ReflectedIs(now, was, payload, trapBits, activeLow);
    hide *;
    ClearTwelve(Muxed(was & !trapBits, payload, activeLow));
    ActiveBits(was & !trapBits, payload, activeLow);
    OtherBits(was & !trapBits, payload, activeLow);
  }

  lemma ReflectedIs(now: bv64, was: bv64, payload: bv64, trapBits: bv64, activeLow: bv64)
    requires Reflected(now, was, payload, trapBits, activeLow)
    ensures now == Cleared12(Muxed(was & !trapBits, payload, activeLow))
  {
    hide Muxed;
  }
  lemma ClearTwelve(m: bv64)
    ensures Agree(Cleared12(m), 0, 0x1000)
  {
  }

  lemma ActiveBits(kept: bv64, p: bv64, a: bv64)
    ensures Agree(Cleared12(Muxed(kept, p, a)), !p, a & !0x1000)
  {
  }

  lemma OtherBits(kept: bv64, p: bv64, a: bv64)
    ensures Agree(Cleared12(Muxed(kept, p, a)), kept | p, !a & !0x1000)
  {
  }

  // ----- the code

  function ExceptionClass(vector: nat): nat {
    if vector == PF then 2
    else if vector == DE || vector == TS || vector == NP || vector == SS || vector == GP then 1
    else 0
  }

  /** The class test of the code is the manual's table, by vector numbers. */
  lemma ClassesDecide(first: nat, second: nat)
    ensures var contributory := {0, 10, 11, 12, 13};
      DoubleFaults(first, second) <==>
        || (first in contributory && second in contributory)
        || (first == 14 && (second in contributory || second == 14))
    ensures DoubleFaults(first, second) <==>
      || (ExceptionClass(first) == 1 && ExceptionClass(second) == 1)
      || (ExceptionClass(first) == 2 && ExceptionClass(second) != 0)
  {
  }

  class Vcpu {
    var exception: Exception
    var eventRequest: bool
    var tripleFault: bool
    var dr6: bv64
    var dr7: bv64
    var cr2: bv64
    var rflags: bv64
    var nmiInjected: bool
    var irqInjected: bool
    var smiPending: bool
    var nmiPending: nat
    const trapBits: bv64
    const activeLow: bv64
    const payloadEnabled: bool
    var protMode: bool

    /** kvm_deliver_exception_payload. */
    method DeliverPayload()
      modifies this`exception, this`dr6, this`cr2
      ensures exception == old(exception).(hasPayload := false,
        payload := if old(exception).hasPayload then 0 else old(exception).payload)
      ensures old(exception).hasPayload && old(exception).nr == PF ==> cr2 == old(exception).payload
      ensures !(old(exception).hasPayload && old(exception).nr == PF) ==> cr2 == old(cr2)
      ensures !(old(exception).hasPayload && old(exception).nr == DB) ==> dr6 == old(dr6)
      ensures old(exception).hasPayload && old(exception).nr == DB ==>
        Reflected(dr6, old(dr6), old(exception).payload, trapBits, activeLow)
    {
      hide Reflect, Reflected, HasGd, WithoutGd, WithRf;
      if !exception.hasPayload {
        return;
      }
      if exception.nr == DB {
        dr6 := Reflect(dr6, exception.payload, trapBits, activeLow);
      } else if exception.nr == PF {
        cr2 := exception.payload;
      }
      exception := exception.(hasPayload := false, payload := 0);
    }

    /** kvm_multiple_exception outside guest mode. */
    method MultipleException(a: Arrival)
      modifies this`exception, this`eventRequest, this`tripleFault, this`dr6, this`cr2
      ensures eventRequest
      ensures exception == Arrive(old(exception), a)
      ensures tripleFault == (old(tripleFault) || FateOf(old(exception), a.nr) == Shutdown)
      ensures cr2 == (if a.hasPayload && !a.reinject && a.nr == PF && FateOf(old(exception), PF) == Queued
                      then a.payload else old(cr2))
      ensures if a.hasPayload && !a.reinject && a.nr == DB && FateOf(old(exception), DB) == Queued
              then Reflected(dr6, old(dr6), a.payload, trapBits, activeLow) else dr6 == old(dr6)
    {
      hide Reflect, Reflected, DoubleFaults, ExceptionClass, Muxed, Flipped;
      eventRequest := true;
      if exception.pending || exception.injected {
        var prev := exception.nr;
        if prev == DF {
          tripleFault := true;
          return;
        }
        ClassesDecide(prev, a.nr);
        var class1, class2 := ExceptionClass(prev), ExceptionClass(a.nr);
        if (class1 == 1 && class2 == 1) || (class1 == 2 && class2 != 0) {
          exception := Exception(true, false, true, DF, 0, false, 0);
          return;
        }
      }
      Enqueue(a);
    }

    /** The queue label of kvm_multiple_exception: the arrival takes the slot and its payload is delivered. */
    method Enqueue(a: Arrival)
      modifies this`exception, this`dr6, this`cr2
      ensures exception == Exception(a.reinject ==> old(exception).pending, a.reinject, a.hasError, a.nr, a.errorCode,
                                     false, if a.hasPayload then 0 else a.payload)
      ensures cr2 == if a.hasPayload && !a.reinject && a.nr == PF then a.payload else old(cr2)
      ensures if a.hasPayload && !a.reinject && a.nr == DB
              then Reflected(dr6, old(dr6), a.payload, trapBits, activeLow) else dr6 == old(dr6)
    {
      hide Reflect, Reflected, Muxed, Flipped;
      var hasPayload, payload := a.hasPayload, a.payload;
      if a.reinject {
        exception := exception.(injected := true);
        if hasPayload {
          hasPayload, payload := false, 0;
        }
      } else {
        exception := exception.(pending := true, injected := false);
      }
      exception := exception.(hasError := a.hasError, nr := a.nr, errorCode := a.errorCode,
                              hasPayload := hasPayload, payload := payload);
      DeliverPayload();
    }

    /** The exception part of kvm_vcpu_ioctl_x86_set_vcpu_events; false is -EINVAL. */
    method SetVcpuEvents(given: Events) returns (ok: bool)
      modifies this`exception, this`eventRequest
      ensures ok <==> Accepted(given, payloadEnabled)
      ensures exception == (if ok then Configured(given) else old(exception))
      ensures eventRequest == (ok || old(eventRequest))
    {
      var e := given;
      if !e.knownFlags {
        return false;
      }
      if e.validPayload {
        if !payloadEnabled {
          return false;
        }
        if e.pending {
          e := e.(injected := false);
        } else {
          e := e.(hasPayload := false);
        }
      } else {
        e := e.(pending := false, hasPayload := false);
      }
      if (e.injected || e.pending) && (e.nr > 31 || e.nr == NMI) {
        return false;
      }
      if e.smmWhileInit {
        return false;
      }
      exception := Exception(e.pending, e.injected, e.hasError, e.nr, e.errorCode, e.hasPayload, e.payload);
      eventRequest := true;
      return true;
    }

    /** kvm_clear_exception_queue. */
    method ClearExceptionQueue()
      modifies this`exception
      ensures exception == Cleared(old(exception))
    {
      exception := exception.(pending := false, injected := false);
    }

    /** kvm_inject_exception */
    method HandOver(entry: seq<Injection>) returns (longer: seq<Injection>)
      modifies this`exception
      ensures exception == Handed(old(exception), protMode) && longer == entry + [AnException]
    {
      if exception.errorCode != 0 && !protMode {
        exception := exception.(errorCode := 0);
      }
      longer := entry + [AnException];
    }

    function Waits(): Others
      reads this
    {
      Others(nmiInjected, irqInjected, smiPending, nmiPending)
    }

    /** The first half of inject_pending_event: what is already on its way, and the exception. */
    method InjectException() returns (entry: seq<Injection>, canInject: bool)
      requires Inv(exception)
      modifies this`exception, this`dr6, this`dr7, this`cr2, this`rflags
      ensures exception == Entered(old(exception), protMode)
      ensures entry == Owner(old(exception), old(Waits())) && (canInject <==> entry == [])
      ensures rflags == (if old(exception).pending && IsFault(old(exception).nr) then WithRf(old(rflags)) else old(rflags))
      ensures dr7 == (if old(exception).pending && old(exception).nr == DB then WithoutGd(old(dr7)) else old(dr7))
      ensures cr2 == old(cr2)
      ensures if old(exception).pending && old(exception).nr == DB && old(exception).hasPayload
              then Reflected(dr6, old(dr6), old(exception).payload, trapBits, activeLow) else dr6 == old(dr6)
    {
      hide Reflect, Reflected, HasGd, WithoutGd, WithRf, ExceptionType;
      entry, canInject := [], true;
      if exception.injected {
        entry := HandOver(entry);
        canInject := false;
      } else if !exception.pending {
        if nmiInjected {
          entry, canInject := entry + [AnNmi], false;
        } else if irqInjected {
          entry, canInject := entry + [AnInterrupt], false;
        }
      }
      if exception.pending {
        exception := exception.(pending := false, injected := true);
        TypesDecide(exception.nr);
        if ExceptionType(exception.nr) == 0 {
          rflags := WithRf(rflags);
        }
        if exception.nr == DB {
          DeliverPayload();
          if HasGd(dr7) {
            dr7 := WithoutGd(dr7);
          }
        }
        entry := HandOver(entry);
        canInject := false;
      }
    }

    /** inject_pending_event outside guest mode. */
    method InjectPendingEvent(h: Hooks) returns (entry: seq<Injection>, immediateExit: bool, r: int)
      requires Inv(exception)
      modifies this`exception, this`dr6, this`dr7, this`cr2, this`rflags
      modifies this`nmiInjected, this`irqInjected, this`smiPending, this`nmiPending
      ensures exception == Entered(old(exception), protMode) && Inv(exception) && !exception.pending
      ensures |entry| <= 1
      ensures entry == Entry(old(exception), old(Waits()), h)
      ensures Owner(old(exception), old(Waits())) != [] ==>
        Waits() == old(Waits()) && r == 0 && (immediateExit <==> Waiting(old(Waits()), h))
      ensures Owner(old(exception), old(Waits())) == [] ==>
        var refusal := Refusal(old(Waits()), h);
        (immediateExit <==> refusal == -16) && r == if refusal == -16 then 0 else refusal
      ensures smiPending == (old(smiPending) && !(AnSmi in entry))
      ensures Owner(old(exception), old(Waits())) == [] ==>
        && nmiPending == old(nmiPending) - (if entry == [AnNmi] then 1 else 0)
        && nmiInjected == (entry == [AnNmi]) && irqInjected == (entry == [AnInterrupt])
    {
      var canInject;
      entry, canInject := InjectException();
      immediateExit, r := false, 0;
      if h.blockIrq {
        return;
      }
      if smiPending {
        r := if canInject then h.smiAllowed else -EBUSY;
        if r < 0 {
          immediateExit, r := r == -EBUSY, if r == -EBUSY then 0 else r;
          return;
        }
        if r > 0 {
          smiPending := false;
          entry, canInject := entry + [AnSmi], false;
        }
      }
      if nmiPending > 0 {
        r := if canInject then h.nmiAllowed else -EBUSY;
        if r < 0 {
          immediateExit, r := r == -EBUSY, if r == -EBUSY then 0 else r;
          return;
        }
        if r > 0 {
          nmiPending := nmiPending - 1;
          nmiInjected := true;
          entry, canInject := entry + [AnNmi], false;
        }
      }
      if h.hasIrq {
        r := if canInject then h.irqAllowed else -EBUSY;
        if r < 0 {
          immediateExit, r := r == -EBUSY, if r == -EBUSY then 0 else r;
          return;
        }
        if r > 0 {
          irqInjected := true;
          entry := entry + [AnInterrupt];
        }
      }
      r := 0;
    }
  }
}
