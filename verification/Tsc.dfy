/**
  TSC generations of va_tr/kvm/x86.c: each write of a guest's time-stamp counter either
  joins the current generation or opens a new one, and a counter tracks how many vCPUs
  besides the first share it.

  kvm_synchronize_tsc takes two locks one after the other, so it is two atomic sections.
  Calls may overlap in any way: the counter stays exact as long as no second section overtakes
  another to any effect, and the step that does is where it goes wrong.  Generation numbers
  are unbounded.
 */
module Tsc {

  import opened Arith

  const WORD: nat := 0x1_0000_0000_0000_0000

  type U64 = x: nat | x < WORD witness 0

  function Wrap(x: int): U64 { x % WORD }

  /** The fields that belong to the VM, and per vCPU its generation. */
  datatype Clock = Clock(
    generation: nat, curNsec: U64, curWrite: U64, curOffset: U64,
    lastNsec: U64, lastWrite: U64, lastKhz: nat,
    matchedVcpus: int, gens: seq<nat>)

  /** One call's inputs: what is written, the vCPU's frequency and the host's clock. */
  datatype Write = Write(
    vcpu: nat, data: U64, khz: nat, ns: U64, unstable: bool,
    offsetOf: U64 -> U64, cyclesOf: U64 -> U64)

  /** What the first section hands to the second. */
  datatype Verdict = Verdict(matched: bool, already: bool)

  predicate Synchronizing(c: Clock, w: Write) {
    w.khz != 0 &&
    (w.data == 0 ||
     var expected := Wrap(c.lastWrite + w.cyclesOf(Wrap(w.ns - c.lastNsec)));
     var hz := Wrap(w.khz * 1000);
     w.data < Wrap(expected + hz) && Wrap(w.data + hz) > expected)
  }

  predicate Matches(c: Clock, w: Write) { Synchronizing(c, w) && w.khz == c.lastKhz }

  /** The data as adjusted for an unstable host clock. */
  function Adjusted(c: Clock, w: Write): U64 {
    if Matches(c, w) && w.unstable then Wrap(w.data + w.cyclesOf(Wrap(w.ns - c.lastNsec))) else w.data
  }

  /** The section under tsc_write_lock. */
  function Section1(c: Clock, w: Write): (Clock, Verdict)
    requires w.vcpu < |c.gens|
  {
    var data := Adjusted(c, w);
    if Matches(c, w) then
      (c.(lastNsec := w.ns, lastWrite := data, lastKhz := w.khz, gens := c.gens[w.vcpu := c.generation]),
       Verdict(true, c.gens[w.vcpu] == c.generation))
    else
      (c.(generation := c.generation + 1, curNsec := w.ns, curWrite := data, curOffset := w.offsetOf(data),
          lastNsec := w.ns, lastWrite := data, lastKhz := w.khz, gens := c.gens[w.vcpu := c.generation + 1]),
       Verdict(false, false))
  }

  /** The section under pvclock_gtod_sync_lock. */
  function Section2(c: Clock, v: Verdict): Clock {
    if !v.matched then c.(matchedVcpus := 0)
    else if !v.already then c.(matchedVcpus := c.matchedVcpus + 1)
    else c
  }

  /** One call with nothing in between. */
  function Synchronize(c: Clock, w: Write): Clock
    requires w.vcpu < |c.gens|
  {
    var (c', v) := Section1(c, w);
    Section2(c', v)
  }

  /** A vCPU is created; its generation is zero. */
  function Online(c: Clock): Clock { c.(gens := c.gens + [0]) }

  function Start(n: nat): Clock { Clock(0, 0, 0, 0, 0, 0, 0, 0, seq(n, _ => 0)) }

  // ----- which writes join

  /** The counter's value that the last write leads one to expect by now, where nothing wraps around. */
  ghost predicate Expects(c: Clock, w: Write, expected: nat) {
    c.lastNsec <= w.ns && expected == c.lastWrite + w.cyclesOf(w.ns - c.lastNsec) < WORD
  }

  /** The write lies `ms` milliseconds of the vCPU's cycles and `part` cycles before or after the expected value. */
  ghost predicate Off(w: Write, expected: nat, ms: nat, part: nat) {
    && part < w.khz
    && (w.data == expected + ms * w.khz + part || expected == w.data + ms * w.khz + part)
  }

  /** Neither value plus one second wraps around. */
  ghost predicate RoomForSecond(w: Write, expected: nat) {
    expected + 1000 * w.khz < WORD && w.data + 1000 * w.khz < WORD
  }

  /** Arithmetic is modulo 2^64. */
  lemma NoWrap(x: nat)
    requires x < 0x1_0000_0000_0000_0000
    ensures Wrap(x) == x && Wrap(x + 0x1_0000_0000_0000_0000) == x
  {
  }

  /** The test, where nothing wraps around. */
  lemma WindowIs(c: Clock, w: Write, expected: nat)
    requires w.khz > 0 && w.data != 0 && Expects(c, w, expected) && RoomForSecond(w, expected)
    ensures Synchronizing(c, w) <==> w.data < expected + 1000 * w.khz && expected < w.data + 1000 * w.khz
  {
    hide Wrap;
    NoWrap(w.ns - c.lastNsec);
    NoWrap(expected);
    NoWrap(w.khz * 1000);
    NoWrap(expected + w.khz * 1000);
    NoWrap(w.data + w.khz * 1000);
  }

  lemma MsBelow(ms: nat, part: nat, khz: nat)
    requires part < khz
    ensures ms * khz + part < 1000 * khz <==> ms < 1000
  {
    if ms < 1000 {
      MulLe(ms, 999, khz);
    } else {
      MulLe(1000, ms, khz);
    }
  }

  /** A write is an attempt to synchronize exactly when it is less than one second off. */
  lemma OneSecondWindow(c: Clock, w: Write, expected: nat, ms: nat, part: nat)
    requires w.data != 0 && Expects(c, w, expected) && Off(w, expected, ms, part) && RoomForSecond(w, expected)
    ensures Synchronizing(c, w) <==> ms < 1000
  {
    hide Synchronizing, Expects, RoomForSecond;
    WindowIs(c, w, expected);
    MsBelow(ms, part, w.khz);
  }

  /** A first section joins the generation exactly for such a write, or a write of zero, at the last write's frequency. */
  lemma JoinsExactly(c: Clock, w: Write, expected: nat, ms: nat, part: nat)
    requires w.vcpu < |c.gens| && w.khz > 0
    requires w.data != 0 ==> Expects(c, w, expected) && Off(w, expected, ms, part) && RoomForSecond(w, expected)
    ensures var (c', v) := Section1(c, w);
      var joins := (w.data == 0 || ms < 1000) && w.khz == c.lastKhz;
      && (v.matched <==> joins)
      && c'.generation == (if joins then c.generation else c.generation + 1)
      && c'.gens[w.vcpu] == c'.generation
      && c'.lastNsec == w.ns && c'.lastKhz == w.khz
      && (!(joins && w.unstable) ==> c'.lastWrite == w.data)
      && (joins ==> (c'.curNsec, c'.curWrite, c'.curOffset) == (c.curNsec, c.curWrite, c.curOffset))
      && (!joins ==> (c'.curNsec, c'.curWrite, c'.curOffset) == (w.ns, w.data, w.offsetOf(w.data)))
  {
    if w.data != 0 {
      OneSecondWindow(c, w, expected, ms, part);
      hide Synchronizing, Adjusted;
    }
  }

  /** Without a frequency a write never joins. */
  lemma NoFrequencyOpens(c: Clock, w: Write)
    requires w.vcpu < |c.gens| && w.khz == 0
    ensures var (c', v) := Section1(c, w); !v.matched && c'.generation == c.generation + 1
  {
  }

  /** On an unstable host clock a write that joins keeps its distance from the last one: both move on by the time between. */
  lemma UnstableMovesOn(c: Clock, w: Write, expected: nat)
    requires w.vcpu < |c.gens| && Matches(c, w) && w.unstable && Expects(c, w, expected)
    requires w.data + expected - c.lastWrite < WORD
    ensures Section1(c, w).0.lastWrite - expected == w.data - c.lastWrite
  {
    hide Synchronizing;
  }

  // ----- the invariant

  /** No vCPU is ahead of the current generation. */
  ghost predicate Bounded(c: Clock) {
    forall v :: 0 <= v < |c.gens| ==> c.gens[v] <= c.generation
  }

  /** Before the first call no generation is open; afterwards the counter is exact. */
  ghost predicate Inv(c: Clock) {
    && Bounded(c)
    && (if c.generation == 0 then c.lastKhz == 0
        else c.matchedVcpus + 1 == multiset(c.gens)[c.generation])
  }

  lemma NoneAhead(s: seq<nat>, g: nat)
    requires forall v :: 0 <= v < |s| ==> s[v] <= g
    ensures multiset(s)[g + 1] == 0
  {
    forall x | x in s ensures x <= g {
      var v :| 0 <= v < |s| && s[v] == x;
    }
    assert forall x :: x in multiset(s) ==> x in s;
  }

  lemma SynchronizeInv(c: Clock, w: Write)
    requires Inv(c) && w.vcpu < |c.gens|
    ensures Inv(Synchronize(c, w)) && Synchronize(c, w).generation > 0
  {
    hide Adjusted, Synchronizing;
    if c.generation == 0 {
      FirstOpens(c, w);
    }
    NoneAhead(c.gens, c.generation);
  }

  /** The first call of a VM never matches. */
  lemma FirstOpens(c: Clock, w: Write)
    requires c.generation == 0 && Inv(c)
    ensures !Matches(c, w)
  {
  }

  lemma OnlineInv(c: Clock)
    requires Inv(c)
    ensures Inv(Online(c))
  {
  }

  // ----- second sections in any order

  predicate IsReset(v: Verdict) { !v.matched }

  predicate IsRaise(v: Verdict) { v.matched && !v.already }

  /** The counter after the second section of verdict `v`. */
  function Counted(m: int, v: Verdict): int {
    if IsReset(v) then 0 else if IsRaise(v) then m + 1 else m
  }

  function Tally(m: int, q: seq<Verdict>): int
    decreases |q|
  {
    if q == [] then m else Tally(Counted(m, q[0]), q[1..])
  }

  predicate HasReset(q: seq<Verdict>) { exists k :: 0 <= k < |q| && IsReset(q[k]) }

  /** Some raise has no reset after it. */
  predicate EndsRaised(q: seq<Verdict>) { exists k :: 0 <= k < |q| && IsRaise(q[k]) && !HasReset(q[k + 1..]) }

  function Raises(q: seq<Verdict>): nat {
    if q == [] then 0 else (if IsRaise(q[0]) then 1 else 0) + Raises(q[1..])
  }

  lemma {:induction false} TallyAppend(m: int, p: seq<Verdict>, q: seq<Verdict>)
    ensures Tally(m, p + q) == Tally(Tally(m, p), q)
    decreases |p|
  {
    if p == [] {
      assert p + q == q;
    } else {
      assert (p + q)[1..] == p[1..] + q;
      TallyAppend(Counted(m, p[0]), p[1..], q);
    }
  }

  lemma HasResetTail(q: seq<Verdict>)
    requires q != []
    ensures HasReset(q) <==> IsReset(q[0]) || HasReset(q[1..])
  {
    if HasReset(q) && !IsReset(q[0]) {
      var k :| 0 <= k < |q| && IsReset(q[k]);
      assert IsReset(q[1..][k - 1]);
    }
    if HasReset(q[1..]) {
      var k :| 0 <= k < |q[1..]| && IsReset(q[1..][k]);
      assert IsReset(q[k + 1]);
    }
  }

  /** A reset forgets the start; without one the raises add up. */
  lemma {:induction false} TallyIs(m: int, q: seq<Verdict>)
    ensures HasReset(q) ==> Tally(m, q) == Tally(0, q)
    ensures !HasReset(q) ==> Tally(m, q) == m + Raises(q)
    decreases |q|
  {
    if q != [] {
      HasResetTail(q);
      TallyIs(Counted(m, q[0]), q[1..]);
      TallyIs(Counted(0, q[0]), q[1..]);
    }
  }

  lemma EndsRaisedTail(q: seq<Verdict>)
    requires q != []
    ensures EndsRaised(q) <==> (IsRaise(q[0]) && !HasReset(q[1..])) || EndsRaised(q[1..])
  {
    if EndsRaised(q) {
      var k :| 0 <= k < |q| && IsRaise(q[k]) && !HasReset(q[k + 1..]);
      if k > 0 {
        assert q[1..][k - 1 + 1..] == q[k + 1..];
        assert IsRaise(q[1..][k - 1]);
      }
    }
    if EndsRaised(q[1..]) {
      var k :| 0 <= k < |q[1..]| && IsRaise(q[1..][k]) && !HasReset(q[1..][k + 1..]);
      assert q[1..][k + 1..] == q[k + 1 + 1..];
      assert IsRaise(q[k + 1]);
    }
  }

  /** From zero, the counter ends above zero exactly when some raise has no reset after it. */
  lemma {:induction false} TallyFromZero(m: nat, q: seq<Verdict>)
    ensures Tally(m, q) >= 0
    ensures Tally(m, q) > 0 <==> EndsRaised(q) || (m > 0 && !HasReset(q))
    decreases |q|
  {
    if q != [] {
      HasResetTail(q);
      EndsRaisedTail(q);
      TallyFromZero(Counted(m, q[0]), q[1..]);
    }
  }

  /**
    Taking verdict `i` before the earlier ones changes the counter: nothing later resets it,
    and a raise overtakes a reset, or a reset overtakes a raise that counts.
   */
  predicate Overtakes(q: seq<Verdict>, i: nat)
    requires i < |q|
  {
    && !HasReset(q[i + 1..])
    && ((IsRaise(q[i]) && HasReset(q[..i])) || (IsReset(q[i]) && EndsRaised(q[..i])))
  }

  function Without(q: seq<Verdict>, i: nat): seq<Verdict>
    requires i < |q|
  {
    q[..i] + q[i + 1..]
  }

  lemma TallyMoved(m: int, q: seq<Verdict>, i: nat)
    requires i < |q|
    ensures Tally(Counted(m, q[i]), Without(q, i)) == Tally(m, q) <==> !Overtakes(q, i)
  {
    var p, v, r := q[..i], q[i], q[i + 1..];
    assert q == p + ([v] + r);
    TallyAppend(m, p, [v] + r);
    assert ([v] + r)[1..] == r;
    TallyAppend(Counted(m, v), p, r);
    TallyIs(Counted(Tally(m, p), v), r);
    TallyIs(Tally(Counted(m, v), p), r);
    TallyIs(m, p);
    TallyIs(m + 1, p);
    TallyFromZero(0, p);
  }

  // ----- runs of overlapping calls

  /** The clock, and the verdicts of the calls that are between their two sections, oldest first. */
  datatype System = System(c: Clock, pending: seq<Verdict>)

  /** A first section, the second section of the i-th oldest call in between, or a new vCPU. */
  datatype Event = First(w: Write) | Second(i: nat) | NewVcpu

  predicate Enabled(s: System, e: Event) {
    match e
    case First(w) => w.vcpu < |s.c.gens|
    case Second(i) => i < |s.pending|
    case NewVcpu => true
  }

  function Next(s: System, e: Event): System
    requires Enabled(s, e)
  {
    match e
    case First(w) => var (c, v) := Section1(s.c, w); System(c, s.pending + [v])
    case Second(i) => System(Section2(s.c, s.pending[i]), Without(s.pending, i))
    case NewVcpu => System(Online(s.c), s.pending)
  }

  /** The counter once the pending second sections have run in order. */
  function Settled(s: System): Clock { s.c.(matchedVcpus := Tally(s.c.matchedVcpus, s.pending)) }

  ghost predicate SystemInv(s: System) {
    Inv(Settled(s)) && (s.c.generation == 0 ==> s.pending == [])
  }

  /** A first section behaves as a whole call on the settled clock. */
  lemma FirstSettles(s: System, w: Write)
    requires w.vcpu < |s.c.gens|
    ensures Settled(Next(s, First(w))) == Synchronize(Settled(s), w)
    ensures Next(s, First(w)).c.generation == Synchronize(Settled(s), w).generation
  {
    hide Synchronizing;
    var (c, v) := Section1(s.c, w);
    TallyAppend(c.matchedVcpus, s.pending, [v]);
    SameVerdict(s, w);
  }

  lemma SameVerdict(s: System, w: Write)
    requires w.vcpu < |s.c.gens|
    ensures Matches(Settled(s), w) == Matches(s.c, w) && Adjusted(Settled(s), w) == Adjusted(s.c, w)
  {
  }

  lemma FirstInv(s: System, w: Write)
    requires SystemInv(s) && w.vcpu < |s.c.gens|
    ensures SystemInv(Next(s, First(w))) && Next(s, First(w)).c.generation > 0
  {
    FirstSettles(s, w);
    SynchronizeInv(Settled(s), w);
  }

  /** A second section keeps the invariant exactly when it overtakes no earlier one to any effect. */
  lemma SecondExactly(s: System, i: nat)
    requires SystemInv(s) && i < |s.pending|
    ensures SystemInv(Next(s, Second(i))) <==> !Overtakes(s.pending, i)
  {
    TallyMoved(s.c.matchedVcpus, s.pending, i);
    hide Tally, Overtakes;
    SecondKeeps(s, i);
  }

  lemma SecondKeeps(s: System, i: nat)
    requires i < |s.pending|
    ensures Settled(Next(s, Second(i)))
         == s.c.(matchedVcpus := Tally(Counted(s.c.matchedVcpus, s.pending[i]), Without(s.pending, i)))
    ensures Next(s, Second(i)).c.generation == s.c.generation
  {
  }

  lemma NewVcpuInv(s: System)
    requires SystemInv(s)
    ensures SystemInv(Next(s, NewVcpu)) && Next(s, NewVcpu).c.generation == s.c.generation
  {
    OnlineInv(Settled(s));
    assert Settled(Next(s, NewVcpu)) == Online(Settled(s));
  }

  predicate IsRun(s: System, run: seq<Event>)
    decreases |run|
  {
    run == [] || (Enabled(s, run[0]) && IsRun(Next(s, run[0]), run[1..]))
  }

  function After(s: System, run: seq<Event>): System
    requires IsRun(s, run)
    decreases |run|
  {
    if run == [] then s else After(Next(s, run[0]), run[1..])
  }

  /** No second section of the run overtakes another to any effect. */
  predicate Orderly(s: System, run: seq<Event>)
    requires IsRun(s, run)
    decreases |run|
  {
    run != [] ==>
      (run[0].Second? ==> !Overtakes(s.pending, run[0].i)) && Orderly(Next(s, run[0]), run[1..])
  }

  /** Second sections run in the order of the first ones. */
  predicate InOrder(run: seq<Event>) { forall k :: 0 <= k < |run| && run[k].Second? ==> run[k].i == 0 }

  lemma {:induction false} InOrderIsOrderly(s: System, run: seq<Event>)
    requires IsRun(s, run) && InOrder(run)
    ensures Orderly(s, run)
    decreases |run|
  {
    if run != [] {
      assert forall k :: 0 <= k < |run[1..]| ==> run[1..][k] == run[k + 1];
      InOrderIsOrderly(Next(s, run[0]), run[1..]);
    }
  }

  predicate HasCall(run: seq<Event>) { exists k :: 0 <= k < |run| && run[k].First? }

  lemma {:induction false} RunInv(s: System, run: seq<Event>)
    requires SystemInv(s) && IsRun(s, run) && Orderly(s, run)
    ensures SystemInv(After(s, run))
    ensures s.c.generation > 0 || HasCall(run) ==> After(s, run).c.generation > 0
    decreases |run|
  {
    hide SystemInv, Next, Overtakes;
    if run != [] {
      var e, rest := run[0], run[1..];
      EventInv(s, e);
      RunInv(Next(s, e), rest);
      if HasCall(run) && !e.First? {
        var k :| 0 <= k < |run| && run[k].First?;
        assert rest[k - 1].First?;
      }
    }
  }

  lemma EventInv(s: System, e: Event)
    requires SystemInv(s) && Enabled(s, e) && (e.Second? ==> !Overtakes(s.pending, e.i))
    ensures SystemInv(Next(s, e))
    ensures s.c.generation > 0 || e.First? ==> Next(s, e).c.generation > 0
  {
    hide SystemInv, Overtakes, Next;
    match e
    case First(w) => FirstInv(s, w); FirstRises(s, w);
    case Second(i) => SecondExactly(s, i); SecondKeeps(s, i);
    case NewVcpu => NewVcpuInv(s);
  }

  lemma FirstRises(s: System, w: Write)
    requires w.vcpu < |s.c.gens|
    ensures Next(s, First(w)).c.generation >= s.c.generation
  {
  }

  /** All vCPUs are in the current generation. */
  ghost predicate AllShare(c: Clock) {
    forall v :: 0 <= v < |c.gens| ==> c.gens[v] == c.generation
  }

  lemma {:induction false} CountAll(s: seq<nat>, g: nat)
    ensures multiset(s)[g] <= |s|
    ensures multiset(s)[g] == |s| <==> forall v :: 0 <= v < |s| ==> s[v] == g
    decreases |s|
  {
    if s != [] {
      var front := s[..|s| - 1];
      assert s == front + [s[|s| - 1]];
      CountAll(front, g);
      if forall v :: 0 <= v < |front| ==> front[v] == g {
      } else {
        var v :| 0 <= v < |front| && front[v] != g;
        assert s[v] != g;
      }
    }
  }

  /**
    After any run of overlapping calls whose second sections do not overtake to any effect, and
    with no call in between its sections, the counter is exact and the master-clock test holds
    if and only if all online vCPUs share a generation.
   */
  lemma MatchedMeansShared(n: nat, run: seq<Event>)
    requires var s := System(Start(n), []); IsRun(s, run) && Orderly(s, run) && HasCall(run) && After(s, run).pending == []
    ensures var c := After(System(Start(n), []), run).c;
      && c.matchedVcpus + 1 == multiset(c.gens)[c.generation]
      && (c.matchedVcpus + 1 == |c.gens| <==> AllShare(c))
  {
    RunInv(System(Start(n), []), run);
    var c := After(System(Start(n), []), run).c;
    CountAll(c.gens, c.generation);
  }

  // ----- crossed second sections

  /** Two overlapping calls whose second sections run in crossed order: exactly when the counter stays exact. */
  lemma CrossedExactly(c: Clock, w1: Write, w2: Write)
    requires Inv(c) && w1.vcpu < |c.gens| && w2.vcpu < |c.gens|
    ensures var (c1, v1) := Section1(c, w1); var (c2, v2) := Section1(c1, w2);
      Inv(Section2(Section2(c2, v2), v1)) <==> !((IsReset(v1) && IsRaise(v2)) || (IsRaise(v1) && IsReset(v2)))
  {
    hide Inv, Section1;
    var (c1, v1) := Section1(c, w1);
    var s := System(c, []);
    var s1 := Next(s, First(w1));
    SizesKept(c, w1);
    var s2 := Next(s1, First(w2));
    EmptySettled(s);
    FirstInv(s, w1);
    FirstInv(s1, w2);
    var v2 := s2.pending[1];
    SecondExactly(s2, 1);
    TwoPending(v1, v2);
    var s3 := Next(s2, Second(1));
    assert s3.pending == [v1];
    SettledOne(s3);
    FirstRises(s1, w2);
  }

  lemma SizesKept(c: Clock, w: Write)
    requires w.vcpu < |c.gens|
    ensures |Section1(c, w).0.gens| == |c.gens|
  {
  }

  lemma EmptySettled(s: System)
    requires s.pending == []
    ensures Settled(s) == s.c
  {
  }

  lemma SettledOne(s: System)
    requires |s.pending| == 1
    ensures Settled(s) == Section2(s.c, s.pending[0])
  {
    assert s.pending[1..] == [];
    assert Tally(s.c.matchedVcpus, s.pending) == Tally(Counted(s.c.matchedVcpus, s.pending[0]), []);
  }

  lemma TwoPending(v1: Verdict, v2: Verdict)
    ensures Overtakes([v1, v2], 1) <==> (IsReset(v1) && IsRaise(v2)) || (IsRaise(v1) && IsReset(v2))
  {
    var q := [v1, v2];
    assert q[..1] == [v1] && q[2..] == [] && [v1][1..] == [];
    assert [v1][0] == v1;
  }

  function Identity(x: U64): U64 { x }

  function Set(vcpu: nat, khz: nat): Write { Write(vcpu, 0, khz, 0, false, Identity, Identity) }

  /**
    Two vCPUs end up in one generation, yet the test for that fails: the call that opened the
    generation resets the counter after the other call raised it.
   */
  lemma InterleavedMiss(c: Clock)
    requires c == Synchronize(Synchronize(Start(2), Set(0, 1)), Set(1, 2))
    ensures Inv(c)
    ensures var (c1, v0) := Section1(c, Set(0, 3)); var (c2, v1) := Section1(c1, Set(1, 3));
      var end := Section2(Section2(c2, v1), v0);
      AllShare(end) && end.matchedVcpus + 1 != |end.gens|
  {
    SynchronizeInv(Start(2), Set(0, 1));
    SynchronizeInv(Synchronize(Start(2), Set(0, 1)), Set(1, 2));
  }

  /** Two vCPUs end up in different generations, yet the test says they share one. */
  lemma InterleavedFalseMatch(c: Clock)
    requires c == Synchronize(Start(2), Set(0, 1))
    ensures Inv(c)
    ensures var (c1, v1) := Section1(c, Set(1, 1)); var (c2, v0) := Section1(c1, Set(0, 2));
      var end := Section2(Section2(c2, v0), v1);
      !AllShare(end) && end.matchedVcpus + 1 == |end.gens|
  {
    SynchronizeInv(Start(2), Set(0, 1));
    var (c1, v1) := Section1(c, Set(1, 1));
    var (c2, v0) := Section1(c1, Set(0, 2));
    var end := Section2(Section2(c2, v0), v1);
    assert end.gens[1] != end.generation;
  }

  // ----- the code

  class Kvm {
    var clock: Clock
    var tscOffset: map<nat, U64>
    var thisNsec: map<nat, U64>
    var thisWrite: map<nat, U64>

    /** The test whether a write is an attempt to synchronize. */
    method Tests(w: Write) returns (synchronizing: bool)
      ensures synchronizing <==> Synchronizing(clock, w)
    {
      synchronizing := false;
      if w.khz != 0 {
        if w.data == 0 {
          synchronizing := true;
        } else {
          var expected: nat := Wrap(clock.lastWrite + w.cyclesOf(Wrap(w.ns - clock.lastNsec)));
          var hz: nat := Wrap(w.khz * 1000);
          synchronizing := w.data < Wrap(expected + hz) && Wrap(w.data + hz) > expected;
        }
      }
    }

    /** kvm_synchronize_tsc up to the release of tsc_write_lock. */
    method Locked(w: Write) returns (v: Verdict)
      requires w.vcpu < |clock.gens|
      modifies this
      ensures (clock, v) == Section1(old(clock), w)
      ensures thisNsec == old(thisNsec)[w.vcpu := clock.curNsec]
      ensures thisWrite == old(thisWrite)[w.vcpu := clock.curWrite]
      ensures tscOffset == old(tscOffset)[w.vcpu :=
        if v.matched && w.unstable then w.offsetOf(clock.lastWrite) else clock.curOffset]
    {
      var data := w.data;
      var offset := w.offsetOf(data);
      var ns := w.ns;
      var elapsed := Wrap(ns - clock.lastNsec);
      var synchronizing := Tests(w);
      hide Synchronizing, Wrap;
      var matched, already := false, false;
      if synchronizing && w.khz == clock.lastKhz {
        if !w.unstable {
          offset := clock.curOffset;
        } else {
          data := Wrap(data + w.cyclesOf(elapsed));
          offset := w.offsetOf(data);
        }
        matched := true;
        already := clock.gens[w.vcpu] == clock.generation;
      } else {
        clock := clock.(generation := clock.generation + 1, curNsec := ns, curWrite := data, curOffset := offset);
      }
      clock := clock.(lastNsec := ns, lastWrite := data, lastKhz := w.khz);
      clock := clock.(gens := clock.gens[w.vcpu := clock.generation]);
      thisNsec := thisNsec[w.vcpu := clock.curNsec];
      thisWrite := thisWrite[w.vcpu := clock.curWrite];
      tscOffset := tscOffset[w.vcpu := offset];
      v := Verdict(matched, already);
    }

    /** kvm_synchronize_tsc from the taking of pvclock_gtod_sync_lock. */
    method CountMatched(v: Verdict)
      modifies `clock
      ensures clock == Section2(old(clock), v)
    {
      if !v.matched {
        clock := clock.(matchedVcpus := 0);
      } else if !v.already {
        clock := clock.(matchedVcpus := clock.matchedVcpus + 1);
      }
    }

    /** kvm_synchronize_tsc as a whole. */
    method SynchronizeTsc(w: Write)
      requires w.vcpu < |clock.gens| && Inv(clock)
      modifies this
      ensures clock == Synchronize(old(clock), w) && Inv(clock)
    {
      SynchronizeInv(clock, w);
      var v := Locked(w);
      CountMatched(v);
    }

    /** The vcpus_matched test of pvclock_update_vm_gtod_copy. */
    method VcpusMatched() returns (b: bool)
      requires Inv(clock) && clock.generation > 0
      ensures b <==> AllShare(clock)
    {
      CountAll(clock.gens, clock.generation);
      b := clock.matchedVcpus + 1 == |clock.gens|;
    }
  }
}
