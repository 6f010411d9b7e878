/**
  The callback barrier of sysbench's sb_barrier.c.

  The two critical sections of sb_barrier_wait are methods on a class.  Threads
  arriving, sleeping, waking (for no reason too) and leaving form a step system, and
  the promises are proved of every run with as many threads as the barrier was made for.
 */
module Barrier {

  const WRAP: nat := 0x1_0000_0000

  /** SB_BARRIER_SERIAL_THREAD */
  const SERIAL_THREAD: int := 1

  // ----- the shared fields

  datatype Shared = Shared(initCount: nat, count: nat, serial: nat, error: bool)

  function Fresh(count: nat): Shared { Shared(count, count, 0, false) }

  /** The first critical section: a caller arrives; `fails` is what the callback would report. */
  function Arrive(b: Shared, fails: bool): Shared
    requires b.count > 0
  {
    if b.count == 1 then Shared(b.initCount, b.initCount, (b.serial + 1) % WRAP, b.error || fails)
    else b.(count := b.count - 1)
  }

  class SbBarrier {
    var initCount: nat
    var count: nat
    var serial: nat
    var error: bool

    ghost function Fields(): Shared
      reads this
    {
      Shared(initCount, count, serial, error)
    }

    /** sb_barrier_init, given whether the mutex and condition variable could be set up. */
    method Init(n: nat, primitivesFail: bool) returns (rc: int)
      modifies this
      ensures rc == if n == 0 || primitivesFail then 1 else 0
      ensures rc == 0 ==> Fields() == Fresh(n)
      ensures rc != 0 ==> Fields() == old(Fields())
    {
      if n == 0 {
        return 1;
      }
      if primitivesFail {
        return 1;
      }
      initCount := n;
      count := n;
      serial := 0;
      error := false;
      return 0;
    }

    /** sb_barrier_wait up to its return or its first wait. */
    method WaitHead(hasCallback: bool, callback: int) returns (last: bool, res: int, mine: nat)
      requires 0 < count && serial < WRAP
      modifies this
      ensures Fields() == Arrive(old(Fields()), hasCallback && callback != 0)
      ensures last <==> old(count) == 1
      ensures last ==> res == if hasCallback && callback != 0 then -1 else 1
      ensures !last ==> mine == serial
      ensures last ==> serial == if old(serial) == 0xFFFF_FFFF then 0 else old(serial) + 1
    {
      mine := 0;
      res := 0;
      count := count - 1;
      if count == 0 {
        serial := (serial + 1) % WRAP;
        count := initCount;
        res := SERIAL_THREAD;
        if hasCallback && callback != 0 {
          error := true;
          res := -1;
        }
        last := true;
      } else {
        mine := serial;
        last := false;
      }
    }

    /** The test and result after a wakeup. */
    method WaitTail(mine: nat) returns (again: bool, res: int)
      ensures again <==> mine == serial
      ensures !again ==> res == if error then -1 else 0
    {
      again := mine == serial;
      res := if error then -1 else 0;
    }
  }

  // ----- threads

  /** `results` holds what the calls of a thread have returned so far. */
  datatype Thread =
    | Outside(results: seq<int>)
    | Asleep(results: seq<int>, mine: nat, signalled: bool)

  /** `failed` and `ranBy` record, per finished round, the callback's verdict and the thread that ran it. */
  datatype State = State(b: Shared, threads: seq<Thread>, failed: seq<bool>, ranBy: seq<nat>)

  datatype Action = Enter(t: nat, fails: bool) | Wake(t: nat)

  ghost predicate Enabled(s: State, a: Action) {
    a.t < |s.threads| &&
    match a
    case Enter(t, _) => s.threads[t].Outside? && s.b.count > 0
    case Wake(t) => s.threads[t].Asleep?
  }

  /** pthread_cond_broadcast */
  function Broadcast(ts: seq<Thread>): (r: seq<Thread>)
    ensures |r| == |ts|
    ensures forall k :: 0 <= k < |ts| ==> r[k] == if ts[k].Asleep? then ts[k].(signalled := true) else ts[k]
  {
    seq(|ts|, k requires 0 <= k < |ts| => if ts[k].Asleep? then ts[k].(signalled := true) else ts[k])
  }

  ghost function Next(s: State, a: Action): State
    requires Enabled(s, a)
  {
    var th := s.threads[a.t];
    match a
    case Enter(t, fails) =>
      var b := Arrive(s.b, fails);
      if s.b.count == 1 then
        var res := if fails then -1 else SERIAL_THREAD;
        State(b, Broadcast(s.threads)[t := Outside(th.results + [res])], s.failed + [fails], s.ranBy + [t])
      else
        s.(b := b, threads := s.threads[t := Asleep(th.results, b.serial, false)])
    case Wake(t) =>
      if th.mine == s.b.serial then s.(threads := s.threads[t := th.(signalled := false)])
      else s.(threads := s.threads[t := Outside(th.results + [if s.b.error then -1 else 0])])
  }

  ghost function Start(n: nat): State {
    State(Fresh(n), seq(n, _ => Outside([])), [], [])
  }

  // ----- the invariant

  ghost function Round(s: State): nat { |s.failed| }

  /** Asleep in the round that is still open. */
  ghost predicate InRound(s: State, th: Thread) {
    th.Asleep? && |th.results| == Round(s)
  }

  ghost predicate AnyFailed(failed: seq<bool>, k: nat) {
    exists j :: 0 <= j <= k && j < |failed| && failed[j]
  }

  /** What the call of thread `t` in finished round `k` must return. */
  ghost function Expected(s: State, t: nat, k: nat): int
    requires k < |s.failed| == |s.ranBy|
  {
    if s.ranBy[k] == t then (if s.failed[k] then -1 else SERIAL_THREAD)
    else if AnyFailed(s.failed, k) then -1 else 0
  }

  ghost predicate ThreadOk(s: State, t: nat)
    requires |s.failed| == |s.ranBy|
  {
    t < |s.threads| ==>
      var th := s.threads[t];
      && |th.results| <= Round(s) <= |th.results| + (if th.Asleep? then 1 else 0)
      && (forall k :: 0 <= k < |th.results| ==> th.results[k] == Expected(s, t, k))
      && (th.Asleep? ==> th.mine == |th.results| % WRAP)
      && (th.Asleep? && |th.results| < Round(s) ==> th.signalled && s.ranBy[|th.results|] != t)
  }

  ghost predicate Inv(s: State) {
    && |s.failed| == |s.ranBy|
    && s.b.initCount == |s.threads| > 0
    && s.b.serial == Round(s) % WRAP
    && (s.b.error <==> AnyFailed(s.failed, Round(s)))
    && (forall t: nat :: ThreadOk(s, t))
    && 0 < s.b.count
    && s.b.count + CountIn(s.threads, Round(s)) == s.b.initCount
  }

  /** How many threads sleep having returned from exactly `r` rounds. */
  function CountIn(ts: seq<Thread>, r: nat): nat {
    if ts == [] then 0 else (if ts[0].Asleep? && |ts[0].results| == r then 1 else 0) + CountIn(ts[1..], r)
  }

  function One(th: Thread, r: nat): nat { if th.Asleep? && |th.results| == r then 1 else 0 }

  lemma {:induction false} CountUpdate(ts: seq<Thread>, r: nat, t: nat, th: Thread)
    requires t < |ts|
    ensures CountIn(ts[t := th], r) == CountIn(ts, r) - One(ts[t], r) + One(th, r)
    decreases t
  {
    if t == 0 {
      assert ts[t := th][1..] == ts[1..];
    } else {
      assert ts[t := th][1..] == ts[1..][t - 1 := th];
      CountUpdate(ts[1..], r, t - 1, th);
    }
  }

  lemma {:induction false} CountNone(ts: seq<Thread>, r: nat)
    requires forall k :: 0 <= k < |ts| ==> One(ts[k], r) == 0
    ensures CountIn(ts, r) == 0
  {
    if ts != [] {
      assert One(ts[0], r) == 0;
      forall k | 0 <= k < |ts[1..]|
        ensures One(ts[1..][k], r) == 0
      {
        assert One(ts[k + 1], r) == 0;
      }
      CountNone(ts[1..], r);
    }
  }

  lemma {:induction false} CountAtMost(ts: seq<Thread>, r: nat)
    ensures CountIn(ts, r) <= |ts|
  {
    if ts != [] {
      CountAtMost(ts[1..], r);
    }
  }

  /** If all but one slot count, every other thread sleeps in this round. */
  lemma {:induction false} CountFull(ts: seq<Thread>, r: nat, t: nat, u: nat)
    requires t < |ts| && u < |ts| && t != u
    requires One(ts[t], r) == 0 && CountIn(ts, r) == |ts| - 1
    ensures One(ts[u], r) == 1
    decreases |ts|
  {
    if t > 0 && u > 0 {
      CountAtMost(ts[1..], r);
      CountSkips(ts[1..], r, t - 1);
      CountFull(ts[1..], r, t - 1, u - 1);
    } else if t == 0 {
      CountAll(ts[1..], r, u - 1);
    } else {
      CountAtMost(ts[1..], r);
      CountSkips(ts[1..], r, t - 1);
    }
  }

  lemma {:induction false} CountSkips(ts: seq<Thread>, r: nat, t: nat)
    requires t < |ts| && One(ts[t], r) == 0
    ensures CountIn(ts, r) < |ts|
    decreases t
  {
    if t > 0 {
      CountSkips(ts[1..], r, t - 1);
    } else {
      CountAtMost(ts[1..], r);
    }
  }

  lemma {:induction false} CountAll(ts: seq<Thread>, r: nat, u: nat)
    requires u < |ts| && CountIn(ts, r) == |ts|
    ensures One(ts[u], r) == 1
    decreases u
  {
    if One(ts[u], r) == 0 {
      CountSkips(ts, r, u);
    }
  }

  lemma StartInv(n: nat)
    requires n > 0
    ensures Inv(Start(n))
  {
    CountNone(Start(n).threads, 0);
  }

  // ----- each step keeps the invariant

  lemma EarlyArrival(s: State, t: nat, fails: bool)
    requires Inv(s) && Enabled(s, Enter(t, fails)) && s.b.count > 1
    ensures Inv(Next(s, Enter(t, fails)))
  {
    var s' := Next(s, Enter(t, fails));
    assert ThreadOk(s, t);
    CountUpdate(s.threads, Round(s), t, s'.threads[t]);
    forall u: nat
      ensures ThreadOk(s', u)
    {
      assert ThreadOk(s, u);
    }
  }

  /** When the last thread arrives all others sleep in the round. */
  lemma AllOthersIn(s: State, t: nat, u: nat)
    requires Inv(s) && s.b.count == 1 && t < |s.threads| && u < |s.threads| && t != u
    requires s.threads[t].Outside?
    ensures InRound(s, s.threads[u])
  {
    CountFull(s.threads, Round(s), t, u);
  }

  lemma FailedExtends(failed: seq<bool>, f: bool, k: nat)
    requires k < |failed|
    ensures AnyFailed(failed + [f], k) <==> AnyFailed(failed, k)
  {
    if AnyFailed(failed + [f], k) {
      var j :| 0 <= j <= k && j < |failed + [f]| && (failed + [f])[j];
      assert failed[j];
    }
    if AnyFailed(failed, k) {
      var j :| 0 <= j <= k && j < |failed| && failed[j];
      assert (failed + [f])[j];
    }
  }

  lemma ErrorExtends(failed: seq<bool>, f: bool)
    ensures AnyFailed(failed + [f], |failed| + 1) <==> AnyFailed(failed, |failed|) || f
    ensures AnyFailed(failed + [f], |failed|) <==> AnyFailed(failed, |failed|) || f
  {
    var g := failed + [f];
    if AnyFailed(failed, |failed|) {
      var j :| 0 <= j <= |failed| && j < |failed| && failed[j];
      assert g[j];
    }
    if f {
      assert g[|failed|];
    }
    if AnyFailed(g, |failed| + 1) {
      var j :| 0 <= j <= |failed| + 1 && j < |g| && g[j];
      assert j == |failed| || failed[j];
    }
  }

  lemma ExpectedExtends(s: State, s': State, u: nat, k: nat, f: bool, t: nat)
    requires k < |s.failed| == |s.ranBy|
    requires s'.failed == s.failed + [f] && s'.ranBy == s.ranBy + [t]
    ensures Expected(s', u, k) == Expected(s, u, k)
  {
    FailedExtends(s.failed, f, k);
  }

  lemma LastArrivalThread(s: State, t: nat, fails: bool, u: nat)
    requires Inv(s) && Enabled(s, Enter(t, fails)) && s.b.count == 1
    ensures ThreadOk(Next(s, Enter(t, fails)), u)
  {
    var s' := Next(s, Enter(t, fails));
    if u < |s.threads| {
      assert ThreadOk(s, u);
      if u != t {
        AllOthersIn(s, t, u);
      }
      forall k | 0 <= k < |s.threads[u].results|
        ensures s'.threads[u].results[k] == Expected(s', u, k)
      {
        ExpectedExtends(s, s', u, k, fails, t);
      }
    }
  }

  lemma LastArrival(s: State, t: nat, fails: bool)
    requires Inv(s) && Enabled(s, Enter(t, fails)) && s.b.count == 1
    ensures Inv(Next(s, Enter(t, fails)))
  {
    var s' := Next(s, Enter(t, fails));
    forall u: nat
      ensures ThreadOk(s', u)
    {
      LastArrivalThread(s, t, fails, u);
    }
    ErrorExtends(s.failed, fails);
    forall u | 0 <= u < |s'.threads|
      ensures One(s'.threads[u], Round(s')) == 0
    {
      assert ThreadOk(s, u);
    }
    CountNone(s'.threads, Round(s'));
    SerialNext(Round(s));
  }

  lemma SerialNext(r: nat)
    ensures (r % WRAP + 1) % WRAP == (r + 1) % WRAP
    ensures r % WRAP != (r + 1) % WRAP
  {
  }

  /** A waking thread stays exactly when its round is still open. */
  lemma SerialTells(s: State, t: nat)
    requires Inv(s) && t < |s.threads| && s.threads[t].Asleep?
    ensures s.threads[t].mine == s.b.serial <==> InRound(s, s.threads[t])
  {
    assert ThreadOk(s, t);
    SerialNext(|s.threads[t].results|);
  }

  lemma WakeInv(s: State, t: nat)
    requires Inv(s) && Enabled(s, Wake(t))
    ensures Inv(Next(s, Wake(t)))
  {
    var s' := Next(s, Wake(t));
    assert ThreadOk(s, t);
    SerialTells(s, t);
    CountUpdate(s.threads, Round(s), t, s'.threads[t]);
    var r := |s.threads[t].results|;
    if r < Round(s) {
      assert AnyFailed(s.failed, Round(s)) <==> AnyFailed(s.failed, r);
    }
    forall u: nat
      ensures ThreadOk(s', u)
    {
      assert ThreadOk(s, u);
      if u < |s.threads| {
        forall k | 0 <= k < |s'.threads[u].results|
          ensures s'.threads[u].results[k] == Expected(s', u, k)
        {
          assert Expected(s', u, k) == Expected(s, u, k);
        }
      }
    }
  }

  lemma StepInv(s: State, a: Action)
    requires Inv(s) && Enabled(s, a)
    ensures Inv(Next(s, a))
  {
    match a
    case Enter(t, fails) =>
      if s.b.count == 1 {
        LastArrival(s, t, fails);
      } else {
        EarlyArrival(s, t, fails);
      }
    case Wake(t) => WakeInv(s, t);
  }

  // ----- runs

  ghost predicate IsRun(s: State, run: seq<Action>)
    decreases |run|
  {
    run == [] || (Enabled(s, run[0]) && IsRun(Next(s, run[0]), run[1..]))
  }

  ghost function After(s: State, run: seq<Action>): State
    requires IsRun(s, run)
    decreases |run|
  {
    if run == [] then s else After(Next(s, run[0]), run[1..])
  }

  lemma {:induction false} RunInv(s: State, run: seq<Action>)
    requires Inv(s) && IsRun(s, run)
    ensures Inv(After(s, run))
    decreases |run|
  {
    hide Inv, Enabled, Next;
    if run != [] {
      StepInv(s, run[0]);
      RunInv(Next(s, run[0]), run[1..]);
    }
  }

  /** The number of rounds a thread has entered. */
  function Entered(th: Thread): nat { |th.results| + (if th.Asleep? then 1 else 0) }

  /** Over any run of `n` threads: nobody leaves a round that somebody has not entered. */
  lemma NobodyLeavesEarly(n: nat, run: seq<Action>, t: nat, u: nat)
    requires n > 0 && IsRun(Start(n), run)
    requires t < n && u < n
    ensures var s := After(Start(n), run);
      |s.threads| == n && |s.threads[t].results| <= Entered(s.threads[u])
  {
    StartInv(n);
    RunInv(Start(n), run);
    var s := After(Start(n), run);
    RunSize(Start(n), run);
    assert ThreadOk(s, t) && ThreadOk(s, u);
  }

  lemma {:induction false} RunSize(s: State, run: seq<Action>)
    requires IsRun(s, run)
    ensures |After(s, run).threads| == |s.threads|
    decreases |run|
  {
    if run != [] {
      RunSize(Next(s, run[0]), run[1..]);
    }
  }

  /**
    Over any run of `n` threads, what the call of each thread in each round returned:
    the one thread that ran the round's callback gets -1 or SERIAL_THREAD by its own verdict,
    and every other gets -1 exactly when some callback up to that round failed.
   */
  lemma RoundResults(n: nat, run: seq<Action>, t: nat, k: nat)
    requires n > 0 && IsRun(Start(n), run)
    requires t < |After(Start(n), run).threads| && k < |After(Start(n), run).threads[t].results|
    ensures var s := After(Start(n), run);
      && k < |s.failed| == |s.ranBy|
      && var res := s.threads[t].results[k];
      && (s.failed[k] ==> res == -1)
      && (res == SERIAL_THREAD <==> s.ranBy[k] == t && !s.failed[k])
      && (s.ranBy[k] != t ==> (res == -1 <==> AnyFailed(s.failed, k)) && (res == 0 <==> !AnyFailed(s.failed, k)))
  {
    StartInv(n);
    RunInv(Start(n), run);
    var s := After(Start(n), run);
    assert ThreadOk(s, t);
    if s.failed[k] {
      assert AnyFailed(s.failed, k);
    }
  }

  /** The serial number is that of a sleeping thread, or one ahead of it, and then the thread was signalled. */
  lemma SerialAtMostOneAhead(n: nat, run: seq<Action>, t: nat)
    requires n > 0 && IsRun(Start(n), run)
    requires t < |After(Start(n), run).threads| && After(Start(n), run).threads[t].Asleep?
    ensures var s := After(Start(n), run); var th := s.threads[t];
      s.b.serial == th.mine || (s.b.serial == (th.mine + 1) % WRAP && th.signalled)
  {
    StartInv(n);
    RunInv(Start(n), run);
    var s := After(Start(n), run);
    assert ThreadOk(s, t);
    SerialNext(|s.threads[t].results|);
  }

  /** Some thread can always arrive, or was signalled and will leave: nobody sleeps for ever on a missed broadcast. */
  lemma NoDeadlock(n: nat, run: seq<Action>)
    requires n > 0 && IsRun(Start(n), run)
    ensures var s := After(Start(n), run);
      exists t :: 0 <= t < |s.threads| &&
        (s.threads[t].Outside? || (s.threads[t].signalled && s.threads[t].mine != s.b.serial))
  {
    StartInv(n);
    RunInv(Start(n), run);
    var s := After(Start(n), run);
    if forall t :: 0 <= t < |s.threads| ==> One(s.threads[t], Round(s)) == 1 {
      CountEach(s.threads, Round(s));
    } else {
      var t :| 0 <= t < |s.threads| && One(s.threads[t], Round(s)) != 1;
      assert ThreadOk(s, t);
      if s.threads[t].Asleep? {
        SerialTells(s, t);
      }
    }
  }

  lemma {:induction false} CountEach(ts: seq<Thread>, r: nat)
    requires forall t :: 0 <= t < |ts| ==> One(ts[t], r) == 1
    ensures CountIn(ts, r) == |ts|
  {
    if ts != [] {
      assert One(ts[0], r) == 1;
      forall k | 0 <= k < |ts[1..]|
        ensures One(ts[1..][k], r) == 1
      {
        assert One(ts[k + 1], r) == 1;
      }
      CountEach(ts[1..], r);
    }
  }
}
