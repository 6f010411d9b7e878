/**
  The bounded buffer of the enclave's TrustedLibrary/Thread.cpp: one producer and
  any number of consumers share a ring under a mutex with two condition variables.

  The ring operations are methods on a class.  The threads are a step system whose
  steps are the calls on the mutex and the condition variables and the change of the
  ring between them; every interleaving is a run.  A signal wakes an arbitrary waiter
  and a waiter may also wake for no reason.
 */
module CondBuffer {

  import opened Arith

  // ----- the ring

  /** The fields of cond_buffer_t, for a ring of `|buf|` slots. */
  datatype Ring = Ring(buf: seq<int>, occupied: int, nextin: int, nextout: int)

  /** Slot `k` is among the `occupied` slots from `nextout` on, cyclically. */
  predicate Occupied(r: Ring, k: int)
    requires 0 <= k < |r.buf|
  {
    var d := if k >= r.nextout then k - r.nextout else k - r.nextout + |r.buf|;
    d < r.occupied
  }

  /** The counters agree and each slot holds its own number when in use and zero otherwise. */
  ghost predicate RingOk(r: Ring) {
    var n := |r.buf|;
    && n > 0 && 0 <= r.occupied <= n && 0 <= r.nextin < n && 0 <= r.nextout < n
    && r.nextin == (r.nextout + r.occupied) % n
    && forall k :: 0 <= k < n ==> r.buf[k] == if Occupied(r, k) then k else 0
  }

  function Put(r: Ring): Ring
    requires 0 <= r.nextin < |r.buf|
  {
    Ring(r.buf[r.nextin := r.nextin], r.occupied + 1, (r.nextin + 1) % |r.buf|, r.nextout)
  }

  function Take(r: Ring): Ring
    requires 0 <= r.nextout < |r.buf|
  {
    Ring(r.buf[r.nextout := 0], r.occupied - 1, r.nextin, (r.nextout + 1) % |r.buf|)
  }

  function Empty(n: nat): Ring { Ring(seq(n, _ => 0), 0, 0, 0) }

  lemma WrapOnce(x: int, n: int)
    requires 0 <= x < 2 * n
    ensures x % n == if x < n then x else x - n
  {
    var q, r := x / n, x % n;
    assert x == n * q + r;
    if q >= 2 {
      MulLe(2, q, n);
    } else if q <= -1 {
      MulLe(q, -1, n);
    }
  }

  lemma PutOk(r: Ring)
    requires RingOk(r) && r.occupied < |r.buf|
    ensures RingOk(Put(r))
  {
    var n := |r.buf|;
    WrapOnce(r.nextout + r.occupied, n);
    WrapOnce(r.nextin + 1, n);
    WrapOnce(r.nextout + r.occupied + 1, n);
  }

  lemma TakeOk(r: Ring)
    requires RingOk(r) && r.occupied > 0
    ensures RingOk(Take(r))
  {
    var n := |r.buf|;
    WrapOnce(r.nextout + r.occupied, n);
    WrapOnce(r.nextout + 1, n);
    WrapOnce((r.nextout + 1) % n + (r.occupied - 1), n);
  }

  class CondBufferT {
    const buf: array<int>
    var occupied: int
    var nextin: int
    var nextout: int

    ghost function Contents(): Ring
      reads this, buf
    {
      Ring(buf[..], occupied, nextin, nextout)
    }

    constructor (n: nat)
      requires n > 0
      ensures Contents() == Empty(n) && RingOk(Contents())
      ensures fresh(buf)
    {
      buf := new int[n](_ => 0);
      occupied, nextin, nextout := 0, 0, 0;
      new;
      assert buf[..] == seq(n, _ => 0);
    }

    /** What ecall_producer does to the ring between its wait and its signal. */
    method Produce()
      requires RingOk(Contents()) && occupied < buf.Length
      modifies this, buf
      ensures Contents() == Put(old(Contents())) && RingOk(Contents())
    {
      PutOk(Contents());
      ghost var before := Contents();
      buf[nextin] := nextin;
      assert buf[..] == before.buf[before.nextin := before.nextin];
      nextin := nextin + 1;
      nextin := nextin % buf.Length;
      occupied := occupied + 1;
    }

    /** What ecall_consumer does to the ring between its wait and its signal. */
    method Consume()
      requires RingOk(Contents()) && occupied > 0
      modifies this, buf
      ensures Contents() == Take(old(Contents())) && RingOk(Contents())
    {
      TakeOk(Contents());
      ghost var before := Contents();
      buf[nextout] := 0;
      assert buf[..] == before.buf[before.nextout := 0];
      nextout := nextout + 1;
      nextout := nextout % buf.Length;
      occupied := occupied - 1;
    }
  }

  // ----- threads

  /** Where a thread stands in its loop body. */
  datatype Pc = Idle | Checking | Waiting | Woken | Changed | Signalled

  /** `left` is the number of loop iterations whose ring change is still to come. */
  datatype Thread = Thread(pc: Pc, left: nat)

  datatype Id = Free | Producer | Consumer(k: nat)

  datatype State = State(ring: Ring, mutex: Id, producer: Thread, consumers: seq<Thread>)

  predicate HasThread(s: State, t: Id) {
    t == Producer || (t.Consumer? && t.k < |s.consumers|)
  }

  function Get(s: State, t: Id): Thread
    requires HasThread(s, t)
  {
    if t == Producer then s.producer else s.consumers[t.k]
  }

  function SetThread(s: State, t: Id, th: Thread): State
    requires HasThread(s, t)
  {
    if t == Producer then s.(producer := th) else s.(consumers := s.consumers[t.k := th])
  }

  function SetPc(s: State, t: Id, pc: Pc): State
    requires HasThread(s, t)
  {
    SetThread(s, t, Get(s, t).(pc := pc))
  }

  predicate Holding(th: Thread) { th.pc.Checking? || th.pc.Changed? || th.pc.Signalled? }

  predicate Done(th: Thread) { th.pc.Idle? && th.left == 0 }

  /** The guard of the wait loop. */
  predicate Blocked(s: State, t: Id) {
    if t == Producer then s.ring.occupied >= |s.ring.buf| else s.ring.occupied <= 0
  }

  /** `w` waits on the condition variable that `t` signals. */
  predicate WaitsFor(s: State, t: Id, w: Id) {
    HasThread(s, w) && Get(s, w).pc.Waiting? && (t == Producer <==> w != Producer)
  }

  datatype Action = Lock(t: Id) | Wait(t: Id) | Change(t: Id) | Signal(t: Id, w: Id) | Unlock(t: Id) | Spurious(t: Id)

  predicate Enabled(s: State, a: Action) {
    HasThread(s, a.t) &&
    var th := Get(s, a.t);
    match a
    case Lock(t) => s.mutex == Free && (th.pc.Woken? || (th.pc.Idle? && th.left > 0))
    case Wait(t) => th.pc.Checking? && Blocked(s, t)
    case Change(t) => th.pc.Checking? && !Blocked(s, t) && RingBounds(s.ring) && th.left > 0
    case Signal(t, w) => th.pc.Changed? && (WaitsFor(s, t, w) || (w == Free && !SomeoneWaits(s, t)))
    case Unlock(t) => th.pc.Signalled?
    case Spurious(t) => th.pc.Waiting?
  }

  predicate RingBounds(r: Ring) { 0 <= r.nextin < |r.buf| && 0 <= r.nextout < |r.buf| }

  predicate SomeoneWaits(s: State, t: Id) {
    if t == Producer then exists k :: 0 <= k < |s.consumers| && s.consumers[k].pc.Waiting?
    else s.producer.pc.Waiting?
  }

  function Next(s: State, a: Action): State
    requires Enabled(s, a)
  {
    match a
    case Lock(t) => SetPc(s, t, Checking).(mutex := t)
    case Wait(t) => SetPc(s, t, Waiting).(mutex := Free)
    case Change(t) =>
      SetThread(s, t, Thread(Changed, Get(s, t).left - 1)).(ring := if t == Producer then Put(s.ring) else Take(s.ring))
    case Signal(t, w) => var s' := SetPc(s, t, Signalled); if w == Free then s' else SetPc(s', w, Woken)
    case Unlock(t) => SetPc(s, t, Idle).(mutex := Free)
    case Spurious(t) => SetPc(s, t, Woken)
  }

  /** `c` consumers of `l` items each, one producer of `c * l` items, a ring of `n` slots. */
  function Start(n: nat, c: nat, l: nat): State {
    State(Empty(n), Free, Thread(Idle, c * l), seq(c, _ => Thread(Idle, l)))
  }

  // ----- sums over the consumers

  function Sum(cs: seq<Thread>, f: Thread -> int): int {
    if cs == [] then 0 else f(cs[0]) + Sum(cs[1..], f)
  }

  lemma {:induction false} SumUpdate(cs: seq<Thread>, f: Thread -> int, k: nat, th: Thread)
    requires k < |cs|
    ensures Sum(cs[k := th], f) == Sum(cs, f) - f(cs[k]) + f(th)
    decreases k
  {
    var cs' := cs[k := th];
    if k == 0 {
      assert cs'[1..] == cs[1..];
    } else {
      assert cs'[1..] == cs[1..][k - 1 := th];
      SumUpdate(cs[1..], f, k - 1, th);
    }
  }

  lemma {:induction false} SumZero(cs: seq<Thread>, f: Thread -> int)
    requires forall k :: 0 <= k < |cs| ==> f(cs[k]) == 0
    ensures Sum(cs, f) == 0
  {
    if cs != [] {
      SumZero(cs[1..], f);
    }
  }

  lemma {:induction false} SumPositive(cs: seq<Thread>, f: Thread -> int, k: nat)
    requires k < |cs| && f(cs[k]) > 0
    requires forall j :: 0 <= j < |cs| ==> f(cs[j]) >= 0
    ensures Sum(cs, f) > 0
    decreases k
  {
    if k > 0 {
      SumPositive(cs[1..], f, k - 1);
    } else {
      SumNonNegative(cs[1..], f);
    }
  }

  lemma {:induction false} SumNonNegative(cs: seq<Thread>, f: Thread -> int)
    requires forall j :: 0 <= j < |cs| ==> f(cs[j]) >= 0
    ensures Sum(cs, f) >= 0
  {
    if cs != [] {
      SumNonNegative(cs[1..], f);
    }
  }

  lemma {:induction false} SumEqual(l: nat, c: nat, f: Thread -> int)
    ensures Sum(seq(c, _ => Thread(Idle, l)), f) == c * f(Thread(Idle, l))
    decreases c
  {
    if c > 0 {
      var cs := seq(c, _ => Thread(Idle, l));
      assert cs[1..] == seq(c - 1, _ => Thread(Idle, l));
      SumEqual(l, c - 1, f);
    }
  }

  function Left(th: Thread): int { th.left }

  /** Not waiting and not yet done with its changes. */
  function AwakeOne(th: Thread): int { if !th.pc.Waiting? && th.left > 0 then 1 else 0 }

  function ChangedOne(th: Thread): int { if th.pc.Changed? then 1 else 0 }

  // ----- the invariant

  /** A thread holds the mutex exactly inside its critical section; only a finished change may leave nothing to do. */
  ghost predicate ThreadOk(s: State, t: Id) {
    HasThread(s, t) ==>
      var th := Get(s, t);
      && (Holding(th) <==> s.mutex == t)
      && (th.pc.Checking? || th.pc.Waiting? || th.pc.Woken? ==> th.left > 0)
  }

  ghost predicate ThreadsOk(s: State) {
    && (s.mutex == Free || HasThread(s, s.mutex))
    && forall t :: ThreadOk(s, t)
  }

  /** A step of thread `t` that moves the mutex only between `t` and free keeps the threads consistent. */
  lemma KeepThreads(s: State, s': State, t: Id)
    requires ThreadsOk(s) && HasThread(s, t)
    requires |s'.consumers| == |s.consumers|
    requires s'.mutex == s.mutex || (s.mutex in {t, Free} && s'.mutex in {t, Free})
    requires forall u :: HasThread(s, u) && u != t ==> Get(s', u) == Get(s, u)
    requires ThreadOk(s', t)
    ensures ThreadsOk(s')
  {
    forall u
      ensures ThreadOk(s', u)
    {
      assert ThreadOk(s, u);
    }
  }

  /** What is in the ring is what the consumers still have to take, less what is still to be produced. */
  ghost predicate Balance(s: State) {
    s.ring.occupied == Sum(s.consumers, Left) - s.producer.left
  }

  /** A waiting producer means a full ring, or a consumer about to signal. */
  ghost predicate ProducerWaitOk(s: State) {
    s.producer.pc.Waiting? ==>
      s.ring.occupied == |s.ring.buf| || (s.mutex.Consumer? && HasThread(s, s.mutex) && Get(s, s.mutex).pc.Changed?)
  }

  /** While a consumer waits, each item has an awake consumer to take it, or a signal is about to be sent. */
  ghost predicate ConsumerWaitOk(s: State) {
    SomeoneWaits(s, Producer) ==> s.ring.occupied <= Sum(s.consumers, AwakeOne) + ChangedOne(s.producer)
  }

  ghost predicate Inv(s: State) {
    RingOk(s.ring) && ThreadsOk(s) && Balance(s) && ProducerWaitOk(s) && ConsumerWaitOk(s)
  }

  lemma StartInv(n: nat, c: nat, l: nat)
    requires n > 0
    ensures Inv(Start(n, c, l))
  {
    SumEqual(l, c, Left);
  }

  /** How one thread's replacement moves the two consumer sums. */
  lemma SetSums(s: State, t: Id, th: Thread)
    requires HasThread(s, t)
    ensures Sum(SetThread(s, t, th).consumers, Left) ==
      Sum(s.consumers, Left) + (if t == Producer then 0 else th.left - Get(s, t).left)
    ensures Sum(SetThread(s, t, th).consumers, AwakeOne) ==
      Sum(s.consumers, AwakeOne) + (if t == Producer then 0 else AwakeOne(th) - AwakeOne(Get(s, t)))
  {
    if t.Consumer? {
      SumUpdate(s.consumers, Left, t.k, th);
      SumUpdate(s.consumers, AwakeOne, t.k, th);
    }
  }

  /** Someone waits after a consumer's replacement only if someone waited before or it waits itself. */
  lemma WaitersAfter(s: State, t: Id, th: Thread)
    requires HasThread(s, t) && !th.pc.Waiting?
    ensures SomeoneWaits(SetThread(s, t, th), Producer) ==> SomeoneWaits(s, Producer)
  {
    var s' := SetThread(s, t, th);
    if SomeoneWaits(s', Producer) {
      var k :| 0 <= k < |s'.consumers| && s'.consumers[k].pc.Waiting?;
      assert s.consumers[k].pc.Waiting?;
    }
  }

  lemma LockInv(s: State, t: Id)
    requires Inv(s) && Enabled(s, Lock(t))
    ensures Inv(Next(s, Lock(t)))
  {
    var th := Get(s, t).(pc := Checking);
    assert ThreadOk(s, t);
    KeepThreads(s, Next(s, Lock(t)), t);
    SetSums(s, t, th);
    WaitersAfter(s, t, th);
  }

  lemma WaitInv(s: State, t: Id)
    requires Inv(s) && Enabled(s, Wait(t))
    ensures Inv(Next(s, Wait(t)))
  {
    assert ThreadOk(s, t) && ThreadOk(s, Producer);
    KeepThreads(s, Next(s, Wait(t)), t);
    SetSums(s, t, Get(s, t).(pc := Waiting));
    SumNonNegative(Next(s, Wait(t)).consumers, AwakeOne);
  }

  lemma ChangeInv(s: State, t: Id)
    requires Inv(s) && Enabled(s, Change(t))
    ensures Inv(Next(s, Change(t)))
  {
    var th := Thread(Changed, Get(s, t).left - 1);
    assert ThreadOk(s, t) && ThreadOk(s, Producer);
    KeepThreads(s, Next(s, Change(t)), t);
    SetSums(s, t, th);
    WaitersAfter(s, t, th);
    if t == Producer {
      PutOk(s.ring);
    } else {
      TakeOk(s.ring);
    }
  }

  lemma SignalInv(s: State, t: Id, w: Id)
    requires Inv(s) && Enabled(s, Signal(t, w))
    ensures Inv(Next(s, Signal(t, w)))
  {
    var s' := SetPc(s, t, Signalled);
    assert ThreadOk(s, t) && ThreadOk(s, Producer);
    KeepThreads(s, s', t);
    SetSums(s, t, Get(s, t).(pc := Signalled));
    WaitersAfter(s, t, Get(s, t).(pc := Signalled));
    if w != Free {
      assert ThreadOk(s', w);
      KeepThreads(s', SetPc(s', w, Woken), w);
      SetSums(s', w, Get(s', w).(pc := Woken));
      WaitersAfter(s', w, Get(s', w).(pc := Woken));
    }
  }

  lemma UnlockInv(s: State, t: Id)
    requires Inv(s) && Enabled(s, Unlock(t))
    ensures Inv(Next(s, Unlock(t)))
  {
    var th := Get(s, t).(pc := Idle);
    assert ThreadOk(s, t) && ThreadOk(s, Producer);
    KeepThreads(s, Next(s, Unlock(t)), t);
    SetSums(s, t, th);
    WaitersAfter(s, t, th);
  }

  lemma SpuriousInv(s: State, t: Id)
    requires Inv(s) && Enabled(s, Spurious(t))
    ensures Inv(Next(s, Spurious(t)))
  {
    var th := Get(s, t).(pc := Woken);
    assert ThreadOk(s, t);
    KeepThreads(s, Next(s, Spurious(t)), t);
    SetSums(s, t, th);
    WaitersAfter(s, t, th);
  }

  lemma StepInv(s: State, a: Action)
    requires Inv(s) && Enabled(s, a)
    ensures Inv(Next(s, a))
  {
    hide Inv, Next;
    match a
    case Lock(t) => LockInv(s, t);
    case Wait(t) => WaitInv(s, t);
    case Change(t) => ChangeInv(s, t);
    case Signal(t, w) => SignalInv(s, t, w);
    case Unlock(t) => UnlockInv(s, t);
    case Spurious(t) => SpuriousInv(s, t);
  }

  // ----- no deadlock, and every run ends

  ghost predicate AllDone(s: State) {
    forall t :: HasThread(s, t) ==> Done(Get(s, t))
  }

  lemma HolderMoves(s: State) returns (a: Action)
    requires Inv(s) && s.mutex != Free
    ensures Enabled(s, a) && !a.Spurious?
  {
    var t := s.mutex;
    assert ThreadOk(s, t);
    var th := Get(s, t);
    if th.pc.Checking? {
      a := if Blocked(s, t) then Wait(t) else Change(t);
    } else if th.pc.Changed? {
      if !SomeoneWaits(s, t) {
        a := Signal(t, Free);
      } else if t == Producer {
        var k :| 0 <= k < |s.consumers| && s.consumers[k].pc.Waiting?;
        a := Signal(t, Consumer(k));
      } else {
        a := Signal(t, Producer);
      }
    } else {
      a := Unlock(t);
    }
  }

  /** Nobody can lock: every thread is done or waiting. */
  ghost predicate Stuck(s: State) {
    s.mutex == Free && forall t :: HasThread(s, t) ==> Done(Get(s, t)) || Get(s, t).pc.Waiting?
  }

  lemma StuckMeansDone(s: State)
    requires Inv(s) && Stuck(s)
    ensures AllDone(s)
  {
    forall k | 0 <= k < |s.consumers|
      ensures AwakeOne(s.consumers[k]) == 0
      ensures !s.consumers[k].pc.Waiting? ==> Left(s.consumers[k]) == 0
      ensures s.consumers[k].pc.Waiting? ==> Left(s.consumers[k]) > 0
    {
      assert Get(s, Consumer(k)) == s.consumers[k];
      assert ThreadOk(s, Consumer(k));
    }
    assert ThreadOk(s, Producer) && (Done(Get(s, Producer)) || Get(s, Producer).pc.Waiting?);
    SumZero(s.consumers, AwakeOne);
    if k :| 0 <= k < |s.consumers| && s.consumers[k].pc.Waiting? {
      SumPositive(s.consumers, Left, k);
    } else {
      SumZero(s.consumers, Left);
    }
    forall t | HasThread(s, t)
      ensures Done(Get(s, t))
    {
    }
  }

  /** In every consistent state some step other than a spurious wakeup is possible, unless all threads are done. */
  lemma NoDeadlock(s: State)
    requires Inv(s)
    ensures AllDone(s) || exists a :: Enabled(s, a) && !a.Spurious?
  {
    if s.mutex != Free {
      var a := HolderMoves(s);
    } else if !Stuck(s) {
      var t :| HasThread(s, t) && !Done(Get(s, t)) && !Get(s, t).pc.Waiting?;
      assert ThreadOk(s, t);
      assert Enabled(s, Lock(t));
    } else {
      StuckMeansDone(s);
    }
  }

  /** When all threads are done the ring is empty. */
  lemma DoneEmpty(s: State)
    requires Inv(s) && AllDone(s)
    ensures s.ring.occupied == 0 && s.ring.nextin == s.ring.nextout
    ensures forall k :: 0 <= k < |s.ring.buf| ==> s.ring.buf[k] == 0
  {
    forall k | 0 <= k < |s.consumers|
      ensures Left(s.consumers[k]) == 0
    {
      assert Get(s, Consumer(k)) == s.consumers[k];
    }
    SumZero(s.consumers, Left);
    assert Done(Get(s, Producer));
    WrapOnce(s.ring.nextout, |s.ring.buf|);
  }

  function Weight(pc: Pc): int {
    match pc
    case Idle => 4
    case Checking => 3
    case Waiting => 2
    case Woken => 4
    case Changed => 8
    case Signalled => 5
  }

  /** What a thread can still do, in steps. */
  function Work(th: Thread): int { 8 * th.left + Weight(th.pc) }

  function TotalWork(s: State): int { Work(s.producer) + Sum(s.consumers, Work) }

  lemma SetWork(s: State, t: Id, th: Thread)
    requires HasThread(s, t)
    ensures TotalWork(SetThread(s, t, th)) == TotalWork(s) - Work(Get(s, t)) + Work(th)
  {
    if t.Consumer? {
      SumUpdate(s.consumers, Work, t.k, th);
    }
  }

  lemma StepWork(s: State, a: Action)
    requires Enabled(s, a)
    ensures if a.Spurious? then TotalWork(Next(s, a)) == TotalWork(s) + 2 else TotalWork(Next(s, a)) < TotalWork(s)
  {
    match a
    case Lock(t) => SetWork(s, t, Get(s, t).(pc := Checking));
    case Wait(t) => SetWork(s, t, Get(s, t).(pc := Waiting));
    case Change(t) => SetWork(s, t, Thread(Changed, Get(s, t).left - 1));
    case Signal(t, w) =>
      SetWork(s, t, Get(s, t).(pc := Signalled));
      var s' := SetPc(s, t, Signalled);
      if w != Free {
        SetWork(s', w, Get(s', w).(pc := Woken));
      }
    case Unlock(t) => SetWork(s, t, Get(s, t).(pc := Idle));
    case Spurious(t) => SetWork(s, t, Get(s, t).(pc := Woken));
  }

  // ----- runs

  /** The actions can be taken in order from `s`. */
  predicate IsRun(s: State, run: seq<Action>)
    decreases |run|
  {
    run == [] || (Enabled(s, run[0]) && IsRun(Next(s, run[0]), run[1..]))
  }

  function After(s: State, run: seq<Action>): State
    requires IsRun(s, run)
    decreases |run|
  {
    if run == [] then s else After(Next(s, run[0]), run[1..])
  }

  function SpuriousCount(run: seq<Action>): nat {
    if run == [] then 0 else (if run[0].Spurious? then 1 else 0) + SpuriousCount(run[1..])
  }

  lemma {:induction false} RunInv(s: State, run: seq<Action>)
    requires Inv(s) && IsRun(s, run)
    ensures Inv(After(s, run))
    ensures |run| + TotalWork(After(s, run)) <= TotalWork(s) + 3 * SpuriousCount(run)
    decreases |run|
  {
    hide Inv, Enabled, Next, TotalWork;
    if run != [] {
      StepInv(s, run[0]);
      StepWork(s, run[0]);
      RunInv(Next(s, run[0]), run[1..]);
    }
  }

  lemma WorkNonNegative(s: State)
    ensures TotalWork(s) >= 0
  {
    SumNonNegative(s.consumers, Work);
  }

  lemma StartWork(n: nat, c: nat, l: nat)
    ensures TotalWork(Start(n, c, l)) == 16 * (c * l) + 4 * c + 4
  {
    SumEqual(l, c, Work);
    Distribute(c, l);
  }

  lemma Distribute(c: nat, l: nat)
    ensures c * (8 * l + 4) == 8 * (c * l) + 4 * c
  {
  }

  /** A run has only so many steps beyond its spurious wakeups. */
  lemma {:induction false} RunBound(n: nat, c: nat, l: nat, run: seq<Action>)
    requires n > 0 && IsRun(Start(n, c, l), run)
    ensures |run| <= 16 * (c * l) + 4 * c + 4 + 3 * SpuriousCount(run)
  {
    StartInv(n, c, l);
    StartWork(n, c, l);
    hide Start, Inv, TotalWork, SpuriousCount;
    RunInv(Start(n, c, l), run);
    WorkNonNegative(After(Start(n, c, l), run));
  }

  /**
    From the start, for any ring size, number of consumers and number of items, every
    reachable state keeps the ring consistent and is not deadlocked; and when all are
    done the ring is empty.
   */
  lemma {:induction false} EveryRun(n: nat, c: nat, l: nat, run: seq<Action>)
    requires n > 0 && IsRun(Start(n, c, l), run)
    ensures var s := After(Start(n, c, l), run);
      && RingOk(s.ring)
      && (AllDone(s) || exists a :: Enabled(s, a) && !a.Spurious?)
      && (AllDone(s) ==> s.ring.occupied == 0 && s.ring.nextin == s.ring.nextout)
  {
    var s := After(Start(n, c, l), run);
    StartInv(n, c, l);
    hide Start, IsRun, After, Enabled;
    RunInv(Start(n, c, l), run);
    NoDeadlock(s);
    if AllDone(s) {
      DoneEmpty(s);
    }
  }
}
