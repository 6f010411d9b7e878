/**
  The latency histogram of sysbench's sb_histogram.c with the compare-and-swap
  loop of sb_ck_pr.h that its merges rely on.

  Recording threads run at any time: `Interfere` lets any number of recordings happen
  before and between the two atomic accesses of a fetch-and-store.  The environment
  makes finitely many recordings in all (`budget`), which is what lets a retry loop end.
  Everything else is touched only under the write lock, by one thread at a time.
  A bucket is the rounded, clamped index that the logarithm yields; that rounding is a
  parameter.  Counters are unbounded.
 */
module Histogram {

  /** SB_HISTOGRAM_NSLOTS */
  const NSLOTS: nat := 128

  // ----- sums

  function Sum(a: seq<nat>): nat {
    if a == [] then 0 else Sum(a[..|a| - 1]) + a[|a| - 1]
  }

  lemma {:induction false} SumUpdate(a: seq<nat>, i: nat, v: nat)
    requires i < |a|
    ensures Sum(a[i := v]) == Sum(a) - a[i] + v
    decreases |a|
  {
    var b := a[i := v];
    if i < |a| - 1 {
      assert b[..|a| - 1] == a[..|a| - 1][i := v];
      SumUpdate(a[..|a| - 1], i, v);
    } else {
      assert b[..|a| - 1] == a[..|a| - 1];
    }
  }

  lemma {:induction false} SumZero(a: seq<nat>)
    requires forall k :: 0 <= k < |a| ==> a[k] == 0
    ensures Sum(a) == 0
  {
    if a != [] {
      SumZero(a[..|a| - 1]);
    }
  }

  lemma SumPrefix(a: seq<nat>, i: nat)
    requires i < |a|
    ensures Sum(a[..i + 1]) == Sum(a[..i]) + a[i]
  {
    assert a[..i + 1][..i] == a[..i];
  }

  /** The slots with cell (s, i) set to `v`. */
  function SetCell(slots: seq<seq<nat>>, s: nat, i: nat, v: nat): (r: seq<seq<nat>>)
    requires s < |slots| && i < |slots[s]|
    ensures |r| == |slots| && forall t :: 0 <= t < |slots| ==> |r[t]| == |slots[t]|
  {
    var row: seq<nat> := slots[s];
    var row': seq<nat> := row[i := v];
    slots[s := row']
  }

  /** The events in bucket `b` over all slots. */
  function Column(slots: seq<seq<nat>>, b: nat): nat
    requires forall s :: 0 <= s < |slots| ==> b < |slots[s]|
  {
    if slots == [] then 0 else slots[0][b] + Column(slots[1..], b)
  }

  lemma {:induction false} ColumnUpdate(slots: seq<seq<nat>>, s: nat, i: nat, v: nat, b: nat)
    requires s < |slots| && i < |slots[s]|
    requires forall t :: 0 <= t < |slots| ==> b < |slots[t]|
    ensures Column(SetCell(slots, s, i, v), b) ==
      if b == i then Column(slots, b) - slots[s][i] + v else Column(slots, b)
    decreases s
  {
    var slots' := SetCell(slots, s, i, v);
    if s == 0 {
      assert slots'[1..] == slots[1..];
    } else {
      assert slots'[1..] == SetCell(slots[1..], s - 1, i, v);
      ColumnUpdate(slots[1..], s - 1, i, v, b);
    }
  }

  lemma {:induction false} ColumnZero(slots: seq<seq<nat>>, b: nat)
    requires forall s :: 0 <= s < |slots| ==> b < |slots[s]| && slots[s][b] == 0
    ensures Column(slots, b) == 0
  {
    if slots != [] {
      ColumnZero(slots[1..], b);
    }
  }

  // ----- percentiles

  /** floor(n * percentile / 100 + 0.5) */
  function Rank(n: nat, percentile: real): int {
    ((n as real) * percentile / 100.0 + 0.5).Floor
  }

  lemma RankBound(n: nat, percentile: real)
    requires 0.0 <= percentile <= 100.0
    ensures 0 <= Rank(n, percentile) <= n
  {
    var x := n as real;
    assert x * percentile <= x * 100.0;
    assert x * percentile >= 0.0;
  }

  /** The running count up to and including bucket `k`. */
  function Running(a: seq<nat>, k: nat): nat
    requires k < |a|
  {
    Sum(a[..k + 1])
  }

  /** `i` is the first bucket where the running count reaches the rank, or the size if none does. */
  ghost predicate IsPercentile(a: seq<nat>, rank: int, i: nat) {
    && i <= |a|
    && (i < |a| ==> Running(a, i) >= rank)
    && forall k :: 0 <= k < i ==> Running(a, k) < rank
  }

  /** For percentiles up to 100 the scan stops inside a non-empty array. */
  lemma PercentileInside(a: seq<nat>, percentile: real, i: nat)
    requires 0.0 <= percentile <= 100.0 && a != []
    requires IsPercentile(a, Rank(Sum(a), percentile), i)
    ensures i < |a|
  {
    RankBound(Sum(a), percentile);
    if i == |a| {
      assert a[..|a| - 1 + 1] == a;
      assert Running(a, |a| - 1) == Sum(a);
    }
  }

  lemma {:induction false} PrefixBelow(a: seq<nat>, k: nat)
    requires k <= |a|
    ensures Sum(a[..k]) <= Sum(a)
    decreases |a| - k
  {
    if k < |a| {
      SumPrefix(a, k);
      PrefixBelow(a, k + 1);
    } else {
      assert a[..k] == a;
    }
  }

  /** The count is more than `percentile` percent of `n` events less half an event. */
  predicate Exceeds(count: nat, n: nat, percentile: real) {
    100.0 * (count as real) > (n as real) * percentile - 50.0
  }

  /** A count reaches the rank exactly when it exceeds the share. */
  lemma AtRank(count: nat, n: nat, percentile: real)
    ensures count >= Rank(n, percentile) <==> Exceeds(count, n, percentile)
  {
    var x := (n as real) * percentile;
    assert x / 100.0 + 0.5 < (count as real) + 1.0 <==> x < 100.0 * (count as real) + 50.0;
  }

  lemma PrefixesGrow(a: seq<nat>, k: nat, i: nat)
    requires k <= i <= |a|
    ensures Sum(a[..k]) <= Sum(a[..i])
  {
    PrefixBelow(a[..i], k);
    assert a[..i][..k] == a[..k];
  }

  /** The percentile bucket is where the share of the events, less half an event, is first exceeded. */
  lemma PercentileExactly(a: seq<nat>, percentile: real, i: nat)
    requires i < |a|
    ensures IsPercentile(a, Rank(Sum(a), percentile), i) <==>
      Exceeds(Sum(a[..i + 1]), Sum(a), percentile) && (i > 0 ==> !Exceeds(Sum(a[..i]), Sum(a), percentile))
  {
    hide Rank, Exceeds;
    AtRank(Sum(a[..i + 1]), Sum(a), percentile);
    if i > 0 {
      AtRank(Sum(a[..i]), Sum(a), percentile);
      assert Running(a, i - 1) == Sum(a[..i]);
      forall k | 0 <= k < i
        ensures Running(a, k) <= Sum(a[..i])
      {
        PrefixesGrow(a, k + 1, i);
      }
    }
  }

  /**
    Why the count must start at zero: with `extra` events counted that are in no bucket, the scan
    stops at a bucket exactly when the rank computed from the count is within the buckets' sum.
   */
  lemma StaleCountExactly(a: seq<nat>, extra: nat, percentile: real, i: nat)
    requires a != [] && IsPercentile(a, Rank(Sum(a) + extra, percentile), i)
    ensures i < |a| <==> Rank(Sum(a) + extra, percentile) <= Sum(a)
  {
    if i < |a| {
      PrefixBelow(a, i + 1);
    } else {
      assert a[..|a| - 1 + 1] == a;
      assert Running(a, |a| - 1) == Sum(a);
    }
  }

  /** For percentile 100 that is exactly when nothing extra was counted. */
  lemma StaleCountAtHundred(a: seq<nat>, extra: nat, i: nat)
    requires a != [] && IsPercentile(a, Rank(Sum(a) + extra, 100.0), i)
    ensures i < |a| <==> extra == 0
  {
    StaleCountExactly(a, extra, 100.0, i);
    var n := Sum(a) + extra;
    assert (n as real) * 100.0 / 100.0 == n as real;
  }

  method Scan(a: seq<nat>, rank: int) returns (i: nat)
    ensures IsPercentile(a, rank, i)
  {
    var ncur: nat := 0;
    i := 0;
    while i < |a|
      invariant i <= |a| && ncur == Sum(a[..i])
      invariant forall k :: 0 <= k < i ==> Running(a, k) < rank
    {
      SumPrefix(a, i);
      ncur := ncur + a[i];
      if ncur >= rank {
        break;
      }
      i := i + 1;
    }
  }

  // ----- conservation

  /** Where the events of the buckets are: in slots, on their way, accumulated, or dropped by a checkpoint. */
  datatype Ledger = Ledger(
    recorded: seq<nat>, slots: seq<seq<nat>>, transit: seq<nat>, cumulative: seq<nat>, reset: seq<nat>)

  ghost predicate Sized(l: Ledger, size: nat) {
    && |l.slots| == NSLOTS && (forall s :: 0 <= s < |l.slots| ==> |l.slots[s]| == size)
    && |l.recorded| == |l.transit| == |l.cumulative| == |l.reset| == size
  }

  ghost predicate BalancedAt(l: Ledger, size: nat, b: nat)
    requires Sized(l, size) && b < size
  {
    l.recorded[b] == Column(l.slots, b) + l.transit[b] + l.cumulative[b] + l.reset[b]
  }

  ghost predicate Balanced(l: Ledger, size: nat) {
    Sized(l, size) && forall b :: 0 <= b < size ==> BalancedAt(l, size, b)
  }

  /** A recording adds one event to a slot. */
  lemma RecordBalanced(l: Ledger, size: nat, s: nat, i: nat)
    requires Balanced(l, size) && s < NSLOTS && i < size
    ensures Balanced(l.(recorded := l.recorded[i := l.recorded[i] + 1],
      slots := SetCell(l.slots, s, i, l.slots[s][i] + 1)), size)
  {
    var l' := l.(recorded := l.recorded[i := l.recorded[i] + 1], slots := SetCell(l.slots, s, i, l.slots[s][i] + 1));
    forall b | 0 <= b < size
      ensures BalancedAt(l', size, b)
    {
      assert BalancedAt(l, size, b);
      ColumnUpdate(l.slots, s, i, l.slots[s][i] + 1, b);
    }
  }

  /** A taken cell is on its way. */
  lemma TakeBalanced(l: Ledger, size: nat, s: nat, i: nat)
    requires Balanced(l, size) && s < NSLOTS && i < size
    ensures Balanced(l.(slots := SetCell(l.slots, s, i, 0), transit := l.transit[i := l.transit[i] + l.slots[s][i]]), size)
  {
    var l' := l.(slots := SetCell(l.slots, s, i, 0), transit := l.transit[i := l.transit[i] + l.slots[s][i]]);
    forall b | 0 <= b < size
      ensures BalancedAt(l', size, b)
    {
      assert BalancedAt(l, size, b);
      ColumnUpdate(l.slots, s, i, 0, b);
    }
  }

  /** What was on its way in bucket `i` arrives in the cumulative array. */
  lemma ArriveBalanced(l: Ledger, size: nat, i: nat, t: nat)
    requires Balanced(l, size) && i < size && t <= l.transit[i]
    ensures Balanced(l.(transit := l.transit[i := l.transit[i] - t], cumulative := l.cumulative[i := l.cumulative[i] + t]), size)
  {
    var l' := l.(transit := l.transit[i := l.transit[i] - t], cumulative := l.cumulative[i := l.cumulative[i] + t]);
    forall b | 0 <= b < size
      ensures BalancedAt(l', size, b)
    {
      assert BalancedAt(l, size, b);
    }
  }

  function AddEach(a: seq<nat>, b: seq<nat>): (c: seq<nat>)
    requires |a| == |b|
    ensures |c| == |a| && forall k :: 0 <= k < |a| ==> c[k] == a[k] + b[k]
  {
    seq(|a|, k requires 0 <= k < |a| => a[k] + b[k])
  }

  function Zeros(n: nat): (z: seq<nat>)
    ensures |z| == n && forall k :: 0 <= k < n ==> z[k] == 0
  {
    seq(n, _ => 0)
  }

  /** A checkpoint drops the cumulative array. */
  lemma ResetBalanced(l: Ledger, size: nat)
    requires Balanced(l, size)
    ensures Balanced(l.(reset := AddEach(l.reset, l.cumulative), cumulative := Zeros(size)), size)
  {
    var l' := l.(reset := AddEach(l.reset, l.cumulative), cumulative := Zeros(size));
    forall b | 0 <= b < size
      ensures BalancedAt(l', size, b)
    {
      assert BalancedAt(l, size, b);
    }
  }

  lemma StartBalanced(size: nat)
    ensures Balanced(Ledger(Zeros(size), seq(NSLOTS, _ => Zeros(size)), Zeros(size), Zeros(size), Zeros(size)), size)
  {
    var l := Ledger(Zeros(size), seq(NSLOTS, _ => Zeros(size)), Zeros(size), Zeros(size), Zeros(size));
    forall b | 0 <= b < size
      ensures BalancedAt(l, size, b)
    {
      ColumnZero(l.slots, b);
    }
  }

  // ----- a sweep over the slots

  ghost predicate Rows(slots: seq<seq<nat>>, recorded: seq<nat>, size: nat) {
    |slots| == NSLOTS && |recorded| == size && forall s :: 0 <= s < |slots| ==> |slots[s]| == size
  }

  /** In bucket `b` the first `k` slots together gained at most what was recorded. */
  ghost predicate DriftAt(slots: seq<seq<nat>>, rec: seq<nat>, slots': seq<seq<nat>>, rec': seq<nat>, size: nat, k: nat, b: nat)
    requires Rows(slots, rec, size) && Rows(slots', rec', size) && k <= NSLOTS && b < size
  {
    Column(slots'[..k], b) + rec[b] <= Column(slots[..k], b) + rec'[b]
  }

  ghost predicate Drift(slots: seq<seq<nat>>, rec: seq<nat>, slots': seq<seq<nat>>, rec': seq<nat>, size: nat) {
    && Rows(slots, rec, size) && Rows(slots', rec', size)
    && forall k, b :: 0 <= k <= NSLOTS && 0 <= b < size ==> DriftAt(slots, rec, slots', rec', size, k, b)
  }

  lemma DriftTrans(a: seq<seq<nat>>, r: seq<nat>, b: seq<seq<nat>>, r': seq<nat>, c: seq<seq<nat>>, r'': seq<nat>, size: nat)
    requires Drift(a, r, b, r', size) && Drift(b, r', c, r'', size)
    ensures Drift(a, r, c, r'', size)
  {
    forall k, x | 0 <= k <= NSLOTS && 0 <= x < size ensures DriftAt(a, r, c, r'', size, k, x) {
      assert DriftAt(a, r, b, r', size, k, x) && DriftAt(b, r', c, r'', size, k, x);
    }
  }

  lemma DriftNone(slots: seq<seq<nat>>, rec: seq<nat>, size: nat)
    requires Rows(slots, rec, size)
    ensures Drift(slots, rec, slots, rec, size)
  {
  }

  lemma PrefixUpdate(slots: seq<seq<nat>>, s: nat, i: nat, v: nat, k: nat, b: nat)
    requires s < |slots| && i < |slots[s]| && k <= |slots|
    requires forall t :: 0 <= t < |slots| ==> b < |slots[t]|
    ensures Column(SetCell(slots, s, i, v)[..k], b) ==
      if b == i && s < k then Column(slots[..k], b) - slots[s][i] + v else Column(slots[..k], b)
  {
    if s < k {
      assert SetCell(slots, s, i, v)[..k] == SetCell(slots[..k], s, i, v);
      ColumnUpdate(slots[..k], s, i, v, b);
    } else {
      assert SetCell(slots, s, i, v)[..k] == slots[..k];
    }
  }

  /** A recording raises slot and count together. */
  lemma RecordDrift(slots: seq<seq<nat>>, rec: seq<nat>, size: nat, s: nat, i: nat)
    requires Rows(slots, rec, size) && s < NSLOTS && i < size
    ensures Drift(slots, rec, SetCell(slots, s, i, slots[s][i] + 1), rec[i := rec[i] + 1], size)
  {
    var slots', rec' := SetCell(slots, s, i, slots[s][i] + 1), rec[i := rec[i] + 1];
    forall k, b | 0 <= k <= NSLOTS && 0 <= b < size ensures DriftAt(slots, rec, slots', rec', size, k, b) {
      PrefixUpdate(slots, s, i, slots[s][i] + 1, k, b);
    }
  }

  lemma ZeroDrift(slots: seq<seq<nat>>, rec: seq<nat>, size: nat, s: nat, i: nat)
    requires Rows(slots, rec, size) && s < NSLOTS && i < size
    ensures Drift(slots, rec, SetCell(slots, s, i, 0), rec, size)
  {
    forall k, b | 0 <= k <= NSLOTS && 0 <= b < size
      ensures DriftAt(slots, rec, SetCell(slots, s, i, 0), rec, size, k, b)
    {
      PrefixUpdate(slots, s, i, 0, k, b);
    }
  }

  lemma {:induction false} ColumnSnoc(slots: seq<seq<nat>>, k: nat, b: nat)
    requires k < |slots| && forall t :: 0 <= t < |slots| ==> b < |slots[t]|
    ensures Column(slots[..k + 1], b) == Column(slots[..k], b) + slots[k][b]
    decreases k
  {
    if k > 0 {
      assert slots[..k + 1][1..] == slots[1..][..k] && slots[..k][1..] == slots[1..][..k - 1];
      ColumnSnoc(slots[1..], k - 1, b);
    }
  }

  /** Of bucket `b`, the slots swept so far hold only events recorded since `rec0`. */
  ghost predicate SweptAt(slots: seq<seq<nat>>, rec: seq<nat>, rec0: seq<nat>, size: nat, s: nat, i: nat, b: nat)
    requires Rows(slots, rec, size) && |rec0| == size && s <= NSLOTS && b < size && (s == NSLOTS ==> i == 0)
  {
    Column(slots[..if b < i then s + 1 else s], b) + rec0[b] <= rec[b]
  }

  /** The sweep has emptied the slots before `s`, and slot `s` up to bucket `i`. */
  ghost predicate Swept(slots: seq<seq<nat>>, rec: seq<nat>, rec0: seq<nat>, size: nat, s: nat, i: nat) {
    && Rows(slots, rec, size) && |rec0| == size && s <= NSLOTS && i <= size && (s == NSLOTS ==> i == 0)
    && forall b :: 0 <= b < size ==> SweptAt(slots, rec, rec0, size, s, i, b)
  }

  lemma SweepStart(slots: seq<seq<nat>>, rec: seq<nat>, size: nat)
    requires Rows(slots, rec, size)
    ensures Swept(slots, rec, rec, size, 0, 0)
  {
    assert forall b :: 0 <= b < size ==> SweptAt(slots, rec, rec, size, 0, 0, b);
  }

  /** A cell found and left at zero, with recordings going on all the time. */
  lemma SweepCell(slots: seq<seq<nat>>, rec: seq<nat>, slots': seq<seq<nat>>, rec': seq<nat>, rec0: seq<nat>,
                  size: nat, s: nat, i: nat)
    requires s < NSLOTS && i < size && Swept(slots, rec, rec0, size, s, i)
    requires Drift(slots, rec, slots', rec', size) && slots'[s][i] == 0
    ensures Swept(slots', rec', rec0, size, s, i + 1)
  {
    var n := i + 1;
    forall b | 0 <= b < size
      ensures SweptAt(slots', rec', rec0, size, s, n, b)
    {
      var k := if b < i then s + 1 else s;
      assert SweptAt(slots, rec, rec0, size, s, i, b) && DriftAt(slots, rec, slots', rec', size, k, b);
      if b == i {
        ColumnSnoc(slots', s, b);
      }
    }
  }

  lemma SweepSlot(slots: seq<seq<nat>>, rec: seq<nat>, rec0: seq<nat>, size: nat, s: nat)
    requires s < NSLOTS && Swept(slots, rec, rec0, size, s, size)
    ensures Swept(slots, rec, rec0, size, s + 1, 0)
  {
    var next := s + 1;
    forall b | 0 <= b < size ensures SweptAt(slots, rec, rec0, size, next, 0, b) {
      assert SweptAt(slots, rec, rec0, size, s, size, b);
    }
  }

  /** Everything recorded by `rec0` was collected or dropped by a checkpoint. */
  ghost predicate Collected(rec0: seq<nat>, cumulative: seq<nat>, reset: seq<nat>) {
    |rec0| == |cumulative| == |reset| && forall b :: 0 <= b < |rec0| ==> rec0[b] <= cumulative[b] + reset[b]
  }

  /** After a whole sweep what was recorded before it is out of the slots. */
  lemma SweepDone(l: Ledger, rec0: seq<nat>, size: nat)
    requires Balanced(l, size) && Swept(l.slots, l.recorded, rec0, size, NSLOTS, 0)
    ensures Collected(rec0, AddEach(l.cumulative, l.transit), l.reset)
  {
    assert l.slots[..NSLOTS] == l.slots;
    forall b | 0 <= b < size ensures rec0[b] <= l.cumulative[b] + l.transit[b] + l.reset[b] {
      assert BalancedAt(l, size, b) && SweptAt(l.slots, l.recorded, rec0, size, NSLOTS, 0, b);
    }
  }

  /** The first `i` buckets of `temp` went from `moving` into `now`. */
  ghost predicate HandedOver(moving: seq<nat>, now: seq<nat>, was: seq<nat>, temp: seq<nat>, i: nat) {
    && |moving| == |now| == |was| == |temp|
    && forall k :: 0 <= k < |temp| ==>
         moving[k] == (if k < i then 0 else temp[k]) && now[k] == was[k] + if k < i then temp[k] else 0
  }

  lemma HandedNext(moving: seq<nat>, now: seq<nat>, was: seq<nat>, temp: seq<nat>, i: nat)
    requires i < |temp| && HandedOver(moving, now, was, temp, i)
    ensures moving[i] == temp[i]
    ensures HandedOver(moving[i := moving[i] - temp[i]], now[i := now[i] + temp[i]], was, temp, i + 1)
  {
  }

  lemma HandedAll(moving: seq<nat>, now: seq<nat>, was: seq<nat>, temp: seq<nat>)
    requires HandedOver(moving, now, was, temp, |temp|)
    ensures moving == Zeros(|temp|) && now == AddEach(was, temp)
  {
  }

  ghost predicate Grew(a: seq<nat>, b: seq<nat>) {
    |a| == |b| && forall k :: 0 <= k < |a| ==> a[k] <= b[k]
  }

  // ----- the histogram

  class SbHistogram {
    const size: nat
    var slots: seq<seq<nat>>
    var cumulative: seq<nat>
    var nevents: nat
    var temp: seq<nat>

    /** Recordings that the environment will still make. */
    var budget: nat
    /** Per bucket: events ever recorded, and events dropped by checkpoints. */
    ghost var recorded: seq<nat>
    ghost var reset: seq<nat>

    /** Every recorded event is in a slot, on its way, in the cumulative array, or was dropped by a checkpoint. */
    ghost predicate Conserved(transit: seq<nat>)
      reads this
    {
      size > 0 && |temp| == size && Balanced(Ledger(recorded, slots, transit, cumulative, reset), size)
    }

    /** What holds whenever the lock is free. */
    ghost predicate Valid()
      reads this
    {
      Conserved(Zeros(size)) && nevents == Sum(cumulative)
    }

    constructor (n: nat, b: nat)
      requires n > 0
      ensures Valid() && size == n && recorded == Zeros(n) && |slots| == 128
    {
      size := n;
      slots := seq(NSLOTS, _ => Zeros(n));
      cumulative := Zeros(n);
      temp := Zeros(n);
      nevents := 0;
      budget := b;
      recorded := Zeros(n);
      reset := Zeros(n);
      new;
      SumZero(cumulative);
      StartBalanced(n);
    }

    /** sb_histogram_update with a random number and the unclamped bucket index of the value. */
    method Update(random: nat, raw: int, ghost transit: seq<nat>)
      requires Conserved(transit)
      modifies `slots, `recorded
      ensures Conserved(transit) && Drift(old(slots), old(recorded), slots, recorded, size)
      ensures var s, i := random % NSLOTS, if raw < 0 then 0 else if raw >= size then size - 1 else raw;
        && recorded == old(recorded)[i := old(recorded)[i] + 1]
        && slots == SetCell(old(slots), s, i, old(slots)[s][i] + 1)
    {
      var slot := random % NSLOTS;
      var i: int := raw;
      if i < 0 {
        i := 0;
      } else if i >= size {
        i := size - 1;
      }
      RecordBalanced(Ledger(recorded, slots, transit, cumulative, reset), size, slot, i);
      RecordDrift(slots, recorded, size, slot, i);
      hide Balanced, Drift;
      slots := SetCell(slots, slot, i, slots[slot][i] + 1);
      recorded := recorded[i := recorded[i] + 1];
    }

    /** Other threads record any number of events. */
    method Interfere(ghost transit: seq<nat>)
      requires Conserved(transit)
      modifies `slots, `recorded, `budget
      ensures Conserved(transit) && budget <= old(budget)
      ensures budget == old(budget) ==> slots == old(slots)
      ensures Grew(old(recorded), recorded) && Drift(old(slots), old(recorded), slots, recorded, size)
    {
      DriftNone(slots, recorded, size);
      hide Drift, Balanced;
      var n: nat := *;
      while n > 0 && budget > 0
        invariant Conserved(transit) && budget <= old(budget)
        invariant budget == old(budget) ==> slots == old(slots)
        invariant Grew(old(recorded), recorded) && Drift(old(slots), old(recorded), slots, recorded, size)
        decreases budget
      {
        var random: nat, raw: int := *, *;
        ghost var slots0, recorded0 := slots, recorded;
        Update(random, raw, transit);
        DriftTrans(old(slots), old(recorded), slots0, recorded0, slots, recorded, size);
        budget := budget - 1;
        n := n - 1;
      }
    }

    /** ck_pr_cas_64_value: swap if equal, and report the value found. */
    method Cas(s: nat, i: nat, compare: nat, value: nat) returns (ok: bool, found: nat)
      requires s < |slots| && i < |slots[s]|
      modifies `slots
      ensures found == old(slots)[s][i] && (ok <==> found == compare)
      ensures slots == if ok then SetCell(old(slots), s, i, value) else old(slots)
    {
      found := slots[s][i];
      ok := found == compare;
      if ok {
        slots := SetCell(slots, s, i, value);
      }
    }

    /** ck_pr_fas_64 with zero: whatever the other threads do, the value taken is exactly what leaves the slot. */
    method FetchAndZero(s: nat, i: nat, ghost transit: seq<nat>) returns (previous: nat)
      requires Conserved(transit) && s < NSLOTS && i < size
      modifies `slots, `recorded, `budget
      ensures Conserved(transit[i := transit[i] + previous])
      ensures budget <= old(budget) && Grew(old(recorded), recorded)
      ensures Drift(old(slots), old(recorded), slots, recorded, size) && slots[s][i] == 0
    {
      hide BalancedAt, Drift;
      Interfere(transit);
      previous := slots[s][i];
      while true
        invariant Conserved(transit) && budget <= old(budget) && Grew(old(recorded), recorded)
        invariant Drift(old(slots), old(recorded), slots, recorded, size)
        decreases budget, if slots[s][i] != previous then 1 else 0
      {
        ghost var slots0, recorded0 := slots, recorded;
        Interfere(transit);
        DriftTrans(old(slots), old(recorded), slots0, recorded0, slots, recorded, size);
        ZeroDrift(slots, recorded, size, s, i);
        ghost var slots1 := slots;
        TakeBalanced(Ledger(recorded, slots, transit, cumulative, reset), size, s, i);
        var ok, found := Cas(s, i, previous, 0);
        previous := found;
        if ok {
          DriftTrans(old(slots), old(recorded), slots1, recorded, slots, recorded, size);
          return;
        }
      }
    }

    /** One turn of the merge loop. */
    method MergeCell(s: nat, i: nat, ghost rec0: seq<nat>) returns (t: nat)
      requires Conserved(Zeros(size)) && s < NSLOTS && i < size && Swept(slots, recorded, rec0, size, s, i)
      modifies `slots, `recorded, `budget, `cumulative
      ensures Conserved(Zeros(size)) && Swept(slots, recorded, rec0, size, s, i + 1)
      ensures i < |old(cumulative)| && cumulative == old(cumulative)[i := old(cumulative)[i] + t]
      ensures Sum(cumulative) == Sum(old(cumulative)) + t && Grew(old(recorded), recorded)
    {
      ghost var zeros, slots0, recorded0 := Zeros(size), slots, recorded;
      t := FetchAndZero(s, i, zeros);
      SweepCell(slots0, recorded0, slots, recorded, rec0, size, s, i);
      ghost var moving := zeros[i := zeros[i] + t];
      ArriveBalanced(Ledger(recorded, slots, moving, cumulative, reset), size, i, t);
      assert moving[i := moving[i] - t] == zeros;
      SumUpdate(cumulative, i, cumulative[i] + t);
      hide Balanced, Drift, Swept;
      cumulative := cumulative[i := cumulative[i] + t];
    }

    /**
      merge_intermediate_into_cumulative: every slot is emptied once into the cumulative array,
      so afterwards that array (or an earlier checkpoint) has all that was recorded before.
     */
    method MergeIntermediate()
      requires Valid()
      modifies `slots, `recorded, `budget, `cumulative, `nevents
      ensures Valid() && Grew(old(recorded), recorded) && Grew(old(cumulative), cumulative)
      ensures Collected(old(recorded), cumulative, reset)
    {
      var total := nevents;
      ghost var zeros := Zeros(size);
      SweepStart(slots, recorded, size);
      for s := 0 to NSLOTS
        invariant Conserved(zeros) && total == Sum(cumulative)
        invariant Grew(old(recorded), recorded) && Grew(old(cumulative), cumulative)
        invariant Swept(slots, recorded, old(recorded), size, s, 0)
      {
        for i := 0 to size
          invariant Conserved(zeros) && total == Sum(cumulative)
          invariant Grew(old(recorded), recorded) && Grew(old(cumulative), cumulative)
          invariant Swept(slots, recorded, old(recorded), size, s, i)
        {
          hide Balanced, Swept;
          var t := MergeCell(s, i, old(recorded));
          total := total + t;
        }
        SweepSlot(slots, recorded, old(recorded), size, s);
      }
      nevents := total;
      SweepDone(Ledger(recorded, slots, zeros, cumulative, reset), old(recorded), size);
      assert AddEach(cumulative, zeros) == cumulative;
    }

    /** sb_histogram_get_pct_cumulative; `bucket` is the index the returned value is computed from. */
    method GetPctCumulative(percentile: real) returns (bucket: nat)
      requires Valid()
      modifies `slots, `recorded, `budget, `cumulative, `nevents
      ensures Valid() && Grew(old(recorded), recorded) && Grew(old(cumulative), cumulative)
      ensures Collected(old(recorded), cumulative, reset)
      ensures IsPercentile(cumulative, Rank(nevents, percentile), bucket)
      ensures 0.0 <= percentile <= 100.0 ==> bucket < size
    {
      MergeIntermediate();
      bucket := Scan(cumulative, Rank(nevents, percentile));
      if 0.0 <= percentile <= 100.0 {
        PercentileInside(cumulative, percentile, bucket);
      }
    }

    /** sb_histogram_get_pct_checkpoint: as above, then the accumulated events are dropped. */
    method GetPctCheckpoint(percentile: real) returns (bucket: nat, ghost seen: seq<nat>)
      requires Valid()
      modifies `slots, `recorded, `budget, `cumulative, `nevents, `reset
      ensures Valid() && Grew(old(recorded), recorded) && Grew(old(cumulative), seen)
      ensures IsPercentile(seen, Rank(Sum(seen), percentile), bucket)
      ensures cumulative == Zeros(size) && nevents == 0
      ensures Collected(old(recorded), cumulative, reset)
      ensures |old(reset)| == |seen| && reset == AddEach(old(reset), seen)
    {
      bucket := GetPctCumulative(percentile);
      seen := cumulative;
      ResetBalanced(Ledger(recorded, slots, Zeros(size), cumulative, reset), size);
      SumZero(Zeros(size));
      hide Balanced;
      reset := AddEach(reset, cumulative);
      cumulative := Zeros(size);
      nevents := 0;
    }

    /** The first pass of the intermediate merge: slot zero overwrites the temporary array. */
    method FetchFirst() returns (total: nat)
      requires Valid()
      modifies `slots, `recorded, `budget, `temp
      ensures Conserved(temp) && total == Sum(temp) && Grew(old(recorded), recorded)
      ensures Swept(slots, recorded, old(recorded), size, 1, 0)
    {
      ghost var moving := Zeros(size);
      SumZero(moving);
      SweepStart(slots, recorded, size);
      total := 0;
      for i := 0 to size
        invariant Conserved(moving) && total == Sum(moving) && Grew(old(recorded), recorded)
        invariant forall k :: 0 <= k < size ==> moving[k] == if k < i then temp[k] else 0
        invariant Swept(slots, recorded, old(recorded), size, 0, i)
      {
        ghost var slots0, recorded0 := slots, recorded;
        var t := FetchAndZero(0, i, moving);
        SweepCell(slots0, recorded0, slots, recorded, old(recorded), size, 0, i);
        hide Balanced, Drift, Swept;
        SumUpdate(moving, i, t);
        moving := moving[i := t];
        temp := temp[i := t];
        total := total + t;
      }
      SweepSlot(slots, recorded, old(recorded), size, 0);
      assert moving == temp;
    }

    /** One turn of the second pass. */
    method AddCell(s: nat, i: nat, ghost rec0: seq<nat>) returns (t: nat)
      requires Conserved(temp) && s < NSLOTS && i < size && Swept(slots, recorded, rec0, size, s, i)
      modifies `slots, `recorded, `budget, `temp
      ensures Conserved(temp) && Swept(slots, recorded, rec0, size, s, i + 1)
      ensures Sum(temp) == Sum(old(temp)) + t && Grew(old(recorded), recorded)
    {
      ghost var slots0, recorded0 := slots, recorded;
      t := FetchAndZero(s, i, temp);
      SweepCell(slots0, recorded0, slots, recorded, rec0, size, s, i);
      SumUpdate(temp, i, temp[i] + t);
      hide Balanced, Drift, Swept;
      temp := temp[i := temp[i] + t];
    }

    /** The second pass: the other slots are added. */
    method FetchOthers(first: nat, ghost rec0: seq<nat>) returns (total: nat)
      requires Conserved(temp) && first == Sum(temp) && Swept(slots, recorded, rec0, size, 1, 0)
      modifies `slots, `recorded, `budget, `temp
      ensures Conserved(temp) && total == Sum(temp) && Grew(old(recorded), recorded)
      ensures Swept(slots, recorded, rec0, size, NSLOTS, 0)
    {
      total := first;
      for s := 1 to NSLOTS
        invariant Conserved(temp) && total == Sum(temp) && Grew(old(recorded), recorded)
        invariant Swept(slots, recorded, rec0, size, s, 0)
      {
        for i := 0 to size
          invariant Conserved(temp) && total == Sum(temp) && Grew(old(recorded), recorded)
          invariant Swept(slots, recorded, rec0, size, s, i)
        {
          hide Balanced, Swept;
          var t := AddCell(s, i, rec0);
          total := total + t;
        }
        SweepSlot(slots, recorded, rec0, size, s);
      }
    }

    /** One turn of the last loop. */
    method AddBucket(i: nat, ghost moving: seq<nat>)
      requires i < size && Conserved(moving) && moving[i] == temp[i]
      modifies `cumulative
      ensures i < |old(cumulative)| && cumulative == old(cumulative)[i := old(cumulative)[i] + temp[i]]
      ensures Conserved(moving[i := moving[i] - temp[i]])
      ensures Sum(cumulative) == Sum(old(cumulative)) + temp[i]
    {
      ArriveBalanced(Ledger(recorded, slots, moving, cumulative, reset), size, i, temp[i]);
      SumUpdate(cumulative, i, cumulative[i] + temp[i]);
      hide BalancedAt;
      cumulative := cumulative[i := cumulative[i] + temp[i]];
    }

    /** The last loop: the temporary array is added to the cumulative one. */
    method AddTemp()
      requires Conserved(temp)
      modifies `cumulative
      ensures Conserved(Zeros(size)) && |old(cumulative)| == |temp| && cumulative == AddEach(old(cumulative), temp)
      ensures Sum(cumulative) == Sum(old(cumulative)) + Sum(temp)
    {
      ghost var moving := temp;
      for i := 0 to size
        invariant Conserved(moving)
        invariant HandedOver(moving, cumulative, old(cumulative), temp, i)
        invariant Sum(cumulative) == Sum(old(cumulative)) + Sum(temp[..i])
      {
        SumPrefix(temp, i);
        HandedNext(moving, cumulative, old(cumulative), temp, i);
        hide Balanced, HandedOver;
        AddBucket(i, moving);
        moving := moving[i := moving[i] - temp[i]];
      }
      HandedAll(moving, cumulative, old(cumulative), temp);
      assert temp[..size] == temp;
    }

    /** The two fetching passes: the slots are swept into temp. */
    method FetchTemp() returns (total: nat)
      requires Valid()
      modifies `slots, `recorded, `budget, `temp
      ensures Conserved(temp) && total == Sum(temp) && Grew(old(recorded), recorded)
      ensures |temp| == |cumulative| && Collected(old(recorded), AddEach(cumulative, temp), reset)
    {
      hide Swept, Collected;
      total := FetchFirst();
      total := FetchOthers(total, old(recorded));
      SweepDone(Ledger(recorded, slots, temp, cumulative, reset), old(recorded), size);
    }

    /** sb_histogram_get_pct_intermediate: the percentile of what this call collected, which is then accumulated. */
    method GetPctIntermediate(percentile: real) returns (bucket: nat, ghost seen: seq<nat>)
      requires Valid()
      modifies `slots, `recorded, `budget, `temp, `cumulative, `nevents
      ensures Valid() && Grew(old(recorded), recorded)
      ensures IsPercentile(seen, Rank(Sum(seen), percentile), bucket)
      ensures 0.0 <= percentile <= 100.0 ==> bucket < size
      ensures |seen| == |old(cumulative)| && cumulative == AddEach(old(cumulative), seen)
      ensures nevents == old(nevents) + Sum(seen) && Collected(old(recorded), cumulative, reset)
    {
      hide Balanced, Collected, Grew;
      var total := FetchTemp();
      seen := temp;
      bucket := Scan(temp, Rank(total, percentile));
      if 0.0 <= percentile <= 100.0 {
        PercentileInside(temp, percentile, bucket);
      }
      AddTemp();
      nevents := nevents + total;
    }
  }
}
