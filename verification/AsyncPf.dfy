/**
  The async-page-fault table of va_tr/kvm/x86.c: open addressing with linear
  probing and backward-shift deletion.

  The table refines a multiset of guest frame numbers.  The hash function is a
  parameter; nothing is asked of it except that it yields a slot number.
 */
module AsyncPf {

  /** ASYNC_PF_PER_VCPU */
  const SIZE: nat := 64

  /** The all-ones marker of a free slot. */
  const EMPTY: nat := 0xFFFF_FFFF_FFFF_FFFF

  type Slot = k: nat | k < SIZE witness 0

  /** Any function from frame numbers to slots, in place of hash_32. */
  type Hash = nat -> Slot

  function NextProbe(key: Slot): Slot { (key + 1) % SIZE }

  /** The number of probes that lead from one slot to another. */
  function Dist(from: Slot, to: Slot): (d: Slot) {
    if from <= to then to - from else to - from + SIZE
  }

  /** The next probe leaves behind only the slots before `key` and `key` itself. */
  lemma ProbeOn(home: Slot, key: Slot, q: Slot)
    requires Dist(home, q) < Dist(home, NextProbe(key))
    ensures Dist(home, q) < Dist(home, key) || q == key
  {
  }

  lemma ProbeNearer(key: Slot, free: Slot)
    requires key != free
    ensures Dist(NextProbe(key), free) < Dist(key, free)
  {
  }

  lemma NoProbeBefore(home: Slot, q: Slot)
    ensures Dist(home, home) == 0 <= Dist(home, q)
  {
  }

  type Table = s: seq<nat> | |s| == SIZE witness seq(SIZE, _ => 0)

  /** The entry in slot `p` is reachable: no free slot before it on its probe path, except maybe `hole`. */
  ghost predicate Reachable(h: Hash, s: Table, p: Slot, hole: int) {
    s[p] != EMPTY ==>
      forall q: Slot :: Dist(h(s[p]), q) < Dist(h(s[p]), p) && q != hole ==> s[q] != EMPTY
  }

  ghost predicate LinkedExcept(h: Hash, s: Table, hole: int) {
    forall p: Slot :: Reachable(h, s, p, hole)
  }

  /** Every slot from an entry's home up to the entry itself is in use. */
  ghost predicate Linked(h: Hash, s: Table) {
    LinkedExcept(h, s, -1)
  }

  /** The frame numbers stored in the table, with multiplicity. */
  ghost function Live(s: seq<nat>): multiset<nat> {
    multiset(s)[EMPTY := 0]
  }

  ghost predicate Full(s: Table) {
    forall p: Slot :: s[p] != EMPTY
  }

  // ----- when probing for a free slot ends

  /** The slot after `n` probes from the home of `gfn`. */
  function ProbeAt(h: Hash, gfn: nat, n: nat): Slot {
    if n == 0 then h(gfn) else NextProbe(ProbeAt(h, gfn, n - 1))
  }

  /** The loop of kvm_add_async_pf_gfn ends: some probe meets a free slot. */
  ghost predicate ProbeEnds(h: Hash, s: Table, gfn: nat) {
    exists n :: s[ProbeAt(h, gfn, n)] == EMPTY
  }

  lemma {:induction false} ProbeReaches(h: Hash, gfn: nat, n: nat)
    requires n < SIZE
    ensures Dist(h(gfn), ProbeAt(h, gfn, n)) == n
  {
    if n > 0 {
      ProbeReaches(h, gfn, n - 1);
    }
  }

  lemma DistApart(from: Slot, p: Slot, q: Slot)
    requires Dist(from, p) == Dist(from, q)
    ensures p == q
  {
  }

  /** The loop ends if and only if the table has a free slot; in a full table it runs for ever. */
  lemma ProbeEndsExactly(h: Hash, s: Table, gfn: nat)
    ensures ProbeEnds(h, s, gfn) <==> !Full(s)
  {
    if !Full(s) {
      var free: Slot :| s[free] == EMPTY;
      var n := Dist(h(gfn), free);
      ProbeReaches(h, gfn, n);
      DistApart(h(gfn), ProbeAt(h, gfn, n), free);
      assert s[ProbeAt(h, gfn, n)] == EMPTY;
    }
  }

  // ----- displacement, the termination measure of deletion

  function Displacement(h: Hash, x: nat, p: Slot): nat {
    if x == EMPTY then 0 else Dist(h(x), p)
  }

  function Total(h: Hash, s: Table, n: nat): nat
    requires n <= SIZE
  {
    if n == 0 then 0 else Total(h, s, n - 1) + Displacement(h, s[n - 1], n - 1)
  }

  lemma {:induction false} TotalUpdate(h: Hash, s: Table, p: Slot, x: nat, n: nat)
    requires n <= SIZE
    ensures Total(h, s[p := x], n) ==
      if p < n then Total(h, s, n) - Displacement(h, s[p], p) + Displacement(h, x, p) else Total(h, s, n)
    decreases n
  {
    if n > 0 {
      TotalUpdate(h, s, p, x, n - 1);
    }
  }

  // ----- the move of one entry into the hole

  /** The table after the entry in slot `j` moved into the free slot `i`. */
  function Moved(s: Table, i: Slot, j: Slot): Table {
    s[i := s[j]][j := EMPTY]
  }

  lemma MovedMultiset(s: Table, i: Slot, j: Slot)
    requires i != j && s[i] == EMPTY
    ensures multiset(Moved(s, i, j)) == multiset(s)
  {
  }

  lemma MovedTotal(h: Hash, s: Table, i: Slot, j: Slot)
    requires i != j && s[i] == EMPTY && s[j] != EMPTY
    requires Dist(h(s[j]), i) < Dist(h(s[j]), j)
    ensures Total(h, Moved(s, i, j), SIZE) < Total(h, s, SIZE)
  {
    TotalUpdate(h, s, i, s[j], SIZE);
    TotalUpdate(h, s[i := s[j]], j, EMPTY, SIZE);
  }

  /** The cyclic interval test of the deletion loop is the wrapped-around comparison of distances. */
  predicate StaysBehind(i: Slot, j: Slot, k: Slot) {
    if i <= j then i < k && k <= j else i < k || k <= j
  }

  lemma MovedCloser(i: Slot, j: Slot, k: Slot)
    requires i != j
    ensures StaysBehind(i, j, k) <==> 0 < Dist(i, k) <= Dist(i, j)
    ensures !StaysBehind(i, j, k) <==> Dist(k, i) < Dist(k, j)
  {
  }

  lemma MovedLinked(h: Hash, s: Table, i: Slot, j: Slot)
    requires i != j && s[i] == EMPTY && s[j] != EMPTY
    requires LinkedExcept(h, s, i)
    requires Dist(h(s[j]), i) < Dist(h(s[j]), j)
    ensures LinkedExcept(h, Moved(s, i, j), j)
  {
    var t := Moved(s, i, j);
    forall p: Slot
      ensures Reachable(h, t, p, j)
    {
      if p == i {
        assert Reachable(h, s, j, i);
      } else if p != j {
        assert Reachable(h, s, p, i);
      }
    }
  }

  /** Every slot strictly after `i` up to `j` is in use by an entry whose path does not cross `i`. */
  ghost predicate Settled(h: Hash, s: Table, i: Slot, j: Slot) {
    forall p: Slot :: 0 < Dist(i, p) <= Dist(i, j) ==> s[p] != EMPTY && StaysBehind(i, p, h(s[p]))
  }

  /** When the scan meets a free slot, the hole no longer cuts any probe path. */
  lemma ScanDone(h: Hash, s: Table, i: Slot, j: Slot)
    requires s[i] == EMPTY && LinkedExcept(h, s, i) && Settled(h, s, i, j)
    requires s[NextProbe(j)] == EMPTY
    ensures Linked(h, s)
  {
    var stop := NextProbe(j);
    forall p: Slot
      ensures Reachable(h, s, p, -1)
    {
      assert Reachable(h, s, p, i);
      if s[p] != EMPTY {
        MovedCloser(i, p, h(s[p]));
        if Dist(i, j) < Dist(i, p) && Dist(h(s[p]), i) < Dist(h(s[p]), p) {
          PathCrosses(i, j, p, h(s[p]));
        }
      }
    }
  }

  /** A path that crosses `i` to reach a slot beyond `NextProbe(j)` also crosses `NextProbe(j)`. */
  lemma PathCrosses(i: Slot, j: Slot, p: Slot, k: Slot)
    requires Dist(i, j) < Dist(i, p) && Dist(k, i) < Dist(k, p)
    ensures NextProbe(j) != p ==> Dist(k, NextProbe(j)) < Dist(k, p) && NextProbe(j) != i
  {
  }

  class Apf {
    const hash: Hash
    const gfns: array<nat>

    ghost predicate Valid()
      reads this, gfns
    {
      gfns.Length == SIZE && Linked(hash, gfns[..])
    }

    ghost function Contents(): multiset<nat>
      reads this, gfns
    {
      Live(gfns[..])
    }

    constructor (h: Hash)
      ensures Valid() && fresh(gfns) && gfns.Length == 64 && hash == h
      ensures Contents() == multiset{}
    {
      hash := h;
      gfns := new nat[SIZE](_ => EMPTY);
      new;
      AllFree(gfns[..]);
    }

    /** kvm_add_async_pf_gfn */
    method Add(gfn: nat)
      requires Valid() && ProbeEnds(hash, gfns[..], gfn)
      modifies gfns
      ensures Valid()
      ensures Contents() == if gfn == EMPTY then old(Contents()) else old(Contents()) + multiset{gfn}
    {
      var key: Slot := hash(gfn);
      ghost var s: Table := gfns[..];
      ProbeEndsExactly(hash, s, gfn);
      ghost var free: Slot :| s[free] == EMPTY;
      hide Dist, NextProbe, ProbeEnds, Linked;
      NoProbeBefore(key, key);
      while gfns[key] != EMPTY
        invariant gfns[..] == s
        invariant forall q: Slot :: Dist(hash(gfn), q) < Dist(hash(gfn), key) ==> s[q] != EMPTY
        decreases Dist(key, free)
      {
        assert s[key] == gfns[key];
        forall q: Slot | Dist(hash(gfn), q) < Dist(hash(gfn), NextProbe(key))
          ensures s[q] != EMPTY
        {
          ProbeOn(hash(gfn), key, q);
        }
        ProbeNearer(key, free);
        key := NextProbe(key);
      }
      gfns[key] := gfn;
      assert s[key] == EMPTY;
      assert gfns[..] == s[key := gfn];
      FilledLinked(hash, s, key, gfn);
      FilledLive(s, key, gfn);
    }

    /** kvm_async_pf_gfn_slot: the entry's slot, or the first free slot on its path, or its home in a full table. */
    method GfnSlot(gfn: nat) returns (key: Slot)
      requires Valid()
      ensures gfn in gfns[..] ==> gfns[key] == gfn
      ensures gfn !in gfns[..] ==> if Full(gfns[..]) then key == hash(gfn) else gfns[key] == EMPTY
    {
      key := hash(gfn);
      ghost var s: Table := gfns[..];
      var i := 0;
      while i < SIZE && gfns[key] != gfn && gfns[key] != EMPTY
        invariant 0 <= i <= SIZE
        invariant i < SIZE ==> Dist(hash(gfn), key) == i
        invariant i == SIZE ==> key == hash(gfn)
        invariant forall q: Slot :: Dist(hash(gfn), q) < i ==> s[q] != gfn && s[q] != EMPTY
      {
        assert s[key] == gfns[key];
        key := NextProbe(key);
        i := i + 1;
      }
      if i < SIZE {
        assert s[key] == gfns[key];
        if s[key] == EMPTY && gfn != EMPTY {
          forall p: Slot
            ensures s[p] != gfn
          {
            assert Reachable(hash, s, p, -1);
          }
        }
      }
    }

    /** kvm_find_async_pf_gfn */
    method Find(gfn: nat) returns (found: bool)
      requires Valid()
      ensures gfn != EMPTY ==> (found <==> gfn in Contents())
      ensures gfn == EMPTY ==> (found <==> !Full(gfns[..]))
    {
      var key := GfnSlot(gfn);
      assert gfns[key] == gfns[..][key];
      found := gfns[key] == gfn;
    }

    /** The inner scan of the deletion: the next entry whose path crosses the hole, or none. */
    method Scan(i: Slot) returns (done: bool, j: Slot)
      requires gfns.Length == SIZE && gfns[i] == EMPTY
      requires LinkedExcept(hash, gfns[..], i)
      ensures done ==> Linked(hash, gfns[..])
      ensures !done ==> i != j && gfns[j] != EMPTY && Dist(hash(gfns[j]), i) < Dist(hash(gfns[j]), j)
    {
      ghost var s: Table := gfns[..];
      j := i;
      while true
        invariant Settled(hash, s, i, j)
        decreases SIZE - Dist(i, j)
      {
        if gfns[NextProbe(j)] == EMPTY {
          ScanDone(hash, s, i, j);
          return true, j;
        }
        j := NextProbe(j);
        var k := hash(gfns[j]);
        MovedCloser(i, j, k);
        if !(if i <= j then i < k && k <= j else i < k || k <= j) {
          return false, j;
        }
        assert s[j] == gfns[j];
      }
    }

    /** kvm_del_async_pf_gfn */
    method Del(gfn: nat)
      requires Valid()
      modifies gfns
      ensures Valid()
      ensures Contents() == old(Contents()) - multiset{gfn}
    {
      var i: Slot := GfnSlot(gfn);
      if gfns[i] != gfn {
        assert gfns[..][i] == gfns[i];
        return;
      }
      ghost var s: Table := gfns[..];
      assert s[i] == gfn;
      ghost var rest := Live(s) - multiset{gfn};
      HoleMade(hash, s, i);
      s := s[i := EMPTY];
      while true
        invariant gfns[..][i := EMPTY] == s
        invariant Holed(hash, s, i, rest)
        decreases Total(hash, s, SIZE)
      {
        gfns[i] := EMPTY;
        assert gfns[..] == s;
        var done, j := Scan(i);
        if done {
          return;
        }
        assert gfns[j] == s[j];
        gfns[i] := gfns[j];
        HoleMoved(hash, s, i, j, rest);
        s := Moved(s, i, j);
        i := j;
      }
    }
  }

  /** Slot `i` is free, only paths across it may be broken, and `rest` is what the table holds. */
  ghost predicate Holed(h: Hash, s: Table, i: Slot, rest: multiset<nat>) {
    s[i] == EMPTY && LinkedExcept(h, s, i) && Live(s) == rest
  }

  lemma HoleMade(h: Hash, s: Table, i: Slot)
    requires Linked(h, s)
    ensures Holed(h, s[i := EMPTY], i, Live(s) - multiset{s[i]})
  {
    HoleLinked(h, s, i);
  }

  lemma HoleMoved(h: Hash, s: Table, i: Slot, j: Slot, rest: multiset<nat>)
    requires i != j && s[j] != EMPTY
    requires Holed(h, s, i, rest)
    requires Dist(h(s[j]), i) < Dist(h(s[j]), j)
    ensures Holed(h, Moved(s, i, j), j, rest)
    ensures Total(h, Moved(s, i, j), SIZE) < Total(h, s, SIZE)
  {
    MovedTotal(h, s, i, j);
    MovedLinked(h, s, i, j);
    MovedMultiset(s, i, j);
  }

  lemma AllFree(s: Table)
    requires forall p: Slot :: s[p] == EMPTY
    ensures Live(s) == multiset{}
  {
    forall x
      ensures Live(s)[x] == 0
    {
      if x in multiset(s) {
        assert x in s;
      }
    }
  }

  lemma FilledLinked(h: Hash, s: Table, key: Slot, gfn: nat)
    requires Linked(h, s) && s[key] == EMPTY
    requires forall q: Slot :: Dist(h(gfn), q) < Dist(h(gfn), key) ==> s[q] != EMPTY
    ensures Linked(h, s[key := gfn])
  {
    var t := s[key := gfn];
    forall p: Slot
      ensures Reachable(h, t, p, -1)
    {
      assert Reachable(h, s, p, -1);
    }
  }

  lemma FilledLive(s: Table, key: Slot, gfn: nat)
    requires s[key] == EMPTY
    ensures Live(s[key := gfn]) == if gfn == EMPTY then Live(s) else Live(s) + multiset{gfn}
  {
  }

  lemma HoleLinked(h: Hash, s: Table, i: Slot)
    requires Linked(h, s)
    ensures LinkedExcept(h, s[i := EMPTY], i)
  {
    var t := s[i := EMPTY];
    forall p: Slot
      ensures Reachable(h, t, p, i)
    {
      assert Reachable(h, s, p, -1);
    }
  }
}
