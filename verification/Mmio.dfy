/**
  Emulated memory accesses of va_tr/kvm/x86.c: an access is split at a page
  boundary, each part is served by guest memory, by an in-kernel device in chunks of
  up to eight bytes, or left as a fragment that user space completes in exits of up
  to eight bytes.

  A place in the buffer of the access is an index into `val`.  Address translation,
  guest memory, in-kernel devices and user space are parameters: any outcome at any
  byte position is allowed.
 */
module Mmio {

  const PAGE: nat := 0x1000

  const WORD: nat := 0x1_0000_0000_0000_0000

  const MAX_FRAGMENTS: nat := 2

  // ----- what moved where

  datatype Source = GuestMemory | Device | UserSpace

  /** `data` moved between the buffer from index `pos` on and guest-physical memory from `gpa` on. */
  datatype Transfer = Transfer(source: Source, gpa: nat, pos: nat, data: seq<bv8>)

  /** A run of the buffer inside one guest page, which is memory or not. */
  datatype Part = Part(gpa: nat, pos: nat, len: nat, mmio: bool)

  function Joined(ts: seq<Transfer>): seq<bv8> {
    if ts == [] then [] else Joined(ts[..|ts| - 1]) + ts[|ts| - 1].data
  }

  /** The transfers follow each other without gap or overlap; user space never gets more than eight bytes at once. */
  predicate Contiguous(ts: seq<Transfer>, gpa: nat, pos: nat) {
    ts != [] ==>
      var front, last := ts[..|ts| - 1], ts[|ts| - 1];
      && Contiguous(front, gpa, pos)
      && last.gpa == gpa + |Joined(front)| && last.pos == pos + |Joined(front)|
      && 1 <= |last.data| && (last.source != GuestMemory ==> |last.data| <= 8)
  }

  /** The first `done` bytes of the part have moved, each once and in order. */
  predicate Moved(ts: seq<Transfer>, p: Part, done: nat, val: seq<bv8>) {
    && done <= p.len && p.pos + p.len <= |val|
    && Contiguous(ts, p.gpa, p.pos)
    && Joined(ts) == val[p.pos..p.pos + done]
  }

  lemma JoinedSnoc(ts: seq<Transfer>, t: Transfer)
    ensures Joined(ts + [t]) == Joined(ts) + t.data
  {
    assert (ts + [t])[..|ts|] == ts;
  }

  lemma ContiguousSnoc(ts: seq<Transfer>, t: Transfer, gpa: nat, pos: nat)
    requires Contiguous(ts, gpa, pos) && 1 <= |t.data| && (t.source != GuestMemory ==> |t.data| <= 8)
    requires t.gpa == gpa + |Joined(ts)| && t.pos == pos + |Joined(ts)|
    ensures Contiguous(ts + [t], gpa, pos)
  {
    hide Joined;
    assert (ts + [t])[..|ts|] == ts;
  }

  lemma SliceGrows(s: seq<bv8>, lo: nat, mid: nat, hi: nat, front: seq<bv8>, back: seq<bv8>)
    requires lo <= mid <= hi <= |s| && front == s[lo..mid] && back == s[mid..hi]
    ensures front + back == s[lo..hi]
  {
  }

  lemma MovedMore(ts: seq<Transfer>, p: Part, done: nat, val: seq<bv8>, val': seq<bv8>, t: Transfer)
    requires Moved(ts, p, done, val) && |val'| == |val|
    requires val'[p.pos..p.pos + done] == val[p.pos..p.pos + done]
    requires t.gpa == p.gpa + done && t.pos == p.pos + done && done + |t.data| <= p.len
    requires 1 <= |t.data| && (t.source != GuestMemory ==> |t.data| <= 8)
    requires t.data == val'[t.pos..t.pos + |t.data|]
    ensures Moved(ts + [t], p, done + |t.data|, val')
  {
    hide Joined, Contiguous;
    assert |Joined(ts)| == done;
    JoinedSnoc(ts, t);
    ContiguousSnoc(ts, t, p.gpa, p.pos);
    SliceGrows(val', p.pos, p.pos + done, p.pos + done + |t.data|, Joined(ts), t.data);
  }

  /** The last transfer brings the last bytes; those before it were moved by the others. */
  lemma SplitLast(ts: seq<Transfer>, p: Part, done: nat, val: seq<bv8>)
    requires Moved(ts, p, done, val) && ts != []
    ensures var front, last := ts[..|ts| - 1], ts[|ts| - 1];
      var before := |Joined(front)|;
      && Moved(front, p, before, val) && before + |last.data| == done
      && last.pos == p.pos + before && last.gpa == p.gpa + before
      && last.data == val[p.pos + before..p.pos + done]
  {
    var front, last := ts[..|ts| - 1], ts[|ts| - 1];
    var before := |Joined(front)|;
    assert Joined(ts) == Joined(front) + last.data;
    SliceParts(val, p.pos, p.pos + before, p.pos + done);
  }

  lemma SliceParts(s: seq<bv8>, lo: nat, mid: nat, hi: nat)
    requires lo <= mid <= hi <= |s|
    ensures s[lo..hi][..mid - lo] == s[lo..mid] && s[lo..hi][mid - lo..] == s[mid..hi]
  {
  }

  /** Every byte of a moved part belongs to exactly one transfer, at its own place. */
  lemma {:induction false} EachByteOnce(ts: seq<Transfer>, p: Part, done: nat, val: seq<bv8>, i: nat)
    requires Moved(ts, p, done, val) && i < done
    ensures exists k :: 0 <= k < |ts| && Carries(ts[k], p, val, i)
    ensures forall j, k :: 0 <= j < k < |ts| ==> !(Carries(ts[j], p, val, i) && Carries(ts[k], p, val, i))
    decreases |ts|
  {
    MovedSomething(ts, p, done, val);
    SplitLast(ts, p, done, val);
    var front, last := ts[..|ts| - 1], ts[|ts| - 1];
    var before := |Joined(front)|;
    hide Moved, Joined;
    MovedInside(ts, p, done, val);
    TransfersInside(front, p, before, val);
    if i < before {
      EachByteOnce(front, p, before, val, i);
      var k :| 0 <= k < |front| && Carries(front[k], p, val, i);
      assert ts[k] == front[k];
    } else {
      assert last.data[i - before] == val[p.pos + i];
      assert Carries(ts[|ts| - 1], p, val, i);
    }
    forall j, k | 0 <= j < k < |ts|
      ensures !(Carries(ts[j], p, val, i) && Carries(ts[k], p, val, i))
    {
      assert ts[j] == front[j];
      if k < |front| {
        assert ts[k] == front[k];
      }
    }
  }

  lemma MovedSomething(ts: seq<Transfer>, p: Part, done: nat, val: seq<bv8>)
    requires Moved(ts, p, done, val) && done > 0
    ensures ts != []
  {
  }

  lemma MovedInside(ts: seq<Transfer>, p: Part, done: nat, val: seq<bv8>)
    requires Moved(ts, p, done, val)
    ensures done <= p.len && p.pos + p.len <= |val|
  {
  }

  /** Byte `i` of the part is in the transfer, with the buffer's value and at the part's address. */
  predicate Carries(t: Transfer, p: Part, val: seq<bv8>, i: nat) {
    && t.pos <= p.pos + i < t.pos + |t.data| && p.pos + i < |val|
    && t.data[p.pos + i - t.pos] == val[p.pos + i]
    && t.gpa + (p.pos + i - t.pos) == p.gpa + i
  }

  lemma {:induction false} TransfersInside(ts: seq<Transfer>, p: Part, done: nat, val: seq<bv8>)
    requires Moved(ts, p, done, val)
    ensures forall k :: 0 <= k < |ts| ==> p.pos <= ts[k].pos && ts[k].pos + |ts[k].data| <= p.pos + done
    decreases |ts|
  {
    if ts != [] {
      SplitLast(ts, p, done, val);
      hide Moved, Joined;
      var front, last := ts[..|ts| - 1], ts[|ts| - 1];
      var before := |Joined(front)|;
      TransfersInside(front, p, before, val);
      forall k | 0 <= k < |ts|
        ensures p.pos <= ts[k].pos && ts[k].pos + |ts[k].data| <= p.pos + done
      {
        if k < |front| {
          assert ts[k] == front[k];
        }
      }
    }
  }

  // ----- parameters

  /** What address translation says of a linear address. */
  datatype Lookup = Fault | At(gpa: nat, mmio: bool)

  /** What serves each byte position of the buffer, and the bytes that reads return. */
  datatype World = World(
    lookup: nat -> Lookup,
    memoryOk: nat -> bool,
    deviceTakes: nat -> bool,
    supply: (Source, nat) -> bv8)

  function Bytes(w: World, source: Source, pos: nat, n: nat): (s: seq<bv8>)
    ensures |s| == n
  {
    seq(n, i requires 0 <= i < n => w.supply(source, pos + i))
  }

  /** A read's transfers bring what their sources supply for those positions. */
  predicate Supplied(ts: seq<Transfer>, w: World) {
    forall k :: 0 <= k < |ts| ==> ts[k].data == Bytes(w, ts[k].source, ts[k].pos, |ts[k].data|)
  }

  // ----- who serves what

  /** Guest memory serves the part: it is no device's, and the copy succeeds. */
  predicate InMemory(p: Part, w: World) { !p.mmio && w.memoryOk(p.pos) }

  /** Some device takes the k-th chunk of eight bytes. */
  predicate ChunkTaken(p: Part, k: nat, w: World) { w.deviceTakes(p.pos + 8 * k) }

  /** The devices take every chunk up to the one at offset `off`. */
  ghost predicate Taken(p: Part, off: nat, w: World) {
    forall k: nat :: 8 * k <= off ==> ChunkTaken(p, k, w)
  }

  /**
    Who moves `n` bytes from offset `off` of the part on: guest memory the whole part at once; otherwise
    chunks of eight bytes go to the devices up to the first one refused, and to user space from there.
   */
  ghost predicate Route(source: Source, off: nat, n: nat, p: Part, w: World) {
    if InMemory(p, w) then
      source == GuestMemory && off == 0 && n == p.len
    else
      off % 8 == 0 && off <= p.len && n == Min8(p.len - off) && source == if Taken(p, off, w) then Device else UserSpace
  }

  ghost predicate Routed(t: Transfer, p: Part, w: World) {
    t.pos >= p.pos && Route(t.source, t.pos - p.pos, |t.data|, p, w)
  }

  ghost predicate AllRouted(ts: seq<Transfer>, p: Part, w: World) {
    forall k :: 0 <= k < |ts| ==> Routed(ts[k], p, w)
  }

  /** The devices took every chunk before offset `off`. */
  ghost predicate TakenBefore(p: Part, off: nat, w: World) {
    forall k: nat :: 8 * k < off ==> ChunkTaken(p, k, w)
  }

  lemma WholeChunks(k: nat)
    ensures 8 * k % 8 == 0
  {
  }

  lemma TakenNext(p: Part, off: nat, n: nat, k: nat, w: World)
    requires TakenBefore(p, off, w) && off == 8 * k && n <= 8 && w.deviceTakes(p.pos + off)
    ensures Taken(p, off, w) && TakenBefore(p, off + n, w)
  {
    assert ChunkTaken(p, k, w);
  }

  lemma NoneTaken(p: Part, w: World)
    ensures TakenBefore(p, 0, w)
  {
  }

  lemma DeviceRoute(p: Part, off: nat, n: nat, k: nat, w: World)
    requires !InMemory(p, w) && off == 8 * k && off <= p.len && n == Min8(p.len - off) && Taken(p, off, w)
    ensures Route(Device, off, n, p, w)
  {
    WholeChunks(k);
  }

  lemma InMemoryStays(p: Part, w: World)
    requires InMemory(p, w)
    ensures !Leaves(p, w)
  {
  }

  lemma TakenAll(p: Part, w: World)
    requires TakenBefore(p, p.len, w)
    ensures !Leaves(p, w)
  {
  }

  /** A refused chunk leaves what is behind it to user space. */
  lemma NotTaken(p: Part, off: nat, w: World)
    requires !InMemory(p, w) && off < p.len && off % 8 == 0 && !w.deviceTakes(p.pos + off)
    ensures Leaves(p, w) && !Taken(p, off, w)
  {
    assert 8 * (off / 8) == off && !ChunkTaken(p, off / 8, w);
  }

  /** Part of it is left to user space. */
  ghost predicate Leaves(p: Part, w: World) {
    !InMemory(p, w) && exists k: nat :: 8 * k < p.len && !ChunkTaken(p, k, w)
  }

  /**
    Who serves a transfer, in terms of the answers: memory exactly where the page is memory and the copy succeeds,
    then the whole part; a device only a chunk it takes; user space only behind a chunk that no device takes.
   */
  lemma WhoServes(t: Transfer, p: Part, w: World)
    requires Routed(t, p, w)
    ensures t.source == GuestMemory <==> !p.mmio && w.memoryOk(p.pos)
    ensures t.source == GuestMemory ==> t.pos == p.pos && |t.data| == p.len
    ensures t.source == Device ==> w.deviceTakes(t.pos)
    ensures t.source == UserSpace ==> exists k: nat :: p.pos + 8 * k <= t.pos && !w.deviceTakes(p.pos + 8 * k)
  {
    var off := t.pos - p.pos;
    if t.source == Device {
      assert ChunkTaken(p, off / 8, w);
    } else if t.source == UserSpace {
      var k: nat :| 8 * k <= off && !ChunkTaken(p, k, w);
      assert p.pos + 8 * k <= t.pos && !w.deviceTakes(p.pos + 8 * k);
    }
  }

  /** When part of a page's bytes needs user space: not for memory that can be copied, always when the first chunk is refused. */
  lemma WhoNeedsUserSpace(p: Part, w: World)
    ensures !p.mmio && w.memoryOk(p.pos) ==> !Leaves(p, w)
    ensures (p.mmio || !w.memoryOk(p.pos)) && p.len > 0 && !w.deviceTakes(p.pos) ==> Leaves(p, w)
    ensures (forall k: nat :: w.deviceTakes(p.pos + 8 * k)) ==> !Leaves(p, w)
  {
    if p.len > 0 && !w.deviceTakes(p.pos) {
      assert 8 * 0 < p.len && !ChunkTaken(p, 0, w);
    }
  }

  lemma Min8Is(n: nat)
    ensures Min8(n) <= 8 && Min8(n) <= n && (n > 0 ==> Min8(n) > 0) && (n > Min8(n) ==> Min8(n) == 8)
  {
  }

  ghost predicate AnyLeaves(ps: seq<Part>, w: World) { exists k :: 0 <= k < |ps| && Leaves(ps[k], w) }

  lemma AnyLeavesSnoc(ps: seq<Part>, p: Part, w: World)
    ensures AnyLeaves(ps + [p], w) <==> AnyLeaves(ps, w) || Leaves(p, w)
  {
    hide Leaves;
    if AnyLeaves(ps, w) {
      var k :| 0 <= k < |ps| && Leaves(ps[k], w);
      assert (ps + [p])[k] == ps[k];
    }
    assert (ps + [p])[|ps|] == p;
  }

  function Min8(n: nat): nat { if n < 8 then n else 8 }

  /** Moved, by those who serve it, and for a read from the right sources. */
  ghost predicate Served(ts: seq<Transfer>, p: Part, done: nat, val: seq<bv8>, write: bool, w: World) {
    Moved(ts, p, done, val) && AllRouted(ts, p, w) && (!write ==> Supplied(ts, w))
  }

  lemma ServedMore(ts: seq<Transfer>, p: Part, done: nat, val: seq<bv8>, val': seq<bv8>, t: Transfer, write: bool, w: World)
    requires Served(ts, p, done, val, write, w) && |val'| == |val|
    requires val'[p.pos..p.pos + done] == val[p.pos..p.pos + done]
    requires t.gpa == p.gpa + done && t.pos == p.pos + done && done + |t.data| <= p.len
    requires 1 <= |t.data| && (t.source != GuestMemory ==> |t.data| <= 8)
    requires t.data == val'[t.pos..t.pos + |t.data|]
    requires !write ==> t.data == Bytes(w, t.source, t.pos, |t.data|)
    requires Routed(t, p, w)
    ensures Served(ts + [t], p, done + |t.data|, val', write, w)
  {
    hide Routed;
    MovedMore(ts, p, done, val, val', t);
  }

  /** A chunk behind what was served, with nothing before it changed. */
  lemma ChunkServed(ts: seq<Transfer>, p: Part, done: nat, val: seq<bv8>, val': seq<bv8>, t: Transfer, write: bool, w: World)
    requires Served(ts, p, done, val, write, w) && |val'| == |val|
    requires t.gpa == p.gpa + done && t.pos == p.pos + done && done + |t.data| <= p.len
    requires 1 <= |t.data| && (t.source != GuestMemory ==> |t.data| <= 8)
    requires val'[..t.pos] == val[..t.pos] && t.data == val'[t.pos..t.pos + |t.data|]
    requires !write ==> t.data == Bytes(w, t.source, t.pos, |t.data|)
    requires Routed(t, p, w)
    ensures Served(ts + [t], p, done + |t.data|, val', write, w) && val'[..p.pos] == val[..p.pos]
  {
    ServedInside(ts, p, done, val, write, w);
    hide Served;
    SliceOfTake(val, t.pos, p.pos, t.pos);
    SliceOfTake(val', t.pos, p.pos, t.pos);
    SliceOfTake(val, t.pos, 0, p.pos);
    SliceOfTake(val', t.pos, 0, p.pos);
    ServedMore(ts, p, done, val, val', t, write, w);
  }

  lemma ServedAgree(ts: seq<Transfer>, p: Part, done: nat, val: seq<bv8>, val': seq<bv8>, write: bool, w: World)
    requires Served(ts, p, done, val, write, w) && |val'| == |val|
    requires val'[p.pos..p.pos + done] == val[p.pos..p.pos + done]
    ensures Served(ts, p, done, val', write, w)
  {
  }

  datatype Result = Continue | PropagateFault | IoNeeded

  /** An access crosses into another page, in 64-bit arithmetic. */
  predicate Crosses(addr: nat, bytes: nat) {
    (addr + bytes - 1) % WORD / PAGE != addr / PAGE
  }

  /** The bytes of the first page. */
  function Now(addr: nat): nat { (PAGE - addr % PAGE) % PAGE }

  /** The linear address of the second page's bytes, cut to 32 bits outside 64-bit mode. */
  function SecondAddress(addr: nat, prot64: bool): nat {
    var next := (addr + Now(addr)) % WORD;
    if prot64 then next else next % 0x1_0000_0000
  }

  lemma StaysInside(addr: nat, bytes: nat)
    requires addr < WORD && 1 <= bytes && addr % PAGE + bytes <= PAGE
    ensures !Crosses(addr, bytes)
  {
    var q, r := addr / PAGE, addr % PAGE;
    assert addr == PAGE * q + r;
    assert addr + bytes - 1 == PAGE * q + (r + bytes - 1);
    assert (addr + bytes - 1) / PAGE == q;
  }

  lemma SplitInside(addr: nat, bytes: nat)
    requires addr < WORD && 1 <= bytes <= PAGE && Crosses(addr, bytes)
    ensures 0 < Now(addr) < bytes
  {
    if addr % PAGE + bytes <= PAGE {
      StaysInside(addr, bytes);
    }
  }

  function PartAt(address: nat, pos: nat, len: nat, w: World): Part
    requires w.lookup(address) != Fault
  {
    Part(w.lookup(address).gpa, pos, len, w.lookup(address).mmio)
  }

  /** The parts an access is made of, once its pages are translated. */
  function PartsOf(addr: nat, bytes: nat, prot64: bool, w: World): seq<Part>
    requires addr < WORD && 1 <= bytes <= PAGE && !Faults(addr, bytes, prot64, w)
  {
    if Crosses(addr, bytes) then
      SplitInside(addr, bytes);
      [PartAt(addr, 0, Now(addr), w), PartAt(SecondAddress(addr, prot64), Now(addr), bytes - Now(addr), w)]
    else [PartAt(addr, 0, bytes, w)]
  }

  predicate Faults(addr: nat, bytes: nat, prot64: bool, w: World) {
    w.lookup(addr) == Fault || (Crosses(addr, bytes) && w.lookup(SecondAddress(addr, prot64)) == Fault)
  }

  /** The linear address of byte `pos` of the access: behind the first page it is cut to 32 bits outside 64-bit mode. */
  function LinearAt(addr: nat, pos: nat, prot64: bool): nat {
    var a := (addr + pos) % WORD;
    if pos == 0 || prot64 then a else a % 0x1_0000_0000
  }

  /** Bytes of the access that lie in its first page. */
  function FirstRoom(addr: nat): nat { PAGE - addr % PAGE }

  /** An access crosses a page exactly when it does not fit the room in its first one. */
  lemma CrossesExactly(addr: nat, bytes: nat)
    requires addr < WORD && 1 <= bytes <= PAGE
    ensures Crosses(addr, bytes) <==> bytes > FirstRoom(addr)
    ensures bytes > FirstRoom(addr) ==> Now(addr) == FirstRoom(addr)
  {
    if bytes <= FirstRoom(addr) {
      StaysInside(addr, bytes);
    } else {
      LeavesPage(addr, bytes);
    }
  }

  lemma LeavesPage(addr: nat, bytes: nat)
    requires addr < WORD && 1 <= bytes <= PAGE && bytes > FirstRoom(addr)
    ensures Crosses(addr, bytes) && Now(addr) == FirstRoom(addr)
  {
    var q, r := addr / PAGE, addr % PAGE;
    assert addr == PAGE * q + r;
    assert addr + bytes - 1 == PAGE * (q + 1) + (r + bytes - 1 - PAGE);
    assert (addr + bytes - 1) / PAGE == q + 1;
    if addr + bytes - 1 >= WORD {
      assert (addr + bytes - 1) % WORD == addr + bytes - 1 - WORD;
      assert (addr + bytes - 1 - WORD) / PAGE == q + 1 - WORD / PAGE;
    }
  }

  /** Part `p` lies at the linear address of its first byte, inside one page. */
  ghost predicate PartOk(p: Part, addr: nat, prot64: bool, w: World) {
    var a := LinearAt(addr, p.pos, prot64);
    && w.lookup(a) == At(p.gpa, p.mmio) && 0 < p.len && (addr + p.pos) % PAGE + p.len <= PAGE
  }

  /** The parts follow each other from byte zero to the last, each at its own address; a fault is one of their pages'. */
  lemma PartsAre(addr: nat, bytes: nat, prot64: bool, w: World)
    requires addr < WORD && 1 <= bytes <= PAGE
    ensures Faults(addr, bytes, prot64, w) <==>
      || w.lookup(addr) == Fault
      || (bytes > FirstRoom(addr) && w.lookup(LinearAt(addr, FirstRoom(addr), prot64)) == Fault)
    ensures !Faults(addr, bytes, prot64, w) ==>
      var ps := PartsOf(addr, bytes, prot64, w);
      && (forall k :: 0 <= k < |ps| ==> PartOk(ps[k], addr, prot64, w))
      && ps[0].pos == 0 && End(ps[|ps| - 1]) == bytes
      && (forall k :: 0 < k < |ps| ==> ps[k].pos == End(ps[k - 1]))
      && |ps| == if bytes > FirstRoom(addr) then 2 else 1
  {
    CrossesExactly(addr, bytes);
    assert LinearAt(addr, 0, prot64) == addr;
    PageStart(addr);
  }

  lemma PageStart(addr: nat)
    ensures (addr + FirstRoom(addr)) % PAGE == 0
  {
    assert addr + FirstRoom(addr) == PAGE * (addr / PAGE + 1);
  }

  function End(p: Part): nat { p.pos + p.len }

  // ----- the book of parts and fragments

  datatype Fragment = Fragment(gpa: nat, pos: nat, len: nat)

  /** A part of the access and the transfers made for it so far. */
  datatype Track = Track(part: Part, ts: seq<Transfer>, done: nat)

  /** The fragment is what its track has not moved yet, and is left to user space. */
  ghost predicate Rest(f: Fragment, t: Track, w: World) {
    && f.len > 0 && t.done + f.len == t.part.len
    && f.gpa == t.part.gpa + t.done && f.pos == t.part.pos + t.done
    && !InMemory(t.part, w) && t.done % 8 == 0 && !Taken(t.part, t.done, w)
  }

  /** The tracks, the track of each fragment, and what the access is. */
  datatype Book = Book(tracks: seq<Track>, owner: seq<nat>, write: bool, w: World)

  ghost predicate Pending(b: Book, from: nat, t: nat) {
    exists i :: from <= i < |b.owner| && b.owner[i] == t
  }

  /** Fragments from `from` on are the rests of their tracks; every other track is complete. */
  ghost predicate BookOk(b: Book, frags: seq<Fragment>, from: nat, val: seq<bv8>) {
    && |frags| == |b.owner|
    && (forall t :: 0 <= t < |b.tracks| ==>
          Served(b.tracks[t].ts, b.tracks[t].part, b.tracks[t].done, val, b.write, b.w))
    && (forall s, t :: 0 <= s < t < |b.tracks| ==> End(b.tracks[s].part) <= b.tracks[t].part.pos)
    && (forall i :: 0 <= i < |b.owner| ==> b.owner[i] < |b.tracks|)
    && (forall i, j :: 0 <= i < j < |b.owner| ==> b.owner[i] < b.owner[j])
    && (forall i :: from <= i < |frags| ==> Rest(frags[i], b.tracks[b.owner[i]], b.w))
    && (forall t :: 0 <= t < |b.tracks| && !Pending(b, from, t) ==> b.tracks[t].done == b.tracks[t].part.len)
  }

  ghost predicate Below(b: Book, pos: nat) {
    forall t :: 0 <= t < |b.tracks| ==> End(b.tracks[t].part) <= pos
  }

  lemma TracksKept(b: Book, val: seq<bv8>, val': seq<bv8>, pos: nat)
    requires Below(b, pos) && |val'| == |val| && pos <= |val| && val'[..pos] == val[..pos]
    requires forall t :: 0 <= t < |b.tracks| ==>
      Served(b.tracks[t].ts, b.tracks[t].part, b.tracks[t].done, val, b.write, b.w)
    ensures forall t :: 0 <= t < |b.tracks| ==>
      Served(b.tracks[t].ts, b.tracks[t].part, b.tracks[t].done, val', b.write, b.w)
  {
    hide Supplied, Contiguous;
    forall t | 0 <= t < |b.tracks|
      ensures Served(b.tracks[t].ts, b.tracks[t].part, b.tracks[t].done, val', b.write, b.w)
    {
      var p, done := b.tracks[t].part, b.tracks[t].done;
      assert val'[p.pos..p.pos + done] == val'[..pos][p.pos..p.pos + done];
      assert val[p.pos..p.pos + done] == val[..pos][p.pos..p.pos + done];
      ServedAgree(b.tracks[t].ts, p, done, val, val', b.write, b.w);
    }
  }

  /** A part served at once joins the book. */
  lemma AddServed(b: Book, frags: seq<Fragment>, val: seq<bv8>, val': seq<bv8>, t: Track)
    requires BookOk(b, frags, 0, val) && Below(b, t.part.pos)
    requires |val'| == |val| && t.part.pos <= |val| && val'[..t.part.pos] == val[..t.part.pos]
    requires Served(t.ts, t.part, t.done, val', b.write, b.w) && t.done == t.part.len
    ensures BookOk(b.(tracks := b.tracks + [t]), frags, 0, val')
    ensures Below(b.(tracks := b.tracks + [t]), End(t.part))
  {
    hide Served;
    TracksKept(b, val, val', t.part.pos);
    var b' := b.(tracks := b.tracks + [t]);
    forall u | 0 <= u < |b'.tracks| && !Pending(b', 0, u)
      ensures b'.tracks[u].done == b'.tracks[u].part.len
    {
      if u < |b.tracks| {
        assert !Pending(b, 0, u);
      }
    }
  }

  /** A part with something left joins the book with a fragment for it. */
  lemma AddFragment(b: Book, frags: seq<Fragment>, val: seq<bv8>, val': seq<bv8>, t: Track, f: Fragment)
    requires BookOk(b, frags, 0, val) && Below(b, t.part.pos)
    requires |val'| == |val| && t.part.pos <= |val| && val'[..t.part.pos] == val[..t.part.pos]
    requires Served(t.ts, t.part, t.done, val', b.write, b.w) && Rest(f, t, b.w)
    ensures BookOk(b.(tracks := b.tracks + [t], owner := b.owner + [|b.tracks|]), frags + [f], 0, val')
    ensures Below(b.(tracks := b.tracks + [t], owner := b.owner + [|b.tracks|]), End(t.part))
  {
    hide Served, Rest;
    TracksKept(b, val, val', t.part.pos);
    var b' := b.(tracks := b.tracks + [t], owner := b.owner + [|b.tracks|]);
    assert b'.owner[|b.owner|] == |b.tracks|;
    forall u | 0 <= u < |b'.tracks| && !Pending(b', 0, u)
      ensures b'.tracks[u].done == b'.tracks[u].part.len
    {
      forall i | 0 <= i < |b.owner|
        ensures b.owner[i] != u
      {
        assert b'.owner[i] == b.owner[i];
      }
      assert b'.owner[|b.owner|] != u;
    }
  }

  /** The book after the front `n` bytes of fragment `cur` moved in transfer `t`. */
  function Advanced(b: Book, cur: nat, t: Transfer): Book
    requires cur < |b.owner| && b.owner[cur] < |b.tracks|
  {
    var tr := b.tracks[b.owner[cur]];
    b.(tracks := b.tracks[b.owner[cur] := Track(tr.part, tr.ts + [t], tr.done + |t.data|)])
  }

  function Shortened(f: Fragment, n: nat): Fragment
    requires n <= f.len
  {
    Fragment(f.gpa + n, f.pos + n, f.len - n)
  }

  /** The transfer fits the front of the fragment and the buffer changed nowhere else. */
  ghost predicate Fits(b: Book, f: Fragment, val: seq<bv8>, val': seq<bv8>, t: Transfer) {
    var n := |t.data|;
    && |val'| == |val| && f.pos + f.len <= |val|
    && t.source == UserSpace && t.gpa == f.gpa && t.pos == f.pos && n == Min8(f.len) && 0 < f.len
    && t.data == val'[f.pos..f.pos + n]
    && val'[..f.pos] == val[..f.pos] && val'[f.pos + n..] == val[f.pos + n..]
    && (!b.write ==> t.data == Bytes(b.w, UserSpace, f.pos, n))
  }

  lemma SliceKept(val: seq<bv8>, val': seq<bv8>, lo: nat, hi: nat, x: nat, y: nat)
    requires |val'| == |val| && lo <= hi <= |val| && x <= y <= |val| && (y <= lo || hi <= x)
    requires val'[..lo] == val[..lo] && val'[hi..] == val[hi..]
    ensures val'[x..y] == val[x..y]
  {
    if y <= lo {
      SliceOfTake(val, lo, x, y);
      SliceOfTake(val', lo, x, y);
    } else {
      SliceOfDrop(val, hi, x, y);
      SliceOfDrop(val', hi, x, y);
    }
  }

  lemma SliceOfTake(s: seq<bv8>, lo: nat, x: nat, y: nat)
    requires x <= y <= lo <= |s|
    ensures s[..lo][x..y] == s[x..y]
  {
  }

  lemma SliceOfDrop(s: seq<bv8>, hi: nat, x: nat, y: nat)
    requires hi <= x <= y <= |s|
    ensures s[hi..][x - hi..y - hi] == s[x..y]
  {
  }

  /** What a track has moved lies outside the bytes that the transfer writes. */
  lemma TrackKept(b: Book, frags: seq<Fragment>, cur: nat, val: seq<bv8>, val': seq<bv8>, t: Transfer, u: nat)
    requires cur < |frags| && BookOk(b, frags, cur, val) && Fits(b, frags[cur], val, val', t) && u < |b.tracks|
    ensures var tr := b.tracks[u];
      tr.part.pos + tr.done <= |val| && val'[tr.part.pos..tr.part.pos + tr.done] == val[tr.part.pos..tr.part.pos + tr.done]
  {
    hide Supplied, Contiguous, Joined;
    var f, o, tr := frags[cur], b.owner[cur], b.tracks[u];
    assert Rest(f, b.tracks[o], b.w);
    assert Served(tr.ts, tr.part, tr.done, val, b.write, b.w);
    if u < o {
      assert End(tr.part) <= b.tracks[o].part.pos;
    } else if u > o {
      assert End(b.tracks[o].part) <= tr.part.pos;
    }
    SliceKept(val, val', f.pos, f.pos + |t.data|, tr.part.pos, tr.part.pos + tr.done);
  }

  lemma AdvanceTracks(b: Book, frags: seq<Fragment>, cur: nat, val: seq<bv8>, val': seq<bv8>, t: Transfer)
    requires cur < |frags| && BookOk(b, frags, cur, val) && Fits(b, frags[cur], val, val', t)
    ensures var b' := Advanced(b, cur, t);
      forall u :: 0 <= u < |b'.tracks| ==>
        Served(b'.tracks[u].ts, b'.tracks[u].part, b'.tracks[u].done, val', b.write, b.w)
  {
    hide Supplied, Contiguous, Joined;
    var b', f, o := Advanced(b, cur, t), frags[cur], b.owner[cur];
    assert Rest(f, b.tracks[o], b.w);
    forall u | 0 <= u < |b'.tracks|
      ensures Served(b'.tracks[u].ts, b'.tracks[u].part, b'.tracks[u].done, val', b.write, b.w)
    {
      var tr := b.tracks[u];
      assert Served(tr.ts, tr.part, tr.done, val, b.write, b.w);
      TrackKept(b, frags, cur, val, val', t, u);
      if u == o {
        ServedMore(tr.ts, tr.part, tr.done, val, val', t, b.write, b.w);
      } else {
        ServedAgree(tr.ts, tr.part, tr.done, val, val', b.write, b.w);
      }
    }
  }

  /** Eight bytes less of a fragment is again what its track has not moved. */
  lemma RestShortened(f: Fragment, t: Track, t': Track, w: World, n: nat)
    requires Rest(f, t, w) && f.len > 8 && n == 8 && t'.part == t.part && t'.done == t.done + n
    ensures Rest(Shortened(f, n), t', w)
  {
  }

  lemma AdvancePiece(b: Book, frags: seq<Fragment>, cur: nat, val: seq<bv8>, val': seq<bv8>, t: Transfer)
    requires cur < |frags| && BookOk(b, frags, cur, val) && Fits(b, frags[cur], val, val', t)
    requires frags[cur].len > 8
    ensures BookOk(Advanced(b, cur, t), frags[cur := Shortened(frags[cur], |t.data|)], cur, val')
  {
    AdvanceTracks(b, frags, cur, val, val', t);
    hide Served;
    var b' := Advanced(b, cur, t);
    var frags' := frags[cur := Shortened(frags[cur], |t.data|)];
    var o := b.owner[cur];
    RestShortened(frags[cur], b.tracks[o], b'.tracks[o], b.w, |t.data|);
    hide Rest;
    forall i | cur <= i < |frags'|
      ensures Rest(frags'[i], b'.tracks[b'.owner[i]], b.w)
    {
      assert i > cur ==> Rest(frags[i], b.tracks[b.owner[i]], b.w);
    }
    forall u | 0 <= u < |b'.tracks| && !Pending(b', cur, u)
      ensures b'.tracks[u].done == b'.tracks[u].part.len
    {
      assert b'.owner[cur] == b.owner[cur];
      assert !Pending(b, cur, u);
    }
  }

  lemma AdvanceFragment(b: Book, frags: seq<Fragment>, cur: nat, val: seq<bv8>, val': seq<bv8>, t: Transfer)
    requires cur < |frags| && BookOk(b, frags, cur, val) && Fits(b, frags[cur], val, val', t)
    requires frags[cur].len <= 8
    ensures BookOk(Advanced(b, cur, t), frags, cur + 1, val')
  {
    AdvanceTracks(b, frags, cur, val, val', t);
    hide Served;
    var b' := Advanced(b, cur, t);
    assert Rest(frags[cur], b.tracks[b.owner[cur]], b.w);
    forall u | 0 <= u < |b'.tracks| && !Pending(b', cur + 1, u)
      ensures b'.tracks[u].done == b'.tracks[u].part.len
    {
      if Pending(b, cur, u) {
        var i :| cur <= i < |b.owner| && b.owner[i] == u;
        assert i == cur;
      }
    }
  }

  function PartsIn(b: Book): seq<Part> {
    seq(|b.tracks|, t requires 0 <= t < |b.tracks| => b.tracks[t].part)
  }

  /** Every byte of every part moved exactly once, in order, at its own place. */
  ghost predicate Finished(b: Book, val: seq<bv8>) {
    forall t :: 0 <= t < |b.tracks| ==>
      && b.tracks[t].done == b.tracks[t].part.len
      && Served(b.tracks[t].ts, b.tracks[t].part, b.tracks[t].done, val, b.write, b.w)
  }

  lemma NothingPending(b: Book, frags: seq<Fragment>, val: seq<bv8>)
    requires BookOk(b, frags, |frags|, val)
    ensures Finished(b, val)
  {
    forall t | 0 <= t < |b.tracks|
      ensures b.tracks[t].done == b.tracks[t].part.len
    {
      assert !Pending(b, |frags|, t);
    }
  }

  function LeftIn(frags: seq<Fragment>, from: nat): nat
    requires from <= |frags|
    decreases |frags| - from
  {
    if from == |frags| then 0 else frags[from].len + LeftIn(frags, from + 1)
  }

  lemma {:induction false} LeftAfter(frags: seq<Fragment>, cur: nat, f: Fragment, from: nat)
    requires cur < from <= |frags|
    ensures LeftIn(frags[cur := f], from) == LeftIn(frags, from)
    decreases |frags| - from
  {
    if from < |frags| {
      LeftAfter(frags, cur, f, from + 1);
    }
  }

  // ----- the vCPU

  class Vcpu {
    const val: array<bv8>
    const fragments: array<Fragment>
    var nrFragments: nat
    var curFragment: nat
    var needed: bool
    var isWrite: bool
    var readCompleted: bool
    var runPhysAddr: nat
    var runLen: nat
    var runData: seq<bv8>
    ghost var book: Book

    /** While an exit is outstanding it shows the front of the current fragment. */
    ghost predicate Valid()
      reads this, val, fragments
    {
      && fragments.Length == MAX_FRAGMENTS && fragments as object != val
      && (needed ==>
        && curFragment < nrFragments <= MAX_FRAGMENTS && isWrite == book.write
        && BookOk(book, fragments[..nrFragments], curFragment, val[..])
        && ExitShows(fragments[curFragment]))
    }

    ghost predicate ExitShows(f: Fragment)
      reads this, val
    {
      && f.pos + f.len <= val.Length && f.len > 0
      && runPhysAddr == f.gpa && runLen == Min8(f.len)
      && (isWrite ==> runData == val[f.pos..f.pos + runLen])
    }

    constructor (n: nat, w: World)
      ensures Valid() && !needed && !readCompleted && fresh(val) && fresh(fragments) && val.Length == n
    {
      val := new bv8[n];
      fragments := new Fragment[MAX_FRAGMENTS](_ => Fragment(0, 0, 0));
      nrFragments, curFragment, needed, isWrite, readCompleted := 0, 0, false, false, false;
      runPhysAddr, runLen, runData := 0, 0, [];
      book := Book([], [], false, w);
    }

    /** Copy bytes into the buffer. */
    method Store(pos: nat, bytes: seq<bv8>)
      requires pos + |bytes| <= val.Length
      modifies val
      ensures val[..pos] == old(val[..pos]) && val[pos..pos + |bytes|] == bytes
      ensures val[pos + |bytes|..] == old(val[pos + |bytes|..])
    {
      for i := 0 to |bytes|
        invariant val[..pos] == old(val[..pos]) && val[pos..pos + i] == bytes[..i]
        invariant val[pos + |bytes|..] == old(val[pos + |bytes|..])
      {
        val[pos + i] := bytes[i];
      }
    }

    /** One chunk at an address, served by a source inside the kernel from or into the buffer at `pos`. */
    method Chunk(source: Source, addr: nat, pos: nat, n: nat, write: bool, w: World,
                 ghost part: Part, ghost ts: seq<Transfer>, ghost handled: nat)
      returns (ghost ts': seq<Transfer>)
      requires Served(ts, part, handled, val[..], write, w)
      requires addr == part.gpa + handled && pos == part.pos + handled
      requires 0 < n <= part.len - handled && (source != GuestMemory ==> n <= 8)
      requires Route(source, handled, n, part, w)
      modifies val
      ensures Served(ts', part, handled + n, val[..], write, w)
      ensures val[..part.pos] == old(val[..part.pos]) && (write ==> val[..] == old(val[..]))
    {
      hide Served, Bytes, Route;
      ServedInside(ts, part, handled, val[..], write, w);
      ghost var before := val[..];
      if !write {
        Store(pos, Bytes(w, source, pos, n));
      }
      ghost var t := Transfer(source, addr, pos, val[pos..pos + n]);
      ChunkServed(ts, part, handled, before, val[..], t, write, w);
      ts' := ts + [t];
    }

    /** The next chunk, taken by a device. */
    method DeviceChunk(addr: nat, pos: nat, n: nat, write: bool, w: World,
                       ghost part: Part, ghost ts: seq<Transfer>, ghost handled: nat, ghost chunks: nat)
      returns (ghost ts': seq<Transfer>)
      requires Served(ts, part, handled, val[..], write, w) && !InMemory(part, w)
      requires addr == part.gpa + handled && pos == part.pos + handled && handled == 8 * chunks
      requires handled < part.len && n == Min8(part.len - handled)
      requires TakenBefore(part, handled, w) && w.deviceTakes(pos)
      modifies val
      ensures Served(ts', part, handled + n, val[..], write, w) && TakenBefore(part, handled + n, w)
      ensures val[..part.pos] == old(val[..part.pos]) && (write ==> val[..] == old(val[..]))
    {
      hide Served, InMemory, Taken, TakenBefore, Route, Min8;
      Min8Is(part.len - handled);
      TakenNext(part, handled, n, chunks, w);
      DeviceRoute(part, handled, n, chunks, w);
      ts' := Chunk(Device, addr, pos, n, write, w, part, ts, handled);
    }

    /** vcpu_mmio_write and vcpu_mmio_read: offer chunks to the in-kernel devices until one is refused. */
    method LocalMmio(write: bool, part: Part, w: World) returns (handled: nat, ghost ts: seq<Transfer>)
      requires 0 < part.len && End(part) <= val.Length && !InMemory(part, w)
      modifies val
      ensures handled <= part.len && Served(ts, part, handled, val[..], write, w)
      ensures val[..part.pos] == old(val[..part.pos]) && (write ==> val[..] == old(val[..]))
      ensures TakenBefore(part, handled, w)
      ensures handled < part.len ==> handled % 8 == 0 && !w.deviceTakes(part.pos + handled)
    {
      ServedNothing(part, val[..], write, w);
      NoneTaken(part, w);
      hide Served, InMemory, Taken, TakenBefore, Route, Min8;
      handled, ts := 0, [];
      var addr, v, len := part.gpa, part.pos, part.len;
      ghost var chunks: nat := 0;
      while true
        invariant len == part.len - handled && 0 < len
        invariant addr == part.gpa + handled && v == part.pos + handled && handled == 8 * chunks
        invariant TakenBefore(part, handled, w)
        invariant Served(ts, part, handled, val[..], write, w)
        invariant val[..part.pos] == old(val[..part.pos]) && (write ==> val[..] == old(val[..]))
        decreases len
      {
        var n := Min8(len);
        Min8Is(len);
        if !w.deviceTakes(v) {
          WholeChunks(chunks);
          break;
        }
        ts := DeviceChunk(addr, v, n, write, w, part, ts, handled, chunks);
        chunks := chunks + 1;
        handled := handled + n;
        addr := addr + n;
        len := len - n;
        v := v + n;
        if len == 0 {
          break;
        }
      }
    }

    /** emulator_read_write_onepage: serve what can be served and record the rest as a fragment. */
    method OnePage(addr: nat, pos: nat, bytes: nat, write: bool, w: World) returns (rc: Result)
      requires fragments.Length == MAX_FRAGMENTS && nrFragments < MAX_FRAGMENTS && fragments as object != val
      requires BookOk(book, fragments[..nrFragments], 0, val[..]) && Below(book, pos)
      requires book.write == write && book.w == w
      requires 0 < bytes && pos + bytes <= val.Length
      modifies this`nrFragments, this`book, val, fragments
      ensures rc == if w.lookup(addr) == Fault then PropagateFault else Continue
      ensures rc == Continue ==>
        && nrFragments == old(nrFragments) + (if Leaves(PartAt(addr, pos, bytes, w), w) then 1 else 0)
        && BookOk(book, fragments[..nrFragments], 0, val[..]) && Below(book, pos + bytes)
        && PartsIn(book) == PartsIn(old(book)) + [PartAt(addr, pos, bytes, w)]
        && book.write == write && book.w == w
      ensures write ==> val[..] == old(val[..])
    {
      hide BookOk, Below, Served, Leaves, Taken, TakenBefore;
      if w.lookup(addr) == Fault {
        return PropagateFault;
      }
      var gpa := w.lookup(addr).gpa;
      var part := Part(gpa, pos, bytes, w.lookup(addr).mmio);
      ghost var frags := fragments[..nrFragments];
      ghost var before := val[..];
      ghost var ts;
      if !w.lookup(addr).mmio && w.memoryOk(pos) {
        InMemoryStays(part, w);
        ServedNothing(part, val[..], write, w);
        ts := Chunk(GuestMemory, gpa, pos, bytes, write, w, part, [], 0);
        assert fragments[..nrFragments] == frags;
        AddServed(book, frags, before, val[..], Track(part, ts, bytes));
        book := book.(tracks := book.tracks + [Track(part, ts, bytes)]);
        return Continue;
      }
      var handled;
      handled, ts := LocalMmio(write, part, w);
      assert fragments[..nrFragments] == frags;
      if handled == bytes {
        TakenAll(part, w);
        AddServed(book, frags, before, val[..], Track(part, ts, bytes));
        book := book.(tracks := book.tracks + [Track(part, ts, bytes)]);
        return Continue;
      }
      NotTaken(part, handled, w);
      RecordFragment(Fragment(gpa + handled, pos + handled, bytes - handled), before, Track(part, ts, handled));
      return Continue;
    }

    /** The tail of emulator_read_write_onepage. */
    method RecordFragment(f: Fragment, ghost before: seq<bv8>, ghost t: Track)
      requires fragments.Length == MAX_FRAGMENTS && nrFragments < MAX_FRAGMENTS && fragments as object != val
      requires BookOk(book, fragments[..nrFragments], 0, before) && Below(book, t.part.pos)
      requires |before| == val.Length && t.part.pos <= |before| && val[..][..t.part.pos] == before[..t.part.pos]
      requires Served(t.ts, t.part, t.done, val[..], book.write, book.w) && Rest(f, t, book.w)
      modifies this`nrFragments, this`book, fragments
      ensures nrFragments == old(nrFragments) + 1
      ensures BookOk(book, fragments[..nrFragments], 0, val[..]) && Below(book, End(t.part))
      ensures PartsIn(book) == PartsIn(old(book)) + [t.part]
      ensures book.write == old(book.write) && book.w == old(book.w)
    {
      hide BookOk, Below, Served, Rest;
      ghost var frags := fragments[..nrFragments];
      AddFragment(book, frags, before, val[..], t, f);
      fragments[nrFragments] := f;
      nrFragments := nrFragments + 1;
      assert fragments[..nrFragments] == frags + [f];
      book := book.(tracks := book.tracks + [t], owner := book.owner + [|book.tracks|]);
    }

    /** The part of emulator_read_write that serves one or two pages. */
    method ServePages(addr: nat, bytes: nat, write: bool, prot64: bool, w: World) returns (rc: Result)
      requires fragments.Length == MAX_FRAGMENTS && fragments as object != val
      requires addr < WORD && 1 <= bytes <= PAGE && bytes <= val.Length
      modifies this`nrFragments, this`book, val, fragments
      ensures rc == if Faults(addr, bytes, prot64, w) then PropagateFault else Continue
      ensures rc == Continue ==>
        && nrFragments <= MAX_FRAGMENTS && book.write == write && book.w == w
        && BookOk(book, fragments[..nrFragments], 0, val[..]) && Below(book, bytes)
        && PartsIn(book) == PartsOf(addr, bytes, prot64, w)
        && (nrFragments > 0 <==> AnyLeaves(PartsIn(book), w))
      ensures write ==> val[..] == old(val[..])
    {
      hide BookOk, Below, Leaves, AnyLeaves, PartsIn;
      nrFragments := 0;
      book := Book([], [], write, w);
      EmptyBook(book, val[..]);
      NoParts(book, w);
      assert fragments[..0] == [];
      var address, pos, left := addr, 0, bytes;
      if Crosses(addr, bytes) {
        SplitInside(addr, bytes);
        var now := Now(addr);
        rc := OnePage(addr, 0, now, write, w);
        if rc != Continue {
          return;
        }
        address, pos, left := SecondAddress(addr, prot64), now, bytes - now;
        AnyLeavesSnoc([], PartAt(addr, 0, now, w), w);
      }
      ghost var before := PartsIn(book);
      rc := OnePage(address, pos, left, write, w);
      if rc == Continue {
        AnyLeavesSnoc(before, PartAt(address, pos, left, w), w);
      }
    }

    /** emulator_read_write */
    method ReadWrite(addr: nat, bytes: nat, write: bool, prot64: bool, w: World) returns (rc: Result)
      requires Valid() && !needed
      requires addr < WORD && 1 <= bytes <= PAGE && bytes <= val.Length
      modifies this, val, fragments
      ensures Valid()
      ensures !write && old(readCompleted) ==>
        rc == Continue && !readCompleted && !needed && val[..] == old(val[..]) && book == old(book)
      ensures write || !old(readCompleted) ==>
        && readCompleted == old(readCompleted)
        && (rc == PropagateFault <==> Faults(addr, bytes, prot64, w))
        && (rc == PropagateFault ==> !needed)
        && (rc != PropagateFault ==>
             && PartsIn(book) == PartsOf(addr, bytes, prot64, w) && book.write == write && book.w == w
             && (rc == IoNeeded <==> needed && !write)
             && (needed <==> AnyLeaves(PartsIn(book), w))
             && (needed ==> Below(book, bytes))
             && (!needed ==> Finished(book, val[..])))
      ensures write ==> val[..] == old(val[..])
    {
      hide BookOk, Below, Served, Leaves, AnyLeaves;
      if !write && readCompleted {
        readCompleted := false;
        return Continue;
      }
      rc := ServePages(addr, bytes, write, prot64, w);
      if rc != Continue {
        return;
      }
      if nrFragments == 0 {
        NothingPending(book, fragments[..0], val[..]);
        return;
      }
      needed := true;
      curFragment := 0;
      FragmentInside(book, fragments[..nrFragments], 0, val[..]);
      var f := fragments[0];
      assert f == fragments[..nrFragments][0];
      runLen := Min8(f.len);
      isWrite := write;
      runPhysAddr := f.gpa;
      if write {
        runData := val[f.pos..f.pos + Min8(f.len)];
        rc := Continue;
      } else {
        rc := IoNeeded;
      }
    }

    /** The bytes still to be completed by user space. */
    ghost function LeftOver(): nat
      requires Valid()
      reads this, val, fragments
    {
      if needed then LeftIn(fragments[..nrFragments], curFragment) else 0
    }

    /** The bytes of an exit that user space completed: on a read they go to the fragment's place in the buffer. */
    method TakeReply(reply: seq<bv8>) returns (ghost t: Transfer)
      requires Valid() && needed && |reply| == 8
      requires !isWrite ==> reply[..runLen] == Bytes(book.w, UserSpace, fragments[curFragment].pos, runLen)
      modifies val
      ensures Fits(book, fragments[curFragment], old(val[..]), val[..], t) && IsExit(t, reply)
      ensures isWrite ==> val[..] == old(val[..])
    {
      hide BookOk, Served;
      var f := fragments[curFragment];
      if !isWrite {
        Store(f.pos, reply[..Min8(f.len)]);
      }
      t := Transfer(UserSpace, f.gpa, f.pos, val[f.pos..f.pos + Min8(f.len)]);
    }

    /** The first half of complete_emulated_mmio: account for the exit that user space completed. */
    method FinishPiece(reply: seq<bv8>) returns (ghost t: Transfer)
      requires Valid() && needed && |reply| == 8
      requires !isWrite ==> reply[..runLen] == Bytes(book.w, UserSpace, fragments[curFragment].pos, runLen)
      modifies this`book, this`curFragment, val, fragments
      ensures old(curFragment) < |old(book).owner| && old(book).owner[old(curFragment)] < |old(book).tracks|
      ensures book == Advanced(old(book), old(curFragment), t) && IsExit(t, reply)
      ensures curFragment <= nrFragments && BookOk(book, fragments[..nrFragments], curFragment, val[..])
      ensures LeftIn(fragments[..nrFragments], curFragment) < old(LeftOver())
      ensures PartsIn(book) == PartsIn(old(book)) && book.write == old(book.write) && book.w == old(book.w)
      ensures book.write ==> val[..] == old(val[..])
    {
      hide BookOk, Served;
      ghost var frags, cur, before := fragments[..nrFragments], curFragment, val[..];
      var f := fragments[curFragment];
      var len := Min8(f.len);
      assert frags[cur] == f;
      FragmentInside(book, frags, cur, before);
      t := TakeReply(reply);
      assert fragments[..nrFragments] == frags;
      hide Fits, IsExit;
      ghost var book' := Advanced(book, cur, t);
      if f.len <= 8 {
        AdvanceFragment(book, frags, cur, before, val[..], t);
        curFragment := curFragment + 1;
      } else {
        AdvancePiece(book, frags, cur, before, val[..], t);
        LeftAfter(frags, cur, Shortened(f, len), cur + 1);
        fragments[curFragment] := Fragment(f.gpa + len, f.pos + len, f.len - len);
        assert fragments[..nrFragments] == frags[cur := Shortened(f, len)];
      }
      book := book';
    }

    /** The transfer is the exit on show: its address and length, its data on a write, the reply on a read. */
    ghost predicate IsExit(t: Transfer, reply: seq<bv8>)
      reads this
    {
      && t.source == UserSpace && t.gpa == runPhysAddr && |t.data| == runLen <= |reply|
      && t.data == if isWrite then runData else reply[..runLen]
    }

    /** Set up the exit for the front of the current fragment. */
    method ShowExit()
      requires fragments.Length == MAX_FRAGMENTS && fragments as object != val
      requires curFragment < nrFragments <= MAX_FRAGMENTS
      requires BookOk(book, fragments[..nrFragments], curFragment, val[..])
      modifies this`runPhysAddr, this`runLen, this`runData
      ensures ExitShows(fragments[curFragment])
    {
      hide BookOk;
      FragmentInside(book, fragments[..nrFragments], curFragment, val[..]);
      var f := fragments[curFragment];
      assert f == fragments[..nrFragments][curFragment];
      runPhysAddr := f.gpa;
      if isWrite {
        runData := val[f.pos..f.pos + Min8(f.len)];
      }
      runLen := Min8(f.len);
    }

    /**
      complete_emulated_mmio, after user space filled `reply`: the exit's bytes are accounted for,
      and either the next exit is set up or the access is finished.
     */
    method Complete(reply: seq<bv8>) returns (finished: bool, ghost t: Transfer)
      requires Valid() && needed && |reply| == 8
      requires !isWrite ==> reply[..runLen] == Bytes(book.w, UserSpace, fragments[curFragment].pos, runLen)
      modifies this, val, fragments
      ensures Valid() && LeftOver() < old(LeftOver())
      ensures old(curFragment) < |old(book).owner| && old(book).owner[old(curFragment)] < |old(book).tracks|
      ensures book == Advanced(old(book), old(curFragment), t) && old(IsExit(t, reply))
      ensures finished <==> !needed
      ensures 1 <= old(runLen) <= 8
      ensures finished ==> Finished(book, val[..]) && (readCompleted <==> !book.write || old(readCompleted))
      ensures !finished ==> readCompleted == old(readCompleted)
      ensures PartsIn(book) == PartsIn(old(book)) && book.write == old(book.write) && book.w == old(book.w)
      ensures book.write ==> val[..] == old(val[..])
    {
      hide BookOk, Finished, PartsIn, Advanced;
      t := FinishPiece(reply);
      if curFragment >= nrFragments {
        NothingPending(book, fragments[..nrFragments], val[..]);
        needed := false;
        if !isWrite {
          readCompleted := true;
        }
        return true, t;
      }
      ShowExit();
      return false, t;
    }

    /**
      An access from start to end, with user space completing every exit: unless a page faults,
      each byte of the access moves exactly once, in order within its page, and a read
      brings the bytes its sources supply to their own positions.
     */
    method WholeAccess(addr: nat, bytes: nat, write: bool, prot64: bool, w: World) returns (rc: Result)
      requires Valid() && !needed && !readCompleted
      requires addr < WORD && 1 <= bytes <= PAGE && bytes <= val.Length
      modifies this, val, fragments
      ensures Valid() && !needed
      ensures rc == PropagateFault <==> Faults(addr, bytes, prot64, w)
      ensures rc != PropagateFault ==>
        PartsIn(book) == PartsOf(addr, bytes, prot64, w) && Finished(book, val[..]) && book.write == write && book.w == w
      ensures write ==> val[..] == old(val[..])
    {
      hide BookOk, Below, Served, Finished;
      rc := ReadWrite(addr, bytes, write, prot64, w);
      if rc == PropagateFault {
        return;
      }
      while needed
        invariant Valid()
        invariant PartsIn(book) == PartsOf(addr, bytes, prot64, w) && book.write == write && book.w == w
        invariant !needed ==> Finished(book, val[..])
        invariant write ==> val[..] == old(val[..])
        decreases LeftOver()
      {
        var filled := Bytes(w, UserSpace, fragments[curFragment].pos, 8);
        assert filled[..runLen] == Bytes(w, UserSpace, fragments[curFragment].pos, runLen);
        var finished, _ := Complete(filled);
      }
    }
  }

  lemma NoParts(b: Book, w: World)
    requires b.tracks == []
    ensures PartsIn(b) == [] && !AnyLeaves(PartsIn(b), w)
  {
  }

  lemma EmptyBook(b: Book, val: seq<bv8>)
    requires b.tracks == [] && b.owner == []
    ensures BookOk(b, [], 0, val) && Below(b, 0)
  {
  }

  /** A pending fragment lies inside the buffer and the front of the list is not empty. */
  lemma FragmentInside(b: Book, frags: seq<Fragment>, cur: nat, val: seq<bv8>)
    requires cur < |frags| && BookOk(b, frags, cur, val)
    ensures frags[cur].len > 0 && frags[cur].pos + frags[cur].len <= |val|
    ensures cur < |b.owner| && b.owner[cur] < |b.tracks|
  {
    var t := b.tracks[b.owner[cur]];
    assert Rest(frags[cur], t, b.w);
    assert Served(t.ts, t.part, t.done, val, b.write, b.w);
  }

  lemma ServedInside(ts: seq<Transfer>, p: Part, done: nat, val: seq<bv8>, write: bool, w: World)
    requires Served(ts, p, done, val, write, w)
    ensures done <= p.len && End(p) <= |val|
  {
  }

  lemma ServedNothing(p: Part, val: seq<bv8>, write: bool, w: World)
    requires End(p) <= |val|
    ensures Served([], p, 0, val, write, w)
  {
  }
}
