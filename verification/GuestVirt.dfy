/**
  Guest virtual reads and writes of va_tr/kvm/x86.c: kvm_read_guest_virt_helper and
  kvm_write_guest_virt_helper cut a range at page boundaries and move one piece per
  translation.  They are proved to do exactly what a byte-by-byte loop would, which
  translates every address on its own: same result code, same bytes moved before a failure.

  gva_to_gpa (at one access level) is an arbitrary function that keeps page offsets.
  Memory slots are a set of frame numbers, of which some are read-only.
 */
module GuestVirt {

  const PAGE: nat := 4096
  const SPACE: nat := 0x1_0000_0000_0000_0000
  const UNMAPPED: nat := SPACE - 1

  type Byte = x: nat | x < 256
  type Gva = x: nat | x < SPACE witness 0
  type Walk = Gva -> nat
  type Ram = seq<Byte>

  datatype Outcome = Continue | PropagateFault | IoNeeded

  /** Address arithmetic on gva_t wraps. */
  function Step(a: Gva, i: nat): Gva { (a + i) % SPACE }

  function Base(a: Gva): Gva { a - a % PAGE }

  function Offset(a: Gva): (r: nat)
    ensures r < PAGE
  {
    a % PAGE
  }

  /** What min(bytes, PAGE_SIZE - offset) comes to. */
  function Piece(a: Gva, bytes: nat): (r: nat)
    ensures r <= bytes && (bytes > 0 ==> r > 0) && Offset(a) + r <= PAGE
  {
    if bytes < PAGE - Offset(a) then bytes else PAGE - Offset(a)
  }

  /** The walk treats a as its page's first address plus the offset. */
  predicate Framed(walk: Walk, a: Gva) {
    if walk(a) == UNMAPPED then walk(Base(a)) == UNMAPPED
    else walk(Base(a)) != UNMAPPED && walk(Base(a)) % PAGE == 0 && walk(a) == walk(Base(a)) + a % PAGE
  }

  ghost predicate OffsetPreserving(walk: Walk) { forall a: Gva :: Framed(walk, a) }

  // ----- the byte-by-byte reference

  /** What one byte's access yields. */
  function Probe(walk: Walk, slots: set<nat>, a: Gva): Outcome {
    if walk(a) == UNMAPPED then PropagateFault
    else if walk(a) / PAGE in slots then Continue
    else IoNeeded
  }

  /** Moving n bytes one at a time: the result, and how many were moved. */
  function ByteRun(walk: Walk, slots: set<nat>, a: Gva, n: nat): (result: (Outcome, nat))
    ensures result.1 <= n
    ensures result.0 == Continue <==> result.1 == n
    decreases n
  {
    if n == 0 then (Continue, 0)
    else if Probe(walk, slots, a) != Continue then (Probe(walk, slots, a), 0)
    else var rest := ByteRun(walk, slots, Step(a, 1), n - 1); (rest.0, rest.1 + 1)
  }

  function Get(m: Ram, p: nat): Byte { if p < |m| then m[p] else 0 }

  function Put(m: Ram, p: nat, b: Byte): Ram { if p < |m| then m[p := b] else m }

  /** Byte i comes from wherever address a + i translates to. */
  function Loaded(m: Ram, walk: Walk, a: Gva, n: nat): (s: seq<Byte>)
    ensures |s| == n
  {
    seq<Byte>(n, (i: nat) => Get(m, walk(Step(a, i))))
  }

  /** Byte i goes to wherever address a + i translates to, in order. */
  function Stored(m: Ram, walk: Walk, a: Gva, data: seq<Byte>): (r: Ram)
    ensures |r| == |m|
    decreases |data|
  {
    if data == [] then m
    else
      var k := |data| - 1;
      Put(Stored(m, walk, a, data[..k]), walk(Step(a, k)), data[k])
  }

  // ----- one page

  lemma StepStep(a: Gva, i: nat, j: nat)
    ensures Step(Step(a, i), j) == Step(a, i + j)
  {
  }

  /** Inside a page, translations are consecutive and in one frame. */
  lemma SamePage(walk: Walk, a: Gva, k: nat)
    requires OffsetPreserving(walk) && Offset(a) + k < PAGE
    ensures Step(a, k) == a + k && Base(Step(a, k)) == Base(a)
    ensures walk(a) == UNMAPPED <==> walk(Step(a, k)) == UNMAPPED
    ensures walk(a) != UNMAPPED ==>
      && walk(a) % PAGE == Offset(a)
      && walk(Step(a, k)) == walk(a) + k && walk(Step(a, k)) / PAGE == walk(a) / PAGE
  {
    InPage(a, k);
    assert Framed(walk, a) && Framed(walk, Step(a, k));
    if walk(a) != UNMAPPED {
      InFrame(walk(Base(a)), a % PAGE);
      InFrame(walk(Base(a)), a % PAGE + k);
    }
  }

  lemma InPage(a: Gva, k: nat)
    requires a % PAGE + k < PAGE
    ensures Step(a, k) == a + k && (a + k) % PAGE == a % PAGE + k && Base(Step(a, k)) == Base(a)
  {
    var q := a / PAGE;
    assert a == q * PAGE + a % PAGE;
    assert SPACE == 0x10_0000_0000_0000 * PAGE;
  }

  lemma InFrame(base: nat, offset: nat)
    requires base % PAGE == 0 && offset < PAGE
    ensures (base + offset) / PAGE == base / PAGE && (base + offset) % PAGE == offset
  {
  }

  /** A piece inside a page is moved whole or not at all. */
  lemma {:induction false} PieceRun(walk: Walk, slots: set<nat>, a: Gva, k: nat, n: nat)
    requires OffsetPreserving(walk) && 0 < k <= n && Offset(a) + k <= PAGE
    ensures var rest := ByteRun(walk, slots, Step(a, k), n - k);
      ByteRun(walk, slots, a, n) ==
      if Probe(walk, slots, a) == Continue then (rest.0, k + rest.1) else (Probe(walk, slots, a), 0)
    decreases k
  {
    hide OffsetPreserving, Step;
    if k > 1 && Probe(walk, slots, a) == Continue {
      SamePage(walk, a, 1);
      InPage(a, 1);
      PieceRun(walk, slots, Step(a, 1), k - 1, n - 1);
      StepStep(a, 1, k - 1);
    }
  }

  /** The helper has moved the first `data` of `count` bytes and stands at address a. */
  ghost predicate Progress(walk: Walk, slots: set<nat>, addr: Gva, count: nat, a: Gva, bytes: nat, data: nat) {
    && data + bytes == count
    && a == Step(addr, data)
    && ByteRun(walk, slots, addr, count)
       == (ByteRun(walk, slots, a, bytes).0, data + ByteRun(walk, slots, a, bytes).1)
  }

  /** One piece: either it moves and progress is kept, or the run ends here with its code. */
  lemma PieceProgress(walk: Walk, slots: set<nat>, addr: Gva, count: nat, a: Gva, bytes: nat, data: nat, k: nat)
    requires OffsetPreserving(walk) && Progress(walk, slots, addr, count, a, bytes, data)
    requires 0 < k <= bytes && Offset(a) + k <= PAGE
    ensures Step(a, k) == Step(addr, data + k)
    ensures Probe(walk, slots, a) == Continue ==>
      Progress(walk, slots, addr, count, Step(a, k), bytes - k, data + k)
    ensures Probe(walk, slots, a) != Continue ==>
      ByteRun(walk, slots, addr, count) == (Probe(walk, slots, a), data)
  {
    hide OffsetPreserving, Probe;
    PieceRun(walk, slots, a, k, bytes);
    StepStep(addr, data, k);
  }

  lemma ProgressDone(walk: Walk, slots: set<nat>, addr: Gva, count: nat, a: Gva, data: nat)
    requires Progress(walk, slots, addr, count, a, 0, data)
    ensures ByteRun(walk, slots, addr, count) == (Continue, count)
  {
  }

  /** A block written at p. */
  function Overwritten(m: Ram, p: nat, block: seq<Byte>): (r: Ram)
    requires p + |block| <= |m|
    ensures |r| == |m|
  {
    m[..p] + block + m[p + |block|..]
  }

  /** One byte more of the data is one more store. */
  lemma StoredSnoc(m: Ram, walk: Walk, a: Gva, data: seq<Byte>, n: nat)
    requires 0 < n <= |data|
    ensures Stored(m, walk, a, data[..n]) ==
      Put(Stored(m, walk, a, data[..n - 1]), walk(Step(a, n - 1)), data[n - 1])
  {
    hide Step, Put;
    assert data[..n][..n - 1] == data[..n - 1];
  }

  lemma NothingWritten(m: Ram, p: nat)
    requires p <= |m|
    ensures Overwritten(m, p, []) == m
  {
  }

  lemma SliceSnoc(data: seq<Byte>, at: nat, k: nat)
    requires 0 < k && at + k <= |data|
    ensures data[at..at + k][..k - 1] == data[at..at + k - 1] && data[at..at + k][k - 1] == data[at + k - 1]
  {
  }

  /** Storing a piece byte by byte is writing it as a block. */
  lemma {:induction false} PieceStored(m: Ram, walk: Walk, a: Gva, at: nat, data: seq<Byte>, k: nat)
    requires OffsetPreserving(walk) && at + k <= |data|
    requires Offset(Step(a, at)) + k <= PAGE
    requires walk(Step(a, at)) != UNMAPPED && walk(Step(a, at)) + k <= |m|
    ensures Stored(m, walk, a, data[..at + k])
         == Overwritten(Stored(m, walk, a, data[..at]), walk(Step(a, at)), data[at..at + k])
    decreases k
  {
    hide OffsetPreserving, Stored, Overwritten, Put, Step;
    var before := Stored(m, walk, a, data[..at]);
    var p := walk(Step(a, at));
    if k == 0 {
      assert data[at..at + k] == [];
      NothingWritten(before, p);
    } else {
      PieceStored(m, walk, a, at, data, k - 1);
      SamePage(walk, Step(a, at), k - 1);
      StepStep(a, at, k - 1);
      StoredSnoc(m, walk, a, data, at + k);
      SliceSnoc(data, at, k);
      BlockGrows(before, p, data[at..at + k]);
    }
  }

  lemma BlockGrows(m: Ram, p: nat, block: seq<Byte>)
    requires block != [] && p + |block| <= |m|
    ensures var k := |block| - 1;
      Put(Overwritten(m, p, block[..k]), p + k, block[k]) == Overwritten(m, p, block)
  {
  }

  // ----- reading back

  /** No two bytes of the range share a physical address. */
  ghost predicate Distinct(walk: Walk, a: Gva, n: nat) {
    forall i, j :: 0 <= i < j < n ==> walk(Step(a, i)) != walk(Step(a, j))
  }

  ghost predicate Within(m: Ram, walk: Walk, a: Gva, n: nat) {
    forall i :: 0 <= i < n ==> walk(Step(a, i)) < |m|
  }

  /** The last byte stored at an address is the one found there. */
  lemma {:induction false} LastStored(m: Ram, walk: Walk, a: Gva, data: seq<Byte>, i: nat)
    requires i < |data| && walk(Step(a, i)) < |m|
    requires forall j :: i < j < |data| ==> walk(Step(a, j)) != walk(Step(a, i))
    ensures Get(Stored(m, walk, a, data), walk(Step(a, i))) == data[i]
    decreases |data|
  {
    var k := |data| - 1;
    if i < k {
      LastStored(m, walk, a, data[..k], i);
      assert walk(Step(a, k)) != walk(Step(a, i));
    }
  }

  /** An address no byte translates to keeps its content. */
  lemma {:induction false} Untouched(m: Ram, walk: Walk, a: Gva, data: seq<Byte>, p: nat)
    requires forall i :: 0 <= i < |data| ==> walk(Step(a, i)) != p
    ensures Get(Stored(m, walk, a, data), p) == Get(m, p)
    decreases |data|
  {
    if data != [] {
      var k := |data| - 1;
      Untouched(m, walk, a, data[..k], p);
      assert walk(Step(a, k)) != p;
    }
  }

  lemma ReadBack(m: Ram, walk: Walk, a: Gva, data: seq<Byte>)
    requires Within(m, walk, a, |data|) && Distinct(walk, a, |data|)
    ensures Loaded(Stored(m, walk, a, data), walk, a, |data|) == data
  {
    forall i | 0 <= i < |data|
      ensures Loaded(Stored(m, walk, a, data), walk, a, |data|)[i] == data[i]
    {
      LastStored(m, walk, a, data, i);
    }
  }

  ghost predicate AlwaysReadsBack(m: Ram, walk: Walk, a: Gva, n: nat) {
    forall data: seq<Byte> :: |data| == n ==> Loaded(Stored(m, walk, a, data), walk, a, n) == data
  }

  /** A range reads back whatever is written to it exactly when its bytes lie apart. */
  lemma ReadBackExactly(m: Ram, walk: Walk, a: Gva, n: nat)
    requires Within(m, walk, a, n)
    ensures AlwaysReadsBack(m, walk, a, n) <==> Distinct(walk, a, n)
  {
    if Distinct(walk, a, n) {
      forall data: seq<Byte> | |data| == n
        ensures Loaded(Stored(m, walk, a, data), walk, a, n) == data
      {
        ReadBack(m, walk, a, data);
      }
    } else {
      var i, j :| 0 <= i < j < n && walk(Step(a, i)) == walk(Step(a, j));
      var data: seq<Byte> := seq(n, (k: nat) => if k == i then 1 else 0);
      var back := Loaded(Stored(m, walk, a, data), walk, a, n);
      assert back[i] == back[j];
      assert data[i] == 1 && data[j] == 0;
      assert back != data;
    }
  }

  /** The pages of a range lie in different frames. */
  ghost predicate FramesDiffer(walk: Walk, a: Gva, n: nat) {
    forall i, j :: 0 <= i < n && 0 <= j < n && Base(Step(a, i)) != Base(Step(a, j)) ==>
      walk(Step(a, i)) / PAGE != walk(Step(a, j)) / PAGE
  }

  ghost predicate Mapped(walk: Walk, a: Gva, n: nat) {
    forall i :: 0 <= i < n ==> walk(Step(a, i)) != UNMAPPED
  }

  /** Different frames are enough; two pages in one frame may still do when their pieces do not overlap. */
  lemma FramesSuffice(walk: Walk, a: Gva, n: nat)
    requires OffsetPreserving(walk) && n <= SPACE && Mapped(walk, a, n) && FramesDiffer(walk, a, n)
    ensures Distinct(walk, a, n)
  {
    forall i, j | 0 <= i < j < n ensures walk(Step(a, i)) != walk(Step(a, j)) {
      var x, y := Step(a, i), Step(a, j);
      assert walk(x) != UNMAPPED && walk(y) != UNMAPPED;
      StepsDiffer(a, i, j);
      if Base(x) == Base(y) {
        assert Framed(walk, x) && Framed(walk, y);
      }
    }
  }

  /** A walk with two mapped pages, in frames far apart. */
  function TwoPages(a: Gva): nat {
    if a < PAGE then 9 * PAGE + a else if a < 2 * PAGE then 5 * PAGE + (a - PAGE) else UNMAPPED
  }

  /** Such walks exist. */
  lemma TwoPagesSuffice()
    ensures OffsetPreserving(TwoPages) && Mapped(TwoPages, 0, 2 * PAGE) && FramesDiffer(TwoPages, 0, 2 * PAGE)
  {
    forall a: Gva
      ensures Framed(TwoPages, a)
    {
      assert a >= 2 * PAGE ==> Base(a) >= 2 * PAGE;
    }
    forall i | 0 <= i < 2 * PAGE
      ensures Step(0, i) == i
    {
    }
  }

  lemma StepsDiffer(a: Gva, i: nat, j: nat)
    requires i < j < SPACE
    ensures Step(a, i) != Step(a, j)
  {
  }

  /** A completed run found every byte mapped, in a slot. */
  lemma {:induction false} RunProbes(walk: Walk, slots: set<nat>, a: Gva, n: nat, i: nat)
    requires i < ByteRun(walk, slots, a, n).1
    ensures Probe(walk, slots, Step(a, i)) == Continue
    decreases n
  {
    if i > 0 {
      RunProbes(walk, slots, Step(a, 1), n - 1, i - 1);
      StepStep(a, 1, i - 1);
    } else {
      assert Step(a, 0) == a;
    }
  }

  // ----- the code

  class GuestMemory {
    const ram: array<Byte>
    const slots: set<nat>
    const readOnly: set<nat>

    constructor (ram: array<Byte>, slots: set<nat>, readOnly: set<nat>)
      ensures this.ram == ram && this.slots == slots && this.readOnly == readOnly
    {
      this.ram := ram;
      this.slots := slots;
      this.readOnly := readOnly;
    }

    ghost predicate Valid() {
      forall f :: f in slots ==> (f + 1) * PAGE <= ram.Length
    }

    /** kvm_vcpu_read_guest_page: fails unless the frame has a slot. */
    method ReadGuestPage(gfn: nat, val: array<Byte>, at: nat, offset: nat, len: nat) returns (ok: bool)
      requires Valid() && val != ram && offset + len <= PAGE && at + len <= val.Length
      modifies val
      ensures ok <==> gfn in slots
      ensures !ok ==> val[..] == old(val[..])
      ensures ok ==>
        && (gfn + 1) * PAGE <= ram.Length
        && val[..] == Overwritten(old(val[..]), at, ram[gfn * PAGE + offset..gfn * PAGE + offset + len])
    {
      ok := gfn in slots;
      if ok {
        var p := gfn * PAGE + offset;
        forall i | 0 <= i < len {
          val[at + i] := ram[p + i];
        }
        assert val[..] == Overwritten(old(val[..]), at, ram[p..p + len]);
      }
    }

    /** kvm_vcpu_write_guest on a piece that stays in one page. */
    method WriteGuest(gpa: nat, val: array<Byte>, at: nat, len: nat) returns (ok: bool)
      requires Valid() && val != ram && gpa % PAGE + len <= PAGE && at + len <= val.Length
      modifies ram
      ensures ok <==> gpa / PAGE in slots - readOnly
      ensures !ok ==> ram[..] == old(ram[..])
      ensures ok ==>
        && gpa + len <= ram.Length
        && ram[..] == Overwritten(old(ram[..]), gpa, val[at..at + len])
    {
      ok := gpa / PAGE in slots && gpa / PAGE !in readOnly;
      if ok {
        FrameBound(gpa);
        forall i | 0 <= i < len {
          ram[gpa + i] := val[at + i];
        }
        assert ram[..] == Overwritten(old(ram[..]), gpa, val[at..at + len]);
      }
    }

    lemma FrameBound(gpa: nat)
      requires Valid() && gpa / PAGE in slots
      ensures gpa - gpa % PAGE + PAGE <= ram.Length
    {
      var f := gpa / PAGE;
      assert (f + 1) * PAGE <= ram.Length;
    }

    /** One turn of the read loop, whose piece was mapped. */
    method ReadPiece(ghost addr: Gva, a: Gva, val: array<Byte>, data: nat, toread: nat, walk: Walk)
      returns (ok: bool)
      requires Valid() && OffsetPreserving(walk) && val != ram && data + toread <= val.Length
      requires a == Step(addr, data) && 0 < toread && Offset(a) + toread <= PAGE && walk(a) != UNMAPPED
      requires val[..data] == Loaded(ram[..], walk, addr, data)
      modifies val
      ensures ok <==> Probe(walk, slots, a) == Continue
      ensures var moved := if ok then data + toread else data;
        val[..moved] == Loaded(ram[..], walk, addr, moved) && val[moved..] == old(val[moved..])
    {
      ghost var before := val[..];
      ok := ReadGuestPage(walk(a) / PAGE, val, data, Offset(a), toread);
      if ok {
        PieceLoaded(ram[..], walk, addr, data, toread, before, val[..]);
      }
    }

    /** kvm_read_guest_virt_helper. */
    method ReadHelper(addr: Gva, val: array<Byte>, count: nat, walk: Walk) returns (r: Outcome)
      requires Valid() && OffsetPreserving(walk) && val != ram && count <= val.Length
      modifies val
      ensures var (outcome, moved) := ByteRun(walk, slots, addr, count);
        && r == outcome
        && val[..moved] == Loaded(ram[..], walk, addr, moved)
        && val[moved..] == old(val[moved..])
    {
      var a, bytes: nat, data: nat := addr, count, 0;
      r := Continue;
      StartAt(addr);
      assert val[..0] == Loaded(ram[..], walk, addr, 0);
      hide OffsetPreserving, Progress, Loaded, Overwritten, ByteRun, Step, Framed, Base, Offset, Piece;
      while bytes != 0
        invariant data + bytes == count && a == Step(addr, data) && r == Continue
        invariant Progress(walk, slots, addr, count, a, bytes, data)
        invariant val[..data] == Loaded(ram[..], walk, addr, data)
        invariant val[data..] == old(val[data..])
        decreases bytes
      {
        var toread := Piece(a, bytes);
        PieceProgress(walk, slots, addr, count, a, bytes, data, toread);
        if walk(a) == UNMAPPED {
          return PropagateFault;
        }
        var ok := ReadPiece(addr, a, val, data, toread, walk);
        if !ok {
          r := IoNeeded;
          return;
        }
        assert val[data + toread..] == old(val[data..])[toread..];
        bytes := bytes - toread;
        data := data + toread;
        a := Step(a, toread);
      }
      ProgressDone(walk, slots, addr, count, a, data);
    }

    /** One turn of the write loop, whose piece was mapped. */
    method WritePiece(ghost m: Ram, ghost addr: Gva, a: Gva, val: array<Byte>, data: nat, towrite: nat, walk: Walk)
      returns (ok: bool)
      requires Valid() && OffsetPreserving(walk) && val != ram && data + towrite <= val.Length
      requires a == Step(addr, data) && Offset(a) + towrite <= PAGE && walk(a) != UNMAPPED
      requires ram[..] == Stored(m, walk, addr, val[..data])
      modifies ram
      ensures ok <==> Probe(walk, slots - readOnly, a) == Continue
      ensures ram[..] == Stored(m, walk, addr, val[..if ok then data + towrite else data])
    {
      SamePage(walk, a, 0);
      ok := WriteGuest(walk(a), val, data, towrite);
      if ok {
        ghost var src := val[..];
        PieceStored(m, walk, addr, data, src, towrite);
        assert src[..data] == val[..data] && src[..data + towrite] == val[..data + towrite];
        assert src[data..data + towrite] == val[data..data + towrite];
      }
    }

    /** kvm_write_guest_virt_helper. */
    method WriteHelper(addr: Gva, val: array<Byte>, count: nat, walk: Walk) returns (r: Outcome)
      requires Valid() && OffsetPreserving(walk) && val != ram && count <= val.Length
      modifies ram
      ensures var (outcome, moved) := ByteRun(walk, slots - readOnly, addr, count);
        r == outcome && ram[..] == Stored(old(ram[..]), walk, addr, val[..moved])
    {
      var a, bytes: nat, data: nat := addr, count, 0;
      ghost var open, m := slots - readOnly, ram[..];
      r := Continue;
      StartAt(addr);
      assert ram[..] == Stored(m, walk, addr, val[..0]);
      hide OffsetPreserving, Progress, ByteRun, Stored, Step, Framed, Base, Offset, Piece;
      while bytes != 0
        invariant data + bytes == count && a == Step(addr, data) && r == Continue
        invariant Progress(walk, open, addr, count, a, bytes, data)
        invariant ram[..] == Stored(m, walk, addr, val[..data])
        decreases bytes
      {
        var towrite := Piece(a, bytes);
        PieceProgress(walk, open, addr, count, a, bytes, data, towrite);
        if walk(a) == UNMAPPED {
          return PropagateFault;
        }
        var ok := WritePiece(m, addr, a, val, data, towrite, walk);
        if !ok {
          r := IoNeeded;
          return;
        }
        bytes := bytes - towrite;
        data := data + towrite;
        a := Step(a, towrite);
      }
      ProgressDone(walk, open, addr, count, a, data);
    }

    /**
      A successful write followed by a read of the same range: the read succeeds and returns
      the written bytes, provided no two of them share a physical address.
     */
    method WriteThenRead(addr: Gva, val: array<Byte>, back: array<Byte>, forWrite: Walk, forRead: Walk)
      returns (w: Outcome, r: Outcome)
      requires Valid() && OffsetPreserving(forWrite) && OffsetPreserving(forRead)
      requires val != ram && back != ram && back != val && back.Length == val.Length
      requires forall a: Gva :: forWrite(a) != UNMAPPED ==> forRead(a) == forWrite(a)
      modifies ram, back
      ensures val[..] == old(val[..])
      ensures w == Continue ==> r == Continue
      ensures w == Continue && Distinct(forWrite, addr, val.Length) ==> back[..] == val[..]
    {
      var n := val.Length;
      ghost var m := ram[..];
      w := WriteHelper(addr, val, n, forWrite);
      r := ReadHelper(addr, back, n, forRead);
      if w == Continue {
        SameRun(forWrite, forRead, slots - readOnly, slots, addr, n);
        assert val[..n] == val[..] && back[..n] == back[..];
        WrittenWithin(forWrite, addr, n);
        if Distinct(forWrite, addr, n) {
          ReadBack(m, forWrite, addr, val[..]);
          SameLoaded(ram[..], forWrite, forRead, slots - readOnly, addr, n);
        }
      }
    }

    lemma WrittenWithin(walk: Walk, a: Gva, n: nat)
      requires Valid() && ByteRun(walk, slots - readOnly, a, n).1 == n
      ensures Within(ram[..], walk, a, n)
    {
      forall i | 0 <= i < n ensures walk(Step(a, i)) < ram.Length {
        RunProbes(walk, slots - readOnly, a, n, i);
        FrameBound(walk(Step(a, i)));
      }
    }
  }

  lemma StartAt(a: Gva)
    ensures Step(a, 0) == a
  {
  }

  /** A piece copied as a block extends what was loaded. */
  lemma PieceLoaded(m: Ram, walk: Walk, a: Gva, at: nat, k: nat, before: seq<Byte>, after: seq<Byte>)
    requires OffsetPreserving(walk) && 0 < k && Offset(Step(a, at)) + k <= PAGE && at + k <= |before|
    requires walk(Step(a, at)) != UNMAPPED && before[..at] == Loaded(m, walk, a, at)
    requires var p := walk(Step(a, at)) / PAGE * PAGE + Offset(Step(a, at));
      p + k <= |m| && after == Overwritten(before, at, m[p..p + k])
    ensures after[..at + k] == Loaded(m, walk, a, at + k) && after[at + k..] == before[at + k..]
  {
    var x := Step(a, at);
    SamePage(walk, x, 0);
    var p := walk(x) / PAGE * PAGE + Offset(x);
    assert p == walk(x);
    forall i | 0 <= i < at + k ensures after[i] == Loaded(m, walk, a, at + k)[i] {
      if i < at {
        assert after[i] == before[i] == before[..at][i] == Loaded(m, walk, a, at)[i];
      } else {
        SamePage(walk, x, i - at);
        StepStep(a, at, i - at);
      }
    }
  }

  lemma {:induction false} SameRun(w: Walk, r: Walk, open: set<nat>, slots: set<nat>, a: Gva, n: nat)
    requires open <= slots && ByteRun(w, open, a, n).0 == Continue
    requires forall a: Gva :: w(a) != UNMAPPED ==> r(a) == w(a)
    ensures ByteRun(r, slots, a, n) == (Continue, n)
    decreases n
  {
    if n > 0 {
      SameRun(w, r, open, slots, Step(a, 1), n - 1);
    }
  }

  lemma SameLoaded(m: Ram, w: Walk, r: Walk, open: set<nat>, a: Gva, n: nat)
    requires ByteRun(w, open, a, n).0 == Continue
    requires forall a: Gva :: w(a) != UNMAPPED ==> r(a) == w(a)
    ensures Loaded(m, w, a, n) == Loaded(m, r, a, n)
  {
    forall i | 0 <= i < n ensures Loaded(m, w, a, n)[i] == Loaded(m, r, a, n)[i] {
      RunProbes(w, open, a, n, i);
    }
  }
}
