/**
  The page-table disable/restore pair of va_tr/limit.c.

  A range of pages is walked through four table levels; each last-level entry is
  saved and its present bit cleared, and later the saved words are written back.
  Memory is a map of 64-bit words; a word that was never written reads as zero.
  The walk never looks at bit 0, so it finds the same entries throughout.  Writing
  the saved words back restores memory exactly when no present entry is visited twice.
 */
module PageTable {

  import opened Arith

  const WORD: nat := 0x1_0000_0000_0000_0000

  const PAGE: nat := 0x1000

  /** The number of records in pinfo. */
  const RECORDS: nat := 1000

  type Word = n: nat | n < WORD witness 0

  type Memory = map<Word, Word>

  function Read(m: Memory, a: Word): Word {
    if a in m then m[a] else 0
  }

  ghost predicate Same(m: Memory, m': Memory) {
    forall a: Word :: Read(m, a) == Read(m', a)
  }

  // ----- entries and walks

  predicate Present(e: Word) { e % 2 == 1 }

  /** The entry with bit 0 cleared. */
  function Clear(e: Word): Word { e - e % 2 }

  /** PTE_PFN_MASK: bits 12 to 51 of an entry. */
  function Frame(e: Word): Word { e / PAGE % 0x100_0000_0000 * PAGE }

  /** The address of word `index` of the table that an entry points to, through the direct map at `offset`. */
  function Slot(e: Word, offset: Word, index: nat): Word {
    (Frame(e) + offset + 8 * index) % WORD
  }

  function Index(vaddr: Word, level: nat): nat
    requires level < 4
  {
    match level
    case 3 => vaddr / 0x80_0000_0000 % 512
    case 2 => vaddr / 0x4000_0000 % 512
    case 1 => vaddr / 0x20_0000 % 512
    case _ => vaddr / PAGE % 512
  }

  /** Where a process's tables start and where physical memory is mapped. */
  datatype Space = Space(pgd: Word, offset: Word)

  /** The addresses of the entries that a walk visits, top level first. */
  function PgdSlot(s: Space, vaddr: Word): Word { (s.pgd + 8 * Index(vaddr, 3)) % WORD }

  function PudSlot(m: Memory, s: Space, vaddr: Word): Word {
    Slot(Read(m, PgdSlot(s, vaddr)), s.offset, Index(vaddr, 2))
  }

  function PmdSlot(m: Memory, s: Space, vaddr: Word): Word {
    Slot(Read(m, PudSlot(m, s, vaddr)), s.offset, Index(vaddr, 1))
  }

  function PteSlot(m: Memory, s: Space, vaddr: Word): Word {
    Slot(Read(m, PmdSlot(m, s, vaddr)), s.offset, Index(vaddr, 0))
  }

  /** v2p: the frame in the last-level entry with the page offset. */
  function Translate(m: Memory, s: Space, vaddr: Word): Word {
    FrameRoom(Read(m, PteSlot(m, s, vaddr)), vaddr);
    Read(m, PteSlot(m, s, vaddr)) / PAGE * PAGE + vaddr % PAGE
  }

  lemma FrameRoom(e: Word, vaddr: Word)
    ensures e / PAGE * PAGE + vaddr % PAGE < WORD
  {
    assert WORD == WORD / PAGE * PAGE;
  }

  /** The two memories differ at most in bit 0 of their words. */
  ghost predicate SameFrames(m: Memory, m': Memory) {
    forall a: Word :: Clear(Read(m, a)) == Clear(Read(m', a))
  }

  lemma ClearKeepsFrame(e: Word)
    ensures Frame(Clear(e)) == Frame(e)
    ensures Clear(e) / PAGE == e / PAGE
  {
    var q, r := e / PAGE, e % PAGE;
    assert e == PAGE * q + r;
    assert e % 2 == r % 2;
    ModIs(Clear(e), PAGE, q, r - r % 2);
  }

  lemma FrameAgrees(e: Word, e': Word)
    requires Clear(e) == Clear(e')
    ensures Frame(e) == Frame(e') && e / PAGE == e' / PAGE
  {
    ClearKeepsFrame(e);
    ClearKeepsFrame(e');
  }

  /** A walk does not depend on present bits. */
  lemma WalkAgrees(m: Memory, m': Memory, s: Space, vaddr: Word)
    requires SameFrames(m, m')
    ensures PteSlot(m, s, vaddr) == PteSlot(m', s, vaddr)
  {
    hide Clear, Frame, Index, PgdSlot;
    FrameAgrees(Read(m, PgdSlot(s, vaddr)), Read(m', PgdSlot(s, vaddr)));
    FrameAgrees(Read(m, PudSlot(m, s, vaddr)), Read(m', PudSlot(m, s, vaddr)));
    FrameAgrees(Read(m, PmdSlot(m, s, vaddr)), Read(m', PmdSlot(m, s, vaddr)));
  }

  /** Neither does the translation of any address. */
  lemma TranslateAgrees(m: Memory, m': Memory, s: Space, vaddr: Word)
    requires SameFrames(m, m')
    ensures Translate(m, s, vaddr) == Translate(m', s, vaddr)
  {
    hide Clear, Frame, PteSlot;
    WalkAgrees(m, m', s, vaddr);
    FrameAgrees(Read(m, PteSlot(m, s, vaddr)), Read(m', PteSlot(m, s, vaddr)));
  }

  // ----- what a walk finds

  /** The layout of an entry: high bits 52 to 63, frame number in bits 12 to 51, flags in bits 0 to 11. */
  ghost predicate Fields(e: Word, high: nat, frame: nat, flags: nat) {
    && e == 0x10_0000_0000_0000 * high + PAGE * frame + flags
    && high < 0x1000 && frame < 0x100_0000_0000 && flags < PAGE
  }

  /** The entry points to frame number `frame`, whatever its other bits. */
  ghost predicate PointsTo(e: Word, frame: nat) {
    exists high, flags :: Fields(e, high, frame, flags)
  }

  /** The parts of an address: sign bits, four 9-bit digits (the top level's first) and the place in the page. */
  ghost predicate Parts(v: Word, sign: nat, i3: nat, i2: nat, i1: nat, i0: nat, place: nat) {
    && v == PAGE * (0x200 * (0x200 * (0x200 * (0x200 * sign + i3) + i2) + i1) + i0) + place
    && i3 < 0x200 && i2 < 0x200 && i1 < 0x200 && i0 < 0x200 && place < PAGE
  }

  /** Frame keeps the frame number and nothing else. */
  lemma FrameOf(e: Word, frame: nat)
    requires PointsTo(e, frame)
    ensures frame < 0x100_0000_0000 && Frame(e) == PAGE * frame
  {
    var high: nat, flags: nat :| Fields(e, high, frame, flags);
    ModIs(e, PAGE, 0x100_0000_0000 * high + frame, flags);
    ModIs(e / PAGE, 0x100_0000_0000, high, frame);
  }

  lemma DigitIs(y: nat, rest: nat, digit: nat)
    requires y == 0x200 * rest + digit && digit < 0x200
    ensures y / 0x200 == rest && y % 0x200 == digit
  {
    ModIs(y, 0x200, rest, digit);
  }

  /** The walk's indices are the digits of the address. */
  lemma IndexOf(v: Word, sign: nat, i3: nat, i2: nat, i1: nat, i0: nat, place: nat)
    requires Parts(v, sign, i3, i2, i1, i0, place)
    ensures Index(v, 3) == i3 && Index(v, 2) == i2 && Index(v, 1) == i1 && Index(v, 0) == i0 && v % PAGE == place
  {
    var y3 := 0x200 * sign + i3;
    var y2 := 0x200 * y3 + i2;
    var y1 := 0x200 * y2 + i1;
    var y0 := 0x200 * y1 + i0;
    ShiftedPages(v);
    ModIs(v, PAGE, y0, place);
    DigitIs(y0, y1, i0);
    DigitIs(y1, y2, i1);
    DigitIs(y2, y3, i2);
    DigitIs(y3, sign, i3);
  }

  /** The word at `index` of the table in frame number `frame`, as the kernel sees it. */
  function TableWord(s: Space, frame: nat, index: nat): Word {
    (PAGE * frame + s.offset + 8 * index) % WORD
  }

  lemma SlotOf(s: Space, e: Word, frame: nat, index: nat)
    requires PointsTo(e, frame)
    ensures Slot(e, s.offset, index) == TableWord(s, frame, index)
  {
    FrameOf(e, frame);
    hide Frame;
  }

  /** The words at the digits of an address lead from table to table, the last in frame number `f0`. */
  ghost predicate Maps(m: Memory, s: Space, i3: nat, i2: nat, i1: nat, f2: nat, f1: nat, f0: nat) {
    && PointsTo(Read(m, (s.pgd + 8 * i3) % WORD), f2)
    && PointsTo(Read(m, TableWord(s, f2, i2)), f1)
    && PointsTo(Read(m, TableWord(s, f1, i1)), f0)
  }

  /** An address mapped that way has its entry at its last digit, and translates to the entry's page and its own place. */
  lemma MappedTranslates(m: Memory, s: Space, v: Word, sign: nat, i3: nat, i2: nat, i1: nat, i0: nat, place: nat,
      f2: nat, f1: nat, f0: nat, page: nat, flags: nat)
    requires Parts(v, sign, i3, i2, i1, i0, place) && Maps(m, s, i3, i2, i1, f2, f1, f0)
    requires Read(m, TableWord(s, f0, i0)) == PAGE * page + flags && flags < PAGE
    ensures PteSlot(m, s, v) == TableWord(s, f0, i0)
    ensures Translate(m, s, v) == PAGE * page + place
  {
    IndexOf(v, sign, i3, i2, i1, i0, place);
    hide Index, Slot, TableWord, PointsTo, Parts;
    SlotOf(s, Read(m, PgdSlot(s, v)), f2, i2);
    SlotOf(s, Read(m, PudSlot(m, s, v)), f1, i1);
    SlotOf(s, Read(m, PmdSlot(m, s, v)), f0, i0);
    ModIs(Read(m, TableWord(s, f0, i0)), PAGE, page, flags);
  }

  /** The bits that the tests of an entry look at: present is bit 0, large is bit 7. */
  lemma TestedBits(e: Word, rest: nat, large: nat, middle: nat, present: nat)
    requires e == 0x100 * rest + 0x80 * large + 2 * middle + present
    requires large < 2 && middle < 0x40 && present < 2
    ensures (Present(e) <==> present == 1) && (Large(e) <==> large == 1)
    ensures Clear(e) == e - present
  {
    ModIs(e, 2, 0x80 * rest + 0x40 * large + middle, present);
    ModIs(e, 0x80, 2 * rest + large, 2 * middle + present);
    ModIs(2 * rest + large, 2, rest, large);
  }

  // ----- what the two passes leave behind

  /** One of the first `i` addresses has its entry at `a`. */
  ghost predicate Hit(m: Memory, s: Space, vs: seq<Word>, i: nat, a: Word)
    requires i <= |vs|
  {
    exists j :: 0 <= j < i && PteSlot(m, s, vs[j]) == a
  }

  /** The word at `a` after the first `i` pages were disabled. */
  ghost function DisabledWord(m: Memory, s: Space, vs: seq<Word>, i: nat, a: Word): Word
    requires i <= |vs|
  {
    if Hit(m, s, vs, i, a) then Clear(Read(m, a)) else Read(m, a)
  }

  /** The word saved for page `j`. */
  ghost function SavedWord(m: Memory, s: Space, vs: seq<Word>, j: nat): Word
    requires j < |vs|
  {
    DisabledWord(m, s, vs, j, PteSlot(m, s, vs[j]))
  }

  /** The word at `a` after all pages were disabled and the first `i` records written back. */
  ghost function RestoredWord(m: Memory, s: Space, vs: seq<Word>, i: nat, a: Word): Word
    requires i <= |vs|
    decreases i
  {
    if i == 0 then DisabledWord(m, s, vs, |vs|, a)
    else if PteSlot(m, s, vs[i - 1]) == a then SavedWord(m, s, vs, i - 1)
    else RestoredWord(m, s, vs, i - 1, a)
  }

  lemma {:induction false} RestoredFrames(m: Memory, s: Space, vs: seq<Word>, i: nat, a: Word)
    requires i <= |vs|
    ensures Clear(RestoredWord(m, s, vs, i, a)) == Clear(Read(m, a))
    decreases i
  {
    hide Clear, PteSlot, Hit;
    ClearTwice(Read(m, a));
    if i > 0 {
      RestoredFrames(m, s, vs, i - 1, a);
    }
  }

  /** No two of the pages share an entry that is present. */
  ghost predicate NoSharedEntry(m: Memory, s: Space, vs: seq<Word>) {
    forall i, j :: 0 <= i < j < |vs| && PteSlot(m, s, vs[i]) == PteSlot(m, s, vs[j]) ==>
      !Present(Read(m, PteSlot(m, s, vs[j])))
  }

  lemma {:induction false} RestoredUnshared(m: Memory, s: Space, vs: seq<Word>, i: nat, a: Word)
    requires i <= |vs| && NoSharedEntry(m, s, vs)
    requires Hit(m, s, vs, i, a) || i == |vs|
    ensures RestoredWord(m, s, vs, i, a) == Read(m, a)
    decreases i
  {
    hide PteSlot;
    if i == 0 {
    } else if PteSlot(m, s, vs[i - 1]) == a {
    } else if Hit(m, s, vs, i, a) {
      assert Hit(m, s, vs, i - 1, a);
      RestoredUnshared(m, s, vs, i - 1, a);
    } else {
      RestoredMissed(m, s, vs, i, a);
    }
  }

  lemma {:induction false} RestoredMissed(m: Memory, s: Space, vs: seq<Word>, i: nat, a: Word)
    requires i <= |vs| && !Hit(m, s, vs, i, a)
    ensures RestoredWord(m, s, vs, i, a) == DisabledWord(m, s, vs, |vs|, a)
    decreases i
  {
    hide PteSlot;
    if i > 0 {
      assert PteSlot(m, s, vs[i - 1]) != a;
      assert !Hit(m, s, vs, i - 1, a);
      RestoredMissed(m, s, vs, i - 1, a);
    }
  }

  /** A present entry visited at `i` and again at `j` is left cleared from record `j` on. */
  lemma {:induction false} RestoredShared(m: Memory, s: Space, vs: seq<Word>, i: nat, j: nat, k: nat)
    requires i < j < k <= |vs| && PteSlot(m, s, vs[i]) == PteSlot(m, s, vs[j])
    ensures RestoredWord(m, s, vs, k, PteSlot(m, s, vs[j])) == Clear(Read(m, PteSlot(m, s, vs[j])))
    decreases k
  {
    hide PteSlot;
    var a := PteSlot(m, s, vs[j]);
    if PteSlot(m, s, vs[k - 1]) == a {
      assert Hit(m, s, vs, k - 1, a);
    } else {
      RestoredShared(m, s, vs, i, j, k - 1);
    }
  }

  /** Disabling and writing back is the identity exactly when no present entry is shared. */
  lemma RestoreExactly(m: Memory, s: Space, vs: seq<Word>)
    ensures (forall a: Word :: RestoredWord(m, s, vs, |vs|, a) == Read(m, a)) <==> NoSharedEntry(m, s, vs)
  {
    hide PteSlot;
    if NoSharedEntry(m, s, vs) {
      forall a: Word
        ensures RestoredWord(m, s, vs, |vs|, a) == Read(m, a)
      {
        RestoredUnshared(m, s, vs, |vs|, a);
      }
    } else {
      var i, j :| 0 <= i < j < |vs| && PteSlot(m, s, vs[i]) == PteSlot(m, s, vs[j])
        && Present(Read(m, PteSlot(m, s, vs[j])));
      RestoredShared(m, s, vs, i, j, |vs|);
      assert RestoredWord(m, s, vs, |vs|, PteSlot(m, s, vs[j])) != Read(m, PteSlot(m, s, vs[j]));
    }
  }

  // ----- ranges

  function PageAt(base: Word, k: nat): Word { (base + PAGE * k) % WORD }

  /** The walk of the range reaches page `k`: within the size, and no earlier page is the excluded one. */
  ghost predicate Reaches(base: Word, size: Word, stop: Word, k: nat) {
    PAGE * k < size && forall i :: 0 <= i <= k ==> PageAt(base, i) != stop
  }

  /** `vs` is the pages that the launcher visits. */
  ghost predicate IsRange(base: Word, size: Word, stop: Word, vs: seq<Word>) {
    && (forall k :: 0 <= k < |vs| ==> Reaches(base, size, stop, k) && vs[k] == PageAt(base, k))
    && !Reaches(base, size, stop, |vs|)
  }

  lemma RangeLength(base: Word, size: Word, stop: Word, vs: seq<Word>, i: nat)
    requires IsRange(base, size, stop, vs) && i <= |vs| && !Reaches(base, size, stop, i)
    ensures i == |vs|
  {
  }

  /** The pages visited are those before the size is reached or the excluded page comes, whichever is first. */
  lemma VisitedExactly(base: Word, size: Word, stop: Word, vs: seq<Word>)
    requires IsRange(base, size, stop, vs)
    ensures forall k :: 0 <= k < |vs| ==> vs[k] == (base + 0x1000 * k) % 0x1_0000_0000_0000_0000 != stop && 0x1000 * k < size
    ensures size <= 0x1000 * |vs| || (base + 0x1000 * |vs|) % 0x1_0000_0000_0000_0000 == stop
  {
    hide PageAt;
    forall k: nat
      ensures PageAt(base, k) == (base + 0x1000 * k) % 0x1_0000_0000_0000_0000
    {
      PageAtIs(base, k);
    }
    forall k | 0 <= k < |vs|
      ensures vs[k] == PageAt(base, k) != stop && PAGE * k < size
    {
      assert Reaches(base, size, stop, k);
    }
  }

  lemma PageAtIs(base: Word, k: nat)
    ensures PageAt(base, k) == (base + 0x1000 * k) % 0x1_0000_0000_0000_0000
  {
  }

  /** The range has more pages than there are records exactly when the walk reaches page 1000. */
  lemma OverrunExactly(base: Word, size: Word, stop: Word, vs: seq<Word>)
    requires IsRange(base, size, stop, vs)
    ensures |vs| > RECORDS <==> Reaches(base, size, stop, RECORDS)
  {
    if Reaches(base, size, stop, RECORDS) {
      ReachesEarlier(base, size, stop, RECORDS);
    }
  }

  lemma ReachesEarlier(base: Word, size: Word, stop: Word, k: nat)
    requires Reaches(base, size, stop, k)
    ensures forall i: nat :: i <= k ==> Reaches(base, size, stop, i)
  {
  }

  /** The number of a 48-bit virtual page. */
  function PageNumber(vaddr: Word): nat { vaddr / PAGE % 0x10_0000_0000 }

  // ----- trees of tables

  /** The PS bit: the entry maps a large page. */
  predicate Large(e: Word) { e / 0x80 % 2 == 1 }

  predicate Pointer(e: Word) { Present(e) && !Large(e) }

  /** The walk reaches a last-level table through present table pointers; the last-level entry may be anything. */
  predicate Mapped(m: Memory, s: Space, v: Word) {
    && Present(Read(m, PgdSlot(s, v)))
    && Pointer(Read(m, PudSlot(m, s, v)))
    && Pointer(Read(m, PmdSlot(m, s, v)))
  }

  /** Table pointers at different places point to different frames. */
  predicate Apart(m: Memory, a: Word, b: Word) {
    a != b ==> Frame(Read(m, a)) != Frame(Read(m, b))
  }

  /** At each level, no two pointers on mapped walks share a table. */
  ghost predicate TreeShaped(m: Memory, s: Space) {
    forall u: Word, v: Word :: Mapped(m, s, u) && Mapped(m, s, v) ==>
      && Apart(m, PgdSlot(s, u), PgdSlot(s, v))
      && Apart(m, PudSlot(m, s, u), PudSlot(m, s, v))
      && Apart(m, PmdSlot(m, s, u), PmdSlot(m, s, v))
  }

  /** Tables are disjoint pages: one word lies in one frame at one index. */
  lemma SlotsApart(e: Word, e': Word, offset: Word, i: nat, j: nat)
    requires i < 512 && j < 512 && Slot(e, offset, i) == Slot(e', offset, j)
    ensures Frame(e) == Frame(e') && i == j
  {
    var f, f' := e / PAGE % 0x100_0000_0000, e' / PAGE % 0x100_0000_0000;
    WrapEqual(PAGE * f + offset + 8 * i, PAGE * f' + offset + 8 * j);
  }

  lemma WrapEqual(x: nat, y: nat)
    requires x % WORD == y % WORD && x - y < WORD && y - x < WORD
    ensures x == y
  {
  }

  lemma IndexBelow(v: Word, level: nat)
    requires level < 4
    ensures Index(v, level) < 512
  {
  }

  lemma ShiftedPages(v: Word)
    ensures v / 0x20_0000 == v / PAGE / 0x200
    ensures v / 0x4000_0000 == v / PAGE / 0x200 / 0x200
    ensures v / 0x80_0000_0000 == v / PAGE / 0x200 / 0x200 / 0x200
  {
  }

  lemma LowDigit(y: nat, m: nat)
    requires m > 0
    ensures y % (512 * m) == 512 * (y / 512 % m) + y % 512
  {
    var q, r := y / 512, y % 512;
    assert y == 512 * q + r && q == m * (q / m) + q % m;
    assert m * (q / m) * 512 == (512 * m) * (q / m);
    assert 512 * (q % m) + r < 512 * m by {
      MulLe(q % m, m - 1, 512);
    }
    ModIs(y, 512 * m, q / m, 512 * (q % m) + r);
  }

  /** The four indices are the digits of the page number. */
  lemma PageDigits(v: Word)
    ensures PageNumber(v) == 512 * (512 * (512 * Index(v, 3) + Index(v, 2)) + Index(v, 1)) + Index(v, 0)
  {
    ShiftedPages(v);
    var y := v / PAGE;
    LowDigit(y, 0x800_0000);
    LowDigit(y / 512, 0x4_0000);
    LowDigit(y / 512 / 512, 512);
  }

  /** One level down: pointers that do not share a table lead to different entries unless place and index agree. */
  lemma LevelDown(m: Memory, s: Space, a: Word, b: Word, i: nat, j: nat)
    requires Apart(m, a, b) && i < 512 && j < 512
    requires Slot(Read(m, a), s.offset, i) == Slot(Read(m, b), s.offset, j)
    ensures a == b && i == j
  {
    SlotsApart(Read(m, a), Read(m, b), s.offset, i, j);
  }

  lemma RootApart(s: Space, u: Word, v: Word)
    requires PgdSlot(s, u) == PgdSlot(s, v)
    ensures Index(u, 3) == Index(v, 3)
  {
    IndexBelow(u, 3);
    IndexBelow(v, 3);
    hide Index;
    WrapEqual(s.pgd + 8 * Index(u, 3), s.pgd + 8 * Index(v, 3));
  }

  /** In a tree, mapped pages with one last-level entry are one page. */
  lemma EntriesDiffer(m: Memory, s: Space, u: Word, v: Word)
    requires TreeShaped(m, s) && Mapped(m, s, u) && Mapped(m, s, v)
    requires PteSlot(m, s, u) == PteSlot(m, s, v)
    ensures PageNumber(u) == PageNumber(v)
  {
    forall l | 0 <= l < 4 ensures Index(u, l) < 512 && Index(v, l) < 512 {
      IndexBelow(u, l);
      IndexBelow(v, l);
    }
    PageDigits(u);
    PageDigits(v);
    hide Index, PageNumber, Apart, PgdSlot;
    LevelDown(m, s, PmdSlot(m, s, u), PmdSlot(m, s, v), Index(u, 0), Index(v, 0));
    LevelDown(m, s, PudSlot(m, s, u), PudSlot(m, s, v), Index(u, 1), Index(v, 1));
    LevelDown(m, s, PgdSlot(s, u), PgdSlot(s, v), Index(u, 2), Index(v, 2));
    RootApart(s, u, v);
  }

  /** The tables of a process with a single mapped last-level table: every other entry of every level is empty. */
  const SPARSE: Memory := map[0x5000 := 0x6001, 0x6000 := 0x7001, 0x7000 := 0x8001, 0x8000 := 0x9001]

  /** Sparse address spaces are trees too. */
  lemma SparseTree()
    ensures var s := Space(0x5000, 0); TreeShaped(SPARSE, s) && Mapped(SPARSE, s, 0)
  {
    var s := Space(0x5000, 0);
    forall v: Word | Mapped(SPARSE, s, v)
      ensures PgdSlot(s, v) == 0x5000 && PudSlot(SPARSE, s, v) == 0x6000 && PmdSlot(SPARSE, s, v) == 0x7000
    {
      SparseWalk(v);
    }
  }

  /** An entry that points to `table` leads to a word of that page. */
  lemma SparseDown(table: Word, index: nat)
    requires table % PAGE == 0 && table < 0x1_0000 && index < 512
    ensures table <= Slot(table + 1, 0, index) < table + PAGE
  {
    assert Frame(table + 1) == table;
  }

  lemma SparseWalk(v: Word)
    requires Mapped(SPARSE, Space(0x5000, 0), v)
    ensures var s := Space(0x5000, 0);
      PgdSlot(s, v) == 0x5000 && PudSlot(SPARSE, s, v) == 0x6000 && PmdSlot(SPARSE, s, v) == 0x7000
  {
    IndexBelow(v, 3);
    IndexBelow(v, 2);
    IndexBelow(v, 1);
    hide Index, Slot, Frame;
    var s := Space(0x5000, 0);
    SparseSlot(PgdSlot(s, v), 0x5000);
    SparseDown(0x6000, Index(v, 2));
    SparseSlot(PudSlot(SPARSE, s, v), 0x6000);
    SparseDown(0x7000, Index(v, 1));
    SparseSlot(PmdSlot(SPARSE, s, v), 0x7000);
  }

  lemma SparseSlot(a: Word, table: Word)
    requires table % PAGE == 0 && table <= a < table + PAGE && Present(Read(SPARSE, a))
    ensures a == table
  {
  }

  /** Tables in which the pages 0 and 512 share their last-level table. */
  const SHARED: Memory :=
    map[0x5000 := 0x6001, 0x6000 := 0x7001, 0x7000 := 0x8001, 0x7008 := 0x8001, 0x8000 := 0x9001]

  /** A range over both does not come back. */
  lemma SharedCase(vs: seq<Word>)
    requires vs == seq(513, k requires 0 <= k < 513 => PageAt(0, k))
    ensures IsRange(0, 513 * PAGE, 1, vs) && !NoSharedEntry(SHARED, Space(0x5000, 0), vs)
  {
    var s := Space(0x5000, 0);
    SharedSlot(0);
    SharedSlot(0x20_0000);
    SmallPages();
    hide PteSlot;
    assert vs[0] == 0 && vs[512] == 0x20_0000;
    assert PteSlot(SHARED, s, vs[0]) == PteSlot(SHARED, s, vs[512]);
  }

  lemma SmallPages()
    ensures forall k: nat :: k <= 513 ==> PageAt(0, k) == PAGE * k != 1
  {
  }

  lemma SharedSlot(v: Word)
    requires v == 0 || v == 0x20_0000
    ensures PteSlot(SHARED, Space(0x5000, 0), v) == 0x8000 && Present(Read(SHARED, 0x8000))
  {
    var s := Space(0x5000, 0);
    SharedIndex(v);
    SharedStep(0x6000, 0);
    SharedStep(0x7000, Index(v, 1));
    SharedStep(0x8000, 0);
    hide Index, Frame, Slot;
    assert PudSlot(SHARED, s, v) == 0x6000;
    assert PmdSlot(SHARED, s, v) == 0x7000 || PmdSlot(SHARED, s, v) == 0x7008;
  }

  lemma SharedIndex(v: Word)
    requires v == 0 || v == 0x20_0000
    ensures Index(v, 3) == 0 && Index(v, 2) == 0 && Index(v, 0) == 0 && Index(v, 1) == if v == 0 then 0 else 1
  {
  }

  lemma SharedStep(table: Word, index: nat)
    requires table % PAGE == 0 && table < 0x1_0000 && index < 2
    ensures Slot(table + 1, 0, index) == table + 8 * index
  {
    assert Frame(table + 1) == table;
  }

  lemma ModDiffer(x: nat, d: nat, m: nat)
    requires 0 < d < m
    ensures x % m != (x + d) % m
  {
    var q, r := x / m, x % m;
    assert x == m * q + r;
    if r + d < m {
      ModIs(x + d, m, q, r + d);
    } else {
      ModIs(x + d, m, q + 1, r + d - m);
    }
  }

  lemma ModIs(x: nat, m: nat, q: int, r: nat)
    requires m > 0 && x == m * q + r && r < m
    ensures x % m == r && x / m == q
  {
    var k := x / m - q;
    assert x == m * (x / m) + x % m;
    assert m * k == r - x % m;
    if k >= 1 {
      MulLe(1, k, m);
    } else if k <= -1 {
      MulLe(k, -1, m);
    }
  }

  lemma PageNumbersDiffer(base: Word, i: nat, j: nat)
    requires i < j < RECORDS
    ensures PageNumber(PageAt(base, i)) != PageNumber(PageAt(base, j))
  {
    PageNumberAt(base, i);
    PageNumberAt(base, j);
    ModDiffer(base / PAGE + i, j - i, 0x10_0000_0000);
  }

  lemma WrapPage(x: nat)
    ensures x % WORD / PAGE == x / PAGE % 0x10_0000_0000_0000
  {
  }

  lemma WrapNumber(y: nat)
    ensures y % 0x10_0000_0000_0000 % 0x10_0000_0000 == y % 0x10_0000_0000
  {
  }

  lemma PageNumberAt(base: Word, k: nat)
    ensures PageNumber(PageAt(base, k)) == (base / PAGE + k) % 0x10_0000_0000
  {
    WrapPage(base + PAGE * k);
    WrapNumber(base / PAGE + k);
  }

  /** In a tree every range of at most 1000 mapped pages is restored. */
  lemma TreeUnshared(m: Memory, s: Space, base: Word, size: Word, stop: Word, vs: seq<Word>)
    requires TreeShaped(m, s) && IsRange(base, size, stop, vs) && |vs| <= RECORDS
    requires forall k :: 0 <= k < |vs| ==> Mapped(m, s, vs[k])
    ensures NoSharedEntry(m, s, vs)
  {
    hide PteSlot, PageNumber, PageAt, TreeShaped, Mapped;
    forall i, j | 0 <= i < j < |vs|
      ensures PteSlot(m, s, vs[i]) != PteSlot(m, s, vs[j])
    {
      PageNumbersDiffer(base, i, j);
      if PteSlot(m, s, vs[i]) == PteSlot(m, s, vs[j]) {
        EntriesDiffer(m, s, vs[i], vs[j]);
      }
    }
  }

  /** Disabling one page and writing the saved word back restores memory, although the walk is repeated. */
  lemma OnePageReturns(m: Memory, s: Space, vaddr: Word)
    ensures var pte := PteSlot(m, s, vaddr);
      var m' := m[pte := Clear(Read(m, pte))];
      Same(m, m'[PteSlot(m', s, vaddr) := Read(m, pte)])
  {
    var pte := PteSlot(m, s, vaddr);
    var m' := m[pte := Clear(Read(m, pte))];
    ClearTwice(Read(m, pte));
    hide Clear, PteSlot;
    assert SameFrames(m, m');
    WalkAgrees(m, m', s, vaddr);
  }

  // ----- the code

  datatype PageInfo = PageInfo(virAddr: Word, entry: Word)

  class Limit {
    const space: Space
    var mem: Memory
    const pinfo: array<PageInfo>
    var index: nat

    constructor (s: Space, m: Memory)
      ensures space == s && mem == m && fresh(pinfo) && pinfo.Length == RECORDS == 1000
    {
      space := s;
      mem := m;
      pinfo := new PageInfo[RECORDS](_ => PageInfo(0, 0));
      index := 0;
    }

    /** non_v2p */
    method NonV2p(vaddr: Word, i: nat)
      requires pinfo.Length == RECORDS && i < RECORDS
      modifies `mem, pinfo
      ensures pinfo[i] == PageInfo(vaddr, Read(old(mem), PteSlot(old(mem), space, vaddr)))
      ensures forall k :: 0 <= k < RECORDS && k != i ==> pinfo[k] == old(pinfo[k])
      ensures var pte := PteSlot(old(mem), space, vaddr); mem == old(mem)[pte := Clear(Read(old(mem), pte))]
    {
      var pte := PteSlot(mem, space, vaddr);
      pinfo[i] := PageInfo(vaddr, Read(mem, pte));
      mem := mem[pte := Clear(Read(mem, pte))];
    }

    /** en_v2p */
    method EnV2p(vaddr: Word, entry: Word)
      modifies `mem
      ensures mem == old(mem)[PteSlot(old(mem), space, vaddr) := entry]
    {
      mem := mem[PteSlot(mem, space, vaddr) := entry];
    }

    /**
      laucher_non_v2p: entries of the visited pages lose their present bit, nothing else changes.  The
      source has no test of the record number; the model stops before a record behind pinfo is written.
     */
    method LauncherNonV2p(base: Word, size: Word, stop: Word, ghost vs: seq<Word>) returns (inside: bool)
      requires pinfo.Length == RECORDS && IsRange(base, size, stop, vs)
      modifies `mem, `index, pinfo
      ensures inside <==> |vs| <= RECORDS
      ensures inside ==> index == |vs|
      ensures var n := if inside then |vs| else RECORDS;
        && (forall a: Word :: Read(mem, a) == DisabledWord(old(mem), space, vs, n, a))
        && (forall k :: 0 <= k < n ==> pinfo[k] == PageInfo(vs[k], SavedWord(old(mem), space, vs, k)))
    {
      hide PteSlot, Clear, Present;
      ghost var m := mem;
      var i: nat := 0;
      var pageSize: nat := 0;
      while pageSize < size
        invariant i <= |vs| && i <= RECORDS && pageSize == PAGE * i
        invariant forall k :: 0 <= k < i ==> PageAt(base, k) != stop
        invariant forall a: Word :: Read(mem, a) == DisabledWord(m, space, vs, i, a)
        invariant forall k :: 0 <= k < i ==> pinfo[k] == PageInfo(vs[k], SavedWord(m, space, vs, k))
        decreases size - pageSize
      {
        var current: Word := (base + pageSize) % WORD;
        if current == stop {
          index := i;
          break;
        }
        assert Reaches(base, size, stop, i);
        if i == RECORDS {
          return false;
        }
        DisabledFrames(m, mem, space, vs, i);
        WalkAgrees(m, mem, space, current);
        NonV2p(current, i);
        DisabledNext(m, space, vs, i);
        forall a: Word
          ensures Read(mem, a) == DisabledWord(m, space, vs, i + 1, a)
        {
          assert DisabledStep(m, space, vs, i, a);
        }
        i := i + 1;
        pageSize := pageSize + PAGE;
      }
      index := i;
      RangeLength(base, size, stop, vs, i);
      return true;
    }

    /** launch_en_v2p */
    method LaunchEnV2p(ghost m: Memory, ghost vs: seq<Word>)
      requires pinfo.Length == RECORDS && index == |vs| <= RECORDS
      requires forall a: Word :: Read(mem, a) == DisabledWord(m, space, vs, |vs|, a)
      requires forall k :: 0 <= k < |vs| ==> pinfo[k] == PageInfo(vs[k], SavedWord(m, space, vs, k))
      modifies `mem
      ensures forall a: Word :: Read(mem, a) == RestoredWord(m, space, vs, |vs|, a)
    {
      hide PteSlot, Clear, Present, DisabledWord;
      var i: nat := 0;
      while i < index
        invariant i <= index
        invariant forall a: Word :: Read(mem, a) == RestoredWord(m, space, vs, i, a)
      {
        RestoredAllFrames(m, mem, space, vs, i);
        WalkAgrees(m, mem, space, vs[i]);
        EnV2p(pinfo[i].virAddr, pinfo[i].entry);
        i := i + 1;
      }
    }

    /**
      trampoline: translations are the same before, between and after the two passes, and a range that
      does not reach page 1000 comes back exactly when no present entry is visited twice.
     */
    method Trampoline(base: Word, size: Word, stop: Word, ghost vs: seq<Word>) returns (inside: bool, ghost between: Memory)
      requires pinfo.Length == RECORDS && IsRange(base, size, stop, vs)
      modifies `mem, `index, pinfo
      ensures inside <==> !Reaches(base, size, stop, RECORDS)
      ensures inside ==> (Same(old(mem), mem) <==> NoSharedEntry(old(mem), space, vs))
      ensures inside && TreeShaped(old(mem), space) && (forall k :: 0 <= k < |vs| ==> Mapped(old(mem), space, vs[k])) ==>
        Same(old(mem), mem)
      ensures forall v: Word :: Translate(old(mem), space, v) == Translate(between, space, v) == Translate(mem, space, v)
      ensures inside ==> forall a: Word :: Read(between, a) == DisabledWord(old(mem), space, vs, |vs|, a)
    {
      hide PteSlot, Clear, Present, Translate, RestoredWord, DisabledWord, PageAt, TreeShaped, Mapped;
      ghost var m := mem;
      OverrunExactly(base, size, stop, vs);
      inside := LauncherNonV2p(base, size, stop, vs);
      between := mem;
      DisabledFrames(m, between, space, vs, if inside then |vs| else RECORDS);
      if inside {
        LaunchEnV2p(m, vs);
        RestoreExactly(m, space, vs);
        if TreeShaped(m, space) && forall k :: 0 <= k < |vs| ==> Mapped(m, space, vs[k]) {
          TreeUnshared(m, space, base, size, stop, vs);
        }
        RestoredAllFrames(m, mem, space, vs, |vs|);
      }
      forall v: Word
        ensures Translate(m, space, v) == Translate(between, space, v) == Translate(mem, space, v)
      {
        TranslateAgrees(m, between, space, v);
        TranslateAgrees(m, mem, space, v);
      }
    }
  }

  lemma ClearTwice(e: Word)
    ensures Clear(Clear(e)) == Clear(e)
  {
  }

  lemma DisabledFrames(m: Memory, now: Memory, s: Space, vs: seq<Word>, i: nat)
    requires i <= |vs|
    requires forall a: Word :: Read(now, a) == DisabledWord(m, s, vs, i, a)
    ensures SameFrames(m, now)
  {
    hide Clear, Hit;
    forall a: Word
      ensures Clear(Read(m, a)) == Clear(Read(now, a))
    {
      ClearTwice(Read(m, a));
    }
  }

  lemma RestoredAllFrames(m: Memory, now: Memory, s: Space, vs: seq<Word>, i: nat)
    requires i <= |vs|
    requires forall a: Word :: Read(now, a) == RestoredWord(m, s, vs, i, a)
    ensures SameFrames(m, now)
  {
    hide Clear, RestoredWord;
    forall a: Word
      ensures Clear(Read(m, a)) == Clear(Read(now, a))
    {
      RestoredFrames(m, s, vs, i, a);
    }
  }

  /** Disabling one more page clears the word at its entry. */
  ghost predicate DisabledStep(m: Memory, s: Space, vs: seq<Word>, i: nat, a: Word)
    requires i < |vs|
  {
    var before := DisabledWord(m, s, vs, i, a);
    DisabledWord(m, s, vs, i + 1, a) == if a == PteSlot(m, s, vs[i]) then Clear(before) else before
  }

  lemma DisabledNext(m: Memory, s: Space, vs: seq<Word>, i: nat)
    requires i < |vs|
    ensures forall a: Word :: DisabledStep(m, s, vs, i, a)
  {
    hide PteSlot, Clear;
    forall a: Word
      ensures DisabledStep(m, s, vs, i, a)
    {
      ClearTwice(Read(m, a));
      if Hit(m, s, vs, i, a) {
        assert Hit(m, s, vs, i + 1, a);
      } else if a == PteSlot(m, s, vs[i]) {
        assert Hit(m, s, vs, i + 1, a);
      }
    }
  }
}
