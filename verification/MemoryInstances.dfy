// Address spaces in which the operations of sys/memory/vmemory.c do not do what is
// promised of them, each within the contract of the operation.

module MemoryInstances {
  import opened PageTable
  import opened FreePages
  import opened AddressSpace
  import opened Windows
  import opened PageRanges
  import opened MemorySteps
  import opened TwoSided

  // A table or directory with two words.
  ghost function Words(i: nat, x: nat, j: nat, y: nat): seq<nat> {
    seq(LENGTH, k => if k == i then x else if k == j then y else 0)
  }

  // Only the kernel's directory is mapped; the next frame still holds an old entry.
  ghost function FirstSpace(): Space {
    Space(map[1 := Words(0, 2 * 4096 + 3, SELF, 1 * 4096 + 3), 2 := Words(1, 1 * 4096 + 3, 1, 1 * 4096 + 3),
              3 := Words(300, 5 * 4096 + 3, 300, 5 * 4096 + 3), 4 := Words(0, 0, 0, 0)],
          [3, 4], {1}, map[2 := (1, 0)])
  }

  lemma FirstSpaceWords(i: nat)
    requires i < LENGTH
    ensures var mem := FirstSpace().mem;
      && Word(mem, 1, i) == (if i == 0 then 8195 else if i == SELF then 4099 else 0)
      && Word(mem, 2, i) == (if i == 1 then 4099 else 0)
      && Word(mem, 3, i) == (if i == 300 then 20483 else 0)
  {
  }

  lemma FirstSpaceOk()
    ensures WellFormed(FirstSpace()) && Roomy(FirstSpace().mem)
  {
    var s := FirstSpace();
    FirstSpaceWords(0);
    FirstSpaceWords(1);
    FirstSpaceWords(2);
    FirstSpaceWords(3);
    FirstSpaceWords(SELF);
    forall d, slot | d in s.dirs && 0 <= slot < LENGTH && slot != SELF ensures Owned(s, d, slot) {
      FirstSpaceWords(slot);
    }
    assert FreeBelow(s.mem, 2) && FreeBelow(s.mem, 3);
  }

  // Page 2 is not mapped, but resolving an address in it gives an address in the
  // table that would map it.
  lemma MisreadHappens()
    ensures var s := FirstSpace();
      && WellFormed(s) && KERNEL in s.dirs && Roomy(s.mem) && |s.pool| >= |ReadTables(s.mem, KERNEL, 2)|
      && Misread(s, KERNEL, 2)
      && Resolution(s.mem, KERNEL, 2 * 4096 + 52) == 0 && Physical(Shown(s, KERNEL, 2), 2 * 4096 + 52) == 2 * 4096 + 52
  {
    FirstSpaceOk();
    FirstSpaceWords(0);
    FirstSpaceWords(1);
    FirstSpaceWords(2);
  }

  // Mapping page 1024 also maps page 1324, to what the fresh frame held before.
  lemma OldEntryAppears(word: nat)
    ensures WellFormed(FirstSpace()) && Mappable(FirstSpace(), KERNEL, 1024)
    ensures Lookup(FirstSpace().mem, KERNEL, 1324) == 0
    ensures Lookup(Mapped(FirstSpace(), 1024, word).mem, KERNEL, 1324) == 5 * 4096 + 3
  {
    FirstSpaceOk();
    FirstSpaceWords(1);
    FirstSpaceWords(300);
    MappedSameTable(FirstSpace(), 1024, word, 1324);
  }

  // Opening and closing a window is enough: where the window needs a table, every old
  // entry of its frame past what is cleared stays mapped in the kernel.
  lemma WindowUncovers(s: Space, page: nat, frame: nat, o: Space, r: Space, q: nat, word: nat)
    requires WellFormed(s) && Opened(s, page, frame, o) && Closed(o, page, r) && !HasTable(s.mem, KERNEL, page / LENGTH)
    requires |s.pool| > 0 && page + CLEARED <= q < page + LENGTH && word == Word(s.mem, s.pool[0], q % LENGTH)
    requires Present(word)
    ensures Lookup(s.mem, KERNEL, q) == 0 && Lookup(r.mem, KERNEL, q) == word
  {
    OpeningUncovers(s, page, frame, o, q, word);
    ClosingKeeps(o, page, r, q);
  }

  lemma ClosingKeeps(o: Space, page: nat, r: Space, q: nat)
    requires KERNEL in o.dirs && Closed(o, page, r) && q < SELF * LENGTH && q != page && Lookup(o.mem, KERNEL, q) != 0
    ensures Lookup(r.mem, KERNEL, q) == Lookup(o.mem, KERNEL, q)
  {
    StaysMapped(o, r, NOTHING, Pages(KERNEL, page, 1), q);
  }

  lemma OpeningUncovers(s: Space, page: nat, frame: nat, o: Space, q: nat, word: nat)
    requires WellFormed(s) && Opened(s, page, frame, o) && !HasTable(s.mem, KERNEL, page / LENGTH)
    requires |s.pool| > 0 && page + CLEARED <= q < page + LENGTH && word == Word(s.mem, s.pool[0], q % LENGTH)
    requires Present(word)
    ensures q < SELF * LENGTH && Lookup(s.mem, KERNEL, q) == 0 && Lookup(o.mem, KERNEL, q) == word != 0
  {
    assert q / LENGTH == page / LENGTH && q % LENGTH == q - page;
    NextFreeAt(s.mem, LOWER, page);
    assert WindowTables(s.mem)[0] == (KERNEL, page / LENGTH);
    assert Took(s, o, NOTHING, WindowTables(s.mem)[0], s.pool[0]);
    assert Untouched(s, NOTHING, Pages(KERNEL, page, 1), KERNEL, q);
    assert Lookup(o.mem, KERNEL, q) == Shows(s, o, KERNEL, q);
  }

  // The first table of the kernel is full.
  ghost function FullSpace(): Space {
    var full: seq<nat> := seq(LENGTH, _ => 1 * 4096 + 3);
    FirstSpace().(mem := FirstSpace().mem[2 := full])
  }

  lemma FullSpaceWords(i: nat)
    requires i < LENGTH
    ensures var mem := FullSpace().mem;
      && Word(mem, 1, i) == (if i == 0 then 8195 else if i == SELF then 4099 else 0)
      && Word(mem, 2, i) == 4099
      && Word(mem, 3, i) == (if i == 300 then 20483 else 0)
  {
    FirstSpaceWords(i);
  }

  // The next window of any operation needs a table, and its frame holds an old entry.
  lemma WindowNeedsTable(s: Space)
    requires s == FullSpace()
    ensures WellFormed(s) && Room(s.mem) && WindowAt(s, 1024) && !HasTable(s.mem, KERNEL, 1)
    ensures |s.pool| > 0 && Present(Word(s.mem, s.pool[0], 1324 % LENGTH))
  {
    FullSpaceWords(0);
    FullSpaceWords(1);
    FullSpaceWords(SELF);
    FullSpaceWords(300);
    forall d, slot | d in s.dirs && 0 <= slot < LENGTH && slot != SELF ensures Owned(s, d, slot) {
      FullSpaceWords(slot);
    }
    forall q: nat | LOWER <= q < 1024 ensures Lookup(s.mem, KERNEL, q) != 0 {
      FullSpaceWords(q);
    }
    assert FreeBelow(s.mem, 1024);
  }

  // ---- A run into slot 0xFF ----

  const RUN: nat := 0x3FC00
  const DATA: nat := 0x3FC03
  const FREE: nat := 0x40000

  ghost predicate Frame(f: nat) {
    1 <= f <= 3 || f == DATA || FREE <= f < FREE + 300
  }

  ghost function FrameWords(f: nat): seq<nat> {
    if f == 1 then Words(0, 2 * 4096 + 3, SELF, 1 * 4096 + 3)
    else if f == 2 then Words(1, 1 * 4096 + 3, 1, 1 * 4096 + 3)
    else if f == 3 then Words(SELF, 3 * 4096 + 3, SELF, 3 * 4096 + 3)
    else Words(0, 0, 0, 0)
  }

  // The kernel's directory, a user's directory without tables, a frame with data and
  // 300 free frames. Nothing holds an old entry.
  ghost function EmptySpace(): Space {
    Space(map f: nat | 0 < f < FREE + 300 && Frame(f) :: FrameWords(f), seq(300, k => FREE + k),
          {1, 3}, map[2 := (1, 0)])
  }

  lemma EmptySpaceWords(i: nat)
    requires i < LENGTH
    ensures var mem := EmptySpace().mem;
      && Word(mem, 1, i) == (if i == 0 then 8195 else if i == SELF then 4099 else 0)
      && Word(mem, 2, i) == (if i == 1 then 4099 else 0)
      && Word(mem, 3, i) == (if i == SELF then 12291 else 0)
      && Word(mem, DATA, i) == 0
  {
  }

  lemma EmptySpaceOk(s: Space)
    requires s == EmptySpace()
    ensures WellFormed(s) && Roomy(s.mem) && |s.pool| == 300 && Plain(s, DATA)
  {
    EmptySpaceWords(0);
    EmptySpaceWords(1);
    EmptySpaceWords(2);
    EmptySpaceWords(3);
    EmptySpaceWords(SELF);
    forall d, slot | d in s.dirs && 0 <= slot < LENGTH && slot != SELF ensures Owned(s, d, slot) {
      EmptySpaceWords(slot);
    }
    assert FreeBelow(s.mem, 2) && FreeBelow(s.mem, 3);
    assert forall k :: 0 <= k < |s.pool| ==> s.pool[k] == FREE + k;
    assert PoolOk(s);
  }

  lemma UserIsEmpty(s: Space, page: nat)
    requires s == EmptySpace() && page < PAGES && page / LENGTH != SELF
    ensures !HasTable(s.mem, 3, page / LENGTH) && Lookup(s.mem, 3, page) == 0
    ensures page / LENGTH !in ViewOf(s.mem, 3).tables && page !in ViewOf(s.mem, 3).used
  {
    SlotOfPage(page);
    EmptySpaceWords(page / LENGTH);
  }

  // The search for 0x3FC00 pages comes to page 1.
  lemma RunFromOne(s: Space, start: nat)
    requires s == EmptySpace()
    ensures Found(ViewOf(s.mem, 3), Request(RUN, LOWER, UPPER), start) <==> start == 1
  {
    var v, q := ViewOf(s.mem, 3), Request(RUN, LOWER, UPPER);
    UserIsEmpty(s, 1);
    forall page: nat | 1 <= page < 1 + Counted(v, q, 1) ensures page !in v.used {
      UserIsEmpty(s, page);
    }
    assert FirstHit(v, q, 1);
    if FirstHit(v, q, start) { OneFound(v, q, start, 1); }
  }

  // Allocating 0x3FC00 pages in a user's directory without tables gets page 1 and ends
  // with the first page of slot 0xFF: the first 1023 pages are lost again, though
  // nothing holds an old entry. The run can be released.
  lemma DirectoryOverwritten(s: Space, q: Request, start: nat, r: Space, taken: seq<(nat, nat)>)
    requires s == EmptySpace() && q == Request(RUN, LOWER, UPPER) && Allocated(s, 3, 4, 3, q, start, r, taken)
    ensures WellFormed(s) && Roomy(s.mem) && Allocable(s, 3, 4, 3, q) && Affordable(s, 3, q, 4 * 4096 + 3)
    ensures start == 1 && Meets(Pages(3, 1, RUN)) && !FramesFit(s, Pages(3, 1, RUN), 4 * 4096 + 3, 4096)
    ensures forall p: nat :: 1 <= p < LENGTH ==> Lookup(r.mem, 3, p) == 0
    ensures !RangeMapped(s, r, Pages(3, 1, RUN), 4 * 4096 + 3, 4096)
    ensures Placeable(r, Pages(3, 1, RUN)) && CellsOk(r, Pages(3, 1, RUN), 0, 0)
  {
    var t, base := Pages(3, 1, RUN), 4 * 4096 + 3;
    EmptySpaceOk(s);
    RunIsAllocable(s, q);
    RunFromOne(s, 1);
    RunFromOne(s, start);
    assert In(t, 3, SELF * LENGTH) && SELF * LENGTH / LENGTH == SELF;
    forall p: nat | 1 <= p < LENGTH
      ensures Lookup(r.mem, 3, p) == 0 && Uncovered(t, p) && !FrameFits(s, t, base, 4096, p)
    {
      PageLost(s, r, t, p);
    }
    assert Uncovered(t, 1) && !FrameFits(s, t, base, 4096, 1);
    assert In(t, 3, 1) && Lookup(r.mem, 3, 1) == 0;
    assert Live(WordFor(t, base, 4096, 1)) == base;
    Releasable(r, t);
  }

  lemma PageLost(s: Space, r: Space, t: Pages, p: nat)
    requires s == EmptySpace() && t == Pages(3, 1, RUN) && RunShown(s, r, t, 4 * 4096 + 3, 4096, RUN) && 1 <= p < LENGTH
    ensures Lookup(r.mem, 3, p) == 0 && Uncovered(t, p) && !FrameFits(s, t, 4 * 4096 + 3, 4096, p)
  {
    assert p / LENGTH == 0 && p % LENGTH == p;
    assert Determined(t, RUN, p);
    EmptySpaceWords(p);
    DataFrame(t, p);
  }

  // Page 0x3FC00 of the run is mapped to the frame with the data.
  lemma DataFrame(t: Pages, p: nat)
    requires t == Pages(3, 1, RUN) && 1 <= p < LENGTH
    ensures WordFor(t, 4 * 4096 + 3, 4096, SELF * LENGTH) == DATA * 4096 + 3 && FrameOf(DATA * 4096 + 3) == DATA
    ensures Present(DATA * 4096 + 3)
    ensures Live(WordFor(t, 4 * 4096 + 3, 4096, p)) != 0
  {
    FrameAndFlags(4 + (p - 1), 3);
  }

  lemma Releasable(r: Space, t: Pages)
    requires t == Pages(3, 1, RUN) && 3 in r.dirs
    ensures Placeable(r, t) && CellsOk(r, t, 0, 0)
  {
    forall p: nat | In(t, 3, p) && p / LENGTH == SELF ensures CellOk(r, t, 0, 0, p) {
      assert p == SELF * LENGTH;
    }
  }

  lemma RunIsAllocable(s: Space, q: Request)
    requires s == EmptySpace() && q == Request(RUN, LOWER, UPPER)
    ensures Allocable(s, 3, 4, 3, q) && Affordable(s, 3, q, 4 * 4096 + 3)
  {
    EmptySpaceOk(s);
    forall start: nat | Found(ViewOf(s.mem, 3), q, start)
      ensures start + RUN <= PAGES && CellsOk(s, Pages(3, start, RUN), 4 * 4096 + 3, 4096)
    {
      RunFromOne(s, start);
      var t := Pages(3, 1, RUN);
      forall p: nat | In(t, 3, p) && p / LENGTH == SELF ensures Plain(s, 4 + (p - 1)) {
        assert p == SELF * LENGTH;
      }
      PlainIsEnough(s, t, 4, 3);
    }
    AllocBound(s, 3, 4, 3, q, 0);
    forall start: nat | Found(ViewOf(s.mem, 3), q, start)
      ensures |s.pool| >= |AllocTables(s.mem, 3, q, start, 4 * 4096 + 3)|
    {
      AllocBound(s, 3, 4, 3, q, start);
    }
  }

  // ---- The end of the address space ----

  // A request for the last 1024 pages gets a run that ends past the upper limit, and
  // one page higher a run that goes past the end of the address space.
  lemma PastTheEnd(s: Space)
    requires s == EmptySpace()
    ensures Found(ViewOf(s.mem, 3), Request(1024, 0xFFC00, UPPER), 0xFFC00) && 0xFFC00 + 1024 == PAGES > UPPER
    ensures Found(ViewOf(s.mem, 3), Request(1024, 0xFFC01, UPPER), 0xFFC01) && 0xFFC01 + 1024 > PAGES
  {
    var v := ViewOf(s.mem, 3);
    forall page: nat | 0xFFC00 <= page < PAGES ensures page !in v.used && page / LENGTH !in v.tables {
      assert page / LENGTH == 1023;
      UserIsEmpty(s, page);
    }
    assert 0xFFC00 / LENGTH == 0xFFC01 / LENGTH == 1023 && 0xFFC01 % LENGTH == 1;
    assert FirstHit(v, Request(1024, 0xFFC00, UPPER), 0xFFC00);
    assert FirstHit(v, Request(1024, 0xFFC01, UPPER), 0xFFC01);
  }

  // ---- The two-sided search ----

  // The user has an empty table for the first slot.
  ghost function TwinSpace(): Space {
    Space(map[1 := Words(0, 2 * 4096 + 3, SELF, 1 * 4096 + 3), 2 := Words(1, 1 * 4096 + 3, 1, 1 * 4096 + 3),
              3 := Words(0, 4 * 4096 + 7, SELF, 3 * 4096 + 3), 4 := Words(0, 0, 0, 0)],
          [], {1, 3}, map[2 := (1, 0), 4 := (3, 0)])
  }

  lemma TwinSpaceWords(i: nat)
    requires i < LENGTH
    ensures var mem := TwinSpace().mem;
      && Word(mem, 1, i) == (if i == 0 then 8195 else if i == SELF then 4099 else 0)
      && Word(mem, 2, i) == (if i == 1 then 4099 else 0)
      && Word(mem, 3, i) == (if i == 0 then 16391 else if i == SELF then 12291 else 0)
      && Word(mem, 4, i) == 0
  {
  }

  lemma TwinSpaceOk(s: Space)
    requires s == TwinSpace()
    ensures WellFormed(s) && Room(s.mem) && WindowPage(s.mem) == 2
    ensures HasTable(s.mem, KERNEL, 0) && HasTable(s.mem, 3, 0)
    ensures forall p: nat :: p < LENGTH ==> Lookup(s.mem, 3, p) == 0 && (Lookup(s.mem, KERNEL, p) != 0 <==> p == 1)
  {
    TwinSpaceWords(0);
    TwinSpaceWords(SELF);
    forall p: nat | p < LENGTH ensures Lookup(s.mem, 3, p) == 0 && (Lookup(s.mem, KERNEL, p) != 0 <==> p == 1) {
      TwinSpaceWords(p);
      assert p / LENGTH == 0 && p % LENGTH == p;
    }
    forall d, slot | d in s.dirs && 0 <= slot < LENGTH && slot != SELF ensures Owned(s, d, slot) {
      TwinSpaceWords(slot);
    }
    TwinSpaceWords(1);
    assert FreeBelow(s.mem, 2);
    NextFreeAt(s.mem, LOWER, 2);
  }

  // Page 2 is free in both directories, and the search for one page comes to page 3.
  lemma WindowPageSkipped(s: Space, q: Request)
    requires s == TwinSpace() && q == Request(1, LOWER, UPPER)
    ensures WellFormed(s) && Room(s.mem) && |s.pool| >= |PeekTables(s, 3, q)|
    ensures Found(Common(s.mem, 3), q, 2) && Found(BothView(s, 3, LOWER), q, 3) && !Found(BothView(s, 3, LOWER), q, 2)
  {
    TwinSpaceOk(s);
    var c, v := Common(s.mem, 3), BothView(s, 3, LOWER);
    assert 0 in c.tables && 0 in v.tables && LOWER / LENGTH == 0;
    assert Looked(s.mem, 3, LOWER, 0);
    InBothView(s, 3, LOWER, 1);
    InBothView(s, 3, LOWER, 2);
    InBothView(s, 3, LOWER, 3);
    assert Masked(s, 3, LOWER, 2) && !Masked(s, 3, LOWER, 3);
    assert 1 in c.used && 2 !in c.used && 1 in v.used && 2 in v.used && 3 !in v.used;
    assert FirstHit(c, q, 2);
    assert FirstHit(v, q, 3);
    assert WindowTables(s.mem) == [];
  }
}
