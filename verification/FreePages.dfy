// The searches for a run of unmapped pages, sys/memory/vmemory.c, over what they see of
// the page tables.

module FreePages {
  import opened PageTable

  // Which pages a search sees mapped, and for which slots it sees a table.
  datatype View = View(used: set<nat>, tables: set<nat>)

  // What one directory shows.
  ghost function ViewOf(mem: Memory, dir: nat): View {
    View(set page: nat | page < PAGES && Lookup(mem, dir, page) != 0,
         set slot: nat | slot < LENGTH && HasTable(mem, dir, slot))
  }

  // Mapped pages have a table.
  ghost predicate Regular(v: View) {
    forall page :: page in v.used ==> page < PAGES && page / LENGTH in v.tables
  }

  lemma DirectoryIsRegular(mem: Memory, dir: nat)
    ensures Regular(ViewOf(mem, dir))
  {
  }

  // `pages` pages from `lower` on and below `upper` are asked for.
  datatype Request = Request(pages: nat, lower: nat, upper: nat)

  ghost predicate Proper(q: Request) {
    0 < q.pages && 1 <= q.lower < PAGES && q.upper < PAGES
  }

  ghost predicate FreeRun(v: View, start: nat, length: int) {
    forall page: nat :: start <= page < start + length ==> page !in v.used
  }

  // Pages that are counted too many when the search starts inside an absent table.
  ghost function Excess(v: View, lower: nat): nat {
    if lower / LENGTH in v.tables then 0 else lower % LENGTH
  }

  // How many pages from `start` on have to be free for the count to be reached.
  ghost function Counted(v: View, q: Request, start: nat): int {
    q.pages - if start == q.lower then Excess(v, q.lower) else 0
  }

  ghost predicate Hit(v: View, q: Request, start: nat) {
    FreeRun(v, start, Counted(v, q, start))
  }

  // The end of the last table that is looked at.
  ghost function Limit(upper: nat): nat {
    (upper + LENGTH - 1) / LENGTH * LENGTH
  }

  // The first start at which the count is reached.
  ghost predicate FirstHit(v: View, q: Request, start: nat) {
    && q.lower <= start < Limit(q.upper) && Hit(v, q, start) && start + Counted(v, q, start) <= Limit(q.upper)
    && forall r: nat :: q.lower <= r < start ==> !Hit(v, q, r)
  }

  // The final test. The sum of addresses has 32 bits.
  predicate Accepted(q: Request, start: nat) {
    (start + q.pages) % PAGES <= q.upper
  }

  ghost predicate Found(v: View, q: Request, start: nat) {
    FirstHit(v, q, start) && Accepted(q, start)
  }

  ghost predicate NotFound(v: View, q: Request) {
    forall start: nat :: FirstHit(v, q, start) ==> !Accepted(q, start)
  }

  lemma OneFound(v: View, q: Request, a: nat, b: nat)
    requires FirstHit(v, q, a) && FirstHit(v, q, b)
    ensures a == b
  {
  }

  // The tables that are looked at.
  ghost predicate Visited(v: View, q: Request, slot: nat) {
    && q.lower / LENGTH <= slot
    && ((exists start: nat :: FirstHit(v, q, start)) ==>
        exists start: nat :: FirstHit(v, q, start) && slot < EndOf(v, q, start))
    && ((forall start: nat :: !FirstHit(v, q, start)) ==> slot < Limit(q.upper) / LENGTH)
  }

  ghost function EndOf(v: View, q: Request, start: nat): int {
    (start + Counted(v, q, start) + LENGTH - 1) / LENGTH
  }

  // ---- The state of the search at page `pos` ----

  // The current run starts at `base`, and no earlier page starts a hit.
  ghost predicate Scanning(v: View, q: Request, pos: nat, base: nat, found: nat) {
    && q.lower <= base <= pos
    && FreeRun(v, base, pos - base)
    && found == pos - base + (if base == q.lower && pos > q.lower then Excess(v, q.lower) else 0)
    && forall r: nat {:trigger Hit(v, q, r)} :: q.lower <= r < base ==> !Hit(v, q, r)
  }

  // A used page ends the run.
  lemma MeetUsed(v: View, q: Request, pos: nat, base: nat, found: nat)
    requires Scanning(v, q, pos, base, found) && found < q.pages
    requires pos in v.used && (pos == q.lower ==> Excess(v, q.lower) == 0)
    ensures Scanning(v, q, pos + 1, pos + 1, 0)
  {
    forall r: nat | q.lower <= r < pos + 1 ensures !Hit(v, q, r) {
      if r >= base {
        assert r <= pos < r + Counted(v, q, r);
      }
    }
  }

  lemma MeetFree(v: View, q: Request, pos: nat, base: nat, found: nat)
    requires Scanning(v, q, pos, base, found)
    requires pos !in v.used && (pos == q.lower ==> Excess(v, q.lower) == 0)
    ensures Scanning(v, q, pos + 1, base, found + 1)
  {
  }

  // A whole absent table is free; starting inside it, 1024 pages are still counted.
  lemma MeetAbsent(v: View, q: Request, pos: nat, base: nat, found: nat)
    requires Regular(v) && Scanning(v, q, pos, base, found)
    requires pos / LENGTH !in v.tables && (pos == q.lower || pos % LENGTH == 0)
    ensures Scanning(v, q, (pos / LENGTH + 1) * LENGTH, base, found + LENGTH)
  {
    var next := (pos / LENGTH + 1) * LENGTH;
    forall page: nat | base <= page < base + (next - base) ensures page !in v.used {
      if page >= pos {
        assert page / LENGTH == pos / LENGTH;
      }
    }
  }

  lemma Reached(v: View, q: Request, pos: nat, base: nat, found: nat)
    requires Scanning(v, q, pos, base, found) && found >= q.pages > 0
    ensures Hit(v, q, base) && base < pos && base + Counted(v, q, base) <= pos
  {
    forall page: nat | base <= page < base + Counted(v, q, base) ensures page !in v.used {
      assert page < pos;
    }
  }

  lemma Missed(v: View, q: Request, pos: nat, base: nat, found: nat, start: nat)
    requires Scanning(v, q, pos, base, found) && found < q.pages && Limit(q.upper) <= pos
    ensures !FirstHit(v, q, start)
  {
    assert base <= start && q.lower < pos ==> start + Counted(v, q, start) > pos;
  }

  // ---- One table ----

  // The words of the tables of a slot show which of its pages are free.
  ghost predicate Reads(tables: seq<seq<nat>>, v: View, slot: nat) {
    forall i {:trigger Blank(tables, i)} :: 0 <= i < LENGTH ==> (Blank(tables, i) <==> slot * LENGTH + i !in v.used)
  }

  predicate Blank(tables: seq<seq<nat>>, i: int) {
    forall k :: 0 <= k < |tables| && 0 <= i < |tables[k]| ==> !Present(tables[k][i])
  }

  function WordsOf(mem: Memory, f: nat): seq<nat> {
    if f in mem then mem[f] else []
  }

  lemma BlankOne(words: seq<nat>, i: nat)
    ensures Blank([words], i) <==> !(i < |words| && Present(words[i]))
  {
    assert [words][0] == words;
  }

  lemma EntryBlank(mem: Memory, dir: nat, slot: nat, i: nat)
    requires slot < LENGTH && i < LENGTH && HasTable(mem, dir, slot)
    ensures Blank([WordsOf(mem, FrameOf(Word(mem, dir, slot)))], i) <==> Lookup(mem, dir, slot * LENGTH + i) == 0
  {
    var page := slot * LENGTH + i;
    assert page / LENGTH == slot && page % LENGTH == i;
    BlankOne(WordsOf(mem, FrameOf(Word(mem, dir, slot))), i);
  }

  // What one table shows.
  lemma ReadsOne(mem: Memory, dir: nat, slot: nat)
    requires slot < LENGTH && HasTable(mem, dir, slot)
    ensures Reads([WordsOf(mem, FrameOf(Word(mem, dir, slot)))], ViewOf(mem, dir), slot)
  {
    forall i | 0 <= i < LENGTH
      ensures Blank([WordsOf(mem, FrameOf(Word(mem, dir, slot)))], i) <==> slot * LENGTH + i !in ViewOf(mem, dir).used
    {
      EntryBlank(mem, dir, slot, i);
    }
  }

  // The pages of one table have been counted.
  ghost predicate Scanned(v: View, q: Request, table: nat, first: nat, regionStart: nat, found: nat, pos: nat,
                          base: nat)
  {
    && Scanning(v, q, pos, base, found) && table * LENGTH + first < pos <= (table + 1) * LENGTH
    && (found > 0 ==> regionStart == base)
    && if found < q.pages then pos == (table + 1) * LENGTH else pos == base + Counted(v, q, base)
  }

  // The inner loop: the pages of one table from `first` on.
  method ScanTable(tables: seq<seq<nat>>, pages: nat, table: nat, first: nat, start: nat, count: nat,
                   ghost v: View, ghost q: Request, ghost base: nat)
      returns (regionStart: nat, found: nat, ghost pos: nat, ghost newBase: nat)
    requires pages == q.pages && first < LENGTH && count < pages && Reads(tables, v, table)
    requires Scanning(v, q, table * LENGTH + first, base, count)
    requires count > 0 ==> start == base
    requires table * LENGTH + first == q.lower ==> Excess(v, q.lower) == 0
    ensures Scanned(v, q, table, first, regionStart, found, pos, newBase)
  {
    var i: nat := first;
    regionStart, found, newBase := start, count, base;
    while i < LENGTH
      invariant i <= LENGTH && first <= i && found < pages
      invariant Scanning(v, q, table * LENGTH + i, newBase, found)
      invariant found > 0 ==> regionStart == newBase
    {
      pos := table * LENGTH + i;
      if Blank(tables, i) {
        MeetFree(v, q, pos, newBase, found);
        if found == 0 {
          regionStart := table * LENGTH + i;
        }
        found := found + 1;
        if found >= pages {
          pos := pos + 1;
          return;
        }
      } else {
        MeetUsed(v, q, pos, newBase, found);
        found, newBase := 0, pos + 1;
      }
      i := i + 1;
    }
    pos := table * LENGTH + i;
  }

  // ---- The search ----

  // The search stands at page number `page` of a table.
  ghost predicate Cursor(v: View, q: Request, table: nat, page: nat, found: nat, regionStart: nat, pos: nat,
                         base: nat)
  {
    && Regular(v) && Proper(q) && q.lower / LENGTH <= table <= LENGTH
    && (found < q.pages ==> pos == table * LENGTH + page && page < LENGTH)
    && (if table == q.lower / LENGTH then pos == q.lower
        else page == 0 && q.lower < pos <= table * LENGTH <= Limit(q.upper))
    && Scanning(v, q, pos, base, found)
    && (found > 0 ==> regionStart == base)
    && (found >= q.pages ==> EndOf(v, q, base) == table)
  }

  lemma CursorStart(v: View, q: Request)
    requires Regular(v) && Proper(q)
    ensures Cursor(v, q, q.lower / LENGTH, q.lower % LENGTH, 0, 0, q.lower, q.lower)
  {
  }

  // The guard of the loop. The address of a table has 32 bits.
  predicate Goes(q: Request, table: nat, found: nat) {
    found < q.pages && (table * LENGTH) % PAGES < q.upper
  }

  lemma CursorHere(v: View, q: Request, table: nat, page: nat, found: nat, regionStart: nat, pos: nat, base: nat)
    requires Cursor(v, q, table, page, found, regionStart, pos, base) && Goes(q, table, found) && table < LENGTH
    ensures page < LENGTH && pos == table * LENGTH + page && pos / LENGTH == table && pos % LENGTH == page
    ensures table * LENGTH < q.upper && (table + 1) * LENGTH <= Limit(q.upper)
    ensures table in v.tables && pos == q.lower ==> Excess(v, q.lower) == 0
    ensures page == 0 || pos == q.lower
  {
  }

  // No hit ends before the table at which the search stands.
  lemma CursorVisits(v: View, q: Request, table: nat, page: nat, found: nat, regionStart: nat, pos: nat, base: nat)
    requires Cursor(v, q, table, page, found, regionStart, pos, base) && Goes(q, table, found) && table < LENGTH
    ensures Visited(v, q, table)
  {
    CursorHere(v, q, table, page, found, regionStart, pos, base);
    forall start: nat | FirstHit(v, q, start) ensures table < EndOf(v, q, start) {
      assert base <= start;
      assert table * LENGTH < start + Counted(v, q, start);
    }
  }

  // A table has been scanned.
  lemma CursorScanned(v: View, q: Request, table: nat, page: nat, found: nat, pos: nat, newFound: nat, newStart: nat,
                      newPos: nat, newBase: nat)
    requires Regular(v) && Proper(q) && q.lower / LENGTH <= table < LENGTH && found < q.pages && page < LENGTH
    requires q.lower <= pos == table * LENGTH + page && (table + 1) * LENGTH <= Limit(q.upper)
    requires Scanned(v, q, table, page, newStart, newFound, newPos, newBase)
    ensures Cursor(v, q, table + 1, 0, newFound, newStart, newPos, newBase)
  {
  }

  lemma CursorAbsent(v: View, q: Request, table: nat, page: nat, found: nat, regionStart: nat, pos: nat, base: nat)
    requires Cursor(v, q, table, page, found, regionStart, pos, base) && Goes(q, table, found) && table < LENGTH
    requires table !in v.tables
    ensures var start := if found == 0 then table * LENGTH + page else regionStart;
      Cursor(v, q, table + 1, 0, found + LENGTH, start, (table + 1) * LENGTH, base)
  {
    CursorHere(v, q, table, page, found, regionStart, pos, base);
    MeetAbsent(v, q, pos, base, found);
    assert table * LENGTH < base + Counted(v, q, base);
    if found + LENGTH >= q.pages {
      Reached(v, q, (table + 1) * LENGTH, base, found + LENGTH);
    }
  }

  // What the search has found at its end.
  lemma CursorOut(v: View, q: Request, table: nat, page: nat, found: nat, regionStart: nat, pos: nat, base: nat)
    requires Cursor(v, q, table, page, found, regionStart, pos, base) && (table == LENGTH || !Goes(q, table, found))
    ensures found >= q.pages ==> FirstHit(v, q, regionStart)
    ensures found < q.pages ==> forall start :: !FirstHit(v, q, start)
    ensures found >= q.pages && Accepted(q, regionStart) ==> Found(v, q, regionStart)
    ensures !(found >= q.pages && Accepted(q, regionStart)) ==> NotFound(v, q)
    ensures forall slot: nat :: Visited(v, q, slot) <==> q.lower / LENGTH <= slot < table
  {
    if found >= q.pages {
      Reached(v, q, pos, base, found);
      forall start: nat | FirstHit(v, q, start) ensures start == regionStart {
        OneFound(v, q, start, regionStart);
      }
    } else {
      LimitPassed(v, q, table, page, found, regionStart, pos, base);
      forall start: nat ensures !FirstHit(v, q, start) {
        Missed(v, q, pos, base, found, start);
      }
    }
  }

  lemma LimitPassed(v: View, q: Request, table: nat, page: nat, found: nat, regionStart: nat, pos: nat, base: nat)
    requires Cursor(v, q, table, page, found, regionStart, pos, base) && found < q.pages
    requires table == LENGTH || !Goes(q, table, found)
    ensures Limit(q.upper) <= pos
  {
    if table < LENGTH {
      assert (table * LENGTH) % PAGES == table * LENGTH;
    }
  }

  // __vm_findFreePages__kernel().
  method Search(mem: Memory, dir: nat, pages: nat, lower: nat, upper: nat) returns (start: nat)
    requires Proper(Request(pages, lower, upper))
    ensures start != 0 ==> Found(ViewOf(mem, dir), Request(pages, lower, upper), start)
    ensures start == 0 ==> NotFound(ViewOf(mem, dir), Request(pages, lower, upper))
  {
    ghost var v, q := ViewOf(mem, dir), Request(pages, lower, upper);
    var regionStart: nat := 0;
    var table: nat := lower / LENGTH;
    var page: nat := lower % LENGTH;
    var found: nat := 0;
    ghost var base: nat, pos: nat := lower, lower;
    DirectoryIsRegular(mem, dir);
    CursorStart(v, q);
    while Goes(Request(pages, lower, upper), table, found)
      invariant Cursor(v, q, table, page, found, regionStart, pos, base)
      decreases LENGTH + 1 - table
    {
      if table >= LENGTH {
        CursorOut(v, q, table, page, found, regionStart, pos, base);
        return 0;
      }
      regionStart, found, pos, base := VisitSlot(mem, dir, table, page, pages, regionStart, found, v, q, pos, base);
      page := 0;
      table := table + 1;
    }
    CursorOut(v, q, table, page, found, regionStart, pos, base);
    return if found >= pages && Accepted(Request(pages, lower, upper), regionStart) then regionStart else 0;
  }

  // One pass of the loop: a table, or the gap of an absent one.
  method VisitSlot(mem: Memory, dir: nat, table: nat, page: nat, pages: nat, start: nat, count: nat,
                   ghost v: View, ghost q: Request, ghost pos: nat, ghost base: nat)
      returns (regionStart: nat, found: nat, ghost newPos: nat, ghost newBase: nat)
    requires v == ViewOf(mem, dir) && pages == q.pages && table < LENGTH && Goes(q, table, count)
    requires Cursor(v, q, table, page, count, start, pos, base)
    ensures Cursor(v, q, table + 1, 0, found, regionStart, newPos, newBase)
  {
    CursorHere(v, q, table, page, count, start, pos, base);
    if HasTable(mem, dir, table) {
      ReadsOne(mem, dir, table);
      regionStart, found, newPos, newBase :=
        ScanTable([WordsOf(mem, FrameOf(Word(mem, dir, table)))], pages, table, page, start, count, v, q, base);
      CursorScanned(v, q, table, page, count, pos, found, regionStart, newPos, newBase);
    } else {
      CursorAbsent(v, q, table, page, count, start, pos, base);
      regionStart := if count == 0 then table * LENGTH + page else start;
      found, newPos, newBase := count + LENGTH, (table + 1) * LENGTH, base;
    }
  }

  // ---- When a hit is a run of free pages ----

  // The search starts in a present table, at a table's first page, or for no more
  // pages than the table has left.
  ghost predicate Exact(v: View, q: Request) {
    q.lower / LENGTH in v.tables || q.lower % LENGTH == 0 || q.pages <= LENGTH - q.lower % LENGTH
  }

  lemma HitIsRun(v: View, q: Request, start: nat)
    requires Regular(v) && q.lower <= start && Exact(v, q)
    ensures Hit(v, q, start) <==> FreeRun(v, start, q.pages)
  {
    if start == q.lower && Excess(v, q.lower) > 0 {
      forall page: nat | start <= page < start + q.pages ensures page !in v.used {
        assert page / LENGTH == q.lower / LENGTH;
      }
    }
  }

  // ---- When the answer stays below the upper limit ----

  // The sum wraps only for a run that reaches the end of the address space, and then
  // the answer is given.
  lemma AcceptedMeans(v: View, q: Request, start: nat)
    requires Proper(q) && FirstHit(v, q, start)
    ensures start + q.pages <= PAGES + Excess(v, q.lower)
    ensures Accepted(q, start) <==> start + q.pages <= q.upper || PAGES <= start + q.pages
  {
    var sum := start + q.pages;
    assert Limit(q.upper) <= PAGES;
    if PAGES <= sum {
      assert Limit(q.upper) <= PAGES - LENGTH ==> sum <= PAGES - LENGTH + Excess(v, q.lower);
      assert Limit(q.upper) == PAGES;
      assert sum % PAGES == sum - PAGES < LENGTH <= PAGES - LENGTH < q.upper;
    } else {
      assert sum % PAGES == sum;
    }
  }

  predicate Between(f: nat, first: nat, end: nat) {
    first <= f < end
  }

  ghost function Interval(first: nat, end: nat): set<nat> {
    set f: nat | first <= f < end && Between(f, first, end)
  }

  ghost function DrawnFrames(dir: nat): set<nat> {
    Interval(dir, dir + 1 + LENGTH)
  }

  // A directory that shows a given view.
  ghost function Drawn(v: View, dir: nat): Memory {
    map f | f in DrawnFrames(dir) ::
      if f == dir then DirectoryWords(v, dir) else TableWords(v, f - dir - 1)
  }

  ghost function DirectoryWords(v: View, dir: nat): seq<nat> {
    seq(LENGTH, i requires 0 <= i < LENGTH => if i in v.tables then (dir + 1 + i) * 4096 + 1 else 0)
  }

  ghost function TableWords(v: View, slot: nat): seq<nat> {
    seq(LENGTH, i requires 0 <= i < LENGTH => if slot * LENGTH + i in v.used then 1 else 0)
  }

  lemma DrawnSlot(v: View, dir: nat, slot: nat)
    requires slot < LENGTH
    ensures Word(Drawn(v, dir), dir, slot) == (if slot in v.tables then (dir + 1 + slot) * 4096 + 1 else 0)
    ensures HasTable(Drawn(v, dir), dir, slot) <==> slot in v.tables
    ensures slot in v.tables ==> FrameOf(Word(Drawn(v, dir), dir, slot)) == dir + 1 + slot
  {
    assert Between(dir, dir, dir + 1 + LENGTH);
    assert Drawn(v, dir)[dir] == DirectoryWords(v, dir);
    FrameAndFlags(dir + 1 + slot, 1);
  }

  lemma DrawnEntry(v: View, dir: nat, slot: nat, i: nat)
    requires slot < LENGTH && i < LENGTH
    ensures Word(Drawn(v, dir), dir + 1 + slot, i) == if slot * LENGTH + i in v.used then 1 else 0
  {
    assert Between(dir + 1 + slot, dir, dir + 1 + LENGTH);
    assert Drawn(v, dir)[dir + 1 + slot] == TableWords(v, slot);
  }

  lemma DrawnPage(v: View, dir: nat, page: nat)
    requires Regular(v) && page < PAGES
    ensures Lookup(Drawn(v, dir), dir, page) != 0 <==> page in v.used
  {
    var slot, i := page / LENGTH, page % LENGTH;
    assert slot * LENGTH + i == page && slot < LENGTH;
    DrawnSlot(v, dir, slot);
    DrawnEntry(v, dir, slot, i);
    assert slot in v.tables ==> Entry(Drawn(v, dir), dir, page) == Word(Drawn(v, dir), dir + 1 + slot, i);
  }

  lemma DrawnShows(v: View, dir: nat)
    requires Regular(v) && forall slot :: slot in v.tables ==> slot < LENGTH
    ensures ViewOf(Drawn(v, dir), dir) == v
  {
    var mem := Drawn(v, dir);
    forall page: nat | page < PAGES ensures Lookup(mem, dir, page) != 0 <==> page in v.used {
      DrawnPage(v, dir, page);
    }
    forall slot: nat | slot < LENGTH ensures HasTable(mem, dir, slot) <==> slot in v.tables {
      DrawnSlot(v, dir, slot);
    }
    assert ViewOf(mem, dir).used == v.used;
    assert ViewOf(mem, dir).tables == v.tables;
  }

  // The search answers below the upper limit in every directory if and only if no table
  // at the end of the address space is looked at, or the request cannot reach the end.
  lemma StaysBelowExactly(dir: nat, q: Request)
    requires Proper(q)
    ensures (forall mem: Memory, start: nat :: Found(ViewOf(mem, dir), q, start) ==> start + q.pages <= q.upper)
      <==> (q.upper <= PAGES - LENGTH || q.lower + q.pages > PAGES + q.lower % LENGTH)
  {
    if q.upper <= PAGES - LENGTH || q.lower + q.pages > PAGES + q.lower % LENGTH {
      forall mem: Memory, start: nat | Found(ViewOf(mem, dir), q, start) ensures start + q.pages <= q.upper {
        StaysBelow(ViewOf(mem, dir), q, start);
      }
    } else {
      var mem, start := PassesLimit(dir, q);
      assert Found(ViewOf(mem, dir), q, start);
    }
  }

  lemma StaysBelow(v: View, q: Request, start: nat)
    requires Proper(q) && Found(v, q, start)
    requires q.upper <= PAGES - LENGTH || q.lower + q.pages > PAGES + q.lower % LENGTH
    ensures start + q.pages <= q.upper
  {
    AcceptedMeans(v, q, start);
    if q.upper <= PAGES - LENGTH {
      assert Limit(q.upper) <= PAGES - LENGTH;
    }
  }

  // For every other request there is a directory in which the answer passes the limit.
  lemma PassesLimit(dir: nat, q: Request) returns (mem: Memory, start: nat)
    requires Proper(q) && q.upper > PAGES - LENGTH && q.lower + q.pages <= PAGES + q.lower % LENGTH
    ensures Found(ViewOf(mem, dir), q, start) && start + q.pages >= PAGES > q.upper
  {
    assert Limit(q.upper) == PAGES;
    var v: View;
    if q.lower + q.pages >= PAGES {
      v, start := View({}, {}), q.lower;
    } else {
      start := PAGES - q.pages;
      v := View(Interval(q.lower, start), Interval(0, LENGTH));
      forall r: nat | q.lower <= r < start ensures !Hit(v, q, r) {
        assert Between(r, q.lower, start) && Between(q.lower / LENGTH, 0, LENGTH);
        assert r in v.used && r < r + Counted(v, q, r);
      }
    }
    assert FirstHit(v, q, start);
    AcceptedMeans(v, q, start);
    mem := Drawn(v, dir);
    DrawnShows(v, dir);
  }

  // ---- The lowest run of free pages ----

  // It ends below the upper limit, or with the address space.
  ghost predicate LowestRun(v: View, q: Request, start: nat) {
    && q.lower <= start && FreeRun(v, start, q.pages)
    && (start + q.pages <= q.upper || start + q.pages == PAGES)
    && forall r: nat :: q.lower <= r < start ==> !FreeRun(v, r, q.pages)
  }

  ghost predicate NoRun(v: View, q: Request) {
    forall r: nat :: q.lower <= r && r + q.pages <= q.upper ==> !FreeRun(v, r, q.pages)
  }

  // Where a hit is a run, the search is first fit over the flat page map, and complete.
  lemma FoundIsLowest(v: View, q: Request)
    requires Regular(v) && Proper(q) && Exact(v, q)
    ensures forall start: nat :: Found(v, q, start) ==> LowestRun(v, q, start)
    ensures NotFound(v, q) ==> NoRun(v, q)
  {
    forall r: nat | q.lower <= r ensures Hit(v, q, r) <==> FreeRun(v, r, q.pages) {
      HitIsRun(v, q, r);
    }
    forall start: nat | Found(v, q, start) ensures LowestRun(v, q, start) {
      AcceptedMeans(v, q, start);
      EndsInside(v, q, start);
    }
    if NotFound(v, q) {
      forall r: nat | q.lower <= r && r + q.pages <= q.upper ensures !FreeRun(v, r, q.pages) {
        if FreeRun(v, r, q.pages) { SomethingFound(v, q, r); }
      }
    }
  }

  lemma EndsInside(v: View, q: Request, start: nat)
    requires Proper(q) && Exact(v, q) && FirstHit(v, q, start)
    ensures start + q.pages <= PAGES
  {
    assert Limit(q.upper) <= PAGES;
  }

  // A hit that ends below the upper limit means that the search finds one.
  lemma {:induction false} SomethingFound(v: View, q: Request, r: nat)
    requires Proper(q) && q.lower <= r && r + q.pages <= q.upper && Hit(v, q, r)
    ensures !NotFound(v, q)
    decreases r
  {
    if p: nat :| q.lower <= p < r && Hit(v, q, p) {
      SomethingFound(v, q, p);
    } else {
      assert q.upper <= Limit(q.upper);
      assert FirstHit(v, q, r);
      AcceptedMeans(v, q, r);
    }
  }

  method FindFreePages(mem: Memory, dir: nat, pages: nat, lower: nat, upper: nat) returns (start: nat)
    requires Proper(Request(pages, lower, upper)) && Exact(ViewOf(mem, dir), Request(pages, lower, upper))
    ensures start != 0 ==> LowestRun(ViewOf(mem, dir), Request(pages, lower, upper), start)
    ensures start == 0 ==> NoRun(ViewOf(mem, dir), Request(pages, lower, upper))
  {
    start := Search(mem, dir, pages, lower, upper);
    DirectoryIsRegular(mem, dir);
    FoundIsLowest(ViewOf(mem, dir), Request(pages, lower, upper));
  }

  // ---- Starting inside an absent table ----

  // A hit is a run of free pages in every directory exactly when the request fits into
  // the rest of that table.
  lemma StartInsideAbsentTable(dir: nat, q: Request)
    requires Proper(q) && q.lower + q.pages <= q.upper
    ensures (forall mem: Memory :: !HasTable(mem, dir, q.lower / LENGTH) && Hit(ViewOf(mem, dir), q, q.lower) ==>
        FreeRun(ViewOf(mem, dir), q.lower, q.pages))
      <==> (q.lower % LENGTH == 0 || q.pages <= LENGTH - q.lower % LENGTH)
  {
    if q.lower % LENGTH == 0 || q.pages <= LENGTH - q.lower % LENGTH {
      forall mem: Memory | !HasTable(mem, dir, q.lower / LENGTH) && Hit(ViewOf(mem, dir), q, q.lower)
        ensures FreeRun(ViewOf(mem, dir), q.lower, q.pages)
      {
        DirectoryIsRegular(mem, dir);
        HitIsRun(ViewOf(mem, dir), q, q.lower);
      }
    } else {
      var mem := CountsUsedPage(dir, q);
      assert Hit(ViewOf(mem, dir), q, q.lower);
    }
  }

  lemma CountsUsedPage(dir: nat, q: Request) returns (mem: Memory)
    requires Proper(q) && q.lower + q.pages <= q.upper && q.lower % LENGTH != 0 && q.pages > LENGTH - q.lower % LENGTH
    ensures !HasTable(mem, dir, q.lower / LENGTH) && Hit(ViewOf(mem, dir), q, q.lower)
    ensures !FreeRun(ViewOf(mem, dir), q.lower, q.pages)
  {
    var last: nat := q.lower + q.pages - 1;
    var v := View({last}, {last / LENGTH});
    assert last / LENGTH != q.lower / LENGTH;
    mem := Drawn(v, dir);
    DrawnShows(v, dir);
    DrawnSlot(v, dir, q.lower / LENGTH);
    assert Hit(v, q, q.lower);
    assert last in v.used;
  }
}
