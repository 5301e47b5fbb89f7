// The steps of the operations of sys/memory/vmemory.c on values: the loop over a run,
// a user's search through windows, and allocation.

module MemorySteps {
  import opened PageTable
  import opened FreePages
  import opened AddressSpace
  import opened Windows
  import opened PageRanges

  lemma JustOpened(s: Space, page: nat, frame: nat, r: Space)
    requires WindowAt(s, page) && Mappable(s, KERNEL, page) && frame in s.mem && r == Mapped(s, page, frame * 4096 + 3)
    ensures Opened(s, page, frame, r) && (frame == KERNEL ==> DirectorySeen(s, r))
  {
    WindowOpens(s, page, frame, r);
    if frame == KERNEL {
      DirectoryOpens(s, page);
    }
  }

  lemma RoomyIsRoom(s: Space)
    requires Roomy(s.mem)
    ensures Room(s.mem)
  {
    var q: nat, r: nat :| q < r && FreeBelow(s.mem, q) && FreeBelow(s.mem, r);
  }

  // ---- One page ----

  ghost predicate Ready(s: Space, dir: nat, page: nat, word: nat) {
    && page < PAGES && |s.pool| >= |OneTables(s.mem, dir, page)|
    && if page / LENGTH == SELF then Settable(s, dir, page % LENGTH, word) else Mappable(s, dir, page)
  }

  lemma KernelMapped(s: Space, page: nat, word: nat)
    requires Mappable(s, KERNEL, page)
    ensures var r := Mapped(s, page, word);
      MappedOne(s, KERNEL, page, word, r) && Takes(s, r, Pages(KERNEL, page, 1), OneTables(s.mem, KERNEL, page))
  {
    var r, t, taken := Mapped(s, page, word), Pages(KERNEL, page, 1), TableFor(s.mem, KERNEL, page);
    MappedOk(s, page, word);
    MappedHere(s, page, word);
    MappedEffect(s, page, word);
    EffectWithin(s, r, NOTHING, t, t, NOTHING);
    MappedKeepsUsers(s, page, word);
    MappedTakes(s, page, word);
    TakesWithin(s, r, NOTHING, t, taken);
    EntriesOf(s, KERNEL, page, word, r, taken);
    assert taken + [] == taken;
  }

  lemma KernelEntered(s: Space, page: nat, word: nat, r: Space)
    requires page < PAGES && page / LENGTH == SELF && Settable(s, KERNEL, page % LENGTH, word)
    requires r == WithEntry(s, KERNEL, page % LENGTH, word) && EntrySet(s, KERNEL, page % LENGTH, word, r)
    ensures MappedOne(s, KERNEL, page, word, r) && Takes(s, r, Pages(KERNEL, page, 1), OneTables(s.mem, KERNEL, page))
  {
    assert page == SELF * LENGTH + page % LENGTH;
    WithEntryTakes(s, KERNEL, page % LENGTH, word);
    SelfSeen(s, KERNEL, page);
    EntriesOf(s, KERNEL, page, word, r, []);
    assert OneTables(s.mem, KERNEL, page) == [];
  }

  lemma UserEntered(s: Space, dir: nat, page: nat, word: nat, r: Space)
    requires page < PAGES && page / LENGTH == SELF && Settable(s, dir, page % LENGTH, word) && dir != KERNEL
    requires Room(s.mem)
    requires EntrySet(s, dir, page % LENGTH, word, r) && Takes(s, r, Pages(dir, page, 1), WindowTables(s.mem))
    ensures MappedOne(s, dir, page, word, r) && Takes(s, r, Pages(dir, page, 1), OneTables(s.mem, dir, page))
  {
    assert page == SELF * LENGTH + page % LENGTH;
    SelfSeen(s, dir, page);
    EntriesOf(s, dir, page, word, r, WindowTables(s.mem));
    assert OneTables(s.mem, dir, page) == WindowTables(s.mem);
  }

  lemma UserMapped(s: Space, dir: nat, page: nat, word: nat, r: Space)
    requires Mappable(s, dir, page) && dir != KERNEL && WellFormed(r) && Effect(s, r, Pages(dir, page, 1), NOTHING)
    requires Takes(s, r, Pages(dir, page, 1), TableFor(s.mem, dir, page) + WindowTables(s.mem)) && OwnersGrow(s, r)
    requires Lookup(r.mem, dir, page) == Live(word) && HasTable(r.mem, dir, page / LENGTH)
    ensures MappedOne(s, dir, page, word, r) && Takes(s, r, Pages(dir, page, 1), OneTables(s.mem, dir, page))
  {
    EntriesOf(s, dir, page, word, r, TableFor(s.mem, dir, page) + WindowTables(s.mem));
  }

  // The table that a user's page gets and the one for the window onto it.
  lemma BothTaken(s: Space, a: Space, r: Space, dir: nat, page: nat, window: seq<(nat, nat)>)
    requires page / LENGTH != SELF && page < PAGES && Effect(s, a, SlotPages(dir, page / LENGTH), NOTHING)
    requires Effect(a, r, SlotPages(dir, page / LENGTH), NOTHING)
    requires Takes(s, a, SlotPages(dir, page / LENGTH), [(dir, page / LENGTH)])
    requires Takes(a, r, SlotPages(dir, page / LENGTH), window)
    ensures Takes(s, r, Pages(dir, page, 1), [(dir, page / LENGTH)] + window)
  {
    TakesThen(s, a, r, SlotPages(dir, page / LENGTH), NOTHING, [(dir, page / LENGTH)], window);
    TakesClear(s, r, SlotPages(dir, page / LENGTH), Pages(dir, page, 1), [(dir, page / LENGTH)] + window);
  }

  lemma WindowTaken(s: Space, r: Space, dir: nat, page: nat, window: seq<(nat, nat)>)
    requires page / LENGTH != SELF && page < PAGES && Takes(s, r, SlotPages(dir, page / LENGTH), window)
    ensures Takes(s, r, Pages(dir, page, 1), [] + window)
  {
    TakesClear(s, r, SlotPages(dir, page / LENGTH), Pages(dir, page, 1), window);
    assert [] + window == window;
  }

  // Pages outside slot 0xFF hide no table.
  lemma TakesClear(s: Space, r: Space, t: Pages, t': Pages, taken: seq<(nat, nat)>)
    requires Takes(s, r, t, taken) && (t.from + t.count <= SELF * LENGTH || (SELF + 1) * LENGTH <= t.from)
    ensures Takes(s, r, t', taken)
  {
    forall k | 0 <= k < |taken| ensures Took(s, r, t', taken[k], s.pool[k]) {
      assert Took(s, r, t, taken[k], s.pool[k]);
    }
  }

  // ---- A run of pages ----

  // k pages of a run are mapped. The first of them also takes what its window needs.
  ghost predicate Underway(s: Space, now: Space, t: Pages, base: nat, step: nat, k: nat, window: seq<(nat, nat)>) {
    && WellFormed(now) && Effect(s, now, t, NOTHING) && Takes(s, now, t, RunTables(s.mem, t, base, step, k, window))
    && TablesShown(s, now, t, base, step, k) && RunShown(s, now, t, base, step, k)
    && CellsAhead(s, now, t, base, step, k)
    && if t.dir == KERNEL then window == [] else WindowTables(now.mem) == if k == 0 then window else []
  }

  lemma Begin(s: Space, t: Pages, base: nat, step: nat, window: seq<(nat, nat)>)
    requires WellFormed(s) && t.dir in s.dirs && CellsOk(s, t, base, step)
    requires window == if t.dir == KERNEL then [] else WindowTables(s.mem)
    ensures Underway(s, s, t, base, step, 0, window)
  {
    NoEffect(s);
    EffectWithin(s, s, NOTHING, NOTHING, t, NOTHING);
    TakesNothing(s, s);
    TakesWithin(s, s, NOTHING, t, []);
    CellsStart(s, t, base, step);
  }

  lemma CellsStart(s: Space, t: Pages, base: nat, step: nat)
    requires CellsOk(s, t, base, step)
    ensures CellsAhead(s, s, t, base, step, 0)
  {
    forall q: nat | t.from + 0 <= q < t.from + t.count && q / LENGTH == SELF
      ensures CellOk(s, t, base, step, q)
      ensures Present(WordFor(t, base, step, q)) ==> SameFrame(s, s, FrameOf(WordFor(t, base, step, q)))
    {
      assert In(t, t.dir, q) && CellOk(s, t, base, step, q);
    }
  }

  lemma WordNext(t: Pages, base: nat, step: nat, q: nat)
    requires t.from <= q
    ensures WordFor(t, base, step, t.from) == base && WordFor(t, base, step, q + 1) == WordFor(t, base, step, q) + step
  {
  }

  // The next page can be mapped.
  lemma ReadyAt(s: Space, now: Space, t: Pages, base: nat, step: nat, k: nat, window: seq<(nat, nat)>, page: nat,
                word: nat)
    requires Placeable(s, t) && Underway(s, now, t, base, step, k, window) && k < t.count
    requires |s.pool| >= |RunTables(s.mem, t, base, step, t.count, window)|
    requires page == t.from + k && word == WordFor(t, base, step, page)
    ensures Ready(now, t.dir, page, word)
  {
    NextTables(s, now, t, base, step, k, window);
    NextPaid(s, now, t, base, step, k, window, OneTables(now.mem, t.dir, page));
    if page / LENGTH == SELF {
      NextSettable(s, now, t, base, step, k, page, word);
    } else {
      NextMappable(now, t.dir, page);
    }
  }

  lemma NextSettable(s: Space, now: Space, t: Pages, base: nat, step: nat, k: nat, page: nat, word: nat)
    requires WellFormed(now) && t.dir in now.dirs && CellsAhead(s, now, t, base, step, k) && k < t.count
    requires page == t.from + k && word == WordFor(t, base, step, page) && page / LENGTH == SELF
    ensures Settable(now, t.dir, page % LENGTH, word)
  {
    assert CellOk(now, t, base, step, page);
    assert page == SELF * LENGTH + page % LENGTH;
  }

  lemma NextMappable(now: Space, dir: nat, page: nat)
    requires WellFormed(now) && dir in now.dirs && page < PAGES && page / LENGTH != SELF
    requires dir == KERNEL ==> page != 1
    requires |now.pool| >= |OneTables(now.mem, dir, page)|
    ensures Mappable(now, dir, page)
  {
  }

  lemma NextPaid(s: Space, now: Space, t: Pages, base: nat, step: nat, k: nat, window: seq<(nat, nat)>,
                 next: seq<(nat, nat)>)
    requires k < t.count && |s.pool| >= |RunTables(s.mem, t, base, step, t.count, window)|
    requires |now.pool| + |RunTables(s.mem, t, base, step, k, window)| == |s.pool|
    requires RunTables(s.mem, t, base, step, k + 1, window) == RunTables(s.mem, t, base, step, k, window) + next
    ensures |now.pool| >= |next|
  {
    RunTablesGrow(s.mem, t, base, step, k + 1, t.count, window);
  }

  lemma NextTables(s: Space, now: Space, t: Pages, base: nat, step: nat, k: nat, window: seq<(nat, nat)>)
    requires Placeable(s, t) && Underway(s, now, t, base, step, k, window) && k < t.count
    ensures RunTables(s.mem, t, base, step, k + 1, window) ==
      RunTables(s.mem, t, base, step, k, window) + OneTables(now.mem, t.dir, t.from + k)
  {
    PageTaken(s, now, t, base, step, k);
  }

  lemma OneMore(s: Space, now: Space, r: Space, t: Pages, base: nat, step: nat, k: nat, window: seq<(nat, nat)>)
    requires WellFormed(s) && Placeable(s, t) && CellsOk(s, t, base, step)
    requires Underway(s, now, t, base, step, k, window) && k < t.count
    requires MappedOne(now, t.dir, t.from + k, WordFor(t, base, step, t.from + k), r)
    requires Takes(now, r, Pages(t.dir, t.from + k, 1), OneTables(now.mem, t.dir, t.from + k))
    requires t.dir != KERNEL ==> WindowTables(r.mem) == []
    ensures Underway(s, r, t, base, step, k + 1, window)
  {
    MoreShown(s, now, r, t, base, step, k);
    MoreTaken(s, now, r, t, base, step, k, window);
  }

  // The same in the terms of one page and its word.
  lemma PageDone(s: Space, now: Space, r: Space, t: Pages, base: nat, step: nat, k: nat, window: seq<(nat, nat)>,
                 page: nat, word: nat)
    requires WellFormed(s) && Placeable(s, t) && CellsOk(s, t, base, step)
    requires Underway(s, now, t, base, step, k, window) && k < t.count
    requires page == t.from + k && word == WordFor(t, base, step, page) && MappedOne(now, t.dir, page, word, r)
    requires Takes(now, r, Pages(t.dir, page, 1), OneTables(now.mem, t.dir, page))
    requires t.dir != KERNEL ==> WindowTables(r.mem) == []
    ensures Underway(s, r, t, base, step, k + 1, window)
  {
    OneMore(s, now, r, t, base, step, k, window);
  }

  lemma MoreShown(s: Space, now: Space, r: Space, t: Pages, base: nat, step: nat, k: nat)
    requires k < t.count && t.dir in now.dirs && t.from + t.count <= PAGES && CellsOk(s, t, base, step)
    requires TablesShown(s, now, t, base, step, k) && RunShown(s, now, t, base, step, k)
    requires CellsAhead(s, now, t, base, step, k)
    requires MappedOne(now, t.dir, t.from + k, WordFor(t, base, step, t.from + k), r)
    ensures TablesShown(s, r, t, base, step, k + 1) && RunShown(s, r, t, base, step, k + 1)
    ensures CellsAhead(s, r, t, base, step, k + 1)
  {
    TablesStep(s, now, r, t, base, step, k);
    RunStep(s, now, r, t, base, step, k);
    AheadStep(s, now, r, t, base, step, k);
  }

  lemma MoreTaken(s: Space, now: Space, r: Space, t: Pages, base: nat, step: nat, k: nat, window: seq<(nat, nat)>)
    requires WellFormed(s) && Placeable(s, t) && Underway(s, now, t, base, step, k, window) && k < t.count
    requires Effect(now, r, Pages(t.dir, t.from + k, 1), NOTHING)
    requires Takes(now, r, Pages(t.dir, t.from + k, 1), OneTables(now.mem, t.dir, t.from + k))
    ensures Effect(s, r, t, NOTHING) && Takes(s, r, t, RunTables(s.mem, t, base, step, k + 1, window))
  {
    var t1, taken := Pages(t.dir, t.from + k, 1), OneTables(now.mem, t.dir, t.from + k);
    NextTables(s, now, t, base, step, k, window);
    EffectWithin(now, r, t1, NOTHING, t, NOTHING);
    EffectThen(s, now, r, t, NOTHING);
    TakesWithin(now, r, t1, t, taken);
    TakesThen(s, now, r, t, NOTHING, RunTables(s.mem, t, base, step, k, window), taken);
  }

  // The whole run is mapped.
  ghost predicate RunDone(s: Space, r: Space, t: Pages, base: nat, step: nat, taken: seq<(nat, nat)>) {
    && WellFormed(r) && Effect(s, r, t, NOTHING) && RunShown(s, r, t, base, step, t.count) && Takes(s, r, t, taken)
  }

  lemma AllDone(s: Space, r: Space, t: Pages, base: nat, step: nat, k: nat, window: seq<(nat, nat)>)
    requires Underway(s, r, t, base, step, k, window) && k == t.count
    ensures RunDone(s, r, t, base, step, RunTables(s.mem, t, base, step, t.count, window))
  {
  }

  // A run of a user's pages, mapped while the directory's window is open.
  lemma RunClosed(s: Space, o: Space, m: Space, r: Space, t: Pages, base: nat, step: nat, window: nat,
                  taken: seq<(nat, nat)>)
    requires WellFormed(s) && t.dir != KERNEL && t.dir in s.dirs && t.from + t.count <= PAGES
    requires Opened(s, window, t.dir, o)
    requires CellsOk(s, t, base, step) && CellsOk(o, t, base, step)
    requires RunDone(o, m, t, base, step, taken) && Closed(m, window, r)
    ensures RunDone(s, r, t, base, step, WindowTables(s.mem) + taken)
  {
    WindowDone(s, window, t.dir, o, m, r, t, taken);
    ShownFrom(s, o, m, t, base, step);
    ShownTo(s, m, r, t, base, step, window);
  }

  // The tables of a user's run are the same with the directory's window open.
  lemma RunOpened(s: Space, o: Space, t: Pages, base: nat, step: nat, window: nat)
    requires WellFormed(s) && Placeable(s, t) && t.dir != KERNEL && Opened(s, window, t.dir, o)
    requires CellsOk(s, t, base, step) && Roomy(s.mem)
    requires |s.pool| >= |RangeTables(s.mem, t, base, step)|
    ensures Placeable(o, t) && CellsOk(o, t, base, step) && WindowTables(o.mem) == SecondTables(s.mem)
    ensures RunTables(o.mem, t, base, step, t.count, SecondTables(s.mem)) ==
      RunTables(s.mem, t, base, step, t.count, SecondTables(s.mem))
    ensures |o.pool| >= |RunTables(o.mem, t, base, step, t.count, WindowTables(o.mem))|
  {
    CellsStill(s, o, t, base, step);
    SecondWindow(s, window, t.dir, o);
    UserTablesKept(s, o, t.dir);
    RunTablesSame(o.mem, s.mem, t, base, step, t.count, SecondTables(s.mem));
  }

  // ---- Releasing ----

  // No page is lost with a table whose entry is removed.
  ghost predicate NothingLost(mem: Memory, t: Pages) {
    forall q: nat {:trigger Uncovered(t, q)} :: Uncovered(t, q) && !In(t, t.dir, q) ==> Lookup(mem, t.dir, q) == 0
  }

  lemma ReleasedShows(s: Space, r: Space, t: Pages)
    requires RunShown(s, r, t, 0, 0, t.count)
    ensures forall q: nat :: Determined(t, t.count, q) ==> Lookup(r.mem, t.dir, q) == 0
    ensures FramesFit(s, t, 0, 0) <==> NothingLost(s.mem, t)
  {
    forall q: nat ensures WordFor(t, 0, 0, q) == 0 {
    }
    if NothingLost(s.mem, t) {
      forall q: nat | Uncovered(t, q) ensures FrameFits(s, t, 0, 0, q) {
        assert !In(t, t.dir, q) ==> Lookup(s.mem, t.dir, q) == 0;
      }
    }
    if FramesFit(s, t, 0, 0) {
      forall q: nat | Uncovered(t, q) && !In(t, t.dir, q) ensures Lookup(s.mem, t.dir, q) == 0 {
        assert FrameFits(s, t, 0, 0, q);
      }
    }
  }

  // A run of zeros is mapped as promised when nothing else differs.
  lemma ReleasedMeans(s: Space, r: Space, t: Pages)
    requires s.dirs == r.dirs && t.from + t.count <= PAGES
    requires forall q: nat :: Determined(t, t.count, q) ==> Lookup(r.mem, t.dir, q) == 0
    ensures RangeMapped(s, r, t, 0, 0) <==> SameOutside(s, r, t)
  {
    forall q: nat | In(t, t.dir, q) && q / LENGTH != SELF ensures Lookup(r.mem, t.dir, q) == Live(WordFor(t, 0, 0, q)) {
      assert Determined(t, t.count, q);
    }
  }

  // A page outside slot 0xFF.
  lemma SinglePage(s: Space, r: Space, dir: nat, page: nat, word: nat, taken: seq<(nat, nat)>)
    requires page < PAGES && page / LENGTH != SELF && RunDone(s, r, Pages(dir, page, 1), word, 0, taken)
    ensures Lookup(r.mem, dir, page) == Live(word)
    ensures SameOutside(s, r, Pages(dir, page, 1)) <==> CleanFrames(s, Pages(dir, page, 1), taken)
  {
    var t := Pages(dir, page, 1);
    assert Determined(t, 1, page);
    forall slot | 0 <= slot < LENGTH ensures !Cell(t, dir, slot) {
      assert (SELF * LENGTH + slot) / LENGTH == SELF;
    }
    SlotOfPage(page);
    KeptExactly(s, r, t, taken);
  }

  // Releasing a free run that was just allocated restores the page maps of all
  // directories, if and only if the frames that both took for tables are clean and no
  // page is lost with a table whose entry is removed.
  lemma AllocThenRelease(s: Space, m: Space, r: Space, t: Pages, base: nat, step: nat, a: seq<(nat, nat)>,
                         b: seq<(nat, nat)>)
    requires WellFormed(s) && t.from + t.count <= PAGES && t.dir in s.dirs
    requires FreeRun(ViewOf(s.mem, t.dir), t.from, t.count)
    requires RunDone(s, m, t, base, step, a) && RunDone(m, r, t, 0, 0, b)
    ensures SameOutside(s, r, NOTHING) <==> CleanFrames(s, t, a + b) && NothingLost(s.mem, t)
  {
    EffectThen(s, m, r, t, NOTHING);
    TakesThen(s, m, r, t, NOTHING, a, b);
    ReleasedShows(m, r, t);
    CleanExactly(s, r, t, a + b);
    forall q: nat | In(t, t.dir, q) && q / LENGTH != SELF
      ensures Lookup(s.mem, t.dir, q) == 0 == Lookup(r.mem, t.dir, q)
    {
      assert q !in ViewOf(s.mem, t.dir).used;
      assert Determined(t, t.count, q);
    }
    if SameOutside(s, r, NOTHING) {
      RestoredIsClean(s, r, t);
    }
    if CleanTables(s, r, t) && NothingLost(s.mem, t) {
      forall d, q: nat | d in s.dirs && q < PAGES && q / LENGTH != SELF
        ensures Lookup(r.mem, d, q) == Lookup(s.mem, d, q)
      {
        Restored(s, r, t, d, q);
      }
    }
  }

  // In the kernel, outside slot 0xFF, releasing takes nothing: what the allocation
  // takes decides.
  lemma KernelAllocThenRelease(s: Space, m: Space, r: Space, t: Pages, base: nat, step: nat)
    requires WellFormed(s) && t.from + t.count <= PAGES && t.dir == KERNEL
    requires FreeRun(ViewOf(s.mem, KERNEL), t.from, t.count)
    requires !Meets(t) && forall q: nat :: In(t, KERNEL, q) ==> Present(WordFor(t, base, step, q))
    requires RunDone(s, m, t, base, step, RangeTables(s.mem, t, base, step))
    requires RunDone(m, r, t, 0, 0, RangeTables(m.mem, t, 0, 0))
    ensures SameOutside(s, r, NOTHING) <==> CleanFrames(s, t, RangeTables(s.mem, t, base, step))
  {
    var a := RangeTables(s.mem, t, base, step);
    AllocThenRelease(s, m, r, t, base, step, a, RangeTables(m.mem, t, 0, 0));
    ReleaseTakesNothing(s, m, t, base, step, t.count);
    assert a + [] == a;
    ClearExactly(t);
    forall q: nat ensures !Uncovered(t, q) {
      if q < PAGES { SlotOfPage(q); }
    }
  }

  lemma {:induction false} ReleaseTakesNothing(s: Space, m: Space, t: Pages, base: nat, step: nat, k: nat)
    requires t.from + t.count <= PAGES && k <= t.count && !Meets(t) && RunShown(s, m, t, base, step, t.count)
    requires forall q: nat :: In(t, t.dir, q) ==> Present(WordFor(t, base, step, q))
    ensures RunTables(m.mem, t, 0, 0, k, []) == []
  {
    if k > 0 {
      ReleaseTakesNothing(s, m, t, base, step, k - 1);
      var q := t.from + (k - 1);
      SlotOfPage(q);
      ClearExactly(t);
      assert !Cell(t, t.dir, q / LENGTH);
      assert In(t, t.dir, q) && Determined(t, t.count, q);
      assert Lookup(m.mem, t.dir, q) == WordFor(t, base, step, q);
    }
  }

  lemma RestoredIsClean(s: Space, r: Space, t: Pages)
    requires t.dir in s.dirs && Effect(s, r, t, NOTHING) && SameOutside(s, r, NOTHING)
    requires forall q: nat :: Determined(t, t.count, q) ==> Lookup(r.mem, t.dir, q) == 0
    ensures CleanTables(s, r, t) && NothingLost(s.mem, t)
  {
    forall d, q: nat | d in s.dirs && q < PAGES && q / LENGTH != SELF && !In(t, d, q)
      ensures Lookup(r.mem, d, q) == Lookup(s.mem, d, q)
    {
      assert !In(NOTHING, d, q);
    }
    PromisedIsClean(s, r, t);
    forall q: nat | Uncovered(t, q) && !In(t, t.dir, q) ensures Lookup(s.mem, t.dir, q) == 0 {
      assert Determined(t, t.count, q);
      assert Lookup(r.mem, t.dir, q) == Lookup(s.mem, t.dir, q);
    }
  }

  lemma Restored(s: Space, r: Space, t: Pages, d: nat, q: nat)
    requires t.dir in s.dirs && Effect(s, r, t, NOTHING) && CleanTables(s, r, t) && NothingLost(s.mem, t)
    requires d in s.dirs && q < PAGES && q / LENGTH != SELF
    requires In(t, d, q) ==> Lookup(s.mem, t.dir, q) == 0 == Lookup(r.mem, t.dir, q)
    requires Determined(t, t.count, q) ==> Lookup(r.mem, t.dir, q) == 0
    ensures Lookup(r.mem, d, q) == Lookup(s.mem, d, q)
  {
    if !In(t, d, q) {
      if Cell(t, d, q / LENGTH) {
        assert Determined(t, t.count, q) && Uncovered(t, q);
      } else {
        assert Untouched(s, t, NOTHING, d, q);
        CleanShows(s, r, t, d, q);
      }
    }
  }

  // ---- Reading an entry ----

  // The tables for the windows onto a user's directory and the table of the page.
  ghost function ReadTables(mem: Memory, dir: nat, page: nat): seq<(nat, nat)> {
    if dir == KERNEL then LookTables(mem, dir, page, WindowTables(mem))
    else WindowTables(mem) + LookTables(mem, dir, page, SecondTables(mem))
  }

  // A table that is not there is not looked at.
  ghost function LookTables(mem: Memory, dir: nat, page: nat, window: seq<(nat, nat)>): seq<(nat, nat)> {
    if HasTable(mem, dir, page / LENGTH) then window else []
  }

  lemma NotThere(s: Space, dir: nat, page: nat)
    requires WellFormed(s) && dir in s.dirs && page < PAGES && !HasTable(s.mem, dir, page / LENGTH) && Room(s.mem)
    ensures Shown(s, dir, page) == 0 && Quiet(s, s) && Takes(s, s, NOTHING, [])
  {
    NoEffect(s);
    TakesNothing(s, s);
    if page / LENGTH == SELF { SelfSeen(s, dir, page); }
  }

  lemma TableInMemory(s: Space, dir: nat, page: nat)
    requires WellFormed(s) && dir in s.dirs && page < PAGES && HasTable(s.mem, dir, page / LENGTH)
    ensures TableOf(s.mem, dir, page / LENGTH) in s.mem
    ensures page / LENGTH == SELF ==> TableOf(s.mem, dir, page / LENGTH) == dir
  {
    SlotOfPage(page);
    if page / LENGTH == SELF { SelfSeen(s, dir, page); } else { assert Owned(s, dir, page / LENGTH); }
  }

  lemma WordSeen(s: Space, o: Space, dir: nat, page: nat, f: nat, view: nat)
    requires WellFormed(s) && dir in s.dirs && page < PAGES && HasTable(s.mem, dir, page / LENGTH)
    requires TableOf(s.mem, dir, page / LENGTH) == f
    requires Opened(s, view, f, o) && (f == KERNEL ==> DirectorySeen(s, o))
    ensures Live(Word(o.mem, f, page % LENGTH)) == Shown(s, dir, page)
  {
    TableInMemory(s, dir, page);
    if page / LENGTH != SELF {
      EntrySeen(s, o, dir, page, f, view);
    } else if dir != KERNEL {
      UserEntrySeen(s, o, dir, page, view);
    }
  }

  lemma ShownIsLive(s: Space, dir: nat, page: nat)
    requires WellFormed(s) && dir in s.dirs && page < PAGES
    ensures Shown(s, dir, page) != 0 <==> Present(Shown(s, dir, page))
  {
    if Misread(s, dir, page) {
      if page / LENGTH == SELF {
        if |s.pool| > 0 { FrameAndFlags(s.pool[0], 7); }
      } else {
        FrameAndFlags(TableOf(s.mem, KERNEL, page / LENGTH), 3);
      }
    }
  }

  // An entry of the directory is misread only where the window takes a frame.
  lemma MisreadTakes(s: Space, dir: nat, page: nat)
    requires WellFormed(s) && dir in s.dirs && page < PAGES && Misread(s, dir, page)
    requires |s.pool| >= |ReadTables(s.mem, dir, page)|
    ensures page / LENGTH == SELF ==> |s.pool| > 0
  {
    if page / LENGTH == SELF {
      SelfSeen(s, KERNEL, page);
      SlotOfPage(page);
      NextFreeAt(s.mem, LOWER, page % LENGTH * LENGTH);
    }
  }

  // ---- A user's search ----

  lemma UserWord(s: Space, r: Space, dir: nat, slot: nat)
    requires WellFormed(s) && KeepsUsers(s, r) && dir in s.dirs && dir != KERNEL
    ensures Word(r.mem, dir, slot) == Word(s.mem, dir, slot)
  {
    NotInPool(s, dir);
    assert r.mem[dir] == s.mem[dir];
  }

  // The frame of a user's table, or of the directory itself.
  lemma UserFrame(s: Space, r: Space, dir: nat, slot: nat, f: nat)
    requires WellFormed(s) && WellFormed(r) && KeepsUsers(s, r) && dir in s.dirs && dir != KERNEL && slot < LENGTH
    requires HasTable(s.mem, dir, slot) && f == TableOf(s.mem, dir, slot)
    ensures f in s.mem && f != KERNEL && (f in s.owner ==> s.owner[f].0 != KERNEL) && f !in s.pool
    ensures f in r.mem && r.mem[f] == s.mem[f]
  {
    if slot == SELF {
      assert Word(s.mem, dir, SELF) == dir * 4096 + 3;
      FrameAndFlags(dir, 3);
      NotInPool(s, dir);
    } else {
      UserTableOwned(s, dir, slot, f);
    }
    assert r.mem[f] == s.mem[f];
  }

  // What is read through the window is what the table held at the start.
  lemma UserWords(s: Space, m: Space, o: Space, dir: nat, slot: nat, f: nat, page: nat)
    requires WellFormed(s) && Quiet(s, m) && dir in s.dirs && dir != KERNEL && slot < LENGTH
    requires HasTable(s.mem, dir, slot) && f == TableOf(s.mem, dir, slot) && Opened(m, page, f, o)
    ensures WordsOf(o.mem, FrameOf(Lookup(o.mem, KERNEL, page))) == WordsOf(s.mem, f)
  {
    UsersThen(s, m, o);
    UserFrame(s, o, dir, slot, f);
  }

  // The state of a search through windows; only the first window can need a table.
  ghost predicate Looking(s: Space, r: Space, window: nat, dir: nat, looked: bool) {
    && WellFormed(s) && Room(s.mem) && dir in s.dirs && dir != KERNEL && window < SELF * LENGTH
    && Quiet(s, r) && Visible(r.mem, window, dir)
    && (looked ==>
        && Takes(s, r, NOTHING, WindowTables(s.mem)) && WindowTables(r.mem) == []
        && NextFree(r.mem, LOWER) == NextFree(s.mem, LOWER))
    && (!looked ==> r == s)
  }

  lemma LookedAgain(s: Space, m: Space, o: Space, r: Space, window: nat, dir: nat, looked: bool, f: nat, page: nat)
    requires Looking(s, m, window, dir, looked) && Opened(m, page, f, o) && Closed(o, page, r)
    ensures Looking(s, r, window, dir, true)
  {
    LookedThrough(m, page, f, o, r);
    QuietThen(s, m, r);
    StillOpen(m, r, NOTHING, window, dir);
    if looked {
      TakesThen(s, m, r, NOTHING, NOTHING, WindowTables(s.mem), []);
      assert WindowTables(s.mem) + [] == WindowTables(s.mem);
    }
  }

  // The loop of a search stands at a page.
  ghost predicate Searching(s: Space, r: Space, window: nat, dir: nat, v: View, q: Request, looked: bool,
                            table: nat, page: nat, found: nat, regionStart: nat, pos: nat, base: nat) {
    && Looking(s, r, window, dir, looked) && (looked <==> LooksIn(s.mem, dir, q.lower / LENGTH, table))
    && Cursor(v, q, table, page, found, regionStart, pos, base)
  }

  lemma SearchStart(s: Space, window: nat, dir: nat, v: View, q: Request)
    requires WellFormed(s) && Room(s.mem) && dir in s.dirs && dir != KERNEL && window < SELF * LENGTH
    requires Visible(s.mem, window, dir)
    requires Regular(v) && Proper(q)
    ensures Searching(s, s, window, dir, v, q, false, q.lower / LENGTH, q.lower % LENGTH, 0, 0, q.lower, q.lower)
  {
    CursorStart(v, q);
    NoEffect(s);
  }

  lemma SearchNext(s: Space, r: Space, window: nat, dir: nat, v: View, q: Request, looked: bool,
                   table: nat, found: nat, regionStart: nat, pos: nat, base: nat)
    requires q.lower / LENGTH <= table && (looked <==> LooksIn(s.mem, dir, q.lower / LENGTH, table))
    requires Looking(s, r, window, dir, looked || HasTable(s.mem, dir, table))
    requires Cursor(v, q, table + 1, 0, found, regionStart, pos, base)
    ensures Searching(s, r, window, dir, v, q, looked || HasTable(s.mem, dir, table),
                      table + 1, 0, found, regionStart, pos, base)
  {
    LooksNext(s.mem, dir, q.lower / LENGTH, table);
  }

  // A table of the directory is among the slots from `first` up to `end`.
  ghost predicate LooksIn(mem: Memory, dir: nat, first: nat, end: nat) {
    exists slot: nat :: first <= slot < end && HasTable(mem, dir, slot)
  }

  lemma LooksNext(mem: Memory, dir: nat, first: nat, end: nat)
    requires first <= end
    ensures LooksIn(mem, dir, first, end + 1) <==> LooksIn(mem, dir, first, end) || HasTable(mem, dir, end)
  {
  }

  // The search looks at a table.
  ghost predicate Looks(mem: Memory, dir: nat, q: Request) {
    exists slot: nat :: Visited(ViewOf(mem, dir), q, slot) && HasTable(mem, dir, slot)
  }

  ghost function SearchTables(mem: Memory, dir: nat, q: Request): seq<(nat, nat)> {
    if Looks(mem, dir, q) then WindowTables(mem) else []
  }

  // The window onto a table that is visited was paid for.
  lemma VisitPaid(s: Space, dir: nat, q: Request, table: nat, page: nat, found: nat, regionStart: nat, pos: nat,
                  base: nat)
    requires Cursor(ViewOf(s.mem, dir), q, table, page, found, regionStart, pos, base) && Goes(q, table, found)
    requires table < LENGTH
    requires HasTable(s.mem, dir, table) && |s.pool| >= |SearchTables(s.mem, dir, q)|
    ensures |s.pool| >= |WindowTables(s.mem)|
  {
    CursorVisits(ViewOf(s.mem, dir), q, table, page, found, regionStart, pos, base);
  }

  lemma SearchEnds(s: Space, r: Space, window: nat, dir: nat, q: Request, table: nat, looked: bool)
    requires Looking(s, r, window, dir, looked) && (looked <==> LooksIn(s.mem, dir, q.lower / LENGTH, table))
    requires forall slot: nat :: Visited(ViewOf(s.mem, dir), q, slot) <==> q.lower / LENGTH <= slot < table
    ensures Takes(s, r, NOTHING, SearchTables(s.mem, dir, q))
    ensures WindowTables(r.mem) == if Looks(s.mem, dir, q) then [] else WindowTables(s.mem)
  {
    if looked {
      var slot: nat :| q.lower / LENGTH <= slot < table && HasTable(s.mem, dir, slot);
      assert Visited(ViewOf(s.mem, dir), q, slot);
    } else {
      TakesNothing(s, s);
    }
    if Looks(s.mem, dir, q) {
      var slot: nat :| Visited(ViewOf(s.mem, dir), q, slot) && HasTable(s.mem, dir, slot);
      assert q.lower / LENGTH <= slot < table;
    }
  }

  // The search changed nothing but for the table of its windows, and answered.
  ghost predicate Answered(s: Space, r: Space, window: nat, dir: nat, q: Request, start: nat) {
    && Quiet(s, r) && Visible(r.mem, window, dir) && Takes(s, r, NOTHING, SearchTables(s.mem, dir, q))
    && WindowTables(r.mem) == (if Looks(s.mem, dir, q) then [] else WindowTables(s.mem))
    && (start != 0 ==> Found(ViewOf(s.mem, dir), q, start)) && (start == 0 ==> NotFound(ViewOf(s.mem, dir), q))
  }

  lemma SearchDone(s: Space, r: Space, window: nat, dir: nat, q: Request, looked: bool,
                   table: nat, page: nat, found: nat, regionStart: nat, pos: nat, base: nat, answer: nat)
    requires Searching(s, r, window, dir, ViewOf(s.mem, dir), q, looked, table, page, found, regionStart, pos, base)
    requires table == LENGTH || !Goes(q, table, found)
    requires answer == if found >= q.pages && Accepted(q, regionStart) then regionStart else 0
    ensures Answered(s, r, window, dir, q, answer)
  {
    CursorOut(ViewOf(s.mem, dir), q, table, page, found, regionStart, pos, base);
    SearchEnds(s, r, window, dir, q, table, looked);
  }

  // ---- Allocation ----

  ghost function RunOf(dir: nat, start: nat, pages: nat): Pages {
    if start == 0 then NOTHING else Pages(dir, start, pages)
  }

  // What the search and the run take while the directory's window is open.
  ghost function FillTables(mem: Memory, dir: nat, q: Request, start: nat, base: nat, window: seq<(nat, nat)>)
      : seq<(nat, nat)>
  {
    var t := RunOf(dir, start, q.pages);
    if Looks(mem, dir, q) then window + RunTables(mem, t, base, 4096, t.count, [])
    else RunTables(mem, t, base, 4096, t.count, window)
  }

  // The tables that allocating the run at `start` takes, or finding none.
  ghost function AllocTables(mem: Memory, dir: nat, q: Request, start: nat, base: nat): seq<(nat, nat)> {
    if dir == KERNEL then FillTables(mem, dir, q, start, base, [])
    else WindowTables(mem) + FillTables(mem, dir, q, start, base, SecondTables(mem))
  }

  // The pool has the frames for what is found.
  ghost predicate Filling(s: Space, dir: nat, q: Request, base: nat, window: seq<(nat, nat)>) {
    && |s.pool| >= |FillTables(s.mem, dir, q, 0, base, window)|
    && forall start: nat {:trigger Found(ViewOf(s.mem, dir), q, start)} :: Found(ViewOf(s.mem, dir), q, start) ==>
        |s.pool| >= |FillTables(s.mem, dir, q, start, base, window)|
  }

  ghost predicate Affordable(s: Space, dir: nat, q: Request, base: nat) {
    && |s.pool| >= |AllocTables(s.mem, dir, q, 0, base)|
    && forall start: nat {:trigger Found(ViewOf(s.mem, dir), q, start)} :: Found(ViewOf(s.mem, dir), q, start) ==>
        |s.pool| >= |AllocTables(s.mem, dir, q, start, base)|
  }

  ghost predicate Allocated(s: Space, dir: nat, frame: nat, flags: nat, q: Request, start: nat, r: Space,
                            taken: seq<(nat, nat)>)
  {
    && WellFormed(r) && Effect(s, r, RunOf(dir, start, q.pages), NOTHING)
    && Takes(s, r, RunOf(dir, start, q.pages), taken)
    && (start == 0 ==> NotFound(ViewOf(s.mem, dir), q))
    && (start != 0 ==>
        && Found(ViewOf(s.mem, dir), q, start)
        && RunShown(s, r, Pages(dir, start, q.pages), frame * 4096 + flags, 4096, q.pages))
  }

  // The search has come to its answer.
  ghost predicate Searched(s: Space, m: Space, dir: nat, frame: nat, flags: nat, q: Request, start: nat) {
    && WellFormed(s) && WellFormed(m) && Effect(s, m, NOTHING, NOTHING) && Allocable(m, dir, frame, flags, q)
    && Allocable(s, dir, frame, flags, q)
    && ViewOf(m.mem, dir) == ViewOf(s.mem, dir)
    && (start == 0 ==> NotFound(ViewOf(s.mem, dir), q)) && (start != 0 ==> Found(ViewOf(s.mem, dir), q, start))
    && (forall x: nat :: x < LENGTH ==> (HasTable(m.mem, dir, x) <==> HasTable(s.mem, dir, x)))
    && (dir == KERNEL ==> m == s)
    && (dir != KERNEL ==>
        && Takes(s, m, NOTHING, SearchTables(s.mem, dir, q))
        && WindowTables(m.mem) == if Looks(s.mem, dir, q) then [] else WindowTables(s.mem))
  }

  ghost function OpenTables(mem: Memory, dir: nat): seq<(nat, nat)> {
    if dir == KERNEL then [] else WindowTables(mem)
  }

  lemma SearchedUser(s: Space, m: Space, window: nat, dir: nat, frame: nat, flags: nat, q: Request, start: nat)
    requires WellFormed(s) && Allocable(s, dir, frame, flags, q) && dir != KERNEL
    requires Answered(s, m, window, dir, q, start)
    ensures Searched(s, m, dir, frame, flags, q, start)
  {
    AllocableStill(s, m, dir, frame, flags, q);
    UserTablesKept(s, m, dir);
  }

  lemma NoneFound(s: Space, m: Space, dir: nat, frame: nat, flags: nat, q: Request)
    requires Searched(s, m, dir, frame, flags, q, 0)
    ensures Allocated(s, dir, frame, flags, q, 0, m,
                      FillTables(s.mem, dir, q, 0, frame * 4096 + flags, OpenTables(s.mem, dir)))
  {
    assert RunTables(s.mem, NOTHING, frame * 4096 + flags, 4096, 0, []) == [];
    assert FillTables(s.mem, dir, q, 0, frame * 4096 + flags, OpenTables(s.mem, dir)) ==
      if dir != KERNEL && Looks(s.mem, dir, q) then WindowTables(s.mem) else [];
    TakesNothing(s, s);
  }

  // The run that was found can be mapped.
  lemma RunFits(s: Space, m: Space, dir: nat, frame: nat, flags: nat, q: Request, start: nat)
    requires Searched(s, m, dir, frame, flags, q, start) && start != 0
    requires Filling(s, dir, q, frame * 4096 + flags, OpenTables(s.mem, dir))
    ensures var t, base := Pages(dir, start, q.pages), frame * 4096 + flags;
      && Placeable(m, t) && CellsOk(m, t, base, 4096) && CellsOk(s, t, base, 4096)
      && |m.pool| >= |RunTables(m.mem, t, base, 4096, t.count, OpenTables(m.mem, dir))|
      && FillTables(s.mem, dir, q, start, base, OpenTables(s.mem, dir)) ==
          (if dir == KERNEL then [] else SearchTables(s.mem, dir, q)) +
          RunTables(m.mem, t, base, 4096, t.count, OpenTables(m.mem, dir))
  {
    var t, base := Pages(dir, start, q.pages), frame * 4096 + flags;
    HitPlaceable(m, dir, q, start);
    RunTablesSame(m.mem, s.mem, t, base, 4096, t.count, OpenTables(m.mem, dir));
  }

  lemma RunFilled(s: Space, m: Space, r: Space, dir: nat, frame: nat, flags: nat, q: Request, start: nat,
                  taken: seq<(nat, nat)>)
    requires Searched(s, m, dir, frame, flags, q, start) && start != 0
    requires RunDone(m, r, Pages(dir, start, q.pages), frame * 4096 + flags, 4096, taken)
    requires CellsOk(m, Pages(dir, start, q.pages), frame * 4096 + flags, 4096)
    requires CellsOk(s, Pages(dir, start, q.pages), frame * 4096 + flags, 4096)
    ensures Allocated(s, dir, frame, flags, q, start, r,
                      (if dir == KERNEL then [] else SearchTables(s.mem, dir, q)) + taken)
  {
    var t := Pages(dir, start, q.pages);
    EffectWithin(s, m, NOTHING, NOTHING, t, NOTHING);
    EffectThen(s, m, r, t, NOTHING);
    ShownFrom(s, m, r, t, frame * 4096 + flags, 4096);
    if dir == KERNEL {
      assert [] + taken == taken;
    } else {
      TakesWithin(s, m, NOTHING, t, SearchTables(s.mem, dir, q));
      TakesThen(s, m, r, t, NOTHING, SearchTables(s.mem, dir, q), taken);
    }
  }

  // ---- With the directory's window ----

  lemma AllocOpened(s: Space, o: Space, dir: nat, frame: nat, flags: nat, q: Request, window: nat)
    requires WellFormed(s) && dir != KERNEL && Allocable(s, dir, frame, flags, q) && Opened(s, window, dir, o)
    requires Roomy(s.mem)
    requires Affordable(s, dir, q, frame * 4096 + flags)
    ensures Allocable(o, dir, frame, flags, q) && ViewOf(o.mem, dir) == ViewOf(s.mem, dir)
    ensures WindowTables(o.mem) == SecondTables(s.mem)
    ensures Filling(o, dir, q, frame * 4096 + flags, WindowTables(o.mem))
  {
    AllocableStill(s, o, dir, frame, flags, q);
    SecondWindow(s, window, dir, o);
    UserTablesKept(s, o, dir);
    StillAffordable(s, o, dir, frame, flags, q);
  }

  lemma StillAffordable(s: Space, o: Space, dir: nat, frame: nat, flags: nat, q: Request)
    requires dir != KERNEL && Allocable(s, dir, frame, flags, q) && ViewOf(o.mem, dir) == ViewOf(s.mem, dir)
    requires forall x: nat {:trigger HasTable(o.mem, dir, x)} :: HasTable(o.mem, dir, x) <==> HasTable(s.mem, dir, x)
    requires Affordable(s, dir, q, frame * 4096 + flags) && |o.pool| + |WindowTables(s.mem)| == |s.pool|
    ensures Filling(o, dir, q, frame * 4096 + flags, SecondTables(s.mem))
  {
    FillSame(s, o, dir, frame, flags, q, 0, SecondTables(s.mem));
    forall start: nat | Found(ViewOf(o.mem, dir), q, start)
      ensures |o.pool| >= |FillTables(o.mem, dir, q, start, frame * 4096 + flags, SecondTables(s.mem))|
    {
      FillSame(s, o, dir, frame, flags, q, start, SecondTables(s.mem));
    }
  }

  lemma FillSame(s: Space, o: Space, dir: nat, frame: nat, flags: nat, q: Request, start: nat, window: seq<(nat, nat)>)
    requires Allocable(s, dir, frame, flags, q) && ViewOf(o.mem, dir) == ViewOf(s.mem, dir)
    requires forall x: nat {:trigger HasTable(o.mem, dir, x)} :: HasTable(o.mem, dir, x) <==> HasTable(s.mem, dir, x)
    requires start == 0 || Found(ViewOf(s.mem, dir), q, start)
    ensures FillTables(o.mem, dir, q, start, frame * 4096 + flags, window) ==
      FillTables(s.mem, dir, q, start, frame * 4096 + flags, window)
  {
    var t := RunOf(dir, start, q.pages);
    if start != 0 {
      RunTablesSame(o.mem, s.mem, t, frame * 4096 + flags, 4096, t.count, []);
      RunTablesSame(o.mem, s.mem, t, frame * 4096 + flags, 4096, t.count, window);
    }
    SameLooks(s.mem, o.mem, dir, q);
  }

  lemma SameLooks(a: Memory, b: Memory, dir: nat, q: Request)
    requires ViewOf(a, dir) == ViewOf(b, dir)
    requires forall x: nat {:trigger HasTable(b, dir, x)} :: HasTable(b, dir, x) <==> HasTable(a, dir, x)
    ensures Looks(a, dir, q) <==> Looks(b, dir, q)
  {
  }

  lemma AllocatedOpen(o: Space, dir: nat, frame: nat, flags: nat, q: Request, start: nat, m: Space,
                      taken: seq<(nat, nat)>, window: nat)
    requires Allocated(o, dir, frame, flags, q, start, m, taken) && dir != KERNEL && KERNEL in o.dirs
    requires window < SELF * LENGTH && Visible(o.mem, window, dir)
    ensures HasTable(m.mem, KERNEL, window / LENGTH)
  {
    StillOpen(o, m, RunOf(dir, start, q.pages), window, dir);
  }

  lemma AllocatedClosed(s: Space, o: Space, dir: nat, frame: nat, flags: nat, q: Request, start: nat, m: Space,
                        taken: seq<(nat, nat)>, window: nat, r: Space)
    requires WellFormed(s) && dir != KERNEL && Allocable(s, dir, frame, flags, q) && Opened(s, window, dir, o)
    requires Allocable(o, dir, frame, flags, q) && ViewOf(o.mem, dir) == ViewOf(s.mem, dir)
    requires Allocated(o, dir, frame, flags, q, start, m, taken) && Closed(m, window, r)
    requires taken == FillTables(o.mem, dir, q, start, frame * 4096 + flags, SecondTables(s.mem))
    ensures Allocated(s, dir, frame, flags, q, start, r, AllocTables(s.mem, dir, q, start, frame * 4096 + flags))
  {
    UserTablesKept(s, o, dir);
    FillSame(s, o, dir, frame, flags, q, start, SecondTables(s.mem));
    if start == 0 {
      WindowDone(s, window, dir, o, m, r, NOTHING, taken);
    } else {
      RunClosed(s, o, m, r, Pages(dir, start, q.pages), frame * 4096 + flags, 4096, window, taken);
    }
  }

  // What is promised of an allocation, exactly when it holds.
  ghost predicate AllocExact(s: Space, dir: nat, frame: nat, flags: nat, q: Request, start: nat, r: Space,
                             taken: seq<(nat, nat)>)
  {
    var t := RunOf(dir, start, q.pages);
    if start == 0 then SameOutside(s, r, NOTHING) <==> CleanFrames(s, NOTHING, taken)
    else RangeMapped(s, r, t, frame * 4096 + flags, 4096) <==>
      CleanFrames(s, t, taken) && FramesFit(s, t, frame * 4096 + flags, 4096)
  }

  lemma AllocatedExactly(s: Space, dir: nat, frame: nat, flags: nat, q: Request, start: nat, r: Space,
                         taken: seq<(nat, nat)>)
    requires Allocable(s, dir, frame, flags, q) && Allocated(s, dir, frame, flags, q, start, r, taken)
    ensures AllocExact(s, dir, frame, flags, q, start, r, taken)
    ensures start != 0 ==> start + q.pages <= q.upper || start + q.pages == PAGES
  {
    if start != 0 { AcceptedMeans(ViewOf(s.mem, dir), q, start); }
    if start != 0 {
      RangeMappedExactly(s, r, Pages(dir, start, q.pages), frame * 4096 + flags, 4096, taken);
    } else {
      KeptExactly(s, r, NOTHING, taken);
    }
  }

  // One table for each slot of the run and one for each of the two windows are enough.
  lemma AllocBound(s: Space, dir: nat, frame: nat, flags: nat, q: Request, start: nat)
    requires Allocable(s, dir, frame, flags, q) && (start == 0 || Found(ViewOf(s.mem, dir), q, start))
    ensures |AllocTables(s.mem, dir, q, start, frame * 4096 + flags)| <= q.pages / LENGTH + 4
  {
    var t, base := RunOf(dir, start, q.pages), frame * 4096 + flags;
    if start != 0 {
      RunTablesBound(s, t, base, 4096, t.count, []);
      RunTablesBound(s, t, base, 4096, t.count, SecondTables(s.mem));
      assert (start + q.pages - 1) / LENGTH - start / LENGTH <= q.pages / LENGTH + 1;
    }
  }
}
