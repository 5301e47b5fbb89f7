// Runs of pages and what is promised of them: page from + m of a directory gets the
// word base + m * step. A run that meets slot 0xFF writes the directory's own entries
// on the way, and frames that hold data stand in for page tables.

module PageRanges {
  import opened PageTable
  import opened FreePages
  import opened AddressSpace
  import opened Windows

  ghost function WordFor(t: Pages, base: nat, step: nat, q: nat): nat {
    if q >= t.from then base + (q - t.from) * step else 0
  }

  ghost predicate Placeable(s: Space, t: Pages) {
    t.dir in s.dirs && t.from + t.count <= PAGES && !In(t, KERNEL, 1)
  }

  // The run meets slot 0xFF.
  ghost predicate Meets(t: Pages) {
    exists q: nat :: In(t, t.dir, q) && q / LENGTH == SELF
  }

  lemma ClearExactly(t: Pages)
    requires t.from + t.count <= PAGES
    ensures Clear(t) <==> !Meets(t)
  {
    if q: nat :| In(t, t.dir, q) && q / LENGTH == SELF {
      var slot := q % LENGTH;
      assert q == SELF * LENGTH + slot;
      assert Cell(t, t.dir, slot);
    } else {
      forall slot | 0 <= slot < LENGTH ensures !Cell(t, t.dir, slot) {
        assert (SELF * LENGTH + slot) / LENGTH == SELF;
      }
    }
  }

  // ---- The entries of the directory that a run writes ----

  // Page q of slot 0xFF is neither the directory's entry for itself nor the kernel's
  // for its first table. Its frame is plain, or the table that is removed is not
  // needed for a later page of the run.
  ghost predicate CellOk(s: Space, t: Pages, base: nat, step: nat, q: nat) {
    && q != SELF * LENGTH + SELF && (t.dir == KERNEL ==> q != SELF * LENGTH)
    && if Present(WordFor(t, base, step, q)) then Plain(s, FrameOf(WordFor(t, base, step, q)))
       else q % LENGTH < SELF || t.from + t.count <= q % LENGTH * LENGTH
  }

  ghost predicate CellsOk(s: Space, t: Pages, base: nat, step: nat) {
    && (forall q: nat {:trigger CellOk(s, t, base, step, q)} :: In(t, t.dir, q) && q / LENGTH == SELF ==>
        CellOk(s, t, base, step, q))
    && (forall q: nat, r: nat {:trigger WordFor(t, base, step, q), WordFor(t, base, step, r)} ::
          In(t, t.dir, q) && In(t, t.dir, r) && q / LENGTH == SELF && r / LENGTH == SELF && q < r
          && Present(WordFor(t, base, step, q)) && Present(WordFor(t, base, step, r)) ==>
            FrameOf(WordFor(t, base, step, q)) != FrameOf(WordFor(t, base, step, r)))
  }

  // The frames still to come are as they were at the start.
  ghost predicate CellsAhead(s: Space, now: Space, t: Pages, base: nat, step: nat, k: nat) {
    forall q: nat {:trigger CellOk(now, t, base, step, q)} ::
      t.from + k <= q < t.from + t.count && q / LENGTH == SELF ==>
      && CellOk(now, t, base, step, q)
      && (Present(WordFor(t, base, step, q)) ==> SameFrame(s, now, FrameOf(WordFor(t, base, step, q))))
  }

  ghost predicate SameFrame(s: Space, now: Space, f: nat) {
    Plain(s, f) && f in now.mem && now.mem[f] == s.mem[f]
  }

  // ---- One page ----

  // Only the slot of the page gets a table, and only its entry is removed.
  ghost predicate Entries(s: Space, dir: nat, page: nat, word: nat, r: Space) {
    forall x: nat {:trigger HasTable(r.mem, dir, x)} :: x < LENGTH && x != SELF ==>
      (HasTable(r.mem, dir, x) <==>
       if page == SELF * LENGTH + x then Present(word) else HasTable(s.mem, dir, x) || x == page / LENGTH)
  }

  ghost predicate MappedOne(s: Space, dir: nat, page: nat, word: nat, r: Space) {
    && WellFormed(r) && Effect(s, r, Pages(dir, page, 1), NOTHING) && Entries(s, dir, page, word, r)
    && if page / LENGTH == SELF then EntrySet(s, dir, page % LENGTH, word, r)
       else Lookup(r.mem, dir, page) == Live(word) && OwnersGrow(s, r)
  }

  // The tables that mapping one page needs, while the directory's window is open.
  ghost function OneTables(mem: Memory, dir: nat, page: nat): seq<(nat, nat)> {
    TableFor(mem, dir, page) + (if dir == KERNEL then [] else WindowTables(mem))
  }

  lemma EntriesOf(s: Space, dir: nat, page: nat, word: nat, r: Space, taken: seq<(nat, nat)>)
    requires dir in s.dirs && page < PAGES && Effect(s, r, Pages(dir, page, 1), NOTHING)
    requires Takes(s, r, Pages(dir, page, 1), taken)
    requires page / LENGTH == SELF ==> (HasTable(r.mem, dir, page % LENGTH) <==> Present(word))
    requires page / LENGTH != SELF ==> HasTable(r.mem, dir, page / LENGTH)
    requires forall x: nat :: (dir, x) in taken ==> x == page / LENGTH
    ensures Entries(s, dir, page, word, r)
  {
    forall x: nat | x < LENGTH && x != SELF
      ensures HasTable(r.mem, dir, x) <==>
        if page == SELF * LENGTH + x then Present(word) else HasTable(s.mem, dir, x) || x == page / LENGTH
    {
      if page == SELF * LENGTH + x {
        assert page / LENGTH == SELF && page % LENGTH == x;
      } else {
        assert !Cell(Pages(dir, page, 1), dir, x);
        assert KeepsTable(s, r, dir, x);
        assert NewTable(s, r, dir, x) ==> (dir, x) in taken;
      }
    }
  }

  lemma OwnerAfter(s: Space, dir: nat, page: nat, word: nat, r: Space, f: nat)
    requires MappedOne(s, dir, page, word, r) && Plain(s, f)
    requires page / LENGTH == SELF && Present(word) ==> f != FrameOf(word)
    ensures Plain(r, f) && r.mem[f] == s.mem[f]
  {
    assert f !in r.owner;
    PlainStays(s, r, f);
  }

  lemma AheadStep(s: Space, now: Space, r: Space, t: Pages, base: nat, step: nat, k: nat)
    requires k < t.count && CellsOk(s, t, base, step) && CellsAhead(s, now, t, base, step, k)
    requires MappedOne(now, t.dir, t.from + k, WordFor(t, base, step, t.from + k), r)
    ensures CellsAhead(s, r, t, base, step, k + 1)
  {
    var p := t.from + k;
    forall q: nat | p < q < t.from + t.count && q / LENGTH == SELF
      ensures CellOk(r, t, base, step, q)
      ensures Present(WordFor(t, base, step, q)) ==> SameFrame(s, r, FrameOf(WordFor(t, base, step, q)))
    {
      assert CellOk(now, t, base, step, q);
      if Present(WordFor(t, base, step, q)) {
        OwnerAfter(now, t.dir, p, WordFor(t, base, step, p), r, FrameOf(WordFor(t, base, step, q)));
      }
    }
  }

  // ---- What a run of pages shows ----

  ghost predicate Done(t: Pages, k: nat, q: nat) {
    t.from <= q < t.from + k
  }

  // One of the first k pages lies in a slot.
  ghost predicate Reaches(t: Pages, k: nat, slot: nat) {
    0 < k && t.from < (slot + 1) * LENGTH && slot * LENGTH < t.from + k
  }

  // The slot has a table after k pages.
  ghost predicate HasAfter(mem: Memory, t: Pages, base: nat, step: nat, k: nat, slot: nat) {
    var cell := SELF * LENGTH + slot;
    if Done(t, k, cell) then Present(WordFor(t, base, step, cell))
    else HasTable(mem, t.dir, slot) || Reaches(t, k, slot)
  }

  ghost predicate TablesShown(s: Space, r: Space, t: Pages, base: nat, step: nat, k: nat) {
    forall x: nat {:trigger HasTable(r.mem, t.dir, x)} :: x < LENGTH && x != SELF ==>
      (HasTable(r.mem, t.dir, x) <==> HasAfter(s.mem, t, base, step, k, x))
  }

  lemma TablesStep(s: Space, now: Space, r: Space, t: Pages, base: nat, step: nat, k: nat)
    requires k < t.count && t.from + t.count <= PAGES && CellsOk(s, t, base, step)
    requires TablesShown(s, now, t, base, step, k)
    requires Entries(now, t.dir, t.from + k, WordFor(t, base, step, t.from + k), r)
    ensures TablesShown(s, r, t, base, step, k + 1)
  {
    forall x: nat | x < LENGTH && x != SELF
      ensures HasTable(r.mem, t.dir, x) <==> HasAfter(s.mem, t, base, step, k + 1, x)
    {
      TableStep(s, now, r, t, base, step, k, x);
    }
  }

  lemma TableStep(s: Space, now: Space, r: Space, t: Pages, base: nat, step: nat, k: nat, x: nat)
    requires k < t.count && t.from + t.count <= PAGES && CellsOk(s, t, base, step) && x < LENGTH && x != SELF
    requires HasTable(now.mem, t.dir, x) <==> HasAfter(s.mem, t, base, step, k, x)
    requires Entries(now, t.dir, t.from + k, WordFor(t, base, step, t.from + k), r)
    ensures HasTable(r.mem, t.dir, x) <==> HasAfter(s.mem, t, base, step, k + 1, x)
  {
    var p, cell := t.from + k, SELF * LENGTH + x;
    assert cell / LENGTH == SELF && cell % LENGTH == x;
    if Done(t, k, cell) {
      assert In(t, t.dir, cell) && CellOk(s, t, base, step, cell);
      assert x == p / LENGTH ==> p >= x * LENGTH;
    }
    assert Reaches(t, k + 1, x) <==> Reaches(t, k, x) || x == p / LENGTH;
  }

  // After k pages: its word, or what the frame holds that stands in for its table. A
  // page above slot 0xFF is written after that frame, a page below it before.
  ghost function Expected(s: Space, t: Pages, base: nat, step: nat, k: nat, q: nat): nat {
    var cell := SELF * LENGTH + q / LENGTH;
    if Done(t, k, cell) && !(q / LENGTH > SELF && Done(t, k, q)) then
      EntryShows(s.mem, WordFor(t, base, step, cell), q % LENGTH)
    else Live(WordFor(t, base, step, q))
  }

  ghost predicate Determined(t: Pages, k: nat, q: nat) {
    q < PAGES && q / LENGTH != SELF && (Done(t, k, q) || Done(t, k, SELF * LENGTH + q / LENGTH))
  }

  ghost predicate RunShown(s: Space, r: Space, t: Pages, base: nat, step: nat, k: nat) {
    forall q: nat {:trigger Determined(t, k, q)} :: Determined(t, k, q) ==>
      Lookup(r.mem, t.dir, q) == Expected(s, t, base, step, k, q)
  }

  lemma RunStep(s: Space, now: Space, r: Space, t: Pages, base: nat, step: nat, k: nat)
    requires t.dir in now.dirs && k < t.count && CellsOk(s, t, base, step)
    requires t.from + t.count <= PAGES && TablesShown(s, now, t, base, step, k)
    requires RunShown(s, now, t, base, step, k) && CellsAhead(s, now, t, base, step, k)
    requires MappedOne(now, t.dir, t.from + k, WordFor(t, base, step, t.from + k), r)
    ensures RunShown(s, r, t, base, step, k + 1)
  {
    forall q: nat | Determined(t, k + 1, q) ensures Lookup(r.mem, t.dir, q) == Expected(s, t, base, step, k + 1, q) {
      if q == t.from + k {
      } else if SELF * LENGTH + q / LENGTH == t.from + k {
        CellDone(s, now, r, t, base, step, k, q);
      } else {
        assert Determined(t, k, q);
        StaysDone(s, now, r, t, base, step, k, q);
      }
    }
  }

  lemma CellDone(s: Space, now: Space, r: Space, t: Pages, base: nat, step: nat, k: nat, q: nat)
    requires k < t.count && q < PAGES && q / LENGTH != SELF && SELF * LENGTH + q / LENGTH == t.from + k
    requires CellsAhead(s, now, t, base, step, k)
    requires MappedOne(now, t.dir, t.from + k, WordFor(t, base, step, t.from + k), r)
    ensures Lookup(r.mem, t.dir, q) == Expected(s, t, base, step, k + 1, q)
  {
    var p := t.from + k;
    SlotOfPage(q);
    assert p / LENGTH == SELF && p % LENGTH == q / LENGTH;
    assert CellOk(now, t, base, step, p);
    assert Lookup(r.mem, t.dir, q) == EntryShows(now.mem, WordFor(t, base, step, p), q % LENGTH);
    if q / LENGTH > SELF {
      assert q > p;
    }
  }

  // A page that is done shows the same after the next one: its table stays, or the
  // entry that was removed stays removed.
  lemma StaysDone(s: Space, now: Space, r: Space, t: Pages, base: nat, step: nat, k: nat, q: nat)
    requires t.dir in now.dirs && k < t.count && t.from + t.count <= PAGES && CellsOk(s, t, base, step)
    requires Determined(t, k, q)
    requires q != t.from + k && SELF * LENGTH + q / LENGTH != t.from + k
    requires TablesShown(s, now, t, base, step, k) && Lookup(now.mem, t.dir, q) == Expected(s, t, base, step, k, q)
    requires MappedOne(now, t.dir, t.from + k, WordFor(t, base, step, t.from + k), r)
    ensures Lookup(r.mem, t.dir, q) == Expected(s, t, base, step, k + 1, q)
  {
    SlotOfPage(q);
    assert Untouched(now, Pages(t.dir, t.from + k, 1), NOTHING, t.dir, q);
    assert KeepsTable(now, r, t.dir, q / LENGTH);
    NoNewTable(s, now, r, t, base, step, k, q);
  }

  lemma NoNewTable(s: Space, now: Space, r: Space, t: Pages, base: nat, step: nat, k: nat, q: nat)
    requires k < t.count && t.from + t.count <= PAGES && CellsOk(s, t, base, step) && Determined(t, k, q)
    requires SELF * LENGTH + q / LENGTH != t.from + k && TablesShown(s, now, t, base, step, k)
    requires Entries(now, t.dir, t.from + k, WordFor(t, base, step, t.from + k), r)
    ensures !NewTable(now, r, t.dir, q / LENGTH)
  {
    SlotOfPage(q);
    var x, cell := q / LENGTH, SELF * LENGTH + q / LENGTH;
    assert cell / LENGTH == SELF && cell % LENGTH == x;
    if Done(t, k, cell) {
      assert In(t, t.dir, cell) && CellOk(s, t, base, step, cell);
    } else {
      assert Reaches(t, k, x);
    }
  }

  // ---- The tables that a run needs ----

  ghost function PageTables(mem: Memory, t: Pages, base: nat, step: nat, k: nat): seq<(nat, nat)> {
    var slot := (t.from + k) / LENGTH;
    if slot == SELF || HasAfter(mem, t, base, step, k, slot) then [] else [(t.dir, slot)]
  }

  // For the first k pages, where the first page also needs a table for its window.
  ghost function RunTables(mem: Memory, t: Pages, base: nat, step: nat, k: nat, window: seq<(nat, nat)>)
      : seq<(nat, nat)>
  {
    if k == 0 then []
    else
      RunTables(mem, t, base, step, k - 1, window) +
      (PageTables(mem, t, base, step, k - 1) + if k == 1 then window else [])
  }

  // For the whole run, with the window onto the directory.
  ghost function RangeTables(mem: Memory, t: Pages, base: nat, step: nat): seq<(nat, nat)> {
    if t.dir == KERNEL then RunTables(mem, t, base, step, t.count, [])
    else WindowTables(mem) + RunTables(mem, t, base, step, t.count, SecondTables(mem))
  }

  lemma {:induction false} RunTablesGrow(mem: Memory, t: Pages, base: nat, step: nat, k: nat, n: nat,
                                         window: seq<(nat, nat)>)
    requires k <= n
    ensures |RunTables(mem, t, base, step, k, window)| <= |RunTables(mem, t, base, step, n, window)|
  {
    if k < n { RunTablesGrow(mem, t, base, step, k, n - 1, window); }
  }

  lemma {:induction false} RunTablesSame(a: Memory, b: Memory, t: Pages, base: nat, step: nat, k: nat,
                                         window: seq<(nat, nat)>)
    requires forall x: nat :: x < LENGTH ==> (HasTable(a, t.dir, x) <==> HasTable(b, t.dir, x))
    requires t.from + k <= PAGES
    ensures RunTables(a, t, base, step, k, window) == RunTables(b, t, base, step, k, window)
  {
    if k > 0 {
      RunTablesSame(a, b, t, base, step, k - 1, window);
      PageTablesSame(a, b, t, base, step, k - 1);
    }
  }

  lemma PageTablesSame(a: Memory, b: Memory, t: Pages, base: nat, step: nat, k: nat)
    requires forall x: nat :: x < LENGTH ==> (HasTable(a, t.dir, x) <==> HasTable(b, t.dir, x))
    requires t.from + k < PAGES
    ensures PageTables(a, t, base, step, k) == PageTables(b, t, base, step, k)
  {
    SlotOfPage(t.from + k);
  }

  // One table for each slot and one for the window are enough.
  lemma {:induction false} RunTablesBound(s: Space, t: Pages, base: nat, step: nat, k: nat, window: seq<(nat, nat)>)
    requires CellsOk(s, t, base, step) && k <= t.count && t.from + t.count <= PAGES
    ensures |RunTables(s.mem, t, base, step, k, window)| <=
      if k == 0 then 0 else |window| + (t.from + k - 1) / LENGTH - t.from / LENGTH + 1
  {
    if k > 0 {
      RunTablesBound(s, t, base, step, k - 1, window);
      if k > 1 && (t.from + (k - 1)) % LENGTH != 0 {
        NoTableInside(s, t, base, step, k - 1);
      }
    }
  }

  lemma NoTableInside(s: Space, t: Pages, base: nat, step: nat, k: nat)
    requires CellsOk(s, t, base, step) && 0 < k < t.count && t.from + t.count <= PAGES && (t.from + k) % LENGTH != 0
    ensures PageTables(s.mem, t, base, step, k) == []
  {
    var p := t.from + k;
    var x := p / LENGTH;
    var cell := SELF * LENGTH + x;
    assert Reaches(t, k, x);
    if Done(t, k, cell) && cell / LENGTH == SELF && x != SELF {
      assert In(t, t.dir, cell) && CellOk(s, t, base, step, cell) && cell % LENGTH == x;
    }
  }

  // What one page takes is the next of the run.
  lemma PageTaken(s: Space, now: Space, t: Pages, base: nat, step: nat, k: nat)
    requires WellFormed(now) && t.dir in now.dirs && t.from + k < PAGES && TablesShown(s, now, t, base, step, k)
    ensures TableFor(now.mem, t.dir, t.from + k) == PageTables(s.mem, t, base, step, k)
  {
    SlotOfPage(t.from + k);
    if (t.from + k) / LENGTH == SELF { SelfSeen(now, t.dir, t.from + k); }
  }

  // The tables for a single page: one for a window onto the directory, one for the
  // page, and one for a window onto its table.
  ghost function SingleTables(mem: Memory, dir: nat, page: nat): seq<(nat, nat)> {
    if dir == KERNEL then TableFor(mem, dir, page)
    else WindowTables(mem) + (TableFor(mem, dir, page) + SecondTables(mem))
  }

  lemma OnePageTables(s: Space, dir: nat, page: nat, base: nat, step: nat)
    requires WellFormed(s) && dir in s.dirs && page < PAGES
    ensures RangeTables(s.mem, Pages(dir, page, 1), base, step) == SingleTables(s.mem, dir, page)
  {
    var t := Pages(dir, page, 1);
    SlotOfPage(page);
    if page / LENGTH == SELF { SelfSeen(s, dir, page); }
    assert PageTables(s.mem, t, base, step, 0) == TableFor(s.mem, dir, page);
    forall w: seq<(nat, nat)> ensures RunTables(s.mem, t, base, step, 1, w) == TableFor(s.mem, dir, page) + w {
      assert RunTables(s.mem, t, base, step, 0, w) == [];
    }
  }

  // ---- The promise ----

  // The pages of a run hold their words; no other page of any directory differs.
  ghost predicate RangeMapped(s: Space, r: Space, t: Pages, base: nat, step: nat) {
    && SameOutside(s, r, t)
    && forall q: nat {:trigger Lookup(r.mem, t.dir, q)} :: In(t, t.dir, q) && q / LENGTH != SELF ==>
         Lookup(r.mem, t.dir, q) == Live(WordFor(t, base, step, q))
  }

  // The frame that stands in for the table of q shows what q is promised to show.
  ghost predicate FrameFits(s: Space, t: Pages, base: nat, step: nat, q: nat) {
    EntryShows(s.mem, WordFor(t, base, step, SELF * LENGTH + q / LENGTH), q % LENGTH) ==
      if In(t, t.dir, q) then Live(WordFor(t, base, step, q)) else Lookup(s.mem, t.dir, q)
  }

  // Page q depends on what a frame holds.
  ghost predicate Uncovered(t: Pages, q: nat) {
    q < PAGES && q / LENGTH != SELF && Cell(t, t.dir, q / LENGTH) && !(q / LENGTH > SELF && In(t, t.dir, q))
  }

  ghost predicate FramesFit(s: Space, t: Pages, base: nat, step: nat) {
    forall q: nat {:trigger Uncovered(t, q)} :: Uncovered(t, q) ==> FrameFits(s, t, base, step, q)
  }

  // Exactly when a run of pages is mapped as promised: the frames that are taken for
  // tables hold nothing that looks like an entry, and the frames that stand in for
  // tables happen to hold what their pages are promised to show.
  lemma RangeMappedExactly(s: Space, r: Space, t: Pages, base: nat, step: nat, taken: seq<(nat, nat)>)
    requires t.dir in s.dirs && t.from + t.count <= PAGES && Effect(s, r, t, NOTHING)
    requires RunShown(s, r, t, base, step, t.count)
    requires Takes(s, r, t, taken)
    ensures RangeMapped(s, r, t, base, step) <==> CleanFrames(s, t, taken) && FramesFit(s, t, base, step)
  {
    CleanExactly(s, r, t, taken);
    if RangeMapped(s, r, t, base, step) {
      PromisedIsClean(s, r, t);
      PromisedFits(s, r, t, base, step);
    }
    if CleanTables(s, r, t) && FramesFit(s, t, base, step) {
      forall d, q: nat | d in s.dirs && q < PAGES && q / LENGTH != SELF && !In(t, d, q)
        ensures Lookup(r.mem, d, q) == Lookup(s.mem, d, q)
      {
        OutsideKept(s, r, t, base, step, d, q);
      }
      forall q: nat | In(t, t.dir, q) && q / LENGTH != SELF
        ensures Lookup(r.mem, t.dir, q) == Live(WordFor(t, base, step, q))
      {
        assert Determined(t, t.count, q);
        if Uncovered(t, q) { assert FrameFits(s, t, base, step, q); }
      }
    }
  }

  lemma PromisedIsClean(s: Space, r: Space, t: Pages)
    requires Effect(s, r, t, NOTHING) && SameOutside(s, r, t)
    ensures CleanTables(s, r, t)
  {
    forall d, slot: nat, i: nat | d in s.dirs && slot < LENGTH && slot != SELF && NewTable(s, r, d, slot) &&
      CLEARED <= i < LENGTH && !In(t, d, slot * LENGTH + i) && !Cell(t, d, slot)
      ensures !Present(Word(s.mem, TableOf(r.mem, d, slot), i))
    {
      var q := slot * LENGTH + i;
      assert q / LENGTH == slot && q % LENGTH == i;
      assert Untouched(s, t, NOTHING, d, q);
      assert Lookup(r.mem, d, q) == Lookup(s.mem, d, q);
    }
  }

  lemma PromisedFits(s: Space, r: Space, t: Pages, base: nat, step: nat)
    requires t.dir in s.dirs && RangeMapped(s, r, t, base, step) && RunShown(s, r, t, base, step, t.count)
    ensures FramesFit(s, t, base, step)
  {
    forall q: nat | Uncovered(t, q) ensures FrameFits(s, t, base, step, q) {
      assert Determined(t, t.count, q);
      assert Lookup(r.mem, t.dir, q) == Expected(s, t, base, step, t.count, q);
    }
  }

  lemma OutsideKept(s: Space, r: Space, t: Pages, base: nat, step: nat, d: nat, q: nat)
    requires t.dir in s.dirs && Effect(s, r, t, NOTHING) && RunShown(s, r, t, base, step, t.count)
    requires CleanTables(s, r, t) && FramesFit(s, t, base, step)
    requires d in s.dirs && q < PAGES && q / LENGTH != SELF && !In(t, d, q)
    ensures Lookup(r.mem, d, q) == Lookup(s.mem, d, q)
  {
    if Cell(t, d, q / LENGTH) {
      assert Determined(t, t.count, q);
      assert Uncovered(t, q) && FrameFits(s, t, base, step, q);
    } else {
      assert Untouched(s, t, NOTHING, d, q);
      CleanShows(s, r, t, d, q);
    }
  }

  // ---- Whatever the frames hold ----

  // The same space, but for what plain frames hold.
  ghost predicate SameButPlain(s: Space, r: Space) {
    && s.pool == r.pool && s.dirs == r.dirs && s.owner == r.owner && s.mem.Keys == r.mem.Keys && Sized(r.mem)
    && forall f {:trigger r.mem[f]} :: f in s.mem && !Plain(s, f) ==> r.mem[f] == s.mem[f]
  }

  // A page that depends on what a frame holds, in a run that meets the slot and does
  // not go on to the end of the address space.
  lemma SomeUncovered(t: Pages) returns (q: nat)
    requires Meets(t) && t.from + t.count < PAGES && !In(t, t.dir, SELF * LENGTH + SELF)
    ensures Uncovered(t, q)
  {
    var cell: nat :| In(t, t.dir, cell) && cell / LENGTH == SELF;
    var slot := cell % LENGTH;
    assert cell == SELF * LENGTH + slot;
    if slot < SELF {
      q := slot * LENGTH;
      assert q / LENGTH == slot;
    } else if In(t, t.dir, SELF * LENGTH + (LENGTH - 1)) {
      q := PAGES - 1;
      assert q / LENGTH == LENGTH - 1;
    } else {
      q := slot * LENGTH;
      assert q / LENGTH == slot && q > SELF * LENGTH + (LENGTH - 1);
    }
  }

  // A run to the end of the address space writes every page after its frame.
  lemma NoneUncovered(t: Pages, q: nat)
    requires t.from + t.count == PAGES && !In(t, t.dir, SELF * LENGTH + SELF)
    ensures !Uncovered(t, q)
  {
    if q < PAGES && Cell(t, t.dir, q / LENGTH) {
      assert SELF * LENGTH + SELF < t.from <= SELF * LENGTH + q / LENGTH;
    }
  }

  ghost function Other(v: nat): nat {
    if v == 1 then 3 else 1
  }

  // Every page of the run in slot 0xFF is mapped.
  ghost predicate CellsPresent(t: Pages, base: nat, step: nat) {
    forall q: nat {:trigger WordFor(t, base, step, q)} :: In(t, t.dir, q) && q / LENGTH == SELF ==>
      Present(WordFor(t, base, step, q))
  }

  // A run is mapped as promised whatever the frames hold if and only if it does not
  // meet slot 0xFF, or starts above the directory's entry for itself and goes on to
  // the end of the address space.
  lemma WhateverTheFramesHold(s: Space, t: Pages, base: nat, step: nat)
    requires WellFormed(s) && t.dir in s.dirs && t.from + t.count <= PAGES && CellsOk(s, t, base, step)
    requires CellsPresent(t, base, step)
    ensures (forall r: Space :: SameButPlain(s, r) ==> FramesFit(r, t, base, step)) <==>
      (!Meets(t) || t.from + t.count == PAGES)
  {
    ClearExactly(t);
    assert !In(t, t.dir, SELF * LENGTH + SELF) by {
      assert In(t, t.dir, SELF * LENGTH + SELF) ==> CellOk(s, t, base, step, SELF * LENGTH + SELF);
    }
    if Meets(t) && t.from + t.count < PAGES {
      var q := SomeUncovered(t);
      var r := Misfit(s, t, base, step, q);
      assert SameButPlain(s, r) && !FramesFit(r, t, base, step);
    } else {
      forall q: nat ensures !Uncovered(t, q) {
        if t.from + t.count == PAGES { NoneUncovered(t, q); }
      }
    }
  }

  lemma Misfit(s: Space, t: Pages, base: nat, step: nat, q: nat) returns (r: Space)
    requires WellFormed(s) && t.dir in s.dirs && CellsOk(s, t, base, step) && CellsPresent(t, base, step)
    requires Uncovered(t, q)
    ensures SameButPlain(s, r) && !FramesFit(r, t, base, step)
  {
    SlotOfPage(q);
    var cell := SELF * LENGTH + q / LENGTH;
    assert cell / LENGTH == SELF;
    assert CellOk(s, t, base, step, cell);
    var f := FrameOf(WordFor(t, base, step, cell));
    var v := if In(t, t.dir, q) then Live(WordFor(t, base, step, q)) else Lookup(s.mem, t.dir, q);
    var words: seq<nat> := seq(LENGTH, _ => Other(v));
    r := Filled(s, f, words);
    assert Owned(s, t.dir, q / LENGTH);
    assert Word(r.mem, f, q % LENGTH) == Other(v);
    assert !FrameFits(r, t, base, step, q);
  }

  // ---- Allocation ----

  // The run that the search comes to ends with the address space at the latest, spares
  // the entries that the directory cannot do without, and maps plain frames where it
  // meets slot 0xFF.
  ghost predicate Allocable(s: Space, dir: nat, frame: nat, flags: nat, q: Request) {
    && dir in s.dirs && Proper(q) && flags < 4096
    && forall start: nat {:trigger Found(ViewOf(s.mem, dir), q, start)} :: Found(ViewOf(s.mem, dir), q, start) ==>
        start + q.pages <= PAGES && CellsOk(s, Pages(dir, start, q.pages), frame * 4096 + flags, 4096)
  }

  // Of plain frames this is all that has to be asked.
  lemma PlainIsEnough(s: Space, t: Pages, frame: nat, flags: nat)
    requires flags < 4096 && Present(flags) && !In(t, t.dir, SELF * LENGTH + SELF)
    requires t.dir == KERNEL ==> !In(t, KERNEL, SELF * LENGTH)
    requires forall q: nat :: In(t, t.dir, q) && q / LENGTH == SELF ==> Plain(s, frame + (q - t.from))
    ensures CellsOk(s, t, frame * 4096 + flags, 4096) && CellsPresent(t, frame * 4096 + flags, 4096)
  {
    forall q: nat | In(t, t.dir, q)
      ensures WordFor(t, frame * 4096 + flags, 4096, q) == (frame + (q - t.from)) * 4096 + flags
    {
    }
    forall q: nat | In(t, t.dir, q)
      ensures FrameOf(WordFor(t, frame * 4096 + flags, 4096, q)) == frame + (q - t.from)
      ensures Present(WordFor(t, frame * 4096 + flags, 4096, q))
    {
      FrameAndFlags(frame + (q - t.from), flags);
    }
  }

  // The directory's entry for itself is always mapped.
  lemma SelfIsUsed(s: Space, dir: nat)
    requires WellFormed(s) && dir in s.dirs
    ensures SELF * LENGTH + SELF in ViewOf(s.mem, dir).used
    ensures dir == KERNEL ==>
      && SELF * LENGTH in ViewOf(s.mem, KERNEL).used && 1 in ViewOf(s.mem, KERNEL).used
      && 0 in ViewOf(s.mem, KERNEL).tables
  {
    var q := SELF * LENGTH + SELF;
    assert q / LENGTH == SELF && q % LENGTH == SELF;
    SelfSeen(s, dir, q);
    if dir == KERNEL {
      var p := SELF * LENGTH;
      assert p / LENGTH == SELF && p % LENGTH == 0;
      SelfSeen(s, KERNEL, p);
    }
  }

  // A run of free pages never holds the entries that have to be spared.
  lemma FreeSparesEntries(s: Space, t: Pages)
    requires WellFormed(s) && t.dir in s.dirs && FreeRun(ViewOf(s.mem, t.dir), t.from, t.count)
    ensures !In(t, t.dir, SELF * LENGTH + SELF)
    ensures t.dir == KERNEL ==> !In(t, KERNEL, SELF * LENGTH) && !In(t, KERNEL, 1)
  {
    SelfIsUsed(s, t.dir);
  }

  // The kernel's search from the lowest page always starts in a present table.
  lemma KernelExact(s: Space, q: Request)
    requires WellFormed(s) && q.lower < LENGTH
    ensures Exact(ViewOf(s.mem, KERNEL), q)
  {
    SelfIsUsed(s, KERNEL);
  }

  // From the lowest page on no run can go past the end of the address space.
  lemma StaysInside(s: Space, dir: nat, q: Request, start: nat)
    requires WellFormed(s) && dir in s.dirs && Proper(q) && q.lower == LOWER && Found(ViewOf(s.mem, dir), q, start)
    ensures start + q.pages <= PAGES
  {
    var v := ViewOf(s.mem, dir);
    AcceptedMeans(v, q, start);
    SelfIsUsed(s, dir);
    assert SELF * LENGTH + SELF !in v.used || !(start <= SELF * LENGTH + SELF < start + Counted(v, q, start));
  }

  lemma HitPlaceable(s: Space, dir: nat, q: Request, start: nat)
    requires WellFormed(s) && dir in s.dirs && Proper(q) && Found(ViewOf(s.mem, dir), q, start)
    requires start + q.pages <= PAGES
    ensures Placeable(s, Pages(dir, start, q.pages))
  {
    if dir == KERNEL {
      SelfIsUsed(s, KERNEL);
      var v := ViewOf(s.mem, KERNEL);
      assert Excess(v, 1) == 0;
      assert FreeRun(v, 1, 1) ==> 1 !in v.used;
    }
  }

  // ---- A user's search sees the same through every window ----

  lemma UserLookupKept(s: Space, r: Space, dir: nat, q: nat)
    requires WellFormed(s) && WellFormed(r) && KeepsUsers(s, r) && dir in s.dirs && dir != KERNEL && q < PAGES
    ensures Lookup(r.mem, dir, q) == Lookup(s.mem, dir, q)
    ensures HasTable(r.mem, dir, q / LENGTH) == HasTable(s.mem, dir, q / LENGTH)
  {
    SlotOfPage(q);
    NotInPool(s, dir);
    assert r.mem[dir] == s.mem[dir];
    if HasTable(s.mem, dir, q / LENGTH) {
      var f := TableOf(s.mem, dir, q / LENGTH);
      if q / LENGTH == SELF {
        assert Word(s.mem, dir, SELF) == dir * 4096 + 3;
        FrameAndFlags(dir, 3);
      } else {
        UserTableOwned(s, dir, q / LENGTH, f);
        assert r.mem[f] == s.mem[f];
      }
    }
  }

  lemma UserTablesKept(s: Space, r: Space, dir: nat)
    requires WellFormed(s) && KeepsUsers(s, r) && dir in s.dirs && dir != KERNEL
    ensures forall x: nat {:trigger HasTable(r.mem, dir, x)} :: HasTable(r.mem, dir, x) <==> HasTable(s.mem, dir, x)
  {
    NotInPool(s, dir);
    assert r.mem[dir] == s.mem[dir];
  }

  lemma UserViewKept(s: Space, r: Space, dir: nat)
    requires WellFormed(s) && WellFormed(r) && KeepsUsers(s, r) && dir in s.dirs && dir != KERNEL
    ensures ViewOf(r.mem, dir) == ViewOf(s.mem, dir)
  {
    UserTablesKept(s, r, dir);
    forall q: nat | q < PAGES ensures Lookup(r.mem, dir, q) == Lookup(s.mem, dir, q) {
      UserLookupKept(s, r, dir, q);
    }
    assert ViewOf(r.mem, dir).used == ViewOf(s.mem, dir).used;
    assert ViewOf(r.mem, dir).tables == ViewOf(s.mem, dir).tables;
  }

  lemma AllocableStill(s: Space, r: Space, dir: nat, frame: nat, flags: nat, q: Request)
    requires WellFormed(s) && WellFormed(r) && KeepsUsers(s, r) && dir != KERNEL && Allocable(s, dir, frame, flags, q)
    requires s.dirs == r.dirs && s.mem.Keys == r.mem.Keys && UsesPool(s, r) && OwnersGrow(s, r)
    ensures Allocable(r, dir, frame, flags, q) && ViewOf(r.mem, dir) == ViewOf(s.mem, dir)
  {
    UserViewKept(s, r, dir);
    forall start: nat | Found(ViewOf(r.mem, dir), q, start)
      ensures CellsOk(r, Pages(dir, start, q.pages), frame * 4096 + flags, 4096)
    {
      CellsStill(s, r, Pages(dir, start, q.pages), frame * 4096 + flags, 4096);
    }
  }

  lemma CellsStill(s: Space, r: Space, t: Pages, base: nat, step: nat)
    requires CellsOk(s, t, base, step)
    requires s.dirs == r.dirs && s.mem.Keys == r.mem.Keys && UsesPool(s, r) && OwnersGrow(s, r)
    ensures CellsOk(r, t, base, step)
  {
    forall q: nat | In(t, t.dir, q) && q / LENGTH == SELF ensures CellOk(r, t, base, step, q) {
      assert CellOk(s, t, base, step, q);
      if Present(WordFor(t, base, step, q)) {
        var f := FrameOf(WordFor(t, base, step, q));
        assert f !in r.owner;
        PlainStays(s, r, f);
      }
    }
  }

  // The pages of a run that starts from a later state, seen from the earlier one.
  lemma ShownFrom(s: Space, m: Space, r: Space, t: Pages, base: nat, step: nat)
    requires CellsOk(s, t, base, step) && s.mem.Keys == m.mem.Keys && KeepsPlain(s, m) && CellsOk(m, t, base, step)
    requires t.from + t.count <= PAGES && RunShown(m, r, t, base, step, t.count)
    ensures RunShown(s, r, t, base, step, t.count)
  {
    forall q: nat | Determined(t, t.count, q)
      ensures Lookup(r.mem, t.dir, q) == Expected(s, t, base, step, t.count, q)
    {
      SlotOfPage(q);
      var cell := SELF * LENGTH + q / LENGTH;
      assert cell / LENGTH == SELF;
      if Done(t, t.count, cell) && Present(WordFor(t, base, step, cell)) {
        assert CellOk(s, t, base, step, cell) && CellOk(m, t, base, step, cell);
        assert m.mem[FrameOf(WordFor(t, base, step, cell))] == s.mem[FrameOf(WordFor(t, base, step, cell))];
      }
    }
  }

  // Closing a window changes nothing of what a run of a user's pages shows.
  lemma ShownTo(s: Space, m: Space, r: Space, t: Pages, base: nat, step: nat, page: nat)
    requires t.dir in m.dirs && t.dir != KERNEL && RunShown(s, m, t, base, step, t.count) && Closed(m, page, r)
    ensures RunShown(s, r, t, base, step, t.count)
  {
    forall q: nat | Determined(t, t.count, q)
      ensures Lookup(r.mem, t.dir, q) == Expected(s, t, base, step, t.count, q)
    {
      SlotOfPage(q);
      EntryClosed(m, page, t.dir, q / LENGTH, r);
    }
  }
}
