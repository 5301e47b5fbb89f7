// The search for pages that are free in a user's directory and in the kernel,
// sys/memory/vmemory.c. It reads the user's tables through windows, which are open
// while it reads the kernel's tables, and takes their pages for mapped.

module TwoSided {
  import opened PageTable
  import opened FreePages
  import opened AddressSpace
  import opened Windows
  import opened PageRanges
  import opened MemorySteps

  // What is mapped in one of the two directories.
  ghost function Common(mem: Memory, dir: nat): View {
    View(ViewOf(mem, dir).used + ViewOf(mem, KERNEL).used, ViewOf(mem, dir).tables + ViewOf(mem, KERNEL).tables)
  }

  // The page at which the windows are opened.
  ghost function WindowPage(mem: Memory): nat {
    NextFree(mem, LOWER)
  }

  // A window has been opened when the search leaves a slot.
  ghost predicate Looked(mem: Memory, dir: nat, lower: nat, slot: nat) {
    LooksIn(mem, dir, lower / LENGTH, slot + 1)
  }

  // A new table for the windows shows what its frame held, and in slot 0xFF itself.
  ghost predicate Uncovering(s: Space, page: nat) {
    var w := WindowPage(s.mem);
    && !HasTable(s.mem, KERNEL, w / LENGTH) && |s.pool| > 0
    && (page == SELF * LENGTH + w / LENGTH ||
        (page / LENGTH == w / LENGTH && Left(s.mem, s.pool[0], page % LENGTH) != 0))
  }

  // A page that the kernel has free and that looks mapped.
  ghost predicate Masked(s: Space, dir: nat, lower: nat, page: nat) {
    && Looked(s.mem, dir, lower, page / LENGTH)
    && ((page == WindowPage(s.mem) && HasTable(s.mem, dir, page / LENGTH)) || Uncovering(s, page))
  }

  ghost predicate Busy(s: Space, dir: nat, lower: nat, page: nat) {
    Lookup(s.mem, dir, page) != 0 || Lookup(s.mem, KERNEL, page) != 0 || Masked(s, dir, lower, page)
  }

  ghost predicate Tabled(s: Space, dir: nat, lower: nat, slot: nat) {
    HasTable(s.mem, dir, slot) || HasTable(s.mem, KERNEL, slot) ||
      (Looked(s.mem, dir, lower, slot) && slot == WindowPage(s.mem) / LENGTH)
  }

  // What the search sees.
  ghost function BothView(s: Space, dir: nat, lower: nat): View {
    View(set page: nat | page < PAGES && Busy(s, dir, lower, page),
         set slot: nat | slot < LENGTH && Tabled(s, dir, lower, slot))
  }

  lemma WindowBelow(mem: Memory)
    requires Room(mem)
    ensures LOWER <= WindowPage(mem) < SELF * LENGTH && Lookup(mem, KERNEL, WindowPage(mem)) == 0
  {
    var q: nat :| FreeBelow(mem, q);
    NextFreeIs(mem, LOWER, q);
  }

  lemma BothRegular(s: Space, dir: nat, lower: nat)
    requires WellFormed(s) && Room(s.mem)
    ensures Regular(BothView(s, dir, lower))
  {
    WindowBelow(s.mem);
    forall page | page in BothView(s, dir, lower).used ensures page / LENGTH in BothView(s, dir, lower).tables {
      SlotOfPage(page);
      if page == SELF * LENGTH + WindowPage(s.mem) / LENGTH { SelfSeen(s, KERNEL, SELF * LENGTH); }
    }
  }

  // ---- When the answer is that of the page maps ----

  lemma SameCounts(s: Space, dir: nat, q: Request, start: nat)
    requires Proper(q)
    ensures Counted(BothView(s, dir, q.lower), q, start) == Counted(Common(s.mem, dir), q, start)
  {
    var slot := q.lower / LENGTH;
    assert slot < LENGTH;
    assert Looked(s.mem, dir, q.lower, slot) ==> HasTable(s.mem, dir, slot);
  }

  lemma BothHits(s: Space, dir: nat, q: Request, start: nat)
    requires Proper(q) && q.lower <= start && Hit(BothView(s, dir, q.lower), q, start)
    ensures Hit(Common(s.mem, dir), q, start)
  {
    SameCounts(s, dir, q, start);
    forall page: nat | start <= page < start + Counted(Common(s.mem, dir), q, start)
      ensures page !in Common(s.mem, dir).used
    {
      assert page !in BothView(s, dir, q.lower).used;
    }
  }

  // Where the page maps have a run for the request, the search comes to it if and only
  // if none of its pages is masked by a window.
  lemma BothExactly(s: Space, dir: nat, q: Request, start: nat)
    requires Proper(q) && FirstHit(Common(s.mem, dir), q, start)
    ensures FirstHit(BothView(s, dir, q.lower), q, start) <==>
      forall page: nat :: start <= page < start + Counted(Common(s.mem, dir), q, start) ==>
        !Masked(s, dir, q.lower, page)
  {
    var v, c := BothView(s, dir, q.lower), Common(s.mem, dir);
    SameCounts(s, dir, q, start);
    assert Limit(q.upper) <= PAGES;
    forall page: nat | start <= page < start + Counted(c, q, start)
      ensures page in v.used <==> Masked(s, dir, q.lower, page)
    {
      assert page !in c.used && page < PAGES;
      assert page !in ViewOf(s.mem, dir).used && page !in ViewOf(s.mem, KERNEL).used;
    }
    forall r: nat | q.lower <= r < start ensures !Hit(v, q, r) {
      if Hit(v, q, r) { BothHits(s, dir, q, r); }
    }
  }

  // With a kernel table for the windows only their own page is masked, and only if the
  // user has a table for it.
  lemma BothExactlyInTable(s: Space, dir: nat, q: Request, start: nat)
    requires Proper(q) && FirstHit(Common(s.mem, dir), q, start) && HasTable(s.mem, KERNEL, WindowPage(s.mem) / LENGTH)
    ensures var w := WindowPage(s.mem);
      FirstHit(BothView(s, dir, q.lower), q, start) <==>
        !(start <= w < start + Counted(Common(s.mem, dir), q, start) && HasTable(s.mem, dir, w / LENGTH))
  {
    var w := WindowPage(s.mem);
    BothExactly(s, dir, q, start);
    if q.lower <= w && HasTable(s.mem, dir, w / LENGTH) {
      assert q.lower / LENGTH <= w / LENGTH;
      assert Looked(s.mem, dir, q.lower, w / LENGTH);
      assert Masked(s, dir, q.lower, w);
    }
  }

  // The answer is the lowest run of the page maps exactly then.
  lemma AnswerExactly(s: Space, r: Space, window: nat, dir: nat, q: Request, start: nat, lowest: nat)
    requires Proper(q) && BothAnswered(s, r, window, dir, q, start) && Found(Common(s.mem, dir), q, lowest)
    ensures start == lowest <==>
      forall page: nat :: lowest <= page < lowest + Counted(Common(s.mem, dir), q, lowest) ==>
        !Masked(s, dir, q.lower, page)
    ensures Exact(Common(s.mem, dir), q) ==> LowestRun(Common(s.mem, dir), q, lowest)
  {
    BothExactly(s, dir, q, lowest);
    if FirstHit(BothView(s, dir, q.lower), q, lowest) {
      assert Found(BothView(s, dir, q.lower), q, lowest);
      if start != 0 { OneFound(BothView(s, dir, q.lower), q, start, lowest); }
    }
    if Exact(Common(s.mem, dir), q) {
      FoundIsLowest(Common(s.mem, dir), q);
    }
  }

  // The search never comes to a run that the page maps do not have.
  lemma {:induction false} BothSound(s: Space, dir: nat, q: Request, start: nat)
    requires Proper(q) && FirstHit(BothView(s, dir, q.lower), q, start)
    ensures exists r: nat :: r <= start && FirstHit(Common(s.mem, dir), q, r)
  {
    BothHits(s, dir, q, start);
    SameCounts(s, dir, q, start);
    LowestHit(Common(s.mem, dir), q, start);
  }

  lemma {:induction false} LowestHit(v: View, q: Request, start: nat)
    requires Proper(q) && q.lower <= start < Limit(q.upper) && Hit(v, q, start)
    requires start + Counted(v, q, start) <= Limit(q.upper)
    ensures exists r: nat :: r <= start && FirstHit(v, q, r)
    decreases start
  {
    if r: nat :| q.lower <= r < start && Hit(v, q, r) {
      assert Counted(v, q, r) <= Counted(v, q, start);
      LowestHit(v, q, r);
    } else {
      assert FirstHit(v, q, start);
    }
  }

  // ---- What is read ----

  // The kernel's pages after the windows got their table, but for those of the window
  // that is open.
  lemma KernelNow(s: Space, r: Space, u: Pages, page: nat)
    requires WellFormed(s) && Room(s.mem) && WellFormed(r) && Effect(s, r, NOTHING, u)
    requires Takes(s, r, NOTHING, WindowTables(s.mem))
    requires page < PAGES && !In(u, KERNEL, page)
    ensures Lookup(r.mem, KERNEL, page) != 0 <==> Lookup(s.mem, KERNEL, page) != 0 || Uncovering(s, page)
  {
    SlotOfPage(page);
    WindowBelow(s.mem);
    if page / LENGTH == SELF {
      SelfSeen(s, KERNEL, page);
      SelfSeen(r, KERNEL, page);
      assert page == SELF * LENGTH + page % LENGTH;
      TablesNow(s, r, u, page % LENGTH);
    } else {
      TablesNow(s, r, u, page / LENGTH);
      assert Untouched(s, NOTHING, u, KERNEL, page);
      assert Lookup(r.mem, KERNEL, page) == Shows(s, r, KERNEL, page);
    }
  }

  lemma TablesNow(s: Space, r: Space, u: Pages, slot: nat)
    requires WellFormed(s) && Room(s.mem) && WellFormed(r) && Effect(s, r, NOTHING, u)
    requires Takes(s, r, NOTHING, WindowTables(s.mem)) && slot < LENGTH
    ensures var w := WindowPage(s.mem);
      && (HasTable(r.mem, KERNEL, slot) <==> HasTable(s.mem, KERNEL, slot) || slot == w / LENGTH)
      && (NewTable(s, r, KERNEL, slot) ==> |s.pool| > 0 && TableOf(r.mem, KERNEL, slot) == s.pool[0])
      && (!HasTable(s.mem, KERNEL, w / LENGTH) ==> |s.pool| > 0)
  {
    var w := WindowPage(s.mem);
    WindowBelow(s.mem);
    if slot == SELF {
      SelfSeen(s, KERNEL, SELF * LENGTH);
      SelfSeen(r, KERNEL, SELF * LENGTH);
    } else {
      assert KeepsTable(s, r, KERNEL, slot);
      assert NewTable(s, r, KERNEL, slot) ==> (KERNEL, slot) in WindowTables(s.mem);
    }
    if !HasTable(s.mem, KERNEL, w / LENGTH) {
      assert WindowTables(s.mem)[0] == (KERNEL, w / LENGTH);
      assert Took(s, r, NOTHING, WindowTables(s.mem)[0], s.pool[0]);
    }
  }

  // The kernel's table, as slot 0xFF shows it.
  lemma KernelBlank(o: Space, slot: nat, i: nat)
    requires WellFormed(o) && slot < LENGTH && i < LENGTH && HasTable(o.mem, KERNEL, slot)
    ensures Blank([WordsOf(o.mem, FrameOf(Lookup(o.mem, KERNEL, SELF * LENGTH + slot)))], i) <==>
      Lookup(o.mem, KERNEL, slot * LENGTH + i) == 0
  {
    RecursiveWindow(o, slot);
    EntryBlank(o.mem, KERNEL, slot, i);
  }

  // The kernel's words of a slot, or nothing where it has no table.
  ghost function KernelTables(mem: Memory, slot: nat): seq<seq<nat>> {
    if HasTable(mem, KERNEL, slot) then [WordsOf(mem, FrameOf(Lookup(mem, KERNEL, SELF * LENGTH + slot)))] else []
  }

  lemma KernelTablesBlank(o: Space, slot: nat, i: nat)
    requires WellFormed(o) && slot < LENGTH && i < LENGTH
    ensures Blank(KernelTables(o.mem, slot), i) <==> Lookup(o.mem, KERNEL, slot * LENGTH + i) == 0
  {
    if HasTable(o.mem, KERNEL, slot) {
      KernelBlank(o, slot, i);
    } else {
      assert (slot * LENGTH + i) / LENGTH == slot;
    }
  }

  lemma BlankBoth(a: seq<nat>, b: seq<seq<nat>>, i: nat)
    ensures Blank([a] + b, i) <==> Blank([a], i) && Blank(b, i)
  {
    assert ([a] + b)[0] == a == [a][0];
    assert forall k :: 0 <= k < |b| ==> ([a] + b)[k + 1] == b[k];
  }

  // The windows are opened at the same page every time.
  lemma SamePage(s: Space, m: Space, window: nat, dir: nat, looked: bool, page: nat, f: nat, o: Space)
    requires Looking(s, m, window, dir, looked) && Opened(m, page, f, o)
    ensures page == WindowPage(s.mem) && Effect(s, o, NOTHING, Pages(KERNEL, page, 1))
    ensures Takes(s, o, NOTHING, WindowTables(s.mem))
  {
    var u := Pages(KERNEL, page, 1);
    NextFreeAt(m.mem, LOWER, page);
    if looked {
      EffectWithin(s, m, NOTHING, NOTHING, NOTHING, u);
      EffectThen(s, m, o, NOTHING, u);
      TakesThen(s, m, o, NOTHING, u, WindowTables(s.mem), []);
      assert WindowTables(s.mem) + [] == WindowTables(s.mem);
    }
  }

  // A slot with a table of the user, read while the window onto it is open.
  lemma ReadsBoth(s: Space, m: Space, o: Space, window: nat, dir: nat, lower: nat, looked: bool, slot: nat, f: nat,
                  page: nat, words: seq<nat>)
    requires Looking(s, m, window, dir, looked) && slot < LENGTH && lower / LENGTH <= slot
    requires HasTable(s.mem, dir, slot) && f == TableOf(s.mem, dir, slot) && Opened(m, page, f, o)
    requires words == WordsOf(s.mem, f)
    ensures Reads([words] + KernelTables(o.mem, slot), BothView(s, dir, lower), slot)
  {
    SamePage(s, m, window, dir, looked, page, f, o);
    forall i | 0 <= i < LENGTH
      ensures Blank([words] + KernelTables(o.mem, slot), i) <==> slot * LENGTH + i !in BothView(s, dir, lower).used
    {
      BlankBoth(words, KernelTables(o.mem, slot), i);
      EntryBlank(s.mem, dir, slot, i);
      KernelTablesBlank(o, slot, i);
      PageSeen(s, o, dir, lower, slot, i, page);
    }
  }

  lemma PageSeen(s: Space, o: Space, dir: nat, lower: nat, slot: nat, i: nat, page: nat)
    requires WellFormed(s) && Room(s.mem) && WellFormed(o) && slot < LENGTH && i < LENGTH
    requires lower / LENGTH <= slot && HasTable(s.mem, dir, slot)
    requires page == WindowPage(s.mem) && Lookup(o.mem, KERNEL, page) != 0
    requires Effect(s, o, NOTHING, Pages(KERNEL, page, 1)) && Takes(s, o, NOTHING, WindowTables(s.mem))
    ensures slot * LENGTH + i in BothView(s, dir, lower).used <==>
      Lookup(s.mem, dir, slot * LENGTH + i) != 0 || Lookup(o.mem, KERNEL, slot * LENGTH + i) != 0
  {
    var p := slot * LENGTH + i;
    assert p / LENGTH == slot && p % LENGTH == i;
    assert Looked(s.mem, dir, lower, slot);
    if p == page {
      assert Masked(s, dir, lower, p);
    } else {
      KernelNow(s, o, Pages(KERNEL, page, 1), p);
    }
    InBothView(s, dir, lower, p);
  }

  lemma InBothView(s: Space, dir: nat, lower: nat, page: nat)
    requires page < PAGES
    ensures page in BothView(s, dir, lower).used <==> Busy(s, dir, lower, page)
  {
  }

  // A slot without one.
  lemma ReadsKernel(s: Space, m: Space, window: nat, dir: nat, lower: nat, looked: bool, slot: nat)
    requires Looking(s, m, window, dir, looked) && (looked <==> LooksIn(s.mem, dir, lower / LENGTH, slot))
    requires slot < LENGTH && lower / LENGTH <= slot && !HasTable(s.mem, dir, slot) && HasTable(m.mem, KERNEL, slot)
    ensures Reads(KernelTables(m.mem, slot), BothView(s, dir, lower), slot)
  {
    forall i | 0 <= i < LENGTH
      ensures Blank(KernelTables(m.mem, slot), i) <==> slot * LENGTH + i !in BothView(s, dir, lower).used
    {
      KernelTablesBlank(m, slot, i);
      PageSeenAlone(s, m, window, dir, lower, looked, slot, i);
    }
  }

  lemma PageSeenAlone(s: Space, m: Space, window: nat, dir: nat, lower: nat, looked: bool, slot: nat, i: nat)
    requires Looking(s, m, window, dir, looked) && (looked <==> LooksIn(s.mem, dir, lower / LENGTH, slot))
    requires slot < LENGTH && i < LENGTH && lower / LENGTH <= slot && !HasTable(s.mem, dir, slot)
    ensures slot * LENGTH + i in BothView(s, dir, lower).used <==> Lookup(m.mem, KERNEL, slot * LENGTH + i) != 0
  {
    var p := slot * LENGTH + i;
    assert p / LENGTH == slot && p % LENGTH == i;
    LooksNext(s.mem, dir, lower / LENGTH, slot);
    if looked { KernelNow(s, m, NOTHING, p); }
    InBothView(s, dir, lower, p);
  }

  // Whether the search sees a table for a slot.
  lemma SeesTable(s: Space, m: Space, window: nat, dir: nat, lower: nat, looked: bool, slot: nat)
    requires Looking(s, m, window, dir, looked) && (looked <==> LooksIn(s.mem, dir, lower / LENGTH, slot))
    requires slot < LENGTH && lower / LENGTH <= slot
    ensures slot in BothView(s, dir, lower).tables <==> HasTable(s.mem, dir, slot) || HasTable(m.mem, KERNEL, slot)
  {
    LooksNext(s.mem, dir, lower / LENGTH, slot);
    if looked { TablesNow(s, m, NOTHING, slot); }
  }

  // ---- The answer ----

  // A table of the user is among the slots that are visited.
  ghost predicate Peeks(s: Space, dir: nat, q: Request) {
    exists slot: nat :: Visited(BothView(s, dir, q.lower), q, slot) && HasTable(s.mem, dir, slot)
  }

  ghost function PeekTables(s: Space, dir: nat, q: Request): seq<(nat, nat)> {
    if Peeks(s, dir, q) then WindowTables(s.mem) else []
  }

  lemma PeekPaid(s: Space, dir: nat, q: Request, table: nat, page: nat, found: nat, regionStart: nat, pos: nat,
                 base: nat)
    requires Cursor(BothView(s, dir, q.lower), q, table, page, found, regionStart, pos, base)
    requires Goes(q, table, found) && table < LENGTH
    requires HasTable(s.mem, dir, table) && |s.pool| >= |PeekTables(s, dir, q)|
    ensures |s.pool| >= |WindowTables(s.mem)|
  {
    CursorVisits(BothView(s, dir, q.lower), q, table, page, found, regionStart, pos, base);
  }

  ghost predicate BothAnswered(s: Space, r: Space, window: nat, dir: nat, q: Request, start: nat) {
    && Quiet(s, r) && Visible(r.mem, window, dir) && Takes(s, r, NOTHING, PeekTables(s, dir, q))
    && (start != 0 ==> Found(BothView(s, dir, q.lower), q, start))
    && (start == 0 ==> NotFound(BothView(s, dir, q.lower), q))
  }

  lemma BothDone(s: Space, r: Space, window: nat, dir: nat, q: Request, looked: bool,
                 table: nat, page: nat, found: nat, regionStart: nat, pos: nat, base: nat, answer: nat)
    requires Searching(s, r, window, dir, BothView(s, dir, q.lower), q, looked, table, page, found, regionStart, pos,
                       base)
    requires table == LENGTH || !Goes(q, table, found)
    requires answer == if found >= q.pages && Accepted(q, regionStart) then regionStart else 0
    ensures BothAnswered(s, r, window, dir, q, answer)
  {
    CursorOut(BothView(s, dir, q.lower), q, table, page, found, regionStart, pos, base);
    if looked {
      var slot: nat :| q.lower / LENGTH <= slot < table && HasTable(s.mem, dir, slot);
      assert Visited(BothView(s, dir, q.lower), q, slot);
    } else {
      TakesNothing(s, s);
    }
    if Peeks(s, dir, q) {
      var slot: nat :| Visited(BothView(s, dir, q.lower), q, slot) && HasTable(s.mem, dir, slot);
      assert q.lower / LENGTH <= slot < table;
    }
  }
}
