// The temporary windows through which the kernel reaches page tables and directories,
// sys/memory/vmemory.c. The kernel's directory is mapped at page 1, its tables appear
// in slot 0xFF, and everything else is mapped at the lowest free page of the kernel
// for the time of an operation. A window may itself need a new table.

module Windows {
  import opened PageTable
  import opened FreePages
  import opened AddressSpace

  const LOWER: nat := 1
  const UPPER: nat := 0xFFFFF

  // The frame that the kernel sees at a page.
  ghost function Seen(mem: Memory, page: nat): nat {
    FrameOf(Lookup(mem, KERNEL, page))
  }

  ghost predicate Visible(mem: Memory, page: nat, frame: nat) {
    Lookup(mem, KERNEL, page) != 0 && Seen(mem, page) == frame && frame in mem
  }

  // Slot 0xFF shows the kernel's tables, and its directory.
  lemma RecursiveWindow(s: Space, slot: nat)
    requires WellFormed(s) && slot < LENGTH && HasTable(s.mem, KERNEL, slot)
    ensures Visible(s.mem, SELF * LENGTH + slot, TableOf(s.mem, KERNEL, slot))
  {
    assert Word(s.mem, KERNEL, SELF) == KERNEL * 4096 + 3;
    FrameAndFlags(KERNEL, 3);
    if slot != SELF { assert Owned(s, KERNEL, slot); }
  }

  lemma DirectoryWindow(s: Space)
    requires WellFormed(s)
    ensures Visible(s.mem, 1, KERNEL)
  {
  }

  // ---- Room for windows ----

  ghost predicate LowestFree(mem: Memory, page: nat) {
    && LOWER <= page && Lookup(mem, KERNEL, page) == 0
    && forall q: nat :: LOWER <= q < page ==> Lookup(mem, KERNEL, q) != 0
  }

  lemma LowestIsUnique(mem: Memory, p: nat, q: nat)
    requires LowestFree(mem, p) && LowestFree(mem, q)
    ensures p == q
  {
  }

  // The lowest free page of the kernel from `page` on.
  ghost function NextFree(mem: Memory, page: nat): nat
    decreases PAGES - page
  {
    if page >= PAGES || Lookup(mem, KERNEL, page) == 0 then page else NextFree(mem, page + 1)
  }

  lemma {:induction false} NextFreeAt(mem: Memory, page: nat, w: nat)
    requires page <= w < PAGES && Lookup(mem, KERNEL, w) == 0
    requires forall q: nat :: page <= q < w ==> Lookup(mem, KERNEL, q) != 0
    ensures NextFree(mem, page) == w
    decreases w - page
  {
    if page < w { NextFreeAt(mem, page + 1, w); }
  }

  lemma {:induction false} NextFreeIs(mem: Memory, page: nat, bound: nat)
    requires page <= bound < PAGES && Lookup(mem, KERNEL, bound) == 0
    ensures page <= NextFree(mem, page) <= bound && Lookup(mem, KERNEL, NextFree(mem, page)) == 0
    ensures forall q: nat :: page <= q < NextFree(mem, page) ==> Lookup(mem, KERNEL, q) != 0
    decreases bound - page
  {
    if Lookup(mem, KERNEL, page) != 0 { NextFreeIs(mem, page + 1, bound); }
  }

  // The table that the next window needs.
  ghost function WindowTables(mem: Memory): seq<(nat, nat)> {
    TableFor(mem, KERNEL, NextFree(mem, LOWER))
  }

  // The table that a second window needs while the first is open. Next to a first
  // window with a new table there is room for it.
  ghost function SecondTables(mem: Memory): seq<(nat, nat)> {
    var w := NextFree(mem, LOWER);
    if HasTable(mem, KERNEL, w / LENGTH) then TableFor(mem, KERNEL, NextFree(mem, w + 1)) else []
  }

  ghost predicate FreeBelow(mem: Memory, q: nat) {
    LOWER <= q < SELF * LENGTH && Lookup(mem, KERNEL, q) == 0
  }

  // The kernel has a free page below slot 0xFF.
  ghost predicate Room(mem: Memory) {
    exists q: nat :: FreeBelow(mem, q)
  }

  // It has two: one for a directory, one for a table.
  ghost predicate Roomy(mem: Memory) {
    exists q: nat, r: nat :: q < r && FreeBelow(mem, q) && FreeBelow(mem, r)
  }

  // Where a window is opened: only the first page of a table can need a new table.
  ghost predicate WindowAt(s: Space, page: nat) {
    && LOWER < page < SELF * LENGTH && LowestFree(s.mem, page)
    && (HasTable(s.mem, KERNEL, page / LENGTH) || page % LENGTH == 0)
  }

  lemma RoomFound(s: Space, page: nat)
    requires WellFormed(s) && Room(s.mem) && |s.pool| >= |WindowTables(s.mem)|
    requires page != 0 ==> LowestRun(ViewOf(s.mem, KERNEL), Request(1, LOWER, UPPER), page)
    requires page == 0 ==> NoRun(ViewOf(s.mem, KERNEL), Request(1, LOWER, UPPER))
    ensures WindowAt(s, page) && Mappable(s, KERNEL, page)
  {
    var v := ViewOf(s.mem, KERNEL);
    forall r: nat | r < PAGES ensures FreeRun(v, r, 1) <==> Lookup(s.mem, KERNEL, r) == 0 {
      assert FreeRun(v, r, 1) ==> r !in v.used;
    }
    var q: nat :| FreeBelow(s.mem, q);
    assert FreeRun(v, q, 1);
    assert page != 0 && page <= q;
    FirstOfTable(s, page);
    NextFreeAt(s.mem, LOWER, page);
  }

  lemma FirstOfTable(s: Space, page: nat)
    requires WellFormed(s) && LowestFree(s.mem, page)
    ensures HasTable(s.mem, KERNEL, page / LENGTH) || page % LENGTH == 0
  {
    if page % LENGTH != 0 && page > 1 {
      var p: nat := page - 1;
      assert p / LENGTH == page / LENGTH;
      assert Lookup(s.mem, KERNEL, p) != 0;
    }
  }

  // ---- Opening and closing ----

  // Tables and directories of users are left alone.
  ghost predicate KeepsUsers(s: Space, r: Space) {
    forall g {:trigger r.mem[g]} {:trigger g in r.mem} ::
      g in s.mem && g != KERNEL && (g in s.owner ==> s.owner[g].0 != KERNEL) && g !in s.pool ==>
      g in r.mem && r.mem[g] == s.mem[g]
  }

  // Frames of the pool may become tables, and nothing else does.
  ghost predicate OwnersGrow(s: Space, r: Space) {
    && (forall f {:trigger r.owner[f]} {:trigger f in s.owner} :: f in s.owner ==>
        f in r.owner && r.owner[f] == s.owner[f])
    && (forall f {:trigger f in r.owner} :: f in r.owner ==> f in s.owner || f in s.pool)
  }

  lemma OwnersThen(s: Space, m: Space, r: Space)
    requires UsesPool(s, m) && OwnersGrow(s, m) && OwnersGrow(m, r)
    ensures OwnersGrow(s, r)
  {
    forall f | f in m.pool ensures f in s.pool {
      InSuffix(s.pool, m.pool, f);
    }
    forall f | f in s.owner ensures f in r.owner && r.owner[f] == s.owner[f] {
      assert f in m.owner && m.owner[f] == s.owner[f];
    }
  }

  lemma UsersThen(s: Space, m: Space, r: Space)
    requires s.mem.Keys == m.mem.Keys && UsesPool(s, m) && OwnersGrow(s, m) && KeepsUsers(s, m) && KeepsUsers(m, r)
    ensures KeepsUsers(s, r)
  {
    forall g | g in s.mem && g != KERNEL && (g in s.owner ==> s.owner[g].0 != KERNEL) && g !in s.pool
      ensures g in r.mem && r.mem[g] == s.mem[g]
    {
      assert m.mem[g] == s.mem[g];
      if g in m.pool { InSuffix(s.pool, m.pool, g); }
      if g in m.owner { assert g in s.owner && m.owner[g] == s.owner[g]; }
    }
  }

  ghost predicate Opened(s: Space, page: nat, frame: nat, r: Space) {
    && WindowAt(s, page) && WellFormed(r)
    && KeepsUsers(s, r) && OwnersGrow(s, r) && Effect(s, r, NOTHING, Pages(KERNEL, page, 1))
    && Lookup(r.mem, KERNEL, page) == frame * 4096 + 3 && Visible(r.mem, page, frame)
    && HasTable(r.mem, KERNEL, page / LENGTH)
    && Takes(s, r, NOTHING, WindowTables(s.mem)) && (Roomy(s.mem) ==> Room(r.mem))
  }

  ghost predicate Closed(s: Space, page: nat, r: Space) {
    && WellFormed(r) && KeepsUsers(s, r) && Effect(s, r, NOTHING, Pages(KERNEL, page, 1))
    && Lookup(r.mem, KERNEL, page) == 0 && Takes(s, r, NOTHING, []) && r.owner == s.owner
    && HasTable(r.mem, KERNEL, page / LENGTH)
  }

  lemma MappedKeepsUsers(s: Space, page: nat, word: nat)
    requires Mappable(s, KERNEL, page)
    ensures KeepsUsers(s, Mapped(s, page, word)) && OwnersGrow(s, Mapped(s, page, word))
  {
    MappedFrames(s, page, word);
    forall g | g in s.mem && g != KERNEL && (g in s.owner ==> s.owner[g].0 != KERNEL) && g !in s.pool
      ensures g in Mapped(s, page, word).mem && Mapped(s, page, word).mem[g] == s.mem[g]
    {
      MappedKernelFrames(s, page, word, g);
    }
  }

  // A second window fits: its page is there already, or next to the first in the
  // part of the new table that is cleared.
  lemma RoomLeft(s: Space, page: nat, word: nat)
    requires WindowAt(s, page) && Mappable(s, KERNEL, page) && Roomy(s.mem)
    ensures Room(Mapped(s, page, word).mem)
  {
    var r := Mapped(s, page, word);
    if HasTable(s.mem, KERNEL, page / LENGTH) {
      var p: nat, q: nat :| p < q && FreeBelow(s.mem, p) && FreeBelow(s.mem, q);
      var other := if p == page then q else p;
      if other / LENGTH == page / LENGTH {
        MappedSameTable(s, page, word, other);
      } else {
        MappedOtherTable(s, page, word, KERNEL, other);
      }
      assert FreeBelow(r.mem, other);
    } else {
      var next := page + 1;
      assert next / LENGTH == page / LENGTH && next % LENGTH == 1;
      MappedSameTable(s, page, word, next);
      assert FreeBelow(r.mem, next);
    }
  }

  lemma OpenedMaps(s: Space, page: nat, frame: nat, r: Space)
    requires Mappable(s, KERNEL, page) && frame in s.mem && r == Mapped(s, page, frame * 4096 + 3)
    ensures WellFormed(r) && Lookup(r.mem, KERNEL, page) == frame * 4096 + 3 && Visible(r.mem, page, frame)
    ensures HasTable(r.mem, KERNEL, page / LENGTH)
  {
    assert frame in r.mem by { MappedFrames(s, page, frame * 4096 + 3); }
    MappedOk(s, page, frame * 4096 + 3);
    MappedHere(s, page, frame * 4096 + 3);
    FrameAndFlags(frame, 3);
  }

  lemma OpenedFrames(s: Space, page: nat, word: nat, r: Space)
    requires Mappable(s, KERNEL, page) && r == Mapped(s, page, word)
    ensures KeepsUsers(s, r) && OwnersGrow(s, r) && Effect(s, r, NOTHING, Pages(KERNEL, page, 1))
    ensures Takes(s, r, NOTHING, TableFor(s.mem, KERNEL, page))
    ensures HasTable(s.mem, KERNEL, page / LENGTH) ==> r.owner == s.owner
  {
    MappedFrames(s, page, word);
    MappedEffect(s, page, word);
    MappedTakes(s, page, word);
    MappedKeepsUsers(s, page, word);
  }

  lemma WindowOpens(s: Space, page: nat, frame: nat, r: Space)
    requires WindowAt(s, page) && Mappable(s, KERNEL, page) && frame in s.mem && r == Mapped(s, page, frame * 4096 + 3)
    ensures Opened(s, page, frame, r)
  {
    OpenedMaps(s, page, frame, r);
    OpenedFrames(s, page, frame * 4096 + 3, r);
    NextFreeAt(s.mem, LOWER, page);
    if Roomy(s.mem) { RoomLeft(s, page, frame * 4096 + 3); }
  }

  lemma WindowCloses(s: Space, page: nat)
    requires Mappable(s, KERNEL, page) && HasTable(s.mem, KERNEL, page / LENGTH)
    ensures Closed(s, page, Mapped(s, page, 0))
  {
    MappedOk(s, page, 0);
    MappedHere(s, page, 0);
    OpenedFrames(s, page, 0, Mapped(s, page, 0));
  }

  // ---- An operation between opening and closing ----

  lemma StillOpen(o: Space, m: Space, t: Pages, page: nat, frame: nat)
    requires Effect(o, m, t, NOTHING) && t.dir != KERNEL && KERNEL in o.dirs && page < SELF * LENGTH
    requires Visible(o.mem, page, frame)
    ensures Visible(m.mem, page, frame) && HasTable(m.mem, KERNEL, page / LENGTH)
  {
    StaysMapped(o, m, t, NOTHING, page);
  }

  // Opening, operating and closing do to the page maps what the operation does, and
  // what a table for the window uncovers.
  lemma WindowDone(s: Space, page: nat, frame: nat, o: Space, m: Space, r: Space, t: Pages, taken: seq<(nat, nat)>)
    requires WellFormed(s) && Opened(s, page, frame, o) && Effect(o, m, t, NOTHING) && Closed(m, page, r)
    requires Takes(o, m, t, taken)
    ensures Effect(s, r, t, NOTHING) && Takes(s, r, t, WindowTables(s.mem) + taken)
  {
    var u := Pages(KERNEL, page, 1);
    EffectWithin(s, o, NOTHING, u, t, u);
    EffectWithin(o, m, t, NOTHING, t, u);
    EffectWithin(m, r, NOTHING, u, t, u);
    EffectThen(s, o, m, t, u);
    EffectThen(s, m, r, t, u);
    WindowGone(s, r, t, page);
    WindowTakes(s, o, m, r, t, u, taken);
  }

  lemma WindowTakes(s: Space, o: Space, m: Space, r: Space, t: Pages, u: Pages, taken: seq<(nat, nat)>)
    requires Effect(s, o, t, u) && Effect(o, m, t, u) && Effect(s, m, t, u) && Effect(m, r, t, u)
    requires Takes(s, o, NOTHING, WindowTables(s.mem)) && Takes(o, m, t, taken) && Takes(m, r, NOTHING, [])
    ensures Takes(s, r, t, WindowTables(s.mem) + taken)
  {
    TakesWithin(s, o, NOTHING, t, WindowTables(s.mem));
    TakesWithin(m, r, NOTHING, t, []);
    TakesThen(s, o, m, t, u, WindowTables(s.mem), taken);
    TakesThen(s, m, r, t, u, WindowTables(s.mem) + taken, []);
    assert WindowTables(s.mem) + taken + [] == WindowTables(s.mem) + taken;
  }

  lemma RoomAgain(s: Space, page: nat, m: Space, r: Space)
    requires WindowAt(s, page) && Closed(m, page, r)
    ensures Room(r.mem)
  {
    assert FreeBelow(r.mem, page);
  }

  // The window was the lowest free page and is so again.
  lemma LowestAgain(s: Space, r: Space, t: Pages, page: nat)
    requires WindowAt(s, page) && KERNEL in s.dirs && t.dir != KERNEL && Effect(s, r, t, NOTHING)
    requires Lookup(r.mem, KERNEL, page) == 0
    ensures NextFree(r.mem, LOWER) == page && (HasTable(r.mem, KERNEL, page / LENGTH) ==> WindowTables(r.mem) == [])
  {
    forall q: nat | LOWER <= q < page ensures Lookup(r.mem, KERNEL, q) != 0 {
      StaysMapped(s, r, t, NOTHING, q);
    }
    NextFreeAt(r.mem, LOWER, page);
  }

  // ---- The second window ----

  lemma SecondWindow(s: Space, page: nat, frame: nat, r: Space)
    requires WellFormed(s) && Opened(s, page, frame, r) && Roomy(s.mem)
    ensures WindowTables(r.mem) == SecondTables(s.mem)
  {
    NextFreeAt(s.mem, LOWER, page);
    forall q: nat | LOWER <= q <= page ensures Lookup(r.mem, KERNEL, q) != 0 {
      if q < page { StaysMapped(s, r, NOTHING, Pages(KERNEL, page, 1), q); }
    }
    if HasTable(s.mem, KERNEL, page / LENGTH) {
      SecondElsewhere(s, page, frame, r);
    } else {
      SecondBeside(s, page, frame, r);
    }
  }

  lemma SecondFree(mem: Memory, page: nat)
    requires Roomy(mem) && LowestFree(mem, page)
    ensures var w := NextFree(mem, page + 1);
      && page < w < SELF * LENGTH && Lookup(mem, KERNEL, w) == 0
      && forall q: nat :: page < q < w ==> Lookup(mem, KERNEL, q) != 0
  {
    var p: nat, q: nat :| p < q && FreeBelow(mem, p) && FreeBelow(mem, q);
    assert page <= p;
    NextFreeIs(mem, page + 1, q);
  }

  // A window without a new table leaves the rest of the kernel's pages alone.
  lemma SecondElsewhere(s: Space, page: nat, frame: nat, r: Space)
    requires WellFormed(s) && Opened(s, page, frame, r) && Roomy(s.mem) && HasTable(s.mem, KERNEL, page / LENGTH)
    requires NextFree(s.mem, LOWER) == page && forall q: nat :: LOWER <= q <= page ==> Lookup(r.mem, KERNEL, q) != 0
    ensures WindowTables(r.mem) == SecondTables(s.mem)
  {
    SecondFree(s.mem, page);
    var w := NextFree(s.mem, page + 1);
    forall x: nat | page < x <= w ensures Lookup(r.mem, KERNEL, x) == Lookup(s.mem, KERNEL, x) {
      OtherPage(s, page, frame, r, x);
    }
    NextFreeAt(r.mem, LOWER, w);
    OtherPage(s, page, frame, r, w);
  }

  lemma OtherPage(s: Space, page: nat, frame: nat, r: Space, x: nat)
    requires WellFormed(s) && Opened(s, page, frame, r) && WindowTables(s.mem) == [] && x < SELF * LENGTH && x != page
    ensures Lookup(r.mem, KERNEL, x) == Lookup(s.mem, KERNEL, x)
    ensures HasTable(r.mem, KERNEL, x / LENGTH) <==> HasTable(s.mem, KERNEL, x / LENGTH)
  {
    assert KeepsTable(s, r, KERNEL, x / LENGTH);
    assert !NewTable(s, r, KERNEL, x / LENGTH);
    assert Untouched(s, NOTHING, Pages(KERNEL, page, 1), KERNEL, x);
  }

  // Next to a window with a new table a cleared page is free.
  lemma SecondBeside(s: Space, page: nat, frame: nat, r: Space)
    requires WellFormed(s) && Opened(s, page, frame, r) && !HasTable(s.mem, KERNEL, page / LENGTH)
    requires NextFree(s.mem, LOWER) == page && forall q: nat :: LOWER <= q <= page ==> Lookup(r.mem, KERNEL, q) != 0
    ensures WindowTables(r.mem) == SecondTables(s.mem)
  {
    var next: nat := page + 1;
    assert next / LENGTH == page / LENGTH && next % LENGTH == 1;
    assert Untouched(s, NOTHING, Pages(KERNEL, page, 1), KERNEL, next);
    assert NewTable(s, r, KERNEL, page / LENGTH);
    assert Lookup(r.mem, KERNEL, next) == Shows(s, r, KERNEL, next) == 0;
    NextFreeAt(r.mem, LOWER, next);
  }

  // ---- A user's table, written through a window ----

  ghost predicate UserTable(s: Space, dir: nat, slot: nat, f: nat) {
    && WellFormed(s) && dir in s.dirs && dir != KERNEL && slot < LENGTH && slot != SELF
    && HasTable(s.mem, dir, slot) && TableOf(s.mem, dir, slot) == f
  }

  ghost function SlotPages(dir: nat, slot: nat): Pages {
    Pages(dir, slot * LENGTH, LENGTH)
  }

  // The words of a table are replaced.
  ghost predicate Written(s: Space, dir: nat, slot: nat, f: nat, words: seq<nat>, r: Space) {
    && UserTable(r, dir, slot, f) && f in r.mem && r.mem[f] == words
    && Effect(s, r, SlotPages(dir, slot), NOTHING) && OwnersGrow(s, r)
    && Takes(s, r, SlotPages(dir, slot), WindowTables(s.mem)) && WindowTables(r.mem) == [] && Room(r.mem)
  }

  lemma UserTableOwned(s: Space, dir: nat, slot: nat, f: nat)
    requires UserTable(s, dir, slot, f)
    ensures f in s.mem && f in s.owner && s.owner[f] == (dir, slot) && f !in s.pool && f != KERNEL
    ensures |s.mem[f]| == LENGTH
    ensures dir in s.mem && dir !in s.owner && dir !in s.pool
  {
    assert Owned(s, dir, slot);
    NotInPool(s, f);
    NotInPool(s, dir);
  }

  lemma NotInPool(s: Space, g: nat)
    requires PoolOk(s) && (g in s.dirs || g in s.owner)
    ensures g !in s.pool
  {
    assert forall k :: 0 <= k < |s.pool| ==> s.pool[k] != g;
  }

  lemma StillTable(s: Space, r: Space, dir: nat, slot: nat, f: nat)
    requires UserTable(s, dir, slot, f) && WellFormed(r) && KeepsUsers(s, r) && s.dirs == r.dirs && f in s.mem
    ensures UserTable(r, dir, slot, f) && f in r.mem && r.mem[f] == s.mem[f]
  {
    UserTableOwned(s, dir, slot, f);
    assert r.mem[dir] == s.mem[dir];
  }

  lemma TableFilled(s: Space, dir: nat, slot: nat, f: nat, words: seq<nat>)
    requires UserTable(s, dir, slot, f) && |words| == LENGTH
    ensures var r := Filled(s, f, words);
      UserTable(r, dir, slot, f) && Effect(s, r, SlotPages(dir, slot), NOTHING) && Takes(s, r, SlotPages(dir, slot), [])
  {
    UserTableOwned(s, dir, slot, f);
    FilledOk(s, f, words);
    FilledEffect(s, f, words, dir, slot);
    TakesNothing(s, Filled(s, f, words));
    TakesWithin(s, Filled(s, f, words), NOTHING, SlotPages(dir, slot), []);
  }

  lemma WindowWrite(s: Space, page: nat, dir: nat, slot: nat, f: nat, o: Space, words: seq<nat>, r: Space)
    requires UserTable(s, dir, slot, f) && Opened(s, page, f, o) && UserTable(o, dir, slot, f)
    requires |words| == LENGTH && Closed(Filled(o, f, words), page, r)
    ensures Written(s, dir, slot, f, words, r)
  {
    var m := Filled(o, f, words);
    TableFilled(o, dir, slot, f, words);
    TableClosed(m, page, dir, slot, f, r);
    WindowDone(s, page, f, o, m, r, SlotPages(dir, slot), []);
    assert WindowTables(s.mem) + [] == WindowTables(s.mem);
    LowestAgain(s, r, SlotPages(dir, slot), page);
    RoomAgain(s, page, m, r);
    SameOwners(s, o, r);
  }

  lemma TableClosed(m: Space, page: nat, dir: nat, slot: nat, f: nat, r: Space)
    requires UserTable(m, dir, slot, f) && f in m.mem && Closed(m, page, r)
    ensures UserTable(r, dir, slot, f) && f in r.mem && r.mem[f] == m.mem[f]
  {
    StillTable(m, r, dir, slot, f);
  }

  lemma SameOwners(s: Space, o: Space, r: Space)
    requires OwnersGrow(s, o) && r.owner == o.owner
    ensures OwnersGrow(s, r)
  {
  }

  lemma TablePage(r: Space, dir: nat, slot: nat, f: nat, q: nat)
    requires UserTable(r, dir, slot, f) && f in r.mem && |r.mem[f]| == LENGTH && q < PAGES && q / LENGTH == slot
    ensures Lookup(r.mem, dir, q) == Live(r.mem[f][q % LENGTH])
  {
  }

  // Of the pages of a slot only one is touched.
  lemma Narrow(s: Space, r: Space, dir: nat, page: nat)
    requires page < PAGES && page / LENGTH != SELF && Effect(s, r, SlotPages(dir, page / LENGTH), NOTHING)
    requires forall q: nat :: dir in s.dirs && q < PAGES && q / LENGTH == page / LENGTH && q != page ==>
      Lookup(r.mem, dir, q) == Shows(s, r, dir, q)
    ensures Effect(s, r, Pages(dir, page, 1), NOTHING)
  {
    var t, v := SlotPages(dir, page / LENGTH), Pages(dir, page, 1);
    SlotOfPage(page);
    forall d, slot: nat | d in s.dirs && slot < LENGTH && slot != SELF && !Cell(v, d, slot)
      ensures KeepsTable(s, r, d, slot)
    {
      assert !Cell(t, d, slot);
    }
    forall d: nat, q: nat | Untouched(s, v, NOTHING, d, q) ensures Lookup(r.mem, d, q) == Shows(s, r, d, q) {
      if !(d == dir && q / LENGTH == page / LENGTH) {
        assert Untouched(s, t, NOTHING, d, q);
      }
    }
  }

  lemma OldTableMapped(s: Space, dir: nat, page: nat, word: nat, f: nat, r: Space)
    requires page < PAGES && UserTable(s, dir, page / LENGTH, f) && f in s.mem && |s.mem[f]| == LENGTH
    requires Written(s, dir, page / LENGTH, f, s.mem[f][page % LENGTH := word], r)
    ensures Effect(s, r, Pages(dir, page, 1), NOTHING) && Lookup(r.mem, dir, page) == Live(word)
  {
    var slot := page / LENGTH;
    TablePage(r, dir, slot, f, page);
    forall q: nat | q < PAGES && q / LENGTH == slot && q != page ensures Lookup(r.mem, dir, q) == Shows(s, r, dir, q) {
      TablePage(r, dir, slot, f, q);
      TablePage(s, dir, slot, f, q);
    }
    Narrow(s, r, dir, page);
  }

  lemma NewTableMapped(s: Space, a: Space, dir: nat, page: nat, word: nat, f: nat, r: Space)
    requires WellFormed(s) && page < PAGES && Effect(s, a, SlotPages(dir, page / LENGTH), NOTHING)
    requires !HasTable(s.mem, dir, page / LENGTH)
    requires f in s.mem && |s.mem[f]| == LENGTH
    requires Written(a, dir, page / LENGTH, f, Cleared(s.mem[f])[page % LENGTH := word], r)
    ensures Effect(s, r, Pages(dir, page, 1), NOTHING) && Lookup(r.mem, dir, page) == Live(word)
  {
    var slot := page / LENGTH;
    EffectThen(s, a, r, SlotPages(dir, slot), NOTHING);
    TablePage(r, dir, slot, f, page);
    forall q: nat | q < PAGES && q / LENGTH == slot && q != page ensures Lookup(r.mem, dir, q) == Shows(s, r, dir, q) {
      TablePage(r, dir, slot, f, q);
    }
    Narrow(s, r, dir, page);
  }

  lemma TableAdded(s: Space, dir: nat, slot: nat)
    requires WellFormed(s) && dir in s.dirs && dir != KERNEL && slot < LENGTH && slot != SELF
    requires |s.pool| > 0 && !HasTable(s.mem, dir, slot)
    ensures var r, f := WithTable(s, dir, slot), s.pool[0];
      && UserTable(r, dir, slot, f) && Effect(s, r, SlotPages(dir, slot), NOTHING) && OwnersGrow(s, r)
      && f in s.mem && f in r.mem && r.mem[f] == s.mem[f] && |s.mem[f]| == LENGTH
      && (Room(s.mem) ==> Room(r.mem) && WindowTables(r.mem) == WindowTables(s.mem))
      && Takes(s, r, SlotPages(dir, slot), [(dir, slot)])
  {
    WithTableOk(s, dir, slot);
    AddedEffect(s, dir, slot);
    AddedTakes(s, dir, slot);
    TakesWithin(s, WithTable(s, dir, slot), NOTHING, SlotPages(dir, slot), [(dir, slot)]);
    if q: nat :| FreeBelow(s.mem, q) {
      WithTableElsewhere(s, dir, slot, KERNEL, q);
      assert FreeBelow(WithTable(s, dir, slot).mem, q);
      SameWindow(s, dir, slot, q);
    }
  }

  lemma SameWindow(s: Space, dir: nat, slot: nat, q: nat)
    requires WellFormed(s) && dir in s.dirs && dir != KERNEL && slot < LENGTH && slot != SELF
    requires |s.pool| > 0 && !HasTable(s.mem, dir, slot) && FreeBelow(s.mem, q)
    ensures WindowTables(WithTable(s, dir, slot).mem) == WindowTables(s.mem)
  {
    var r := WithTable(s, dir, slot);
    NextFreeIs(s.mem, LOWER, q);
    var w := NextFree(s.mem, LOWER);
    forall x: nat | x <= w ensures Lookup(r.mem, KERNEL, x) == Lookup(s.mem, KERNEL, x) {
      WithTableElsewhere(s, dir, slot, KERNEL, x);
    }
    NextFreeAt(r.mem, LOWER, w);
    WordPut(s.mem, dir, slot, s.pool[0] * 4096 + 7, KERNEL, w / LENGTH);
  }

  // ---- Clearing a table ----

  ghost function ClearedTo(words: seq<nat>, n: nat): seq<nat>
    requires |words| == LENGTH
  {
    seq(LENGTH, i requires 0 <= i < LENGTH => if i < n then 0 else words[i])
  }

  lemma ClearingKeepsWindow(s: Space, page: nat, frame: nat, words: seq<nat>)
    requires WellFormed(s) && Visible(s.mem, page, frame) && |words| == LENGTH && page < PAGES
    requires frame in s.owner && s.owner[frame] != (KERNEL, 0) && s.owner[frame] != (KERNEL, page / LENGTH)
    ensures WellFormed(Filled(s, frame, words)) && Visible(Filled(s, frame, words).mem, page, frame)
  {
    FilledOk(s, frame, words);
    FilledElsewhere(s, frame, words, KERNEL, page);
  }

  // ---- An entry of a user's directory, written through a window ----

  // A frame stands in for the table of a slot, or the slot has no table any more.
  ghost predicate EntrySet(s: Space, dir: nat, slot: nat, word: nat, r: Space) {
    && WellFormed(r) && Effect(s, r, Pages(dir, SELF * LENGTH + slot, 1), NOTHING)
    && (HasTable(r.mem, dir, slot) <==> Present(word))
    && SlotShows(s, dir, slot, word, r)
    && (forall f {:trigger f in r.owner} :: f in r.owner ==>
        f in s.owner || f in s.pool || (Present(word) && f == FrameOf(word)))
  }

  ghost predicate SlotShows(s: Space, dir: nat, slot: nat, word: nat, r: Space) {
    forall q: nat {:trigger Lookup(r.mem, dir, q)} :: q < PAGES && q / LENGTH == slot ==>
      Lookup(r.mem, dir, q) == EntryShows(s.mem, word, q % LENGTH)
  }

  lemma StillSettable(s: Space, r: Space, dir: nat, slot: nat, word: nat)
    requires Settable(s, dir, slot, word) && WellFormed(r) && s.dirs == r.dirs && s.mem.Keys == r.mem.Keys
    requires UsesPool(s, r) && OwnersGrow(s, r) && KeepsPlain(s, r)
    ensures Settable(r, dir, slot, word) && (Present(word) ==> r.mem[FrameOf(word)] == s.mem[FrameOf(word)])
  {
    if Present(word) { PlainStays(s, r, FrameOf(word)); }
  }

  lemma PlainStays(s: Space, r: Space, f: nat)
    requires Plain(s, f) && s.dirs == r.dirs && s.mem.Keys == r.mem.Keys && UsesPool(s, r) && f !in r.owner
    ensures Plain(r, f) && (KeepsPlain(s, r) ==> r.mem[f] == s.mem[f])
  {
    if f in r.pool { InSuffix(s.pool, r.pool, f); }
  }

  lemma EntryDirect(s: Space, dir: nat, slot: nat, word: nat)
    requires Settable(s, dir, slot, word)
    ensures EntrySet(s, dir, slot, word, WithEntry(s, dir, slot, word))
  {
    var r := WithEntry(s, dir, slot, word);
    WithEntryOk(s, dir, slot, word);
    WithEntryEffect(s, dir, slot, word);
    WordPut(s.mem, dir, slot, word, dir, slot);
    forall q: nat | q < PAGES && q / LENGTH == slot
      ensures Lookup(r.mem, dir, q) == EntryShows(s.mem, word, q % LENGTH)
    {
      WithEntryHere(s, dir, slot, word, q);
    }
  }

  lemma WindowEntry(s: Space, page: nat, dir: nat, slot: nat, word: nat, o: Space, m: Space, r: Space)
    requires Settable(s, dir, slot, word) && dir != KERNEL && Opened(s, page, dir, o) && Settable(o, dir, slot, word)
    requires m == WithEntry(o, dir, slot, word) && EntrySet(o, dir, slot, word, m) && Closed(m, page, r)
    ensures EntrySet(s, dir, slot, word, r) && Room(r.mem)
    ensures Takes(s, r, Pages(dir, SELF * LENGTH + slot, 1), WindowTables(s.mem)) && WindowTables(r.mem) == []
  {
    var t := Pages(dir, SELF * LENGTH + slot, 1);
    WithEntryTakes(o, dir, slot, word);
    WindowDone(s, page, dir, o, m, r, t, []);
    assert WindowTables(s.mem) + [] == WindowTables(s.mem);
    LowestAgain(s, r, t, page);
    RoomAgain(s, page, m, r);
    EntryKept(s, page, dir, slot, word, o, m, r);
    EntryOwners(s, o, r, dir, slot, word);
  }

  lemma EntryKept(s: Space, page: nat, dir: nat, slot: nat, word: nat, o: Space, m: Space, r: Space)
    requires Settable(s, dir, slot, word) && dir != KERNEL && Opened(s, page, dir, o)
    requires EntrySet(o, dir, slot, word, m) && Closed(m, page, r)
    ensures (HasTable(r.mem, dir, slot) <==> Present(word)) && SlotShows(s, dir, slot, word, r)
  {
    StillSettable(s, o, dir, slot, word);
    EntryClosed(m, page, dir, slot, r);
    EntryStays(s, o, m, r, dir, slot, word);
  }

  lemma EntryStays(s: Space, o: Space, m: Space, r: Space, dir: nat, slot: nat, word: nat)
    requires SlotShows(o, dir, slot, word, m) && (Present(word) ==> FrameOf(word) in s.mem && FrameOf(word) in o.mem)
    requires Present(word) ==> o.mem[FrameOf(word)] == s.mem[FrameOf(word)]
    requires forall q: nat {:trigger Lookup(r.mem, dir, q)} :: q < PAGES && q / LENGTH == slot ==>
      Lookup(r.mem, dir, q) == Lookup(m.mem, dir, q)
    ensures SlotShows(s, dir, slot, word, r)
  {
    forall q: nat | q < PAGES && q / LENGTH == slot
      ensures Lookup(r.mem, dir, q) == EntryShows(s.mem, word, q % LENGTH)
    {
      assert Lookup(m.mem, dir, q) == EntryShows(o.mem, word, q % LENGTH);
    }
  }

  lemma EntryClosed(m: Space, page: nat, dir: nat, slot: nat, r: Space)
    requires dir in m.dirs && dir != KERNEL && slot < LENGTH && slot != SELF && Closed(m, page, r)
    ensures HasTable(r.mem, dir, slot) <==> HasTable(m.mem, dir, slot)
    ensures forall q: nat {:trigger Lookup(r.mem, dir, q)} :: q < PAGES && q / LENGTH == slot ==>
      Lookup(r.mem, dir, q) == Lookup(m.mem, dir, q)
  {
    assert KeepsTable(m, r, dir, slot);
    assert !NewTable(m, r, dir, slot);
    forall q: nat | q < PAGES && q / LENGTH == slot ensures Lookup(r.mem, dir, q) == Lookup(m.mem, dir, q) {
      assert Untouched(m, NOTHING, Pages(KERNEL, page, 1), dir, q);
    }
  }

  lemma EntryOwners(s: Space, o: Space, r: Space, dir: nat, slot: nat, word: nat)
    requires OwnersGrow(s, o) && r.owner == OwnerWith(o, dir, slot, word)
    ensures forall g {:trigger g in r.owner} :: g in r.owner ==>
      g in s.owner || g in s.pool || (Present(word) && g == FrameOf(word))
  {
    forall g | g in r.owner ensures g in s.owner || g in s.pool || (Present(word) && g == FrameOf(word)) {
      assert g in o.owner || (Present(word) && g == FrameOf(word));
    }
  }

  // ---- Reading through a window ----

  // An unmapped page of the kernel at which the window onto its own table is opened,
  // or the directory's entry for the table that the window needs.
  ghost predicate Misread(s: Space, dir: nat, page: nat) {
    dir == KERNEL &&
    if page / LENGTH == SELF then !HasTable(s.mem, KERNEL, page % LENGTH) && LowestFree(s.mem, page % LENGTH * LENGTH)
    else HasTable(s.mem, KERNEL, page / LENGTH) && LowestFree(s.mem, page)
  }

  // What reading the entry of a page shows.
  ghost function Shown(s: Space, dir: nat, page: nat): nat {
    if !Misread(s, dir, page) then Lookup(s.mem, dir, page)
    else if page / LENGTH == SELF then (if |s.pool| > 0 then s.pool[0] * 4096 + 7 else 0)
    else TableOf(s.mem, KERNEL, page / LENGTH) * 4096 + 3
  }

  // What is read through the window onto the table f.
  lemma EntrySeen(s: Space, o: Space, dir: nat, page: nat, f: nat, view: nat)
    requires WellFormed(s) && dir in s.dirs && page < PAGES && page / LENGTH != SELF
    requires HasTable(s.mem, dir, page / LENGTH) && TableOf(s.mem, dir, page / LENGTH) == f && Opened(s, view, f, o)
    ensures Live(Word(o.mem, f, page % LENGTH)) == Shown(s, dir, page)
  {
    SlotOfPage(page);
    assert KeepsTable(s, o, dir, page / LENGTH);
    assert Live(Word(o.mem, f, page % LENGTH)) == Lookup(o.mem, dir, page);
    if LowestFree(s.mem, page) { LowestIsUnique(s.mem, page, view); }
    if (dir, page) != (KERNEL, view) {
      assert Untouched(s, NOTHING, Pages(KERNEL, view, 1), dir, page);
    }
  }

  lemma SelfSeen(s: Space, dir: nat, page: nat)
    requires WellFormed(s) && dir in s.dirs && page < PAGES && page / LENGTH == SELF
    ensures Word(s.mem, dir, SELF) == dir * 4096 + 3 && FrameOf(Word(s.mem, dir, SELF)) == dir
    ensures HasTable(s.mem, dir, SELF)
    ensures Lookup(s.mem, dir, page) == Live(Word(s.mem, dir, page % LENGTH))
  {
    assert Word(s.mem, dir, SELF) == dir * 4096 + 3;
    FrameAndFlags(dir, 3);
  }

  lemma UserEntrySeen(s: Space, o: Space, dir: nat, page: nat, view: nat)
    requires WellFormed(s) && dir in s.dirs && dir != KERNEL && page < PAGES && page / LENGTH == SELF
    requires Opened(s, view, dir, o)
    ensures Live(Word(o.mem, dir, page % LENGTH)) == Shown(s, dir, page)
  {
    SelfSeen(s, dir, page);
    NotInPool(s, dir);
    assert o.mem[dir] == s.mem[dir];
  }

  // The kernel's own directory, read while a window may have added a table to it.
  lemma KernelEntrySeen(s: Space, page: nat, view: nat)
    requires WellFormed(s) && page < PAGES && page / LENGTH == SELF && WindowAt(s, view) && Mappable(s, KERNEL, view)
    ensures Live(Word(Mapped(s, view, KERNEL * 4096 + 3).mem, KERNEL, page % LENGTH)) == Shown(s, KERNEL, page)
  {
    SelfSeen(s, KERNEL, page);
    SlotOfPage(view);
    var word, slot := KERNEL * 4096 + 3, page % LENGTH;
    MappedFrames(s, view, word);
    MappedTableWord(s, view, word);
    if slot == view / LENGTH {
      if HasTable(s.mem, KERNEL, slot) {
        assert Word(Mapped(s, view, word).mem, KERNEL, slot) == Word(s.mem, KERNEL, slot);
      } else {
        assert view == slot * LENGTH;
        FreshEntry(s, view, word);
      }
    } else {
      MappedWords(s, view, word, KERNEL, slot);
      if LowestFree(s.mem, slot * LENGTH) {
        LowestIsUnique(s.mem, slot * LENGTH, view);
      }
    }
  }

  // What the kernel's directory shows once a window is open.
  ghost predicate DirectorySeen(s: Space, o: Space) {
    forall page: nat {:trigger Shown(s, KERNEL, page)} :: page < PAGES && page / LENGTH == SELF ==>
      Live(Word(o.mem, KERNEL, page % LENGTH)) == Shown(s, KERNEL, page)
  }

  lemma DirectoryOpens(s: Space, view: nat)
    requires WellFormed(s) && WindowAt(s, view) && Mappable(s, KERNEL, view)
    ensures DirectorySeen(s, Mapped(s, view, KERNEL * 4096 + 3))
  {
    forall page: nat | page < PAGES && page / LENGTH == SELF
      ensures Live(Word(Mapped(s, view, KERNEL * 4096 + 3).mem, KERNEL, page % LENGTH)) == Shown(s, KERNEL, page)
    {
      KernelEntrySeen(s, page, view);
    }
  }

  lemma FreshEntry(s: Space, view: nat, word: nat)
    requires Mappable(s, KERNEL, view) && !HasTable(s.mem, KERNEL, view / LENGTH)
    ensures Word(Mapped(s, view, word).mem, KERNEL, view / LENGTH) == s.pool[0] * 4096 + 7
    ensures Present(s.pool[0] * 4096 + 7)
  {
    SlotOfPage(view);
    PreparedOk(s, view);
    WithTableOk(s, KERNEL, view / LENGTH);
    FrameAndFlags(s.pool[0], 7);
  }

  ghost function Resolution(mem: Memory, dir: nat, address: nat): nat {
    Physical(Lookup(mem, dir, address / 4096), address)
  }

  ghost function Physical(entry: nat, address: nat): nat {
    if entry != 0 then FrameOf(entry) * 4096 + address % 4096 else 0
  }

  // The wrong answers are never what the page map says.
  lemma MisreadIsWrong(s: Space, dir: nat, address: nat)
    requires WellFormed(s) && dir in s.dirs && address / 4096 < PAGES && Misread(s, dir, address / 4096)
    requires address / 4096 / LENGTH == SELF ==> |s.pool| > 0
    ensures Resolution(s.mem, dir, address) == 0 != Physical(Shown(s, dir, address / 4096), address)
  {
    var page := address / 4096;
    SlotOfPage(page);
    if page / LENGTH == SELF {
      SelfSeen(s, KERNEL, page);
      FrameAndFlags(s.pool[0], 7);
    } else {
      assert Owned(s, KERNEL, page / LENGTH);
      FrameAndFlags(TableOf(s.mem, KERNEL, page / LENGTH), 3);
    }
  }

  // ---- An operation that only looks ----

  ghost predicate Quiet(s: Space, r: Space) {
    WellFormed(r) && Effect(s, r, NOTHING, NOTHING) && KeepsUsers(s, r) && OwnersGrow(s, r) && Room(r.mem)
  }

  lemma QuietThen(s: Space, m: Space, r: Space)
    requires WellFormed(s) && Quiet(s, m) && Quiet(m, r)
    ensures Quiet(s, r)
  {
    EffectThen(s, m, r, NOTHING, NOTHING);
    UsersThen(s, m, r);
    OwnersThen(s, m, r);
  }

  // A window opened and closed again; the next one needs no table.
  lemma LookedThrough(s: Space, page: nat, frame: nat, o: Space, r: Space)
    requires WellFormed(s) && Opened(s, page, frame, o) && Closed(o, page, r)
    ensures Quiet(s, r) && Takes(s, r, NOTHING, WindowTables(s.mem)) && WindowTables(r.mem) == []
    ensures NextFree(r.mem, LOWER) == NextFree(s.mem, LOWER)
  {
    NextFreeAt(s.mem, LOWER, page);
    NoEffect(o);
    TakesNothing(o, o);
    WindowDone(s, page, frame, o, o, r, NOTHING, []);
    assert WindowTables(s.mem) + [] == WindowTables(s.mem);
    UsersThen(s, o, r);
    SameOwners(s, o, r);
    RoomAgain(s, page, o, r);
    LowestAgain(s, r, NOTHING, page);
  }
}
