// The kernel's operations on address spaces, sys/memory/vmemory.c. All accesses go
// through the kernel's own page tables: its directory is mapped at page 1, its tables
// appear in slot 0xFF, and everything else is mapped into a temporary window for the
// time of the operation.

module VirtualMemory {
  import opened PageTable
  import opened FreePages
  import opened AddressSpace
  import opened Windows
  import opened PageRanges
  import opened MemorySteps
  import opened TwoSided

  class Machine {
    var mem: Memory
    var pool: seq<nat>
    ghost var dirs: set<nat>
    ghost var owner: map<nat, (nat, nat)>

    ghost function Value(): Space reads this {
      Space(mem, pool, dirs, owner)
    }

    method Load(page: nat, i: nat, ghost frame: nat) returns (word: nat)
      requires Visible(mem, page, frame)
      ensures word == Word(mem, frame, i)
    {
      word := Word(mem, FrameOf(Lookup(mem, KERNEL, page)), i);
    }

    method Store(page: nat, i: nat, word: nat, ghost frame: nat)
      requires Visible(mem, page, frame) && i < |mem[frame]|
      modifies this`mem
      ensures mem == Put(old(mem), frame, i, word)
    {
      mem := Put(mem, FrameOf(Lookup(mem, KERNEL, page)), i, word);
    }

    // memset() of the first 1024 bytes of a table.
    method ClearTable(page: nat, ghost frame: nat)
      requires WellFormed(Value()) && Visible(mem, page, frame)
      requires frame in owner && owner[frame] != (KERNEL, 0) && owner[frame] != (KERNEL, page / LENGTH) && page < PAGES
      modifies this`mem
      ensures Value() == Filled(old(Value()), frame, Cleared(old(mem)[frame]))
      ensures WellFormed(Value()) && Visible(mem, page, frame)
    {
      ghost var before := Value();
      ghost var words := mem[frame];
      var i: nat := 0;
      assert ClearedTo(words, 0) == words && mem[frame := words] == mem;
      while i < CLEARED
        invariant i <= CLEARED && WellFormed(before)
        invariant mem == Filled(before, frame, ClearedTo(words, i)).mem
      {
        ClearingKeepsWindow(before, page, frame, ClearedTo(words, i));
        Store(page, i, 0, frame);
        i := i + 1;
        assert mem[frame] == ClearedTo(words, i);
      }
      ClearingKeepsWindow(before, page, frame, ClearedTo(words, i));
      assert ClearedTo(words, CLEARED) == Cleared(words);
    }

    // __vm_mapPage__noLock() for the kernel's directory.
    method MapKernel(page: nat, word: nat)
      requires Mappable(Value(), KERNEL, page)
      modifies this
      ensures Value() == Mapped(old(Value()), page, word)
      ensures WellFormed(Value())
    {
      ghost var before := Value();
      SlotOfPage(page);
      MappedOk(before, page, word);
      PreparedOk(before, page);
      var slot := page / LENGTH;
      DirectoryWindow(before);
      var entry := Load(1, slot, KERNEL);
      if !Present(entry) {
        var f := pool[0];
        WithTableOk(before, KERNEL, slot);
        NotFirstTable(before, KERNEL, slot);
        pool := pool[1..];
        Store(1, slot, f * 4096 + 7, KERNEL);
        owner := owner[f := (KERNEL, slot)];
        assert Value() == WithTable(before, KERNEL, slot);
        RecursiveWindow(Value(), slot);
        ClearTable(SELF * LENGTH + slot, f);
      }
      assert Value() == Prepared(before, page);
      RecursiveWindow(Value(), slot);
      Store(SELF * LENGTH + slot, page % LENGTH, word, TableOf(mem, KERNEL, slot));
    }

    // The same for a page of slot 0xFF, which is an entry of the directory itself.
    method SetKernelEntry(slot: nat, word: nat)
      requires Settable(Value(), KERNEL, slot, word)
      modifies this
      ensures Value() == WithEntry(old(Value()), KERNEL, slot, word)
      ensures EntrySet(old(Value()), KERNEL, slot, word, Value())
    {
      EntryDirect(Value(), KERNEL, slot, word);
      SelfSeen(Value(), KERNEL, SELF * LENGTH + slot);
      RecursiveWindow(Value(), SELF);
      ghost var entered := OwnerWith(Value(), KERNEL, slot, word);
      Store(SELF * LENGTH + SELF, slot, word, KERNEL);
      owner := entered;
    }

    // __vm_alloc_noLock() of one page of the kernel, for a frame to be looked at.
    method OpenWindow(frame: nat) returns (page: nat)
      requires WellFormed(Value()) && Room(mem) && |pool| >= |WindowTables(mem)| && frame in mem
      modifies this
      ensures Opened(old(Value()), page, frame, Value())
      ensures frame == KERNEL ==> DirectorySeen(old(Value()), Value())
    {
      ghost var before := Value();
      page := FindFreePages(mem, KERNEL, 1, LOWER, UPPER);
      RoomFound(before, page);
      MapKernel(page, frame * 4096 + 3);
      JustOpened(before, page, frame, Value());
    }

    // The window is unmapped again.
    method CloseWindow(page: nat)
      requires WellFormed(Value()) && LOWER < page < SELF * LENGTH && HasTable(mem, KERNEL, page / LENGTH)
      modifies this
      ensures Closed(old(Value()), page, Value())
    {
      WindowCloses(Value(), page);
      MapKernel(page, 0);
    }

    // A user's table is changed through its window, and cleared before if it is new.
    method FillTable(page: nat, f: nat, blank: bool, i: nat, word: nat, ghost dir: nat, ghost slot: nat)
      requires UserTable(Value(), dir, slot, f) && Visible(mem, page, f) && page < PAGES && i < LENGTH
      requires f in mem && |mem[f]| == LENGTH
      modifies this`mem
      ensures Value() == Filled(old(Value()), f, (if blank then Cleared(old(mem)[f]) else old(mem)[f])[i := word])
    {
      UserTableOwned(Value(), dir, slot, f);
      if blank {
        ClearTable(page, f);
      }
      Store(page, i, word, f);
    }

    // A user's page table is mapped, changed and unmapped.
    method WriteTable(f: nat, blank: bool, i: nat, word: nat, ghost dir: nat, ghost slot: nat)
      requires UserTable(Value(), dir, slot, f) && Room(mem) && |pool| >= |WindowTables(mem)| && i < LENGTH
      requires f in mem && |mem[f]| == LENGTH
      modifies this
      ensures Written(old(Value()), dir, slot, f, (if blank then Cleared(old(mem)[f]) else old(mem)[f])[i := word],
                      Value())
    {
      ghost var before := Value();
      var page := OpenWindow(f);
      ghost var open := Value();
      StillTable(before, open, dir, slot, f);
      FillTable(page, f, blank, i, word, dir, slot);
      ghost var words := (if blank then Cleared(before.mem[f]) else before.mem[f])[i := word];
      TableFilled(open, dir, slot, f, words);
      StillOpen(open, Value(), SlotPages(dir, slot), page, f);
      CloseWindow(page);
      WindowWrite(before, page, dir, slot, f, open, words, Value());
    }

    // A fresh frame is entered into a user's directory, through the directory's window.
    method AddTable(window: nat, ghost dir: nat, slot: nat) returns (f: nat)
      requires WellFormed(Value()) && dir in dirs && dir != KERNEL && Visible(mem, window, dir)
      requires slot < LENGTH && slot != SELF && |pool| > 0 && !HasTable(mem, dir, slot)
      modifies this
      ensures Value() == WithTable(old(Value()), dir, slot) && f == old(pool)[0]
    {
      f := pool[0];
      pool := pool[1..];
      Store(window, slot, f * 4096 + 7, dir);
      owner := owner[f := (dir, slot)];
    }

    // __vm_mapPage__noLock() for a user's directory that is mapped at `window`.
    method MapUser(window: nat, ghost dir: nat, page: nat, word: nat)
      requires Mappable(Value(), dir, page) && dir != KERNEL && Visible(mem, window, dir)
      requires Room(mem) && |pool| >= |TableFor(mem, dir, page)| + |WindowTables(mem)|
      modifies this
      ensures WellFormed(Value()) && Room(mem) && OwnersGrow(old(Value()), Value())
      ensures Effect(old(Value()), Value(), Pages(dir, page, 1), NOTHING)
      ensures Takes(old(Value()), Value(), Pages(dir, page, 1), TableFor(old(mem), dir, page) + WindowTables(old(mem)))
      ensures Lookup(mem, dir, page) == Live(word) && HasTable(mem, dir, page / LENGTH) && WindowTables(mem) == []
    {
      ghost var before := Value();
      SlotOfPage(page);
      var slot := page / LENGTH;
      var entry := Load(window, slot, dir);
      var f: nat;
      if !Present(entry) {
        TableAdded(before, dir, slot);
        f := AddTable(window, dir, slot);
        ghost var added := Value();
        WriteTable(f, true, page % LENGTH, word, dir, slot);
        NewTableMapped(before, added, dir, page, word, f, Value());
        OwnersThen(before, added, Value());
        BothTaken(before, added, Value(), dir, page, WindowTables(before.mem));
      } else {
        f := FrameOf(entry);
        UserTableOwned(before, dir, slot, f);
        WriteTable(f, false, page % LENGTH, word, dir, slot);
        OldTableMapped(before, dir, page, word, f, Value());
        WindowTaken(before, Value(), dir, page, WindowTables(before.mem));
      }
    }

    // The same for a page of slot 0xFF, which is an entry of the directory itself.
    method SetUserEntry(dir: nat, slot: nat, word: nat)
      requires Settable(Value(), dir, slot, word) && dir != KERNEL && Room(mem) && |pool| >= |WindowTables(mem)|
      modifies this
      ensures EntrySet(old(Value()), dir, slot, word, Value()) && Room(mem)
      ensures Takes(old(Value()), Value(), Pages(dir, SELF * LENGTH + slot, 1), WindowTables(old(mem)))
      ensures WindowTables(mem) == []
    {
      ghost var before := Value();
      var page := OpenWindow(dir);
      ghost var open := Value();
      StillSettable(before, open, dir, slot, word);
      EntryDirect(open, dir, slot, word);
      Store(page, slot, word, dir);
      owner := OwnerWith(open, dir, slot, word);
      ghost var entered := Value();
      assert entered == WithEntry(open, dir, slot, word);
      StillOpen(open, entered, Pages(dir, SELF * LENGTH + slot, 1), page, dir);
      CloseWindow(page);
      WindowEntry(before, page, dir, slot, word, open, entered, Value());
    }

    // __vm_mapPage__noLock() for a directory that is mapped at `window`.
    method MapOne(window: nat, dir: nat, page: nat, word: nat)
      requires WellFormed(Value()) && Ready(Value(), dir, page, word)
      requires dir != KERNEL ==> Visible(mem, window, dir) && window < SELF * LENGTH && Room(mem)
      modifies this
      ensures MappedOne(old(Value()), dir, page, word, Value())
      ensures Takes(old(Value()), Value(), Pages(dir, page, 1), OneTables(old(mem), dir, page))
      ensures dir != KERNEL ==> Visible(mem, window, dir) && Room(mem) && WindowTables(mem) == []
    {
      ghost var before := Value();
      ghost var t := Pages(dir, page, 1);
      if page / LENGTH == SELF {
        assert page == SELF * LENGTH + page % LENGTH;
        if dir == KERNEL {
          SetKernelEntry(page % LENGTH, word);
          KernelEntered(before, page, word, Value());
        } else {
          SetUserEntry(dir, page % LENGTH, word);
          UserEntered(before, dir, page, word, Value());
          StillOpen(before, Value(), t, window, dir);
        }
      } else if dir == KERNEL {
        KernelMapped(before, page, word);
        MapKernel(page, word);
      } else {
        MapUser(window, dir, page, word);
        UserMapped(before, dir, page, word, Value());
        StillOpen(before, Value(), t, window, dir);
      }
    }

    method MapNext(window: nat, dir: nat, page: nat, word: nat, ghost s: Space, ghost t: Pages, ghost base: nat,
                   ghost step: nat, ghost k: nat, ghost first: seq<(nat, nat)>)
      requires WellFormed(s) && Placeable(s, t) && CellsOk(s, t, base, step)
      requires Underway(s, Value(), t, base, step, k, first)
      requires |s.pool| >= |RunTables(s.mem, t, base, step, t.count, first)|
      requires dir == t.dir && k < t.count && page == t.from + k && word == WordFor(t, base, step, page)
      requires dir != KERNEL ==> Visible(mem, window, dir) && window < SELF * LENGTH && Room(mem)
      modifies this
      ensures Underway(s, Value(), t, base, step, k + 1, first)
      ensures dir != KERNEL ==> Visible(mem, window, dir) && Room(mem)
    {
      ghost var now := Value();
      ReadyAt(s, now, t, base, step, k, first, page, word);
      MapOne(window, dir, page, word);
      PageDone(s, now, Value(), t, base, step, k, first, page, word);
    }

    // __vm_mapPageRange__noLock(), and the loop of vm_free(): page + k gets the word
    // base + k * step.
    method MapEach(window: nat, dir: nat, page: nat, pages: nat, base: nat, step: nat)
      requires WellFormed(Value()) && Placeable(Value(), Pages(dir, page, pages))
      requires CellsOk(Value(), Pages(dir, page, pages), base, step)
      requires |pool| >= |RunTables(mem, Pages(dir, page, pages), base, step, pages, OpenTables(mem, dir))|
      requires dir != KERNEL ==> Visible(mem, window, dir) && window < SELF * LENGTH && Room(mem)
      modifies this
      ensures RunDone(old(Value()), Value(), Pages(dir, page, pages), base, step,
                      RunTables(old(mem), Pages(dir, page, pages), base, step, pages, OpenTables(old(mem), dir)))
    {
      ghost var before := Value();
      ghost var t := Pages(dir, page, pages);
      ghost var first := OpenTables(mem, dir);
      var k: nat, next: nat, word: nat := 0, page, base;
      Begin(before, t, base, step, first);
      WordNext(t, base, step, page);
      while k < pages
        invariant k <= pages && next == page + k && word == WordFor(t, base, step, next)
        invariant Underway(before, Value(), t, base, step, k, first)
        invariant dir != KERNEL ==> Visible(mem, window, dir) && Room(mem)
      {
        MapNext(window, dir, next, word, before, t, base, step, k, first);
        WordNext(t, base, step, next);
        k, next, word := k + 1, next + 1, word + step;
      }
      AllDone(before, Value(), t, base, step, k, first);
    }

    // vm_mapPageRange__noLock(). The run holds its words and no other page of any
    // directory differs if and only if the frames that are taken for tables, for the
    // run or for windows, hold no old entry that is not cleared, and the frames for
    // pages of slot 0xFF fit.
    method MapRange(dir: nat, page: nat, pages: nat, base: nat, step: nat)
      requires WellFormed(Value()) && (dir != KERNEL ==> Roomy(mem))
      requires Placeable(Value(), Pages(dir, page, pages)) && CellsOk(Value(), Pages(dir, page, pages), base, step)
      requires |pool| >= |RangeTables(mem, Pages(dir, page, pages), base, step)|
      modifies this
      ensures RunDone(old(Value()), Value(), Pages(dir, page, pages), base, step,
                      RangeTables(old(mem), Pages(dir, page, pages), base, step))
      ensures RangeMapped(old(Value()), Value(), Pages(dir, page, pages), base, step) <==>
        && CleanFrames(old(Value()), Pages(dir, page, pages),
                       RangeTables(old(mem), Pages(dir, page, pages), base, step))
        && FramesFit(old(Value()), Pages(dir, page, pages), base, step)
    {
      ghost var before := Value();
      ghost var t := Pages(dir, page, pages);
      if dir == KERNEL {
        MapEach(1, dir, page, pages, base, step);
      } else {
        RoomyIsRoom(before);
        var window := OpenWindow(dir);
        ghost var open := Value();
        RunOpened(before, open, t, base, step, window);
        MapEach(window, dir, page, pages, base, step);
        ghost var mapped := Value();
        StillOpen(open, mapped, t, window, dir);
        CloseWindow(window);
        RunClosed(before, open, mapped, Value(), t, base, step, window,
                  RunTables(before.mem, t, base, step, pages, SecondTables(before.mem)));
      }
      RangeMappedExactly(before, Value(), t, base, step, RangeTables(before.mem, t, base, step));
    }

    // vm_mapPage__noLock().
    method MapPage(dir: nat, page: nat, word: nat)
      requires WellFormed(Value()) && (dir != KERNEL ==> Roomy(mem)) && |pool| >= |SingleTables(mem, dir, page)|
      requires Placeable(Value(), Pages(dir, page, 1)) && CellsOk(Value(), Pages(dir, page, 1), word, 0)
      modifies this
      ensures RunDone(old(Value()), Value(), Pages(dir, page, 1), word, 0, SingleTables(old(mem), dir, page))
      ensures RangeMapped(old(Value()), Value(), Pages(dir, page, 1), word, 0) <==>
        && CleanFrames(old(Value()), Pages(dir, page, 1), SingleTables(old(mem), dir, page))
        && FramesFit(old(Value()), Pages(dir, page, 1), word, 0)
      ensures page / LENGTH != SELF ==> Lookup(mem, dir, page) == Live(word)
      ensures page / LENGTH != SELF ==>
        (SameOutside(old(Value()), Value(), Pages(dir, page, 1)) <==>
         CleanFrames(old(Value()), Pages(dir, page, 1), SingleTables(old(mem), dir, page)))
    {
      ghost var before := Value();
      ghost var t := Pages(dir, page, 1);
      OnePageTables(before, dir, page, word, 0);
      if dir == KERNEL {
        Begin(before, t, word, 0, []);
        MapNext(1, dir, page, word, before, t, word, 0, 0, []);
      } else {
        RoomyIsRoom(before);
        var window := OpenWindow(dir);
        ghost var open := Value();
        RunOpened(before, open, t, word, 0, window);
        Begin(open, t, word, 0, WindowTables(open.mem));
        MapNext(window, dir, page, word, open, t, word, 0, 0, WindowTables(open.mem));
        ghost var mapped := Value();
        StillOpen(open, mapped, t, window, dir);
        CloseWindow(window);
        RunClosed(before, open, mapped, Value(), t, word, 0, window,
                  RunTables(before.mem, t, word, 0, 1, SecondTables(before.mem)));
      }
      RangeMappedExactly(before, Value(), t, word, 0, SingleTables(before.mem, dir, page));
      if page / LENGTH != SELF {
        SinglePage(before, Value(), dir, page, word, SingleTables(before.mem, dir, page));
      }
    }

    // vm_free(): every page of the run is unmapped, and every page of a slot whose
    // entry lies in the run. No other page of any directory differs if and only if the
    // frames that are taken are clean and no other page of such a slot was mapped.
    method Release(dir: nat, page: nat, pages: nat)
      requires WellFormed(Value()) && (dir != KERNEL ==> Roomy(mem))
      requires Placeable(Value(), Pages(dir, page, pages)) && CellsOk(Value(), Pages(dir, page, pages), 0, 0)
      requires |pool| >= |RangeTables(mem, Pages(dir, page, pages), 0, 0)|
      modifies this
      ensures RunDone(old(Value()), Value(), Pages(dir, page, pages), 0, 0,
                      RangeTables(old(mem), Pages(dir, page, pages), 0, 0))
      ensures forall q: nat :: Determined(Pages(dir, page, pages), pages, q) ==> Lookup(mem, dir, q) == 0
      ensures SameOutside(old(Value()), Value(), Pages(dir, page, pages)) <==>
        && CleanFrames(old(Value()), Pages(dir, page, pages), RangeTables(old(mem), Pages(dir, page, pages), 0, 0))
        && NothingLost(old(mem), Pages(dir, page, pages))
    {
      ghost var before := Value();
      ghost var t := Pages(dir, page, pages);
      MapRange(dir, page, pages, 0, 0);
      ReleasedShows(before, Value(), t);
      ReleasedMeans(before, Value(), t);
    }

    // ---- Reading ----

    // __vm_getPagetableEntry() for a directory that is mapped at `window`.
    method GetEntry(window: nat, ghost dir: nat, page: nat) returns (entry: nat)
      requires WellFormed(Value()) && dir in dirs && Visible(mem, window, dir)
      requires page < PAGES && Room(mem) && |pool| >= |LookTables(mem, dir, page, WindowTables(mem))|
      modifies this
      ensures Quiet(old(Value()), Value())
      ensures Takes(old(Value()), Value(), NOTHING, LookTables(old(mem), dir, page, WindowTables(old(mem))))
      ensures entry == Shown(old(Value()), dir, page)
    {
      ghost var before := Value();
      SlotOfPage(page);
      var word := Load(window, page / LENGTH, dir);
      if !Present(word) {
        NotThere(before, dir, page);
        return 0;
      }
      var f := FrameOf(word);
      TableInMemory(before, dir, page);
      var view := OpenWindow(f);
      ghost var open := Value();
      var x := Load(view, page % LENGTH, f);
      WordSeen(before, open, dir, page, f, view);
      CloseWindow(view);
      LookedThrough(before, view, f, open, Value());
      return if Present(x) then x else 0;
    }

    // A user's directory is mapped for the time of the access.
    method EntryOf(dir: nat, page: nat) returns (entry: nat)
      requires WellFormed(Value()) && dir in dirs
      requires page < PAGES && Roomy(mem) && |pool| >= |ReadTables(mem, dir, page)|
      modifies this
      ensures WellFormed(Value()) && Effect(old(Value()), Value(), NOTHING, NOTHING)
      ensures Takes(old(Value()), Value(), NOTHING, ReadTables(old(mem), dir, page))
      ensures entry == Shown(old(Value()), dir, page)
    {
      ghost var before := Value();
      RoomyIsRoom(before);
      if dir == KERNEL {
        DirectoryWindow(before);
        entry := GetEntry(1, KERNEL, page);
      } else {
        var window := OpenWindow(dir);
        ghost var open := Value();
        UserLookupKept(before, open, dir, page);
        SecondWindow(before, window, dir, open);
        entry := GetEntry(window, dir, page);
        ghost var read := Value();
        StillOpen(open, read, NOTHING, window, dir);
        CloseWindow(window);
        WindowDone(before, window, dir, open, read, Value(), NOTHING,
                   LookTables(open.mem, dir, page, WindowTables(open.mem)));
      }
    }

    // vm_resolveVirtualAddress(). The answer is that of the page map unless it is read
    // where a window is opened, and then it is wrong.
    method Resolve(dir: nat, address: nat) returns (physical: nat)
      requires WellFormed(Value()) && dir in dirs
      requires address / 4096 < PAGES && Roomy(mem) && |pool| >= |ReadTables(mem, dir, address / 4096)|
      modifies this
      ensures WellFormed(Value()) && Effect(old(Value()), Value(), NOTHING, NOTHING)
      ensures Takes(old(Value()), Value(), NOTHING, ReadTables(old(mem), dir, address / 4096))
      ensures SameOutside(old(Value()), Value(), NOTHING) <==>
        CleanFrames(old(Value()), NOTHING, ReadTables(old(mem), dir, address / 4096))
      ensures physical == Physical(Shown(old(Value()), dir, address / 4096), address)
      ensures physical == Resolution(old(mem), dir, address) <==> !Misread(old(Value()), dir, address / 4096)
      ensures !Misread(old(Value()), dir, address / 4096) ==>
        var entry := Lookup(old(mem), dir, address / 4096);
        if entry == 0 then physical == 0
        else physical / 4096 == FrameOf(entry) && physical % 4096 == address % 4096
    {
      ghost var before := Value();
      var entry := EntryOf(dir, address / 4096);
      KeptExactly(before, Value(), NOTHING, ReadTables(before.mem, dir, address / 4096));
      if Misread(before, dir, address / 4096) {
        MisreadTakes(before, dir, address / 4096);
        MisreadIsWrong(before, dir, address);
      }
      ShownIsLive(before, dir, address / 4096);
      if !Present(entry) {
        return 0;
      }
      return FrameOf(entry) * 4096 + address % 4096;
    }

    // ---- Searching and allocating ----

    // One table of a user's search, read through a window of its own.
    method ScanUser(f: nat, pages: nat, table: nat, first: nat, start: nat, count: nat,
                    ghost s: Space, ghost window: nat, ghost dir: nat, ghost q: Request, ghost base: nat,
                    ghost looked: bool)
        returns (regionStart: nat, found: nat, ghost pos: nat, ghost newBase: nat)
      requires Looking(s, Value(), window, dir, looked) && |s.pool| >= |WindowTables(s.mem)| && table < LENGTH
      requires pages == q.pages
      requires HasTable(s.mem, dir, table) && f == TableOf(s.mem, dir, table)
      requires first < LENGTH && count < pages && (count > 0 ==> start == base)
      requires Scanning(ViewOf(s.mem, dir), q, table * LENGTH + first, base, count)
      requires table * LENGTH + first == q.lower ==> Excess(ViewOf(s.mem, dir), q.lower) == 0
      modifies this
      ensures Scanned(ViewOf(s.mem, dir), q, table, first, regionStart, found, pos, newBase)
      ensures Looking(s, Value(), window, dir, true)
    {
      ghost var before := Value();
      UserFrame(s, before, dir, table, f);
      var page := OpenWindow(f);
      ghost var open := Value();
      var words := WordsOf(mem, FrameOf(Lookup(mem, KERNEL, page)));
      UserWords(s, before, open, dir, table, f, page);
      ReadsOne(s.mem, dir, table);
      regionStart, found, pos, newBase := ScanTable([words], pages, table, first, start, count, ViewOf(s.mem, dir), q,
                                                    base);
      CloseWindow(page);
      LookedAgain(s, before, open, Value(), window, dir, looked, f, page);
    }

    // One pass of the loop: a table, or the gap of an absent one.
    method VisitTable(window: nat, pages: nat, table: nat, page: nat, start: nat, count: nat,
                      ghost s: Space, ghost dir: nat, ghost q: Request, ghost pos: nat, ghost base: nat,
                      ghost looked: bool)
        returns (regionStart: nat, found: nat, ghost newPos: nat, ghost newBase: nat, ghost newLooked: bool)
      requires Searching(s, Value(), window, dir, ViewOf(s.mem, dir), q, looked, table, page, count, start, pos, base)
      requires Goes(q, table, count) && table < LENGTH && pages == q.pages && |s.pool| >= |SearchTables(s.mem, dir, q)|
      modifies this
      ensures Searching(s, Value(), window, dir, ViewOf(s.mem, dir), q, newLooked, table + 1, 0, found, regionStart,
                        newPos, newBase)
    {
      var entry := Load(window, table, dir);
      UserWord(s, Value(), dir, table);
      CursorHere(ViewOf(s.mem, dir), q, table, page, count, start, pos, base);
      if Present(entry) {
        VisitPaid(s, dir, q, table, page, count, start, pos, base);
        regionStart, found, newPos, newBase := ScanUser(FrameOf(entry), pages, table, page, start, count, s, window,
                                                        dir, q, base, looked);
        CursorScanned(ViewOf(s.mem, dir), q, table, page, count, pos, found, regionStart, newPos, newBase);
      } else {
        CursorAbsent(ViewOf(s.mem, dir), q, table, page, count, start, pos, base);
        regionStart := if count == 0 then table * LENGTH + page else start;
        found, newPos, newBase := count + LENGTH, (table + 1) * LENGTH, base;
      }
      SearchNext(s, Value(), window, dir, ViewOf(s.mem, dir), q, looked, table, found, regionStart, newPos, newBase);
      newLooked := looked || HasTable(s.mem, dir, table);
    }

    // __vm_findFreePages__user() for a directory that is mapped at `window`. All the
    // windows together take one table at most.
    method SearchUser(window: nat, ghost dir: nat, pages: nat, lower: nat, upper: nat) returns (start: nat)
      requires WellFormed(Value()) && dir in dirs && dir != KERNEL && Visible(mem, window, dir)
      requires window < SELF * LENGTH
      requires Room(mem) && Proper(Request(pages, lower, upper))
      requires |pool| >= |SearchTables(mem, dir, Request(pages, lower, upper))|
      modifies this
      ensures Answered(old(Value()), Value(), window, dir, Request(pages, lower, upper), start)
    {
      ghost var s, q := Value(), Request(pages, lower, upper);
      ghost var v := ViewOf(mem, dir);
      var regionStart: nat := 0;
      var table: nat := lower / LENGTH;
      var page: nat := lower % LENGTH;
      var found: nat := 0;
      ghost var base: nat, pos: nat := lower, lower;
      ghost var looked := false;
      DirectoryIsRegular(mem, dir);
      SearchStart(s, window, dir, v, q);
      while Goes(Request(pages, lower, upper), table, found)
        invariant Searching(s, Value(), window, dir, v, q, looked, table, page, found, regionStart, pos, base)
        decreases LENGTH + 1 - table
      {
        if table >= LENGTH {
          SearchDone(s, Value(), window, dir, q, looked, table, page, found, regionStart, pos, base, 0);
          return 0;
        }
        regionStart, found, pos, base, looked := VisitTable(window, pages, table, page, regionStart, found, s, dir, q,
                                                            pos, base, looked);
        page := 0;
        table := table + 1;
      }
      start := if found >= pages && Accepted(Request(pages, lower, upper), regionStart) then regionStart else 0;
      SearchDone(s, Value(), window, dir, q, looked, table, page, found, regionStart, pos, base, start);
    }

    // The kernel's table of a slot, seen in slot 0xFF.
    method KernelTable(slot: nat) returns (tables: seq<seq<nat>>)
      requires WellFormed(Value()) && slot < LENGTH
      ensures tables == KernelTables(mem, slot)
    {
      DirectoryWindow(Value());
      var entry := Load(1, slot, KERNEL);
      tables := [];
      if Present(entry) {
        tables := [WordsOf(mem, FrameOf(Lookup(mem, KERNEL, SELF * LENGTH + slot)))];
      }
    }

    // One table of the user and one of the kernel; the window onto the first is open
    // while the second is read.
    method ScanBoth(f: nat, pages: nat, table: nat, first: nat, start: nat, count: nat,
                    ghost s: Space, ghost window: nat, ghost dir: nat, ghost q: Request, ghost base: nat,
                    ghost looked: bool)
        returns (regionStart: nat, found: nat, ghost pos: nat, ghost newBase: nat)
      requires Looking(s, Value(), window, dir, looked) && |s.pool| >= |WindowTables(s.mem)| && table < LENGTH
      requires pages == q.pages
      requires HasTable(s.mem, dir, table) && f == TableOf(s.mem, dir, table) && q.lower / LENGTH <= table
      requires first < LENGTH && count < pages && (count > 0 ==> start == base)
      requires Scanning(BothView(s, dir, q.lower), q, table * LENGTH + first, base, count)
      requires table * LENGTH + first == q.lower ==> Excess(BothView(s, dir, q.lower), q.lower) == 0
      modifies this
      ensures Scanned(BothView(s, dir, q.lower), q, table, first, regionStart, found, pos, newBase)
      ensures Looking(s, Value(), window, dir, true)
    {
      ghost var before := Value();
      UserFrame(s, before, dir, table, f);
      var page := OpenWindow(f);
      ghost var open := Value();
      var words := WordsOf(mem, FrameOf(Lookup(mem, KERNEL, page)));
      UserWords(s, before, open, dir, table, f, page);
      var kernel := KernelTable(table);
      ReadsBoth(s, before, open, window, dir, q.lower, looked, table, f, page, words);
      regionStart, found, pos, newBase := ScanTable([words] + kernel, pages, table, first, start, count,
                                                    BothView(s, dir, q.lower), q, base);
      CloseWindow(page);
      LookedAgain(s, before, open, Value(), window, dir, looked, f, page);
    }

    // One pass of the loop: a table of one of the two, or the gap where both have none.
    method VisitBoth(window: nat, pages: nat, table: nat, page: nat, start: nat, count: nat,
                     ghost s: Space, ghost dir: nat, ghost q: Request, ghost pos: nat, ghost base: nat,
                      ghost looked: bool)
        returns (regionStart: nat, found: nat, ghost newPos: nat, ghost newBase: nat, ghost newLooked: bool)
      requires Searching(s, Value(), window, dir, BothView(s, dir, q.lower), q, looked, table, page, count, start, pos,
                         base)
      requires Goes(q, table, count) && table < LENGTH && pages == q.pages && |s.pool| >= |PeekTables(s, dir, q)|
      modifies this
      ensures Searching(s, Value(), window, dir, BothView(s, dir, q.lower), q, newLooked, table + 1, 0, found,
                        regionStart, newPos, newBase)
    {
      ghost var v := BothView(s, dir, q.lower);
      var entry := Load(window, table, dir);
      UserWord(s, Value(), dir, table);
      var kernel := KernelTable(table);
      CursorHere(v, q, table, page, count, start, pos, base);
      SeesTable(s, Value(), window, dir, q.lower, looked, table);
      if Present(entry) {
        PeekPaid(s, dir, q, table, page, count, start, pos, base);
        regionStart, found, newPos, newBase := ScanBoth(FrameOf(entry), pages, table, page, start, count, s, window,
                                                        dir, q, base, looked);
        CursorScanned(v, q, table, page, count, pos, found, regionStart, newPos, newBase);
      } else if |kernel| > 0 {
        ReadsKernel(s, Value(), window, dir, q.lower, looked, table);
        regionStart, found, newPos, newBase := ScanTable(kernel, pages, table, page, start, count, v, q, base);
        CursorScanned(v, q, table, page, count, pos, found, regionStart, newPos, newBase);
      } else {
        CursorAbsent(v, q, table, page, count, start, pos, base);
        regionStart := if count == 0 then table * LENGTH + page else start;
        found, newPos, newBase := count + LENGTH, (table + 1) * LENGTH, base;
      }
      SearchNext(s, Value(), window, dir, v, q, looked, table, found, regionStart, newPos, newBase);
      newLooked := looked || HasTable(s.mem, dir, table);
    }

    // __vm_findFreePagesTwoSided() for a directory that is mapped at `window`.
    method SearchBoth(window: nat, ghost dir: nat, pages: nat, lower: nat, upper: nat) returns (start: nat)
      requires WellFormed(Value()) && dir in dirs && dir != KERNEL && Visible(mem, window, dir)
      requires window < SELF * LENGTH
      requires Room(mem) && Proper(Request(pages, lower, upper))
      requires |pool| >= |PeekTables(Value(), dir, Request(pages, lower, upper))|
      modifies this
      ensures BothAnswered(old(Value()), Value(), window, dir, Request(pages, lower, upper), start)
    {
      ghost var s, q := Value(), Request(pages, lower, upper);
      ghost var v := BothView(s, dir, lower);
      var regionStart: nat := 0;
      var table: nat := lower / LENGTH;
      var page: nat := lower % LENGTH;
      var found: nat := 0;
      ghost var base: nat, pos: nat := lower, lower;
      ghost var looked := false;
      BothRegular(s, dir, lower);
      SearchStart(s, window, dir, v, q);
      while Goes(Request(pages, lower, upper), table, found)
        invariant Searching(s, Value(), window, dir, v, q, looked, table, page, found, regionStart, pos, base)
        decreases LENGTH + 1 - table
      {
        if table >= LENGTH {
          BothDone(s, Value(), window, dir, q, looked, table, page, found, regionStart, pos, base, 0);
          return 0;
        }
        regionStart, found, pos, base, looked := VisitBoth(window, pages, table, page, regionStart, found, s, dir, q,
                                                           pos, base, looked);
        page := 0;
        table := table + 1;
      }
      start := if found >= pages && Accepted(Request(pages, lower, upper), regionStart) then regionStart else 0;
      BothDone(s, Value(), window, dir, q, looked, table, page, found, regionStart, pos, base, start);
    }

    // The search of an allocation, in the directory that is mapped at `window`.
    method FindRun(window: nat, dir: nat, pages: nat, lower: nat, upper: nat, ghost frame: nat, ghost flags: nat)
        returns (start: nat)
      requires WellFormed(Value()) && Allocable(Value(), dir, frame, flags, Request(pages, lower, upper))
      requires dir != KERNEL ==> Visible(mem, window, dir) && window < SELF * LENGTH && Room(mem)
      requires dir != KERNEL ==> |pool| >= |SearchTables(mem, dir, Request(pages, lower, upper))|
      modifies this
      ensures Searched(old(Value()), Value(), dir, frame, flags, Request(pages, lower, upper), start)
      ensures dir != KERNEL ==> Visible(mem, window, dir) && Room(mem)
    {
      ghost var before := Value();
      if dir == KERNEL {
        NoEffect(before);
        start := Search(mem, KERNEL, pages, lower, upper);
      } else {
        start := SearchUser(window, dir, pages, lower, upper);
        SearchedUser(before, Value(), window, dir, frame, flags, Request(pages, lower, upper), start);
      }
    }

    // vm_allocLimit() for a directory that is mapped at `window`.
    method AllocIn(window: nat, dir: nat, frame: nat, pages: nat, lower: nat, upper: nat, flags: nat)
        returns (start: nat)
      requires WellFormed(Value()) && Allocable(Value(), dir, frame, flags, Request(pages, lower, upper))
      requires Filling(Value(), dir, Request(pages, lower, upper), frame * 4096 + flags, OpenTables(mem, dir))
      requires dir != KERNEL ==> Visible(mem, window, dir) && window < SELF * LENGTH && Room(mem)
      modifies this
      ensures Allocated(old(Value()), dir, frame, flags, Request(pages, lower, upper), start, Value(),
                        FillTables(old(mem), dir, Request(pages, lower, upper), start, frame * 4096 + flags,
                                   OpenTables(old(mem), dir)))
    {
      ghost var before, q := Value(), Request(pages, lower, upper);
      start := FindRun(window, dir, pages, lower, upper, frame, flags);
      ghost var found := Value();
      if start != 0 {
        RunFits(before, found, dir, frame, flags, q, start);
        MapEach(window, dir, start, pages, frame * 4096 + flags, 4096);
        RunFilled(before, found, Value(), dir, frame, flags, q, start,
                  RunTables(found.mem, Pages(dir, start, pages), frame * 4096 + flags, 4096, pages,
                            OpenTables(found.mem, dir)));
      } else {
        NoneFound(before, found, dir, frame, flags, q);
      }
    }

    // The same for a user's directory, which is mapped for the time of the operation.
    method AllocUser(dir: nat, frame: nat, pages: nat, lower: nat, upper: nat, flags: nat) returns (start: nat)
      requires WellFormed(Value()) && Allocable(Value(), dir, frame, flags, Request(pages, lower, upper))
      requires dir != KERNEL && Roomy(mem)
      requires Affordable(Value(), dir, Request(pages, lower, upper), frame * 4096 + flags)
      modifies this
      ensures Allocated(old(Value()), dir, frame, flags, Request(pages, lower, upper), start, Value(),
                        AllocTables(old(mem), dir, Request(pages, lower, upper), start, frame * 4096 + flags))
    {
      ghost var before, q := Value(), Request(pages, lower, upper);
      RoomyIsRoom(before);
      var window := OpenWindow(dir);
      ghost var open := Value();
      AllocOpened(before, open, dir, frame, flags, q, window);
      start := AllocIn(window, dir, frame, pages, lower, upper, flags);
      ghost var mapped := Value();
      ghost var taken := FillTables(open.mem, dir, q, start, frame * 4096 + flags, OpenTables(open.mem, dir));
      AllocatedOpen(open, dir, frame, flags, q, start, mapped, taken, window);
      CloseWindow(window);
      AllocatedClosed(before, open, dir, frame, flags, q, start, mapped, taken, window, Value());
    }

    // vm_allocLimit(): the lowest run that the search accepts is mapped to consecutive
    // frames. The run holds its words and no other page of any directory differs if
    // and only if the frames that are taken for tables are clean and the frames for
    // pages of slot 0xFF fit. The run ends below the upper limit, or with the address
    // space.
    method AllocLimit(dir: nat, frame: nat, pages: nat, lower: nat, upper: nat, flags: nat) returns (start: nat)
      requires WellFormed(Value()) && Allocable(Value(), dir, frame, flags, Request(pages, lower, upper))
      requires Affordable(Value(), dir, Request(pages, lower, upper), frame * 4096 + flags)
      requires dir != KERNEL ==> Roomy(mem)
      modifies this
      ensures Allocated(old(Value()), dir, frame, flags, Request(pages, lower, upper), start, Value(),
                        AllocTables(old(mem), dir, Request(pages, lower, upper), start, frame * 4096 + flags))
      ensures AllocExact(old(Value()), dir, frame, flags, Request(pages, lower, upper), start, Value(),
                         AllocTables(old(mem), dir, Request(pages, lower, upper), start, frame * 4096 + flags))
      ensures start != 0 ==> start + pages <= upper || start + pages == PAGES
    {
      ghost var before, q := Value(), Request(pages, lower, upper);
      if dir == KERNEL {
        start := AllocIn(1, dir, frame, pages, lower, upper, flags);
      } else {
        start := AllocUser(dir, frame, pages, lower, upper, flags);
      }
      AllocatedExactly(before, dir, frame, flags, q, start, Value(),
                       AllocTables(before.mem, dir, q, start, frame * 4096 + flags));
    }

    // vm_alloc(): between the lowest and the highest page.
    method Alloc(dir: nat, frame: nat, pages: nat, flags: nat) returns (start: nat)
      requires WellFormed(Value()) && Allocable(Value(), dir, frame, flags, Request(pages, LOWER, UPPER))
      requires Affordable(Value(), dir, Request(pages, LOWER, UPPER), frame * 4096 + flags)
      requires dir != KERNEL ==> Roomy(mem)
      modifies this
      ensures Allocated(old(Value()), dir, frame, flags, Request(pages, LOWER, UPPER), start, Value(),
                        AllocTables(old(mem), dir, Request(pages, LOWER, UPPER), start, frame * 4096 + flags))
      ensures AllocExact(old(Value()), dir, frame, flags, Request(pages, LOWER, UPPER), start, Value(),
                         AllocTables(old(mem), dir, Request(pages, LOWER, UPPER), start, frame * 4096 + flags))
      ensures start != 0 ==> start + pages <= PAGES
    {
      start := AllocLimit(dir, frame, pages, LOWER, UPPER, flags);
    }
  }
}
