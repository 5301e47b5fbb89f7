// Writing page tables: what mapping a page does to the flat page maps of all
// directories. The kernel's directory is frame 1; slot 0xFF of every directory
// points back to the directory itself.

module AddressSpace {
  import opened PageTable

  const KERNEL: nat := 1
  const SELF: nat := 0xFF
  const CLEARED: nat := 256

  // `pool` holds the frames that the frame allocator hands out next. `dirs` are the
  // directories, and `owner` gives the directory and slot of every page table.
  datatype Space = Space(mem: Memory, pool: seq<nat>, dirs: set<nat>, owner: map<nat, (nat, nat)>)

  ghost function TableOf(mem: Memory, dir: nat, slot: nat): nat {
    FrameOf(Word(mem, dir, slot))
  }

  ghost predicate Owned(s: Space, dir: nat, slot: nat) {
    HasTable(s.mem, dir, slot) ==>
      TableOf(s.mem, dir, slot) in s.owner && s.owner[TableOf(s.mem, dir, slot)] == (dir, slot)
  }

  ghost predicate Sized(mem: Memory) {
    forall f :: f in mem ==> |mem[f]| == LENGTH
  }

  ghost predicate PoolOk(s: Space) {
    && (forall k :: 0 <= k < |s.pool| ==>
        s.pool[k] != 0 && s.pool[k] in s.mem && s.pool[k] !in s.dirs && s.pool[k] !in s.owner)
    && (forall j, k :: 0 <= j < k < |s.pool| ==> s.pool[j] != s.pool[k])
  }

  ghost predicate WellFormed(s: Space) {
    && Sized(s.mem) && KERNEL in s.dirs && s.dirs <= s.mem.Keys && s.owner.Keys <= s.mem.Keys && s.owner.Keys !! s.dirs
    && PoolOk(s) && 0 !in s.owner
    && (forall d {:trigger Word(s.mem, d, SELF)} :: d in s.dirs ==> Word(s.mem, d, SELF) == d * 4096 + 3)
    && (forall d, slot {:trigger Owned(s, d, slot)} :: d in s.dirs && 0 <= slot < LENGTH && slot != SELF ==>
        Owned(s, d, slot))
    && Lookup(s.mem, KERNEL, 1) != 0 && FrameOf(Lookup(s.mem, KERNEL, 1)) == KERNEL
  }

  // The first quarter of a fresh table is all that is cleared.
  ghost function Cleared(words: seq<nat>): seq<nat>
    requires |words| == LENGTH
  {
    seq(LENGTH, i requires 0 <= i < LENGTH => if i < CLEARED then 0 else words[i])
  }

  function Put(mem: Memory, f: nat, i: nat, word: nat): Memory
    requires f in mem && i < |mem[f]|
  {
    var words: seq<nat> := mem[f][i := word];
    mem[f := words]
  }

  // A fresh frame becomes the table of a slot, not yet cleared.
  ghost function WithTable(s: Space, dir: nat, slot: nat): Space
    requires WellFormed(s) && dir in s.dirs && slot < LENGTH && |s.pool| > 0
  {
    var f := s.pool[0];
    Space(Put(s.mem, dir, slot, f * 4096 + 7), s.pool[1..], s.dirs, s.owner[f := (dir, slot)])
  }

  // New words for a frame.
  ghost function Filled(s: Space, f: nat, words: seq<nat>): Space {
    s.(mem := s.mem[f := words])
  }

  lemma WordPut(mem: Memory, f: nat, i: nat, word: nat, g: nat, j: nat)
    requires f in mem && i < |mem[f]|
    ensures Word(Put(mem, f, i, word), g, j) == if g == f && j == i then word else Word(mem, g, j)
  {
  }

  // ---- Filling a table changes the pages of its slot only ----

  lemma SlotOfPage(page: nat)
    requires page < PAGES
    ensures page / LENGTH < LENGTH && page % LENGTH < LENGTH
  {
  }

  lemma FilledOk(s: Space, f: nat, words: seq<nat>)
    requires WellFormed(s) && f in s.owner && |words| == LENGTH
    requires s.owner[f] == (KERNEL, 0) ==> words[1] == s.mem[f][1]
    ensures WellFormed(Filled(s, f, words))
  {
    var r := Filled(s, f, words);
    forall d, slot | d in s.dirs && 0 <= slot < LENGTH && slot != SELF ensures Owned(r, d, slot) {
      assert Owned(s, d, slot);
    }
    forall d | d in s.dirs ensures Word(r.mem, d, SELF) == d * 4096 + 3 {
      assert Word(s.mem, d, SELF) == d * 4096 + 3;
    }
    assert Owned(s, KERNEL, 0);
    assert Lookup(r.mem, KERNEL, 1) == Lookup(s.mem, KERNEL, 1);
  }

  lemma FilledElsewhere(s: Space, f: nat, words: seq<nat>, d: nat, q: nat)
    requires WellFormed(s) && f in s.owner && |words| == LENGTH
    requires d in s.dirs && q < PAGES && (d, q / LENGTH) != s.owner[f]
    ensures Lookup(Filled(s, f, words).mem, d, q) == Lookup(s.mem, d, q)
  {
    SlotOfPage(q);
    if q / LENGTH == SELF {
      assert Word(s.mem, d, SELF) == d * 4096 + 3;
      FrameAndFlags(d, 3);
    } else {
      assert Owned(s, d, q / LENGTH);
    }
  }

  lemma FilledHere(s: Space, f: nat, words: seq<nat>, d: nat, q: nat)
    requires WellFormed(s) && f in s.owner && |words| == LENGTH
    requires d in s.dirs && q < PAGES && HasTable(s.mem, d, q / LENGTH) && TableOf(s.mem, d, q / LENGTH) == f
    ensures Lookup(Filled(s, f, words).mem, d, q) == if Present(words[q % LENGTH]) then words[q % LENGTH] else 0
  {
    SlotOfPage(q);
  }

  // ---- A new table ----

  lemma WithTableOk(s: Space, dir: nat, slot: nat)
    requires WellFormed(s) && dir in s.dirs && slot < LENGTH && slot != SELF && |s.pool| > 0
    requires !HasTable(s.mem, dir, slot)
    ensures WellFormed(WithTable(s, dir, slot))
    ensures HasTable(WithTable(s, dir, slot).mem, dir, slot)
    ensures TableOf(WithTable(s, dir, slot).mem, dir, slot) == s.pool[0]
  {
    var r, f := WithTable(s, dir, slot), s.pool[0];
    FrameAndFlags(f, 7);
    forall d, t | d in s.dirs && 0 <= t < LENGTH && t != SELF ensures Owned(r, d, t) {
      assert Owned(s, d, t);
      WordPut(s.mem, dir, slot, f * 4096 + 7, d, t);
    }
    forall d | d in s.dirs ensures Word(r.mem, d, SELF) == d * 4096 + 3 {
      assert Word(s.mem, d, SELF) == d * 4096 + 3;
    }
    assert Owned(s, KERNEL, 0);
    assert Lookup(r.mem, KERNEL, 1) == Lookup(s.mem, KERNEL, 1);
    assert PoolOk(r);
  }

  lemma WithTableElsewhere(s: Space, dir: nat, slot: nat, d: nat, q: nat)
    requires WellFormed(s) && dir in s.dirs && slot < LENGTH && slot != SELF && |s.pool| > 0
    requires !HasTable(s.mem, dir, slot)
    requires d in s.dirs && q < PAGES && (d, q / LENGTH) != (dir, slot) && (d, q) != (dir, SELF * LENGTH + slot)
    ensures Lookup(WithTable(s, dir, slot).mem, d, q) == Lookup(s.mem, d, q)
  {
    SlotOfPage(q);
    if q / LENGTH == SELF {
      assert Word(s.mem, d, SELF) == d * 4096 + 3;
      FrameAndFlags(d, 3);
    } else {
      assert Owned(s, d, q / LENGTH);
    }
  }

  // ---- Mapping a page of the kernel ----

  ghost predicate Mappable(s: Space, dir: nat, page: nat) {
    && WellFormed(s) && dir in s.dirs && page < PAGES && page / LENGTH != SELF && (dir == KERNEL ==> page != 1)
    && (HasTable(s.mem, dir, page / LENGTH) || |s.pool| > 0)
  }

  // The table of the page, made and cleared if need be.
  ghost function Prepared(s: Space, page: nat): Space
    requires Mappable(s, KERNEL, page)
  {
    SlotOfPage(page);
    if HasTable(s.mem, KERNEL, page / LENGTH) then s
    else
      var t := WithTable(s, KERNEL, page / LENGTH);
      assert s.pool[0] in s.mem;
      Filled(t, s.pool[0], Cleared(s.mem[s.pool[0]]))
  }

  lemma PreparedOk(s: Space, page: nat)
    requires Mappable(s, KERNEL, page)
    ensures var p, slot := Prepared(s, page), page / LENGTH;
      && WellFormed(p) && HasTable(p.mem, KERNEL, slot) && TableOf(p.mem, KERNEL, slot) in p.owner
      && p.owner[TableOf(p.mem, KERNEL, slot)] == (KERNEL, slot) && p.dirs == s.dirs
  {
    SlotOfPage(page);
    var slot := page / LENGTH;
    assert Owned(s, KERNEL, slot);
    if !HasTable(s.mem, KERNEL, slot) {
      WithTableOk(s, KERNEL, slot);
      assert s.pool[0] in s.mem;
      NotFirstTable(s, KERNEL, slot);
      FilledOk(WithTable(s, KERNEL, slot), s.pool[0], Cleared(s.mem[s.pool[0]]));
    }
  }

  // The table that holds the kernel directory's own page is always there.
  lemma NotFirstTable(s: Space, dir: nat, slot: nat)
    requires WellFormed(s) && !HasTable(s.mem, dir, slot)
    ensures (dir, slot) != (KERNEL, 0)
  {
  }

  ghost function Mapped(s: Space, page: nat, word: nat): Space
    requires Mappable(s, KERNEL, page)
  {
    SlotOfPage(page);
    PreparedOk(s, page);
    var p := Prepared(s, page);
    var f := TableOf(p.mem, KERNEL, page / LENGTH);
    Filled(p, f, p.mem[f][page % LENGTH := word])
  }

  lemma MappedOk(s: Space, page: nat, word: nat)
    requires Mappable(s, KERNEL, page)
    ensures WellFormed(Mapped(s, page, word)) && Mapped(s, page, word).dirs == s.dirs
    ensures |Mapped(s, page, word).pool| >= |s.pool| - 1 && HasTable(Mapped(s, page, word).mem, KERNEL, page / LENGTH)
  {
    SlotOfPage(page);
    PreparedOk(s, page);
    var p := Prepared(s, page);
    var f := TableOf(p.mem, KERNEL, page / LENGTH);
    FilledOk(p, f, p.mem[f][page % LENGTH := word]);
    assert f !in p.dirs;
  }

  // The page now resolves to what was mapped.
  lemma MappedHere(s: Space, page: nat, word: nat)
    requires Mappable(s, KERNEL, page)
    ensures Lookup(Mapped(s, page, word).mem, KERNEL, page) == if Present(word) then word else 0
  {
    SlotOfPage(page);
    PreparedOk(s, page);
    var p := Prepared(s, page);
    var f := TableOf(p.mem, KERNEL, page / LENGTH);
    FilledHere(p, f, p.mem[f][page % LENGTH := word], KERNEL, page);
  }

  // Pages of other slots and other directories are left alone.
  lemma MappedOtherTable(s: Space, page: nat, word: nat, d: nat, q: nat)
    requires Mappable(s, KERNEL, page)
    requires d in s.dirs && q < PAGES && q / LENGTH != SELF && (d, q / LENGTH) != (KERNEL, page / LENGTH)
    ensures Lookup(Mapped(s, page, word).mem, d, q) == Lookup(s.mem, d, q)
  {
    SlotOfPage(page);
    PreparedOk(s, page);
    var p, slot := Prepared(s, page), page / LENGTH;
    var f := TableOf(p.mem, KERNEL, slot);
    FilledElsewhere(p, f, p.mem[f][page % LENGTH := word], d, q);
    if !HasTable(s.mem, KERNEL, slot) {
      WithTableOk(s, KERNEL, slot);
      WithTableElsewhere(s, KERNEL, slot, d, q);
      FilledElsewhere(WithTable(s, KERNEL, slot), s.pool[0], Cleared(s.mem[s.pool[0]]), d, q);
    }
  }

  // What is left in the part of a fresh table that is not cleared.
  ghost function Left(mem: Memory, f: nat, i: nat): nat {
    if i >= CLEARED && Present(Word(mem, f, i)) then Word(mem, f, i) else 0
  }

  // Other pages of the same slot: as before if the table was there; otherwise they
  // show what was left in the part of the fresh frame that is not cleared.
  lemma MappedSameTable(s: Space, page: nat, word: nat, q: nat)
    requires Mappable(s, KERNEL, page)
    requires q < PAGES && q / LENGTH == page / LENGTH && q != page
    ensures HasTable(s.mem, KERNEL, page / LENGTH) ==>
      Lookup(Mapped(s, page, word).mem, KERNEL, q) == Lookup(s.mem, KERNEL, q)
    ensures !HasTable(s.mem, KERNEL, page / LENGTH) ==> Lookup(s.mem, KERNEL, q) == 0
    ensures !HasTable(s.mem, KERNEL, page / LENGTH) ==>
      Lookup(Mapped(s, page, word).mem, KERNEL, q) == Left(s.mem, s.pool[0], q % LENGTH)
  {
    SlotOfPage(page);
    SlotOfPage(q);
    PreparedOk(s, page);
    var p, slot := Prepared(s, page), page / LENGTH;
    var f := TableOf(p.mem, KERNEL, slot);
    FilledHere(p, f, p.mem[f][page % LENGTH := word], KERNEL, q);
    if !HasTable(s.mem, KERNEL, slot) {
      WithTableOk(s, KERNEL, slot);
    }
  }

  // The frames, tables and directories behind the maps.
  lemma MappedFrames(s: Space, page: nat, word: nat)
    requires Mappable(s, KERNEL, page)
    ensures var r, slot := Mapped(s, page, word), page / LENGTH;
      && r.mem.Keys == s.mem.Keys
      && (HasTable(s.mem, KERNEL, slot) ==>
          r.pool == s.pool && r.owner == s.owner && TableOf(r.mem, KERNEL, slot) == TableOf(s.mem, KERNEL, slot))
      && (!HasTable(s.mem, KERNEL, slot) ==>
          && |s.pool| > 0 && r.pool == s.pool[1..] && r.owner == s.owner[s.pool[0] := (KERNEL, slot)]
          && TableOf(r.mem, KERNEL, slot) == s.pool[0])
      && forall g :: g in s.mem && g != KERNEL && g != TableOf(r.mem, KERNEL, slot) ==> r.mem[g] == s.mem[g]
  {
    SlotOfPage(page);
    PreparedOk(s, page);
    assert Owned(s, KERNEL, page / LENGTH);
    if !HasTable(s.mem, KERNEL, page / LENGTH) {
      WithTableOk(s, KERNEL, page / LENGTH);
    }
  }

  lemma MappedWords(s: Space, page: nat, word: nat, d: nat, slot: nat)
    requires Mappable(s, KERNEL, page) && d in s.dirs && slot < LENGTH && (d, slot) != (KERNEL, page / LENGTH)
    ensures Word(Mapped(s, page, word).mem, d, slot) == Word(s.mem, d, slot)
  {
    SlotOfPage(page);
    PreparedOk(s, page);
    if !HasTable(s.mem, KERNEL, page / LENGTH) {
      WithTableOk(s, KERNEL, page / LENGTH);
      WordPut(s.mem, KERNEL, page / LENGTH, s.pool[0] * 4096 + 7, d, slot);
    }
  }

  // ---- What an operation does to all the page maps ----

  // `count` pages of a directory.
  datatype Pages = Pages(dir: nat, from: nat, count: nat)

  const NOTHING: Pages := Pages(0, 0, 0)

  ghost predicate In(t: Pages, d: nat, q: nat) {
    d == t.dir && t.from <= q < t.from + t.count
  }

  // One of the pages is the directory's own entry for a slot.
  ghost predicate Cell(t: Pages, d: nat, slot: nat) {
    In(t, d, SELF * LENGTH + slot)
  }

  // A frame that is neither a directory nor a table nor free.
  ghost predicate Plain(s: Space, f: nat) {
    f != 0 && f in s.mem && f !in s.dirs && f !in s.owner && f !in s.pool
  }

  ghost predicate NewTable(s: Space, r: Space, d: nat, slot: nat) {
    !HasTable(s.mem, d, slot) && HasTable(r.mem, d, slot)
  }

  // What a page that is not touched shows: a new table uncovers what its frame held.
  ghost function Shows(s: Space, r: Space, d: nat, q: nat): nat {
    if NewTable(s, r, d, q / LENGTH) then Left(s.mem, TableOf(r.mem, d, q / LENGTH), q % LENGTH)
    else Lookup(s.mem, d, q)
  }

  ghost predicate KeepsTable(s: Space, r: Space, d: nat, slot: nat) {
    && (HasTable(s.mem, d, slot) ==> Word(r.mem, d, slot) == Word(s.mem, d, slot))
    && (NewTable(s, r, d, slot) ==> TableOf(r.mem, d, slot) in s.pool && TableOf(r.mem, d, slot) !in r.pool)
  }

  ghost predicate KeepsTables(s: Space, r: Space, t: Pages) {
    forall d, slot: nat {:trigger KeepsTable(s, r, d, slot)} ::
      d in s.dirs && slot < LENGTH && slot != SELF && !Cell(t, d, slot) ==> KeepsTable(s, r, d, slot)
  }

  ghost predicate Suffix<T(!new)>(a: seq<T>, b: seq<T>) {
    |b| <= |a| && forall k {:trigger b[k]} :: 0 <= k < |b| ==> b[k] == a[|a| - |b| + k]
  }

  ghost predicate UsesPool(s: Space, r: Space) {
    && Suffix(s.pool, r.pool)
    && forall f {:trigger r.mem[f]} :: f in r.pool && f in s.mem && f in r.mem ==> r.mem[f] == s.mem[f]
  }

  ghost predicate KeepsPlain(s: Space, r: Space) {
    && s.owner.Keys <= r.owner.Keys
    && forall f {:trigger r.mem[f]} :: Plain(s, f) && f in r.mem && f !in r.owner ==> r.mem[f] == s.mem[f]
  }

  ghost predicate Untouched(s: Space, t: Pages, u: Pages, d: nat, q: nat) {
    d in s.dirs && q < PAGES && q / LENGTH != SELF && !In(t, d, q) && !In(u, d, q) && !Cell(t, d, q / LENGTH)
  }

  // Outside the pages t and u every page shows what it showed before, or what a new
  // table uncovers, and new tables are frames of the pool.
  ghost predicate Effect(s: Space, r: Space, t: Pages, u: Pages) {
    && s.dirs == r.dirs && s.mem.Keys == r.mem.Keys
    && KeepsTables(s, r, t) && UsesPool(s, r) && KeepsPlain(s, r)
    && forall d: nat, q: nat {:trigger Lookup(r.mem, d, q)} :: Untouched(s, t, u, d, q) ==>
         Lookup(r.mem, d, q) == Shows(s, r, d, q)
  }

  lemma InSuffix<T(!new)>(a: seq<T>, b: seq<T>, x: T)
    requires Suffix(a, b) && x in b
    ensures x in a
  {
    var k :| 0 <= k < |b| && b[k] == x;
    assert a[|a| - |b| + k] == x;
  }

  lemma Suffixes<T(!new)>(a: seq<T>, b: seq<T>, c: seq<T>)
    requires Suffix(a, b) && Suffix(b, c)
    ensures Suffix(a, c)
  {
    forall k | 0 <= k < |c| ensures c[k] == a[|a| - |c| + k] {
      assert b[|b| - |c| + k] == c[k];
    }
  }

  lemma PoolFrame(s: Space, m: Space, f: nat)
    requires s.mem.Keys == m.mem.Keys && UsesPool(s, m) && PoolOk(s) && f in m.pool
    ensures f in s.pool && f in s.mem && m.mem[f] == s.mem[f]
  {
    InSuffix(s.pool, m.pool, f);
  }

  lemma PoolShrinks(s: Space, m: Space, r: Space)
    requires s.mem.Keys == m.mem.Keys == r.mem.Keys && UsesPool(s, m) && UsesPool(m, r) && PoolOk(s)
    ensures UsesPool(s, r) && forall f :: f in m.pool ==> f in s.pool && f in s.mem && m.mem[f] == s.mem[f]
    ensures forall f :: f in r.pool ==> f in m.pool
  {
    Suffixes(s.pool, m.pool, r.pool);
    forall f | f in m.pool ensures f in s.pool && f in s.mem && m.mem[f] == s.mem[f] {
      PoolFrame(s, m, f);
    }
    forall f | f in r.pool ensures f in m.pool && r.mem[f] == s.mem[f] {
      InSuffix(m.pool, r.pool, f);
    }
  }

  lemma PlainThen(s: Space, m: Space, r: Space)
    requires s.dirs == m.dirs && s.mem.Keys == m.mem.Keys == r.mem.Keys && PoolOk(s)
    requires UsesPool(s, m) && UsesPool(m, r) && KeepsPlain(s, m) && KeepsPlain(m, r)
    ensures KeepsPlain(s, r)
  {
    PoolShrinks(s, m, r);
    forall f | Plain(s, f) && f !in r.owner ensures r.mem[f] == s.mem[f] {
      assert f !in m.owner;
      assert m.mem[f] == s.mem[f];
      assert Plain(m, f);
    }
  }

  lemma TableThen(s: Space, m: Space, r: Space, d: nat, slot: nat)
    requires KeepsTable(s, m, d, slot) && KeepsTable(m, r, d, slot)
    requires forall f :: f in m.pool ==> f in s.pool
    requires forall f :: f in r.pool ==> f in m.pool
    ensures KeepsTable(s, r, d, slot)
  {
  }

  lemma ShowsThen(s: Space, m: Space, r: Space, d: nat, q: nat)
    requires KeepsTable(s, m, d, q / LENGTH) && KeepsTable(m, r, d, q / LENGTH)
    requires Lookup(m.mem, d, q) == Shows(s, m, d, q) && Lookup(r.mem, d, q) == Shows(m, r, d, q)
    requires forall f :: f in m.pool ==> f in s.mem && f in m.mem && m.mem[f] == s.mem[f]
    ensures Lookup(r.mem, d, q) == Shows(s, r, d, q)
  {
  }

  // Effects one after the other.
  lemma EffectThen(s: Space, m: Space, r: Space, t: Pages, u: Pages)
    requires WellFormed(s) && Effect(s, m, t, u) && Effect(m, r, t, u)
    ensures Effect(s, r, t, u)
  {
    PoolShrinks(s, m, r);
    PlainThen(s, m, r);
    forall d, slot: nat | d in s.dirs && slot < LENGTH && slot != SELF && !Cell(t, d, slot)
      ensures KeepsTable(s, r, d, slot)
    {
      assert KeepsTable(s, m, d, slot) && KeepsTable(m, r, d, slot);
      TableThen(s, m, r, d, slot);
    }
    forall d: nat, q: nat | Untouched(s, t, u, d, q) ensures Lookup(r.mem, d, q) == Shows(s, r, d, q) {
      SlotOfPage(q);
      assert Untouched(m, t, u, d, q);
      assert KeepsTable(s, m, d, q / LENGTH) && KeepsTable(m, r, d, q / LENGTH);
      assert Lookup(m.mem, d, q) == Shows(s, m, d, q);
      ShowsThen(s, m, r, d, q);
    }
  }

  ghost predicate Within(t: Pages, v: Pages) {
    t.count == 0 || (t.dir == v.dir && v.from <= t.from && t.from + t.count <= v.from + v.count)
  }

  lemma EffectWithin(s: Space, r: Space, t: Pages, u: Pages, t': Pages, u': Pages)
    requires Effect(s, r, t, u) && Within(t, t') && (Within(u, u') || Within(u, t'))
    ensures Effect(s, r, t', u')
  {
    forall d, slot: nat | d in s.dirs && slot < LENGTH && slot != SELF && !Cell(t', d, slot)
      ensures KeepsTable(s, r, d, slot)
    {
      assert !Cell(t, d, slot);
    }
    forall d: nat, q: nat | Untouched(s, t', u', d, q) ensures Lookup(r.mem, d, q) == Shows(s, r, d, q) {
      assert Untouched(s, t, u, d, q);
    }
  }

  // A window can be forgotten once it is closed.
  lemma WindowGone(s: Space, r: Space, t: Pages, w: nat)
    requires Effect(s, r, t, Pages(KERNEL, w, 1)) && Lookup(s.mem, KERNEL, w) == 0 && Lookup(r.mem, KERNEL, w) == 0
    requires HasTable(s.mem, KERNEL, w / LENGTH) || w % LENGTH < CLEARED
    ensures Effect(s, r, t, NOTHING)
  {
    forall d: nat, q: nat | Untouched(s, t, NOTHING, d, q) ensures Lookup(r.mem, d, q) == Shows(s, r, d, q) {
      if (d, q) != (KERNEL, w) {
        assert Untouched(s, t, Pages(KERNEL, w, 1), d, q);
      }
    }
  }

  lemma NoEffect(s: Space)
    ensures Effect(s, s, NOTHING, NOTHING)
  {
  }

  // What is mapped in the kernel stays mapped.
  lemma StaysMapped(s: Space, r: Space, t: Pages, u: Pages, q: nat)
    requires Effect(s, r, t, u) && KERNEL in s.dirs && q < SELF * LENGTH && !In(t, KERNEL, q) && !In(u, KERNEL, q)
    requires t.dir != KERNEL
    requires Lookup(s.mem, KERNEL, q) != 0
    ensures Lookup(r.mem, KERNEL, q) == Lookup(s.mem, KERNEL, q)
  {
    assert Untouched(s, t, u, KERNEL, q);
  }

  // ---- The effects of the single steps ----

  lemma MappedEffect(s: Space, page: nat, word: nat)
    requires Mappable(s, KERNEL, page)
    ensures Effect(s, Mapped(s, page, word), NOTHING, Pages(KERNEL, page, 1))
  {
    var r := Mapped(s, page, word);
    SlotOfPage(page);
    MappedOk(s, page, word);
    MappedFrames(s, page, word);
    forall d, slot: nat | d in s.dirs && slot < LENGTH && slot != SELF ensures KeepsTable(s, r, d, slot) {
      if (d, slot) != (KERNEL, page / LENGTH) {
        MappedWords(s, page, word, d, slot);
      } else {
        MappedTableWord(s, page, word);
      }
    }
    MappedPlain(s, page, word);
    forall d: nat, q: nat | Untouched(s, NOTHING, Pages(KERNEL, page, 1), d, q)
      ensures Lookup(r.mem, d, q) == Shows(s, r, d, q)
    {
      SlotOfPage(q);
      if (d, q / LENGTH) == (KERNEL, page / LENGTH) {
        MappedSameTable(s, page, word, q);
      } else {
        MappedOtherTable(s, page, word, d, q);
        MappedWords(s, page, word, d, q / LENGTH);
      }
    }
  }

  lemma MappedTableWord(s: Space, page: nat, word: nat)
    requires Mappable(s, KERNEL, page)
    ensures KeepsTable(s, Mapped(s, page, word), KERNEL, page / LENGTH)
  {
    SlotOfPage(page);
    PreparedOk(s, page);
    MappedFrames(s, page, word);
    if !HasTable(s.mem, KERNEL, page / LENGTH) {
      assert s.pool[0] !in s.pool[1..];
    }
  }

  lemma MappedPlain(s: Space, page: nat, word: nat)
    requires Mappable(s, KERNEL, page)
    ensures UsesPool(s, Mapped(s, page, word)) && KeepsPlain(s, Mapped(s, page, word))
  {
    SlotOfPage(page);
    var r := Mapped(s, page, word);
    MappedFrames(s, page, word);
    assert Owned(s, KERNEL, page / LENGTH);
    OneTaken(s, r, TableOf(r.mem, KERNEL, page / LENGTH));
  }

  // At most the first frame of the pool is taken, and only it and the kernel's
  // directory and table are written.
  lemma OneTaken(s: Space, r: Space, f: nat)
    requires PoolOk(s) && KERNEL in s.dirs && s.mem.Keys == r.mem.Keys
    requires forall g :: g in s.mem && g != KERNEL && g != f ==> r.mem[g] == s.mem[g]
    requires (f in s.owner && r.pool == s.pool && r.owner == s.owner) ||
      (|s.pool| > 0 && f == s.pool[0] && r.pool == s.pool[1..] && f in r.owner && s.owner.Keys <= r.owner.Keys)
    ensures UsesPool(s, r) && KeepsPlain(s, r)
  {
    assert Suffix(s.pool, r.pool);
    forall g | g in r.pool && g in s.mem && g in r.mem ensures r.mem[g] == s.mem[g] {
      var k :| 0 <= k < |r.pool| && r.pool[k] == g;
      assert g == s.pool[|s.pool| - |r.pool| + k];
    }
  }

  // A user's directory gets a table.
  lemma AddedEffect(s: Space, dir: nat, slot: nat)
    requires WellFormed(s) && dir in s.dirs && slot < LENGTH && slot != SELF && |s.pool| > 0
    requires !HasTable(s.mem, dir, slot)
    ensures Effect(s, WithTable(s, dir, slot), Pages(dir, slot * LENGTH, LENGTH), NOTHING)
  {
    var r, t := WithTable(s, dir, slot), Pages(dir, slot * LENGTH, LENGTH);
    WithTableOk(s, dir, slot);
    forall d, x: nat | d in s.dirs && x < LENGTH && x != SELF && !Cell(t, d, x) ensures KeepsTable(s, r, d, x) {
      WordPut(s.mem, dir, slot, s.pool[0] * 4096 + 7, d, x);
      assert s.pool[0] !in s.pool[1..];
    }
    forall d: nat, q: nat | Untouched(s, t, NOTHING, d, q) ensures Lookup(r.mem, d, q) == Shows(s, r, d, q) {
      SlotOfPage(q);
      WithTableElsewhere(s, dir, slot, d, q);
      WordPut(s.mem, dir, slot, s.pool[0] * 4096 + 7, d, q / LENGTH);
    }
    forall f | f in r.pool ensures r.mem[f] == s.mem[f] {
      assert f != dir;
    }
  }

  // A table gets new words.
  lemma FilledEffect(s: Space, f: nat, words: seq<nat>, dir: nat, slot: nat)
    requires WellFormed(s) && f in s.owner && s.owner[f] == (dir, slot) && |words| == LENGTH && slot < LENGTH
    requires slot != SELF
    ensures Effect(s, Filled(s, f, words), Pages(dir, slot * LENGTH, LENGTH), NOTHING)
  {
    var r, t := Filled(s, f, words), Pages(dir, slot * LENGTH, LENGTH);
    assert f !in s.pool && f !in s.dirs;
    forall d: nat, q: nat | Untouched(s, t, NOTHING, d, q) ensures Lookup(r.mem, d, q) == Shows(s, r, d, q) {
      SlotOfPage(q);
      FilledElsewhere(s, f, words, d, q);
    }
  }

  // ---- The directory's own entries ----

  ghost predicate Settable(s: Space, dir: nat, slot: nat, word: nat) {
    && WellFormed(s) && dir in s.dirs && slot < LENGTH && slot != SELF && (dir == KERNEL ==> slot != 0)
    && (Present(word) ==> Plain(s, FrameOf(word)))
  }

  // Mapping a page of slot 0xFF writes the directory: a frame becomes a table, or the
  // slot loses its table.
  ghost function WithEntry(s: Space, dir: nat, slot: nat, word: nat): Space
    requires Settable(s, dir, slot, word)
  {
    Space(Put(s.mem, dir, slot, word), s.pool, s.dirs, OwnerWith(s, dir, slot, word))
  }

  ghost function OwnerWith(s: Space, dir: nat, slot: nat, word: nat): map<nat, (nat, nat)> {
    if Present(word) then s.owner[FrameOf(word) := (dir, slot)] else s.owner
  }

  lemma WithEntryOk(s: Space, dir: nat, slot: nat, word: nat)
    requires Settable(s, dir, slot, word)
    ensures WellFormed(WithEntry(s, dir, slot, word))
  {
    var r := WithEntry(s, dir, slot, word);
    forall d, x | d in s.dirs && 0 <= x < LENGTH && x != SELF ensures Owned(r, d, x) {
      assert Owned(s, d, x);
      WordPut(s.mem, dir, slot, word, d, x);
    }
    forall d | d in s.dirs ensures Word(r.mem, d, SELF) == d * 4096 + 3 {
      assert Word(s.mem, d, SELF) == d * 4096 + 3;
      WordPut(s.mem, dir, slot, word, d, SELF);
    }
    assert Owned(s, KERNEL, 0);
    assert Lookup(r.mem, KERNEL, 1) == Lookup(s.mem, KERNEL, 1);
  }

  lemma WithEntryElsewhere(s: Space, dir: nat, slot: nat, word: nat, d: nat, q: nat)
    requires Settable(s, dir, slot, word) && d in s.dirs && q < PAGES && q / LENGTH != SELF
    requires (d, q / LENGTH) != (dir, slot)
    ensures Lookup(WithEntry(s, dir, slot, word).mem, d, q) == Lookup(s.mem, d, q)
  {
    SlotOfPage(q);
    assert Owned(s, d, q / LENGTH);
    WordPut(s.mem, dir, slot, word, d, q / LENGTH);
  }

  // What the pages of a slot show through an entry of the directory.
  ghost function EntryShows(mem: Memory, word: nat, i: nat): nat {
    if Present(word) then Live(Word(mem, FrameOf(word), i)) else 0
  }

  // The pages of that slot then resolve through the frame.
  lemma WithEntryHere(s: Space, dir: nat, slot: nat, word: nat, q: nat)
    requires Settable(s, dir, slot, word) && q < PAGES && q / LENGTH == slot
    ensures Lookup(WithEntry(s, dir, slot, word).mem, dir, q) == EntryShows(s.mem, word, q % LENGTH)
  {
    WordPut(s.mem, dir, slot, word, dir, slot);
  }

  ghost function Live(word: nat): nat {
    if Present(word) then word else 0
  }

  lemma WithEntryEffect(s: Space, dir: nat, slot: nat, word: nat)
    requires Settable(s, dir, slot, word)
    ensures Effect(s, WithEntry(s, dir, slot, word), Pages(dir, SELF * LENGTH + slot, 1), NOTHING)
  {
    var r, t := WithEntry(s, dir, slot, word), Pages(dir, SELF * LENGTH + slot, 1);
    assert dir !in s.pool;
    forall d, x: nat | d in s.dirs && x < LENGTH && x != SELF && !Cell(t, d, x) ensures KeepsTable(s, r, d, x) {
      WordPut(s.mem, dir, slot, word, d, x);
    }
    forall d: nat, q: nat | Untouched(s, t, NOTHING, d, q) ensures Lookup(r.mem, d, q) == Shows(s, r, d, q) {
      SlotOfPage(q);
      WithEntryElsewhere(s, dir, slot, word, d, q);
      WordPut(s.mem, dir, slot, word, d, q / LENGTH);
    }
  }

  // ---- Which frames become tables ----

  // The entry of a directory for which a page needs a table.
  ghost function TableFor(mem: Memory, dir: nat, page: nat): seq<(nat, nat)> {
    if HasTable(mem, dir, page / LENGTH) then [] else [(dir, page / LENGTH)]
  }

  ghost predicate Took(s: Space, r: Space, t: Pages, entry: (nat, nat), f: nat) {
    && entry.0 in s.dirs && entry.1 < LENGTH && entry.1 != SELF
    && (!Cell(t, entry.0, entry.1) ==> NewTable(s, r, entry.0, entry.1) && TableOf(r.mem, entry.0, entry.1) == f)
  }

  // The first frames of the pool became tables, for the given slots and in their order.
  ghost predicate Takes(s: Space, r: Space, t: Pages, taken: seq<(nat, nat)>) {
    && |r.pool| + |taken| == |s.pool|
    && (forall k {:trigger taken[k]} :: 0 <= k < |taken| ==> Took(s, r, t, taken[k], s.pool[k]))
    && forall d, slot: nat {:trigger NewTable(s, r, d, slot)} ::
        d in s.dirs && slot < LENGTH && slot != SELF && !Cell(t, d, slot) && NewTable(s, r, d, slot) ==>
          (d, slot) in taken
  }

  lemma TakesNothing(s: Space, r: Space)
    requires s.pool == r.pool
    requires forall d, slot: nat {:trigger Word(r.mem, d, slot)} :: d in s.dirs && slot < LENGTH ==>
      Word(r.mem, d, slot) == Word(s.mem, d, slot)
    ensures Takes(s, r, NOTHING, [])
  {
  }

  lemma TakesWithin(s: Space, r: Space, t: Pages, t': Pages, taken: seq<(nat, nat)>)
    requires Takes(s, r, t, taken) && Within(t, t')
    ensures Takes(s, r, t', taken)
  {
    forall k | 0 <= k < |taken| ensures Took(s, r, t', taken[k], s.pool[k]) {
      assert Cell(t, taken[k].0, taken[k].1) ==> Cell(t', taken[k].0, taken[k].1);
    }
    forall d, slot: nat | d in s.dirs && slot < LENGTH && slot != SELF && !Cell(t', d, slot) && NewTable(s, r, d, slot)
      ensures (d, slot) in taken
    {
      assert !Cell(t, d, slot);
    }
  }

  lemma TakesThen(s: Space, m: Space, r: Space, t: Pages, u: Pages, a: seq<(nat, nat)>, b: seq<(nat, nat)>)
    requires Effect(s, m, t, u) && Effect(m, r, t, u) && Takes(s, m, t, a) && Takes(m, r, t, b)
    ensures Takes(s, r, t, a + b)
  {
    forall k | 0 <= k < |a + b| ensures Took(s, r, t, (a + b)[k], s.pool[k]) {
      if k < |a| {
        assert (a + b)[k] == a[k];
        assert Took(s, m, t, a[k], s.pool[k]);
        assert !Cell(t, a[k].0, a[k].1) ==> KeepsTable(m, r, a[k].0, a[k].1);
      } else {
        assert (a + b)[k] == b[k - |a|];
        assert Took(m, r, t, b[k - |a|], m.pool[k - |a|]);
        assert m.pool[k - |a|] == s.pool[k];
        assert !Cell(t, b[k - |a|].0, b[k - |a|].1) ==> KeepsTable(s, m, b[k - |a|].0, b[k - |a|].1);
      }
    }
    forall d, slot: nat | d in s.dirs && slot < LENGTH && slot != SELF && !Cell(t, d, slot) && NewTable(s, r, d, slot)
      ensures (d, slot) in a + b
    {
      if HasTable(m.mem, d, slot) {
        assert NewTable(s, m, d, slot);
      } else {
        assert NewTable(m, r, d, slot);
      }
    }
  }

  lemma MappedTakes(s: Space, page: nat, word: nat)
    requires Mappable(s, KERNEL, page)
    ensures Takes(s, Mapped(s, page, word), NOTHING, TableFor(s.mem, KERNEL, page))
  {
    var r, taken := Mapped(s, page, word), TableFor(s.mem, KERNEL, page);
    SlotOfPage(page);
    MappedOk(s, page, word);
    MappedFrames(s, page, word);
    forall d, slot: nat | d in s.dirs && slot < LENGTH && slot != SELF && NewTable(s, r, d, slot)
      ensures (d, slot) in taken
    {
      if (d, slot) != (KERNEL, page / LENGTH) {
        MappedWords(s, page, word, d, slot);
      }
    }
  }

  lemma AddedTakes(s: Space, dir: nat, slot: nat)
    requires WellFormed(s) && dir in s.dirs && slot < LENGTH && slot != SELF && |s.pool| > 0
    requires !HasTable(s.mem, dir, slot)
    ensures Takes(s, WithTable(s, dir, slot), NOTHING, [(dir, slot)])
  {
    var r := WithTable(s, dir, slot);
    WithTableOk(s, dir, slot);
    forall d, x: nat | d in s.dirs && x < LENGTH && x != SELF && NewTable(s, r, d, x) ensures (d, x) in [(dir, slot)] {
      WordPut(s.mem, dir, slot, s.pool[0] * 4096 + 7, d, x);
    }
    assert Took(s, r, NOTHING, (dir, slot), s.pool[0]);
  }

  lemma WithEntryTakes(s: Space, dir: nat, slot: nat, word: nat)
    requires Settable(s, dir, slot, word)
    ensures Takes(s, WithEntry(s, dir, slot, word), Pages(dir, SELF * LENGTH + slot, 1), [])
  {
    var r, t := WithEntry(s, dir, slot, word), Pages(dir, SELF * LENGTH + slot, 1);
    forall d, x: nat | d in s.dirs && x < LENGTH && x != SELF && !Cell(t, d, x) ensures !NewTable(s, r, d, x) {
      WordPut(s.mem, dir, slot, word, d, x);
    }
  }

  // ---- Exactly when the other pages are left alone ----

  // The flat maps agree, but for the given pages.
  ghost predicate SameOutside(s: Space, r: Space, t: Pages) {
    && s.dirs == r.dirs
    && forall d, q: nat {:trigger Lookup(r.mem, d, q)} ::
         d in s.dirs && q < PAGES && q / LENGTH != SELF && !In(t, d, q) ==>
      Lookup(r.mem, d, q) == Lookup(s.mem, d, q)
  }

  // No page of slot 0xFF is among the pages.
  ghost predicate Clear(t: Pages) {
    forall slot :: 0 <= slot < LENGTH ==> !Cell(t, t.dir, slot)
  }

  // Nothing that looks like an entry is left in a frame that became a table, past
  // what is cleared and outside the given pages.
  ghost predicate CleanTables(s: Space, r: Space, t: Pages) {
    forall d, slot: nat, i: nat {:trigger NewTable(s, r, d, slot), Word(s.mem, TableOf(r.mem, d, slot), i)} ::
      d in s.dirs && slot < LENGTH && slot != SELF && NewTable(s, r, d, slot) && CLEARED <= i < LENGTH &&
        !In(t, d, slot * LENGTH + i) && !Cell(t, d, slot) ==>
        !Present(Word(s.mem, TableOf(r.mem, d, slot), i))
  }

  // The same of the frames that are taken next, for the given slots.
  ghost predicate CleanFrames(s: Space, t: Pages, taken: seq<(nat, nat)>) {
    forall k, i :: 0 <= k < |taken| && k < |s.pool| && CLEARED <= i < LENGTH && Uncovers(t, taken[k], i) ==>
      !Present(Word(s.mem, s.pool[k], i))
  }

  // Word i of the table for a slot shows in a page outside the given ones.
  ghost predicate Uncovers(t: Pages, entry: (nat, nat), i: nat) {
    !In(t, entry.0, entry.1 * LENGTH + i) && !Cell(t, entry.0, entry.1)
  }

  lemma CleanExactly(s: Space, r: Space, t: Pages, taken: seq<(nat, nat)>)
    requires Takes(s, r, t, taken)
    ensures CleanTables(s, r, t) <==> CleanFrames(s, t, taken)
  {
    if CleanTables(s, r, t) {
      forall k, i | 0 <= k < |taken| && k < |s.pool| && CLEARED <= i < LENGTH && Uncovers(t, taken[k], i)
        ensures !Present(Word(s.mem, s.pool[k], i))
      {
        assert Took(s, r, t, taken[k], s.pool[k]);
        assert NewTable(s, r, taken[k].0, taken[k].1);
        assert !Present(Word(s.mem, TableOf(r.mem, taken[k].0, taken[k].1), i));
      }
    }
    if CleanFrames(s, t, taken) {
      forall d, slot: nat, i: nat | d in s.dirs && slot < LENGTH && slot != SELF && NewTable(s, r, d, slot) &&
        CLEARED <= i < LENGTH && !In(t, d, slot * LENGTH + i) && !Cell(t, d, slot)
        ensures !Present(Word(s.mem, TableOf(r.mem, d, slot), i))
      {
        var k :| 0 <= k < |taken| && taken[k] == (d, slot);
        assert Took(s, r, t, taken[k], s.pool[k]);
        assert Uncovers(t, taken[k], i);
      }
    }
  }

  // An operation that took the given frames leaves all other pages alone if and only
  // if these frames are clean.
  lemma KeptExactly(s: Space, r: Space, t: Pages, taken: seq<(nat, nat)>)
    requires Effect(s, r, t, NOTHING) && Clear(t) && Takes(s, r, t, taken)
    ensures SameOutside(s, r, t) <==> CleanFrames(s, t, taken)
  {
    CleanExactly(s, r, t, taken);
    KeptByTables(s, r, t);
  }

  lemma KeptByTables(s: Space, r: Space, t: Pages)
    requires Effect(s, r, t, NOTHING) && Clear(t)
    ensures SameOutside(s, r, t) <==> CleanTables(s, r, t)
  {
    if CleanTables(s, r, t) {
      forall d, q: nat | d in s.dirs && q < PAGES && q / LENGTH != SELF && !In(t, d, q)
        ensures Lookup(r.mem, d, q) == Lookup(s.mem, d, q)
      {
        CleanShows(s, r, t, d, q);
        assert Untouched(s, t, NOTHING, d, q);
      }
    }
    if SameOutside(s, r, t) {
      forall d, slot: nat, i: nat | d in s.dirs && slot < LENGTH && slot != SELF && NewTable(s, r, d, slot) &&
        CLEARED <= i < LENGTH && !In(t, d, slot * LENGTH + i) && !Cell(t, d, slot)
        ensures !Present(Word(s.mem, TableOf(r.mem, d, slot), i))
      {
        var q := slot * LENGTH + i;
        assert q / LENGTH == slot && q % LENGTH == i;
        assert Untouched(s, t, NOTHING, d, q);
        assert Lookup(r.mem, d, q) == Lookup(s.mem, d, q);
      }
    }
  }

  lemma CleanShows(s: Space, r: Space, t: Pages, d: nat, q: nat)
    requires CleanTables(s, r, t) && d in s.dirs && q < PAGES && q / LENGTH != SELF && !In(t, d, q)
    requires !Cell(t, d, q / LENGTH)
    ensures Shows(s, r, d, q) == Lookup(s.mem, d, q)
  {
    SlotOfPage(q);
    var slot, i := q / LENGTH, q % LENGTH;
    assert slot * LENGTH + i == q;
    if NewTable(s, r, d, slot) && i >= CLEARED {
      assert !Present(Word(s.mem, TableOf(r.mem, d, slot), i));
    }
  }

  // Mapping a page of the kernel leaves all other pages alone exactly when its table
  // was there, or nothing that looks like an entry is left in the rest of the fresh
  // frame.
  lemma OtherPagesKeptExactly(s: Space, page: nat, word: nat)
    requires Mappable(s, KERNEL, page)
    ensures SameOutside(s, Mapped(s, page, word), Pages(KERNEL, page, 1)) <==>
      (HasTable(s.mem, KERNEL, page / LENGTH) ||
       forall i :: CLEARED <= i < LENGTH && i != page % LENGTH ==> !Present(Word(s.mem, s.pool[0], i)))
  {
    var r, t := Mapped(s, page, word), Pages(KERNEL, page, 1);
    SlotOfPage(page);
    MappedOk(s, page, word);
    MappedFrames(s, page, word);
    if HasTable(s.mem, KERNEL, page / LENGTH) ||
      (forall i :: CLEARED <= i < LENGTH && i != page % LENGTH ==> !Present(Word(s.mem, s.pool[0], i))) {
      forall d, q: nat | d in s.dirs && q < PAGES && q / LENGTH != SELF && !In(t, d, q)
        ensures Lookup(r.mem, d, q) == Lookup(s.mem, d, q)
      {
        if (d, q / LENGTH) == (KERNEL, page / LENGTH) {
          MappedSameTable(s, page, word, q);
        } else {
          MappedOtherTable(s, page, word, d, q);
        }
      }
    } else {
      var i :| CLEARED <= i < LENGTH && i != page % LENGTH && Present(Word(s.mem, s.pool[0], i));
      var q := page / LENGTH * LENGTH + i;
      assert q / LENGTH == page / LENGTH && q % LENGTH == i;
      MappedSameTable(s, page, word, q);
      assert Lookup(r.mem, KERNEL, q) != Lookup(s.mem, KERNEL, q);
    }
  }

  // A page of the kernel leaves the tables and directories of all others alone.
  lemma MappedKernelFrames(s: Space, page: nat, word: nat, g: nat)
    requires Mappable(s, KERNEL, page)
    requires g in s.mem && g != KERNEL && (g in s.owner ==> s.owner[g].0 != KERNEL) && g !in s.pool
    ensures var r := Mapped(s, page, word);
      g in r.mem && r.mem[g] == s.mem[g] && (g in s.owner ==> g in r.owner && r.owner[g] == s.owner[g])
  {
    SlotOfPage(page);
    MappedFrames(s, page, word);
    assert Owned(s, KERNEL, page / LENGTH);
  }
}
