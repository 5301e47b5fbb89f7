// The kernel heap of sys/memory/heap.c: zones of pages cut into blocks that are
// described by a fixed table of slots in the zone's first page.  The model keeps
// the table layout (so the table can run out), the counters, the first-fit
// search, the never-decreased freeSize and the defragmentation pass as written.

module ZoneHeap {
  import opened Common

  const PAGE_SIZE: nat := 4096
  const WORD: nat := 0x1_0000_0000
  const EXTRA_PADDING: nat := 16
  const ZONE_HEADER: nat := 52   // sizeof(heap_zone_t), 13 words

  datatype Kind = Tiny | Small | Medium | Large
  datatype Use = Free | Used | Unused
  datatype Slot = Slot(use: Use, size: nat, addr: nat)

  function KindForSize(size: nat): Kind {
    if size > 2048 then Large else if size > 256 then Medium else if size > 64 then Small else Tiny
  }

  function PagesForSize(size: nat): nat {
    match KindForSize(size)
    case Tiny => 1
    case Small => 5
    case Medium => 20
    case Large => (size + PAGE_SIZE - 1) / PAGE_SIZE
  }

  // Tiny zones use 4-byte records, all others 12-byte records.
  function RecordSize(kind: Kind): nat {
    if kind.Tiny? then 4 else 12
  }

  function MaxAllocations(kind: Kind): nat {
    (PAGE_SIZE - ZONE_HEADER) / RecordSize(kind)
  }

  // The table starts after the header but its end is computed from the start of
  // the page, so it holds fewer records than MaxAllocations.
  function TableLength(kind: Kind): nat {
    (MaxAllocations(kind) * RecordSize(kind) - ZONE_HEADER + RecordSize(kind) - 1) / RecordSize(kind)
  }

  // 998 records in a tiny zone, 333 in the others.
  lemma TableLengths(kind: Kind)
    ensures TableLength(kind) == if kind.Tiny? then 998 else 333
  {
  }

  // Requests of up to 64, 256 and 2048 bytes get zones of 1, 5 and 20 pages; a longer
  // one gets a zone of its own, of just as many pages as it fills.
  lemma ZoneForSize(size: nat)
    ensures size <= 64 ==> KindForSize(size) == Tiny && PagesForSize(size) == 1
    ensures 64 < size <= 256 ==> KindForSize(size) == Small && PagesForSize(size) == 5
    ensures 256 < size <= 2048 ==> KindForSize(size) == Medium && PagesForSize(size) == 20
    ensures 2048 < size ==> KindForSize(size) == Large && size <= PagesForSize(size) * 4096 < size + 4096
  {
  }

  function Required(aligned: bool, size: nat): nat {
    size + (if aligned then size % 4 else 0) + EXTRA_PADDING
  }

  // ------------------------------------------------------------------ tiling

  predicate Live(s: Slot) {
    !s.use.Unused?
  }

  predicate Covers(s: Slot, a: nat) {
    Live(s) && s.addr <= a < s.addr + s.size
  }

  ghost predicate Inside(s: Slot, begin: nat, end: nat) {
    Live(s) ==> s.size > 0 && begin <= s.addr && s.addr + s.size <= end
  }

  ghost predicate Apart(s: Slot, t: Slot) {
    Live(s) && Live(t) ==> s.addr + s.size <= t.addr || t.addr + t.size <= s.addr
  }

  ghost predicate Covered(ss: seq<Slot>, a: nat) {
    exists i :: 0 <= i < |ss| && Covers(ss[i], a)
  }

  // The live slots cut [begin, end) into blocks: no gap, no overlap.
  ghost predicate Tiles(ss: seq<Slot>, begin: nat, end: nat) {
    && (forall i {:trigger Inside(ss[i], begin, end)} :: 0 <= i < |ss| ==> Inside(ss[i], begin, end))
    && (forall i, j {:trigger Apart(ss[i], ss[j])} :: 0 <= i < |ss| && 0 <= j < |ss| && i != j ==> Apart(ss[i], ss[j]))
    && (forall a :: begin <= a < end ==> Covered(ss, a))
  }

  // The number of slots in one of the given uses.
  function Count(ss: seq<Slot>, uses: set<Use>): nat {
    if ss == [] then 0 else Count(ss[..|ss| - 1], uses) + if ss[|ss| - 1].use in uses then 1 else 0
  }

  lemma {:induction false} CountUpdate(ss: seq<Slot>, uses: set<Use>, i: nat, s: Slot)
    requires i < |ss|
    ensures Count(ss[i := s], uses)
         == Count(ss, uses) - (if ss[i].use in uses then 1 else 0) + (if s.use in uses then 1 else 0)
  {
    var n := |ss| - 1;
    if i < n {
      CountUpdate(ss[..n], uses, i, s);
      assert ss[i := s][..n] == ss[..n][i := s];
    } else {
      assert ss[i := s][..n] == ss[..n];
    }
  }

  // ----------------------------------------------------------- table updates

  function Retype(ss: seq<Slot>, i: nat, use: Use): seq<Slot>
    requires i < |ss|
  {
    ss[i := ss[i].(use := use)]
  }

  // Slot i keeps its first `required` bytes; the unused slot j takes the rest.
  function Cut(ss: seq<Slot>, i: nat, j: nat, required: nat): seq<Slot>
    requires i < |ss| && j < |ss| && required <= ss[i].size
  {
    ss[i := Slot(Used, required, ss[i].addr)][j := Slot(Free, ss[i].size - required, ss[i].addr + required)]
  }

  lemma RetypeTiles(ss: seq<Slot>, begin: nat, end: nat, i: nat, use: Use)
    requires Tiles(ss, begin, end) && i < |ss| && Live(ss[i]) && !use.Unused?
    ensures Tiles(Retype(ss, i, use), begin, end)
  {
    var ss' := Retype(ss, i, use);
    forall k | 0 <= k < |ss'| ensures Inside(ss'[k], begin, end) { assert Inside(ss[k], begin, end); }
    forall p, q | 0 <= p < |ss'| && 0 <= q < |ss'| && p != q ensures Apart(ss'[p], ss'[q]) {
      assert Apart(ss[p], ss[q]);
    }
    forall a | begin <= a < end ensures Covered(ss', a) {
      assert Covered(ss, a);
      var k :| 0 <= k < |ss| && Covers(ss[k], a);
      assert Covers(ss'[k], a);
    }
  }

  lemma CutTiles(ss: seq<Slot>, begin: nat, end: nat, i: nat, j: nat, required: nat)
    requires Tiles(ss, begin, end) && i < |ss| && j < |ss|
    requires Live(ss[i]) && ss[j].use.Unused? && 0 < required < ss[i].size
    ensures Tiles(Cut(ss, i, j, required), begin, end)
  {
    var ss' := Cut(ss, i, j, required);
    assert Inside(ss[i], begin, end);
    forall k | 0 <= k < |ss'| ensures Inside(ss'[k], begin, end) { assert Inside(ss[k], begin, end); }
    forall a | begin <= a < end ensures Covered(ss', a) {
      assert Covered(ss, a);
      var k :| 0 <= k < |ss| && Covers(ss[k], a);
      if k == i {
        assert Covers(ss'[i], a) || Covers(ss'[j], a);
      } else {
        assert Covers(ss'[k], a);
      }
    }
    forall p, q | 0 <= p < |ss'| && 0 <= q < |ss'| && p != q ensures Apart(ss'[p], ss'[q]) {
      assert Apart(ss[p], ss[i]) || p == i;
      assert Apart(ss[q], ss[i]) || q == i;
      assert Apart(ss[p], ss[q]);
    }
  }

  lemma CutCounts(ss: seq<Slot>, i: nat, j: nat, required: nat)
    requires i < |ss| && j < |ss| && required <= ss[i].size && ss[i].use.Free? && ss[j].use.Unused?
    ensures Count(Cut(ss, i, j, required), {Free, Used}) == Count(ss, {Free, Used}) + 1
    ensures Count(Cut(ss, i, j, required), {Free}) == Count(ss, {Free})
  {
    var s, t := Slot(Used, required, ss[i].addr), Slot(Free, ss[i].size - required, ss[i].addr + required);
    CountUpdate(ss, {Free, Used}, i, s);
    CountUpdate(ss, {Free}, i, s);
    CountUpdate(ss[i := s], {Free, Used}, j, t);
    CountUpdate(ss[i := s], {Free}, j, t);
  }

  // ------------------------------------------------------ the table of a fresh zone

  // 4096 bytes cut into blocks of at most 255 bytes, the largest a record can hold.
  function TinySlot(begin: nat, i: nat): Slot {
    if 255 * i < PAGE_SIZE then
      Slot(Free, if PAGE_SIZE - 255 * i < 255 then PAGE_SIZE - 255 * i else 255, begin + 255 * i)
    else Slot(Unused, 0, begin + 0xFFFF)
  }

  lemma TinyTableTiles(ss: seq<Slot>, begin: nat)
    requires |ss| > 16 && forall i :: 0 <= i < |ss| ==> ss[i] == TinySlot(begin, i)
    ensures Tiles(ss, begin, begin + PAGE_SIZE)
  {
    forall a | begin <= a < begin + PAGE_SIZE ensures Covered(ss, a) {
      assert Covers(ss[(a - begin) / 255], a);
    }
    forall i, j | 0 <= i < |ss| && 0 <= j < |ss| && i != j ensures Apart(ss[i], ss[j]) {
    }
  }

  // The table of a zone for blocks of the given size, whose pages start at `begin`.
  function FreshTable(size: nat, begin: nat): seq<Slot> {
    if KindForSize(size).Tiny? then seq(TableLength(Tiny), i requires 0 <= i => TinySlot(begin, i))
    else
      seq(TableLength(KindForSize(size)), i =>
        if i == 0 then Slot(Free, PagesForSize(size) * PAGE_SIZE, begin) else Slot(Unused, 0, 0))
  }

  lemma SingleTableTiles(ss: seq<Slot>, begin: nat, size: nat)
    requires |ss| > 0 && size > 0 && ss[0] == Slot(Free, size, begin)
    requires forall i :: 1 <= i < |ss| ==> ss[i].use.Unused?
    ensures Tiles(ss, begin, begin + size)
  {
    forall a | begin <= a < begin + size ensures Covered(ss, a) {
      assert Covers(ss[0], a);
    }
  }

  lemma {:induction false} CountPrefix(ss: seq<Slot>, uses: set<Use>, n: nat)
    requires n <= |ss|
    requires forall i :: 0 <= i < |ss| ==> (ss[i].use in uses <==> i < n)
    ensures Count(ss, uses) == n
  {
    if |ss| > n {
      CountPrefix(ss[..|ss| - 1], uses, n);
    } else if n > 0 {
      CountPrefix(ss[..|ss| - 1], uses, n - 1);
    }
  }

  // ------------------------------------------------------------------- zones

  // What a zone holds, as a value.
  datatype ZoneValue = ZoneValue(
    kind: Kind, begin: nat, end: nat, pages: nat, maxAllocations: nat,
    freeSize: nat, allocations: nat, freeAllocations: nat, table: seq<Slot>)

  ghost predicate ZoneOk(v: ZoneValue) {
    && |v.table| == TableLength(v.kind) && v.maxAllocations == MaxAllocations(v.kind)
    && v.begin >= PAGE_SIZE && v.pages >= 1 && v.end == v.begin + (v.pages - 1) * PAGE_SIZE
    && Tiles(v.table, v.begin, v.end)
    && v.allocations == Count(v.table, {Free, Used})
    && v.freeAllocations == Count(v.table, {Free})
    && (v.kind.Tiny? ==> forall i :: 0 <= i < |v.table| && Live(v.table[i]) ==> v.table[i].size <= 255)
  }

  // How freeing a block of the given length counts in a zone that stays.
  ghost predicate Counted(v: ZoneValue, changes: nat, length: nat, w: ZoneValue, newChanges: nat) {
    var next := (changes + 1) % 0x1_0000_0000;
    && w == v.(freeSize := (v.freeSize + length) % 0x1_0000_0000, freeAllocations := v.freeAllocations + 1,
               table := w.table)
    && newChanges == if next >= (if v.kind.Tiny? then 100 else 20) && w.freeAllocations >= 2 then 0 else next
  }

  class Zone {
    const kind: Kind
    const begin: nat
    const end: nat
    const pages: nat
    const maxAllocations: nat
    const slots: array<Slot>
    var changes: nat
    var freeSize: nat
    var allocations: nat
    var freeAllocations: nat

    ghost function Snapshot(): ZoneValue
      reads this, slots
    {
      ZoneValue(kind, begin, end, pages, maxAllocations, freeSize, allocations, freeAllocations, slots[..])
    }

    ghost predicate Valid()
      reads this, slots
    {
      ZoneOk(Snapshot())
    }

    // A zone for blocks of the given size, in the pages that start at `base`.
    constructor (size: nat, base: nat)
      ensures Valid() && fresh(slots)
      ensures kind == KindForSize(size) && begin == base + PAGE_SIZE
      ensures end == begin + PagesForSize(size) * PAGE_SIZE && pages == PagesForSize(size) + 1
      ensures changes == 0 && freeSize == PagesForSize(size) * PAGE_SIZE
      ensures allocations == freeAllocations && slots[..] == FreshTable(size, begin)
      ensures slots[0].use.Free? && slots[0].addr == begin && slots[0].size >= size
      ensures !kind.Large? ==> slots[0].size >= Required(true, size)
    {
      TableLengths(KindForSize(size));
      var n := PagesForSize(size);
      var table := TableLength(KindForSize(size));
      kind, begin, end, pages := KindForSize(size), base + PAGE_SIZE, base + PAGE_SIZE + n * PAGE_SIZE, n + 1;
      maxAllocations, changes, freeSize := MaxAllocations(KindForSize(size)), 0, n * PAGE_SIZE;
      allocations, freeAllocations := 0, 0;
      slots := new Slot[table](_ => Slot(Unused, 0, 0));
      new;
      if kind.Tiny? {
        FillTiny();
      } else {
        FillSingle();
      }
      assert slots[..] == FreshTable(size, begin);
    }

    method FillSingle()
      requires slots.Length > 0 && freeSize > 0 && forall i :: 0 <= i < slots.Length ==> slots[i] == Slot(Unused, 0, 0)
      modifies slots, `allocations, `freeAllocations
      ensures Tiles(slots[..], begin, begin + freeSize) && allocations == freeAllocations
      ensures allocations == Count(slots[..], {Free, Used}) && freeAllocations == Count(slots[..], {Free})
      ensures slots[0] == Slot(Free, freeSize, begin)
      ensures forall i :: 1 <= i < slots.Length ==> slots[i] == Slot(Unused, 0, 0)
    {
      slots[0] := Slot(Free, freeSize, begin);
      allocations, freeAllocations := 1, 1;
      SingleTableTiles(slots[..], begin, freeSize);
      CountPrefix(slots[..], {Free, Used}, 1);
      CountPrefix(slots[..], {Free}, 1);
    }

    method FillTiny()
      requires kind.Tiny? && slots.Length == TableLength(Tiny) && freeSize == PAGE_SIZE
      requires allocations == freeAllocations == 0
      modifies slots, `allocations, `freeAllocations
      ensures Tiles(slots[..], begin, begin + PAGE_SIZE) && allocations == freeAllocations
      ensures allocations == Count(slots[..], {Free, Used}) && freeAllocations == Count(slots[..], {Free})
      ensures forall i :: 0 <= i < slots.Length ==> slots[i] == TinySlot(begin, i)
    {
      var sizeLeft, offset := freeSize, 0;
      for i := 0 to slots.Length
        invariant offset == (if i <= 16 then 255 * i else PAGE_SIZE) && sizeLeft == PAGE_SIZE - offset
        invariant allocations == freeAllocations == if i <= 17 then i else 17
        invariant forall j :: 0 <= j < i ==> slots[j] == TinySlot(begin, j)
      {
        if sizeLeft > 0 {
          var size := if sizeLeft < 255 then sizeLeft else 255;
          slots[i] := Slot(Free, size, begin + offset);
          offset, sizeLeft := offset + size, sizeLeft - size;
          allocations, freeAllocations := allocations + 1, freeAllocations + 1;
        } else {
          slots[i] := Slot(Unused, 0, begin + 0xFFFF);
        }
      }
      TinyTableTiles(slots[..], begin);
      CountPrefix(slots[..], {Free, Used}, 17);
      CountPrefix(slots[..], {Free}, 17);
    }
  
    // The first free block of at least the given size.
    method FindFree(required: nat) returns (r: Option<nat>)
      ensures r.None? ==> forall i :: 0 <= i < slots.Length ==> !(slots[i].use.Free? && slots[i].size >= required)
      ensures r.Some? ==> r.value < slots.Length && slots[r.value].use.Free? && slots[r.value].size >= required
      ensures r.Some? ==> forall i :: 0 <= i < r.value ==> !(slots[i].use.Free? && slots[i].size >= required)
    {
      for i := 0 to slots.Length
        invariant forall j :: 0 <= j < i ==> !(slots[j].use.Free? && slots[j].size >= required)
      {
        if slots[i].use.Free? && slots[i].size >= required {
          return Some(i);
        }
      }
      return None;
    }

    // The used block that starts at `pointer`.
    method FindUsed(pointer: nat) returns (r: Option<nat>)
      ensures r.None? <==> forall i :: 0 <= i < slots.Length ==> !(slots[i].use.Used? && slots[i].addr == pointer)
      ensures r.Some? ==> r.value < slots.Length && slots[r.value].use.Used? && slots[r.value].addr == pointer
    {
      for i := 0 to slots.Length
        invariant forall j :: 0 <= j < i ==> !(slots[j].use.Used? && slots[j].addr == pointer)
      {
        if slots[i].addr == pointer && slots[i].use.Used? {
          return Some(i);
        }
      }
      return None;
    }

    method FindUnused() returns (r: Option<nat>)
      ensures r.None? <==> forall i :: 0 <= i < slots.Length ==> Live(slots[i])
      ensures r.Some? ==> r.value < slots.Length && slots[r.value].use.Unused?
      ensures r.Some? ==> forall i :: 0 <= i < r.value ==> Live(slots[i])
    {
      for i := 0 to slots.Length
        invariant forall j :: 0 <= j < i ==> Live(slots[j])
      {
        if slots[i].use.Unused? {
          return Some(i);
        }
      }
      return None;
    }

    // Marks block i used; what exceeds `required` becomes a free block of its
    // own, provided the table has a record left for it.
    method Carve(i: nat, required: nat) returns (ghost rest: Option<nat>)
      requires i < slots.Length && slots[i].use.Free? && freeAllocations > 0
      modifies slots, `allocations, `freeAllocations
      ensures rest.Some? <==>
        old(slots[i].size) > required && exists j :: 0 <= j < slots.Length && old(slots[j].use.Unused?)
      ensures rest.Some? ==> rest.value < slots.Length && old(slots[rest.value].use.Unused?)
                             && slots[..] == Cut(old(slots[..]), i, rest.value, required)
      ensures rest.None? ==> slots[..] == Retype(old(slots[..]), i, Used)
      ensures allocations == old(allocations) + if rest.Some? then 1 else 0
      ensures freeAllocations == old(freeAllocations) - if rest.Some? then 0 else 1
    {
      rest := None;
      ghost var ss := slots[..];
      slots[i] := slots[i].(use := Used);
      if slots[i].size > required {
        var unused := FindUnused();
        if unused.Some? {
          var j := unused.value;
          rest := Some(j);
          slots[j] := Slot(Free, slots[i].size - required, slots[i].addr + required);
          slots[i] := slots[i].(size := required);
          freeAllocations, allocations := freeAllocations + 1, allocations + 1;
        } else {
          assert forall j :: 0 <= j < |ss| ==> Live(slots[j]) && (j != i ==> slots[j] == ss[j]);
        }
      }
      freeAllocations := freeAllocations - 1;
    }

    method Take(i: nat, required: nat) returns (pointer: nat, ghost rest: Option<nat>)
      requires Valid() && i < slots.Length && slots[i].use.Free? && required > 0
      modifies slots, `allocations, `freeAllocations
      ensures Valid() && pointer == old(slots[i].addr)
      ensures rest.Some? <==>
        old(slots[i].size) > required && exists j :: 0 <= j < slots.Length && old(slots[j].use.Unused?)
      ensures rest.Some? ==> rest.value < slots.Length && old(slots[rest.value].use.Unused?)
                             && slots[..] == Cut(old(slots[..]), i, rest.value, required)
      ensures rest.None? ==> slots[..] == Retype(old(slots[..]), i, Used)
    {
      ghost var ss := slots[..];
      CountUpdate(ss, {Free}, i, ss[i].(use := Used));
      CountUpdate(ss, {Free, Used}, i, ss[i].(use := Used));
      rest := Carve(i, required);
      if rest.Some? {
        CutTiles(ss, begin, end, i, rest.value, required);
        CutCounts(ss, i, rest.value, required);
      } else {
        RetypeTiles(ss, begin, end, i, Used);
      }
      pointer := slots[i].addr;
    }

    // Hands out block i and says what was handed out.
    method TakeBlock(i: nat, required: nat) returns (pointer: nat, ghost length: nat)
      requires Valid() && i < slots.Length && slots[i].use.Free? && required > 0
      modifies slots, `allocations, `freeAllocations
      ensures Valid() && allocations > freeAllocations && pointer == old(slots[i].addr)
      ensures length == old(HandedOut(slots[..], i, required))
      ensures UsedBlocks(slots[..]) == old(UsedBlocks(slots[..])) + {(pointer, length)}
      ensures FreeSlots(slots[..]) == old(FreeSlots(slots[..])) - {(pointer, old(slots[i].size))}
                                      + Rest(pointer, old(slots[i].size), length)
      ensures freeSize == old(freeSize)
    {
      ghost var ss := slots[..];
      ghost var rest;
      pointer, rest := Take(i, required);
      length := slots[i].size;
      BlocksTaken(ss, slots[..], begin, end, i, rest, required);
      CountUsed(slots[..]);
      UsedIsCounted(slots[..], i);
    }

    method Release(i: nat)
      requires Valid() && i < slots.Length && slots[i].use.Used?
      modifies this, slots
      ensures Valid() && slots[..] == Retype(old(slots[..]), i, Free)
      ensures freeSize == (old(freeSize) + slots[i].size) % WORD && changes == (old(changes) + 1) % WORD
      ensures allocations == old(allocations) && freeAllocations == old(freeAllocations) + 1
    {
      ghost var ss := slots[..];
      RetypeTiles(ss, begin, end, i, Free);
      CountUpdate(ss, {Free, Used}, i, ss[i].(use := Free));
      CountUpdate(ss, {Free}, i, ss[i].(use := Free));
      slots[i] := slots[i].(use := Free);
      assert slots[..] == Retype(ss, i, Free);
      freeSize := (freeSize + slots[i].size) % WORD;
      freeAllocations := freeAllocations + 1;
      changes := (changes + 1) % WORD;
    }

    // The pass that is meant to merge neighbouring free blocks.  It looks the
    // neighbour up among the used blocks, so it never merges anything.
    method Defragment()
      requires Valid()
      modifies `changes
      ensures Valid()
      ensures slots[..] == old(slots[..]) && allocations == old(allocations) && freeAllocations == old(freeAllocations)
      ensures freeSize == old(freeSize)
      ensures changes ==
        if old(changes) >= (if kind.Tiny? then 100 else 20) && freeAllocations >= 2 then 0 else old(changes)
    {
      var threshold := if kind.Tiny? then 100 else 20;
      if changes >= threshold && freeAllocations >= 2 {
        for i := 0 to slots.Length
        {
          if slots[i].use.Free? {
            var next := FindUsed(slots[i].addr + slots[i].size);
            // The source loops on only if `next` is a free block.
            assert next.None? || !slots[next.value].use.Free?;
          }
        }
        changes := 0;
      }
    }

    // A block is freed, and the pass follows if it is due.
    method ReleaseAndTidy(i: nat)
      requires Valid() && i < slots.Length && slots[i].use.Used?
      modifies this, slots
      ensures Valid() && slots[..] == Retype(old(slots[..]), i, Free)
      ensures Counted(old(Snapshot()), old(changes), old(slots[i].size), Snapshot(), changes)
    {
      Release(i);
      Defragment();
    }
  }

  // -------------------------------------------------------------- live blocks

  ghost function UsedBlocks(ss: seq<Slot>): set<(nat, nat)> {
    set i | 0 <= i < |ss| && ss[i].use.Used? :: (ss[i].addr, ss[i].size)
  }

  ghost function FreeSlots(ss: seq<Slot>): set<(nat, nat)> {
    set i | 0 <= i < |ss| && ss[i].use.Free? :: (ss[i].addr, ss[i].size)
  }

  // The table has a record that describes no block.
  ghost predicate HasRecord(ss: seq<Slot>) {
    exists j :: 0 <= j < |ss| && ss[j].use.Unused?
  }

  // How much of the free block i is handed out.
  ghost function HandedOut(ss: seq<Slot>, i: nat, required: nat): nat
    requires i < |ss|
  {
    if ss[i].size > required && HasRecord(ss) then required else ss[i].size
  }

  // What stays free of a block of which `length` bytes are handed out.
  ghost function Rest(pointer: nat, whole: nat, length: nat): set<(nat, nat)> {
    if length < whole then {(pointer + length, whole - length)} else {}
  }

  // A block of the table has no other record.
  lemma OneRecord(ss: seq<Slot>, begin: nat, end: nat, i: nat, k: nat)
    requires Tiles(ss, begin, end) && i < |ss| && k < |ss| && i != k && Live(ss[i]) && Live(ss[k])
    ensures ss[i].addr != ss[k].addr
  {
    assert Apart(ss[i], ss[k]) && Inside(ss[i], begin, end) && Inside(ss[k], begin, end);
  }

  lemma FreeAfterRetype(ss: seq<Slot>, begin: nat, end: nat, i: nat)
    requires Tiles(ss, begin, end) && i < |ss| && ss[i].use.Free?
    ensures FreeSlots(Retype(ss, i, Used)) == FreeSlots(ss) - {(ss[i].addr, ss[i].size)}
  {
    var ss' := Retype(ss, i, Used);
    assert forall k :: 0 <= k < |ss| && k != i ==> ss'[k] == ss[k];
    forall k | 0 <= k < |ss| && ss[k].use.Free? && k != i ensures ss[k].addr != ss[i].addr {
      OneRecord(ss, begin, end, i, k);
    }
  }

  lemma FreeAfterCut(ss: seq<Slot>, begin: nat, end: nat, i: nat, j: nat, required: nat)
    requires Tiles(ss, begin, end) && i < |ss| && j < |ss| && ss[i].use.Free? && ss[j].use.Unused?
    requires 0 < required <= ss[i].size
    ensures FreeSlots(Cut(ss, i, j, required)) ==
      FreeSlots(ss) - {(ss[i].addr, ss[i].size)} + {(ss[i].addr + required, ss[i].size - required)}
  {
    var ss' := Cut(ss, i, j, required);
    assert ss'[j] == Slot(Free, ss[i].size - required, ss[i].addr + required) && ss'[i].use.Used?;
    assert forall k :: 0 <= k < |ss| && k != i && k != j ==> ss'[k] == ss[k];
    forall k | 0 <= k < |ss| && ss[k].use.Free? && k != i ensures ss[k].addr != ss[i].addr {
      OneRecord(ss, begin, end, i, k);
    }
  }

  lemma FreeAfterRelease(ss: seq<Slot>, i: nat)
    requires i < |ss| && ss[i].use.Used?
    ensures FreeSlots(Retype(ss, i, Free)) == FreeSlots(ss) + {(ss[i].addr, ss[i].size)}
  {
    var ss' := Retype(ss, i, Free);
    assert ss'[i].use.Free?;
    assert forall k :: 0 <= k < |ss| && k != i ==> ss'[k] == ss[k];
  }

  lemma UsedAfterRetype(ss: seq<Slot>, i: nat)
    requires i < |ss| && ss[i].use.Free?
    ensures UsedBlocks(Retype(ss, i, Used)) == UsedBlocks(ss) + {(ss[i].addr, ss[i].size)}
  {
    var ss' := Retype(ss, i, Used);
    assert ss'[i].use.Used?;
    assert forall k :: 0 <= k < |ss| && k != i ==> ss'[k] == ss[k];
  }

  lemma UsedAfterCut(ss: seq<Slot>, i: nat, j: nat, required: nat)
    requires i < |ss| && j < |ss| && ss[i].use.Free? && ss[j].use.Unused? && required <= ss[i].size
    ensures UsedBlocks(Cut(ss, i, j, required)) == UsedBlocks(ss) + {(ss[i].addr, required)}
  {
    var ss' := Cut(ss, i, j, required);
    assert ss'[i].use.Used? && ss'[j].use.Free?;
    assert forall k :: 0 <= k < |ss| && k != i && k != j ==> ss'[k] == ss[k];
  }

  lemma BlocksTaken(ss: seq<Slot>, ts: seq<Slot>, begin: nat, end: nat, i: nat, rest: Option<nat>, required: nat)
    requires Tiles(ss, begin, end) && i < |ss| && ss[i].use.Free? && required > 0
    requires rest.Some? <==> ss[i].size > required && HasRecord(ss)
    requires rest.Some? ==>
      rest.value < |ss| && ss[rest.value].use.Unused? && ts == Cut(ss, i, rest.value, required)
    requires rest.None? ==> ts == Retype(ss, i, Used)
    ensures |ts| == |ss| && ts[i].use.Used? && ts[i].size == HandedOut(ss, i, required)
    ensures UsedBlocks(ts) == UsedBlocks(ss) + {(ss[i].addr, ts[i].size)}
    ensures FreeSlots(ts) == FreeSlots(ss) - {(ss[i].addr, ss[i].size)} + Rest(ss[i].addr, ss[i].size, ts[i].size)
  {
    if rest.Some? {
      UsedAfterCut(ss, i, rest.value, required);
      FreeAfterCut(ss, begin, end, i, rest.value, required);
    } else {
      UsedAfterRetype(ss, i);
      FreeAfterRetype(ss, begin, end, i);
    }
  }

  lemma UsedAfterRelease(ss: seq<Slot>, begin: nat, end: nat, i: nat)
    requires Tiles(ss, begin, end) && i < |ss| && ss[i].use.Used?
    ensures UsedBlocks(Retype(ss, i, Free)) == UsedBlocks(ss) - {(ss[i].addr, ss[i].size)}
  {
    var ss' := Retype(ss, i, Free);
    assert forall k :: 0 <= k < |ss| && k != i ==> ss'[k] == ss[k];
    assert forall k :: 0 <= k < |ss| && k != i && Live(ss[k]) ==> Apart(ss[k], ss[i]) && Inside(ss[k], begin, end);
  }

  // The counters tell how many blocks are used.
  lemma {:induction false} CountUsed(ss: seq<Slot>)
    ensures Count(ss, {Free, Used}) == Count(ss, {Free}) + Count(ss, {Used})
  {
    if ss != [] { CountUsed(ss[..|ss| - 1]); }
  }

  lemma {:induction false} NoneCounted(ss: seq<Slot>, uses: set<Use>)
    requires Count(ss, uses) == 0
    ensures forall i :: 0 <= i < |ss| ==> ss[i].use !in uses
  {
    if ss != [] { NoneCounted(ss[..|ss| - 1], uses); }
  }

  lemma UsedIsCounted(ss: seq<Slot>, i: nat)
    requires i < |ss| && ss[i].use.Used?
    ensures Count(ss, {Used}) > 0
  {
    if Count(ss, {Used}) == 0 { NoneCounted(ss, {Used}); }
  }

  // When the counters differ by one, the used block that was found is the only one.
  lemma LastUsed(ss: seq<Slot>, i: nat)
    requires i < |ss| && ss[i].use.Used? && Count(ss, {Free, Used}) == Count(ss, {Free}) + 1
    ensures UsedBlocks(ss) == {(ss[i].addr, ss[i].size)}
  {
    CountUsed(ss);
    CountUpdate(ss, {Used}, i, ss[i].(use := Free));
    var ss' := ss[i := ss[i].(use := Free)];
    NoneCounted(ss', {Used});
    assert forall k :: 0 <= k < |ss| && k != i ==> ss[k] == ss'[k];
  }

  lemma SomeUsed(ss: seq<Slot>)
    requires Count(ss, {Free, Used}) > Count(ss, {Free})
    ensures UsedBlocks(ss) != {}
  {
    CountUsed(ss);
    if forall i :: 0 <= i < |ss| ==> !ss[i].use.Used? {
      CountPrefix(ss, {Used}, 0);
    } else {
      var i :| 0 <= i < |ss| && ss[i].use.Used?;
      assert (ss[i].addr, ss[i].size) in UsedBlocks(ss);
    }
  }

  // -------------------------------------------------- all zones, as values

  ghost predicate BlocksApart(b: (nat, nat), c: (nat, nat)) {
    b.0 + b.1 <= c.0 || c.0 + c.1 <= b.0
  }

  ghost predicate ZonesApart(v: ZoneValue, w: ZoneValue) {
    v.end + PAGE_SIZE <= w.begin || w.end + PAGE_SIZE <= v.begin
  }

  ghost predicate InUse(v: ZoneValue) {
    v.allocations > v.freeAllocations
  }

  // Every zone is tiled and counted, no two zones share a page, and every zone
  // except possibly zone `young` has a block in use.
  ghost predicate ZonesOk(vs: seq<ZoneValue>, young: int) {
    && (forall i {:trigger ZoneOk(vs[i])} :: 0 <= i < |vs| ==> ZoneOk(vs[i]))
    && (forall i {:trigger InUse(vs[i])} :: 0 <= i < |vs| && i != young ==> InUse(vs[i]))
    && (forall i, j {:trigger ZonesApart(vs[i], vs[j])} :: 0 <= i < |vs| && 0 <= j < |vs| && i != j ==>
        ZonesApart(vs[i], vs[j]))
  }

  // The blocks handed out and not yet freed, as (address, length).
  ghost function LiveBlocks(vs: seq<ZoneValue>): set<(nat, nat)> {
    set k, b | 0 <= k < |vs| && b in UsedBlocks(vs[k].table) :: b
  }

  // The free blocks, as (address, length).
  ghost function FreeBlocks(vs: seq<ZoneValue>): set<(nat, nat)> {
    set k, b | 0 <= k < |vs| && b in FreeSlots(vs[k].table) :: b
  }

  lemma FreeInside(v: ZoneValue, b: (nat, nat))
    requires ZoneOk(v) && b in FreeSlots(v.table)
    ensures b.1 > 0 && v.begin <= b.0 && b.0 + b.1 <= v.end
  {
    var i :| 0 <= i < |v.table| && v.table[i].use.Free? && b == (v.table[i].addr, v.table[i].size);
    assert Inside(v.table[i], v.begin, v.end);
  }

  // What one zone loses and gains is what the heap loses and gains.
  lemma FreeAfterUpdate(vs: seq<ZoneValue>, young: int, k: nat, v: ZoneValue, gone: set<(nat, nat)>,
                        come: set<(nat, nat)>)
    requires k < |vs| && ZonesOk(vs, young) && gone <= FreeSlots(vs[k].table)
    requires FreeSlots(v.table) == FreeSlots(vs[k].table) - gone + come
    ensures FreeBlocks(vs[k := v]) == FreeBlocks(vs) - gone + come
  {
    var ws := vs[k := v];
    forall b | b in FreeBlocks(ws) ensures b in FreeBlocks(vs) - gone + come {
      var l :| 0 <= l < |ws| && b in FreeSlots(ws[l].table);
      if l != k && b in gone { FreeOnlyThere(vs, young, k, l, b); }
    }
    forall b | b in FreeBlocks(vs) - gone + come ensures b in FreeBlocks(ws) {
      if b in come {
        assert b in FreeSlots(ws[k].table);
      } else {
        var l :| 0 <= l < |vs| && b in FreeSlots(vs[l].table);
        assert b in FreeSlots(ws[l].table);
      }
    }
  }

  lemma FreeOnlyThere(vs: seq<ZoneValue>, young: int, k: nat, l: nat, b: (nat, nat))
    requires ZonesOk(vs, young) && k < |vs| && l < |vs| && b in FreeSlots(vs[k].table) && b in FreeSlots(vs[l].table)
    ensures k == l
  {
    FreeInside(vs[k], b);
    FreeInside(vs[l], b);
    assert k != l ==> ZonesApart(vs[k], vs[l]);
  }

  lemma UsedInside(v: ZoneValue, b: (nat, nat))
    requires ZoneOk(v) && b in UsedBlocks(v.table)
    ensures b.1 > 0 && v.begin <= b.0 && b.0 + b.1 <= v.end
  {
    var i :| 0 <= i < |v.table| && v.table[i].use.Used? && b == (v.table[i].addr, v.table[i].size);
    assert Inside(v.table[i], v.begin, v.end);
  }

  // No two blocks in use overlap, wherever they are.
  lemma LiveBlocksApart(vs: seq<ZoneValue>, b: (nat, nat), c: (nat, nat))
    requires ZonesOk(vs, -1) && b in LiveBlocks(vs) && c in LiveBlocks(vs) && b != c
    ensures BlocksApart(b, c)
  {
    var k :| 0 <= k < |vs| && b in UsedBlocks(vs[k].table);
    var l :| 0 <= l < |vs| && c in UsedBlocks(vs[l].table);
    UsedInside(vs[k], b);
    UsedInside(vs[l], c);
    if k == l {
      var ss := vs[k].table;
      var i :| 0 <= i < |ss| && ss[i].use.Used? && b == (ss[i].addr, ss[i].size);
      var j :| 0 <= j < |ss| && ss[j].use.Used? && c == (ss[j].addr, ss[j].size);
      assert Apart(ss[i], ss[j]);
    } else {
      assert ZonesApart(vs[k], vs[l]);
    }
  }

  // A free block overlaps no block that is in use.
  lemma FreeApart(vs: seq<ZoneValue>, young: int, k: nat, i: nat, b: (nat, nat))
    requires ZonesOk(vs, young) && k < |vs| && i < |vs[k].table| && vs[k].table[i].use.Free? && b in LiveBlocks(vs)
    ensures BlocksApart(b, (vs[k].table[i].addr, vs[k].table[i].size))
  {
    var l :| 0 <= l < |vs| && b in UsedBlocks(vs[l].table);
    UsedInside(vs[l], b);
    assert ZoneOk(vs[k]);
    assert Inside(vs[k].table[i], vs[k].begin, vs[k].end);
    if k == l {
      var ss := vs[k].table;
      var j :| 0 <= j < |ss| && ss[j].use.Used? && b == (ss[j].addr, ss[j].size);
      assert Apart(ss[i], ss[j]);
    } else {
      assert ZonesApart(vs[k], vs[l]);
    }
  }

  lemma ZonesOkUpdate(vs: seq<ZoneValue>, young: int, k: nat, v: ZoneValue)
    requires k < |vs| && ZonesOk(vs, young) && (young == k || young == -1)
    requires ZoneOk(v) && InUse(v) && v.begin == vs[k].begin && v.end == vs[k].end
    ensures ZonesOk(vs[k := v], -1)
  {
    var ws := vs[k := v];
    forall i | 0 <= i < |ws| ensures ZoneOk(ws[i]) && InUse(ws[i]) {
      assert ZoneOk(vs[i]) && (i != k ==> InUse(vs[i]));
    }
    forall i, j | 0 <= i < |ws| && 0 <= j < |ws| && i != j ensures ZonesApart(ws[i], ws[j]) {
      assert ZonesApart(vs[i], vs[j]);
    }
  }

  lemma LiveAfterTake(vs: seq<ZoneValue>, young: int, k: nat, v: ZoneValue, i: nat, b: (nat, nat))
    requires k < |vs| && ZonesOk(vs, young) && (young == k || young == -1)
    requires ZoneOk(v) && InUse(v) && v.begin == vs[k].begin && v.end == vs[k].end
    requires i < |vs[k].table| && vs[k].table[i].use.Free?
    requires b.0 == vs[k].table[i].addr && b.1 <= vs[k].table[i].size
    requires UsedBlocks(v.table) == UsedBlocks(vs[k].table) + {b}
    ensures ZonesOk(vs[k := v], -1)
    ensures LiveBlocks(vs[k := v]) == LiveBlocks(vs) + {b}
    ensures forall c :: c in LiveBlocks(vs) ==> BlocksApart(c, b)
  {
    var ws := vs[k := v];
    ZonesOkUpdate(vs, young, k, v);
    forall c | c in LiveBlocks(vs) ensures c in LiveBlocks(ws) && BlocksApart(c, b) {
      var l :| 0 <= l < |vs| && c in UsedBlocks(vs[l].table);
      assert c in UsedBlocks(ws[l].table);
      FreeApart(vs, young, k, i, c);
    }
    assert b in UsedBlocks(ws[k].table);
  }

  lemma LiveAfterRelease(vs: seq<ZoneValue>, k: nat, v: ZoneValue, b: (nat, nat))
    requires k < |vs| && ZonesOk(vs, -1)
    requires ZoneOk(v) && InUse(v) && v.begin == vs[k].begin && v.end == vs[k].end
    requires b in UsedBlocks(vs[k].table) && UsedBlocks(v.table) == UsedBlocks(vs[k].table) - {b}
    ensures ZonesOk(vs[k := v], -1)
    ensures LiveBlocks(vs[k := v]) == LiveBlocks(vs) - {b}
  {
    var ws := vs[k := v];
    ZonesOkUpdate(vs, -1, k, v);
    forall c | c in LiveBlocks(ws) ensures c in LiveBlocks(vs) - {b} {
      var l :| 0 <= l < |ws| && c in UsedBlocks(ws[l].table);
      assert c in UsedBlocks(vs[l].table);
      if l != k { OnlyThere(vs, k, l, b, c); }
    }
    forall c | c in LiveBlocks(vs) - {b} ensures c in LiveBlocks(ws) {
      var l :| 0 <= l < |vs| && c in UsedBlocks(vs[l].table);
      assert c in UsedBlocks(ws[l].table);
    }
  }

  // Blocks of different zones are different.
  lemma OnlyThere(vs: seq<ZoneValue>, k: nat, l: nat, b: (nat, nat), c: (nat, nat))
    requires ZonesOk(vs, -1) && k < |vs| && l < |vs| && k != l
    requires b in UsedBlocks(vs[k].table) && c in UsedBlocks(vs[l].table)
    ensures b != c
  {
    UsedInside(vs[k], b);
    UsedInside(vs[l], c);
    assert ZonesApart(vs[k], vs[l]);
  }

  lemma LiveAfterDestroy(vs: seq<ZoneValue>, k: nat, b: (nat, nat))
    requires k < |vs| && ZonesOk(vs, -1) && UsedBlocks(vs[k].table) == {b}
    ensures ZonesOk(vs[..k] + vs[k + 1..], -1)
    ensures LiveBlocks(vs[..k] + vs[k + 1..]) == LiveBlocks(vs) - {b}
  {
    var ws := vs[..k] + vs[k + 1..];
    assert forall l :: 0 <= l < |ws| ==> ws[l] == vs[if l < k then l else l + 1];
    forall c | c in LiveBlocks(ws) ensures c in LiveBlocks(vs) - {b} {
      var l :| 0 <= l < |ws| && c in UsedBlocks(ws[l].table);
      OnlyThere(vs, k, if l < k then l else l + 1, b, c);
    }
    forall c | c in LiveBlocks(vs) - {b} ensures c in LiveBlocks(ws) {
      var l :| 0 <= l < |vs| && c in UsedBlocks(vs[l].table);
      assert ws[if l < k then l else l - 1] == vs[l];
    }
  }

  // The free blocks of the zone go with it.
  lemma FreeAfterDestroy(vs: seq<ZoneValue>, k: nat)
    requires k < |vs| && ZonesOk(vs, -1)
    ensures FreeBlocks(vs[..k] + vs[k + 1..]) == FreeBlocks(vs) - FreeSlots(vs[k].table)
  {
    var ws := vs[..k] + vs[k + 1..];
    assert forall l :: 0 <= l < |ws| ==> ws[l] == vs[if l < k then l else l + 1];
    forall b | b in FreeBlocks(ws) ensures b in FreeBlocks(vs) - FreeSlots(vs[k].table) {
      var l :| 0 <= l < |ws| && b in FreeSlots(ws[l].table);
      if b in FreeSlots(vs[k].table) { FreeOnlyThere(vs, -1, k, if l < k then l else l + 1, b); }
    }
    forall b | b in FreeBlocks(vs) - FreeSlots(vs[k].table) ensures b in FreeBlocks(ws) {
      var l :| 0 <= l < |vs| && b in FreeSlots(vs[l].table);
      assert ws[if l < k then l else l - 1] == vs[l];
    }
  }

  lemma LiveAfterAdd(vs: seq<ZoneValue>, v: ZoneValue)
    requires ZonesOk(vs, -1) && ZoneOk(v) && v.allocations == v.freeAllocations
    requires forall i :: 0 <= i < |vs| ==> ZonesApart(v, vs[i])
    ensures ZonesOk([v] + vs, 0) && LiveBlocks([v] + vs) == LiveBlocks(vs)
  {
    var ws := [v] + vs;
    assert forall l :: 1 <= l < |ws| ==> ws[l] == vs[l - 1];
    CountUsed(v.table);
    NoneCounted(v.table, {Used});
    assert UsedBlocks(v.table) == {};
    forall c | c in LiveBlocks(vs) ensures c in LiveBlocks(ws) {
      var l :| 0 <= l < |vs| && c in UsedBlocks(vs[l].table);
      assert ws[l + 1] == vs[l];
    }
  }

  // --------------------------------------------------------------- the heap

  ghost function Snapshots(zs: seq<Zone>): seq<ZoneValue>
    reads zs, set z | z in zs :: z.slots
  {
    seq(|zs|, i requires 0 <= i < |zs| reads zs, set z | z in zs :: z.slots => zs[i].Snapshot())
  }

  ghost predicate Separate(zs: seq<Zone>) {
    forall i, j :: 0 <= i < j < |zs| ==> zs[i] != zs[j] && zs[i].slots != zs[j].slots
  }

  // A free block of zone v may serve a request of this size.
  ghost predicate Fits(v: ZoneValue, size: nat, required: nat) {
    Offers(v, size) && exists i :: 0 <= i < |v.table| && FitsSlot(v.table[i], required)
  }

  // The zone is looked at for a request of this size.
  ghost predicate Offers(v: ZoneValue, size: nat) {
    v.kind == KindForSize(size) && v.freeSize >= size && v.allocations < v.maxAllocations
  }

  predicate FitsSlot(s: Slot, required: nat) {
    s.use.Free? && s.size >= required
  }

  // The request must be served from a fresh zone.
  ghost predicate NeedsZone(vs: seq<ZoneValue>, size: nat, required: nat) {
    KindForSize(size).Large? || forall k :: 0 <= k < |vs| ==> !Fits(vs[k], size, required)
  }

  // Block i of zone k is the first one, by zones and then by slots, that is free, long
  // enough and in a zone for requests of this size.
  ghost predicate FirstFit(vs: seq<ZoneValue>, aligned: bool, size: nat, k: nat, i: nat) {
    var need := size + (if aligned then size % 4 else 0) + 16;
    && size <= 2048 && k < |vs| && Offers(vs[k], size) && i < |vs[k].table| && FitsSlot(vs[k].table[i], need)
    && (forall j :: 0 <= j < i ==> !FitsSlot(vs[k].table[j], need))
    && (forall l :: 0 <= l < k ==> !Fits(vs[l], size, need))
  }

  // The free block i of zone k serves the request: it is cut after the request and its
  // padding if it is longer and the zone has a record for the rest, and handed out as a
  // whole otherwise. No other block changes.
  ghost predicate Serves(vs: seq<ZoneValue>, k: nat, i: nat, aligned: bool, size: nat, pointer: nat, length: nat,
                         ws: seq<ZoneValue>)
    requires k < |vs| && i < |vs[k].table|
  {
    var need := size + (if aligned then size % 4 else 0) + 16;
    var whole := vs[k].table[i].size;
    var cut := whole > need && HasRecord(vs[k].table);
    && pointer == vs[k].table[i].addr && length == (if cut then need else whole)
    && LiveBlocks(ws) == LiveBlocks(vs) + {(pointer, length)}
    && FreeBlocks(ws) == FreeBlocks(vs) - {(pointer, whole)} + (if cut then {(pointer + need, whole - need)} else {})
  }

  // Block i is long enough for two such requests and the zone has a record for the rest.
  ghost predicate ServesTwice(vs: seq<ZoneValue>, k: nat, i: nat, required: nat) {
    && k < |vs| && i < |vs[k].table| && vs[k].table[i].size >= 2 * required && HasRecord(vs[k].table)
  }

  lemma TakenServes(vs: seq<ZoneValue>, young: int, k: nat, v: ZoneValue, i: nat, aligned: bool, size: nat,
                    pointer: nat, length: nat)
    requires k < |vs| && ZonesOk(vs, young) && (young == k || young == -1) && ZoneOk(v) && InUse(v)
    requires v.kind == vs[k].kind && v.begin == vs[k].begin && v.end == vs[k].end && v.freeSize == vs[k].freeSize
    requires i < |vs[k].table| && vs[k].table[i].use.Free? && pointer == vs[k].table[i].addr
    requires length == HandedOut(vs[k].table, i, Required(aligned, size))
    requires UsedBlocks(v.table) == UsedBlocks(vs[k].table) + {(pointer, length)}
    requires FreeSlots(v.table) == FreeSlots(vs[k].table) - {(pointer, vs[k].table[i].size)}
                                   + Rest(pointer, vs[k].table[i].size, length)
    ensures ZonesOk(vs[k := v], -1) && Serves(vs, k, i, aligned, size, pointer, length, vs[k := v])
    ensures forall c :: c in LiveBlocks(vs) ==> BlocksApart(c, (pointer, length))
    ensures Offers(vs[k], size) && ServesTwice(vs, k, i, Required(aligned, size)) ==>
      Fits(v, size, Required(aligned, size))
  {
    var whole := vs[k].table[i].size;
    LiveAfterTake(vs, young, k, v, i, (pointer, length));
    assert (pointer, whole) in FreeSlots(vs[k].table);
    FreeAfterUpdate(vs, young, k, v, {(pointer, whole)}, Rest(pointer, whole, length));
    if Offers(vs[k], size) && ServesTwice(vs, k, i, Required(aligned, size)) {
      StillFits(v, size, Required(aligned, size), (pointer + length, whole - length));
    }
  }

  // A fresh zone for the request, in the pages that start at `base`.
  ghost function FreshZone(size: nat, base: nat): ZoneValue {
    var n, table := PagesForSize(size), FreshTable(size, base + PAGE_SIZE);
    ZoneValue(KindForSize(size), base + PAGE_SIZE, base + PAGE_SIZE + n * PAGE_SIZE, n + 1,
              MaxAllocations(KindForSize(size)), n * PAGE_SIZE, Count(table, {Free, Used}), Count(table, {Free}), table)
  }

  ghost function TinyBlocks(base: nat): set<(nat, nat)> {
    (set i | 0 <= i < 16 :: (base + 4096 + 255 * i, 255)) + {(base + 8176, 16)}
  }

  // Its blocks: one of all its pages, or in a tiny zone 16 of 255 bytes and one of 16.
  lemma FreshBlocks(size: nat, base: nat)
    ensures size > 64 ==> FreeSlots(FreshZone(size, base).table) == {(base + 4096, PagesForSize(size) * 4096)}
    ensures size <= 64 ==> FreeSlots(FreshZone(size, base).table) == TinyBlocks(base)
    ensures HasRecord(FreshZone(size, base).table)
    ensures size <= 2048 ==> Offers(FreshZone(size, base), size)
    ensures size <= 2048 ==> FreshZone(size, base).table[0].size >= 2 * Required(true, size)
  {
    var table := FreshZone(size, base).table;
    TableLengths(KindForSize(size));
    assert table[20].use.Unused?;
    CountBound(table, {Free, Used});
    if size > 64 {
      assert table[0] == Slot(Free, PagesForSize(size) * 4096, base + 4096);
    } else {
      assert table[16] == Slot(Free, 16, base + 8176);
      forall i | 0 <= i < 16 ensures table[i] == Slot(Free, 255, base + 4096 + 255 * i) {
      }
      forall b | b in FreeSlots(table) ensures b in TinyBlocks(base) {
        var i :| 0 <= i < |table| && table[i].use.Free? && b == (table[i].addr, table[i].size);
        assert i < 17;
      }
      forall b | b in TinyBlocks(base) ensures b in FreeSlots(table) {
        if b != (base + 8176, 16) {
          var i :| 0 <= i < 16 && b == (base + 4096 + 255 * i, 255);
          assert table[i].use.Free?;
        }
      }
    }
  }

  lemma {:induction false} CountBound(ss: seq<Slot>, uses: set<Use>)
    ensures Count(ss, uses) <= |ss|
  {
    if ss != [] { CountBound(ss[..|ss| - 1], uses); }
  }

  // A zone whose table still has a long enough block serves the next request.
  lemma StillFits(v: ZoneValue, size: nat, required: nat, b: (nat, nat))
    requires ZoneOk(v) && v.kind == KindForSize(size) && v.freeSize >= size
    requires b in FreeSlots(v.table) && b.1 >= required
    ensures Fits(v, size, required)
  {
    CountBound(v.table, {Free, Used});
    TableLengths(v.kind);
    var i :| 0 <= i < |v.table| && v.table[i].use.Free? && b == (v.table[i].addr, v.table[i].size);
    assert FitsSlot(v.table[i], required);
  }

  class Heap {
    const aligned: bool
    var zones: seq<Zone>   // firstZone and its successors

    ghost function Values(): seq<ZoneValue>
      reads this, zones, set z | z in zones :: z.slots
    {
      Snapshots(zones)
    }

    ghost predicate Valid()
      reads this, zones, set z | z in zones :: z.slots
    {
      Separate(zones) && ZonesOk(Values(), -1)
    }

    constructor (aligned: bool)
      ensures Valid() && zones == [] && LiveBlocks(Values()) == {} && this.aligned == aligned
    {
      this.aligned, zones := aligned, [];
    }

    // The first zone, in list order, with a block for the request, and that zone's first such block.
    method FindZoneFor(size: nat) returns (r: Option<(nat, nat)>)
      ensures r.None? <==> NeedsZone(Values(), size, Required(aligned, size))
      ensures r.Some? ==> FirstFit(Values(), aligned, size, r.value.0, r.value.1)
    {
      var kind := KindForSize(size);
      if !kind.Large? {
        var required := Required(aligned, size);
        for k := 0 to |zones|
          invariant forall l :: 0 <= l < k ==> !Fits(zones[l].Snapshot(), size, required)
        {
          var zone := zones[k];
          if zone.kind == kind && zone.freeSize >= size && zone.allocations < zone.maxAllocations {
            var slot := zone.FindFree(required);
            if slot.Some? {
              assert Values()[k] == zone.Snapshot() && FitsSlot(zone.Snapshot().table[slot.value], required);
              return Some((k, slot.value));
            }
          }
        }
      }
      return None;
    }

    // The zone and slot of the used block at `pointer`.
    method FindZoneWith(pointer: nat) returns (r: Option<(nat, nat)>)
      requires Valid()
      ensures r.Some? ==> r.value.0 < |zones| && r.value.1 < zones[r.value.0].slots.Length
      ensures r.Some? ==> var s := zones[r.value.0].slots[r.value.1]; s.use.Used? && s.addr == pointer
      ensures r.None? ==> forall b :: b in LiveBlocks(Values()) ==> b.0 != pointer
    {
      ghost var vs := Values();
      for k := 0 to |zones|
        invariant forall l :: 0 <= l < k ==> !(vs[l].begin <= pointer < vs[l].end)
      {
        if zones[k].begin <= pointer < zones[k].end {
          var slot := zones[k].FindUsed(pointer);
          if slot.Some? {
            return Some((k, slot.value));
          }
          NotLive(vs, k, pointer);
          return None;
        }
      }
      NotLive(vs, |zones|, pointer);
      return None;
    }
  
    // Takes block i of zone k; `young` is k if the zone has just been created.
    method TakeFrom(k: nat, i: nat, size: nat, ghost young: int) returns (pointer: nat, ghost length: nat)
      requires k < |zones| && i < zones[k].slots.Length && Separate(zones) && ZonesOk(Values(), young)
      requires young == k || young == -1
      requires zones[k].slots[i].use.Free? && zones[k].slots[i].size >= size
      modifies zones[k], zones[k].slots
      ensures Valid() && length >= size && pointer > 0
      ensures Serves(old(Values()), k, i, aligned, size, pointer, length, Values())
      ensures forall b :: b in old(LiveBlocks(Values())) ==> BlocksApart(b, (pointer, length))
      ensures old(Offers(Values()[k], size)) && ServesTwice(old(Values()), k, i, Required(aligned, size)) ==>
        Fits(Values()[k], size, Required(aligned, size))
    {
      ghost var vs := Values();
      var zone := zones[k];
      assert ZoneOk(vs[k]);
      assert Inside(vs[k].table[i], vs[k].begin, vs[k].end);
      pointer, length := zone.TakeBlock(i, Required(aligned, size));
      UpdatedAt(k, vs);
      TakenServes(vs, young, k, zone.Snapshot(), i, aligned, size, pointer, length);
    }

    // All zones but zone k are as they were.
    lemma UpdatedAt(k: nat, vs: seq<ZoneValue>)
      requires k < |zones| && |vs| == |zones| && forall l :: 0 <= l < |zones| && l != k ==> vs[l] == zones[l].Snapshot()
      ensures Values() == vs[k := zones[k].Snapshot()]
    {
    }

    // The pages a fresh zone would occupy are in nobody's hands.
    ghost predicate PagesFree(base: nat, pages: nat)
      reads this
    {
      && base > 0
      && forall i :: 0 <= i < |zones| ==>
           base + pages * PAGE_SIZE <= zones[i].begin - PAGE_SIZE || zones[i].end <= base
    }

    // Puts a zone, all of it free, at the head of the list.
    method AddZone(zone: Zone)
      requires Valid() && zone.Valid() && zone.allocations == zone.freeAllocations
      requires forall z :: z in zones ==> z != zone && z.slots != zone.slots
      requires forall i :: 0 <= i < |zones| ==> ZonesApart(zone.Snapshot(), Values()[i])
      modifies `zones
      ensures zones == [zone] + old(zones) && Separate(zones) && ZonesOk(Values(), 0)
      ensures Values() == [zone.Snapshot()] + old(Values()) && LiveBlocks(Values()) == old(LiveBlocks(Values()))
    {
      ghost var vs, before := Values(), zones;
      LiveAfterAdd(vs, zone.Snapshot());
      zones := [zone] + zones;
      assert forall i :: 1 <= i < |zones| ==> zones[i] == before[i - 1];
      assert Values() == [zone.Snapshot()] + vs;
    }

    // halloc(); `base` is where the page allocator would place a fresh zone. Block i of
    // zone k serves the request: the first that fits, or the first of a fresh zone.
    method Alloc(size: nat, base: nat)
        returns (pointer: nat, created: bool, ghost length: nat, ghost k: nat, ghost i: nat)
      requires Valid() && PagesFree(base, PagesForSize(size) + 1)
      modifies this, zones, set z | z in zones :: z.slots
      ensures Valid() && length >= size && pointer > 0
      ensures forall b :: b in old(LiveBlocks(Values())) ==> BlocksApart(b, (pointer, length))
      ensures created <==> old(NeedsZone(Values(), size, Required(aligned, size)))
      ensures !created ==> zones == old(zones) && FirstFit(old(Values()), aligned, size, k, i)
      ensures !created ==> Serves(old(Values()), k, i, aligned, size, pointer, length, Values())
      ensures created ==> |zones| > 0 && zones[1..] == old(zones) && fresh(zones[0]) && pointer == base + PAGE_SIZE
      ensures created ==> k == i == 0
      ensures created ==>
        Serves([FreshZone(size, base)] + old(Values()), 0, 0, aligned, size, pointer, length, Values())
      ensures LiveBlocks(Values()) == old(LiveBlocks(Values())) + {(pointer, length)}
      ensures created && size <= 2048 ==> length == size + (if aligned then size % 4 else 0) + 16
      ensures created && size <= 2048 ==> !NeedsZone(Values(), size, Required(aligned, size))
      ensures !created && ServesTwice(old(Values()), k, i, Required(aligned, size)) ==>
        !NeedsZone(Values(), size, Required(aligned, size))
    {
      var place := FindZoneFor(size);
      created := place.None?;
      if created {
        k, i := 0, 0;
        pointer, length := AllocFresh(size, base);
      } else {
        k, i := place.value.0, place.value.1;
        pointer, length := TakeFrom(place.value.0, place.value.1, size, -1);
      }
    }

    // Creates a zone and serves the request from its first block.
    method AllocFresh(size: nat, base: nat) returns (pointer: nat, ghost length: nat)
      requires Valid() && PagesFree(base, PagesForSize(size) + 1)
      modifies `zones
      ensures Valid() && length >= size
      ensures |zones| > 0 && zones[1..] == old(zones) && fresh(zones[0]) && pointer == base + PAGE_SIZE
      ensures Serves([FreshZone(size, base)] + old(Values()), 0, 0, aligned, size, pointer, length, Values())
      ensures LiveBlocks([FreshZone(size, base)] + old(Values())) == old(LiveBlocks(Values()))
      ensures forall b :: b in old(LiveBlocks(Values())) ==> BlocksApart(b, (pointer, length))
      ensures size <= 2048 ==> length == Required(aligned, size)
      ensures size <= 2048 ==> Fits(Values()[0], size, Required(aligned, size))
    {
      ghost var vs := Values();
      var zone := new Zone(size, base);
      assert Values() == vs;
      AddZone(zone);
      FreshBlocks(size, base);
      assert zone.Snapshot() == FreshZone(size, base) == Values()[0];
      assert size <= 2048 ==> ServesTwice(Values(), 0, 0, Required(aligned, size));
      pointer, length := TakeFrom(0, 0, size, 0);
    }

    // hfree(); an unknown pointer is refused (the kernel panics) and changes nothing.
    method Free(pointer: nat) returns (known: bool, ghost length: nat)
      requires Valid()
      modifies this, zones, set z | z in zones :: z.slots
      ensures Valid()
      ensures known <==> exists n :: (pointer, n) in old(LiveBlocks(Values()))
      ensures known ==>
        && (pointer, length) in old(LiveBlocks(Values()))
        && LiveBlocks(Values()) == old(LiveBlocks(Values())) - {(pointer, length)}
      ensures !known ==> zones == old(zones) && Values() == old(Values())
      ensures known && |zones| == |old(zones)| ==>
        FreeBlocks(Values()) == old(FreeBlocks(Values())) + {(pointer, length)}
    {
      length := 0;
      var place := FindZoneWith(pointer);
      known := place.Some?;
      if known {
        var k, i := place.value.0, place.value.1;
        length := FreeAt(k, i);
      }
    }

    // Frees the used block i of zone k; the zone goes with its last used block.
    method FreeAt(k: nat, i: nat) returns (ghost length: nat)
      requires Valid() && k < |zones| && i < zones[k].slots.Length && zones[k].slots[i].use.Used?
      modifies `zones, zones[k], zones[k].slots
      ensures Valid() && length == old(zones[k].slots[i].size)
      ensures (old(zones[k].slots[i].addr), length) in old(LiveBlocks(Values()))
      ensures LiveBlocks(Values()) == old(LiveBlocks(Values())) - {(old(zones[k].slots[i].addr), length)}
      ensures if old(UsedBlocks(zones[k].slots[..])) == {(old(zones[k].slots[i].addr), length)}
              then zones == old(zones)[..k] + old(zones)[k + 1..] else zones == old(zones)
      ensures FreeBlocks(Values()) ==
        if |zones| < |old(zones)| then old(FreeBlocks(Values())) - old(FreeSlots(zones[k].slots[..]))
        else old(FreeBlocks(Values())) + {(old(zones[k].slots[i].addr), length)}
      ensures |zones| == |old(zones)| ==>
        Counted(old(zones[k].Snapshot()), old(zones[k].changes), length, zones[k].Snapshot(), zones[k].changes)
    {
      ghost var vs := Values();
      assert ZoneOk(vs[k]) && InUse(vs[k]);
      length := zones[k].slots[i].size;
      assert (zones[k].slots[i].addr, length) in UsedBlocks(vs[k].table);
      if zones[k].allocations == zones[k].freeAllocations + 1 {
        LastUsed(vs[k].table, i);
        DestroyZone(k, (zones[k].slots[i].addr, length));
      } else {
        ReleaseBlock(k, i);
      }
    }

    method DestroyZone(k: nat, ghost b: (nat, nat))
      requires Valid() && k < |zones| && UsedBlocks(zones[k].slots[..]) == {b}
      modifies `zones
      ensures Valid() && zones == old(zones)[..k] + old(zones)[k + 1..]
      ensures LiveBlocks(Values()) == old(LiveBlocks(Values())) - {b}
      ensures FreeBlocks(Values()) == old(FreeBlocks(Values())) - old(FreeSlots(zones[k].slots[..]))
    {
      ghost var vs, before := Values(), zones;
      LiveAfterDestroy(vs, k, b);
      FreeAfterDestroy(vs, k);
      zones := zones[..k] + zones[k + 1..];
      assert forall l :: 0 <= l < |zones| ==> zones[l] == before[if l < k then l else l + 1];
      assert Values() == vs[..k] + vs[k + 1..];
    }

    method ReleaseBlock(k: nat, i: nat)
      requires Valid() && k < |zones| && i < zones[k].slots.Length && zones[k].slots[i].use.Used?
      requires zones[k].allocations > zones[k].freeAllocations + 1
      modifies zones[k], zones[k].slots
      ensures Valid()
      ensures LiveBlocks(Values()) ==
        old(LiveBlocks(Values())) - {(old(zones[k].slots[i].addr), old(zones[k].slots[i].size))}
      ensures old(UsedBlocks(zones[k].slots[..])) != {(old(zones[k].slots[i].addr), old(zones[k].slots[i].size))}
      ensures FreeBlocks(Values()) ==
        old(FreeBlocks(Values())) + {(old(zones[k].slots[i].addr), old(zones[k].slots[i].size))}
      ensures Counted(old(zones[k].Snapshot()), old(zones[k].changes), old(zones[k].slots[i].size),
                      zones[k].Snapshot(), zones[k].changes)
    {
      ghost var vs := Values();
      var zone := zones[k];
      ghost var ss := zone.slots[..];
      assert ZoneOk(vs[k]) && (ss[i].addr, ss[i].size) in UsedBlocks(ss);
      UsedAfterRelease(ss, zone.begin, zone.end, i);
      zone.ReleaseAndTidy(i);
      UpdatedAt(k, vs);
      SomeUsed(zone.slots[..]);
      LiveAfterRelease(vs, k, zone.Snapshot(), (ss[i].addr, ss[i].size));
      FreeAfterRelease(ss, i);
      FreeAfterUpdate(vs, -1, k, zone.Snapshot(), {}, {(ss[i].addr, ss[i].size)});
    }
  }

  // An address that starts no used block of the one zone around it, if any, is not live.
  lemma NotLive(vs: seq<ZoneValue>, k: nat, pointer: nat)
    requires ZonesOk(vs, -1) && k <= |vs|
    requires if k < |vs| then vs[k].begin <= pointer < vs[k].end
             else forall l :: 0 <= l < |vs| ==> !(vs[l].begin <= pointer < vs[l].end)
    requires k < |vs| ==> forall i :: 0 <= i < |vs[k].table| ==>
      !(vs[k].table[i].use.Used? && vs[k].table[i].addr == pointer)
    ensures forall b :: b in LiveBlocks(vs) ==> b.0 != pointer
  {
    forall b | b in LiveBlocks(vs) ensures b.0 != pointer {
      var l :| 0 <= l < |vs| && b in UsedBlocks(vs[l].table);
      UsedInside(vs[l], b);
      if k < |vs| && l != k { assert ZonesApart(vs[k], vs[l]); }
    }
  }
}
