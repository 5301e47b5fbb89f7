// The physical frame allocator of sys/memory/pmemory.c: one bit per frame, set
// while the frame is free, in a table of 32-bit words.  A word is modelled as
// its 32 bits.

module FrameBitmap {

  const WORDS: nat := 32768          // PM_HEAPSIZE
  const FRAMES: nat := WORDS * 32
  const FRAME_SIZE: nat := 4096

  type Word = w: seq<bool> | |w| == 32 witness seq(32, _ => false)
  type Table = ws: seq<Word> | |ws| == WORDS witness seq(WORDS, _ => seq(32, _ => false))

  const ZERO: Word := seq(32, _ => false)
  const ONES: Word := seq(32, _ => true)

  predicate IsFree(ws: Table, f: nat)
    requires f < FRAMES
  {
    ws[f / 32][f % 32]
  }

  function Mark(ws: Table, f: nat, free: bool): Table
    requires f < FRAMES
  {
    ws[f / 32 := ws[f / 32][f % 32 := free]]
  }

  // Frames [f, f + n) marked, one after the other.
  function MarkRange(ws: Table, f: nat, n: nat, free: bool): Table
    requires f + n <= FRAMES
  {
    if n == 0 then ws else Mark(MarkRange(ws, f, n - 1, free), f + n - 1, free)
  }

  // n free frames from f on.
  ghost predicate RunAt(ws: Table, f: nat, n: nat) {
    f + n <= FRAMES && forall g :: f <= g < f + n ==> IsFree(ws, g)
  }

  lemma {:induction false} MarkRangeMarks(ws: Table, f: nat, n: nat, free: bool, g: nat)
    requires f + n <= FRAMES && g < FRAMES
    ensures IsFree(MarkRange(ws, f, n, free), g) == if f <= g < f + n then free else IsFree(ws, g)
  {
    if n > 0 { MarkRangeMarks(ws, f, n - 1, free, g); }
  }

  lemma SameBits(ws: Table, vs: Table)
    requires forall f :: 0 <= f < FRAMES ==> IsFree(ws, f) == IsFree(vs, f)
    ensures ws == vs
  {
    forall i | 0 <= i < WORDS ensures ws[i] == vs[i] {
      forall j | 0 <= j < 32 ensures ws[i][j] == vs[i][j] {
        assert IsFree(ws, 32 * i + j) == IsFree(vs, 32 * i + j);
      }
    }
  }

  // Freeing the range that was just allocated restores the table.
  lemma AllocThenFree(ws: Table, f: nat, n: nat)
    requires RunAt(ws, f, n)
    ensures MarkRange(MarkRange(ws, f, n, false), f, n, true) == ws
  {
    var vs := MarkRange(ws, f, n, false);
    forall g | 0 <= g < FRAMES ensures IsFree(MarkRange(vs, f, n, true), g) == IsFree(ws, g) {
      MarkRangeMarks(ws, f, n, false, g);
      MarkRangeMarks(vs, f, n, true, g);
    }
    SameBits(MarkRange(vs, f, n, true), ws);
  }

  // No run of `length` free frames starts in [start, limit).
  ghost predicate NoRun(ws: Table, start: nat, limit: int, length: nat) {
    forall f :: start <= f < limit ==> !RunAt(ws, f, length)
  }

  // Where the bit-by-bit scan stands before frame `next`: the last `found`
  // frames are free, and no long enough run starts before them.
  ghost predicate Scanned(ws: Table, start: nat, next: nat, found: nat, length: nat) {
    && start + found <= next <= FRAMES
    && (forall g :: next - found <= g < next ==> IsFree(ws, g))
    && NoRun(ws, start, next - found, length)
  }

  lemma ScanFree(ws: Table, start: nat, next: nat, found: nat, length: nat)
    requires Scanned(ws, start, next, found, length) && next < FRAMES && IsFree(ws, next)
    ensures Scanned(ws, start, next + 1, found + 1, length)
  {
  }

  lemma ScanUsed(ws: Table, start: nat, next: nat, found: nat, length: nat)
    requires Scanned(ws, start, next, found, length) && next < FRAMES && !IsFree(ws, next) && found < length
    ensures Scanned(ws, start, next + 1, 0, length)
  {
    forall f | start <= f < next + 1 ensures !RunAt(ws, f, length) {
      if f >= next - found {
        assert f <= next < f + length;
      }
    }
  }

  // A word of used frames ends the run; a word of free frames extends it by 32.
  lemma {:induction false} ScanUsedWord(ws: Table, start: nat, i: nat, k: nat, found: nat, length: nat)
    requires i < WORDS && ws[i] == ZERO && k < 32 && found < length && Scanned(ws, start, 32 * i + k, found, length)
    ensures Scanned(ws, start, 32 * i + 32, 0, length)
    decreases 32 - k
  {
    ScanUsed(ws, start, 32 * i + k, found, length);
    if k < 31 { ScanUsedWord(ws, start, i, k + 1, 0, length); }
  }

  lemma ScanFreeWord(ws: Table, start: nat, i: nat, found: nat, length: nat)
    requires i < WORDS && ws[i] == ONES && Scanned(ws, start, 32 * i, found, length)
    ensures Scanned(ws, start, 32 * i + 32, found + 32, length)
  {
    forall g | 32 * i <= g < 32 * i + 32 ensures IsFree(ws, g) {
      assert g / 32 == i;
    }
  }

  // The frame a first-fit search for `length` free frames settles on.
  ghost predicate FirstFit(ws: Table, start: nat, f: nat, length: nat) {
    f >= start && RunAt(ws, f, length) && NoRun(ws, start, f, length)
  }

  // The start of the current run is the lowest place for `length` frames.
  lemma ScanDone(ws: Table, start: nat, next: nat, found: nat, length: nat, page: nat)
    requires Scanned(ws, start, next, found, length) && found >= length && page == (next - found) * FRAME_SIZE
    ensures FirstFit(ws, start, page / FRAME_SIZE, length) && page % FRAME_SIZE == 0
  {
    assert page / FRAME_SIZE == next - found;
  }

  lemma ScanFailed(ws: Table, start: nat, found: nat, length: nat)
    requires Scanned(ws, start, FRAMES, found, length) && found < length
    ensures NoRun(ws, start, FRAMES, length)
  {
  }

  // ---- Runs of the allocator ----

  // What an allocation of `pages` frames from a limit on does to the table: the
  // first fitting run is marked, or nothing is and the answer is 0.
  ghost predicate Allocates(ws: Table, lowerLimit: nat, pages: nat, page: nat, vs: Table) {
    var start, f := lowerLimit / FRAME_SIZE / 32 * 32, page / FRAME_SIZE;
    && page % FRAME_SIZE == 0
    && (page != 0 ==> FirstFit(ws, start, f, pages + 1) && f + pages <= FRAMES && vs == MarkRange(ws, f, pages, false))
    && (page == 0 ==> vs == ws && (NoRun(ws, start, FRAMES, pages + 1) || FirstFit(ws, start, 0, pages + 1)))
  }

  datatype Range = Range(first: nat, length: nat)

  // The table and the ranges that were handed out and not given back.
  datatype Frames = Frames(table: Table, live: seq<Range>)

  datatype Event = Alloc(lowerLimit: nat, pages: nat, page: nat) | Release(which: nat)

  ghost predicate Takes(s: Frames, e: Event, t: Frames) {
    match e
    case Alloc(lowerLimit, pages, page) =>
      && Allocates(s.table, lowerLimit, pages, page, t.table)
      && t.live == if page == 0 then s.live else s.live + [Range(page / FRAME_SIZE, pages)]
    case Release(which) =>
      && which < |s.live| && s.live[which].first + s.live[which].length <= FRAMES
      && t.table == MarkRange(s.table, s.live[which].first, s.live[which].length, true)
      && t.live == s.live[..which] + s.live[which + 1..]
  }

  ghost predicate InTable(ws: Table, r: Range) {
    r.first + r.length <= FRAMES && forall g :: r.first <= g < r.first + r.length ==> !IsFree(ws, g)
  }

  ghost predicate Apart(r: Range, q: Range) {
    r.length == 0 || q.length == 0 || r.first + r.length <= q.first || q.first + q.length <= r.first
  }

  // Live ranges lie inside the table, all their frames are marked, and no two of
  // them share a frame.
  ghost predicate LiveApart(s: Frames) {
    && (forall i {:trigger InTable(s.table, s.live[i])} :: 0 <= i < |s.live| ==> InTable(s.table, s.live[i]))
    && (forall i, j {:trigger Apart(s.live[i], s.live[j])} :: 0 <= i < |s.live| && 0 <= j < |s.live| && i != j ==>
        Apart(s.live[i], s.live[j]))
  }

  // Free frames are in no live range.
  lemma FreshApart(ws: Table, f: nat, n: nat, r: Range)
    requires RunAt(ws, f, n) && InTable(ws, r)
    ensures Apart(r, Range(f, n))
  {
    var h := if f < r.first then r.first else f;
    assert f <= h < f + n ==> IsFree(ws, h);
  }

  lemma StillInTable(ws: Table, f: nat, n: nat, free: bool, r: Range)
    requires f + n <= FRAMES && InTable(ws, r) && (free ==> Apart(Range(f, n), r))
    ensures InTable(MarkRange(ws, f, n, free), r)
  {
    forall g | r.first <= g < r.first + r.length ensures !IsFree(MarkRange(ws, f, n, free), g) {
      MarkRangeMarks(ws, f, n, free, g);
    }
  }

  lemma AllocKeepsApart(s: Frames, e: Event, t: Frames)
    requires LiveApart(s) && e.Alloc? && e.page != 0 && Takes(s, e, t)
    ensures LiveApart(t)
  {
    var f := e.page / FRAME_SIZE;
    var r := Range(f, e.pages);
    assert RunAt(s.table, f, e.pages);
    forall i | 0 <= i < |t.live| ensures InTable(t.table, t.live[i]) && (i < |s.live| ==> Apart(t.live[i], r)) {
      if i < |s.live| {
        assert InTable(s.table, s.live[i]);
        StillInTable(s.table, f, e.pages, false, s.live[i]);
        FreshApart(s.table, f, e.pages, s.live[i]);
      } else {
        forall g | f <= g < f + e.pages ensures !IsFree(t.table, g) {
          MarkRangeMarks(s.table, f, e.pages, false, g);
        }
      }
    }
    forall i, j | 0 <= i < |t.live| && 0 <= j < |t.live| && i != j ensures Apart(t.live[i], t.live[j]) {
      if i < |s.live| && j < |s.live| {
        assert Apart(s.live[i], s.live[j]);
      }
    }
  }

  lemma ReleaseKeepsApart(s: Frames, e: Event, t: Frames)
    requires LiveApart(s) && e.Release? && Takes(s, e, t)
    ensures LiveApart(t)
  {
    var k := e.which;
    forall i | 0 <= i < |t.live| ensures InTable(t.table, t.live[i]) {
      var j := if i < k then i else i + 1;
      assert t.live[i] == s.live[j] && InTable(s.table, s.live[j]) && Apart(s.live[k], s.live[j]);
      StillInTable(s.table, s.live[k].first, s.live[k].length, true, s.live[j]);
    }
    forall i, j | 0 <= i < |t.live| && 0 <= j < |t.live| && i != j ensures Apart(t.live[i], t.live[j]) {
      assert Apart(s.live[if i < k then i else i + 1], s.live[if j < k then j else j + 1]);
    }
  }

  // A run of allocations and releases of live ranges, in any order.
  ghost predicate Run(states: seq<Frames>, events: seq<Event>) {
    |states| == |events| + 1 && forall k :: 0 <= k < |events| ==> Takes(states[k], events[k], states[k + 1])
  }

  // Over every run from a state without live ranges, the live ranges share no frame
  // and every one of their frames is marked.
  lemma {:induction false} LiveRangesApart(states: seq<Frames>, events: seq<Event>, k: nat)
    requires Run(states, events) && k <= |events| && states[0].live == []
    ensures LiveApart(states[k])
  {
    if k > 0 {
      LiveRangesApart(states, events, k - 1);
      assert Takes(states[k - 1], events[k - 1], states[k - 1 + 1]);
      if events[k - 1].Release? {
        ReleaseKeepsApart(states[k - 1], events[k - 1], states[k]);
      } else if events[k - 1].page != 0 {
        AllocKeepsApart(states[k - 1], events[k - 1], states[k]);
      }
    }
  }

  class FrameTable {
    var heap: array<Word>

    ghost predicate Valid()
      reads this
    {
      heap.Length == WORDS
    }

    ghost function Words(): Table
      requires Valid()
      reads this, heap
    {
      heap[..]
    }

    method MarkUsed(page: nat)
      requires Valid() && page / FRAME_SIZE < FRAMES
      modifies heap
      ensures Words() == Mark(old(Words()), page / FRAME_SIZE, false)
    {
      var index := page / FRAME_SIZE;
      heap[index / 32] := heap[index / 32][index % 32 := false];
    }

    method MarkFree(page: nat)
      requires Valid() && page / FRAME_SIZE < FRAMES
      modifies heap
      ensures Words() == Mark(old(Words()), page / FRAME_SIZE, true)
    {
      var index := page / FRAME_SIZE;
      heap[index / 32] := heap[index / 32][index % 32 := true];
    }
  
    // One mixed word of the scan.  Stops as soon as the run is long enough.
    method ScanBits(i: nat, ghost start: nat, found0: nat, page0: nat, pages: nat) returns (found: nat, page: nat)
      requires Valid() && i < WORDS && found0 <= pages && Scanned(Words(), start, 32 * i, found0, pages + 1)
      requires found0 > 0 ==> page0 == (32 * i - found0) * FRAME_SIZE
      ensures found > pages ==> FirstFit(Words(), start, page / FRAME_SIZE, pages + 1) && page % FRAME_SIZE == 0
      ensures found <= pages ==> Scanned(Words(), start, 32 * i + 32, found, pages + 1)
      ensures 0 < found <= pages ==> page == (32 * i + 32 - found) * FRAME_SIZE
    {
      found, page := found0, page0;
      for j := 0 to 32
        invariant found <= pages && Scanned(Words(), start, 32 * i + j, found, pages + 1)
        invariant found > 0 ==> page == (32 * i + j - found) * FRAME_SIZE
      {
        if heap[i][j] {
          ScanFree(Words(), start, 32 * i + j, found, pages + 1);
          if found == 0 {
            page := (i * 32 + j) * FRAME_SIZE;
          }
          found := found + 1;
          if found > pages {
            ScanDone(Words(), start, 32 * i + j + 1, found, pages + 1, page);
            return;
          }
        } else {
          ScanUsed(Words(), start, 32 * i + j, found, pages + 1);
          found := 0;
        }
      }
    }

    // The word-skipping scan finds what a bit-by-bit first-fit search for one
    // frame more than requested would find, from the limit rounded down to 32
    // frames; 0 stands for failure, and for a run at frame 0.
    method FindFreePages(lowerLimit: nat, pages: nat) returns (page: nat)
      requires Valid()
      ensures var start := lowerLimit / FRAME_SIZE / 32 * 32;
        && page % FRAME_SIZE == 0
        && (page != 0 ==> FirstFit(Words(), start, page / FRAME_SIZE, pages + 1))
        && (page == 0 ==> NoRun(Words(), start, FRAMES, pages + 1) || FirstFit(Words(), start, 0, pages + 1))
    {
      var found: nat := 0;
      page := 0;
      var i := lowerLimit / FRAME_SIZE / 32;
      ghost var start := i * 32;
      if i >= WORDS {
        return 0;
      }
      while i < WORDS
        invariant i <= WORDS && found <= pages && Scanned(Words(), start, 32 * i, found, pages + 1)
        invariant found > 0 ==> page == (32 * i - found) * FRAME_SIZE
      {
        if heap[i] == ZERO {
          ScanUsedWord(Words(), start, i, 0, found, pages + 1);
          found := 0;
        } else {
          if heap[i] == ONES {
            ScanFreeWord(Words(), start, i, found, pages + 1);
            if found == 0 {
              page := i * 32 * FRAME_SIZE;
            }
            found := found + 32;
            if found > pages {
              ScanDone(Words(), start, 32 * i + 32, found, pages + 1, page);
            }
          } else {
            found, page := ScanBits(i, start, found, page, pages);
          }
          if found > pages {
            return page;
          }
        }
        i := i + 1;
      }
      ScanFailed(Words(), start, found, pages + 1);
      return 0;
    }
  
    // pm_allocLimit(), and pm_alloc() when the limit is 0: marks exactly `pages`
    // frames of the run it found, all of which were free.
    method AllocLimit(lowerLimit: nat, pages: nat) returns (page: nat)
      requires Valid()
      modifies heap
      ensures Allocates(old(Words()), lowerLimit, pages, page, Words())
    {
      page := FindFreePages(lowerLimit, pages);
      if page != 0 {
        var temp := page;
        for i := 0 to pages
          invariant temp == page + i * FRAME_SIZE && page / FRAME_SIZE + pages <= FRAMES
          invariant Words() == MarkRange(old(Words()), page / FRAME_SIZE, i, false)
        {
          assert temp / FRAME_SIZE == page / FRAME_SIZE + i;
          MarkUsed(temp);
          temp := temp + FRAME_SIZE;
        }
      }
    }

    method Free(page: nat, pages: nat)
      requires Valid() && page / FRAME_SIZE + pages <= FRAMES
      modifies heap
      ensures Words() == MarkRange(old(Words()), page / FRAME_SIZE, pages, true)
    {
      var temp := page;
      for i := 0 to pages
        invariant temp == page + i * FRAME_SIZE
        invariant Words() == MarkRange(old(Words()), page / FRAME_SIZE, i, true)
      {
        assert temp / FRAME_SIZE == page / FRAME_SIZE + i;
        MarkFree(temp);
        temp := temp + FRAME_SIZE;
      }
    }
  }
}
