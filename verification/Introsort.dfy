// Sorting of sys/container/array.c: quicksort with a depth limit, a heapsort
// fallback that works on a prefix of the array, and a final insertion sort.

module Introsort {
  import opened Common

  // An array of 4-byte pointers in a 32-bit address space is shorter than this.
  const MAX_COUNT: nat := 0x4000_0000
  const UINT32_MAX: nat := 0xFFFF_FFFF

  ghost predicate Sorted<T(!new)>(s: seq<T>, cmp: (T, T) -> int) {
    forall i, j :: 0 <= i < j < |s| ==> cmp(s[i], s[j]) <= 0
  }

  function Swap<T>(s: seq<T>, i: nat, j: nat): seq<T>
    requires i < |s| && j < |s|
  {
    s[i := s[j]][j := s[i]]
  }

  lemma SwapPermutes<T>(s: seq<T>, i: nat, j: nat)
    requires i < |s| && j < |s|
    ensures multiset(Swap(s, i, j)) == multiset(s)
  {
  }

  method Exchange<T>(a: array<T>, i: nat, j: nat)
    requires i < a.Length && j < a.Length
    modifies a
    ensures a[..] == Swap(old(a[..]), i, j)
    ensures a[i] == old(a[j]) && a[j] == old(a[i])
    ensures forall k :: 0 <= k < a.Length && k != i && k != j ==> a[k] == old(a[k])
    ensures multiset(a[..]) == multiset(old(a[..]))
  {
    SwapPermutes(a[..], i, j);
    var temp := a[i];
    a[i] := a[j];
    a[j] := temp;
    assert a[..] == Swap(old(a[..]), i, j);
  }

  // ---------------------------------------------------------------- heapsort

  // The larger child of node i among the first n, as the source picks it.
  function LargerChild<T>(s: seq<T>, i: nat, n: nat, cmp: (T, T) -> int): (c: nat)
    requires 2 * i + 1 < n <= |s|
    ensures c == 2 * i + 1 || c == 2 * i + 2
    ensures c < n
  {
    if 2 * i + 2 < n && cmp(s[2 * i + 1], s[2 * i + 2]) < 0 then 2 * i + 2 else 2 * i + 1
  }

  // The array after the element at i has sunk to its place among the first n.
  function Sift<T>(s: seq<T>, i: nat, n: nat, cmp: (T, T) -> int): (r: seq<T>)
    requires i < |s| && n <= |s|
    ensures |r| == |s|
    decreases n - i
  {
    if 2 * i + 1 < n then
      var c := LargerChild(s, i, n, cmp);
      if cmp(s[i], s[c]) >= 0 then s else Sift(Swap(s, i, c), c, n, cmp)
    else s
  }

  // The source carries the sinking element in a temporary and shifts the
  // larger children up; a[index] is overwritten once, at the end.
  method SiftDown<T>(a: array<T>, start: nat, n: nat, cmp: (T, T) -> int)
    requires start < n <= a.Length < MAX_COUNT
    modifies a
    ensures a[..] == Sift(old(a[..]), start, n, cmp)
  {
    var index, index2 := start, 2 * start + 1;
    var temp := a[index];
    ghost var s := a[..];
    while index2 < n
      invariant start <= index < n && index2 == 2 * index + 1
      invariant |s| == a.Length && s == a[..][index := temp]
      invariant Sift(s, index, n, cmp) == Sift(old(a[..]), start, n, cmp)
      decreases n - index
    {
      if index2 + 1 < n {
        if cmp(a[index2], a[index2 + 1]) < 0 {
          index2 := index2 + 1;
        }
      }
      assert index2 == LargerChild(s, index, n, cmp);
      if cmp(temp, a[index2]) >= 0 {
        break;
      }
      s := Swap(s, index, index2);
      a[index] := a[index2];
      index := index2;
      index2 := index * 2 + 1;
      assert s == a[..][index := temp];
    }
    a[index] := temp;
    assert a[..] == s;
  }

  function Parent(j: nat): nat
    requires j > 0
  {
    (j - 1) / 2
  }

  ghost predicate Below<T(!new)>(s: seq<T>, j: nat, k: nat, cmp: (T, T) -> int)
    requires j < |s| && k < |s|
  {
    cmp(s[j], s[k]) <= 0
  }

  // Among the first n, no node from lo on is below one of its children; node
  // `hole` may be, but its children are not above its own parent.
  ghost predicate HeapBut<T(!new)>(s: seq<T>, lo: nat, n: nat, hole: int, cmp: (T, T) -> int)
    requires n <= |s|
  {
    && (forall j {:trigger Parent(j)} :: 0 < j < n && Parent(j) >= lo && Parent(j) != hole ==>
        Below(s, j, Parent(j), cmp))
    && (forall j {:trigger Parent(j)} :: 0 < j < n && Parent(j) == hole && hole > 0 && Parent(hole) >= lo ==>
        Below(s, j, Parent(hole), cmp))
  }

  ghost predicate IsHeap<T(!new)>(s: seq<T>, lo: nat, n: nat, cmp: (T, T) -> int)
    requires n <= |s|
  {
    HeapBut(s, lo, n, -1, cmp)
  }

  // Swapping the hole with its larger child moves the hole down.
  lemma SwapMovesHole<T(!new)>(s: seq<T>, lo: nat, n: nat, i: nat, cmp: (T, T) -> int)
    requires Comparator(cmp) && lo <= i && 2 * i + 1 < n <= |s| && HeapBut(s, lo, n, i, cmp)
    requires cmp(s[i], s[LargerChild(s, i, n, cmp)]) < 0
    ensures HeapBut(Swap(s, i, LargerChild(s, i, n, cmp)), lo, n, LargerChild(s, i, n, cmp), cmp)
  {
    var c := LargerChild(s, i, n, cmp);
    var s' := Swap(s, i, c);
    assert Parent(c) == i;
    forall j | 0 < j < n && Parent(j) >= lo && Parent(j) != c ensures Below(s', j, Parent(j), cmp) {
      if Parent(j) == i {
        if j != c { assert cmp(s[j], s[c]) <= 0; }
      } else if j == i {
        assert Below(s, c, Parent(i), cmp);
      } else {
        assert Below(s, j, Parent(j), cmp);
      }
    }
    forall j | 0 < j < n && Parent(j) == c ensures Below(s', j, Parent(c), cmp) {
      assert Below(s, j, Parent(j), cmp);
    }
  }

  lemma {:induction false} SiftRestoresHeap<T(!new)>(s: seq<T>, lo: nat, n: nat, i: nat, cmp: (T, T) -> int)
    requires Comparator(cmp) && lo <= i < n <= |s| && HeapBut(s, lo, n, i, cmp)
    ensures IsHeap(Sift(s, i, n, cmp), lo, n, cmp)
    decreases n - i
  {
    if 2 * i + 1 < n {
      var c := LargerChild(s, i, n, cmp);
      if cmp(s[i], s[c]) >= 0 {
        forall j | 0 < j < n && Parent(j) == i ensures Below(s, j, i, cmp) {
          assert cmp(s[c], s[i]) <= 0;
          if j != c { assert Transitive(cmp, s[j], s[c], s[i]); }
        }
      } else {
        SwapMovesHole(s, lo, n, i, cmp);
        SiftRestoresHeap(Swap(s, i, c), lo, n, c, cmp);
      }
    }
  }

  // Sifting only rearranges the first n elements.
  lemma {:induction false} SiftPermutes<T>(s: seq<T>, i: nat, n: nat, cmp: (T, T) -> int)
    requires i < n <= |s|
    ensures multiset(Sift(s, i, n, cmp)[..n]) == multiset(s[..n])
    ensures Sift(s, i, n, cmp)[n..] == s[n..]
    decreases n - i
  {
    if 2 * i + 1 < n {
      var c := LargerChild(s, i, n, cmp);
      if cmp(s[i], s[c]) < 0 {
        SiftPermutes(Swap(s, i, c), c, n, cmp);
        SwapPermutes(s[..n], i, c);
        assert Swap(s, i, c)[..n] == Swap(s[..n], i, c);
      }
    }
  }

  lemma {:induction false} RootIsGreatest<T(!new)>(s: seq<T>, n: nat, j: nat, cmp: (T, T) -> int)
    requires Comparator(cmp) && j < n <= |s| && IsHeap(s, 0, n, cmp)
    ensures cmp(s[j], s[0]) <= 0
  {
    if j > 0 {
      RootIsGreatest(s, n, Parent(j), cmp);
      assert Below(s, j, Parent(j), cmp);
      assert Transitive(cmp, s[j], s[Parent(j)], s[0]);
    }
  }

  // The first m elements form a heap; the rest of the first n is in place.
  ghost predicate HalfSorted<T(!new)>(s: seq<T>, m: nat, n: nat, cmp: (T, T) -> int)
    requires m <= n <= |s|
  {
    && IsHeap(s, 0, m, cmp)
    && Sorted(s[m..n], cmp)
    && PrefixBelow(s, m, n, cmp)
  }

  ghost predicate PrefixBelow<T(!new)>(s: seq<T>, m: nat, n: nat, cmp: (T, T) -> int)
    requires m <= n <= |s|
  {
    forall i, j :: 0 <= i < m <= j < n ==> Below(s, i, j, cmp)
  }

  // Rearranging the prefix keeps it below the rest.
  lemma PrefixStaysBelow<T(!new)>(s: seq<T>, r: seq<T>, m: nat, n: nat, cmp: (T, T) -> int)
    requires m <= n <= |s| == |r| && multiset(r[..m]) == multiset(s[..m]) && r[m..] == s[m..]
    requires PrefixBelow(s, m, n, cmp)
    ensures PrefixBelow(r, m, n, cmp) && r[m..n] == s[m..n]
  {
    assert forall j :: m <= j < n ==> r[j] == r[m..][j - m] == s[m..][j - m] == s[j];
    forall i, j | 0 <= i < m <= j < n ensures Below(r, i, j, cmp) {
      assert r[..m][i] in multiset(r[..m]);
      assert r[i] in s[..m];
      var i' :| 0 <= i' < m && s[..m][i'] == r[i];
      assert Below(s, i', j, cmp);
    }
  }

  // Moving the root behind the shrunken heap extends the sorted part.
  lemma ExtractRoot<T(!new)>(s: seq<T>, m: nat, n: nat, cmp: (T, T) -> int)
    requires Comparator(cmp) && 0 < m <= n <= |s| && HalfSorted(s, m, n, cmp)
    ensures var r := Swap(s, 0, m - 1);
      && HeapBut(r, 0, m - 1, 0, cmp) && Sorted(r[m - 1..n], cmp) && PrefixBelow(r, m - 1, n, cmp)
  {
    var r := Swap(s, 0, m - 1);
    forall j | 0 < j < m - 1 && Parent(j) != 0 ensures Below(r, j, Parent(j), cmp) {
      assert Below(s, j, Parent(j), cmp);
    }
    forall i, j | 0 <= i < m - 1 <= j < n ensures Below(r, i, j, cmp) {
      if j == m - 1 {
        RootIsGreatest(s, m, if i == 0 then m - 1 else i, cmp);
      } else {
        assert Below(s, if i == 0 then m - 1 else i, j, cmp);
      }
    }
    var q := r[m - 1..n];
    forall i, j | 0 <= i < j < |q| ensures cmp(q[i], q[j]) <= 0 {
      if i == 0 {
        assert Below(s, 0, m - 1 + j, cmp);
      } else {
        assert cmp(s[m..n][i - 1], s[m..n][j - 1]) <= 0;
      }
    }
  }

  // Rearranging the first k elements rearranges the first n.
  lemma PrefixPermutes<T>(s: seq<T>, r: seq<T>, k: nat, n: nat)
    requires k <= n <= |s| == |r| && multiset(r[..k]) == multiset(s[..k]) && r[k..] == s[k..]
    ensures multiset(r[..n]) == multiset(s[..n]) && r[n..] == s[n..]
  {
    assert s[..n] == s[..k] + s[k..][..n - k] && r[..n] == r[..k] + r[k..][..n - k];
    assert s[n..] == s[k..][n - k..] && r[n..] == r[k..][n - k..];
  }

  // One turn of the extraction loop, on values.
  lemma Extract<T(!new)>(s: seq<T>, m: nat, n: nat, cmp: (T, T) -> int)
    requires Comparator(cmp) && 0 < m < n <= |s| && HalfSorted(s, m + 1, n, cmp)
    ensures var t := Sift(Swap(s, 0, m), 0, m, cmp);
      HalfSorted(t, m, n, cmp) && multiset(t[..n]) == multiset(s[..n]) && t[n..] == s[n..]
  {
    var r := Swap(s, 0, m);
    var t := Sift(r, 0, m, cmp);
    ExtractRoot(s, m + 1, n, cmp);
    SiftRestoresHeap(r, 0, m, 0, cmp);
    SiftPermutes(r, 0, m, cmp);
    PrefixStaysBelow(r, t, m, n, cmp);
    PrefixPermutes(r, t, m, n);
    SwapPermutes(s[..n], 0, m);
    assert r[..n] == Swap(s[..n], 0, m);
  }

  // Exchanges the root with the last element of the heap and repairs the heap.
  method ExtractStep<T(!new)>(a: array<T>, length: nat, n: nat, cmp: (T, T) -> int)
    requires Comparator(cmp) && 0 < length < n <= a.Length < MAX_COUNT && HalfSorted(a[..], length + 1, n, cmp)
    modifies a
    ensures HalfSorted(a[..], length, n, cmp)
    ensures multiset(a[..n]) == multiset(old(a[..n])) && a[n..] == old(a[n..])
  {
    ghost var s := a[..];
    Extract(s, length, n, cmp);
    Exchange(a, 0, length);
    SiftDown(a, 0, length, cmp);
    assert a[..n] == a[..][..n] && a[n..] == a[..][n..] && s[..n] == old(a[..n]) && s[n..] == old(a[n..]);
  }

  method BuildHeap<T(!new)>(a: array<T>, n: nat, cmp: (T, T) -> int)
    requires Comparator(cmp) && n <= a.Length < MAX_COUNT
    modifies a
    ensures IsHeap(a[..], 0, n, cmp)
    ensures multiset(a[..n]) == multiset(old(a[..n])) && a[n..] == old(a[n..])
  {
    var index: nat := n / 2;
    while index > 0
      invariant index <= n / 2 && IsHeap(a[..], index, n, cmp)
      invariant multiset(a[..n]) == multiset(old(a[..n])) && a[n..] == old(a[n..])
    {
      index := index - 1;
      ghost var s := a[..];
      SiftRestoresHeap(s, index, n, index, cmp);
      SiftPermutes(s, index, n, cmp);
      assert s[..n] == a[..n] && s[n..] == a[n..];
      SiftDown(a, index, n, cmp);
      assert a[..n] == a[..][..n] && a[n..] == a[..][n..];
    }
  }

  lemma HalfSortedOne<T(!new)>(s: seq<T>, n: nat, cmp: (T, T) -> int)
    requires 1 <= n <= |s| && HalfSorted(s, 1, n, cmp)
    ensures Sorted(s[..n], cmp)
  {
    var p, q := s[..n], s[1..n];
    forall i, j | 0 <= i < j < |p| ensures cmp(p[i], p[j]) <= 0 {
      if i == 0 {
        assert Below(s, 0, j, cmp);
      } else {
        assert cmp(q[i - 1], q[j - 1]) <= 0;
      }
    }
  }

  // Sorts the first n elements and touches nothing else.
  method HeapSort<T(!new)>(a: array<T>, n: nat, cmp: (T, T) -> int)
    requires Comparator(cmp) && n <= a.Length < MAX_COUNT
    modifies a
    ensures Sorted(a[..n], cmp)
    ensures multiset(a[..n]) == multiset(old(a[..n]))
    ensures a[n..] == old(a[n..])
  {
    BuildHeap(a, n, cmp);
    if n == 0 {
      return;
    }
    var length := n;
    while length - 1 > 0
      invariant 1 <= length <= n && HalfSorted(a[..], length, n, cmp)
      invariant multiset(a[..n]) == multiset(old(a[..n])) && a[n..] == old(a[n..])
    {
      length := length - 1;
      ExtractStep(a, length, n, cmp);
    }
    HalfSortedOne(a[..], n, cmp);
    assert a[..n] == a[..][..n];
  }

  // --------------------------------------------------------------- quicksort

  // Despite its name in the source, this recognises ranges that do not ascend.
  method IsSorted<T>(a: array<T>, first: nat, end: nat, cmp: (T, T) -> int) returns (r: bool)
    requires end < a.Length
    ensures r <==> forall i :: first <= i < end - 1 ==> cmp(a[i], a[i + 1]) >= 0
  {
    if end == 0 {
      return true;
    }
    var begin := first;
    while begin < end - 1
      invariant first <= begin
      invariant forall i :: first <= i < begin && i < end - 1 ==> cmp(a[i], a[i + 1]) >= 0
    {
      if cmp(a[begin], a[begin + 1]) < 0 {
        return false;
      }
      begin := begin + 1;
    }
    return true;
  }

  ghost predicate Partitioned<T(!new)>(s: seq<T>, begin: nat, pivot: nat, end: nat, cmp: (T, T) -> int)
    requires begin <= pivot <= end < |s|
  {
    && (forall i :: begin <= i < pivot ==> cmp(s[i], s[pivot]) <= 0)
    && (forall i :: pivot < i <= end ==> cmp(s[i], s[pivot]) > 0)
  }

  // The two arrays agree outside [first, end].
  ghost predicate SameOutside<T>(s: seq<T>, r: seq<T>, first: nat, end: nat) {
    |s| == |r| && forall i :: 0 <= i < |s| && (i < first || end < i) ==> r[i] == s[i]
  }

  method Partition<T(!new)>(a: array<T>, first: nat, end: nat, cmp: (T, T) -> int) returns (pivot: nat)
    requires first < end < a.Length < MAX_COUNT
    modifies a
    ensures first <= pivot <= end && Partitioned(a[..], first, pivot, end, cmp)
    ensures multiset(a[..]) == multiset(old(a[..]))
    ensures SameOutside(old(a[..]), a[..], first, end)
  {
    pivot := first;
    var middle := (first + end) / 2;
    if cmp(a[middle], a[first]) >= 0 {
      pivot := middle;
    }
    if cmp(a[pivot], a[end]) >= 0 {
      pivot := end;
    }
    ghost var s, chosen := a[..], pivot;
    Exchange(a, pivot, first);
    ghost var t := a[..];
    pivot := Gather(a, first, end, cmp);
    ghost var u := a[..];
    Exchange(a, pivot, end);
    PivotPlaced(s, t, u, a[..], chosen, first, pivot, end, cmp);
  }

  // Exchanging the gathered range's end with its boundary puts the pivot in place.
  lemma PivotPlaced<T(!new)>(s: seq<T>, t: seq<T>, u: seq<T>, v: seq<T>, chosen: nat, first: nat, pivot: nat, end: nat,
                             cmp: (T, T) -> int)
    requires first <= pivot <= end < |s| == |u| && first <= chosen <= end
    requires t == Swap(s, chosen, first) && SameOutside(t, u, first, end) && v == Swap(u, pivot, end)
    requires forall i :: first <= i < pivot ==> cmp(u[i], u[end]) <= 0
    requires forall i :: pivot <= i < end ==> cmp(u[i], u[end]) > 0
    ensures Partitioned(v, first, pivot, end, cmp) && SameOutside(s, v, first, end)
  {
    assert forall i :: 0 <= i < |v| ==> v[i] == if i == pivot then u[end] else if i == end then u[pivot] else u[i];
    assert forall i :: 0 <= i < |s| && (i < first || end < i) ==> t[i] == s[i];
  }

  // Moves what is not above the last element to the front of the range.
  method Gather<T(!new)>(a: array<T>, first: nat, end: nat, cmp: (T, T) -> int) returns (pivot: nat)
    requires first < end < a.Length
    modifies a
    ensures first <= pivot <= end && a[end] == old(a[end])
    ensures forall i :: first <= i < pivot ==> cmp(a[i], a[end]) <= 0
    ensures forall i :: pivot <= i < end ==> cmp(a[i], a[end]) > 0
    ensures multiset(a[..]) == multiset(old(a[..]))
    ensures SameOutside(old(a[..]), a[..], first, end)
  {
    pivot := first;
    var begin := first;
    while begin < end
      invariant first <= pivot <= begin <= end && a[end] == old(a[end])
      invariant forall i :: first <= i < pivot ==> cmp(a[i], a[end]) <= 0
      invariant forall i :: pivot <= i < begin ==> cmp(a[i], a[end]) > 0
      invariant multiset(a[..]) == multiset(old(a[..]))
      invariant SameOutside(old(a[..]), a[..], first, end)
    {
      if cmp(a[begin], a[end]) <= 0 {
        Exchange(a, pivot, begin);
        pivot := pivot + 1;
      }
      begin := begin + 1;
    }
  }

  ghost predicate SameAbove<T>(s: seq<T>, r: seq<T>, end: int) {
    |s| == |r| && forall i :: 0 <= i < |s| && end < i ==> r[i] == s[i]
  }

  // The fallback sorts as many elements as the range has, but from index 0 on.
  method HeapFallback<T(!new)>(a: array<T>, begin: nat, end: nat, cmp: (T, T) -> int)
    requires Comparator(cmp) && begin < end < a.Length < MAX_COUNT
    modifies a
    ensures multiset(a[..]) == multiset(old(a[..]))
    ensures Sorted(a[..end - begin + 1], cmp)
    ensures SameAbove(old(a[..]), a[..], end - begin)
  {
    ghost var s := a[..];
    var n := end - begin + 1;
    HeapSort(a, n, cmp);
    PrefixPermutes(s, a[..], n, a.Length);
    assert a[..a.Length] == a[..] && s[..a.Length] == s;
    assert forall i :: n <= i < a.Length ==> a[i] == a[n..][i - n] == s[n..][i - n] == s[i];
  }

  // Sorting a range with a limited recursion depth.  Bounds are 32-bit words, so
  // the range below a pivot at index 0 ends at UINT32_MAX and is left alone.
  method QuickSort<T(!new)>(a: array<T>, begin: nat, end: nat, depth: nat, cmp: (T, T) -> int)
    requires Comparator(cmp) && a.Length < MAX_COUNT && (end < a.Length || end == UINT32_MAX)
    modifies a
    ensures multiset(a[..]) == multiset(old(a[..]))
    ensures begin >= end || end == UINT32_MAX ==> a[..] == old(a[..])
    ensures SameAbove(old(a[..]), a[..], end)
    decreases depth
  {
    if begin < end && end != UINT32_MAX {
      if depth > 0 {
        var sorted := IsSorted(a, begin, end, cmp);
        if sorted {
          return;
        }
        var pivot := Partition(a, begin, end, cmp);
        ghost var parted := a[..];
        QuickSort(a, begin, if pivot == 0 then UINT32_MAX else pivot - 1, depth - 1, cmp);
        assert SameAbove(parted, a[..], end);
        QuickSort(a, pivot + 1, end, depth - 1, cmp);
      } else {
        HeapFallback(a, begin, end, cmp);
      }
    }
  }

  // ---------------------------------------------------------- insertion sort

  method InsertionSort<T(!new)>(a: array<T>, cmp: (T, T) -> int)
    requires Comparator(cmp)
    modifies a
    ensures Sorted(a[..], cmp)
    ensures multiset(a[..]) == multiset(old(a[..]))
  {
    var i := 1;
    while i < a.Length
      invariant 1 <= i
      invariant Sorted(a[..if i < a.Length then i else a.Length], cmp)
      invariant multiset(a[..]) == multiset(old(a[..]))
    {
      InsertNext(a, i, cmp);
      i := i + 1;
    }
    assert a[..] == a[..a.Length];
  }

  // Element i of s taken out and put back before element j.
  function MovedTo<T>(s: seq<T>, i: nat, j: nat): (r: seq<T>)
    requires j <= i < |s|
    ensures |r| == |s|
    ensures forall k :: 0 <= k < |s| ==> r[k] == if j < k <= i then s[k - 1] else if k == j then s[i] else s[k]
  {
    seq(|s|, k requires 0 <= k < |s| => if j < k <= i then s[k - 1] else if k == j then s[i] else s[k])
  }

  lemma MovedPermutes<T>(s: seq<T>, i: nat, j: nat)
    requires j <= i < |s|
    ensures multiset(MovedTo(s, i, j)) == multiset(s)
  {
    assert s == s[..j] + s[j..i] + [s[i]] + s[i + 1..];
    assert MovedTo(s, i, j) == s[..j] + [s[i]] + s[j..i] + s[i + 1..];
  }

  lemma MovedSorted<T(!new)>(s: seq<T>, i: nat, j: nat, cmp: (T, T) -> int)
    requires Comparator(cmp) && j <= i < |s| && Sorted(s[..i], cmp)
    requires j > 0 ==> cmp(s[j - 1], s[i]) <= 0
    requires j < i ==> cmp(s[j], s[i]) > 0
    ensures Sorted(MovedTo(s, i, j)[..i + 1], cmp)
  {
    var p, r := s[..i], MovedTo(s, i, j)[..i + 1];
    forall k, l | 0 <= k < l < |r| ensures cmp(r[k], r[l]) <= 0 {
      assert forall m :: 0 <= m < |r| ==> r[m] == if m < j then p[m] else if m == j then s[i] else p[m - 1];
      if l == j {
        assert Transitive(cmp, p[k], p[j - 1], s[i]);
      } else if k == j {
        assert cmp(s[i], p[j]) <= 0;
        assert Transitive(cmp, s[i], p[j], p[l - 1]);
      }
    }
  }

  lemma MovedStep<T>(s: seq<T>, i: nat, j: nat)
    requires 0 < j <= i < |s|
    ensures MovedTo(s, i, j)[j - 1] == s[j - 1]
    ensures MovedTo(s, i, j - 1) == Swap(MovedTo(s, i, j), j - 1, j)
  {
  }

  // Shifts the larger elements before a[i] up and drops a[i] into the gap.
  method ShiftUp<T>(a: array<T>, i: nat, cmp: (T, T) -> int) returns (j: nat)
    requires 1 <= i < a.Length
    modifies a
    ensures j <= i && a[..] == MovedTo(old(a[..]), i, j)
    ensures j > 0 ==> cmp(old(a[..])[j - 1], old(a[..])[i]) <= 0
    ensures j < i ==> cmp(old(a[..])[j], old(a[..])[i]) > 0
  {
    ghost var s := a[..];
    var temp := a[i];
    j := i;
    assert MovedTo(s, i, i) == s;
    ghost var r := s;
    while j >= 1
      invariant 0 <= j <= i && r == MovedTo(s, i, j)
      invariant r == a[..][j := temp]
      invariant j < i ==> cmp(s[j], temp) > 0
    {
      MovedStep(s, i, j);
      assert a[j - 1] == r[j - 1];
      if cmp(a[j - 1], temp) <= 0 {
        break;
      }
      r := Swap(r, j - 1, j);
      a[j] := a[j - 1];
      j := j - 1;
      assert r == a[..][j := temp];
    }
    a[j] := temp;
    assert a[..] == r;
  }

  method InsertNext<T(!new)>(a: array<T>, i: nat, cmp: (T, T) -> int)
    requires Comparator(cmp) && 1 <= i < a.Length && Sorted(a[..i], cmp)
    modifies a
    ensures Sorted(a[..i + 1], cmp)
    ensures multiset(a[..]) == multiset(old(a[..]))
  {
    ghost var s := a[..];
    assert s[..i] == a[..i];
    var j := ShiftUp(a, i, cmp);
    MovedPermutes(s, i, j);
    MovedSorted(s, i, j, cmp);
    assert a[..i + 1] == a[..][..i + 1];
  }

  // -------------------------------------------------------------- array_sort

  method LogBase2(count: nat) returns (result: nat)
    ensures count > 0 ==> Pow2(result) <= count < Pow2(result + 1)
  {
    result := 0;
    var rest := count;
    while rest / 2 != 0
      invariant count > 0 ==> rest > 0 && rest * Pow2(result) <= count < (rest + 1) * Pow2(result)
    {
      HalfBetween(rest, Pow2(result));
      rest := rest / 2;
      result := result + 1;
    }
  }

  lemma HalfBetween(x: nat, p: nat)
    ensures x / 2 * (2 * p) <= x * p && (x + 1) * p <= (x / 2 + 1) * (2 * p)
  {
    var h := x / 2;
    assert h * (2 * p) == (2 * h) * p && (h + 1) * (2 * p) == (2 * h + 2) * p;
    assert x == 2 * h || x == 2 * h + 1;
  }

  // For every array and every comparison function: an ascending permutation.
  method Sort<T(!new)>(a: array<T>, cmp: (T, T) -> int)
    requires Comparator(cmp) && a.Length < MAX_COUNT
    modifies a
    ensures Sorted(a[..], cmp)
    ensures multiset(a[..]) == multiset(old(a[..]))
  {
    if a.Length == 0 {
      return;
    }
    if a.Length > 5 {
      var log := LogBase2(a.Length);
      QuickSort(a, 0, a.Length - 1, 2 * log, cmp);
    }
    InsertionSort(a, cmp);
  }
}
