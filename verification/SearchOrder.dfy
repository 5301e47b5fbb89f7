// The order in which the kernel's linker looks through the dependencies of a library,
// sys/ioglue/iostore.c, in terms of the ways down: a way says which dependency is taken
// at each library.

module SearchOrder {
  import opened Common
  import opened SymbolTable
  import opened DependencySearch

  // Where the first n steps of a way from l lead.
  ghost function Stop(libs: seq<Library>, l: nat, w: seq<nat>, n: nat): nat
    requires n <= |w|
  {
    if n == 0 then l
    else
      var needed := NeededBy(libs, Stop(libs, l, w, n - 1));
      if w[n - 1] < |needed| then needed[w[n - 1]] else l
  }

  ghost predicate CanGo(libs: seq<Library>, l: nat, w: seq<nat>, n: nat)
    requires n <= |w|
  {
    n == 0 || (CanGo(libs, l, w, n - 1) && w[n - 1] < |NeededBy(libs, Stop(libs, l, w, n - 1))|)
  }

  // The place of that library in its level.
  ghost function Place(libs: seq<Library>, l: nat, w: seq<nat>, n: nat): nat
    requires 0 < n <= |w|
  {
    if n == 1 then w[0] else Offset(libs, Level(libs, l, n - 2), Place(libs, l, w, n - 1)) + w[n - 1]
  }

  // How many libraries the first k of the list need.
  ghost function Offset(libs: seq<Library>, xs: seq<nat>, k: nat): nat {
    |NeedsOf(libs, xs, k)|
  }

  // A way that goes all its steps, and its end.
  ghost predicate Way(libs: seq<Library>, l: nat, w: seq<nat>) {
    w != [] && CanGo(libs, l, w, |w|)
  }

  ghost function End(libs: seq<Library>, l: nat, w: seq<nat>): nat {
    Stop(libs, l, w, |w|)
  }

  lemma {:induction false} SameWay(libs: seq<Library>, l: nat, v: seq<nat>, w: seq<nat>, n: nat)
    requires n <= |v| && n <= |w| && forall i :: 0 <= i < n ==> v[i] == w[i]
    ensures Stop(libs, l, v, n) == Stop(libs, l, w, n) && (CanGo(libs, l, v, n) <==> CanGo(libs, l, w, n))
    ensures n > 0 ==> Place(libs, l, v, n) == Place(libs, l, w, n)
  {
    if n > 0 { SameWay(libs, l, v, w, n - 1); }
  }

  // ---- Levels and ways ----

  lemma {:induction false} NeedsOfPart(libs: seq<Library>, xs: seq<nat>, k: nat, m: nat)
    requires k <= m <= |xs|
    ensures NeedsOf(libs, xs, k) <= NeedsOf(libs, xs, m)
  {
    if k < m { NeedsOfPart(libs, xs, k, m - 1); }
  }

  lemma OffsetNext(libs: seq<Library>, xs: seq<nat>, k: nat, m: nat)
    requires k < m <= |xs|
    ensures Offset(libs, xs, k) + |NeededBy(libs, xs[k])| <= Offset(libs, xs, m)
  {
    NeedsOfPart(libs, xs, k + 1, m);
    assert NeedsOf(libs, xs, k + 1) == NeedsOf(libs, xs, k) + NeededBy(libs, xs[k]);
  }

  // What the k-th library needs follows what the earlier ones need.
  lemma NeedsAt(libs: seq<Library>, xs: seq<nat>, k: nat, j: nat)
    requires k < |xs| && j < |NeededBy(libs, xs[k])|
    ensures Offset(libs, xs, k) + j < |Needs(libs, xs)|
    ensures Needs(libs, xs)[Offset(libs, xs, k) + j] == NeededBy(libs, xs[k])[j]
  {
    NeedsOfPart(libs, xs, k + 1, |xs|);
    var a, b := NeedsOf(libs, xs, k), NeededBy(libs, xs[k]);
    assert NeedsOf(libs, xs, k + 1) == a + b;
    assert (a + b)[|a| + j] == b[j];
  }

  lemma {:induction false} PlaceHolds(libs: seq<Library>, l: nat, w: seq<nat>, n: nat)
    requires 0 < n <= |w| && CanGo(libs, l, w, n)
    ensures Place(libs, l, w, n) < |Level(libs, l, n - 1)|
    ensures Level(libs, l, n - 1)[Place(libs, l, w, n)] == Stop(libs, l, w, n)
  {
    if n > 1 {
      PlaceHolds(libs, l, w, n - 1);
      NeedsAt(libs, Level(libs, l, n - 2), Place(libs, l, w, n - 1), w[n - 1]);
    } else {
      assert Stop(libs, l, w, 0) == l;
    }
  }

  // Which library of the list needs the i-th of all that are needed.
  lemma {:induction false} WhoNeeds(libs: seq<Library>, xs: seq<nat>, m: nat, i: nat) returns (k: nat, j: nat)
    requires m <= |xs| && i < Offset(libs, xs, m)
    ensures k < m && j < |NeededBy(libs, xs[k])| && i == Offset(libs, xs, k) + j
  {
    if i < Offset(libs, xs, m - 1) {
      k, j := WhoNeeds(libs, xs, m - 1, i);
    } else {
      k, j := m - 1, i - Offset(libs, xs, m - 1);
    }
  }

  // Every place of a level has a way.
  lemma {:induction false} WayTo(libs: seq<Library>, l: nat, n: nat, i: nat) returns (w: seq<nat>)
    requires i < |Level(libs, l, n)|
    ensures |w| == n + 1 && CanGo(libs, l, w, n + 1) && Place(libs, l, w, n + 1) == i
  {
    if n == 0 {
      w := [i];
      FirstStep(libs, l, w);
    } else {
      var xs := Level(libs, l, n - 1);
      var k, j := WhoNeeds(libs, xs, |xs|, i);
      var v := WayTo(libs, l, n - 1, k);
      w := Longer(libs, l, v, n, xs, k, j);
    }
  }

  lemma Longer(libs: seq<Library>, l: nat, v: seq<nat>, n: nat, xs: seq<nat>, k: nat, j: nat) returns (w: seq<nat>)
    requires 0 < n == |v| && CanGo(libs, l, v, n) && Place(libs, l, v, n) == k && xs == Level(libs, l, n - 1)
    requires k < |xs| && j < |NeededBy(libs, xs[k])|
    ensures |w| == n + 1 && CanGo(libs, l, w, n + 1) && Place(libs, l, w, n + 1) == Offset(libs, xs, k) + j
  {
    w := v + [j];
    SameWay(libs, l, v, w, n);
    OneStep(libs, l, w, n, xs, k);
  }

  lemma FirstStep(libs: seq<Library>, l: nat, w: seq<nat>)
    requires w != [] && w[0] < |Level(libs, l, 0)|
    ensures CanGo(libs, l, w, 1) && Place(libs, l, w, 1) == w[0]
  {
    assert CanGo(libs, l, w, 0) && Stop(libs, l, w, 0) == l;
  }

  lemma OneStep(libs: seq<Library>, l: nat, w: seq<nat>, n: nat, xs: seq<nat>, k: nat)
    requires 0 < n < |w| && CanGo(libs, l, w, n) && Place(libs, l, w, n) == k && xs == Level(libs, l, n - 1) && k < |xs|
    requires w[n] < |NeededBy(libs, xs[k])|
    ensures CanGo(libs, l, w, n + 1) && Place(libs, l, w, n + 1) == Offset(libs, xs, k) + w[n]
  {
    PlaceHolds(libs, l, w, n);
  }

  // ---- Which way comes first ----

  // The ways part at step d, where v takes an earlier dependency.
  ghost predicate PartAt(v: seq<nat>, w: seq<nat>, d: nat) {
    d < |v| && d < |w| && v[d] < w[d] && forall i :: 0 <= i < d ==> v[i] == w[i]
  }

  ghost predicate Earlier(v: seq<nat>, w: seq<nat>) {
    |v| == |w| && exists d: nat :: PartAt(v, w, d)
  }

  lemma {:induction false} EarlierPlace(libs: seq<Library>, l: nat, v: seq<nat>, w: seq<nat>, d: nat, n: nat)
    requires PartAt(v, w, d) && d < n <= |v| && n <= |w| && CanGo(libs, l, v, n) && CanGo(libs, l, w, n)
    ensures Place(libs, l, v, n) < Place(libs, l, w, n)
  {
    if d == n - 1 {
      SameWay(libs, l, v, w, n - 1);
    } else {
      EarlierPlace(libs, l, v, w, d, n - 1);
      PlaceHolds(libs, l, v, n - 1);
      PlaceHolds(libs, l, w, n - 1);
      OffsetNext(libs, Level(libs, l, n - 2), Place(libs, l, v, n - 1), Place(libs, l, w, n - 1));
    }
  }

  // The way w leads to a library that offers the name, and no way that is shorter, or of
  // the same length and earlier, leads to one.
  ghost predicate FirstWay(libs: seq<Library>, l: nat, w: seq<nat>, name: string, hash: nat)
    requires AllWellFormed(libs)
  {
    && Way(libs, l, w) && Offer(libs, End(libs, l, w), name, hash).Some?
    && forall v {:trigger Way(libs, l, v)} :: Way(libs, l, v) && (|v| < |w| || Earlier(v, w)) ==>
        Offer(libs, End(libs, l, v), name, hash).None?
  }

  // The search comes to the end of the first way, by length and then by the order in
  // which the libraries name their dependencies.
  lemma SearchTakesFirstWay(libs: seq<Library>, l: nat, name: string, hash: nat, m: nat) returns (w: seq<nat>)
    requires AllWellFormed(libs) && Provider(libs, Levels(libs, l, m), name, hash).Some?
    ensures FirstWay(libs, l, w, name, hash)
    ensures Provider(libs, Levels(libs, l, m), name, hash) ==
      Some(FromLibrary(End(libs, l, w), Offer(libs, End(libs, l, w), name, hash).value))
  {
    var o := Provider(libs, Levels(libs, l, m), name, hash).value;
    var n := OfferAtLevel(libs, l, m, o, name, hash);
    w := FirstOfLevel(libs, l, n, Level(libs, l, n), name, hash);
    forall v | Way(libs, l, v) && (|v| < |w| || Earlier(v, w)) ensures Offer(libs, End(libs, l, v), name, hash).None? {
      NoBetterWay(libs, l, v, w, n, Level(libs, l, n), name, hash);
    }
  }

  // The way to the first offer of a level.
  lemma FirstOfLevel(libs: seq<Library>, l: nat, n: nat, xs: seq<nat>, name: string, hash: nat) returns (w: seq<nat>)
    requires AllWellFormed(libs) && xs == Level(libs, l, n) && Provider(libs, xs, name, hash).Some?
    ensures |w| == n + 1 && Way(libs, l, w) && Offer(libs, End(libs, l, w), name, hash).Some?
    ensures NoneAhead(libs, xs, Place(libs, l, w, n + 1), name, hash)
    ensures Provider(libs, xs, name, hash) ==
      Some(FromLibrary(End(libs, l, w), Offer(libs, End(libs, l, w), name, hash).value))
  {
    var i := ProviderFirst(libs, xs, name, hash, 0);
    w := WayTo(libs, l, n, i);
    PlaceHolds(libs, l, w, n + 1);
  }

  ghost predicate NoneAhead(libs: seq<Library>, xs: seq<nat>, i: nat, name: string, hash: nat)
    requires AllWellFormed(libs)
  {
    forall k :: 0 <= k < i && k < |xs| ==> Offer(libs, xs[k], name, hash).None?
  }

  lemma NoBetterWay(libs: seq<Library>, l: nat, v: seq<nat>, w: seq<nat>, n: nat, xs: seq<nat>, name: string, hash: nat)
    requires AllWellFormed(libs) && Way(libs, l, v) && Way(libs, l, w) && |w| == n + 1 && xs == Level(libs, l, n)
    requires Provider(libs, Levels(libs, l, n), name, hash).None?
    requires NoneAhead(libs, xs, Place(libs, l, w, n + 1), name, hash)
    requires |v| < |w| || Earlier(v, w)
    ensures Offer(libs, End(libs, l, v), name, hash).None?
  {
    if |v| < |w| {
      EndInLevel(libs, l, v, |v| - 1);
      NoShorterOffer(libs, l, End(libs, l, v), |v| - 1, n, name, hash);
    } else {
      var k := EarlierEnd(libs, l, v, w, n, xs);
      NotAhead(libs, xs, k, Place(libs, l, w, n + 1), End(libs, l, v), name, hash);
    }
  }

  lemma NotAhead(libs: seq<Library>, xs: seq<nat>, k: nat, i: nat, x: nat, name: string, hash: nat)
    requires AllWellFormed(libs) && NoneAhead(libs, xs, i, name, hash) && k < |xs| && k < i && xs[k] == x
    ensures Offer(libs, x, name, hash).None?
  {
  }

  lemma EndInLevel(libs: seq<Library>, l: nat, v: seq<nat>, d: nat)
    requires Way(libs, l, v) && d + 1 == |v|
    ensures End(libs, l, v) in Level(libs, l, d)
  {
    PlaceHolds(libs, l, v, |v|);
  }

  lemma NoShorterOffer(libs: seq<Library>, l: nat, x: nat, d: nat, n: nat, name: string, hash: nat)
    requires AllWellFormed(libs) && x in Level(libs, l, d) && d < n
    requires Provider(libs, Levels(libs, l, n), name, hash).None?
    ensures Offer(libs, x, name, hash).None?
  {
    NoOfferInLevels(libs, l, n, d, name, hash);
    OfferAt(libs, Level(libs, l, d), x, name, hash);
  }

  // The end of an earlier way stands ahead in the level.
  lemma EarlierEnd(libs: seq<Library>, l: nat, v: seq<nat>, w: seq<nat>, n: nat, xs: seq<nat>) returns (k: nat)
    requires Way(libs, l, v) && Way(libs, l, w) && Earlier(v, w) && |w| == n + 1 && xs == Level(libs, l, n)
    ensures k < |xs| && k < Place(libs, l, w, n + 1) && xs[k] == End(libs, l, v)
  {
    k := AtPlace(libs, l, v, n + 1, xs);
    var d: nat :| PartAt(v, w, d);
    EarlierPlace(libs, l, v, w, d, n + 1);
  }

  lemma AtPlace(libs: seq<Library>, l: nat, v: seq<nat>, n: nat, xs: seq<nat>) returns (k: nat)
    requires 0 < n == |v| && CanGo(libs, l, v, n) && xs == Level(libs, l, n - 1)
    ensures k == Place(libs, l, v, n) && k < |xs| && xs[k] == End(libs, l, v)
  {
    k := Place(libs, l, v, n);
    PlaceHolds(libs, l, v, n);
  }

  // There is only one such way.
  lemma OneFirstWay(libs: seq<Library>, l: nat, v: seq<nat>, w: seq<nat>, name: string, hash: nat)
    requires AllWellFormed(libs) && FirstWay(libs, l, v, name, hash) && FirstWay(libs, l, w, name, hash)
    ensures v == w
  {
    if |v| == |w| && v != w { OneIsEarlier(v, w); }
  }

  lemma OneIsEarlier(v: seq<nat>, w: seq<nat>)
    requires |v| == |w| && v != w
    ensures Earlier(v, w) || Earlier(w, v)
  {
    var d := Parting(v, w, |v|);
    assert PartAt(v, w, d) || PartAt(w, v, d);
  }

  lemma {:induction false} Parting(v: seq<nat>, w: seq<nat>, n: nat) returns (d: nat)
    requires |v| == |w| && n <= |v| && exists i :: 0 <= i < n && v[i] != w[i]
    ensures d < n && v[d] != w[d] && forall i :: 0 <= i < d ==> v[i] == w[i]
  {
    if exists i :: 0 <= i < n - 1 && v[i] != w[i] {
      d := Parting(v, w, n - 1);
    } else {
      d := n - 1;
    }
  }
}
