// The kernel's symbol resolution across loaded libraries, sys/ioglue/iostore.c and
// the dependency part of sys/ioglue/iolibrary.c. Libraries are numbered in the
// order in which they are added to the store.

module DependencySearch {
  import opened Common
  import opened SymbolTable

  datatype Origin = Kernel | FromLibrary(library: nat, symbol: nat)

  ghost predicate Within(xs: seq<nat>, limit: nat) {
    forall k :: 0 <= k < |xs| ==> xs[k] < limit
  }

  ghost predicate Closed(libs: seq<Library>) {
    forall l {:trigger Within(libs[l].needed, |libs|)} :: 0 <= l < |libs| ==> Within(libs[l].needed, |libs|)
  }

  // Every library needs only libraries added before it, or itself.
  ghost predicate Stacked(libs: seq<Library>) {
    forall l {:trigger Within(libs[l].needed, l + 1)} :: 0 <= l < |libs| ==> Within(libs[l].needed, l + 1)
  }

  lemma Associative<T>(a: seq<T>, b: seq<T>, c: seq<T>)
    ensures a + b + c == a + (b + c)
  {
  }

  lemma Neutral<T>(a: seq<T>)
    ensures a + [] == a && [] + a == a
  {
  }

  ghost function NeededBy(libs: seq<Library>, x: nat): seq<nat> {
    if x < |libs| then libs[x].needed else []
  }

  // What the libraries of a list need, in list order.
  ghost function Needs(libs: seq<Library>, xs: seq<nat>): seq<nat> {
    NeedsOf(libs, xs, |xs|)
  }

  ghost function NeedsOf(libs: seq<Library>, xs: seq<nat>, k: nat): seq<nat> {
    if k == 0 || k > |xs| then [] else NeedsOf(libs, xs, k - 1) + NeededBy(libs, xs[k - 1])
  }

  lemma {:induction false} NeedsOfPrefix(libs: seq<Library>, xs: seq<nat>, ys: seq<nat>, k: nat)
    requires k <= |xs| && xs <= ys
    ensures NeedsOf(libs, xs, k) == NeedsOf(libs, ys, k)
  {
    if k > 0 {
      NeedsOfPrefix(libs, xs, ys, k - 1);
      assert xs[k - 1] == ys[k - 1];
    }
  }

  lemma NeedsAppend(libs: seq<Library>, xs: seq<nat>, x: nat)
    ensures Needs(libs, xs + [x]) == Needs(libs, xs) + NeededBy(libs, x)
  {
    NeedsOfPrefix(libs, xs, xs + [x], |xs|);
  }

  lemma {:induction false} NeedsOfConcat(libs: seq<Library>, a: seq<nat>, b: seq<nat>, k: nat)
    requires k <= |b|
    ensures NeedsOf(libs, a + b, |a| + k) == NeedsOf(libs, a, |a|) + NeedsOf(libs, b, k)
  {
    if k == 0 {
      NeedsOfPrefix(libs, a, a + b, |a|);
    } else {
      var first, last := NeedsOf(libs, a, |a|), NeededBy(libs, b[k - 1]);
      calc {
        NeedsOf(libs, a + b, |a| + k);
        { assert (a + b)[|a| + k - 1] == b[k - 1]; }
        NeedsOf(libs, a + b, |a| + k - 1) + last;
        { NeedsOfConcat(libs, a, b, k - 1); }
        first + NeedsOf(libs, b, k - 1) + last;
        { Associative(first, NeedsOf(libs, b, k - 1), last); }
        first + NeedsOf(libs, b, k);
      }
    }
  }

  lemma NeedsConcat(libs: seq<Library>, a: seq<nat>, b: seq<nat>)
    ensures Needs(libs, a + b) == Needs(libs, a) + Needs(libs, b)
  {
    NeedsOfConcat(libs, a, b, |b|);
  }

  // The libraries `n` edges below the direct dependencies of `l`.
  ghost function Level(libs: seq<Library>, l: nat, n: nat): seq<nat> {
    if n == 0 then NeededBy(libs, l) else Needs(libs, Level(libs, l, n - 1))
  }

  // The first n levels, one after the other.
  ghost function Levels(libs: seq<Library>, l: nat, n: nat): seq<nat> {
    if n == 0 then [] else Levels(libs, l, n - 1) + Level(libs, l, n - 1)
  }

  lemma NeedsPrefix(libs: seq<Library>, a: seq<nat>, b: seq<nat>)
    requires a <= b
    ensures Needs(libs, a) <= Needs(libs, b)
  {
    assert b == a + b[|a|..];
    NeedsConcat(libs, a, b[|a|..]);
  }

  lemma {:induction false} LevelsPrefix(libs: seq<Library>, l: nat, m: nat, n: nat)
    requires m <= n
    ensures Levels(libs, l, m) <= Levels(libs, l, n)
  {
    if m < n { LevelsPrefix(libs, l, m, n - 1); }
  }

  lemma Rearrange<T>(first: seq<T>, x: seq<T>, y: seq<T>, a: seq<T>, b: seq<T>, needs: seq<T>)
    requires a == first + x && needs == x + y && b == a + y
    ensures b == first + needs
  {
    Associative(first, x, y);
  }

  // Each round visits what is needed by what has been visited.
  lemma {:induction false} LevelsStep(libs: seq<Library>, l: nat, n: nat, a: seq<nat>, b: seq<nat>)
    requires n > 0 && a == Levels(libs, l, n - 1) && b == Levels(libs, l, n)
    ensures b == NeededBy(libs, l) + Needs(libs, a)
  {
    if n == 1 {
      FirstLevels(libs, l, a, b);
    } else {
      var a0, level := Levels(libs, l, n - 2), Level(libs, l, n - 2);
      LevelsStep(libs, l, n - 1, a0, a);
      NeedsConcat(libs, a0, level);
      Rearrange(NeededBy(libs, l), Needs(libs, a0), Needs(libs, level), a, b, Needs(libs, a));
    }
  }

  lemma FirstLevels(libs: seq<Library>, l: nat, a: seq<nat>, b: seq<nat>)
    requires a == Levels(libs, l, 0) && b == Levels(libs, l, 1)
    ensures b == NeededBy(libs, l) + Needs(libs, a)
  {
    Neutral(NeededBy(libs, l));
  }

  lemma {:induction false} LevelsStop(libs: seq<Library>, l: nat, m: nat, n: nat)
    requires Level(libs, l, m) == [] && m <= n
    ensures Level(libs, l, n) == [] && Levels(libs, l, n) == Levels(libs, l, m)
  {
    if m < n {
      LevelsStop(libs, l, m, n - 1);
      Neutral(Levels(libs, l, m));
    }
  }

  // What is visited next is next in the order of the levels.
  lemma NextInOrder(libs: seq<Library>, l: nat, seen: seq<nat>, n: nat)
    requires seen <= Levels(libs, l, n)
    ensures NeededBy(libs, l) + Needs(libs, seen) <= Levels(libs, l, n + 1)
  {
    NeedsPrefix(libs, seen, Levels(libs, l, n));
    LevelsStep(libs, l, n + 1, Levels(libs, l, n), Levels(libs, l, n + 1));
    PrefixAfter(NeededBy(libs, l), Needs(libs, seen), Needs(libs, Levels(libs, l, n)));
  }

  lemma PrefixAfter<T>(a: seq<T>, b: seq<T>, c: seq<T>)
    requires b <= c
    ensures a + b <= a + c
  {
  }

  ghost predicate ClosesOn(libs: seq<Library>, first: seq<nat>, seen: seq<nat>, needs: seq<nat>) {
    needs == Needs(libs, seen) && seen == first + needs
  }

  lemma ClosedStep(libs: seq<Library>, first: seq<nat>, seen: seq<nat>, needs: seq<nat>, a: seq<nat>)
    requires ClosesOn(libs, first, seen, needs) && a <= seen
    ensures first + Needs(libs, a) <= seen
  {
    NeedsPrefix(libs, a, seen);
    PrefixAfter(first, Needs(libs, a), needs);
  }

  lemma {:induction false} ClosedHolds(libs: seq<Library>, l: nat, seen: seq<nat>, needs: seq<nat>, n: nat)
    requires ClosesOn(libs, NeededBy(libs, l), seen, needs)
    ensures Levels(libs, l, n) <= seen
  {
    if n > 0 {
      ClosedHolds(libs, l, seen, needs, n - 1);
      LevelsStep(libs, l, n, Levels(libs, l, n - 1), Levels(libs, l, n));
      ClosedStep(libs, NeededBy(libs, l), seen, needs, Levels(libs, l, n - 1));
    }
  }

  // A list that closes on itself holds every level.
  lemma ClosedHoldsLevels(libs: seq<Library>, l: nat, seen: seq<nat>, n: nat)
    requires seen == NeededBy(libs, l) + Needs(libs, seen)
    ensures Levels(libs, l, n) <= seen
  {
    ClosedHolds(libs, l, seen, Needs(libs, seen), n);
  }

  // ---- Which library provides a name ----

  ghost predicate AllWellFormed(libs: seq<Library>) {
    forall l :: 0 <= l < |libs| ==> WellFormed(libs[l])
  }

  // The symbol a library offers for a name: one with an address.
  ghost function Offer(libs: seq<Library>, x: nat, name: string, hash: nat): Option<nat>
    requires AllWellFormed(libs)
  {
    if x >= |libs| then None
    else
      var s := SymbolNamed(libs[x], name, hash);
      if s.Some? && s.value < |libs[x].symtab| && libs[x].symtab[s.value].value != 0 then s else None
  }

  ghost predicate NoneOffers(libs: seq<Library>, xs: seq<nat>, name: string, hash: nat)
    requires AllWellFormed(libs)
  {
    forall k :: 0 <= k < |xs| ==> Offer(libs, xs[k], name, hash).None?
  }

  // The first library of the list with an offer.
  ghost function Provider(libs: seq<Library>, xs: seq<nat>, name: string, hash: nat): Option<Origin>
    requires AllWellFormed(libs)
  {
    ProviderFrom(libs, xs, name, hash, 0)
  }

  ghost function ProviderFrom(libs: seq<Library>, xs: seq<nat>, name: string, hash: nat, k: nat): Option<Origin>
    requires AllWellFormed(libs)
    decreases |xs| - k
  {
    if k >= |xs| then None
    else
      var s := Offer(libs, xs[k], name, hash);
      if s.Some? then Some(FromLibrary(xs[k], s.value)) else ProviderFrom(libs, xs, name, hash, k + 1)
  }

  lemma {:induction false} ProviderFromAfter(libs: seq<Library>, a: seq<nat>, b: seq<nat>, name: string, hash: nat,
                                             k: nat)
    requires AllWellFormed(libs) && k <= |b|
    ensures ProviderFrom(libs, a + b, name, hash, |a| + k) == ProviderFrom(libs, b, name, hash, k)
    decreases |b| - k
  {
    if k < |b| {
      assert (a + b)[|a| + k] == b[k];
      ProviderFromAfter(libs, a, b, name, hash, k + 1);
    }
  }

  lemma {:induction false} ProviderSkips(libs: seq<Library>, a: seq<nat>, xs: seq<nat>, name: string, hash: nat, k: nat)
    requires AllWellFormed(libs) && a <= xs && k <= |a| && NoneOffers(libs, a, name, hash)
    ensures ProviderFrom(libs, xs, name, hash, k) == ProviderFrom(libs, xs, name, hash, |a|)
    decreases |a| - k
  {
    if k < |a| {
      assert Offer(libs, a[k], name, hash).None? && xs[k] == a[k];
      ProviderSkips(libs, a, xs, name, hash, k + 1);
    }
  }

  lemma ProviderAfter(libs: seq<Library>, a: seq<nat>, b: seq<nat>, name: string, hash: nat)
    requires AllWellFormed(libs)
    requires NoneOffers(libs, a, name, hash)
    ensures Provider(libs, a + b, name, hash) == Provider(libs, b, name, hash)
  {
    ProviderSkips(libs, a, a + b, name, hash, 0);
    ProviderFromAfter(libs, a, b, name, hash, 0);
  }

  // io_librarySymbolWithName() with the test for an address.
  method OfferOf(libs: seq<Library>, x: nat, name: string, hash: nat) returns (r: Option<nat>)
    requires AllWellFormed(libs) && x < |libs|
    ensures r == Offer(libs, x, name, hash)
    ensures match SymbolNamed(libs[x], name, hash)
      case None => r.None?
      case Some(s) =>
        && s < |libs[x].symtab| && libs[x].symtab[s].name == name
        && r == if libs[x].symtab[s].value == 0 then None else Some(s)
  {
    r := SymbolWithName(libs[x], name, hash);
    if r.Some? && libs[x].symtab[r.value].value == 0 {
      r := None;
    }
  }

  // ---- The worklist ----

  ghost function Flat(tree: seq<seq<nat>>): seq<nat> {
    if tree == [] then [] else Flat(tree[..|tree| - 1]) + tree[|tree| - 1]
  }

  lemma {:induction false} FlatSplit(tree: seq<seq<nat>>, i: nat, j: nat)
    requires i < |tree| && j < |tree[i]|
    ensures Flat(tree[..i]) + tree[i][..j] + [tree[i][j]] <= Flat(tree)
    decreases |tree|
  {
    assert tree[i] == tree[i][..j] + [tree[i][j]] + tree[i][j + 1..];
    if i < |tree| - 1 {
      var t := tree[..|tree| - 1];
      FlatSplit(t, i, j);
      assert t[..i] == tree[..i];
    }
  }

  lemma {:induction false} FlatAt(tree: seq<seq<nat>>, i: nat)
    requires i < |tree|
    ensures Flat(tree[..i + 1]) == Flat(tree[..i]) + tree[i]
  {
    assert tree[..i + 1][..i] == tree[..i];
  }

  lemma FlatAppend(tree: seq<seq<nat>>, xs: seq<nat>, a: seq<nat>, b: seq<nat>)
    requires Flat(tree) == a + b
    ensures Flat(tree + [xs]) == a + (b + xs)
  {
    assert (tree + [xs])[..|tree|] == tree;
    Associative(a, b, xs);
  }

  // The search is over after m levels: nothing is left to visit, or a library of
  // one of them has an offer.
  ghost predicate Ends(libs: seq<Library>, l: nat, name: string, hash: nat, m: nat)
    requires AllWellFormed(libs)
  {
    Level(libs, l, m) == [] || Provider(libs, Levels(libs, l, m), name, hash).Some?
  }

  ghost predicate Ordered(libs: seq<Library>, l: nat, seen: seq<nat>) {
    exists n: nat :: seen <= Levels(libs, l, n)
  }

  // A state of the search: the libraries visited so far, in order and without an
  // offer, and the lists they have put on the worklist.
  ghost predicate Progress(libs: seq<Library>, l: nat, tree: seq<seq<nat>>, seen: seq<nat>, name: string, hash: nat)
    requires AllWellFormed(libs)
  {
    && Ordered(libs, l, seen)
    && NoneOffers(libs, seen, name, hash)
    && Flat(tree) == NeededBy(libs, l) + Needs(libs, seen)
  }

  lemma FirstOffer(libs: seq<Library>, all: seq<nat>, seen: seq<nat>, x: nat, name: string, hash: nat)
    requires AllWellFormed(libs) && seen + [x] <= all && NoneOffers(libs, seen, name, hash)
    requires Offer(libs, x, name, hash).Some?
    ensures Provider(libs, all, name, hash) == Some(FromLibrary(x, Offer(libs, x, name, hash).value))
  {
    assert seen <= all && all[|seen|] == (seen + [x])[|seen|];
    ProviderSkips(libs, seen, all, name, hash, 0);
  }

  lemma PrefixNone(libs: seq<Library>, a: seq<nat>, b: seq<nat>, name: string, hash: nat)
    requires AllWellFormed(libs) && a <= b && NoneOffers(libs, b, name, hash)
    ensures Provider(libs, a, name, hash).None?
  {
    forall k | 0 <= k < |a| ensures Offer(libs, a[k], name, hash).None? {
      assert a[k] == b[k];
    }
    ProviderNone(libs, a, name, hash);
  }

  lemma PrefixOf<T>(a: seq<T>, b: seq<T>, c: seq<T>)
    requires a <= c && b <= c && |a| <= |b|
    ensures a <= b
  {
    assert forall k :: 0 <= k < |a| ==> a[k] == c[k] == b[k];
  }

  // Nothing without an offer is visited beyond the levels that end the search.
  lemma SeenWithin(libs: seq<Library>, l: nat, seen: seq<nat>, m: nat, name: string, hash: nat)
    requires AllWellFormed(libs) && Ends(libs, l, name, hash, m)
    requires Ordered(libs, l, seen) && NoneOffers(libs, seen, name, hash)
    ensures seen <= Levels(libs, l, m)
  {
    var n: nat :| seen <= Levels(libs, l, n);
    var levels := Levels(libs, l, m);
    if n <= m {
      LevelsPrefix(libs, l, n, m);
    } else {
      LevelsPrefix(libs, l, m, n);
      if |levels| < |seen| {
        PrefixOf(levels, seen, Levels(libs, l, n));
        PrefixNone(libs, levels, seen, name, hash);
        LevelsStop(libs, l, m, n);
      } else {
        PrefixOf(seen, levels, Levels(libs, l, n));
      }
    }
  }

  // The first offer met is the first of the levels that end the search.
  lemma FoundWithin(libs: seq<Library>, l: nat, seen: seq<nat>, x: nat, m: nat, name: string, hash: nat)
    requires AllWellFormed(libs) && Ends(libs, l, name, hash, m)
    requires Ordered(libs, l, seen + [x]) && NoneOffers(libs, seen, name, hash) && Offer(libs, x, name, hash).Some?
    ensures Provider(libs, Levels(libs, l, m), name, hash) == Some(FromLibrary(x, Offer(libs, x, name, hash).value))
  {
    var n: nat :| seen + [x] <= Levels(libs, l, n);
    var levels := Levels(libs, l, m);
    if n <= m {
      LevelsPrefix(libs, l, n, m);
    } else {
      LevelsPrefix(libs, l, m, n);
      if |levels| <= |seen| {
        PrefixOf(levels, seen, Levels(libs, l, n));
        PrefixNone(libs, levels, seen, name, hash);
        LevelsStop(libs, l, m, n);
      } else {
        PrefixOf(seen + [x], levels, Levels(libs, l, n));
      }
    }
    FirstOffer(libs, levels, seen, x, name, hash);
  }

  // The answer wherever the search ends.
  ghost predicate Right(libs: seq<Library>, l: nat, name: string, hash: nat, r: Option<Origin>)
    requires AllWellFormed(libs)
  {
    forall m :: Ends(libs, l, name, hash, m) ==> Provider(libs, Levels(libs, l, m), name, hash) == r
  }

  lemma FoundAnywhere(libs: seq<Library>, l: nat, seen: seq<nat>, x: nat, name: string, hash: nat, s: nat)
    requires AllWellFormed(libs) && Ordered(libs, l, seen + [x]) && NoneOffers(libs, seen, name, hash)
    requires Offer(libs, x, name, hash) == Some(s)
    ensures Right(libs, l, name, hash, Some(FromLibrary(x, s)))
  {
    forall m | Ends(libs, l, name, hash, m)
      ensures Provider(libs, Levels(libs, l, m), name, hash) == Some(FromLibrary(x, s))
    {
      FoundWithin(libs, l, seen, x, m, name, hash);
    }
  }

  lemma {:induction false} LevelsMembers(libs: seq<Library>, l: nat, n: nat, x: nat) returns (k: nat)
    requires x in Levels(libs, l, n)
    ensures k < n && x in Level(libs, l, k)
  {
    if x in Level(libs, l, n - 1) {
      k := n - 1;
    } else {
      k := LevelsMembers(libs, l, n - 1, x);
    }
  }

  lemma NextOrdered(libs: seq<Library>, l: nat, tree: seq<seq<nat>>, seen: seq<nat>, x: nat)
    requires Closed(libs) && l < |libs| && Ordered(libs, l, seen)
    requires seen + [x] <= Flat(tree) == NeededBy(libs, l) + Needs(libs, seen)
    ensures x < |libs| && Ordered(libs, l, seen + [x])
  {
    var n: nat :| seen <= Levels(libs, l, n);
    NextInOrder(libs, l, seen, n);
    var levels := Levels(libs, l, n + 1);
    assert x in levels by { assert levels[|seen|] == (seen + [x])[|seen|]; }
    var k := LevelsMembers(libs, l, n + 1, x);
    var p := LevelHasPath(libs, l, k, x);
  }

  lemma ProgressStep(libs: seq<Library>, l: nat, tree: seq<seq<nat>>, seen: seq<nat>, x: nat, name: string, hash: nat)
    requires Closed(libs) && AllWellFormed(libs) && l < |libs|
    requires Progress(libs, l, tree, seen, name, hash)
    requires seen + [x] <= Flat(tree)
    ensures x < |libs| && Ordered(libs, l, seen + [x])
    ensures Offer(libs, x, name, hash).None? ==> Progress(libs, l, tree + [libs[x].needed], seen + [x], name, hash)
    ensures Offer(libs, x, name, hash).None? && libs[x].needed == [] ==> Progress(libs, l, tree, seen + [x], name, hash)
  {
    NextOrdered(libs, l, tree, seen, x);
    NeedsAppend(libs, seen, x);
    FlatAppend(tree, libs[x].needed, NeededBy(libs, l), Needs(libs, seen));
    Neutral(Needs(libs, seen));
  }

  // The first j libraries of the i-th list have been visited.
  ghost predicate Pass(tree: seq<seq<nat>>, longer: seq<seq<nat>>, i: nat, j: nat, after: seq<nat>) {
    && i < |tree| && j <= |tree[i]| && tree <= longer
    && after == Flat(tree[..i]) + tree[i][..j]
    && (j == 0 ==> longer == tree)
  }

  lemma PassStep(tree: seq<seq<nat>>, longer: seq<seq<nat>>, i: nat, j: nat, after: seq<nat>, needed: seq<nat>)
    requires Pass(tree, longer, i, j, after) && j < |tree[i]|
    ensures after + [tree[i][j]] <= Flat(longer)
    ensures Pass(tree, longer, i, j + 1, after + [tree[i][j]])
    ensures Pass(tree, longer + [needed], i, j + 1, after + [tree[i][j]])
  {
    assert longer[..i] == tree[..i] && longer[i] == tree[i];
    FlatSplit(longer, i, j);
    assert tree[i][..j + 1] == tree[i][..j] + [tree[i][j]];
    Associative(Flat(tree[..i]), tree[i][..j], [tree[i][j]]);
  }

  lemma PassDone(tree: seq<seq<nat>>, longer: seq<seq<nat>>, i: nat, after: seq<nat>)
    requires i < |tree| && Pass(tree, longer, i, |tree[i]|, after)
    ensures after == Flat(longer[..i + 1]) && |after| == |Flat(tree[..i])| + |tree[i]|
  {
    assert tree[i][..|tree[i]|] == tree[i] == longer[i] && longer[..i] == tree[..i];
    FlatAt(longer, i);
  }

  // One pass of the inner loop: the libraries of the i-th list.
  method SearchList(libs: seq<Library>, l: nat, tree: seq<seq<nat>>, i: nat, ghost seen: seq<nat>, name: string,
                    hash: nat)
      returns (r: Option<Origin>, longer: seq<seq<nat>>, ghost after: seq<nat>)
    requires Closed(libs) && AllWellFormed(libs) && l < |libs|
    requires i < |tree| && seen == Flat(tree[..i])
    requires Progress(libs, l, tree, seen, name, hash)
    ensures r.Some? ==> Right(libs, l, name, hash, r)
    ensures r.None? ==> tree <= longer && after == Flat(longer[..i + 1]) && |after| == |seen| + |tree[i]|
    ensures r.None? ==> Progress(libs, l, longer, after, name, hash)
    ensures r.None? && tree[i] == [] ==> longer == tree
  {
    var j := 0;
    longer, after := tree, seen;
    assert seen + tree[i][..0] == seen;
    while j < |tree[i]|
      invariant Pass(tree, longer, i, j, after)
      invariant Progress(libs, l, longer, after, name, hash)
    {
      var x := tree[i][j];
      PassStep(tree, longer, i, j, after, NeededBy(libs, x));
      ProgressStep(libs, l, longer, after, x, name, hash);
      var s := OfferOf(libs, x, name, hash);
      if s.Some? {
        FoundAnywhere(libs, l, after, x, name, hash, s.value);
        return Some(FromLibrary(x, s.value)), longer, after;
      }
      if |libs[x].needed| > 0 {
        longer := longer + [libs[x].needed];
      }
      after, j := after + [x], j + 1;
    }
    PassDone(tree, longer, i, after);
    return None, longer, after;
  }

  // The breadth first loop of io_storeLookupSymbol(), where it ends after m levels.
  method Search(libs: seq<Library>, l: nat, name: string, hash: nat, ghost m: nat) returns (r: Option<Origin>)
    requires Closed(libs) && AllWellFormed(libs) && l < |libs| && Ends(libs, l, name, hash, m)
    ensures r == Provider(libs, Levels(libs, l, m), name, hash)
  {
    var tree := [libs[l].needed];
    var i := 0;
    ghost var seen: seq<nat> := [];
    assert tree[..0] == [] && Flat(tree) == libs[l].needed + Needs(libs, []) && seen <= Levels(libs, l, 0);
    SeenWithin(libs, l, seen, m, name, hash);
    while i < |tree|
      invariant 0 <= i <= |tree| && seen == Flat(tree[..i])
      invariant Progress(libs, l, tree, seen, name, hash) && seen <= Levels(libs, l, m)
      decreases |Levels(libs, l, m)| - |seen|, |tree| - i
    {
      r, tree, seen := SearchList(libs, l, tree, i, seen, name, hash);
      if r.Some? {
        return;
      }
      SeenWithin(libs, l, seen, m, name, hash);
      i := i + 1;
    }
    assert tree[..i] == tree;
    ClosedHoldsLevels(libs, l, seen, m);
    PrefixNone(libs, Levels(libs, l, m), seen, name, hash);
    return None;
  }

  // Where no number of levels ends the search, every state of it has a library left
  // to visit: the loop goes on for ever.
  lemma LoopGoesOn(libs: seq<Library>, l: nat, tree: seq<seq<nat>>, seen: seq<nat>, name: string, hash: nat)
    requires AllWellFormed(libs) && Progress(libs, l, tree, seen, name, hash) && seen <= Flat(tree)
    requires forall m :: !Ends(libs, l, name, hash, m)
    ensures |seen| < |Flat(tree)|
  {
    if seen == Flat(tree) {
      ClosedHoldsLevels(libs, l, seen, |seen| + 1);
      LevelsLong(libs, l, |seen| + 1, name, hash);
    }
  }

  lemma {:induction false} LevelsLong(libs: seq<Library>, l: nat, n: nat, name: string, hash: nat)
    requires AllWellFormed(libs) && forall m :: !Ends(libs, l, name, hash, m)
    ensures |Levels(libs, l, n)| >= n
  {
    if n > 0 {
      LevelsLong(libs, l, n - 1, name, hash);
      assert !Ends(libs, l, name, hash, n - 1);
    }
  }

  // ---- The result is the nearest provider ----

  // The next library of p is needed by its k-th.
  ghost predicate Edge(libs: seq<Library>, p: seq<nat>, k: int) {
    0 <= k < |p| - 1 && p[k] < |libs| && p[k + 1] in libs[p[k]].needed
  }

  ghost predicate IsPath(libs: seq<Library>, p: seq<nat>) {
    && |p| > 0 && Within(p, |libs|)
    && forall k {:trigger Edge(libs, p, k)} :: 0 <= k < |p| - 1 ==> Edge(libs, p, k)
  }

  // `p` leads from l to x.
  ghost predicate Leads(libs: seq<Library>, p: seq<nat>, l: nat, x: nat) {
    IsPath(libs, p) && p[0] == l && p[|p| - 1] == x
  }

  lemma {:induction false} NeedsOfMembers(libs: seq<Library>, xs: seq<nat>, x: nat, k: nat)
    requires k <= |xs|
    ensures x in NeedsOf(libs, xs, k) <==> exists i :: 0 <= i < k && x in NeededBy(libs, xs[i])
  {
    if k > 0 { NeedsOfMembers(libs, xs, x, k - 1); }
  }

  lemma NeedsMembers(libs: seq<Library>, xs: seq<nat>, x: nat)
    ensures x in Needs(libs, xs) <==> exists y :: y in xs && y < |libs| && x in libs[y].needed
  {
    NeedsOfMembers(libs, xs, x, |xs|);
    if y :| y in xs && y < |libs| && x in libs[y].needed {
      var i :| 0 <= i < |xs| && xs[i] == y;
      assert x in NeededBy(libs, xs[i]);
    }
  }

  lemma PathExtends(libs: seq<Library>, p: seq<nat>, l: nat, y: nat, x: nat)
    requires Leads(libs, p, l, y) && x < |libs| && x in libs[y].needed
    ensures Leads(libs, p + [x], l, x)
  {
    var q := p + [x];
    forall k | 0 <= k < |q| - 1 ensures Edge(libs, q, k) {
      if k < |p| - 1 {
        assert Edge(libs, p, k);
      }
    }
  }

  lemma PathShortens(libs: seq<Library>, p: seq<nat>, l: nat, x: nat)
    requires Leads(libs, p, l, x) && |p| > 1
    ensures Leads(libs, p[..|p| - 1], l, p[|p| - 2]) && x in libs[p[|p| - 2]].needed
  {
    var q := p[..|p| - 1];
    assert Edge(libs, p, |p| - 2);
    forall k | 0 <= k < |q| - 1 ensures Edge(libs, q, k) {
      assert Edge(libs, p, k);
    }
  }

  lemma NeededFrom(libs: seq<Library>, xs: seq<nat>, x: nat) returns (y: nat)
    requires Closed(libs) && x in Needs(libs, xs)
    ensures y in xs && y < |libs| && x in libs[y].needed && x < |libs|
  {
    NeedsMembers(libs, xs, x);
    y :| y in xs && y < |libs| && x in libs[y].needed;
    assert Within(libs[y].needed, |libs|);
  }

  lemma DirectPath(libs: seq<Library>, l: nat, x: nat)
    requires Closed(libs) && l < |libs| && x in libs[l].needed
    ensures Leads(libs, [l, x], l, x)
  {
    assert Within(libs[l].needed, |libs|);
  }

  lemma {:induction false} LevelHasPath(libs: seq<Library>, l: nat, n: nat, x: nat) returns (p: seq<nat>)
    requires Closed(libs) && l < |libs| && x in Level(libs, l, n)
    ensures Leads(libs, p, l, x) && |p| == n + 2
  {
    if n == 0 {
      DirectPath(libs, l, x);
      p := [l, x];
    } else {
      var y := NeededFrom(libs, Level(libs, l, n - 1), x);
      var q := LevelHasPath(libs, l, n - 1, y);
      PathExtends(libs, q, l, y, x);
      p := q + [x];
    }
  }

  lemma {:induction false} PathInLevel(libs: seq<Library>, l: nat, n: nat, x: nat, p: seq<nat>)
    requires Closed(libs) && l < |libs| && Leads(libs, p, l, x) && |p| == n + 2
    ensures x in Level(libs, l, n)
  {
    PathShortens(libs, p, l, x);
    if n > 0 {
      var q := p[..|p| - 1];
      PathInLevel(libs, l, n - 1, p[n], q);
      NeedsMembers(libs, Level(libs, l, n - 1), x);
    }
  }

  lemma LevelIsPaths(libs: seq<Library>, l: nat, n: nat, x: nat)
    requires Closed(libs) && l < |libs|
    ensures x in Level(libs, l, n) <==> exists p :: Leads(libs, p, l, x) && |p| == n + 2
  {
    if x in Level(libs, l, n) {
      var p := LevelHasPath(libs, l, n, x);
    }
    if p :| Leads(libs, p, l, x) && |p| == n + 2 {
      PathInLevel(libs, l, n, x, p);
    }
  }

  lemma {:induction false} ProviderFromNone(libs: seq<Library>, xs: seq<nat>, name: string, hash: nat, k: nat)
    requires AllWellFormed(libs)
    ensures var r := ProviderFrom(libs, xs, name, hash, k);
      && (r.None? <==> forall i :: k <= i < |xs| ==> Offer(libs, xs[i], name, hash).None?)
      && r != Some(Kernel)
      && (r.Some? ==>
          && r.value.library in xs && r.value.library < |libs|
          && Offer(libs, r.value.library, name, hash) == Some(r.value.symbol))
    decreases |xs| - k
  {
    if k < |xs| && Offer(libs, xs[k], name, hash).None? {
      ProviderFromNone(libs, xs, name, hash, k + 1);
    }
  }

  lemma ProviderNone(libs: seq<Library>, xs: seq<nat>, name: string, hash: nat)
    requires AllWellFormed(libs)
    ensures var r := Provider(libs, xs, name, hash);
      && (r.None? <==> NoneOffers(libs, xs, name, hash))
      && r != Some(Kernel)
      && (r.Some? ==>
          && r.value.library in xs && r.value.library < |libs|
          && Offer(libs, r.value.library, name, hash) == Some(r.value.symbol))
  {
    ProviderFromNone(libs, xs, name, hash, 0);
  }

  // The provider is the first with an offer.
  lemma {:induction false} ProviderFirst(libs: seq<Library>, xs: seq<nat>, name: string, hash: nat, k: nat)
    returns (n: nat)
    requires AllWellFormed(libs) && ProviderFrom(libs, xs, name, hash, k).Some?
    ensures var r := ProviderFrom(libs, xs, name, hash, k);
      && k <= n < |xs| && Offer(libs, xs[n], name, hash).Some?
      && r == Some(FromLibrary(xs[n], Offer(libs, xs[n], name, hash).value))
      && forall i :: k <= i < n ==> Offer(libs, xs[i], name, hash).None?
    decreases |xs| - k
  {
    if Offer(libs, xs[k], name, hash).Some? {
      n := k;
    } else {
      n := ProviderFirst(libs, xs, name, hash, k + 1);
    }
  }

  // The last of the levels is the first with an offer.
  lemma OfferInLast(libs: seq<Library>, l: nat, n: nat, o: Origin, name: string, hash: nat)
    requires AllWellFormed(libs) && n > 0
    requires Provider(libs, Levels(libs, l, n - 1), name, hash).None?
    requires Provider(libs, Levels(libs, l, n), name, hash) == Some(o)
    ensures FirstAtLevel(libs, l, n - 1, o, name, hash)
  {
    ProviderNone(libs, Levels(libs, l, n - 1), name, hash);
    ProviderAfter(libs, Levels(libs, l, n - 1), Level(libs, l, n - 1), name, hash);
  }

  lemma NoOfferInLevels(libs: seq<Library>, l: nat, n: nat, m: nat, name: string, hash: nat)
    requires AllWellFormed(libs) && m < n
    requires Provider(libs, Levels(libs, l, n), name, hash).None?
    ensures NoneOffers(libs, Level(libs, l, m), name, hash)
  {
    ProviderNone(libs, Levels(libs, l, n), name, hash);
    LevelsPrefix(libs, l, m + 1, n);
    PartNone(libs, Levels(libs, l, m), Level(libs, l, m), Levels(libs, l, n), name, hash);
  }

  lemma PartNone(libs: seq<Library>, a: seq<nat>, b: seq<nat>, xs: seq<nat>, name: string, hash: nat)
    requires AllWellFormed(libs) && a + b <= xs && NoneOffers(libs, xs, name, hash)
    ensures NoneOffers(libs, b, name, hash)
  {
    forall k | 0 <= k < |b| ensures Offer(libs, b[k], name, hash).None? {
      assert b[k] == (a + b)[|a| + k] == xs[|a| + k];
    }
  }

  lemma OfferEarlier(libs: seq<Library>, l: nat, n: nat, name: string, hash: nat)
    requires AllWellFormed(libs) && n > 0
    requires Provider(libs, Levels(libs, l, n - 1), name, hash).Some?
    ensures Provider(libs, Levels(libs, l, n), name, hash) == Provider(libs, Levels(libs, l, n - 1), name, hash)
  {
    ProviderBefore(libs, Levels(libs, l, n - 1), Level(libs, l, n - 1), name, hash);
  }

  lemma {:induction false} OfferAtLevel(libs: seq<Library>, l: nat, n: nat, o: Origin, name: string, hash: nat)
      returns (m: nat)
    requires AllWellFormed(libs)
    requires Provider(libs, Levels(libs, l, n), name, hash) == Some(o)
    ensures FirstAtLevel(libs, l, m, o, name, hash)
  {
    NoLevels(libs, l, name, hash);
    m := LastLevel(libs, l, n, o, name, hash);
    OfferInLast(libs, l, m + 1, o, name, hash);
  }

  lemma {:induction false} LastLevel(libs: seq<Library>, l: nat, n: nat, o: Origin, name: string, hash: nat)
      returns (m: nat)
    requires AllWellFormed(libs) && n > 0
    requires Provider(libs, Levels(libs, l, n), name, hash) == Some(o)
    ensures Provider(libs, Levels(libs, l, m), name, hash).None?
    ensures Provider(libs, Levels(libs, l, m + 1), name, hash) == Some(o)
  {
    if Provider(libs, Levels(libs, l, n - 1), name, hash).Some? {
      NoLevels(libs, l, name, hash);
      OfferEarlier(libs, l, n, name, hash);
      m := LastLevel(libs, l, n - 1, o, name, hash);
    } else {
      m := n - 1;
    }
  }

  lemma NoLevels(libs: seq<Library>, l: nat, name: string, hash: nat)
    requires AllWellFormed(libs)
    ensures Provider(libs, Levels(libs, l, 0), name, hash).None?
  {
  }

  // The provider is the first of its level, and no level above has one.
  ghost predicate FirstAtLevel(libs: seq<Library>, l: nat, m: nat, o: Origin, name: string, hash: nat)
    requires AllWellFormed(libs)
  {
    && Provider(libs, Level(libs, l, m), name, hash) == Some(o)
    && Provider(libs, Levels(libs, l, m), name, hash).None?
  }

  lemma {:induction false} ProviderFromBefore(libs: seq<Library>, a: seq<nat>, xs: seq<nat>, name: string, hash: nat,
                                              k: nat)
    requires AllWellFormed(libs) && a <= xs && ProviderFrom(libs, a, name, hash, k).Some?
    ensures ProviderFrom(libs, xs, name, hash, k) == ProviderFrom(libs, a, name, hash, k)
    decreases |a| - k
  {
    assert xs[k] == a[k];
    if Offer(libs, a[k], name, hash).None? {
      ProviderFromBefore(libs, a, xs, name, hash, k + 1);
    }
  }

  lemma ProviderBefore(libs: seq<Library>, a: seq<nat>, b: seq<nat>, name: string, hash: nat)
    requires AllWellFormed(libs)
    requires Provider(libs, a, name, hash).Some?
    ensures Provider(libs, a + b, name, hash) == Provider(libs, a, name, hash)
  {
    ProviderFromBefore(libs, a, a + b, name, hash, 0);
  }

  // Among all the libraries that can be reached from l, x is one of the closest
  // with an offer.
  ghost predicate Nearest(libs: seq<Library>, l: nat, x: nat, name: string, hash: nat)
    requires AllWellFormed(libs)
  {
    exists p ::
      |p| > 1 && Leads(libs, p, l, x) && Offer(libs, x, name, hash).Some? && NoneWithin(libs, l, |p| - 1, name, hash)
  }

  // No library reached over fewer than n edges has an offer.
  ghost predicate NoneWithin(libs: seq<Library>, l: nat, n: nat, name: string, hash: nat)
    requires AllWellFormed(libs)
  {
    forall p, x: nat :: Leads(libs, p, l, x) && 1 < |p| <= n ==> Offer(libs, x, name, hash).None?
  }

  lemma LevelsWithin(libs: seq<Library>, l: nat, n: nat, name: string, hash: nat)
    requires Closed(libs) && AllWellFormed(libs) && l < |libs|
    requires Provider(libs, Levels(libs, l, n), name, hash).None?
    ensures NoneWithin(libs, l, n + 1, name, hash)
  {
    forall p, x: nat | Leads(libs, p, l, x) && 1 < |p| <= n + 1 ensures Offer(libs, x, name, hash).None? {
      NoOfferAt(libs, l, n, p, x, name, hash);
    }
  }

  lemma NoOfferAt(libs: seq<Library>, l: nat, n: nat, p: seq<nat>, x: nat, name: string, hash: nat)
    requires Closed(libs) && AllWellFormed(libs) && l < |libs|
    requires Provider(libs, Levels(libs, l, n), name, hash).None? && Leads(libs, p, l, x) && 1 < |p| <= n + 1
    ensures Offer(libs, x, name, hash).None?
  {
    PathInLevel(libs, l, |p| - 2, x, p);
    NoOfferInLevels(libs, l, n, |p| - 2, name, hash);
    OfferAt(libs, Level(libs, l, |p| - 2), x, name, hash);
  }

  lemma NoProviderAnywhere(libs: seq<Library>, l: nat, p: seq<nat>, x: nat, name: string, hash: nat, m: nat)
    requires Closed(libs) && AllWellFormed(libs) && l < |libs|
    requires Ends(libs, l, name, hash, m) && Provider(libs, Levels(libs, l, m), name, hash).None?
    requires Leads(libs, p, l, x) && |p| > 1
    ensures Offer(libs, x, name, hash).None?
  {
    var d := |p| - 2;
    LevelIsPaths(libs, l, d, x);
    if d < m {
      NoOfferInLevels(libs, l, m, d, name, hash);
      OfferAt(libs, Level(libs, l, d), x, name, hash);
    } else {
      LevelsStop(libs, l, m, d);
    }
  }

  lemma ProviderIsNearest(libs: seq<Library>, l: nat, name: string, hash: nat, m: nat)
    requires Closed(libs) && AllWellFormed(libs) && l < |libs|
    requires Provider(libs, Levels(libs, l, m), name, hash).Some?
    ensures var o := Provider(libs, Levels(libs, l, m), name, hash).value;
      o.FromLibrary? && Nearest(libs, l, o.library, name, hash) && Offer(libs, o.library, name, hash) == Some(o.symbol)
  {
    var o := Provider(libs, Levels(libs, l, m), name, hash).value;
    var n := OfferAtLevel(libs, l, m, o, name, hash);
    ProviderNone(libs, Level(libs, l, n), name, hash);
    var p := LevelHasPath(libs, l, n, o.library);
    LevelsWithin(libs, l, n, name, hash);
  }

  // The provider a search that ends comes to is one of the nearest, and there is none
  // exactly when no library that can be reached at all has an offer.
  lemma SearchFindsNearest(libs: seq<Library>, l: nat, name: string, hash: nat, m: nat)
    requires Closed(libs) && AllWellFormed(libs) && l < |libs| && Ends(libs, l, name, hash, m)
    ensures var r := Provider(libs, Levels(libs, l, m), name, hash);
      r.Some? ==> r.value.FromLibrary? && Nearest(libs, l, r.value.library, name, hash)
    ensures Provider(libs, Levels(libs, l, m), name, hash).None? <==> NoneReachable(libs, l, name, hash)
  {
    var r := Provider(libs, Levels(libs, l, m), name, hash);
    if r.Some? {
      ProviderIsNearest(libs, l, name, hash, m);
    } else {
      forall p, x: nat | Leads(libs, p, l, x) && |p| > 1 ensures Offer(libs, x, name, hash).None? {
        NoProviderAnywhere(libs, l, p, x, name, hash, m);
      }
    }
  }

  // No library below l has an offer.
  ghost predicate NoneReachable(libs: seq<Library>, l: nat, name: string, hash: nat)
    requires AllWellFormed(libs)
  {
    forall p, x: nat :: Leads(libs, p, l, x) && |p| > 1 ==> Offer(libs, x, name, hash).None?
  }

  // The library's own offer.
  ghost function OwnOffer(libs: seq<Library>, l: nat, name: string, hash: nat): Option<Origin>
    requires AllWellFormed(libs)
  {
    var s := Offer(libs, l, name, hash);
    if s.Some? then Some(FromLibrary(l, s.value)) else None
  }

  // A library below l that offers the name comes before l itself, and none is nearer; it
  // is the first of the m levels that the search goes through.
  ghost predicate ResolvesTo(libs: seq<Library>, l: nat, name: string, hash: nat, m: nat, r: Option<Origin>)
    requires AllWellFormed(libs)
  {
    if NoneReachable(libs, l, name, hash) then r == OwnOffer(libs, l, name, hash)
    else
      && r.Some? && r.value.FromLibrary? && Nearest(libs, l, r.value.library, name, hash)
      && Offer(libs, r.value.library, name, hash) == Some(r.value.symbol)
      && r == Provider(libs, Levels(libs, l, m), name, hash)
  }

  // io_storeLookupSymbol(); `kernel` holds the names of the kernel's own symbols.
  method LookupSymbol(libs: seq<Library>, l: nat, symnum: nat, kernel: set<string>, hash: string -> nat, ghost m: nat)
      returns (r: Option<Origin>)
    requires Closed(libs) && AllWellFormed(libs) && l < |libs| && symnum < |libs[l].symtab|
    requires var sym := libs[l].symtab[symnum];
      sym.local || sym.name in kernel || Ends(libs, l, sym.name, hash(sym.name), m)
    ensures libs[l].symtab[symnum].local ==> r == Some(FromLibrary(l, symnum))
    ensures !libs[l].symtab[symnum].local && libs[l].symtab[symnum].name in kernel ==> r == Some(Kernel)
    ensures !libs[l].symtab[symnum].local && libs[l].symtab[symnum].name !in kernel ==>
      ResolvesTo(libs, l, libs[l].symtab[symnum].name, hash(libs[l].symtab[symnum].name), m, r)
  {
    var lookup := libs[l].symtab[symnum];
    if lookup.local {
      return Some(FromLibrary(l, symnum));
    }
    if lookup.name in kernel {
      return Some(Kernel);
    }
    r := Search(libs, l, lookup.name, hash(lookup.name), m);
    SearchFindsNearest(libs, l, lookup.name, hash(lookup.name), m);
    if r.Some? {
      ProviderIsNearest(libs, l, lookup.name, hash(lookup.name), m);
      return;
    }
    var s := OfferOf(libs, l, lookup.name, hash(lookup.name));
    return if s.Some? then Some(FromLibrary(l, s.value)) else None;
  }

  lemma OfferAt(libs: seq<Library>, xs: seq<nat>, x: nat, name: string, hash: nat)
    requires AllWellFormed(libs) && NoneOffers(libs, xs, name, hash)
    requires x in xs
    ensures Offer(libs, x, name, hash).None?
  {
    var k :| 0 <= k < |xs| && xs[k] == x;
    assert Offer(libs, xs[k], name, hash).None?;
  }

  // ---- When the search ends ----

  // A path from l that comes back to where it has been.
  ghost predicate Loops(libs: seq<Library>, l: nat, p: seq<nat>, i: nat, j: nat) {
    IsPath(libs, p) && p[0] == l && i < j < |p| && p[i] == p[j]
  }

  ghost predicate LoopBelow(libs: seq<Library>, l: nat) {
    exists p, i: nat, j: nat :: Loops(libs, l, p, i, j)
  }

  // A loop makes paths of every length.
  lemma {:induction false} Walk(libs: seq<Library>, l: nat, p: seq<nat>, i: nat, j: nat, n: nat)
      returns (q: seq<nat>, k: nat)
    requires Loops(libs, l, p, i, j)
    ensures k < j && Leads(libs, q, l, p[k]) && |q| == n + 1
  {
    if n == 0 {
      q, k := [l], 0;
    } else {
      q, k := Walk(libs, l, p, i, j, n - 1);
      assert Edge(libs, p, k);
      PathExtends(libs, q, l, p[k], p[k + 1]);
      q, k := q + [p[k + 1]], k + 1;
      if k == j { k := i; }
    }
  }

  // A loop keeps every level populated.
  lemma LoopFillsLevel(libs: seq<Library>, l: nat, n: nat)
    requires Closed(libs) && l < |libs| && LoopBelow(libs, l)
    ensures Level(libs, l, n) != []
  {
    var p, i: nat, j: nat :| Loops(libs, l, p, i, j);
    var q, k := Walk(libs, l, p, i, j, n + 1);
    LevelIsPaths(libs, l, n, p[k]);
  }

  // Pigeons: a list longer than the numbers it may hold repeats one.
  lemma {:induction false} Repeats(xs: seq<nat>, n: nat) returns (i: nat, j: nat)
    requires Within(xs, n) && |xs| > n
    ensures i < j < |xs| && xs[i] == xs[j]
    decreases n
  {
    var last := |xs| - 1;
    if k :| 0 <= k < last && xs[k] == xs[last] {
      return k, last;
    }
    // Give the greatest number to the last place and go on without it.
    assert n > 0 by { assert xs[last] < n; }
    var ys := seq(last, k requires 0 <= k < last => if xs[k] == n - 1 then xs[last] else xs[k]);
    assert Within(ys, n - 1) by {
      forall k | 0 <= k < |ys| ensures ys[k] < n - 1 {
        assert xs[k] < n && xs[last] < n && xs[k] != xs[last];
      }
    }
    i, j := Repeats(ys, n - 1);
    assert xs[i] != xs[last] && xs[j] != xs[last];
  }

  lemma NoLoopEmptiesLevel(libs: seq<Library>, l: nat)
    requires Closed(libs) && l < |libs| && !LoopBelow(libs, l)
    ensures Level(libs, l, |libs|) == []
  {
    if Level(libs, l, |libs|) != [] {
      var x := Level(libs, l, |libs|)[0];
      var p := LevelHasPath(libs, l, |libs|, x);
      var i, j := Repeats(p, |libs|);
      assert Loops(libs, l, p, i, j);
    }
  }

  lemma OfferEnds(libs: seq<Library>, l: nat, p: seq<nat>, x: nat, name: string, hash: nat)
    requires Closed(libs) && AllWellFormed(libs) && l < |libs|
    requires Leads(libs, p, l, x) && |p| > 1 && Offer(libs, x, name, hash).Some?
    ensures Ends(libs, l, name, hash, |p| - 1)
  {
    var d := |p| - 2;
    LevelIsPaths(libs, l, d, x);
    if Provider(libs, Levels(libs, l, d + 1), name, hash).None? {
      NoOfferInLevels(libs, l, d + 1, d, name, hash);
      OfferAt(libs, Level(libs, l, d), x, name, hash);
    }
  }

  // In any store the search ends exactly when a library below l has an offer or no
  // path from l comes back to where it has been.
  lemma SearchEnds(libs: seq<Library>, l: nat, name: string, hash: nat)
    requires Closed(libs) && AllWellFormed(libs) && l < |libs|
    ensures (exists m :: Ends(libs, l, name, hash, m)) <==> !NoneReachable(libs, l, name, hash) || !LoopBelow(libs, l)
  {
    if p, x: nat :| Leads(libs, p, l, x) && |p| > 1 && Offer(libs, x, name, hash).Some? {
      OfferEnds(libs, l, p, x, name, hash);
    } else if !LoopBelow(libs, l) {
      NoLoopEmptiesLevel(libs, l);
      assert Ends(libs, l, name, hash, |libs|);
    } else {
      forall m ensures !Ends(libs, l, name, hash, m) {
        LoopFillsLevel(libs, l, m);
        if Provider(libs, Levels(libs, l, m), name, hash).Some? {
          ProviderIsNearest(libs, l, name, hash, m);
        }
      }
    }
  }

  // x is l or below it, and needs itself.
  ghost predicate SelfNeeding(libs: seq<Library>, l: nat, x: nat) {
    (exists p :: Leads(libs, p, l, x)) && x < |libs| && x in libs[x].needed
  }

  lemma {:induction false} PathDescends(libs: seq<Library>, p: seq<nat>, i: nat, j: nat)
    requires Stacked(libs) && IsPath(libs, p) && i <= j < |p|
    ensures p[j] <= p[i]
  {
    if i < j {
      PathDescends(libs, p, i, j - 1);
      assert Edge(libs, p, j - 1);
      assert Within(libs[p[j - 1]].needed, p[j - 1] + 1);
    }
  }

  lemma PathPrefix(libs: seq<Library>, p: seq<nat>, i: nat)
    requires IsPath(libs, p) && i < |p|
    ensures Leads(libs, p[..i + 1], p[0], p[i])
  {
    var q := p[..i + 1];
    forall k | 0 <= k < |q| - 1 ensures Edge(libs, q, k) {
      assert Edge(libs, p, k);
    }
  }

  // In a store the only loops are libraries that need themselves.
  lemma LoopIsSelfNeed(libs: seq<Library>, l: nat)
    requires Stacked(libs) && l < |libs|
    ensures LoopBelow(libs, l) <==> exists x :: SelfNeeding(libs, l, x)
  {
    if p, i: nat, j: nat :| Loops(libs, l, p, i, j) {
      PathDescends(libs, p, i, i + 1);
      PathDescends(libs, p, i + 1, j);
      assert Edge(libs, p, i);
      PathPrefix(libs, p, i);
      assert SelfNeeding(libs, l, p[i]);
    }
    if x :| SelfNeeding(libs, l, x) {
      var p :| Leads(libs, p, l, x);
      PathExtends(libs, p, l, x, x);
      assert Loops(libs, l, p + [x], |p| - 1, |p|);
    }
  }

  // The search for a name that no library offers ends if and only if neither l nor a
  // library below it needs itself.
  lemma SearchEndsExactly(libs: seq<Library>, l: nat, name: string, hash: nat)
    requires Stacked(libs) && AllWellFormed(libs) && l < |libs|
    requires forall x :: 0 <= x < |libs| ==> Offer(libs, x, name, hash).None?
    ensures (exists m :: Ends(libs, l, name, hash, m)) <==> forall x :: !SelfNeeding(libs, l, x)
  {
    StackedIsClosed(libs);
    SearchEnds(libs, l, name, hash);
    LoopIsSelfNeed(libs, l);
    assert NoneReachable(libs, l, name, hash);
  }

  // One library that needs itself is enough: a library that needs it, and not itself,
  // searches for ever as well.
  lemma SelfNeedSpreads(libs: seq<Library>, l: nat, x: nat, name: string, hash: nat)
    requires Stacked(libs) && AllWellFormed(libs) && l < |libs| && x < |libs|
    requires forall y :: 0 <= y < |libs| ==> Offer(libs, y, name, hash).None?
    requires x in libs[l].needed && x in libs[x].needed
    ensures forall m :: !Ends(libs, l, name, hash, m)
  {
    StackedIsClosed(libs);
    DirectPath(libs, l, x);
    assert SelfNeeding(libs, l, x);
    SearchEndsExactly(libs, l, name, hash);
  }

  lemma StackedIsClosed(libs: seq<Library>)
    requires Stacked(libs)
    ensures Closed(libs)
  {
    forall l | 0 <= l < |libs| ensures Within(libs[l].needed, |libs|) {
      assert Within(libs[l].needed, l + 1);
    }
  }

  // ---- Adding libraries ----

  datatype Added = Known | Loaded | MissingDependency(name: string)

  class LibraryStore {
    var names: seq<string>
    var libs: seq<Library>

    ghost predicate Valid() reads this {
      && |names| == |libs|
      && (forall i, j :: 0 <= i < j < |names| ==> names[i] != names[j])
      && Stacked(libs)
    }

    constructor ()
      ensures Valid() && names == []
    {
      names, libs := [], [];
    }

    // io_storeLibraryWithName().
    method LibraryWithName(name: string) returns (r: Option<nat>)
      requires Valid()
      ensures r.None? <==> name !in names
      ensures r.Some? ==> r.value < |names| && names[r.value] == name
    {
      for i := 0 to |names|
        invariant name !in names[..i]
      {
        if names[i] == name {
          return Some(i);
        }
        assert names[..i + 1] == names[..i] + [names[i]];
      }
      assert names[..|names|] == names;
      return None;
    }

    // io_libraryResolveDependencies(); a missing name is a kernel panic.
    method Resolve(wanted: seq<string>) returns (r: Added, needed: seq<nat>)
      requires Valid()
      ensures r.Loaded? || r.MissingDependency?
      ensures r.Loaded? ==> |needed| == |wanted| && Within(needed, |names|)
      ensures r.Loaded? ==> forall k :: 0 <= k < |wanted| ==> needed[k] < |names| && names[needed[k]] == wanted[k]
      ensures r.MissingDependency? ==> r.name in wanted && r.name !in names
    {
      needed := [];
      for k := 0 to |wanted|
        invariant |needed| == k && Within(needed, |names|)
        invariant forall j :: 0 <= j < k ==> needed[j] < |names| && names[needed[j]] == wanted[j]
      {
        var other := LibraryWithName(wanted[k]);
        if other.None? {
          return MissingDependency(wanted[k]), [];
        }
        needed := needed + [other.value];
      }
      return Loaded, needed;
    }

    // io_storeAddLibrary() up to the relocation: the library is inserted before its
    // dependencies are looked up, so it can find itself.
    method Add(name: string, wanted: seq<string>, lib: Library) returns (r: Added)
      requires Valid()
      modifies this
      ensures Valid()
      ensures r.Known? <==> name in old(names)
      ensures r.Known? ==> names == old(names) && libs == old(libs)
      ensures !r.Known? ==>
        names == old(names) + [name] && |libs| == |old(libs)| + 1 && old(libs) == libs[..|old(libs)|]
      ensures r.MissingDependency? ==> r.name in wanted && r.name !in names
      ensures r.Loaded? ==> |libs[|libs| - 1].needed| == |wanted|
      ensures r.Loaded? ==> forall k :: 0 <= k < |wanted| ==>
        libs[|libs| - 1].needed[k] < |names| && names[libs[|libs| - 1].needed[k]] == wanted[k]
      ensures r.Loaded? ==> libs[|libs| - 1] == lib.(needed := libs[|libs| - 1].needed)
      ensures r.Loaded? ==> (|libs| - 1 in libs[|libs| - 1].needed <==> name in wanted)
    {
      var there := LibraryWithName(name);
      if there.Some? {
        return Known;
      }
      var n := |names|;
      names, libs := names + [name], libs + [lib.(needed := [])];
      StillStacked(old(libs), lib.(needed := []));
      var needed: seq<nat>;
      r, needed := Resolve(wanted);
      if r.Loaded? {
        libs := libs[n := lib.(needed := needed)];
        assert libs == old(libs) + [lib.(needed := needed)];
        StillStacked(old(libs), lib.(needed := needed));
        FindsItself(names, needed, wanted);
      }
    }
  }

  lemma StillStacked(libs: seq<Library>, lib: Library)
    requires Stacked(libs) && Within(lib.needed, |libs| + 1)
    ensures Stacked(libs + [lib])
  {
    var all := libs + [lib];
    forall l | 0 <= l < |all| ensures Within(all[l].needed, l + 1) {
      if l < |libs| { assert Within(libs[l].needed, l + 1); }
    }
  }

  lemma FindsItself(names: seq<string>, needed: seq<nat>, wanted: seq<string>)
    requires |names| > 0 && |needed| == |wanted| && Within(needed, |names|)
    requires forall i, j :: 0 <= i < j < |names| ==> names[i] != names[j]
    requires forall k :: 0 <= k < |wanted| ==> names[needed[k]] == wanted[k]
    ensures |names| - 1 in needed <==> names[|names| - 1] in wanted
  {
    if |names| - 1 in needed {
      var k :| 0 <= k < |needed| && needed[k] == |names| - 1;
      assert wanted[k] == names[|names| - 1];
    }
    if k :| 0 <= k < |wanted| && wanted[k] == names[|names| - 1] {
      assert needed[k] in needed;
    }
  }
}
