// The chained hash table of sys/container/hashset.c.  Keys and objects are
// pointers; 0 is NULL.  Removal leaves a bucket with a NULL key in its chain,
// and only rehashing drops such buckets.

module HashSet {

  type Pointer = nat
  const NULL: Pointer := 0
  const WORD: nat := 0x1_0000_0000

  const CAPACITIES: seq<nat> := [5] + [
    11, 23, 41, 67, 113, 199, 317, 521, 839, 1361, 2207, 3571, 5779, 9349, 15121,
    24473, 39607, 64081, 103681, 167759, 271429, 439199, 710641, 1149857, 1860503, 3010349,
    4870843, 7881193, 12752029, 20633237, 33385273, 54018521, 87403763, 141422317, 228826121,
    370248451, 599074561, 969323023, 1568397599, 2537720629, 4106118251]

  const MAX_COUNTS: seq<nat> := [4] + [
    8, 17, 29, 47, 76, 123, 199, 322, 521, 843, 1364, 2207, 3571, 5778, 9349,
    15127, 24476, 39603, 64079, 103682, 167761, 271443, 439204, 710647, 1149851, 1860498,
    3010349, 4870847, 7881196, 12752043, 20633239, 33385282, 54018521, 87403803, 141422324,
    228826127, 370248451, 599074578, 969323029, 1568397607, 2537720636]

  function Capacity(i: nat): (n: nat)
    requires i < 42
    ensures n > 0
  {
    CAPACITIES[i]
  }

  function MaxCount(i: nat): nat
    requires i < 42
  {
    MAX_COUNTS[i]
  }

  datatype Bucket = Bucket(key: Pointer, data: Pointer)
  type Chain = seq<Bucket>

  // The hash and comparison functions a table is created with.
  datatype Functions = Functions(hash: Pointer -> nat, same: (Pointer, Pointer) -> bool)

  // What the table needs of the two functions it is created with: compare is an
  // equivalence on the keys in use that never takes NULL for a key, and equal
  // keys have equal hashes.
  ghost predicate Hashing(f: Functions) {
    && (forall a :: a != NULL ==> f.same(a, a))
    && (forall a, b {:trigger f.same(a, b)} :: f.same(a, b) ==> f.same(b, a))
    && (forall a, b, c {:trigger f.same(a, b), f.same(b, c)} :: f.same(a, b) && f.same(b, c) ==> f.same(a, c))
    && (forall a :: a != NULL ==> !f.same(NULL, a))
    && (forall a, b {:trigger f.same(a, b)} :: f.same(a, b) ==> f.hash(a) == f.hash(b))
  }

  // ------------------------------------------------------ tables, as values

  // `count` is an unsigned 32-bit word.
  datatype Table = Table(chains: seq<Chain>, count: nat)

  // What removal leaves in a chain.
  const BLANK: Bucket := Bucket(NULL, NULL)

  function Flatten(chains: seq<Chain>): seq<Bucket> {
    if chains == [] then [] else Flatten(chains[..|chains| - 1]) + chains[|chains| - 1]
  }

  // The position of the first bucket whose key compares equal, or the length.
  function Find(c: Chain, key: Pointer, f: Functions): (j: nat)
    ensures j <= |c|
    ensures j < |c| ==> f.same(c[j].key, key)
    ensures forall i :: 0 <= i < j ==> !f.same(c[i].key, key)
  {
    if c == [] then 0
    else if f.same(c[0].key, key) then 0
    else 1 + Find(c[1..], key, f)
  }

  function Home(key: Pointer, n: nat, f: Functions): (i: nat)
    requires n > 0
    ensures i < n
  {
    f.hash(key) % n
  }

  function Lookup(t: Table, key: Pointer, f: Functions): Pointer
    requires |t.chains| > 0
  {
    var c := t.chains[Home(key, |t.chains|, f)];
    var j := Find(c, key, f);
    if j < |c| then c[j].data else NULL
  }

  // A bucket with a key moves to the front of its new chain; one without is dropped.
  function Push(chains: seq<Chain>, b: Bucket, f: Functions): seq<Chain>
    requires |chains| > 0
  {
    if b.key == NULL then chains
    else var i := Home(b.key, |chains|, f); chains[i := [b] + chains[i]]
  }

  function PushAll(chains: seq<Chain>, bs: seq<Bucket>, f: Functions): (r: seq<Chain>)
    requires |chains| > 0
    ensures |r| == |chains|
  {
    if bs == [] then chains else Push(PushAll(chains, bs[..|bs| - 1], f), bs[|bs| - 1], f)
  }

  function Empty(n: nat): seq<Chain> {
    seq(n, _ => [])
  }

  function Rehash(t: Table, n: nat, f: Functions): (r: Table)
    requires n > 0
    ensures |r.chains| == n && r.count == t.count
  {
    t.(chains := PushAll(Empty(n), Flatten(t.chains), f))
  }

  // The row of the capacity table that describes a table of n chains.
  function Row(n: nat, i: nat := 0): (r: nat)
    requires i <= 42
    ensures i <= r <= 42
    ensures r < 42 ==> Capacity(r) == n
    decreases 42 - i
  {
    if i == 42 || Capacity(i) == n then i else Row(n, i + 1)
  }

  lemma {:induction false} RowIsFirst(n: nat, i: nat, j: nat)
    requires i <= 42 && i <= j < Row(n, i)
    ensures Capacity(j) != n
    decreases j - i
  {
    if i < j { RowIsFirst(n, i + 1, j); }
  }

  lemma CapacitiesGrow(i: nat, j: nat)
    requires i < j < 42
    ensures Capacity(i) < Capacity(j)
    decreases j - i
  {
    if i + 1 < j { CapacitiesGrow(i, j - 1); }
    CapacityStep(j - 1);
  }

  lemma CapacityStep(i: nat)
    requires i < 41
    ensures Capacity(i) < Capacity(i + 1)
  {
  }

  // The largest capacity that does not exceed the requested one; at least the first.
  function InitialRow(requested: nat, i: nat := 1): (r: nat)
    requires 1 <= i <= 41
    ensures i - 1 <= r <= 40
    ensures r < 40 ==> Capacity(r + 1) > requested
    ensures r >= i ==> Capacity(r) <= requested
    decreases 41 - i
  {
    if Capacity(i) > requested || i == 41 then i - 1 else InitialRow(requested, i + 1)
  }

  predicate Grows(t: Table) {
    var i := Row(|t.chains|);
    i < 41 && t.count >= MaxCount(i)
  }

  predicate Shrinks(t: Table) {
    var i := Row(|t.chains|);
    1 <= i < 41 && t.count <= MaxCount(i - 1)
  }

  function Expand(t: Table, f: Functions): (r: Table)
    requires |t.chains| > 0
    ensures |r.chains| > 0 && r.count == t.count
  {
    if Grows(t) then Rehash(t, Capacity(Row(|t.chains|) + 1), f) else t
  }

  function Shrink(t: Table, f: Functions): (r: Table)
    requires |t.chains| > 0
    ensures |r.chains| > 0 && r.count == t.count
  {
    if Shrinks(t) then Rehash(t, Capacity(Row(|t.chains|) - 1), f) else t
  }

  predicate Found(t: Table, key: Pointer, f: Functions)
    requires |t.chains| > 0
  {
    var c := t.chains[Home(key, |t.chains|, f)];
    Find(c, key, f) < |c|
  }

  function BucketOf(t: Table, key: Pointer, f: Functions): Bucket
    requires |t.chains| > 0 && Found(t, key, f)
  {
    var c := t.chains[Home(key, |t.chains|, f)];
    c[Find(c, key, f)]
  }

  // The found bucket made blank.
  function Dropped(t: Table, key: Pointer, f: Functions): (r: Table)
    requires |t.chains| > 0 && Found(t, key, f)
    ensures |r.chains| == |t.chains|
  {
    var i := Home(key, |t.chains|, f);
    var j := Find(t.chains[i], key, f);
    Table(t.chains[i := t.chains[i][j := BLANK]], (t.count + WORD - 1) % WORD)
  }

  // The object put into the found bucket, or into a new one.
  function Added(t: Table, data: Pointer, key: Pointer, f: Functions): (r: Table)
    requires |t.chains| > 0
    ensures |r.chains| == |t.chains|
  {
    var i := Home(key, |t.chains|, f);
    var j := Find(t.chains[i], key, f);
    var c :=
      if j < |t.chains[i]| then t.chains[i][j := t.chains[i][j].(data := data)]
      else [Bucket(key, data)] + t.chains[i];
    Table(t.chains[i := c], (t.count + 1) % WORD)
  }

  function Remove(t: Table, key: Pointer, f: Functions): (r: Table)
    requires |t.chains| > 0
    ensures |r.chains| > 0
  {
    if Found(t, key, f) then Shrink(Dropped(t, key, f), f) else t
  }

  function Set(t: Table, data: Pointer, key: Pointer, f: Functions): (r: Table)
    requires |t.chains| > 0
    ensures |r.chains| > 0
  {
    if data == NULL then Remove(t, key, f)
    else if Found(t, key, f) && BucketOf(t, key, f).data != NULL then t
    else Expand(Added(t, data, key, f), f)
  }

  // -------------------------------------------------- refinement of a finite map

  // Every bucket that is not blank sits in the chain its hash selects.
  ghost predicate Placed(chains: seq<Chain>, f: Functions) {
    forall i, b {:trigger b in chains[i]} :: 0 <= i < |chains| && b in chains[i] && b != BLANK ==>
      Home(b.key, |chains|, f) == i
  }

  ghost function Holds(m: map<Pointer, Pointer>, b: Bucket): nat {
    if b.key in m && m[b.key] == b.data then 1 else 0
  }

  // The table holds each pair of m exactly once, and otherwise only blank buckets.
  ghost predicate Stores(chains: seq<Chain>, m: map<Pointer, Pointer>) {
    forall b: Bucket {:trigger multiset(Flatten(chains))[b]} :: b != BLANK ==>
      multiset(Flatten(chains))[b] == Holds(m, b)
  }

  // Keys are equal when they are the same pointer or the table's function says so.
  ghost predicate Equal(f: Functions, k: Pointer, l: Pointer) {
    k == l || f.same(k, l)
  }

  // A finite map whose keys are pairwise different.
  ghost predicate KeyMap(m: map<Pointer, Pointer>, f: Functions) {
    && (forall k {:trigger m[k]} :: k in m ==> m[k] != NULL)
    && (forall k, l {:trigger f.same(k, l)} :: k in m && l in m && f.same(k, l) ==> k == l)
  }

  // The object stored under NULL comes before any blank bucket of its chain.
  ghost predicate NullFirst(t: Table, f: Functions)
    requires |t.chains| > 0
  {
    Found(t, NULL, f) && BucketOf(t, NULL, f).data != NULL
  }

  ghost predicate Refines(t: Table, m: map<Pointer, Pointer>, f: Functions) {
    && |t.chains| > 0 && Placed(t.chains, f) && Stores(t.chains, m) && KeyMap(m, f)
    && t.count == |m| < WORD
    && (NULL in m ==> NullFirst(t, f))
  }

  ghost function MapLookup(m: map<Pointer, Pointer>, key: Pointer, f: Functions): Pointer {
    if k :| k in m && Equal(f, k, key) then m[k] else NULL
  }

  // What a caller can see: every lookup and the count are those of the map.
  ghost predicate Stands(t: Table, m: map<Pointer, Pointer>, f: Functions) {
    |t.chains| > 0 && t.count == |m| && forall key: Pointer :: Lookup(t, key, f) == MapLookup(m, key, f)
  }

  lemma {:induction false} FlattenUpdate(chains: seq<Chain>, i: nat, c: Chain)
    requires i < |chains|
    ensures multiset(Flatten(chains[i := c])) + multiset(chains[i]) == multiset(Flatten(chains)) + multiset(c)
  {
    var n := |chains| - 1;
    if i < n {
      FlattenUpdate(chains[..n], i, c);
      assert chains[i := c][..n] == chains[..n][i := c];
      var a, b := Flatten(chains[..n][i := c]), Flatten(chains[..n]);
      assert multiset(a) + multiset(chains[i]) == multiset(b) + multiset(c);
      calc {
        multiset(Flatten(chains[i := c])) + multiset(chains[i]);
        multiset(a) + multiset(chains[n]) + multiset(chains[i]);
        (multiset(a) + multiset(chains[i])) + multiset(chains[n]);
        (multiset(b) + multiset(c)) + multiset(chains[n]);
        multiset(b) + multiset(chains[n]) + multiset(c);
        multiset(Flatten(chains)) + multiset(c);
      }
    } else {
      assert chains[i := c][..n] == chains[..n];
    }
  }

  lemma {:induction false} InFlatten(chains: seq<Chain>, b: Bucket)
    ensures b in Flatten(chains) <==> exists i :: 0 <= i < |chains| && b in chains[i]
  {
    if chains != [] {
      var n := |chains| - 1;
      InFlatten(chains[..n], b);
      if b in Flatten(chains[..n]) {
        var i :| 0 <= i < n && b in chains[..n][i];
        assert b in chains[i];
      }
      if i :| 0 <= i < |chains| && b in chains[i] {
        if i < n { assert b in chains[..n][i]; }
      }
    }
  }

  lemma MapLookupUnique(m: map<Pointer, Pointer>, key: Pointer, k: Pointer, f: Functions)
    requires Hashing(f) && KeyMap(m, f) && k in m && Equal(f, k, key)
    ensures MapLookup(m, key, f) == m[k]
  {
    forall l | l in m && Equal(f, l, key) ensures l == k {
      assert f.same(k, key) ==> f.same(key, k);
      assert f.same(l, key) ==> f.same(key, l);
    }
  }

  lemma NotNull(f: Functions, k: Pointer, key: Pointer)
    requires Hashing(f) && f.same(k, key)
    ensures k == NULL <==> key == NULL
  {
    assert f.same(key, k);
  }

  // The bucket found for a key is blank, which happens for NULL only, or holds the
  // pair of the equal key.
  lemma FoundIsStored(t: Table, m: map<Pointer, Pointer>, key: Pointer, f: Functions)
    requires Hashing(f) && Refines(t, m, f) && Found(t, key, f)
    ensures var b := BucketOf(t, key, f);
      && f.same(b.key, key)
      && (b == BLANK ==> key == NULL && NULL !in m)
      && (b != BLANK ==> b.key in m && m[b.key] == b.data && b.data != NULL)
      && (forall k :: k in m && Equal(f, k, key) ==> k == b.key)
  {
    var i := Home(key, |t.chains|, f);
    var b := BucketOf(t, key, f);
    assert b in t.chains[i];
    InFlatten(t.chains, b);
    assert b != BLANK ==> multiset(Flatten(t.chains))[b] == Holds(m, b);
    NotNull(f, b.key, key);
    forall k | k in m && Equal(f, k, key) ensures k == b.key {
      if k != key { NotNull(f, k, key); }
      assert f.same(key, b.key);
      assert key != NULL ==> f.same(k, b.key);
    }
  }

  lemma StoredIsFound(t: Table, m: map<Pointer, Pointer>, key: Pointer, k: Pointer, f: Functions)
    requires Hashing(f) && Refines(t, m, f) && k in m && Equal(f, k, key)
    ensures Found(t, key, f) && BucketOf(t, key, f) == Bucket(k, m[k])
  {
    if key == NULL {
      if k != key { NotNull(f, k, key); }
    } else {
      assert f.same(k, key);
      NotNull(f, k, key);
      var b := Bucket(k, m[k]);
      assert multiset(Flatten(t.chains))[b] == 1;
      assert b in Flatten(t.chains);
      InFlatten(t.chains, b);
      var i :| 0 <= i < |t.chains| && b in t.chains[i];
      assert i == Home(key, |t.chains|, f);
      var j :| 0 <= j < |t.chains[i]| && t.chains[i][j] == b;
      assert f.same(t.chains[i][j].key, key);
    }
    FoundIsStored(t, m, key, f);
  }

  // A lookup answers what the map answers.
  lemma LookupRefines(t: Table, m: map<Pointer, Pointer>, key: Pointer, f: Functions)
    requires Hashing(f) && Refines(t, m, f)
    ensures Lookup(t, key, f) == MapLookup(m, key, f)
  {
    if k :| k in m && Equal(f, k, key) {
      StoredIsFound(t, m, key, k, f);
      MapLookupUnique(m, key, k, f);
    } else if Found(t, key, f) {
      FoundIsStored(t, m, key, f);
    }
  }

  lemma RefinesStands(t: Table, m: map<Pointer, Pointer>, f: Functions)
    requires Hashing(f) && Refines(t, m, f)
    ensures Stands(t, m, f)
  {
    forall key: Pointer ensures Lookup(t, key, f) == MapLookup(m, key, f) {
      LookupRefines(t, m, key, f);
    }
  }

  // ---- rehashing

  lemma PushPlaced(chains: seq<Chain>, b: Bucket, f: Functions)
    requires |chains| > 0 && Placed(chains, f)
    ensures Placed(Push(chains, b, f), f)
  {
    var r := Push(chains, b, f);
    forall j, x: Bucket | 0 <= j < |r| && x in r[j] && x != BLANK ensures Home(x.key, |r|, f) == j {
      if x != b || b.key == NULL || j != Home(b.key, |chains|, f) { assert x in chains[j]; }
    }
  }

  lemma PushAdds(chains: seq<Chain>, b: Bucket, f: Functions)
    requires |chains| > 0
    ensures multiset(Flatten(Push(chains, b, f))) ==
      multiset(Flatten(chains)) + (if b.key == NULL then multiset{} else multiset{b})
  {
    if b.key != NULL {
      var i := Home(b.key, |chains|, f);
      FlattenUpdate(chains, i, [b] + chains[i]);
      assert multiset([b] + chains[i]) == multiset{b} + multiset(chains[i]);
      AddCancel(multiset(Flatten(Push(chains, b, f))), multiset(Flatten(chains)), multiset{b}, multiset(chains[i]));
    }
  }

  lemma AddCancel<T>(a: multiset<T>, b: multiset<T>, c: multiset<T>, d: multiset<T>)
    requires a + d == b + (c + d)
    ensures a == b + c
  {
    assert a == (a + d) - d;
    assert b + c == (b + (c + d)) - d;
  }

  ghost function Keyed(bs: seq<Bucket>): multiset<Bucket> {
    if bs == [] then multiset{}
    else Keyed(bs[..|bs| - 1]) + if bs[|bs| - 1].key == NULL then multiset{} else multiset{bs[|bs| - 1]}
  }

  lemma {:induction false} KeyedCount(bs: seq<Bucket>, b: Bucket)
    ensures Keyed(bs)[b] == if b.key == NULL then 0 else multiset(bs)[b]
  {
    if bs != [] {
      KeyedCount(bs[..|bs| - 1], b);
      assert bs == bs[..|bs| - 1] + [bs[|bs| - 1]];
    }
  }

  lemma {:induction false} PushAllKeeps(chains: seq<Chain>, bs: seq<Bucket>, f: Functions)
    requires |chains| > 0 && Placed(chains, f)
    ensures Placed(PushAll(chains, bs, f), f)
    ensures multiset(Flatten(PushAll(chains, bs, f))) == multiset(Flatten(chains)) + Keyed(bs)
  {
    if bs != [] {
      PushAllKeeps(chains, bs[..|bs| - 1], f);
      PushPlaced(PushAll(chains, bs[..|bs| - 1], f), bs[|bs| - 1], f);
      PushAdds(PushAll(chains, bs[..|bs| - 1], f), bs[|bs| - 1], f);
    }
  }

  lemma {:induction false} FlattenEmpty(n: nat)
    ensures Flatten(Empty(n)) == []
  {
    if n > 0 {
      assert Empty(n)[..n - 1] == Empty(n - 1);
      FlattenEmpty(n - 1);
    }
  }

  // A rehash drops every bucket with a NULL key, and an object stored in one with it.
  lemma RehashDropsNull(t: Table, n: nat, f: Functions)
    requires Hashing(f) && n > 0
    ensures Lookup(Rehash(t, n, f), NULL, f) == NULL
  {
    var r := Rehash(t, n, f);
    if Found(r, NULL, f) {
      var b := BucketOf(r, NULL, f);
      NotNull(f, b.key, NULL);
      EmptyPlaced(n, f);
      PushAllKeeps(Empty(n), Flatten(t.chains), f);
      FlattenEmpty(n);
      KeyedCount(Flatten(t.chains), b);
      assert b !in multiset(Flatten(r.chains));
      assert b in r.chains[Home(NULL, n, f)];
      InFlatten(r.chains, b);
    }
  }

  lemma EmptyPlaced(n: nat, f: Functions)
    ensures Placed(Empty(n), f)
  {
  }

  lemma RehashKeeps(t: Table, m: map<Pointer, Pointer>, n: nat, f: Functions)
    requires Refines(t, m, f) && n > 0 && NULL !in m
    ensures Refines(Rehash(t, n, f), m, f)
  {
    var r := Rehash(t, n, f).chains;
    EmptyPlaced(n, f);
    PushAllKeeps(Empty(n), Flatten(t.chains), f);
    FlattenEmpty(n);
    assert multiset(Flatten(r)) == Keyed(Flatten(t.chains));
    forall b: Bucket | b != BLANK ensures multiset(Flatten(r))[b] == Holds(m, b) {
      KeyedCount(Flatten(t.chains), b);
      assert multiset(Flatten(t.chains))[b] == Holds(m, b);
    }
  }

  // Growing or shrinking keeps the map if and only if nothing is stored under NULL.
  lemma RehashRefines(t: Table, m: map<Pointer, Pointer>, n: nat, f: Functions)
    requires Hashing(f) && Refines(t, m, f) && n > 0
    ensures Stands(Rehash(t, n, f), m, f) <==> NULL !in m
    ensures NULL !in m ==> Refines(Rehash(t, n, f), m, f)
  {
    if NULL in m {
      RehashDropsNull(t, n, f);
      MapLookupUnique(m, NULL, NULL, f);
      assert Lookup(Rehash(t, n, f), NULL, f) != MapLookup(m, NULL, f);
    } else {
      RehashKeeps(t, m, n, f);
      RefinesStands(Rehash(t, n, f), m, f);
    }
  }

  // The same for the two operations that rehash.
  lemma ResizeRefines(t: Table, m: map<Pointer, Pointer>, f: Functions)
    requires Hashing(f) && Refines(t, m, f)
    ensures Stands(Expand(t, f), m, f) <==> !(Grows(t) && NULL in m)
    ensures Stands(Shrink(t, f), m, f) <==> !(Shrinks(t) && NULL in m)
    ensures !(Grows(t) && NULL in m) ==> Refines(Expand(t, f), m, f)
    ensures !(Shrinks(t) && NULL in m) ==> Refines(Shrink(t, f), m, f)
  {
    RefinesStands(t, m, f);
    var i := Row(|t.chains|);
    if i < 41 { RehashRefines(t, m, Capacity(i + 1), f); }
    if 1 <= i < 41 { RehashRefines(t, m, Capacity(i - 1), f); }
  }

  // ---- setting and removing

  // The map after a key has been set: a key that is present keeps its object.
  ghost function MapSet(m: map<Pointer, Pointer>, data: Pointer, key: Pointer, f: Functions): map<Pointer, Pointer> {
    if data == NULL then MapRemove(m, key, f)
    else if exists k :: k in m && Equal(f, k, key) then m
    else m[key := data]
  }

  ghost function MapRemove(m: map<Pointer, Pointer>, key: Pointer, f: Functions): map<Pointer, Pointer> {
    map k | k in m && !Equal(f, k, key) :: m[k]
  }

  lemma StoresAdd(chains: seq<Chain>, r: seq<Chain>, m: map<Pointer, Pointer>, b: Bucket)
    requires Stores(chains, m) && b.data != NULL && b.key !in m
    requires multiset(Flatten(r)) == multiset(Flatten(chains)) + multiset{b}
      || multiset(Flatten(r)) + multiset{BLANK} == multiset(Flatten(chains)) + multiset{b}
    ensures Stores(r, m[b.key := b.data])
  {
    var p, q := multiset(Flatten(r)), multiset(Flatten(chains));
    forall x: Bucket | x != BLANK ensures p[x] == Holds(m[b.key := b.data], x) {
      assert q[x] == Holds(m, x);
      assert p[x] == (q + multiset{b})[x] by {
        if p + multiset{BLANK} == q + multiset{b} {
          assert (p + multiset{BLANK})[x] == (q + multiset{b})[x];
        }
      }
    }
  }

  lemma StoresDrop(chains: seq<Chain>, r: seq<Chain>, m: map<Pointer, Pointer>, b: Bucket)
    requires Stores(chains, m) && b != BLANK && Holds(m, b) == 1
    requires multiset(Flatten(r)) + multiset{b} == multiset(Flatten(chains)) + multiset{BLANK}
    ensures Stores(r, m - {b.key})
  {
    var p, q := multiset(Flatten(r)), multiset(Flatten(chains));
    forall x: Bucket | x != BLANK ensures p[x] == Holds(m - {b.key}, x) {
      assert (p + multiset{b})[x] == (q + multiset{BLANK})[x];
      assert q[x] == Holds(m, x);
    }
  }

  lemma KeyMapAdd(m: map<Pointer, Pointer>, data: Pointer, key: Pointer, f: Functions)
    requires Hashing(f) && KeyMap(m, f) && data != NULL
    requires forall k :: k in m ==> !Equal(f, k, key)
    ensures KeyMap(m[key := data], f)
  {
    forall k, l | k in m[key := data] && l in m[key := data] && f.same(k, l) ensures k == l {
      assert f.same(l, k);
    }
  }

  lemma FindIs(c: Chain, key: Pointer, f: Functions, j: nat)
    requires j < |c| && f.same(c[j].key, key) && forall i :: 0 <= i < j ==> !f.same(c[i].key, key)
    ensures Find(c, key, f) == j
  {
  }

  // Putting a pair that is not there into the table.
  lemma AddRefines(t: Table, m: map<Pointer, Pointer>, data: Pointer, key: Pointer, f: Functions)
    requires Hashing(f) && Refines(t, m, f) && data != NULL && t.count + 1 < WORD
    requires key == NULL ==> f.same(NULL, NULL)
    requires forall k :: k in m ==> !Equal(f, k, key)
    ensures Refines(Added(t, data, key, f), m[key := data], f)
  {
    assert key !in m by { assert Equal(f, key, key); }
    KeyMapAdd(m, data, key, f);
    AddStores(t, m, data, key, f);
    AddNullFirst(t, m, data, key, f);
  }

  lemma AddStores(t: Table, m: map<Pointer, Pointer>, data: Pointer, key: Pointer, f: Functions)
    requires Hashing(f) && Refines(t, m, f) && data != NULL && key !in m
    requires forall k :: k in m ==> !Equal(f, k, key)
    ensures Placed(Added(t, data, key, f).chains, f) && Stores(Added(t, data, key, f).chains, m[key := data])
  {
    var r, b := Added(t, data, key, f).chains, Bucket(key, data);
    var i := Home(key, |t.chains|, f);
    var j := Find(t.chains[i], key, f);
    if Found(t, key, f) {
      FoundIsStored(t, m, key, f);
      assert t.chains[i][j] == BLANK && r == t.chains[i := t.chains[i][j := b]];
      ReplaceCounts(t.chains, i, j, b);
      ReplacePlaced(t.chains, i, j, b, f);
    } else {
      FlattenUpdate(t.chains, i, [b] + t.chains[i]);
      assert multiset([b] + t.chains[i]) == multiset{b} + multiset(t.chains[i]);
      AddCancel(multiset(Flatten(r)), multiset(Flatten(t.chains)), multiset{b}, multiset(t.chains[i]));
      forall k, x: Bucket | 0 <= k < |r| && x in r[k] && x != BLANK ensures Home(x.key, |r|, f) == k {
        if x != b || k != i { assert x in t.chains[k]; }
      }
    }
    StoresAdd(t.chains, r, m, b);
  }

  lemma AddNullFirst(t: Table, m: map<Pointer, Pointer>, data: Pointer, key: Pointer, f: Functions)
    requires Hashing(f) && Refines(t, m, f) && data != NULL
    requires key == NULL ==> f.same(NULL, NULL)
    ensures NULL in m[key := data] ==> NullFirst(Added(t, data, key, f), f)
  {
    var r := Added(t, data, key, f);
    var i, h := Home(key, |t.chains|, f), Home(NULL, |t.chains|, f);
    var c, d := t.chains[h], r.chains[h];
    var j := Find(c, NULL, f);
    if key == NULL {
      FindIs(d, NULL, f, if j < |c| then j else 0);
    } else if NULL in m && i == h {
      if Found(t, key, f) {
        FoundIsStored(t, m, key, f);
        FindIs(d, NULL, f, j);
      } else {
        assert !f.same(key, NULL) by { if f.same(key, NULL) { NotNull(f, key, NULL); } }
        FindIs(d, NULL, f, j + 1);
      }
    }
  }

  // Turning the bucket of a stored key into a blank one.
  lemma DropRefines(t: Table, m: map<Pointer, Pointer>, key: Pointer, f: Functions)
    requires Hashing(f) && Refines(t, m, f) && Found(t, key, f) && BucketOf(t, key, f) != BLANK
    requires NULL in m && key != NULL && Home(key, |t.chains|, f) == Home(NULL, |t.chains|, f) ==>
      var c := t.chains[Home(key, |t.chains|, f)]; Find(c, key, f) > Find(c, NULL, f)
    ensures Refines(Dropped(t, key, f), MapRemove(m, key, f), f)
  {
    FoundIsStored(t, m, key, f);
    RemovedMap(m, key, BucketOf(t, key, f).key, f);
    DropStores(t, m, key, BucketOf(t, key, f), f);
    RemovedKeyMap(m, key, f);
    if NULL in m && key != NULL { DropNullFirst(t, m, key, f); }
  }

  lemma DropStores(t: Table, m: map<Pointer, Pointer>, key: Pointer, b: Bucket, f: Functions)
    requires |t.chains| > 0 && Placed(t.chains, f) && Stores(t.chains, m) && Found(t, key, f)
    requires b == BucketOf(t, key, f)
    requires b != BLANK && b.key in m && m[b.key] == b.data
    ensures Placed(Dropped(t, key, f).chains, f) && Stores(Dropped(t, key, f).chains, m - {b.key})
  {
    var i := Home(key, |t.chains|, f);
    var j := Find(t.chains[i], key, f);
    ReplaceCounts(t.chains, i, j, BLANK);
    StoresDrop(t.chains, Dropped(t, key, f).chains, m, b);
    ReplacePlaced(t.chains, i, j, BLANK, f);
  }

  lemma RemovedMap(m: map<Pointer, Pointer>, key: Pointer, k: Pointer, f: Functions)
    requires k in m && Equal(f, k, key) && forall l :: l in m && Equal(f, l, key) ==> l == k
    ensures MapRemove(m, key, f) == m - {k} && |MapRemove(m, key, f)| == |m| - 1
  {
    assert m == (m - {k})[k := m[k]];
  }

  lemma DropNullFirst(t: Table, m: map<Pointer, Pointer>, key: Pointer, f: Functions)
    requires Hashing(f) && Refines(t, m, f) && Found(t, key, f) && NULL in m && key != NULL
    requires Home(key, |t.chains|, f) == Home(NULL, |t.chains|, f) ==>
      var c := t.chains[Home(key, |t.chains|, f)]; Find(c, key, f) > Find(c, NULL, f)
    ensures NullFirst(Dropped(t, key, f), f)
  {
    var h := Home(NULL, |t.chains|, f);
    if Home(key, |t.chains|, f) == h {
      FindIs(Dropped(t, key, f).chains[h], NULL, f, Find(t.chains[h], NULL, f));
    }
  }

  // A blank bucket in front of the one stored under NULL hides it.
  lemma DropHidesNull(t: Table, m: map<Pointer, Pointer>, key: Pointer, f: Functions)
    requires Hashing(f) && Refines(t, m, f) && Found(t, key, f) && NULL in m && key != NULL
    requires Home(key, |t.chains|, f) == Home(NULL, |t.chains|, f)
    requires var c := t.chains[Home(key, |t.chains|, f)]; Find(c, key, f) <= Find(c, NULL, f)
    ensures Lookup(Dropped(t, key, f), NULL, f) == NULL
  {
    var h := Home(NULL, |t.chains|, f);
    var j := Find(t.chains[h], key, f);
    assert f.same(NULL, NULL) by {
      FoundIsStored(t, m, NULL, f);
      NotNull(f, BucketOf(t, NULL, f).key, NULL);
    }
    FindIs(Dropped(t, key, f).chains[h], NULL, f, j);
  }

  lemma ReplacePlaced(chains: seq<Chain>, i: nat, j: nat, b: Bucket, f: Functions)
    requires Placed(chains, f) && i < |chains| && j < |chains[i]| && (b != BLANK ==> Home(b.key, |chains|, f) == i)
    ensures Placed(chains[i := chains[i][j := b]], f)
  {
    var r := chains[i := chains[i][j := b]];
    forall k, x: Bucket | 0 <= k < |r| && x in r[k] && x != BLANK ensures Home(x.key, |r|, f) == k {
      if x != b || k != i { assert x in chains[k]; }
    }
  }

  lemma ReplaceCounts(chains: seq<Chain>, i: nat, j: nat, n: Bucket)
    requires i < |chains| && j < |chains[i]|
    ensures multiset(Flatten(chains[i := chains[i][j := n]])) + multiset{chains[i][j]} ==
      multiset(Flatten(chains)) + multiset{n}
  {
    var c, b := chains[i], chains[i][j];
    FlattenUpdate(chains, i, c[j := n]);
    UpdateCounts(c, j, n);
    ExchangeCancel(multiset(Flatten(chains[i := c[j := n]])), multiset(Flatten(chains)), multiset(c),
                   multiset(c[j := n]), b, n);
  }

  lemma UpdateCounts<T>(c: seq<T>, j: nat, n: T)
    requires j < |c|
    ensures multiset(c[j := n]) + multiset{c[j]} == multiset(c) + multiset{n}
  {
    assert c[j] in multiset(c);
    assert multiset(c[j := n]) == multiset(c) - multiset{c[j]} + multiset{n};
  }

  lemma ExchangeCancel<T>(p: multiset<T>, q: multiset<T>, c: multiset<T>, d: multiset<T>, b: T, n: T)
    requires p + c == q + d && d + multiset{b} == c + multiset{n}
    ensures p + multiset{b} == q + multiset{n}
  {
    forall x: T ensures (p + multiset{b})[x] == (q + multiset{n})[x] {
      assert (p + c)[x] == (q + d)[x];
      assert (d + multiset{b})[x] == (c + multiset{n})[x];
    }
  }

  // ---- when an operation is that of the map

  // Removing a key is safe unless it blanks a blank bucket again, which happens for
  // NULL, or takes the object under NULL with it: by a rehash, or by a blank bucket
  // in front of it.
  predicate SafeRemove(t: Table, key: Pointer, f: Functions)
    requires |t.chains| > 0
  {
    Found(t, key, f) ==>
      if key == NULL then Lookup(t, NULL, f) != NULL
      else Lookup(t, NULL, f) != NULL ==>
        var i := Home(key, |t.chains|, f);
        && !Shrinks(Dropped(t, key, f))
        && (i == Home(NULL, |t.chains|, f) ==> Find(t.chains[i], key, f) > Find(t.chains[i], NULL, f))
  }

  // Setting a key that is not there is safe unless the count wraps, NULL does not
  // compare equal to itself, or the table grows with an object under NULL.
  predicate SafeSet(t: Table, data: Pointer, key: Pointer, f: Functions)
    requires |t.chains| > 0
  {
    if data == NULL then SafeRemove(t, key, f)
    else
      || Lookup(t, key, f) != NULL
      || (&& (key == NULL ==> f.same(NULL, NULL))
          && t.count + 1 < WORD
          && (Grows(Added(t, data, key, f)) ==> key != NULL && Lookup(t, NULL, f) == NULL))
  }

  lemma NullStored(t: Table, m: map<Pointer, Pointer>, f: Functions)
    requires Hashing(f) && Refines(t, m, f)
    ensures NULL in m <==> Lookup(t, NULL, f) != NULL
  {
    LookupRefines(t, m, NULL, f);
    if NULL in m {
      MapLookupUnique(m, NULL, NULL, f);
    } else if k :| k in m && Equal(f, k, NULL) {
      NotNull(f, k, NULL);
    }
  }

  lemma RemoveFails(t: Table, m: map<Pointer, Pointer>, key: Pointer, f: Functions)
    requires Hashing(f) && Refines(t, m, f) && !SafeRemove(t, key, f)
    ensures !Stands(Remove(t, key, f), MapRemove(m, key, f), f)
  {
    NullStored(t, m, f);
    FoundIsStored(t, m, key, f);
    var d := Dropped(t, key, f);
    if key == NULL {
      assert MapRemove(m, key, f) == m;
    } else {
      var n := MapRemove(m, key, f);
      assert NULL in n && n[NULL] == m[NULL] by {
        if Equal(f, NULL, key) { NotNull(f, NULL, key); }
      }
      if Shrinks(d) {
        RehashDropsNull(d, Capacity(Row(|d.chains|) - 1), f);
      } else {
        DropHidesNull(t, m, key, f);
      }
      assert Lookup(Remove(t, key, f), NULL, f) == NULL;
      RemovedKeyMap(m, key, f);
      MapLookupUnique(n, NULL, NULL, f);
    }
  }

  lemma RemovedKeyMap(m: map<Pointer, Pointer>, key: Pointer, f: Functions)
    requires KeyMap(m, f)
    ensures KeyMap(MapRemove(m, key, f), f)
  {
  }

  lemma RemoveKeeps(t: Table, m: map<Pointer, Pointer>, key: Pointer, f: Functions)
    requires Hashing(f) && Refines(t, m, f) && SafeRemove(t, key, f)
    ensures Refines(Remove(t, key, f), MapRemove(m, key, f), f)
  {
    NullStored(t, m, f);
    if Found(t, key, f) {
      FoundIsStored(t, m, key, f);
      DropRefines(t, m, key, f);
      ResizeRefines(Dropped(t, key, f), MapRemove(m, key, f), f);
    } else {
      forall k | k in m ensures !Equal(f, k, key) {
        if Equal(f, k, key) { StoredIsFound(t, m, key, k, f); }
      }
      assert MapRemove(m, key, f) == m;
    }
  }

  // Removal is that of the map if and only if it is safe.
  lemma RemoveRefines(t: Table, m: map<Pointer, Pointer>, key: Pointer, f: Functions)
    requires Hashing(f) && Refines(t, m, f)
    ensures Stands(Remove(t, key, f), MapRemove(m, key, f), f) <==> SafeRemove(t, key, f)
    ensures SafeRemove(t, key, f) ==> Refines(Remove(t, key, f), MapRemove(m, key, f), f)
  {
    if SafeRemove(t, key, f) {
      RemoveKeeps(t, m, key, f);
      RefinesStands(Remove(t, key, f), MapRemove(m, key, f), f);
    } else {
      RemoveFails(t, m, key, f);
    }
  }

  lemma AbsentKey(t: Table, m: map<Pointer, Pointer>, key: Pointer, f: Functions)
    requires Hashing(f) && Refines(t, m, f) && Lookup(t, key, f) == NULL
    ensures forall k :: k in m ==> !Equal(f, k, key)
    ensures !(Found(t, key, f) && BucketOf(t, key, f).data != NULL)
  {
    LookupRefines(t, m, key, f);
    forall k | k in m ensures !Equal(f, k, key) {
      if Equal(f, k, key) { MapLookupUnique(m, key, k, f); }
    }
  }

  lemma SetKeeps(t: Table, m: map<Pointer, Pointer>, data: Pointer, key: Pointer, f: Functions)
    requires Hashing(f) && Refines(t, m, f) && data != NULL && Lookup(t, key, f) == NULL && SafeSet(t, data, key, f)
    ensures Refines(Set(t, data, key, f), MapSet(m, data, key, f), f)
  {
    AbsentKey(t, m, key, f);
    NullStored(t, m, f);
    AddRefines(t, m, data, key, f);
    ResizeRefines(Added(t, data, key, f), m[key := data], f);
  }

  lemma SetFails(t: Table, m: map<Pointer, Pointer>, data: Pointer, key: Pointer, f: Functions)
    requires Hashing(f) && Refines(t, m, f) && data != NULL && !SafeSet(t, data, key, f)
    ensures !Stands(Set(t, data, key, f), MapSet(m, data, key, f), f)
  {
    AbsentKey(t, m, key, f);
    NullStored(t, m, f);
    var n := m[key := data];
    assert key !in m by { assert Equal(f, key, key); }
    KeyMapAdd(m, data, key, f);
    assert |n| == |m| + 1;
    if t.count + 1 < WORD {
      assert NULL in n;
      MapLookupUnique(n, NULL, NULL, f);
      NullLost(Added(t, data, key, f), f);
      assert Lookup(Set(t, data, key, f), NULL, f) == NULL;
    }
  }

  lemma NullLost(t: Table, f: Functions)
    requires Hashing(f) && |t.chains| > 0 && (Grows(t) || !f.same(NULL, NULL))
    ensures Lookup(Expand(t, f), NULL, f) == NULL
  {
    if Grows(t) {
      RehashDropsNull(t, Capacity(Row(|t.chains|) + 1), f);
    } else {
      NeverFound(t, f);
    }
  }

  lemma NeverFound(t: Table, f: Functions)
    requires Hashing(f) && |t.chains| > 0 && !f.same(NULL, NULL)
    ensures Lookup(t, NULL, f) == NULL
  {
    if Found(t, NULL, f) {
      NotNull(f, BucketOf(t, NULL, f).key, NULL);
    }
  }

  // Setting is that of the map if and only if it is safe.
  lemma SetRefines(t: Table, m: map<Pointer, Pointer>, data: Pointer, key: Pointer, f: Functions)
    requires Hashing(f) && Refines(t, m, f)
    ensures Stands(Set(t, data, key, f), MapSet(m, data, key, f), f) <==> SafeSet(t, data, key, f)
    ensures SafeSet(t, data, key, f) ==> Refines(Set(t, data, key, f), MapSet(m, data, key, f), f)
  {
    if data == NULL {
      RemoveRefines(t, m, key, f);
    } else if Lookup(t, key, f) != NULL {
      LookupRefines(t, m, key, f);
      assert Set(t, data, key, f) == t && MapSet(m, data, key, f) == m;
      RefinesStands(t, m, f);
    } else if SafeSet(t, data, key, f) {
      SetKeeps(t, m, data, key, f);
      RefinesStands(Set(t, data, key, f), MapSet(m, data, key, f), f);
    } else {
      SetFails(t, m, data, key, f);
    }
  }

  // ---- whole runs

  datatype Op = SetOp(data: Pointer, key: Pointer) | RemoveOp(key: Pointer)

  function Apply(t: Table, op: Op, f: Functions): (r: Table)
    requires |t.chains| > 0
    ensures |r.chains| > 0
  {
    match op
    case SetOp(data, key) => Set(t, data, key, f)
    case RemoveOp(key) => Remove(t, key, f)
  }

  predicate Safe(t: Table, op: Op, f: Functions)
    requires |t.chains| > 0
  {
    match op
    case SetOp(data, key) => SafeSet(t, data, key, f)
    case RemoveOp(key) => SafeRemove(t, key, f)
  }

  ghost function ApplyMap(m: map<Pointer, Pointer>, op: Op, f: Functions): map<Pointer, Pointer> {
    match op
    case SetOp(data, key) => MapSet(m, data, key, f)
    case RemoveOp(key) => MapRemove(m, key, f)
  }

  ghost function MapAfter(ops: seq<Op>, f: Functions): map<Pointer, Pointer> {
    if ops == [] then map[] else ApplyMap(MapAfter(ops[..|ops| - 1], f), ops[|ops| - 1], f)
  }

  function TableAfter(ops: seq<Op>, n: nat, f: Functions): (r: Table)
    requires n > 0
    ensures |r.chains| > 0
  {
    if ops == [] then Table(Empty(n), 0) else Apply(TableAfter(ops[..|ops| - 1], n, f), ops[|ops| - 1], f)
  }

  lemma StepRefines(t: Table, m: map<Pointer, Pointer>, op: Op, f: Functions)
    requires Hashing(f) && Refines(t, m, f)
    ensures Stands(Apply(t, op, f), ApplyMap(m, op, f), f) <==> Safe(t, op, f)
    ensures Safe(t, op, f) ==> Refines(Apply(t, op, f), ApplyMap(m, op, f), f)
  {
    match op
    case SetOp(data, key) => SetRefines(t, m, data, key, f);
    case RemoveOp(key) => RemoveRefines(t, m, key, f);
  }

  ghost predicate SafeRun(ops: seq<Op>, n: nat, f: Functions)
    requires n > 0
  {
    ops != [] ==> SafeRun(ops[..|ops| - 1], n, f) && Safe(TableAfter(ops[..|ops| - 1], n, f), ops[|ops| - 1], f)
  }

  ghost predicate StandsThroughout(ops: seq<Op>, n: nat, f: Functions)
    requires n > 0
  {
    && Stands(TableAfter(ops, n, f), MapAfter(ops, f), f)
    && (ops != [] ==> StandsThroughout(ops[..|ops| - 1], n, f))
  }

  // Any run of operations on any keys, through blank buckets and rehashes, behaves
  // like the finite map of the same run at every step if and only if every step is
  // safe in the table it finds.
  lemma {:induction false} RunRefines(ops: seq<Op>, n: nat, f: Functions)
    requires Hashing(f) && n > 0
    ensures StandsThroughout(ops, n, f) <==> SafeRun(ops, n, f)
    ensures SafeRun(ops, n, f) ==> Refines(TableAfter(ops, n, f), MapAfter(ops, f), f)
  {
    if ops == [] {
      EmptyRefines(n, f);
    } else {
      var before, op := ops[..|ops| - 1], ops[|ops| - 1];
      RunRefines(before, n, f);
      if SafeRun(before, n, f) {
        StepRefines(TableAfter(before, n, f), MapAfter(before, f), op, f);
      }
    }
  }

  lemma EmptyRefines(n: nat, f: Functions)
    requires Hashing(f) && n > 0
    ensures Refines(Table(Empty(n), 0), map[], f) && Stands(Table(Empty(n), 0), map[], f)
  {
    FlattenEmpty(n);
    EmptyPlaced(n, f);
    RefinesStands(Table(Empty(n), 0), map[], f);
  }

  // Without the NULL key every run of fewer than 2^32 - 1 operations is safe.
  lemma {:induction false} KeyedRunSafe(ops: seq<Op>, n: nat, f: Functions)
    requires Hashing(f) && n > 0 && |ops| < WORD - 1 && forall i :: 0 <= i < |ops| ==> ops[i].key != NULL
    ensures SafeRun(ops, n, f) && NULL !in MapAfter(ops, f) && |MapAfter(ops, f)| <= |ops|
  {
    if ops != [] {
      var before := ops[..|ops| - 1];
      KeyedRunSafe(before, n, f);
      RunRefines(before, n, f);
      NullStored(TableAfter(before, n, f), MapAfter(before, f), f);
      MapSizes(MapAfter(before, f), ops[|ops| - 1], f);
    }
  }

  lemma MapSizes(m: map<Pointer, Pointer>, op: Op, f: Functions)
    requires NULL !in m && op.key != NULL
    ensures NULL !in ApplyMap(m, op, f) && |ApplyMap(m, op, f)| <= |m| + 1
  {
    var r := MapRemove(m, op.key, f);
    assert r.Keys <= m.Keys;
    SubsetSize(r.Keys, m.Keys);
    assert |r| == |r.Keys| && |m| == |m.Keys|;
  }

  lemma {:induction false} SubsetSize<T>(a: set<T>, b: set<T>)
    requires a <= b
    ensures |a| <= |b|
  {
    if a != {} {
      var x :| x in a;
      SubsetSize(a - {x}, b - {x});
    }
  }

  // Where NULL compares equal to NULL, removing the NULL key keeps the count right if
  // and only if the first bucket its chain has for it is not blank.
  lemma RemoveNullKey(t: Table, m: map<Pointer, Pointer>, f: Functions)
    requires Hashing(f) && Refines(t, m, f) && f.same(NULL, NULL)
    ensures Stands(Remove(t, NULL, f), MapRemove(m, NULL, f), f) <==>
      (NULL in m || forall b :: b in t.chains[Home(NULL, |t.chains|, f)] ==> b.key != NULL)
  {
    RemoveRefines(t, m, NULL, f);
    NullStored(t, m, f);
    var c := t.chains[Home(NULL, |t.chains|, f)];
    var j := Find(c, NULL, f);
    if j < |c| {
      NotNull(f, c[j].key, NULL);
      assert c[j] in c;
    } else {
      forall b | b in c ensures b.key != NULL {
        var i :| 0 <= i < |c| && c[i] == b;
        assert !f.same(c[i].key, NULL);
      }
    }
  }

  function Identity(): Functions {
    Functions(k => k, (a, b) => a == b)
  }

  // A table in which it goes wrong: key 5 set and removed, then NULL removed. The
  // count of the empty table wraps.
  lemma RemoveNullKeyMiscounts()
    ensures var f := Identity();
      Hashing(f) && TableAfter([SetOp(7, 5), RemoveOp(5), RemoveOp(NULL)], 5, f).count == WORD - 1
  {
    var f := Identity();
    var steps := [SetOp(7, 5), RemoveOp(5), RemoveOp(NULL)];
    var t1 := Table(Empty(5)[0 := [Bucket(5, 7)]], 1);
    var t2 := Table(Empty(5)[0 := [BLANK]], 0);
    assert steps[..2] == [steps[0], steps[1]] && [steps[0], steps[1]][..1] == [steps[0]] && [steps[0]][..0] == [];
    MiscountSteps(f);
    assert TableAfter([steps[0]], 5, f) == t1;
    assert TableAfter([steps[0], steps[1]], 5, f) == t2;
  }

  lemma MiscountSteps(f: Functions)
    requires f == Identity()
    ensures var t1 := Table(Empty(5)[0 := [Bucket(5, 7)]], 1);
      var t2 := Table(Empty(5)[0 := [BLANK]], 0);
      Set(Table(Empty(5), 0), 7, 5, f) == t1 && Remove(t1, 5, f) == t2 && Remove(t2, NULL, f).count == WORD - 1
  {
    var t1 := Table(Empty(5)[0 := [Bucket(5, 7)]], 1);
    var t2 := Table(Empty(5)[0 := [BLANK]], 0);
    assert Capacity(0) == 5 && Row(5) == 0 && MaxCount(0) == 4;
    assert Home(5, 5, f) == 0 && Home(NULL, 5, f) == 0;
    assert [Bucket(5, 7)] + [] == [Bucket(5, 7)] && [Bucket(5, 7)][0 := BLANK] == [BLANK];
    assert t1.chains[0 := [BLANK]] == t2.chains;
    assert Find([Bucket(5, 7)], 5, f) == 0 && Find([BLANK], NULL, f) == 0;
  }

  // A file system stores its root under the number 0, which is NULL. The root is
  // found until the table grows, and then it is lost though the count includes it.
  lemma RootIsLost(t: Table, m: map<Pointer, Pointer>, data: Pointer, key: Pointer, f: Functions)
    requires Hashing(f) && Refines(t, m, f) && NULL in m
    requires data != NULL && Lookup(t, key, f) == NULL && t.count + 1 < WORD && Grows(Added(t, data, key, f))
    ensures Lookup(t, NULL, f) == m[NULL] != NULL
    ensures Lookup(Set(t, data, key, f), NULL, f) == NULL
    ensures Set(t, data, key, f).count == |MapSet(m, data, key, f)| == |m| + 1
  {
    RootStored(t, m, f);
    SetAbsent(t, m, data, key, f);
    GrowthDropsNull(Added(t, data, key, f), f);
  }

  lemma SetAbsent(t: Table, m: map<Pointer, Pointer>, data: Pointer, key: Pointer, f: Functions)
    requires Hashing(f) && Refines(t, m, f) && data != NULL && Lookup(t, key, f) == NULL && t.count + 1 < WORD
    ensures Set(t, data, key, f) == Expand(Added(t, data, key, f), f)
    ensures Set(t, data, key, f).count == |MapSet(m, data, key, f)| == |m| + 1
  {
    AbsentKey(t, m, key, f);
    calc {
      |MapSet(m, data, key, f)|;
      |m[key := data]|;
      { assert key !in m by { assert Equal(f, key, key); } }
      |m| + 1;
      Added(t, data, key, f).count;
    }
  }

  lemma RootStored(t: Table, m: map<Pointer, Pointer>, f: Functions)
    requires Hashing(f) && Refines(t, m, f) && NULL in m
    ensures Lookup(t, NULL, f) == m[NULL] != NULL
  {
    LookupRefines(t, m, NULL, f);
    MapLookupUnique(m, NULL, NULL, f);
  }

  lemma GrowthDropsNull(t: Table, f: Functions)
    requires Hashing(f) && |t.chains| > 0 && Grows(t)
    ensures Lookup(Expand(t, f), NULL, f) == NULL
  {
    RehashDropsNull(t, Capacity(Row(|t.chains|) + 1), f);
  }

  // The comparison a table has when it is made without one.
  ghost predicate ByPointer(f: Functions) {
    Hashing(f) && forall a, b :: f.same(a, b) <==> a == b
  }

  // The root and three more nodes in a new table: the fourth one loses the root.
  lemma RootIsLostAtOnce(f: Functions) returns (t: Table)
    requires ByPointer(f)
    ensures t == Set(Set(Set(Set(Table(Empty(5), 0), 9, NULL, f), 8, 1, f), 7, 2, f), 6, 3, f)
    ensures Lookup(t, NULL, f) == NULL && t.count == 4
  {
    EmptyRefines(5, f);
    var t1, m1 := SetOnce(Table(Empty(5), 0), map[], 9, NULL, f);
    var t2, m2 := SetOnce(t1, m1, 8, 1, f);
    var t3, m3 := SetOnce(t2, m2, 7, 2, f);
    t := SetLosing(t3, m3, 6, 3, f);
  }

  lemma SetOnce(t: Table, m: map<Pointer, Pointer>, data: Pointer, key: Pointer, f: Functions)
      returns (r: Table, n: map<Pointer, Pointer>)
    requires ByPointer(f) && Refines(t, m, f) && |t.chains| == 5 && t.count < 3 && data != NULL && key !in m
    ensures r == Set(t, data, key, f) && |r.chains| == 5 && r.count == t.count + 1
    ensures n == m[key := data] && Refines(r, n, f)
  {
    SmallestRow();
    NotStored(t, m, key, f);
    AbsentKey(t, m, key, f);
    AddRefines(t, m, data, key, f);
    r, n := Set(t, data, key, f), m[key := data];
  }

  lemma SetLosing(t: Table, m: map<Pointer, Pointer>, data: Pointer, key: Pointer, f: Functions) returns (r: Table)
    requires ByPointer(f) && Refines(t, m, f) && |t.chains| == 5 && t.count == 3 && data != NULL && key !in m
    requires NULL in m
    ensures r == Set(t, data, key, f) && Lookup(r, NULL, f) == NULL && r.count == 4
  {
    SmallestRow();
    NotStored(t, m, key, f);
    RootIsLost(t, m, data, key, f);
    r := Set(t, data, key, f);
  }

  lemma SmallestRow()
    ensures Row(5) == 0 && MaxCount(0) == 4 && Capacity(0) == 5
  {
  }

  lemma NotStored(t: Table, m: map<Pointer, Pointer>, key: Pointer, f: Functions)
    requires ByPointer(f) && Refines(t, m, f) && key !in m
    ensures Lookup(t, key, f) == NULL
  {
    LookupRefines(t, m, key, f);
  }

  // --------------------------------------------------------------- iteration

  // The buckets an iterator stops at, in order.
  function WithObject(bs: seq<Bucket>): seq<Bucket> {
    if bs == [] then []
    else if bs[0].data != NULL then [bs[0]] + WithObject(bs[1..]) else WithObject(bs[1..])
  }

  lemma {:induction false} WithObjectConcat(a: seq<Bucket>, b: seq<Bucket>)
    ensures WithObject(a + b) == WithObject(a) + WithObject(b)
  {
    if a == [] {
      assert a + b == b;
    } else {
      var first := if a[0].data != NULL then [a[0]] else [];
      calc {
        WithObject(a + b);
        { assert (a + b)[1..] == a[1..] + b; }
        first + WithObject(a[1..] + b);
        { WithObjectConcat(a[1..], b); }
        first + (WithObject(a[1..]) + WithObject(b));
        first + WithObject(a[1..]) + WithObject(b);
        WithObject(a) + WithObject(b);
      }
    }
  }

  lemma {:induction false} WithObjectCount(bs: seq<Bucket>, b: Bucket)
    ensures multiset(WithObject(bs))[b] == if b.data != NULL then multiset(bs)[b] else 0
  {
    if bs != [] {
      WithObjectCount(bs[1..], b);
      assert bs == [bs[0]] + bs[1..];
    }
  }

  // An iteration over an undisturbed table meets every pair of the map exactly once.
  lemma IterationMeetsAll(t: Table, m: map<Pointer, Pointer>, f: Functions, b: Bucket)
    requires Refines(t, m, f)
    ensures multiset(WithObject(Flatten(t.chains)))[b] == Holds(m, b)
  {
    WithObjectCount(Flatten(t.chains), b);
    assert b != BLANK ==> multiset(Flatten(t.chains))[b] == Holds(m, b);
  }

  // ---------------------------------------------------------------- the table

  // The chains from row i on, one after the other.
  function FlattenFrom(chains: seq<Chain>, i: nat): seq<Bucket>
    requires i <= |chains|
    decreases |chains| - i
  {
    if i == |chains| then [] else chains[i] + FlattenFrom(chains, i + 1)
  }

  lemma {:induction false} FlattenSplit(chains: seq<Chain>, i: nat)
    requires i <= |chains|
    ensures Flatten(chains) == Flatten(chains[..i]) + FlattenFrom(chains, i)
    decreases |chains| - i
  {
    if i == |chains| {
      assert chains[..i] == chains;
    } else {
      FlattenSplit(chains, i + 1);
      assert chains[..i + 1][..i] == chains[..i];
    }
  }

  // The bucket found, or put at the head of its chain, holding the new object.
  lemma SetValue(t: Table, data: Pointer, key: Pointer, f: Functions, mid: seq<Chain>, i: nat, j: nat)
    requires |t.chains| > 0 && data != NULL && i == Home(key, |t.chains|, f) && Provided(t.chains, key, f, mid, i, j)
    ensures mid[i][j].data != NULL ==> Set(t, data, key, f) == t && mid == t.chains
    ensures mid[i][j].data == NULL ==>
      Set(t, data, key, f) == Expand(Table(mid[i := mid[i][j := mid[i][j].(data := data)]], (t.count + 1) % WORD), f)
  {
    assert ([Bucket(key, NULL)] + t.chains[i])[0 := Bucket(key, data)] == [Bucket(key, data)] + t.chains[i];
    assert mid[i := mid[i][j := mid[i][j].(data := data)]] == t.chains[i := mid[i][j := mid[i][j].(data := data)]];
  }

  // hashset_findBucket2() leaves a bucket for the key at j: the found one, or an
  // empty one put at the head of the chain.
  ghost predicate Provided(chains: seq<Chain>, key: Pointer, f: Functions, mid: seq<Chain>, i: nat, j: nat) {
    && i < |chains| == |mid| && j < |mid[i]|
    && var k := Find(chains[i], key, f);
      if k < |chains[i]| then mid == chains && j == k else mid == chains[i := [Bucket(key, NULL)] + chains[i]] && j == 0
  }

  lemma RemoveValue(t: Table, key: Pointer, f: Functions, chains: seq<Chain>, i: nat, j: nat)
    requires |t.chains| > 0 && i == Home(key, |t.chains|, f) && j == Find(t.chains[i], key, f) < |t.chains[i]|
    requires chains == t.chains[i := t.chains[i][j := BLANK]]
    ensures Remove(t, key, f) == Shrink(Table(chains, (t.count + WORD - 1) % WORD), f)
  {
  }

  lemma ExpandAt(t: Table, f: Functions, i: nat)
    requires |t.chains| > 0 && i < 41 && Row(|t.chains|) == i
    ensures Expand(t, f) == if t.count >= MaxCount(i) then Rehash(t, Capacity(i + 1), f) else t
  {
  }

  class HashTable {
    const functions: Functions
    var capacity: nat
    var count: nat
    var buckets: array<Chain>

    ghost predicate Valid()
      reads this
    {
      capacity == buckets.Length > 0
    }

    ghost function Value(): Table
      reads this, buckets
    {
      Table(buckets[..], count)
    }

    constructor (requested: nat, functions: Functions)
      ensures Valid() && fresh(buckets) && this.functions == functions
      ensures Value() == Table(Empty(Capacity(InitialRow(requested))), 0)
    {
      this.functions := functions;
      var i := 1;
      while !(Capacity(i) > requested || i == 41)
        invariant 1 <= i <= 41 && InitialRow(requested, i) == InitialRow(requested)
        decreases 41 - i
      {
        i := i + 1;
      }
      capacity := Capacity(i - 1);
      buckets := new Chain[Capacity(i - 1)](_ => []);
      count := 0;
      new;
      assert buckets[..] == Empty(Capacity(i - 1));
    }

    // hashset_findBucket1(): the chain and the position of the bucket for `key`.
    method FindBucket(key: Pointer) returns (i: nat, j: nat)
      requires Valid()
      ensures i == Home(key, capacity, functions) && j == Find(buckets[i], key, functions)
    {
      i := functions.hash(key) % capacity;
      var c := buckets[i];
      j := 0;
      while j < |c|
        invariant j <= |c| && Find(c, key, functions) == j + Find(c[j..], key, functions)
      {
        if functions.same(c[j].key, key) {
          return;
        }
        assert c[j..][1..] == c[j + 1..];
        j := j + 1;
      }
    }

    method ObjectForKey(key: Pointer) returns (data: Pointer)
      requires Valid()
      ensures data == Lookup(Value(), key, functions)
    {
      var i, j := FindBucket(key);
      data := if j < |buckets[i]| then buckets[i][j].data else NULL;
    }

    method RehashTo(n: nat)
      requires Valid() && n > 0
      modifies this
      ensures Valid() && fresh(buckets)
      ensures Value() == Rehash(old(Value()), n, functions)
    {
      var from, old_capacity := buckets, capacity;
      var to := new Chain[n](_ => []);
      ghost var chains := from[..];
      assert to[..] == Empty(n);
      for i := 0 to old_capacity
        modifies to
        invariant to[..] == PushAll(Empty(n), Flatten(chains[..i]), functions)
      {
        MoveChain(to, from[i], Flatten(chains[..i]));
        assert chains[..i + 1][..i] == chains[..i];
      }
      assert chains[..old_capacity] == chains;
      capacity, buckets := n, to;
    }

    // Moves the buckets of one chain, front to back.
    method MoveChain(to: array<Chain>, chain: Chain, ghost before: seq<Bucket>)
      requires to.Length > 0 && to[..] == PushAll(Empty(to.Length), before, functions)
      modifies to
      ensures to[..] == PushAll(Empty(to.Length), before + chain, functions)
    {
      assert before + [] == before;
      for j := 0 to |chain|
        invariant to[..] == PushAll(Empty(to.Length), before + chain[..j], functions)
      {
        var bucket := chain[j];
        ghost var bs := before + chain[..j + 1];
        assert bs[..|bs| - 1] == before + chain[..j];
        if bucket.key != NULL {
          var index := functions.hash(bucket.key) % to.Length;
          to[index] := [bucket] + to[index];
        }
      }
      assert chain[..|chain|] == chain;
    }
  
    method ExpandIfNeeded()
      requires Valid()
      modifies this
      ensures Valid() && (buckets == old(buckets) || fresh(buckets))
      ensures Value() == Expand(old(Value()), functions)
    {
      var i := 0;
      while i < 41
        invariant 0 <= i <= 41 && Row(capacity, i) == Row(capacity)
        invariant capacity == old(capacity) && count == old(count) && buckets == old(buckets)
      {
        if capacity == Capacity(i) {
          ExpandAt(Value(), functions, i);
          if count >= MaxCount(i) {
            RehashTo(Capacity(i + 1));
          }
          return;
        }
        i := i + 1;
      }
    }

    // The loop has no break, but after a rehash no later row matches any more.
    method ShrinkIfNeeded()
      requires Valid()
      modifies this
      ensures Valid() && (buckets == old(buckets) || fresh(buckets))
      ensures Value() == Shrink(old(Value()), functions)
    {
      ghost var row := Row(capacity);
      var i := 1;
      while i < 41
        invariant 1 <= i <= 41 && Valid() && (buckets == old(buckets) || fresh(buckets))
        invariant Value() == if i <= row then old(Value()) else Shrink(old(Value()), functions)
      {
        if i > row {
          CapacitiesGrow(row, i);
          if row >= 1 { CapacitiesGrow(row - 1, i); }
        } else if i < row {
          RowIsFirst(capacity, 0, i);
        }
        if capacity == Capacity(i) {
          assert i == row;
          if count <= MaxCount(i - 1) {
            RehashTo(Capacity(i - 1));
          }
        }
        i := i + 1;
      }
    }
  
    method RemoveObjectForKey(key: Pointer)
      requires Valid()
      modifies this, buckets
      ensures Valid() && (buckets == old(buckets) || fresh(buckets))
      ensures Value() == Remove(old(Value()), key, functions)
    {
      var i, j := FindBucket(key);
      if j < |buckets[i]| {
        buckets[i] := buckets[i][j := Bucket(NULL, NULL)];
        count := (count + WORD - 1) % WORD;
        RemoveValue(old(Value()), key, functions, buckets[..], i, j);
        ShrinkIfNeeded();
      }
    }

    method SetObjectForKey(data: Pointer, key: Pointer)
      requires Valid()
      modifies this, buckets
      ensures Valid() && (buckets == old(buckets) || fresh(buckets))
      ensures Value() == Set(old(Value()), data, key, functions)
    {
      if data == NULL {
        RemoveObjectForKey(key);
        return;
      }
      var i, j := ProvideBucket(key);
      SetValue(old(Value()), data, key, functions, buckets[..], i, j);
      if buckets[i][j].data == NULL {
        Store(i, j, data);
      }
    }

    method Store(i: nat, j: nat, data: Pointer)
      requires Valid() && i < capacity && j < |buckets[i]|
      modifies this, buckets
      ensures Valid() && (buckets == old(buckets) || fresh(buckets))
      ensures var c := old(buckets[i]);
        Value() == Expand(Table(old(buckets[..])[i := c[j := c[j].(data := data)]], (old(count) + 1) % WORD), functions)
    {
      buckets[i] := buckets[i][j := buckets[i][j].(data := data)];
      count := (count + 1) % WORD;
      ExpandIfNeeded();
    }

    method ProvideBucket(key: Pointer) returns (i: nat, j: nat)
      requires Valid()
      modifies buckets
      ensures i == Home(key, capacity, functions) && Provided(old(buckets[..]), key, functions, buckets[..], i, j)
    {
      i, j := FindBucket(key);
      if j == |buckets[i]| {
        j := 0;
        buckets[i] := [Bucket(key, NULL)] + buckets[i];
      }
    }
  }

  // A table on its way through an iteration: the rest of the current chain, and
  // the row of the next one.
  class TableIterator {
    const table: HashTable
    var rest: Chain
    var index: nat

    ghost predicate Valid()
      reads this, table
    {
      table.Valid() && index <= table.capacity
    }

    // What is still to come.
    ghost function Pending(): seq<Bucket>
      requires Valid()
      reads this, table, table.buckets
    {
      WithObject(rest + FlattenFrom(table.buckets[..], index))
    }

    constructor (table: HashTable)
      requires table.Valid()
      ensures Valid() && this.table == table
      ensures Pending() == WithObject(Flatten(table.Value().chains))
    {
      this.table, rest, index := table, [], 0;
      new;
      FlattenSplit(table.buckets[..], 0);
      assert table.buckets[..][..0] == [];
      assert [] + FlattenFrom(table.buckets[..], 0) == FlattenFrom(table.buckets[..], 0);
    }

    // Skips buckets without an object at the front of a chain.
    static method Skip(chain: Chain) returns (r: Chain)
      ensures WithObject(r) == WithObject(chain)
      ensures r != [] ==> r[0].data != NULL
    {
      r := chain;
      while r != []
        invariant WithObject(r) == WithObject(chain)
      {
        if r[0].data != NULL {
          return;
        }
        r := r[1..];
      }
    }
  
    // The first row from i on whose chain holds an object.
    method ScanRows(start: nat) returns (chain: Chain, i: nat)
      requires Valid() && start <= table.capacity
      ensures chain == [] ==> WithObject(FlattenFrom(table.buckets[..], start)) == []
      ensures chain != [] ==> i < table.capacity && chain[0].data != NULL
      ensures chain != [] ==>
        WithObject(FlattenFrom(table.buckets[..], start)) ==
          WithObject(chain + FlattenFrom(table.buckets[..], i + 1))
    {
      ghost var chains := table.buckets[..];
      i := start;
      while i < table.capacity
        invariant start <= i <= table.capacity
        invariant WithObject(FlattenFrom(chains, i)) == WithObject(FlattenFrom(chains, start))
      {
        chain := Skip(table.buckets[i]);
        SkipConcat(chains[i], chain, FlattenFrom(chains, i + 1));
        if chain != [] {
          return;
        }
        assert [] + FlattenFrom(chains, i + 1) == FlattenFrom(chains, i + 1);
        i := i + 1;
      }
      chain := [];
    }

    // hashset_iteratorGetNextObject(): the next object, or its key, or NULL at the end.
    method NextObject(wantObject: bool) returns (p: Pointer)
      requires Valid()
      modifies this
      ensures Valid()
      ensures old(Pending()) == [] ==> p == NULL && Pending() == []
      ensures old(Pending()) != [] ==>
        p == (if wantObject then old(Pending())[0].data else old(Pending())[0].key) && Pending() == old(Pending())[1..]
    {
      var chain := Skip(rest);
      SkipConcat(rest, chain, FlattenFrom(table.buckets[..], index));
      if chain == [] {
        rest := [];
        assert [] + FlattenFrom(table.buckets[..], index) == FlattenFrom(table.buckets[..], index);
        var i;
        chain, i := ScanRows(index);
        if chain == [] {
          return NULL;
        }
        index := i + 1;
      }
      TakeHead(chain, FlattenFrom(table.buckets[..], index));
      rest := chain[1..];
      p := if wantObject then chain[0].data else chain[0].key;
    }
  }

  lemma SkipConcat(a: Chain, a': Chain, b: seq<Bucket>)
    requires WithObject(a) == WithObject(a')
    ensures WithObject(a + b) == WithObject(a' + b)
  {
    WithObjectConcat(a, b);
    WithObjectConcat(a', b);
  }

  lemma TakeHead(chain: Chain, b: seq<Bucket>)
    requires chain != [] && chain[0].data != NULL
    ensures WithObject(chain + b) == [chain[0]] + WithObject(chain[1..] + b)
  {
    assert (chain + b)[1..] == chain[1..] + b;
  }
}
