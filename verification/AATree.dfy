// Functional model of the AA tree of sys/container/atree.c: the shape of the
// tree as a value, the two rotations, and insertion and removal as the
// recursive counterparts of the source's path walks.  AATreeStore.dfy proves
// that the pointer-rewriting code computes exactly these functions.

module AATree {
  import opened Common

  // `ref` is the address of the node that carries the record.
  datatype Tree<K, D, R> =
    | Nil
    | Node(ref: R, level: int, key: K, data: D, left: Tree<K, D, R>, right: Tree<K, D, R>)

  function Level<K, D, R>(t: Tree<K, D, R>): int {
    if t.Nil? then 0 else t.level
  }

  // The sentinel links to itself, so following a link of an empty tree stays there.
  function RightOf<K, D, R>(t: Tree<K, D, R>): Tree<K, D, R> {
    if t.Nil? then Nil else t.right
  }

  function Size<K, D, R>(t: Tree<K, D, R>): nat {
    if t.Nil? then 0 else 1 + Size(t.left) + Size(t.right)
  }

  function Height<K, D, R>(t: Tree<K, D, R>): nat {
    if t.Nil? then 0
    else 1 + if Height(t.left) > Height(t.right) then Height(t.left) else Height(t.right)
  }

  datatype Entry<K, D, R> = Entry(ref: R, key: K, data: D)

  // What the tree stores, in order.
  function Entries<K, D, R>(t: Tree<K, D, R>): seq<Entry<K, D, R>> {
    if t.Nil? then [] else Entries(t.left) + [EntryOf(t)] + Entries(t.right)
  }

  function EntryOf<K, D, R>(t: Tree<K, D, R>): Entry<K, D, R>
    requires t.Node?
  {
    Entry(t.ref, t.key, t.data)
  }

  ghost predicate NoRefTwice<K, D, R>(es: seq<Entry<K, D, R>>) {
    forall i, j :: 0 <= i < j < |es| ==> es[i].ref != es[j].ref
  }

  // No node is reachable along two paths.
  ghost predicate Distinct<K, D, R>(t: Tree<K, D, R>) {
    NoRefTwice(Entries(t))
  }

  // The AA level rules.
  ghost predicate Balanced<K, D, R>(t: Tree<K, D, R>) {
    t.Node? ==>
      && Level(t.left) == t.level - 1
      && (Level(t.right) == t.level || Level(t.right) == t.level - 1)
      && Level(RightOf(t.right)) < t.level
      && Balanced(t.left) && Balanced(t.right)
  }

  ghost predicate KeysSorted<K(!new), D, R>(es: seq<Entry<K, D, R>>, cmp: (K, K) -> int) {
    forall i, j :: 0 <= i < j < |es| ==> cmp(es[i].key, es[j].key) <= 0
  }

  // ---------------------------------------------------------------- rotations

  function Skew<K, D, R>(t: Tree<K, D, R>): Tree<K, D, R> {
    if t.Node? && Level(t.left) == t.level && t.level > 0 then
      t.left.(right := t.(left := t.left.right))
    else t
  }

  function Split<K, D, R>(t: Tree<K, D, R>): Tree<K, D, R> {
    if t.Node? && Level(RightOf(t.right)) == t.level && t.level > 0 then
      t.right.(left := t.(right := t.right.left), level := t.right.level + 1)
    else t
  }

  function SetRight<K, D, R>(t: Tree<K, D, R>, r: Tree<K, D, R>): Tree<K, D, R> {
    if t.Nil? then Nil else t.(right := r)
  }

  // ---------------------------------------------------------------- insertion

  function Insert<K, D, R>(t: Tree<K, D, R>, key: K, data: D, ref: R, cmp: (K, K) -> int): Tree<K, D, R> {
    if t.Nil? then Node(ref, 1, key, data, Nil, Nil)
    else if cmp(t.key, key) < 0 then
      Split(Skew(t.(right := Insert(t.right, key, data, ref, cmp))))
    else
      Split(Skew(t.(left := Insert(t.left, key, data, ref, cmp))))
  }

  // ----------------------------------------------------------------- removal

  // Lowers a node one of whose children lost a level, and the right child with it.
  function Lower<K, D, R>(t: Tree<K, D, R>): Tree<K, D, R>
    requires t.Node?
  {
    var right := if Level(t.right) > t.level - 1 && t.right.Node? then t.right.(level := t.level - 1) else t.right;
    t.(level := t.level - 1, right := right)
  }

  function SkewThree<K, D, R>(t: Tree<K, D, R>): Tree<K, D, R> {
    var a := Skew(t);
    var b := SetRight(a, Skew(RightOf(a)));
    SetRight(b, SetRight(RightOf(b), Skew(RightOf(RightOf(b)))))
  }

  function SplitTwo<K, D, R>(t: Tree<K, D, R>): Tree<K, D, R> {
    var a := Split(t);
    SetRight(a, Split(RightOf(a)))
  }

  // One step of the walk back to the root.
  function Rebalance<K, D, R>(t: Tree<K, D, R>): Tree<K, D, R>
    requires t.Node?
  {
    if Level(t.left) < t.level - 1 || Level(t.right) < t.level - 1 then
      SplitTwo(SkewThree(Lower(t)))
    else t
  }

  // The leftmost node, and the tree without it.
  function Heir<K, D, R>(t: Tree<K, D, R>): (h: Tree<K, D, R>)
    requires t.Node?
    ensures h.Node?
  {
    if t.left.Nil? then t else Heir(t.left)
  }

  function RemoveHeir<K, D, R>(t: Tree<K, D, R>): Tree<K, D, R>
    requires t.Node?
  {
    if t.left.Nil? then t.right else Rebalance(t.(left := RemoveHeir(t.left)))
  }

  // What becomes of the node the search stops at: the heir hands over its
  // data, but not its key.
  function RemoveNode<K, D, R>(t: Tree<K, D, R>): Tree<K, D, R>
    requires t.Node?
  {
    if t.left.Nil? then t.right
    else if t.right.Nil? then t.left
    else Rebalance(t.(data := Heir(t.right).data, right := RemoveHeir(t.right)))
  }

  function Remove<K, D, R>(t: Tree<K, D, R>, key: K, cmp: (K, K) -> int): Tree<K, D, R> {
    if t.Nil? then Nil
    else if cmp(t.key, key) == 0 then RemoveNode(t)
    else if cmp(t.key, key) < 0 then Rebalance(t.(right := Remove(t.right, key, cmp)))
    else Rebalance(t.(left := Remove(t.left, key, cmp)))
  }

  // The subtree at whose root the search for `key` stops; Nil when there is none.
  function Search<K, D, R>(t: Tree<K, D, R>, key: K, cmp: (K, K) -> int): Tree<K, D, R> {
    if t.Nil? || cmp(t.key, key) == 0 then t
    else if cmp(t.key, key) < 0 then Search(t.right, key, cmp)
    else Search(t.left, key, cmp)
  }

  // ------------------------------------------------- level rules are preserved

  // A tree that has gained at most one level, and then leans to neither side.
  ghost predicate Grown<K, D, R>(t: Tree<K, D, R>, u: Tree<K, D, R>) {
    && Balanced(u) && u.Node?
    && Level(t) <= Level(u) <= Level(t) + 1
    && (Level(u) > Level(t) ==> Level(u.right) < Level(u))
    && (t.Node? && Level(t.right) < Level(t) ==> Level(u) == Level(t))
  }

  lemma {:induction false} RightGrown<K, D, R>(t: Tree<K, D, R>, r: Tree<K, D, R>)
    requires t.Node? && Balanced(t) && Grown(t.right, r)
    ensures Grown(t, Split(Skew(t.(right := r))))
  {
    LevelNonNegative(t.left);
    assert Balanced(t.left) && Balanced(t.right) && Balanced(r.left) && Balanced(r.right);
  }

  lemma {:induction false} LeftGrown<K, D, R>(t: Tree<K, D, R>, l: Tree<K, D, R>)
    requires t.Node? && Balanced(t) && Grown(t.left, l)
    ensures Grown(t, Split(Skew(t.(left := l))))
  {
    LevelNonNegative(t.left);
    assert Balanced(t.left) && Balanced(t.right) && Balanced(l.left) && Balanced(l.right);
  }

  lemma {:induction false} InsertBalanced<K, D, R>(t: Tree<K, D, R>, key: K, data: D, ref: R, cmp: (K, K) -> int)
    requires Balanced(t)
    ensures Grown(t, Insert(t, key, data, ref, cmp))
  {
    if t.Node? {
      if cmp(t.key, key) < 0 {
        InsertBalanced(t.right, key, data, ref, cmp);
        RightGrown(t, Insert(t.right, key, data, ref, cmp));
      } else {
        InsertBalanced(t.left, key, data, ref, cmp);
        LeftGrown(t, Insert(t.left, key, data, ref, cmp));
      }
    }
  }

  // A tree that has lost at most one level against a tree of level `level`
  // and that keeps a slanted root slanted.
  ghost predicate Shrunk<K, D, R>(t: Tree<K, D, R>, u: Tree<K, D, R>) {
    && Balanced(u)
    && Level(t) - 1 <= Level(u) <= Level(t)
    && (Level(u) == Level(t) && Level(RightOf(t)) < Level(t) ==> Level(RightOf(u)) < Level(u))
  }

  lemma {:induction false} LevelNonNegative<K, D, R>(t: Tree<K, D, R>)
    requires Balanced(t)
    ensures Level(t) >= 0 && (t.Node? ==> t.level >= 1)
    ensures Level(RightOf(t)) <= Level(t)
  {
    if t.Node? { LevelNonNegative(t.left); }
  }

  // A child is one level short and the right child is no higher than allowed.
  // The left child lost a level; the right child sits one level below.
  lemma {:induction false} LeftShort<K, D, R>(u: Tree<K, D, R>)
    requires u.Node? && Balanced(u.left) && Balanced(u.right)
    requires Level(u.left) == u.level - 2 && Level(u.right) == u.level - 1
    ensures var w := Rebalance(u);
      Balanced(w) && u.level - 1 <= Level(w) <= u.level && Level(RightOf(w)) < u.level
  {
    LevelNonNegative(u.left);
    var v := u.(level := u.level - 1);
    assert Lower(u) == v;
    assert Skew(v) == v && Skew(v.right) == v.right;
    assert Skew(v.right.right) == v.right.right;
    assert SkewThree(v) == v;
  }

  // The left child lost a level; the right child sits on the node's own level.
  lemma {:induction false} LeftShortSlanted<K, D, R>(u: Tree<K, D, R>)
    requires u.Node? && Balanced(u.left) && Balanced(u.right)
    requires Level(u.left) == u.level - 2 && Level(u.right) == u.level > Level(RightOf(u.right))
    ensures Balanced(Rebalance(u)) && Level(Rebalance(u)) == u.level
  {
    LevelNonNegative(u.left);
    LevelNonNegative(u.right.left.left);
    if Level(u.right.left.right) == u.level - 1 {
      LeftShortDouble(u);
    } else {
      LeftShortSingle(u);
    }
  }

  // Both splits of the final stage fire.
  lemma {:induction false} LeftShortDouble<K, D, R>(u: Tree<K, D, R>)
    requires u.Node? && u.right.Node? && u.right.left.Node? && u.right.left.right.Node?
    requires Balanced(u.left) && Balanced(u.right) && Balanced(u.right.left.left)
    requires Level(u.left) == u.level - 2 && u.level >= 2
    requires Level(u.right) == u.level > Level(RightOf(u.right))
    requires u.right.left.right.level == u.level - 1
    requires Level(RightOf(u.right.left.left)) <= Level(u.right.left.left)
    ensures Balanced(Rebalance(u)) && Level(Rebalance(u)) == u.level
  {
    var m, r := u.level - 1, u.right;
    var rl := r.left;
    var rlr := rl.right;
    var r' := r.(level := m, left := rlr.right);
    assert SkewThree(Lower(u)) == u.(level := m, right := rl.(right := rlr.(right := r')));
    var w := rl.(level := m + 1, left := u.(level := m, right := rl.left),
                 right := r'.(level := m + 1, left := rlr.(right := r'.left)));
    assert Rebalance(u) == w;
    assert Balanced(rl) && Balanced(rlr);
    LevelNonNegative(r'.left);
    LevelNonNegative(rlr.left);
    assert Balanced(w.left);
    assert w.right.left == rlr;
    assert Balanced(w.right);
  }

  // The second split fires only if the far right chain is slanted.
  lemma {:induction false} LeftShortSingle<K, D, R>(u: Tree<K, D, R>)
    requires u.Node? && u.right.Node? && u.right.left.Node?
    requires Balanced(u.left) && Balanced(u.right) && Balanced(u.right.left.left)
    requires Level(u.left) == u.level - 2 && u.level >= 2
    requires Level(u.right) == u.level > Level(RightOf(u.right))
    requires Level(u.right.left.right) == u.level - 2
    requires Level(RightOf(u.right.left.left)) <= Level(u.right.left.left)
    ensures Balanced(Rebalance(u)) && Level(Rebalance(u)) == u.level
  {
    var m, r := u.level - 1, u.right;
    var rl, rr := r.left, r.right;
    var r' := r.(level := m, left := rl.right);
    var l := u.(level := m, right := rl.left);
    assert SkewThree(Lower(u)) == u.(level := m, right := rl.(right := r'));
    assert Rebalance(u) == rl.(level := m + 1, left := l, right := Split(r'));
    assert Balanced(l);
    LevelNonNegative(rr);
    if Level(rr.right) == m {
      LevelNonNegative(rr.left);
      assert Balanced(r'.(right := rr.left));
    }
    assert Balanced(Split(r'));
  }

  // The right child lost a level.
  lemma {:induction false} RightShort<K, D, R>(u: Tree<K, D, R>)
    requires u.Node? && Balanced(u.left) && Balanced(u.right)
    requires Level(u.left) == u.level - 1 && Level(u.right) == u.level - 2
    ensures var w := Rebalance(u);
      Balanced(w) && u.level - 1 <= Level(w) <= u.level && (Level(w) == u.level ==> Level(RightOf(w)) < u.level)
  {
    LevelNonNegative(u.right);
    var m := u.level - 1;
    var a := u.left;
    if Level(a.right) == m {
      var b := a.right;
      LevelNonNegative(b.left);
      var u' := u.(level := m, left := b.right);
      assert SkewThree(Lower(u)) == a.(right := b.(right := u'));
      assert Rebalance(u) == b.(level := m + 1, left := a.(right := b.left), right := u');
      assert Balanced(a.(right := b.left)) && Balanced(u');
    } else {
      var u' := u.(level := m, left := a.right);
      assert SkewThree(Lower(u)) == a.(right := u');
      assert Rebalance(u) == a.(right := u');
    }
  }

  lemma {:induction false} RebalanceLeft<K, D, R>(t: Tree<K, D, R>, l: Tree<K, D, R>)
    requires t.Node? && Balanced(t) && Shrunk(t.left, l)
    ensures Shrunk(t, Rebalance(t.(left := l)))
  {
    var u := t.(left := l);
    if Level(l) < t.level - 1 {
      if Level(t.right) == t.level { LeftShortSlanted(u); } else { LeftShort(u); }
    }
  }

  lemma {:induction false} RebalanceRight<K, D, R>(t: Tree<K, D, R>, r: Tree<K, D, R>)
    requires t.Node? && Balanced(t) && Shrunk(t.right, r)
    ensures Shrunk(t, Rebalance(t.(right := r)))
  {
    var u := t.(right := r);
    if Level(r) < t.level - 1 { RightShort(u); }
  }

  lemma {:induction false} RemoveHeirBalanced<K, D, R>(t: Tree<K, D, R>)
    requires t.Node? && Balanced(t)
    ensures Shrunk(t, RemoveHeir(t))
  {
    if t.left.Node? {
      RemoveHeirBalanced(t.left);
      RebalanceLeft(t, RemoveHeir(t.left));
    }
  }

  // Removal restores every level rule, whatever the key.
  lemma {:induction false} RemoveBalanced<K, D, R>(t: Tree<K, D, R>, key: K, cmp: (K, K) -> int)
    requires Balanced(t)
    ensures Shrunk(t, Remove(t, key, cmp))
  {
    if t.Node? {
      if cmp(t.key, key) == 0 {
        LevelNonNegative(t.left);
        LevelNonNegative(t.right);
        if t.left.Node? && t.right.Node? {
          RemoveHeirBalanced(t.right);
          RebalanceRight(t.(data := Heir(t.right).data), RemoveHeir(t.right));
        }
      } else if cmp(t.key, key) < 0 {
        RemoveBalanced(t.right, key, cmp);
        RebalanceRight(t, Remove(t.right, key, cmp));
      } else {
        RemoveBalanced(t.left, key, cmp);
        RebalanceLeft(t, Remove(t.left, key, cmp));
      }
    }
  }

  // --------------------------------------------------- what a tree stores

  // Two trees made of the same nodes, read in the same order.
  ghost predicate Rearranged<K, D, R>(t: Tree<K, D, R>, u: Tree<K, D, R>) {
    Entries(u) == Entries(t)
  }

  lemma {:induction false} SkewRearranges<K, D, R>(t: Tree<K, D, R>)
    ensures Rearranged(t, Skew(t))
  {
    if Skew(t) != t {
      var l := t.left;
      var v := t.(left := l.right);
      assert Entries(v) == Entries(l.right) + [EntryOf(t)] + Entries(t.right);
    }
  }

  lemma {:induction false} SplitRearranges<K, D, R>(t: Tree<K, D, R>)
    ensures Rearranged(t, Split(t))
  {
    if Split(t) != t {
      var r := t.right;
      var v := t.(right := r.left);
      assert Entries(v) == Entries(t.left) + [EntryOf(t)] + Entries(r.left);
    }
  }

  lemma {:induction false} SetRightRearranges<K, D, R>(t: Tree<K, D, R>, r: Tree<K, D, R>)
    requires Rearranged(RightOf(t), r)
    ensures Rearranged(t, SetRight(t, r))
  {
  }

  lemma {:induction false} SkewThreeRearranges<K, D, R>(t: Tree<K, D, R>)
    ensures Rearranged(t, SkewThree(t))
  {
    var a := Skew(t);
    SkewRearranges(t);
    SkewRearranges(RightOf(a));
    var b := SetRight(a, Skew(RightOf(a)));
    SetRightRearranges(a, Skew(RightOf(a)));
    SkewRearranges(RightOf(RightOf(b)));
    SetRightRearranges(RightOf(b), Skew(RightOf(RightOf(b))));
    SetRightRearranges(b, SetRight(RightOf(b), Skew(RightOf(RightOf(b)))));
  }

  lemma {:induction false} RebalanceRearranges<K, D, R>(t: Tree<K, D, R>)
    requires t.Node?
    ensures Rearranged(t, Rebalance(t))
  {
    if Rebalance(t) != t {
      assert Rearranged(t, Lower(t));
      var s := SkewThree(Lower(t));
      SkewThreeRearranges(Lower(t));
      SplitRearranges(s);
      var a := Split(s);
      SplitRearranges(RightOf(a));
      SetRightRearranges(a, Split(RightOf(a)));
    }
  }

  // Where the search for `key` stops, as a position in the in-order sequence.
  function Position<K, D, R>(t: Tree<K, D, R>, key: K, cmp: (K, K) -> int): (i: nat)
    requires Search(t, key, cmp).Node?
  {
    if cmp(t.key, key) == 0 then |Entries(t.left)|
    else if cmp(t.key, key) < 0 then |Entries(t.left)| + 1 + Position(t.right, key, cmp)
    else Position(t.left, key, cmp)
  }

  // The place at which insertion adds its entry.
  function InsertPosition<K, D, R>(t: Tree<K, D, R>, key: K, cmp: (K, K) -> int): (i: nat)
    ensures i <= |Entries(t)|
  {
    if t.Nil? then 0
    else if cmp(t.key, key) < 0 then |Entries(t.left)| + 1 + InsertPosition(t.right, key, cmp)
    else InsertPosition(t.left, key, cmp)
  }

  lemma {:induction false} SizeIsEntries<K, D, R>(t: Tree<K, D, R>)
    ensures |Entries(t)| == Size(t)
  {
    if t.Node? { SizeIsEntries(t.left); SizeIsEntries(t.right); }
  }

  // Replaces the `n` elements from position i on by those of `m`.
  function Splice<T>(s: seq<T>, i: nat, n: nat, m: seq<T>): seq<T>
    requires i + n <= |s|
  {
    s[..i] + m + s[i + n..]
  }

  lemma {:induction false} SpliceConcat<T>(a: seq<T>, x: T, b: seq<T>, i: nat, n: nat, m: seq<T>)
    ensures i + n <= |a| ==> Splice(a + [x] + b, i, n, m) == Splice(a, i, n, m) + [x] + b
    ensures i + n <= |b| ==> Splice(a + [x] + b, |a| + 1 + i, n, m) == a + [x] + Splice(b, i, n, m)
  {
    var s := a + [x] + b;
    if i + n <= |a| {
      assert s[..i] == a[..i] && s[i + n..] == a[i + n..] + [x] + b;
    }
    if i + n <= |b| {
      var j := |a| + 1 + i;
      assert s[..j] == a + [x] + b[..i] && s[j + n..] == b[i + n..];
    }
  }

  // Insertion adds exactly one entry, at its place in the order.
  lemma {:induction false} InsertEntries<K, D, R>(t: Tree<K, D, R>, key: K, data: D, ref: R, cmp: (K, K) -> int)
    ensures Entries(Insert(t, key, data, ref, cmp))
         == Splice(Entries(t), InsertPosition(t, key, cmp), 0, [Entry(ref, key, data)])
  {
    if t.Node? {
      var right := cmp(t.key, key) < 0;
      var c := if right then t.right else t.left;
      var c' := Insert(c, key, data, ref, cmp);
      InsertEntries(c, key, data, ref, cmp);
      SpliceConcat(Entries(t.left), EntryOf(t), Entries(t.right), InsertPosition(c, key, cmp), 0,
                   [Entry(ref, key, data)]);
      var v := if right then t.(right := c') else t.(left := c');
      SkewRearranges(v);
      SplitRearranges(Skew(v));
    }
  }

  // ---- removal

  lemma {:induction false} RemoveHeirEntries<K, D, R>(t: Tree<K, D, R>)
    requires t.Node?
    ensures Entries(t) == [EntryOf(Heir(t))] + Entries(RemoveHeir(t))
  {
    if t.left.Node? {
      RemoveHeirEntries(t.left);
      RebalanceRearranges(t.(left := RemoveHeir(t.left)));
    }
  }

  // What the cell at position i of the order becomes when its node is removed.
  function Without<K, D, R>(es: seq<Entry<K, D, R>>, i: nat, twoChildren: bool): seq<Entry<K, D, R>>
    requires if twoChildren then i + 1 < |es| else i < |es|
  {
    if twoChildren then Splice(es, i, 2, [es[i].(data := es[i + 1].data)]) else Splice(es, i, 1, [])
  }

  predicate TwoChildren<K, D, R>(t: Tree<K, D, R>) {
    t.Node? && t.left.Node? && t.right.Node?
  }

  lemma {:induction false} RemoveNodeEntries<K, D, R>(t: Tree<K, D, R>)
    requires t.Node?
    ensures TwoChildren(t) ==> |Entries(t.left)| + 1 < |Entries(t)|
    ensures Entries(RemoveNode(t)) == Without(Entries(t), |Entries(t.left)|, TwoChildren(t))
  {
    if TwoChildren(t) {
      var heir := Heir(t.right);
      var l, e, x, r := Entries(t.left), EntryOf(t), EntryOf(heir), Entries(RemoveHeir(t.right));
      RemoveHeirEntries(t.right);
      RebalanceRearranges(t.(data := heir.data, right := RemoveHeir(t.right)));
      WithoutNext(l, e, x, r);
    } else {
      WithoutOne(Entries(t.left), EntryOf(t), Entries(t.right));
    }
  }

  lemma {:induction false} WithoutNext<K, D, R>(l: seq<Entry<K, D, R>>, e: Entry<K, D, R>, x: Entry<K, D, R>,
                                                r: seq<Entry<K, D, R>>)
    ensures Without(l + [e] + ([x] + r), |l|, true) == l + [e.(data := x.data)] + r
  {
    var es := l + [e] + ([x] + r);
    assert es[|l|] == e && es[|l| + 1] == x && es[..|l|] == l && es[|l| + 2..] == r;
  }

  lemma {:induction false} WithoutOne<K, D, R>(l: seq<Entry<K, D, R>>, e: Entry<K, D, R>, r: seq<Entry<K, D, R>>)
    ensures Without(l + [e] + r, |l|, false) == l + r
  {
    var es := l + [e] + r;
    assert es[..|l|] == l && es[|l| + 1..] == r;
  }

  lemma {:induction false} WithoutConcat<K, D, R>(a: seq<Entry<K, D, R>>, x: Entry<K, D, R>, b: seq<Entry<K, D, R>>,
                                                  i: nat, two: bool)
    ensures (if two then i + 1 < |a| else i < |a|) ==>
      (a + [x] + b)[i] == a[i] && Without(a + [x] + b, i, two) == Without(a, i, two) + [x] + b
    ensures (if two then i + 1 < |b| else i < |b|) ==>
      (a + [x] + b)[|a| + 1 + i] == b[i] && Without(a + [x] + b, |a| + 1 + i, two) == a + [x] + Without(b, i, two)
  {
    SpliceConcat(a, x, b, i, 1, []);
    if two && i + 1 < |a| {
      SpliceConcat(a, x, b, i, 2, [a[i].(data := a[i + 1].data)]);
    }
    if two && i + 1 < |b| {
      SpliceConcat(a, x, b, i, 2, [b[i].(data := b[i + 1].data)]);
    }
  }

  // The entry at position i, with key `key`, is taken out of the order.
  ghost predicate TakesOut<K, D, R>(es: seq<Entry<K, D, R>>, i: nat, two: bool, key: K, cmp: (K, K) -> int,
                                    us: seq<Entry<K, D, R>>)
  {
    && (if two then i + 1 < |es| else i < |es|)
    && cmp(es[i].key, key) == 0
    && us == Without(es, i, two)
  }

  lemma {:induction false} TakenAfter<K, D, R>(l: seq<Entry<K, D, R>>, e: Entry<K, D, R>, r: seq<Entry<K, D, R>>,
                                               i: nat, us: seq<Entry<K, D, R>>,
                                               two: bool, key: K, cmp: (K, K) -> int, es: seq<Entry<K, D, R>>,
                                               j: nat, vs: seq<Entry<K, D, R>>)
    requires TakesOut(r, i, two, key, cmp, us)
    requires es == l + [e] + r && vs == l + [e] + us && j == |l| + 1 + i
    ensures TakesOut(es, j, two, key, cmp, vs)
  {
    WithoutConcat(l, e, r, i, two);
  }

  lemma {:induction false} TakenBefore<K, D, R>(l: seq<Entry<K, D, R>>, e: Entry<K, D, R>, r: seq<Entry<K, D, R>>,
                                                i: nat, us: seq<Entry<K, D, R>>,
                                                two: bool, key: K, cmp: (K, K) -> int, es: seq<Entry<K, D, R>>,
                                                vs: seq<Entry<K, D, R>>)
    requires TakesOut(l, i, two, key, cmp, us)
    requires es == l + [e] + r && vs == us + [e] + r
    ensures TakesOut(es, i, two, key, cmp, vs)
  {
    WithoutConcat(l, e, r, i, two);
  }

  lemma {:induction false} RemoveRight<K, D, R>(t: Tree<K, D, R>, key: K, cmp: (K, K) -> int)
    requires t.Node? && cmp(t.key, key) < 0
    ensures Entries(Remove(t, key, cmp)) == Entries(t.left) + [EntryOf(t)] + Entries(Remove(t.right, key, cmp))
  {
    RebalanceRearranges(t.(right := Remove(t.right, key, cmp)));
  }

  lemma {:induction false} RemoveLeft<K, D, R>(t: Tree<K, D, R>, key: K, cmp: (K, K) -> int)
    requires t.Node? && cmp(t.key, key) > 0
    ensures Entries(Remove(t, key, cmp)) == Entries(Remove(t.left, key, cmp)) + [EntryOf(t)] + Entries(t.right)
  {
    RebalanceRearranges(t.(left := Remove(t.left, key, cmp)));
  }

  ghost predicate RemovesFound<K, D, R>(t: Tree<K, D, R>, key: K, cmp: (K, K) -> int)
    requires Search(t, key, cmp).Node?
  {
    TakesOut(Entries(t), Position(t, key, cmp), TwoChildren(Search(t, key, cmp)), key, cmp,
             Entries(Remove(t, key, cmp)))
  }

  lemma {:induction false} FoundRight<K, D, R>(t: Tree<K, D, R>, key: K, cmp: (K, K) -> int)
    requires t.Node? && cmp(t.key, key) < 0 && Search(t.right, key, cmp).Node? && RemovesFound(t.right, key, cmp)
    ensures RemovesFound(t, key, cmp)
  {
    RemoveRight(t, key, cmp);
    TakenAfter(Entries(t.left), EntryOf(t), Entries(t.right), Position(t.right, key, cmp),
               Entries(Remove(t.right, key, cmp)), TwoChildren(Search(t, key, cmp)), key, cmp, Entries(t),
               Position(t, key, cmp), Entries(Remove(t, key, cmp)));
  }

  lemma {:induction false} FoundLeft<K, D, R>(t: Tree<K, D, R>, key: K, cmp: (K, K) -> int)
    requires t.Node? && cmp(t.key, key) > 0 && Search(t.left, key, cmp).Node? && RemovesFound(t.left, key, cmp)
    ensures RemovesFound(t, key, cmp)
  {
    RemoveLeft(t, key, cmp);
    TakenBefore(Entries(t.left), EntryOf(t), Entries(t.right), Position(t, key, cmp), Entries(Remove(t.left, key, cmp)),
                TwoChildren(Search(t, key, cmp)), key, cmp, Entries(t), Entries(Remove(t, key, cmp)));
  }

  // Removal drops the entry the search stops at; with two children it drops the
  // next entry instead and hands that entry's data to the key that stays.
  lemma {:induction false} RemoveEntries<K, D, R>(t: Tree<K, D, R>, key: K, cmp: (K, K) -> int)
    requires Search(t, key, cmp).Node?
    ensures RemovesFound(t, key, cmp)
  {
    if cmp(t.key, key) == 0 {
      RemoveNodeEntries(t);
    } else if cmp(t.key, key) < 0 {
      RemoveEntries(t.right, key, cmp);
      FoundRight(t, key, cmp);
    } else {
      RemoveEntries(t.left, key, cmp);
      FoundLeft(t, key, cmp);
    }
  }

  // A key that is not stored leaves the tree alone.
  lemma {:induction false} RemoveAbsent<K, D, R>(t: Tree<K, D, R>, key: K, cmp: (K, K) -> int)
    requires Balanced(t) && Search(t, key, cmp).Nil?
    ensures Remove(t, key, cmp) == t
  {
    if t.Node? {
      if cmp(t.key, key) < 0 { RemoveAbsent(t.right, key, cmp); } else { RemoveAbsent(t.left, key, cmp); }
    }
  }

  // ------------------------------------------------------------ search order

  lemma {:induction false} SortedParts<K(!new), D, R>(t: Tree<K, D, R>, cmp: (K, K) -> int)
    requires t.Node? && KeysSorted(Entries(t), cmp)
    ensures KeysSorted(Entries(t.left), cmp) && KeysSorted(Entries(t.right), cmp)
    ensures forall i :: 0 <= i < |Entries(t.left)| ==> cmp(Entries(t.left)[i].key, t.key) <= 0
    ensures forall i :: 0 <= i < |Entries(t.right)| ==> cmp(t.key, Entries(t.right)[i].key) <= 0
  {
    SortedConcat(Entries(t.left), EntryOf(t), Entries(t.right), cmp);
  }

  lemma {:induction false} SortedConcat<K(!new), D, R>(l: seq<Entry<K, D, R>>, e: Entry<K, D, R>,
                                                       r: seq<Entry<K, D, R>>, cmp: (K, K) -> int)
    requires KeysSorted(l + [e] + r, cmp)
    ensures KeysSorted(l, cmp) && KeysSorted(r, cmp)
    ensures forall i :: 0 <= i < |l| ==> cmp(l[i].key, e.key) <= 0
    ensures forall i :: 0 <= i < |r| ==> cmp(e.key, r[i].key) <= 0
  {
    var es := l + [e] + r;
    assert forall i :: 0 <= i < |l| ==> l[i] == es[i];
    assert forall i :: 0 <= i < |r| ==> r[i] == es[|l| + 1 + i];
    assert es[|l|] == e;
  }

  // The insertion point separates the smaller keys from the others.
  lemma {:induction false} InsertPositionAt<K(!new), D, R>(t: Tree<K, D, R>, key: K, cmp: (K, K) -> int, i: nat)
    requires Comparator(cmp) && KeysSorted(Entries(t), cmp) && i < |Entries(t)|
    ensures cmp(Entries(t)[i].key, key) < 0 <==> i < InsertPosition(t, key, cmp)
  {
    SortedParts(t, cmp);
    var l, r := Entries(t.left), Entries(t.right);
    if i > |l| {
      assert Entries(t)[i] == r[i - |l| - 1];
    }
    if cmp(t.key, key) < 0 {
      if i < |l| {
        StrictBelow(l[i].key, t.key, key, cmp);
      } else if i > |l| {
        InsertPositionAt(t.right, key, cmp, i - |l| - 1);
      }
    } else if i < |l| {
      InsertPositionAt(t.left, key, cmp, i);
    } else if i > |l| {
      NotBelow(key, t.key, r[i - |l| - 1].key, cmp);
    }
  }

  lemma InsertPositionSeparates<K(!new), D, R>(t: Tree<K, D, R>, key: K, cmp: (K, K) -> int)
    requires Comparator(cmp) && KeysSorted(Entries(t), cmp)
    ensures forall i :: 0 <= i < |Entries(t)| ==>
      (cmp(Entries(t)[i].key, key) < 0 <==> i < InsertPosition(t, key, cmp))
  {
    forall i | 0 <= i < |Entries(t)| ensures cmp(Entries(t)[i].key, key) < 0 <==> i < InsertPosition(t, key, cmp) {
      InsertPositionAt(t, key, cmp, i);
    }
  }

  lemma {:induction false} StrictBelow<K(!new)>(a: K, b: K, c: K, cmp: (K, K) -> int)
    requires Comparator(cmp) && cmp(a, b) <= 0 && cmp(b, c) < 0
    ensures cmp(a, c) < 0
  {
    assert Transitive(cmp, c, a, b);
  }

  lemma {:induction false} NotBelow<K(!new)>(key: K, a: K, b: K, cmp: (K, K) -> int)
    requires Comparator(cmp) && cmp(a, key) >= 0 && cmp(a, b) <= 0
    ensures cmp(b, key) >= 0
  {
    if cmp(b, key) < 0 { StrictBelow(a, b, key, cmp); }
  }

  lemma {:induction false} SpliceSorted<K(!new), D, R>(es: seq<Entry<K, D, R>>, p: nat, e: Entry<K, D, R>,
                                                       cmp: (K, K) -> int)
    requires p <= |es| && KeysSorted(es, cmp)
    requires forall i :: 0 <= i < p ==> cmp(es[i].key, e.key) <= 0
    requires forall i :: p <= i < |es| ==> cmp(e.key, es[i].key) <= 0
    ensures KeysSorted(Splice(es, p, 0, [e]), cmp)
  {
  }

  lemma {:induction false} InsertSorted<K(!new), D, R>(t: Tree<K, D, R>, key: K, data: D, ref: R, cmp: (K, K) -> int)
    requires Comparator(cmp) && KeysSorted(Entries(t), cmp)
    ensures KeysSorted(Entries(Insert(t, key, data, ref, cmp)), cmp)
  {
    InsertEntries(t, key, data, ref, cmp);
    InsertPositionSeparates(t, key, cmp);
    var es, p := Entries(t), InsertPosition(t, key, cmp);
    forall i | p <= i < |es| ensures cmp(key, es[i].key) <= 0 {
      assert cmp(es[i].key, key) >= 0;
    }
    SpliceSorted(es, p, Entry(ref, key, data), cmp);
  }

  lemma {:induction false} WithoutSorted<K(!new), D, R>(es: seq<Entry<K, D, R>>, i: nat, two: bool, cmp: (K, K) -> int)
    requires (if two then i + 1 < |es| else i < |es|) && KeysSorted(es, cmp)
    ensures KeysSorted(Without(es, i, two), cmp)
  {
  }

  lemma {:induction false} RemoveSorted<K(!new), D, R>(t: Tree<K, D, R>, key: K, cmp: (K, K) -> int)
    requires Balanced(t) && KeysSorted(Entries(t), cmp)
    ensures KeysSorted(Entries(Remove(t, key, cmp)), cmp)
  {
    if Search(t, key, cmp).Nil? {
      RemoveAbsent(t, key, cmp);
    } else {
      RemoveEntries(t, key, cmp);
      WithoutSorted(Entries(t), Position(t, key, cmp), TwoChildren(Search(t, key, cmp)), cmp);
    }
  }

  // The entry found is the one at the search position.
  lemma {:induction false} SearchPosition<K, D, R>(t: Tree<K, D, R>, key: K, cmp: (K, K) -> int)
    requires Search(t, key, cmp).Node?
    ensures Position(t, key, cmp) < |Entries(t)|
    ensures Entries(t)[Position(t, key, cmp)] == EntryOf(Search(t, key, cmp))
    ensures cmp(Search(t, key, cmp).key, key) == 0
  {
    if cmp(t.key, key) < 0 {
      SearchPosition(t.right, key, cmp);
    } else if cmp(t.key, key) > 0 {
      SearchPosition(t.left, key, cmp);
    }
  }

  // The search fails only on keys that are not stored.
  lemma {:induction false} SearchComplete<K(!new), D, R>(t: Tree<K, D, R>, key: K, cmp: (K, K) -> int)
    requires Comparator(cmp) && KeysSorted(Entries(t), cmp) && Search(t, key, cmp).Nil?
    ensures forall i :: 0 <= i < |Entries(t)| ==> cmp(Entries(t)[i].key, key) != 0
  {
    if t.Node? {
      SortedParts(t, cmp);
      var l, r, es := Entries(t.left), Entries(t.right), Entries(t);
      SearchComplete(if cmp(t.key, key) < 0 then t.right else t.left, key, cmp);
      forall i | 0 <= i < |es| ensures cmp(es[i].key, key) != 0 {
        if i < |l| {
          if cmp(t.key, key) < 0 { StrictBelow(l[i].key, t.key, key, cmp); }
        } else if i > |l| {
          assert es[i] == r[i - |l| - 1];
          if cmp(t.key, key) > 0 { StrictAbove(key, t.key, r[i - |l| - 1].key, cmp); }
        }
      }
    }
  }

  lemma {:induction false} StrictAbove<K(!new)>(a: K, b: K, c: K, cmp: (K, K) -> int)
    requires Comparator(cmp) && cmp(a, b) < 0 && cmp(b, c) <= 0
    ensures cmp(a, c) < 0
  {
    assert Transitive(cmp, b, c, a);
  }

  // ------------------------------------------ when the removed key is gone

  function Pairs<K, D, R>(es: seq<Entry<K, D, R>>): (ps: seq<(K, D)>)
    ensures |ps| == |es|
    ensures forall i :: 0 <= i < |es| ==> ps[i] == (es[i].key, es[i].data)
  {
    seq(|es|, i requires 0 <= i < |es| => (es[i].key, es[i].data))
  }

  lemma {:induction false} MultisetSplice<T>(s: seq<T>, i: nat, n: nat, m: seq<T>)
    requires i + n <= |s|
    ensures multiset(Splice(s, i, n, m)) + multiset(s[i..i + n]) == multiset(s) + multiset(m)
  {
    assert s == s[..i] + s[i..i + n] + s[i + n..];
  }

  lemma {:induction false} MultisetExchange<T>(a: multiset<T>, b: multiset<T>, p: T, q: T, x: T)
    requires a + multiset{p, q} == b + multiset{x}
    ensures a + multiset{p} == b <==> x == q
  {
    assert a + multiset{p, q} == a + multiset{p} + multiset{q};
    if x == q {
      assert a + multiset{p} == b + multiset{x} - multiset{x};
    } else {
      assert (a + multiset{p, q})[x] == (a + multiset{p})[x];
    }
  }

  lemma {:induction false} MultisetReplaceTwo<T>(s: seq<T>, i: nat, x: T)
    requires i + 1 < |s|
    ensures multiset(Splice(s, i, 2, [x])) + multiset{s[i]} == multiset(s) <==> x == s[i + 1]
  {
    MultisetSplice(s, i, 2, [x]);
    assert s[i..i + 2] == [s[i], s[i + 1]];
    MultisetExchange(multiset(Splice(s, i, 2, [x])), multiset(s), s[i], s[i + 1], x);
  }

  lemma {:induction false} PairsSplice<K, D, R>(es: seq<Entry<K, D, R>>, i: nat, n: nat, m: seq<Entry<K, D, R>>)
    requires i + n <= |es|
    ensures Pairs(Splice(es, i, n, m)) == Splice(Pairs(es), i, n, Pairs(m))
  {
  }

  lemma {:induction false} PairsWithout<K, D, R>(es: seq<Entry<K, D, R>>, i: nat, two: bool)
    requires if two then i + 1 < |es| else i < |es|
    ensures multiset(Pairs(Without(es, i, two))) + multiset{Pairs(es)[i]} == multiset(Pairs(es))
      <==> (two ==> es[i].key == es[i + 1].key)
  {
    if two {
      PairsSplice(es, i, 2, [es[i].(data := es[i + 1].data)]);
      MultisetReplaceTwo(Pairs(es), i, (es[i].key, es[i + 1].data));
      assert Pairs([es[i].(data := es[i + 1].data)]) == [(es[i].key, es[i + 1].data)];
    } else {
      PairsSplice(es, i, 1, []);
      MultisetSplice(Pairs(es), i, 1, []);
      assert Pairs(es)[i..i + 1] == [Pairs(es)[i]];
    }
  }

  lemma PairsRemoved<K, D, R>(es: seq<Entry<K, D, R>>, i: nat, two: bool, rs: seq<Entry<K, D, R>>)
    requires (if two then i + 1 < |es| else i < |es|) && rs == Without(es, i, two)
    ensures multiset(Pairs(rs)) + multiset{Pairs(es)[i]} == multiset(Pairs(es)) <==>
      (two ==> es[i].key == es[i + 1].key)
  {
    PairsWithout(es, i, two);
  }

  // Removal takes away exactly the pair it found if and only if the node it
  // stops at has a nil link, or the next entry is stored under the same key.
  lemma {:induction false} RemovedPair<K, D, R>(t: Tree<K, D, R>, key: K, cmp: (K, K) -> int)
    requires Search(t, key, cmp).Node?
    ensures var es, i, two := Entries(t), Position(t, key, cmp), TwoChildren(Search(t, key, cmp));
      && (if two then i + 1 < |es| else i < |es|)
      && (multiset(Pairs(Entries(Remove(t, key, cmp)))) + multiset{Pairs(es)[i]} == multiset(Pairs(es))
          <==> (two ==> es[i].key == es[i + 1].key))
  {
    RemoveEntries(t, key, cmp);
    PairsRemoved(Entries(t), Position(t, key, cmp), TwoChildren(Search(t, key, cmp)), Entries(Remove(t, key, cmp)));
  }

  ghost predicate StrictlySorted<K(!new), D, R>(es: seq<Entry<K, D, R>>, cmp: (K, K) -> int) {
    forall i, j :: 0 <= i < j < |es| ==> cmp(es[i].key, es[j].key) < 0
  }

  lemma {:induction false} OnlyMatch<K(!new), D, R>(es: seq<Entry<K, D, R>>, key: K, cmp: (K, K) -> int, i: nat, j: nat)
    requires Comparator(cmp) && StrictlySorted(es, cmp) && i < |es| && j < |es| && i != j
    requires cmp(es[i].key, key) == 0
    ensures cmp(es[j].key, key) != 0
  {
    if i < j { StrictBelow(key, es[i].key, es[j].key, cmp); } else { StrictAbove(es[j].key, es[i].key, key, cmp); }
  }

  // The cell of the old order whose key cell j of the new order carries.
  function OldCell(i: nat, two: bool, j: nat): nat {
    if j < i || (two && j == i) then j else j + 1
  }

  lemma {:induction false} WithoutKey<K, D, R>(es: seq<Entry<K, D, R>>, i: nat, two: bool, j: nat)
    requires (if two then i + 1 < |es| else i < |es|) && j + 1 < |es|
    ensures |Without(es, i, two)| == |es| - 1
    ensures Without(es, i, two)[j].key == es[OldCell(i, two, j)].key
    ensures two ==> Without(es, i, two)[i].data == es[i + 1].data
  {
  }

  lemma {:induction false} MatchesWithout<K(!new), D, R>(es: seq<Entry<K, D, R>>, i: nat, two: bool, key: K,
                                                         cmp: (K, K) -> int, j: nat)
    requires Comparator(cmp) && StrictlySorted(es, cmp)
    requires (if two then i + 1 < |es| else i < |es|) && cmp(es[i].key, key) == 0
    requires j + 1 < |es|
    ensures |Without(es, i, two)| == |es| - 1
    ensures cmp(Without(es, i, two)[j].key, key) == 0 <==> OldCell(i, two, j) == i
  {
    WithoutKey(es, i, two, j);
    if OldCell(i, two, j) != i { OnlyMatch(es, key, cmp, i, OldCell(i, two, j)); }
  }

  // With distinct keys, the removed key is gone if and only if the node it was
  // stored at has a nil link; otherwise it now finds the next entry's data.
  lemma {:induction false} RemovedKey<K(!new), D, R>(t: Tree<K, D, R>, key: K, cmp: (K, K) -> int)
    requires Comparator(cmp) && Balanced(t) && StrictlySorted(Entries(t), cmp) && Search(t, key, cmp).Node?
    ensures var u, two := Remove(t, key, cmp), TwoChildren(Search(t, key, cmp));
      && (Search(u, key, cmp).Nil? <==> !two)
      && (two ==> Position(t, key, cmp) + 1 < |Entries(t)|
                  && Search(u, key, cmp).data == Entries(t)[Position(t, key, cmp) + 1].data)
  {
    RemoveEntries(t, key, cmp);
    RemoveSorted(t, key, cmp);
    var es, i, two := Entries(t), Position(t, key, cmp), TwoChildren(Search(t, key, cmp));
    SearchAfter(es, Remove(t, key, cmp), i, two, key, cmp);
  }

  lemma {:induction false} SearchAfter<K(!new), D, R>(es: seq<Entry<K, D, R>>, u: Tree<K, D, R>, i: nat, two: bool,
                                                      key: K, cmp: (K, K) -> int)
    requires Comparator(cmp) && StrictlySorted(es, cmp)
    requires (if two then i + 1 < |es| else i < |es|) && cmp(es[i].key, key) == 0
    requires Entries(u) == Without(es, i, two) && KeysSorted(Entries(u), cmp)
    ensures Search(u, key, cmp).Nil? <==> !two
    ensures two ==> Search(u, key, cmp).data == es[i + 1].data
  {
    if Search(u, key, cmp).Nil? {
      SearchComplete(u, key, cmp);
      if two { MatchesWithout(es, i, two, key, cmp, i); }
    } else {
      SearchPosition(u, key, cmp);
      var j := Position(u, key, cmp);
      MatchesWithout(es, i, two, key, cmp, j);
      WithoutKey(es, i, two, j);
    }
  }

  function Difference(a: int, b: int): int {
    a - b
  }

  // A tree of three nodes from which key 2 cannot be removed.
  lemma {:induction false} RemovedKeyStillFound() returns (t: Tree<int, string, int>)
    ensures Balanced(t) && Comparator(Difference) && KeysSorted(Entries(t), Difference)
    ensures Search(Remove(t, 2, Difference), 2, Difference).Node?
    ensures Search(Remove(t, 2, Difference), 3, Difference).Nil?
  {
    var l: Tree<int, string, int> := Node(1, 1, 1, "a", Nil, Nil);
    var r: Tree<int, string, int> := Node(2, 1, 3, "c", Nil, Nil);
    t := Node(0, 2, 2, "b", l, r);
    assert Entries(t) == [Entry(1, 1, "a"), Entry(0, 2, "b"), Entry(2, 3, "c")];
    var v := t.(data := "c", right := Nil);
    assert Remove(t, 2, Difference) == Rebalance(v);
    assert Rebalance(v) == l.(right := v.(level := 1, left := Nil));
  }

  // ------------------------------------------------------------ height bound

  lemma {:induction false} HeightBound<K, D, R>(t: Tree<K, D, R>)
    requires Balanced(t)
    ensures Level(t) >= 0 && Height(t) <= 2 * Level(t)
    ensures Level(RightOf(t)) < Level(t) ==> Height(t) <= 2 * Level(t) - 1
    ensures Size(t) >= Pow2(Level(t)) - 1
  {
    LevelNonNegative(t);
    if t.Node? {
      HeightBound(t.left);
      HeightBound(t.right);
      if Level(t.right) == t.level { Pow2Monotone(t.level - 1, t.level); }
    }
  }

  lemma {:induction false} Pow2Monotone(m: nat, n: nat)
    requires m <= n
    ensures Pow2(m) <= Pow2(n)
  {
    if m < n { Pow2Monotone(m, n - 1); }
  }

  lemma {:induction false} Pow2Of32()
    ensures Pow2(32) == 0x1_0000_0000
  {
    assert Pow2(8) == 256;
    assert Pow2(16) == 256 * Pow2(8);
    assert Pow2(24) == 256 * Pow2(16);
  }

  const MAX_HEIGHT := 64

  // No walk in a tree a 32-bit machine can hold fills the path array.
  lemma {:induction false} PathFits<K, D, R>(t: Tree<K, D, R>)
    requires Balanced(t) && Size(t) < 0xFFFF_FFFF
    ensures Height(t) + 2 <= MAX_HEIGHT
  {
    HeightBound(t);
    if Level(t) >= 32 {
      Pow2Monotone(32, Level(t));
      Pow2Of32();
    }
  }
}
