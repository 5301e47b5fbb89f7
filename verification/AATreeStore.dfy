// The pointer-rewriting code of sys/container/atree.c.  Every method is proved
// to compute the functions of AATree.dfy: rotations rewrite links in place, and
// insertion and removal walk down with an explicit path array of 64 entries and
// repair the tree on the way back up.

module AATreeStore {
  import opened AATree
  import opened Common

  class AtreeNode<K, D> {
    var key: K
    var data: D
    var level: int
    var left: AtreeNode<K, D>
    var right: AtreeNode<K, D>

    // The sentinel: level 0, both links to itself.
    constructor Sentinel(key: K, data: D)
      ensures IsSentinel(this)
    {
      this.key, this.data, level := key, data, 0;
      left, right := this, this;
    }

    constructor Leaf(key: K, data: D, nil: AtreeNode<K, D>)
      ensures this.key == key && this.data == data && level == 1 && left == nil && right == nil
    {
      this.key, this.data, level := key, data, 1;
      left, right := nil, nil;
    }
  }

  type Shape<K, D> = Tree<K, D, AtreeNode<K, D>>

  ghost predicate IsSentinel<K, D>(nil: AtreeNode<K, D>)
    reads nil
  {
    nil.level == 0 && nil.left == nil && nil.right == nil
  }

  ghost function NodesOf<K, D>(t: Shape<K, D>): set<AtreeNode<K, D>> {
    if t.Nil? then {} else {t.ref} + NodesOf(t.left) + NodesOf(t.right)
  }

  // The nodes reachable from n are those of t, linked and labelled as in t.
  ghost predicate Linked<K, D>(t: Shape<K, D>, n: AtreeNode<K, D>, nil: AtreeNode<K, D>)
    reads NodesOf(t)
  {
    if t.Nil? then n == nil
    else
      && n == t.ref && n != nil
      && n.level == t.level && n.key == t.key && n.data == t.data
      && Linked(t.left, n.left, nil) && Linked(t.right, n.right, nil)
  }

  ghost function RefSet<K, D>(es: seq<Entry<K, D, AtreeNode<K, D>>>): set<AtreeNode<K, D>> {
    set i | 0 <= i < |es| :: es[i].ref
  }

  lemma {:induction false} RefSetConcat<K, D>(a: seq<Entry<K, D, AtreeNode<K, D>>>,
                                              b: seq<Entry<K, D, AtreeNode<K, D>>>)
    ensures RefSet(a + b) == RefSet(a) + RefSet(b)
  {
    var s := a + b;
    assert forall i :: 0 <= i < |a| ==> a[i].ref == s[i].ref && s[i].ref in RefSet(s);
    assert forall i :: 0 <= i < |b| ==> b[i].ref == s[|a| + i].ref && s[|a| + i].ref in RefSet(s);
    assert forall i :: 0 <= i < |s| ==> s[i] == if i < |a| then a[i] else b[i - |a|];
  }

  lemma {:induction false} NodesAreEntries<K, D>(t: Shape<K, D>)
    ensures NodesOf(t) == RefSet(Entries(t))
  {
    if t.Node? {
      NodesAreEntries(t.left);
      NodesAreEntries(t.right);
      RefSetConcat(Entries(t.left) + [EntryOf(t)], Entries(t.right));
      RefSetConcat(Entries(t.left), [EntryOf(t)]);
      assert RefSet([EntryOf(t)]) == {[EntryOf(t)][0].ref};
    }
  }

  lemma {:induction false} SameNodes<K, D>(t: Shape<K, D>, u: Shape<K, D>)
    requires Rearranged(t, u)
    ensures NodesOf(t) == NodesOf(u)
    ensures Distinct(t) ==> Distinct(u)
  {
    NodesAreEntries(t);
    NodesAreEntries(u);
  }

  lemma {:induction false} NoRefTwiceConcat<K, D>(a: seq<Entry<K, D, AtreeNode<K, D>>>,
                                                  b: seq<Entry<K, D, AtreeNode<K, D>>>)
    requires NoRefTwice(a + b)
    ensures NoRefTwice(a) && NoRefTwice(b) && RefSet(a) !! RefSet(b)
  {
    var s := a + b;
    assert forall i :: 0 <= i < |a| ==> a[i] == s[i];
    assert forall i :: 0 <= i < |b| ==> b[i] == s[|a| + i];
  }

  lemma {:induction false} DistinctParts<K, D>(t: Shape<K, D>)
    requires t.Node? && Distinct(t)
    ensures Distinct(t.left) && Distinct(t.right)
    ensures t.ref !in NodesOf(t.left) && t.ref !in NodesOf(t.right)
    ensures NodesOf(t.left) !! NodesOf(t.right)
  {
    NodesAreEntries(t.left);
    NodesAreEntries(t.right);
    var l, e, r := Entries(t.left), [EntryOf(t)], Entries(t.right);
    assert Entries(t) == l + e + r;
    NoRefTwiceConcat(l + e, r);
    NoRefTwiceConcat(l, e);
    RefSetConcat(l, e);
    assert e[0].ref in RefSet(e);
  }

  // ---------------------------------------------------------------- rotations

  method SkewNode<K, D>(node: AtreeNode<K, D>, nil: AtreeNode<K, D>, ghost t: Shape<K, D>) returns (r: AtreeNode<K, D>)
    requires IsSentinel(nil) && nil !in NodesOf(t) && Distinct(t) && Linked(t, node, nil)
    modifies NodesOf(t)
    ensures Linked(Skew(t), r, nil)
  {
    r := node;
    if t.Node? { DistinctParts(t); }
    if node.left.level == node.level && node.level > 0 {
      DistinctParts(t.left);
      var temp := node.left;
      node.left := temp.right;
      temp.right := node;
      r := temp;
    }
  }

  method SplitNode<K, D>(node: AtreeNode<K, D>, nil: AtreeNode<K, D>, ghost t: Shape<K, D>) returns (r: AtreeNode<K, D>)
    requires IsSentinel(nil) && nil !in NodesOf(t) && Distinct(t) && Linked(t, node, nil)
    modifies NodesOf(t)
    ensures Linked(Split(t), r, nil)
  {
    r := node;
    if t.Node? { DistinctParts(t); }
    assert Linked(RightOf(t), node.right, nil);
    assert Linked(RightOf(RightOf(t)), node.right.right, nil);
    if node.right.right.level == node.level && node.level > 0 {
      DistinctParts(t.right);
      var temp := node.right;
      node.right := temp.left;
      temp.left := node;
      r := temp;
      r.level := r.level + 1;
    }
  }

  // ------------------------------------------------------- the way to a node

  // The nodes passed on the way down: which link was followed at each, and the
  // subtree on the other side.
  datatype Context<K, D> =
    | Top
    | Went(ref: AtreeNode<K, D>, level: int, key: K, data: D, toRight: bool, sibling: Shape<K, D>, up: Context<K, D>)

  ghost function Close<K, D>(c: Context<K, D>, t: Shape<K, D>): Shape<K, D>
    requires c.Went?
  {
    if c.toRight then Node(c.ref, c.level, c.key, c.data, c.sibling, t)
    else Node(c.ref, c.level, c.key, c.data, t, c.sibling)
  }

  ghost function Plug<K, D>(c: Context<K, D>, t: Shape<K, D>): Shape<K, D> {
    if c.Top? then t else Plug(c.up, Close(c, t))
  }

  ghost function Down<K, D>(t: Shape<K, D>, toRight: bool, c: Context<K, D>): Context<K, D>
    requires t.Node?
  {
    Went(t.ref, t.level, t.key, t.data, toRight, if toRight then t.left else t.right, c)
  }

  ghost function ContextNodes<K, D>(c: Context<K, D>): set<AtreeNode<K, D>> {
    if c.Top? then {} else {c.ref} + NodesOf(c.sibling) + ContextNodes(c.up)
  }

  ghost function Path<K, D>(c: Context<K, D>): seq<AtreeNode<K, D>> {
    if c.Top? then [] else Path(c.up) + [c.ref]
  }

  // The heap holds the context, and its innermost open link points at `hole`.
  ghost predicate ContextLinked<K, D>(c: Context<K, D>, hole: AtreeNode<K, D>, nil: AtreeNode<K, D>)
    reads ContextNodes(c)
  {
    c.Went? ==>
      && c.ref != nil
      && c.ref.level == c.level && c.ref.key == c.key && c.ref.data == c.data
      && (if c.toRight then c.ref.right else c.ref.left) == hole
      && Linked(c.sibling, if c.toRight then c.ref.left else c.ref.right, nil)
      && ContextLinked(c.up, c.ref, nil)
  }

  lemma {:induction false} PlugRearranged<K, D>(c: Context<K, D>, t: Shape<K, D>, u: Shape<K, D>)
    requires Rearranged(t, u)
    ensures Rearranged(Plug(c, t), Plug(c, u))
  {
    if c.Went? { PlugRearranged(c.up, Close(c, t), Close(c, u)); }
  }

  lemma {:induction false} PlugHeight<K, D>(c: Context<K, D>, t: Shape<K, D>)
    ensures |Path(c)| + Height(t) <= Height(Plug(c, t))
  {
    if c.Went? { PlugHeight(c.up, Close(c, t)); }
  }

  lemma {:induction false} PlugDistinct<K, D>(c: Context<K, D>, t: Shape<K, D>)
    requires Distinct(Plug(c, t))
    ensures Distinct(t) && NodesOf(t) !! ContextNodes(c)
    ensures c.Went? ==>
      c.ref !in ContextNodes(c.up) && c.ref !in NodesOf(c.sibling) && NodesOf(c.sibling) !! ContextNodes(c.up)
    ensures NodesOf(Plug(c, t)) == NodesOf(t) + ContextNodes(c)
  {
    if c.Went? {
      PlugDistinct(c.up, Close(c, t));
      DistinctParts(Close(c, t));
    }
  }

  // ------------------------------------------------------------ the way back

  ghost function ClimbInsert<K, D>(c: Context<K, D>, t: Shape<K, D>): Shape<K, D> {
    if c.Top? then t else ClimbInsert(c.up, Split(Skew(Close(c, t))))
  }

  ghost function ClimbRemove<K, D>(c: Context<K, D>, t: Shape<K, D>): Shape<K, D> {
    if c.Top? then t else ClimbRemove(c.up, Rebalance(Close(c, t)))
  }

  // The right child is replaced by its skewed subtree; the sentinel may be written, but
  // keeps its links.
  method SkewRight<K, D>(node: AtreeNode<K, D>, nil: AtreeNode<K, D>, ghost t: Shape<K, D>)
    requires IsSentinel(nil) && nil !in NodesOf(t) && Distinct(t) && Linked(t, node, nil)
    modifies NodesOf(t), nil
    ensures IsSentinel(nil)
    ensures Linked(SetRight(t, Skew(RightOf(t))), node, nil)
  {
    if t.Node? { DistinctParts(t); }
    SkewRearranges(RightOf(t));
    SameNodes(RightOf(t), Skew(RightOf(t)));
    assert t.Node? ==> allocated(NodesOf(t.left)) && Linked(t.left, node.left, nil);
    var r := SkewNode(node.right, nil, RightOf(t));
    assert t.Node? ==> Linked(t.left, node.left, nil);
    node.right := r;
  }

  method SplitRight<K, D>(node: AtreeNode<K, D>, nil: AtreeNode<K, D>, ghost t: Shape<K, D>)
    requires IsSentinel(nil) && nil !in NodesOf(t) && Distinct(t) && Linked(t, node, nil)
    modifies NodesOf(t), nil
    ensures IsSentinel(nil)
    ensures Linked(SetRight(t, Split(RightOf(t))), node, nil)
  {
    if t.Node? { DistinctParts(t); }
    SplitRearranges(RightOf(t));
    SameNodes(RightOf(t), Split(RightOf(t)));
    assert t.Node? ==> allocated(NodesOf(t.left)) && Linked(t.left, node.left, nil);
    var r := SplitNode(node.right, nil, RightOf(t));
    assert t.Node? ==> Linked(t.left, node.left, nil);
    node.right := r;
  }

  method SkewThreeNodes<K, D>(node: AtreeNode<K, D>, nil: AtreeNode<K, D>, ghost t: Shape<K, D>)
      returns (up: AtreeNode<K, D>)
    requires IsSentinel(nil) && nil !in NodesOf(t) && Distinct(t) && Linked(t, node, nil) && t.Node?
    modifies NodesOf(t), nil
    ensures IsSentinel(nil)
    ensures Linked(SkewThree(t), up, nil)
  {
    ghost var a := Skew(t);
    SkewRearranges(t);
    SameNodes(t, a);
    up := SkewNode(node, nil, t);

    ghost var b := SetRight(a, Skew(RightOf(a)));
    SkewRearranges(RightOf(a));
    SetRightRearranges(a, Skew(RightOf(a)));
    SameNodes(a, b);
    SkewRight(up, nil, a);

    DistinctParts(b);
    assert allocated(NodesOf(b.left)) && Linked(b.left, up.left, nil);
    SkewRight(up.right, nil, b.right);
    assert Linked(b.left, up.left, nil);
  }

  method SplitTwoNodes<K, D>(node: AtreeNode<K, D>, nil: AtreeNode<K, D>, ghost t: Shape<K, D>)
      returns (up: AtreeNode<K, D>)
    requires IsSentinel(nil) && nil !in NodesOf(t) && Distinct(t) && Linked(t, node, nil)
    modifies NodesOf(t), nil
    ensures IsSentinel(nil)
    ensures Linked(SplitTwo(t), up, nil)
  {
    SplitRearranges(t);
    SameNodes(t, Split(t));
    up := SplitNode(node, nil, t);
    SplitRight(up, nil, Split(t));
  }

  // The level of a node, and of its right child if that is higher, goes down by one.
  method LowerNode<K, D>(node: AtreeNode<K, D>, nil: AtreeNode<K, D>, ghost t: Shape<K, D>)
    requires IsSentinel(nil) && nil !in NodesOf(t) && Distinct(t) && Linked(t, node, nil)
    requires t.Node? && t.level >= 1
    modifies NodesOf(t)
    ensures Linked(Lower(t), node, nil)
  {
    DistinctParts(t);
    if t.right.Node? { DistinctParts(t.right); }
    node.level := node.level - 1;
    if node.right.level > node.level {
      node.right.level := node.level;
    }
  }

  // The repair of one node on the way back from a removal.
  method RebalanceNode<K, D>(node: AtreeNode<K, D>, nil: AtreeNode<K, D>, ghost t: Shape<K, D>)
      returns (up: AtreeNode<K, D>)
    requires IsSentinel(nil) && nil !in NodesOf(t) && Distinct(t) && Linked(t, node, nil)
    requires t.Node? && t.level >= 1
    modifies NodesOf(t), nil
    ensures IsSentinel(nil)
    ensures Linked(Rebalance(t), up, nil)
  {
    up := node;
    assert Linked(t.left, up.left, nil) && Linked(t.right, up.right, nil);
    if up.left.level < up.level - 1 || up.right.level < up.level - 1 {
      ghost var a := Lower(t);
      assert Rearranged(t, a);
      SameNodes(t, a);
      SkewThreeRearranges(a);
      SameNodes(a, SkewThree(a));
      LowerNode(up, nil, t);
      up := SkewThreeNodes(up, nil, a);
      up := SplitTwoNodes(up, nil, SkewThree(a));
    }
  }

  // Every link of the context was chosen by comparing with `key`.
  ghost predicate Follows<K, D>(c: Context<K, D>, key: K, cmp: (K, K) -> int) {
    c.Went? ==> c.toRight == (cmp(c.key, key) < 0) && Follows(c.up, key, cmp)
  }

  lemma {:induction false} ClimbInsertPlug<K, D>(c: Context<K, D>, t: Shape<K, D>, key: K, data: D,
                                                 ref: AtreeNode<K, D>, cmp: (K, K) -> int)
    requires Follows(c, key, cmp)
    ensures ClimbInsert(c, Insert(t, key, data, ref, cmp)) == Insert(Plug(c, t), key, data, ref, cmp)
  {
    if c.Went? { ClimbInsertPlug(c.up, Close(c, t), key, data, ref, cmp); }
  }

  lemma {:induction false} ClimbInsertRearranges<K, D>(c: Context<K, D>, t: Shape<K, D>)
    ensures Rearranged(Plug(c, t), ClimbInsert(c, t))
  {
    if c.Went? {
      var u := Close(c, t);
      SkewRearranges(u);
      SplitRearranges(Skew(u));
      ClimbInsertRearranges(c.up, Split(Skew(u)));
      PlugRearranged(c.up, u, Split(Skew(u)));
    }
  }

  lemma {:induction false} RefSetSplice<K, D>(es: seq<Entry<K, D, AtreeNode<K, D>>>, i: nat,
                                              e: Entry<K, D, AtreeNode<K, D>>)
    requires i <= |es|
    ensures RefSet(Splice(es, i, 0, [e])) == RefSet(es) + {e.ref}
  {
    RefSetConcat(es[..i] + [e], es[i..]);
    RefSetConcat(es[..i], [e]);
    RefSetConcat(es[..i], es[i..]);
    assert es == es[..i] + es[i..];
    assert RefSet([e]) == {[e][0].ref};
  }

  lemma {:induction false} NoRefTwiceSplice<K, D>(es: seq<Entry<K, D, AtreeNode<K, D>>>, i: nat,
                                                  e: Entry<K, D, AtreeNode<K, D>>)
    requires i <= |es| && NoRefTwice(es) && e.ref !in RefSet(es)
    ensures NoRefTwice(Splice(es, i, 0, [e]))
  {
    var s := Splice(es, i, 0, [e]);
    assert forall j :: 0 <= j < |es| ==> es[j].ref in RefSet(es);
    assert forall j :: 0 <= j < |s| ==> s[j] == if j < i then es[j] else if j == i then e else es[j - 1];
  }

  lemma {:induction false} InsertKeeps<K(!new), D>(t: Shape<K, D>, key: K, data: D, ref: AtreeNode<K, D>,
                                                   cmp: (K, K) -> int)
    requires Comparator(cmp) && Balanced(t) && KeysSorted(Entries(t), cmp) && Distinct(t) && ref !in NodesOf(t)
    ensures var u := Insert(t, key, data, ref, cmp);
      && Balanced(u) && KeysSorted(Entries(u), cmp) && Distinct(u)
      && NodesOf(u) == NodesOf(t) + {ref} && Size(u) == Size(t) + 1
  {
    InsertBalanced(t, key, data, ref, cmp);
    InsertSorted(t, key, data, ref, cmp);
    InsertNodes(t, key, data, ref, cmp);
  }

  lemma {:induction false} InsertNodes<K, D>(t: Shape<K, D>, key: K, data: D, ref: AtreeNode<K, D>, cmp: (K, K) -> int)
    requires Distinct(t) && ref !in NodesOf(t)
    ensures var u := Insert(t, key, data, ref, cmp);
      Distinct(u) && NodesOf(u) == NodesOf(t) + {ref} && Size(u) == Size(t) + 1
  {
    var u := Insert(t, key, data, ref, cmp);
    InsertEntries(t, key, data, ref, cmp);
    NodesAreEntries(t);
    NodesAreEntries(u);
    NoRefTwiceSplice(Entries(t), InsertPosition(t, key, cmp), Entry(ref, key, data));
    RefSetSplice(Entries(t), InsertPosition(t, key, cmp), Entry(ref, key, data));
    SizeIsEntries(t);
    SizeIsEntries(u);
  }

  // Hanging a new node into the open link keeps all nodes apart.
  lemma {:induction false} NewLeaf<K, D>(c: Context<K, D>, key: K, data: D, ref: AtreeNode<K, D>, cmp: (K, K) -> int)
    requires Follows(c, key, cmp) && Distinct(Plug(c, Nil)) && ref !in NodesOf(Plug(c, Nil))
    ensures ClimbInsert(c, Node(ref, 1, key, data, Nil, Nil)) == Insert(Plug(c, Nil), key, data, ref, cmp)
    ensures Distinct(Plug(c, Node(ref, 1, key, data, Nil, Nil)))
  {
    ClimbInsertPlug(c, Nil, key, data, ref, cmp);
    ClimbInsertRearranges(c, Node(ref, 1, key, data, Nil, Nil));
    InsertNodes(Plug(c, Nil), key, data, ref, cmp);
  }

  // What holds of the heap on the way down and back: the part below `hole` is
  // t, the part above is c, and no node occurs twice.
  ghost predicate Walking<K, D>(c: Context<K, D>, t: Shape<K, D>, hole: AtreeNode<K, D>, nil: AtreeNode<K, D>)
    reads nil, NodesOf(t), ContextNodes(c)
  {
    && IsSentinel(nil) && nil !in NodesOf(t) && nil !in ContextNodes(c)
    && Distinct(Plug(c, t))
    && Linked(t, hole, nil)
    && ContextLinked(c, hole, nil)
  }

  // Closing one frame and rearranging the result keeps the nodes and their order.
  lemma {:induction false} ClimbStep<K, D>(c: Context<K, D>, t: Shape<K, D>, u: Shape<K, D>)
    requires c.Went? && Distinct(Plug(c, t)) && Rearranged(Close(c, t), u)
    ensures Rearranged(Plug(c, t), Plug(c.up, u)) && Distinct(Plug(c.up, u))
    ensures Distinct(Close(c, t)) && Distinct(u)
    ensures NodesOf(u) == NodesOf(Close(c, t)) == NodesOf(t) + {c.ref} + NodesOf(c.sibling)
    ensures NodesOf(u) !! ContextNodes(c.up)
  {
    PlugRearranged(c.up, Close(c, t), u);
    SameNodes(Plug(c, t), Plug(c.up, u));
    SameNodes(Close(c, t), u);
    PlugDistinct(c.up, u);
    PlugDistinct(c.up, Close(c, t));
  }

  method RepairInsert<K, D>(node: AtreeNode<K, D>, nil: AtreeNode<K, D>, hole: AtreeNode<K, D>,
                            ghost c: Context<K, D>, ghost t: Shape<K, D>) returns (r: AtreeNode<K, D>)
    requires c.Went? && node == c.ref && Walking(c, t, hole, nil)
    modifies NodesOf(t), node, NodesOf(c.sibling)
    ensures ContextLinked(c.up, node, nil)
    ensures Linked(Split(Skew(Close(c, t))), r, nil)
  {
    ghost var u := Close(c, t);
    ClimbStep(c, t, u);
    PlugDistinct(c, t);
    assert allocated(ContextNodes(c.up)) && ContextLinked(c.up, node, nil);
    SkewRearranges(u);
    SameNodes(u, Skew(u));
    r := SkewNode(node, nil, u);
    r := SplitNode(r, nil, Skew(u));
  }

  // A node of the path is linked to the next one, on the side the walk took.
  method Relink<K, D>(parent: AtreeNode<K, D>, toRight: bool, node: AtreeNode<K, D>, nil: AtreeNode<K, D>,
                      ghost c: Context<K, D>, ghost t: Shape<K, D>, ghost hole: AtreeNode<K, D>)
    requires c.Went? && parent == c.ref && toRight == c.toRight
    requires Distinct(Plug(c, t)) && Linked(t, node, nil) && ContextLinked(c, hole, nil)
    modifies parent
    ensures Linked(t, node, nil) && ContextLinked(c, node, nil)
  {
    PlugDistinct(c, t);
    if toRight { parent.right := node; } else { parent.left := node; }
  }

  lemma {:induction false} PathEnd<K, D>(c: Context<K, D>, path: seq<AtreeNode<K, D>>)
    requires c.Went? && path == Path(c)
    ensures |path| > 0 && path[|path| - 1] == c.ref && path[..|path| - 1] == Path(c.up)
    ensures |path| == 1 <==> c.up.Top?
    ensures |path| > 1 ==> path[|path| - 2] == c.up.ref
  {
    assert path == Path(c.up) + [c.ref];
    if c.up.Went? {
      assert Path(c.up) == Path(c.up.up) + [c.up.ref];
    }
  }

  // Comparing the right link tells which way was taken.
  lemma {:induction false} Direction<K, D>(c: Context<K, D>, child: AtreeNode<K, D>, nil: AtreeNode<K, D>)
    requires c.Went? && child != nil && child !in NodesOf(c.sibling)
    requires ContextLinked(c, child, nil)
    ensures c.toRight <==> c.ref.right == child
  {
  }

  // Following a link moves one node from the part below into the part above.
  lemma {:induction false} StepDown<K, D>(c: Context<K, D>, s: Shape<K, D>, node: AtreeNode<K, D>,
                                          nil: AtreeNode<K, D>, toRight: bool)
    requires s.Node? && Walking(c, s, node, nil)
    ensures Plug(Down(s, toRight, c), if toRight then s.right else s.left) == Plug(c, s)
    ensures Walking(Down(s, toRight, c), if toRight then s.right else s.left,
                    if toRight then node.right else node.left, nil)
    ensures Path(Down(s, toRight, c)) == Path(c) + [node]
    ensures |Path(c)| + Height(s) <= Height(Plug(c, s))
  {
    PlugHeight(c, s);
    assert Close(Down(s, toRight, c), if toRight then s.right else s.left) == s;
  }

  // --------------------------------------------------------- removal, walking

  ghost predicate Levels<K, D>(c: Context<K, D>) {
    c.Went? ==> c.level >= 1 && Levels(c.up)
  }

  lemma {:induction false} ClimbRemoveRearranges<K, D>(c: Context<K, D>, t: Shape<K, D>)
    ensures Rearranged(Plug(c, t), ClimbRemove(c, t))
  {
    if c.Went? {
      var u := Close(c, t);
      RebalanceRearranges(u);
      ClimbRemoveRearranges(c.up, Rebalance(u));
      PlugRearranged(c.up, u, Rebalance(u));
    }
  }

  lemma {:induction false} NoRefTwiceWithout<K, D>(es: seq<Entry<K, D, AtreeNode<K, D>>>, i: nat, two: bool)
    requires NoRefTwice(es) && (if two then i + 1 < |es| else i < |es|)
    ensures NoRefTwice(Without(es, i, two)) && RefSet(Without(es, i, two)) <= RefSet(es)
  {
    var es' := Without(es, i, two);
    assert forall j :: 0 <= j < |es'| ==> es'[j].ref == es[if j <= i && (two || j < i) then j else j + 1].ref;
  }

  // Removal frees exactly one of the nodes and keeps the others apart.
  lemma {:induction false} RemoveNodes<K, D>(t: Shape<K, D>, key: K, cmp: (K, K) -> int)
    requires Distinct(t) && Search(t, key, cmp).Node?
    ensures var u := Remove(t, key, cmp);
      Distinct(u) && NodesOf(u) <= NodesOf(t) && Size(u) == Size(t) - 1
  {
    var u := Remove(t, key, cmp);
    RemoveEntries(t, key, cmp);
    NodesAreEntries(t);
    NodesAreEntries(u);
    SizeIsEntries(t);
    SizeIsEntries(u);
    NoRefTwiceWithout(Entries(t), Position(t, key, cmp), TwoChildren(Search(t, key, cmp)));
  }

  lemma {:induction false} RemoveKeeps<K(!new), D>(t: Shape<K, D>, key: K, cmp: (K, K) -> int)
    requires Comparator(cmp) && Balanced(t) && KeysSorted(Entries(t), cmp) && Distinct(t)
    ensures var u := Remove(t, key, cmp);
      && Balanced(u) && KeysSorted(Entries(u), cmp) && Distinct(u) && NodesOf(u) <= NodesOf(t)
      && Size(u) == Size(t) - (if Search(t, key, cmp).Node? then 1 else 0)
      && (Search(t, key, cmp).Nil? ==> u == t)
  {
    RemoveBalanced(t, key, cmp);
    RemoveSorted(t, key, cmp);
    if Search(t, key, cmp).Node? { RemoveNodes(t, key, cmp); } else { RemoveAbsent(t, key, cmp); }
  }

  // The context `low`, hung into the open link of c.
  ghost function Join<K, D>(low: Context<K, D>, c: Context<K, D>): Context<K, D> {
    if low.Top? then c else low.(up := Join(low.up, c))
  }

  // The node at the outermost end of `low`.
  ghost function Outermost<K, D>(low: Context<K, D>, hole: AtreeNode<K, D>): AtreeNode<K, D> {
    if low.Top? then hole else Outermost(low.up, low.ref)
  }

  lemma {:induction false} Joined<K, D>(low: Context<K, D>, c: Context<K, D>, t: Shape<K, D>)
    ensures Plug(Join(low, c), t) == Plug(c, Plug(low, t))
    ensures Path(Join(low, c)) == Path(c) + Path(low)
    ensures ClimbRemove(Join(low, c), t) == ClimbRemove(c, ClimbRemove(low, t))
    ensures ContextNodes(Join(low, c)) == ContextNodes(low) + ContextNodes(c)
    ensures Levels(low) && Levels(c) ==> Levels(Join(low, c))
  {
    if low.Went? {
      Joined(low.up, c, Close(low, t));
      Joined(low.up, c, Rebalance(Close(low, t)));
    }
  }

  lemma {:induction false} JoinedLinked<K, D>(low: Context<K, D>, c: Context<K, D>, hole: AtreeNode<K, D>,
                                              nil: AtreeNode<K, D>)
    requires ContextLinked(low, hole, nil) && ContextLinked(c, Outermost(low, hole), nil)
    ensures ContextLinked(Join(low, c), hole, nil)
  {
    if low.Went? { JoinedLinked(low.up, c, low.ref, nil); }
  }

  // The context that is left when the heir has been taken out.
  lemma {:induction false} HeirContext<K, D>(c: Context<K, D>, s: Shape<K, D>, low: Context<K, D>, h: Shape<K, D>)
    requires s.Node? && TwoChildren(s) && ToHeir(s.right, low, h) && h.left.Nil?
    requires Distinct(Plug(c, s)) && Distinct(ClimbRemove(c, RemoveNode(s)))
    requires Levels(c) && s.level >= 1
    ensures var all := Join(low, Down(s.(data := h.data), true, c));
      && Distinct(Plug(all, h.right)) && Levels(all)
      && Path(all) == Path(c) + [s.ref] + Path(low)
      && ClimbRemove(all, h.right) == ClimbRemove(c, RemoveNode(s))
      && NodesOf(h.right) + ContextNodes(all) <= NodesOf(Plug(c, s))
  {
    var frame := Down(s.(data := h.data), true, c);
    Joined(low, frame, h.right);
    ClimbRemoveRearranges(Join(low, frame), h.right);
    PlugDistinct(c, s);
    DistinctParts(s);
    PlugDistinct(low, h);
  }

  lemma {:induction false} HeirNodes<K, D>(c: Context<K, D>, s: Shape<K, D>, low: Context<K, D>, h: Shape<K, D>)
    requires TwoChildren(s) && ToHeir(s.right, low, h) && Distinct(Plug(c, s))
    ensures s.ref in NodesOf(Plug(c, s)) && h.ref in NodesOf(Plug(c, s))
    ensures low.Went? ==> low.ref in NodesOf(Plug(c, s))
  {
    PlugDistinct(c, s);
    DistinctParts(s);
    PlugDistinct(low, h);
  }

  lemma {:induction false} HeirApart<K, D>(low: Context<K, D>, h: Shape<K, D>, all: Context<K, D>)
    requires Distinct(Plug(low, h)) && h.Node? && Distinct(Plug(all, h.right))
    ensures NodesOf(h.right) !! ContextNodes(all) && h.ref !in NodesOf(h.right)
  {
    PlugDistinct(low, h);
    DistinctParts(h);
    PlugDistinct(all, h.right);
  }

  // On the way from t to its heir, low has been passed and h is left.
  ghost predicate ToHeir<K, D>(t: Shape<K, D>, low: Context<K, D>, h: Shape<K, D>) {
    && t.Node? && h.Node? && Balanced(h) && Plug(low, h) == t && Levels(low) && (low.Went? ==> !low.toRight)
    && Heir(t) == Heir(h) && ClimbRemove(low, RemoveHeir(h)) == RemoveHeir(t)
  }

  lemma {:induction false} ToHeirStep<K, D>(t: Shape<K, D>, low: Context<K, D>, h: Shape<K, D>)
    requires ToHeir(t, low, h)
    ensures h.left.Node? ==> ToHeir(t, Down(h, false, low), h.left)
  {
    LevelNonNegative(h);
    assert Close(Down(h, false, low), h.left) == h;
  }

  method RepairRemove<K, D>(node: AtreeNode<K, D>, nil: AtreeNode<K, D>, hole: AtreeNode<K, D>,
                            ghost c: Context<K, D>, ghost t: Shape<K, D>) returns (r: AtreeNode<K, D>)
    requires c.Went? && node == c.ref && c.level >= 1 && Walking(c, t, hole, nil)
    modifies NodesOf(t), node, NodesOf(c.sibling), nil
    ensures IsSentinel(nil) && ContextLinked(c.up, node, nil)
    ensures Linked(Rebalance(Close(c, t)), r, nil)
  {
    ghost var u := Close(c, t);
    ClimbStep(c, t, u);
    PlugDistinct(c, t);
    assert allocated(ContextNodes(c.up)) && ContextLinked(c.up, node, nil);
    r := RebalanceNode(node, nil, u);
  }

  // ---------------------------------------------------------------- the tree

  class Atree<K(!new), D> {
    var root: AtreeNode<K, D>
    const nil: AtreeNode<K, D>
    const comparison: (K, K) -> int
    var nodes: nat
    ghost var model: Shape<K, D>

    ghost predicate Valid()
      reads this, nil, NodesOf(model)
    {
      && Linked(model, root, nil) && IsSentinel(nil) && nil !in NodesOf(model)
      && Distinct(model) && Balanced(model)
      && Comparator(comparison) && KeysSorted(Entries(model), comparison)
      && nodes == Size(model)
    }

    constructor (comparator: (K, K) -> int, nullKey: K, nullData: D)
      requires Comparator(comparator)
      ensures Valid() && model == Nil && comparison == comparator
      ensures fresh(nil)
    {
      var sentinel := new AtreeNode.Sentinel(nullKey, nullData);
      root, nil := sentinel, sentinel;
      comparison, nodes, model := comparator, 0, Nil;
    }

    method Find(key: K) returns (r: Option<D>)
      requires Valid()
      ensures r.None? <==> Search(model, key, comparison).Nil?
      ensures r.Some? ==> r.value == Search(model, key, comparison).data
      ensures r.Some? ==>
        exists i ::
          && 0 <= i < |Entries(model)| && Entries(model)[i].data == r.value
          && comparison(Entries(model)[i].key, key) == 0
      ensures r.None? ==> forall i :: 0 <= i < |Entries(model)| ==> comparison(Entries(model)[i].key, key) != 0
    {
      if Search(model, key, comparison).Nil? {
        SearchComplete(model, key, comparison);
      } else {
        SearchPosition(model, key, comparison);
      }
      var node := root;
      ghost var s := model;
      while node != nil
        invariant Linked(s, node, nil) && Search(s, key, comparison) == Search(model, key, comparison)
        decreases s
      {
        var result := comparison(node.key, key);
        if result == 0 {
          return Some(node.data);
        }
        if result < 0 {
          node, s := node.right, s.right;
        } else {
          node, s := node.left, s.left;
        }
      }
      return None;
    }
  
    // One turn of the repair loop after an insertion, at path[top].
    method StepFromInsert(path: array<AtreeNode<K, D>>, top: nat, below: AtreeNode<K, D>, ghost c: Context<K, D>,
                          ghost t: Shape<K, D>)
      returns (node: AtreeNode<K, D>)
      requires top < path.Length && path[..top + 1] == Path(c)
      requires c.Went? && Walking(c, t, below, nil)
      modifies path, `root, NodesOf(t), ContextNodes(c)
      ensures path[..top] == Path(c.up) && Walking(c.up, Split(Skew(Close(c, t))), node, nil)
      ensures top == 0 ==> root == node
    {
      ghost var u := Split(Skew(Close(c, t)));
      SkewRearranges(Close(c, t));
      SplitRearranges(Skew(Close(c, t)));
      ClimbStep(c, t, u);
      var parent, toRight := ParentLink(path, top, below, c, t);
      node := RepairInsert(path[top], nil, below, c, t);
      path[top] := node;
      Reattach(top, parent, toRight, node, c.up, u, c.ref);
    }

    // The repaired part is hung into its parent, or becomes the root.
    method Reattach(top: nat, parent: AtreeNode<K, D>, toRight: bool, node: AtreeNode<K, D>,
                    ghost c: Context<K, D>, ghost t: Shape<K, D>, ghost hole: AtreeNode<K, D>)
      requires top == 0 <==> c.Top?
      requires c.Went? ==> parent == c.ref && toRight == c.toRight
      requires IsSentinel(nil) && nil !in NodesOf(t) && nil !in ContextNodes(c) && Distinct(Plug(c, t))
      requires Linked(t, node, nil) && ContextLinked(c, hole, nil)
      modifies `root, ContextNodes(c)
      ensures Walking(c, t, node, nil)
      ensures top == 0 ==> root == node
    {
      if top != 0 {
        Relink(parent, toRight, node, nil, c, t, hole);
      } else {
        root := node;
      }
    }

    // The parent of path[top], and which of its links leads there.
    method ParentLink(path: array<AtreeNode<K, D>>, top: nat, below: AtreeNode<K, D>, ghost c: Context<K, D>,
                      ghost t: Shape<K, D>)
      returns (parent: AtreeNode<K, D>, toRight: bool)
      requires top < path.Length && path[..top + 1] == Path(c) && c.Went? && Walking(c, t, below, nil)
      ensures path[top] == c.ref && path[..top] == Path(c.up) && (top == 0 <==> c.up.Top?)
      ensures top != 0 ==> parent == path[top - 1] == c.up.ref && toRight == c.up.toRight
      ensures Walking(c, t, below, nil)
    {
      PathEnd(c, path[..top + 1]);
      assert path[..top + 1][..top] == path[..top];
      parent, toRight := path[top], false;
      if top != 0 {
        ClimbStep(c, t, Close(c, t));
        PlugDistinct(c.up, Close(c, t));
        parent := path[top - 1];
        Direction(c.up, path[top], nil);
        toRight := parent.right == path[top];
      }
    }

    // Repairs the path after an insertion; the innermost open link of c points at `hole`.
    method ClimbFromInsert(path: array<AtreeNode<K, D>>, length: nat, hole: AtreeNode<K, D>, ghost c0: Context<K, D>,
                           ghost t0: Shape<K, D>)
      requires length <= path.Length && path[..length] == Path(c0)
      requires Walking(c0, t0, hole, nil) && c0.Went?
      modifies path, `root, NodesOf(t0), ContextNodes(c0)
      ensures IsSentinel(nil) && Linked(ClimbInsert(c0, t0), root, nil)
    {
      var top := length;
      var below := hole;
      ghost var c, t := c0, t0;
      while top > 0
        invariant 0 <= top <= length && path[..top] == Path(c)
        invariant Walking(c, t, below, nil)
        invariant ClimbInsert(c, t) == ClimbInsert(c0, t0)
        invariant NodesOf(t) + ContextNodes(c) <= NodesOf(t0) + ContextNodes(c0)
        invariant c.Top? ==> root == below
      {
        top := top - 1;
        ghost var u := Split(Skew(Close(c, t)));
        SkewRearranges(Close(c, t));
        SplitRearranges(Skew(Close(c, t)));
        ClimbStep(c, t, u);
        below := StepFromInsert(path, top, below, c, t);
        c, t := c.up, u;
      }
      assert |Path(c)| == 0 && c.Top?;
    }
  
    // Walks to the link where `key` belongs, recording the nodes passed.
    method DescendToInsert(key: K, path: array<AtreeNode<K, D>>)
        returns (node: AtreeNode<K, D>, top: nat, toRight: bool, ghost c: Context<K, D>)
      requires model.Node? && Walking(Top, model, root, nil)
      requires Height(model) + 2 <= path.Length
      modifies path
      ensures 0 < top <= path.Length && path[..top] == Path(c)
      ensures c.Went? && c.ref == node && c.toRight == toRight
      ensures Plug(c, Nil) == model && Follows(c, key, comparison)
      ensures Walking(c, Nil, nil, nil)
    {
      node, top, c := root, 0, Top;
      ghost var s := model;
      while true
        invariant s.Node? && Walking(c, s, node, nil)
        invariant Plug(c, s) == model && Follows(c, key, comparison)
        invariant top <= path.Length && path[..top] == Path(c)
        decreases s
      {
        StepDown(c, s, node, nil, comparison(node.key, key) < 0);
        path[top] := node;
        top := top + 1;
        toRight := comparison(node.key, key) < 0;
        var next := if toRight then node.right else node.left;
        c, s := Down(s, toRight, c), if toRight then s.right else s.left;
        assert path[..top] == path[..top - 1] + [node];
        if next == nil {
          break;
        }
        node := next;
      }
    }
  
    // Creates the node and hangs it into the open link.
    method HangLeaf(node: AtreeNode<K, D>, toRight: bool, data: D, key: K, ghost c: Context<K, D>)
        returns (leaf: AtreeNode<K, D>)
      requires c.Went? && c.ref == node && c.toRight == toRight && Follows(c, key, comparison)
      requires Walking(c, Nil, nil, nil)
      modifies node
      ensures fresh(leaf)
      ensures ClimbInsert(c, Node(leaf, 1, key, data, Nil, Nil)) ==
        AATree.Insert(Plug(c, Nil), key, data, leaf, comparison)
      ensures Walking(c, Node(leaf, 1, key, data, Nil, Nil), leaf, nil)
    {
      PlugDistinct(c, Nil);
      assert allocated(ContextNodes(c));
      leaf := new AtreeNode.Leaf(key, data, nil);
      NewLeaf(c, key, data, leaf, comparison);
      ghost var t := Node(leaf, 1, key, data, Nil, Nil);
      assert Linked(t, leaf, nil);
      Relink(node, toRight, leaf, nil, c, t, nil);
    }

    // Insertion into a tree that is not empty.
    method InsertBelowRoot(data: D, key: K) returns (ghost ref: AtreeNode<K, D>)
      requires model.Node? && Height(model) + 2 <= MAX_HEIGHT
      requires Linked(model, root, nil) && IsSentinel(nil) && nil !in NodesOf(model) && Distinct(model)
      modifies `root, NodesOf(model)
      ensures fresh(ref) && ref !in NodesOf(model)
      ensures IsSentinel(nil) && Linked(AATree.Insert(model, key, data, ref, comparison), root, nil)
    {
      assert allocated(NodesOf(model));
      var first := root;
      var path := new AtreeNode<K, D>[MAX_HEIGHT](_ => first);
      var node, top, toRight, c := DescendToInsert(key, path);
      PlugDistinct(c, Nil);
      var leaf := HangLeaf(node, toRight, data, key, c);
      ClimbFromInsert(path, top, leaf, c, Node(leaf, 1, key, data, Nil, Nil));
      ref := leaf;
    }

    method Insert(data: D, key: K) returns (ghost ref: AtreeNode<K, D>)
      requires Valid() && Size(model) < 0xFFFF_FFFF
      modifies this, NodesOf(model)
      ensures Valid()
      ensures fresh(ref) && model == AATree.Insert(old(model), key, data, ref, comparison)
      ensures NodesOf(model) == old(NodesOf(model)) + {ref}
      ensures nodes == old(nodes) + 1
    {
      assert allocated(NodesOf(model));
      if root == nil {
        root := new AtreeNode.Leaf(key, data, nil);
        ref := root;
      } else {
        PathFits(model);
        ref := InsertBelowRoot(data, key);
      }
      InsertKeeps(model, key, data, ref, comparison);
      model := AATree.Insert(model, key, data, ref, comparison);
      nodes := nodes + 1;
    }
  
    // One turn of the repair loop after a removal, at path[top].
    method StepFromRemove(path: array<AtreeNode<K, D>>, top: nat, below: AtreeNode<K, D>, ghost c: Context<K, D>,
                          ghost t: Shape<K, D>)
      returns (node: AtreeNode<K, D>)
      requires top < path.Length && path[..top + 1] == Path(c)
      requires c.Went? && c.level >= 1 && Walking(c, t, below, nil)
      modifies path, `root, NodesOf(t), ContextNodes(c), nil
      ensures path[..top] == Path(c.up) && Walking(c.up, Rebalance(Close(c, t)), node, nil)
      ensures top == 0 ==> root == node
    {
      ghost var u := Rebalance(Close(c, t));
      RebalanceRearranges(Close(c, t));
      ClimbStep(c, t, u);
      var parent, toRight := ParentLink(path, top, below, c, t);
      node := RepairRemove(path[top], nil, below, c, t);
      Reattach(top, parent, toRight, node, c.up, u, c.ref);
    }

    // Repairs the path after a removal.
    method ClimbFromRemove(path: array<AtreeNode<K, D>>, length: nat, hole: AtreeNode<K, D>, ghost c0: Context<K, D>,
                           ghost t0: Shape<K, D>)
      requires length <= path.Length && path[..length] == Path(c0)
      requires Walking(c0, t0, hole, nil) && Levels(c0)
      requires length == 0 ==> root == hole
      modifies path, `root, NodesOf(t0), ContextNodes(c0), nil
      ensures IsSentinel(nil) && Linked(ClimbRemove(c0, t0), root, nil)
    {
      var top := length;
      var below := hole;
      ghost var c, t := c0, t0;
      while top > 0
        invariant 0 <= top <= length && path[..top] == Path(c)
        invariant Walking(c, t, below, nil) && Levels(c)
        invariant ClimbRemove(c, t) == ClimbRemove(c0, t0)
        invariant NodesOf(t) + ContextNodes(c) <= NodesOf(t0) + ContextNodes(c0)
        invariant top == 0 ==> root == below
      {
        top := top - 1;
        ghost var u := Rebalance(Close(c, t));
        RebalanceRearranges(Close(c, t));
        ClimbStep(c, t, u);
        below := StepFromRemove(path, top, below, c, t);
        c, t := c.up, u;
      }
      assert |Path(c)| == 0 && c.Top?;
    }

    // Searches for `key`, recording the nodes passed and the one it stops at.
    method DescendToRemove(key: K, path: array<AtreeNode<K, D>>)
        returns (node: AtreeNode<K, D>, top: nat, direction: bool, ghost c: Context<K, D>, ghost s: Shape<K, D>)
      requires Walking(Top, model, root, nil) && Balanced(model)
      requires Height(model) + 2 <= path.Length
      modifies path
      ensures 0 < top <= path.Length && path[..top] == Path(c) + [node]
      ensures Walking(c, s, node, nil) && Plug(c, s) == model && Levels(c) && Balanced(s)
      ensures s == Search(model, key, comparison)
      ensures c.Went? ==> direction == c.toRight
      ensures ClimbRemove(c, AATree.Remove(s, key, comparison)) == AATree.Remove(model, key, comparison)
    {
      node, top, direction, c := root, 0, false, Top;
      s := model;
      while true
        invariant Walking(c, s, node, nil) && Plug(c, s) == model && Levels(c) && Balanced(s)
        invariant top <= path.Length && path[..top] == Path(c)
        invariant Search(s, key, comparison) == Search(model, key, comparison)
        invariant c.Went? ==> direction == c.toRight
        invariant ClimbRemove(c, AATree.Remove(s, key, comparison)) == AATree.Remove(model, key, comparison)
        decreases s
      {
        PlugHeight(c, s);
        path[top] := node;
        top := top + 1;
        assert path[..top] == path[..top - 1] + [node];
        if node == nil {
          return;
        }
        var result := comparison(node.key, key);
        if result == 0 {
          return;
        }
        direction := result < 0;
        LevelNonNegative(s);
        StepDown(c, s, node, nil, direction);
        node := if direction then node.right else node.left;
        c, s := Down(s, direction, c), if direction then s.right else s.left;
      }
    }
  
    // Unlinks a node that has a nil link; the other link takes its place.
    method UnlinkNode(node: AtreeNode<K, D>, path: array<AtreeNode<K, D>>, top: nat, direction: bool,
                      ghost c: Context<K, D>, ghost s: Shape<K, D>) returns (child: AtreeNode<K, D>)
      requires top <= path.Length && path[..top] == Path(c)
      requires c.Went? ==> direction == c.toRight
      requires s.Node? && (s.left.Nil? || s.right.Nil?) && Balanced(s) && Walking(c, s, node, nil)
      requires Distinct(Plug(c, RemoveNode(s)))
      modifies `root, ContextNodes(c)
      ensures Walking(c, RemoveNode(s), child, nil)
      ensures top == 0 ==> root == child
    {
      PlugDistinct(c, s);
      assert Linked(s.left, node.left, nil) && Linked(s.right, node.right, nil);
      child := if node.left == nil then node.right else node.left;
      LevelNonNegative(s);
      LevelNonNegative(s.left);
      if top != 0 {
        assert path[top - 1] == path[..top][top - 1] == c.ref;
        Relink(path[top - 1], direction, child, nil, c, RemoveNode(s), node);
      } else {
        assert |Path(c)| == 0;
        root := node.right;
      }
    }

    // Walks to the leftmost node of the right subtree, recording the nodes passed.
    method DescendToHeir(node: AtreeNode<K, D>, path: array<AtreeNode<K, D>>, start: nat, ghost t: Shape<K, D>)
      returns (heir: AtreeNode<K, D>, prev: AtreeNode<K, D>, top: nat, ghost low: Context<K, D>, ghost h: Shape<K, D>)
      requires t.Node? && Balanced(t) && Walking(Top, t, node.right, nil)
      requires start + Height(t) <= path.Length
      modifies path
      ensures top <= path.Length && path[..top] == old(path[..start]) + Path(low)
      ensures Walking(low, h, heir, nil) && ToHeir(t, low, h) && h.left.Nil?
      ensures Outermost(low, heir) == node.right
      ensures prev == if low.Top? then node else low.ref
    {
      heir, prev, top := node.right, node, start;
      low, h := Top, t;
      while heir.left != nil
        invariant start <= top <= path.Length && path[..top] == old(path[..start]) + Path(low)
        invariant Walking(low, h, heir, nil) && ToHeir(t, low, h)
        invariant Outermost(low, heir) == node.right
        invariant prev == if low.Top? then node else low.ref
        decreases h
      {
        StepDown(low, h, heir, nil, false);
        ToHeirStep(t, low, h);
        path[top] := heir;
        top := top + 1;
        assert path[..top] == path[..top - 1] + [heir];
        prev := heir;
        heir := heir.left;
        low, h := Down(h, false, low), h.left;
      }
      assert Linked(h.left, heir.left, nil);
    }

    // The heir hands its data to `node`.
    method HandOver(node: AtreeNode<K, D>, heir: AtreeNode<K, D>,
                    ghost c: Context<K, D>, ghost s: Shape<K, D>, ghost low: Context<K, D>, ghost h: Shape<K, D>)
      requires s.Node? && s.right.Node? && Walking(c, s, node, nil)
      requires Walking(low, h, heir, nil) && ToHeir(s.right, low, h) && Outermost(low, heir) == node.right
      modifies node
      ensures ContextLinked(Join(low, Down(s.(data := h.data), true, c)), heir, nil) && Linked(h, heir, nil)
    {
      PlugDistinct(c, s);
      DistinctParts(s);
      PlugDistinct(low, h);
      ghost var frame := Down(s.(data := h.data), true, c);
      assert Linked(s.left, node.left, nil);
      node.data := heir.data;
      assert ContextLinked(frame, node.right, nil);
      assert ContextLinked(low, heir, nil);
      JoinedLinked(low, frame, heir, nil);
    }

    // The heir hands its data to `node` and is unlinked.
    method UnlinkHeir(node: AtreeNode<K, D>, heir: AtreeNode<K, D>, prev: AtreeNode<K, D>,
                      ghost c: Context<K, D>, ghost s: Shape<K, D>, ghost low: Context<K, D>,
                      ghost h: Shape<K, D>, ghost all: Context<K, D>)
      requires s.Node? && s.right.Node? && Walking(c, s, node, nil)
      requires Walking(low, h, heir, nil) && ToHeir(s.right, low, h)
      requires Outermost(low, heir) == node.right && prev == (if low.Top? then node else low.ref)
      requires all == Join(low, Down(s.(data := h.data), true, c)) && Distinct(Plug(all, h.right))
      modifies node, prev
      ensures Walking(all, h.right, heir.right, nil)
    {
      PlugDistinct(c, s);
      DistinctParts(s);
      PlugDistinct(low, h);
      Joined(low, Down(s.(data := h.data), true, c), h.right);
      assert prev == all.ref && (prev == node <==> all.toRight);
      HandOver(node, heir, c, s, low, h);
      HeirApart(low, h, all);
      Relink(prev, prev == node, heir.right, nil, all, h.right, heir);
    }

    // Takes out the node the search stopped at and repairs the path.
    method RemoveFound(key: K, node: AtreeNode<K, D>, path: array<AtreeNode<K, D>>, length: nat, direction: bool,
                       ghost c: Context<K, D>, ghost s: Shape<K, D>)
      requires 0 < length <= path.Length && path[..length] == Path(c) + [node] && Height(model) + 2 <= path.Length
      requires Walking(c, s, node, nil) && Plug(c, s) == model && Levels(c) && Balanced(s)
      requires s == Search(model, key, comparison) && s.Node? && Distinct(model)
      requires c.Went? ==> direction == c.toRight
      requires ClimbRemove(c, AATree.Remove(s, key, comparison)) == AATree.Remove(model, key, comparison)
      modifies path, `root, NodesOf(model), nil
      ensures IsSentinel(nil) && Linked(AATree.Remove(model, key, comparison), root, nil)
    {
      SearchPosition(model, key, comparison);
      RemoveNodes(model, key, comparison);
      PlugDistinct(c, s);
      assert Linked(s.left, node.left, nil) && Linked(s.right, node.right, nil);
      if node.left == nil || node.right == nil {
        var top := length - 1;
        assert path[..top] == path[..length][..top] == Path(c);
        ClimbRemoveRearranges(c, RemoveNode(s));
        var child := UnlinkNode(node, path, top, direction, c, s);
        PlugDistinct(c, RemoveNode(s));
        ClimbFromRemove(path, top, child, c, RemoveNode(s));
      } else {
        RemoveThroughHeir(key, node, path, length, c, s);
      }
    }

    method RemoveThroughHeir(key: K, node: AtreeNode<K, D>, path: array<AtreeNode<K, D>>, length: nat,
                             ghost c: Context<K, D>, ghost s: Shape<K, D>)
      requires 0 < length <= path.Length && path[..length] == Path(c) + [node] && Height(model) + 2 <= path.Length
      requires Walking(c, s, node, nil) && Plug(c, s) == model && Levels(c) && Balanced(s)
      requires TwoChildren(s) && Distinct(AATree.Remove(model, key, comparison))
      requires ClimbRemove(c, RemoveNode(s)) == AATree.Remove(model, key, comparison)
      modifies path, `root, NodesOf(model), nil
      ensures IsSentinel(nil) && Linked(AATree.Remove(model, key, comparison), root, nil)
    {
      PlugDistinct(c, s);
      DistinctParts(s);
      PlugHeight(c, s);
      LevelNonNegative(s);
      assert allocated(NodesOf(model)) && Linked(s.right, node.right, nil);
      var heir, prev, top, low, h := DescendToHeir(node, path, length, s.right);
      assert Walking(c, s, node, nil);
      ReplaceByHeir(key, node, heir, prev, path, top, c, s, low, h);
    }

    // The heir is taken out and the whole path is repaired.
    method ReplaceByHeir(key: K, node: AtreeNode<K, D>, heir: AtreeNode<K, D>, prev: AtreeNode<K, D>,
                         path: array<AtreeNode<K, D>>, top: nat,
                         ghost c: Context<K, D>, ghost s: Shape<K, D>, ghost low: Context<K, D>, ghost h: Shape<K, D>)
      requires 0 < top <= path.Length && path[..top] == Path(c) + [node] + Path(low)
      requires Walking(c, s, node, nil) && Plug(c, s) == model && Levels(c) && TwoChildren(s) && s.level >= 1
      requires Distinct(AATree.Remove(model, key, comparison))
      requires ClimbRemove(c, RemoveNode(s)) == AATree.Remove(model, key, comparison)
      requires Walking(low, h, heir, nil) && ToHeir(s.right, low, h) && h.left.Nil?
      requires Outermost(low, heir) == node.right && prev == if low.Top? then node else low.ref
      modifies path, `root, NodesOf(model), nil
      ensures IsSentinel(nil) && Linked(AATree.Remove(model, key, comparison), root, nil)
    {
      ghost var all := Join(low, Down(s.(data := h.data), true, c));
      HeirContext(c, s, low, h);
      HeirNodes(c, s, low, h);
      UnlinkHeir(node, heir, prev, c, s, low, h, all);
      ClimbFromRemove(path, top, heir.right, all, h.right);
    }

    method RemoveBelowRoot(key: K) returns (found: bool)
      requires Height(model) + 2 <= MAX_HEIGHT && Balanced(model)
      requires Linked(model, root, nil) && IsSentinel(nil) && nil !in NodesOf(model) && Distinct(model)
      modifies `root, NodesOf(model), nil
      ensures found <==> Search(model, key, comparison).Node?
      ensures IsSentinel(nil) && Linked(if found then AATree.Remove(model, key, comparison) else model, root, nil)
    {
      assert allocated(NodesOf(model));
      var first := root;
      var path := new AtreeNode<K, D>[MAX_HEIGHT](_ => first);
      var node, top, direction, c, s := DescendToRemove(key, path);
      found := node != nil;
      if found {
        RemoveFound(key, node, path, top, direction, c, s);
      }
    }

    method Remove(key: K)
      requires Valid() && Size(model) < 0xFFFF_FFFF
      modifies this, nil, NodesOf(model)
      ensures Valid()
      ensures model == AATree.Remove(old(model), key, comparison)
      ensures NodesOf(model) <= old(NodesOf(model))
      ensures old(Search(model, key, comparison)).Nil? ==> model == old(model)
      ensures old(Search(model, key, comparison)).Node? ==> nodes == old(nodes) - 1
    {
      ghost var after := AATree.Remove(model, key, comparison);
      RemoveKeeps(model, key, comparison);
      if root != nil {
        PathFits(model);
        var found := RemoveBelowRoot(key);
        assert nil !in NodesOf(after);
        model := after;
        if found {
          nodes := nodes - 1;
        }
      }
    }
  }
}
