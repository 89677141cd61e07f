/**
 * The index-addressed "flat tree": an arena of records whose parent and child
 * links are arena indices, plus a designated root index. This module holds the
 * data model, the shape invariant the pruning engine keeps, and root recovery.
 */
module FlatTrees {
  import opened Wrappers

  /** One arena record: the node's name, its branch length, its depth below
      the root baseline (None until depths are assigned) and its three links. */
  datatype FlatNode = FlatNode(
    name: string,
    length: real,
    depth: Option<real>,
    parent: Option<nat>,
    left: Option<nat>,
    right: Option<nat>)

  type Arena = seq<FlatNode>

  datatype FlatTree = FlatTree(nodes: Arena, root: nat)

  /** A record is a leaf when both child slots are empty. */
  predicate IsLeaf(n: FlatNode) {
    n.left.None? && n.right.None?
  }

  /** `c` sits in one of the child slots of `n`. */
  predicate HasChild(n: FlatNode, c: nat) {
    n.left == Some(c) || n.right == Some(c)
  }

  /** `c` is an arena index whose record points back to `x` as its parent. */
  predicate ChildOf(a: Arena, x: nat, c: nat) {
    c < |a| && a[c].parent == Some(x)
  }

  /** Parent chains are acyclic: every parent link stays in the arena and
      goes to a record of strictly smaller rank. */
  ghost predicate Ranked(a: Arena, rank: seq<nat>) {
    && |rank| == |a|
    && forall x | 0 <= x < |a| && a[x].parent.Some? ::
         a[x].parent.value < |a| && rank[a[x].parent.value] < rank[x]
  }

  /** The record reached from `x` by following parent links to the end. */
  ghost function RootOf(a: Arena, rank: seq<nat>, x: nat): (r: nat)
    requires Ranked(a, rank) && x < |a|
    ensures r < |a| && a[r].parent.None?
    ensures rank[r] <= rank[x]
    decreases rank[x]
  {
    match a[x].parent
    case None => x
    case Some(p) => RootOf(a, rank, p)
  }

  /** `x` belongs to the tree rooted at `r`: its parent chain ends at `r`. */
  ghost predicate InTree(a: Arena, rank: seq<nat>, r: nat, x: nat) {
    Ranked(a, rank) && x < |a| && RootOf(a, rank, x) == r
  }

  /** The local shape of one record of the tree: no child or two distinct
      children, each linking back to it, and a parent that holds it in one
      of its slots. */
  ghost predicate NodeOk(a: Arena, x: nat)
    requires x < |a|
  {
    var n := a[x];
    && (n.left.None? <==> n.right.None?)
    && (n.left.Some? ==>
          ChildOf(a, x, n.left.value) && ChildOf(a, x, n.right.value) && n.left != n.right)
    && (n.parent.Some? ==> n.parent.value < |a| && HasChild(a[n.parent.value], x))
  }

  /** The records whose parent chain ends at `r` form a binary tree rooted at
      `r` in which child and parent links agree. Records outside it (orphans
      left behind by splicing) are not constrained. */
  ghost predicate ValidAt(a: Arena, rank: seq<nat>, r: nat) {
    && Ranked(a, rank)
    && r < |a| && a[r].parent.None?
    && forall x | InTree(a, rank, r, x) :: NodeOk(a, x)
  }

  ghost function TreeNodes(a: Arena, rank: seq<nat>, r: nat): set<nat> {
    set x | 0 <= x < |a| && InTree(a, rank, r, x)
  }

  ghost function TreeLeaves(a: Arena, rank: seq<nat>, r: nat): set<nat> {
    set x | 0 <= x < |a| && InTree(a, rank, r, x) && IsLeaf(a[x])
  }

  /** Root recovery: climb parent links from `trueLeaf` until a record has
      no parent. Termination rests on the acyclicity certificate `rank`. */
  method FindRoot(t: FlatTree, trueLeaf: nat, ghost rank: seq<nat>) returns (r: nat)
    requires Ranked(t.nodes, rank) && trueLeaf < |t.nodes|
    ensures r < |t.nodes| && t.nodes[r].parent.None?
    ensures r == RootOf(t.nodes, rank, trueLeaf)
    ensures t.nodes[trueLeaf].parent.None? ==> r == trueLeaf
  {
    var current := trueLeaf;
    var currentParent := t.nodes[current].parent;
    while currentParent.Some?
      invariant current < |t.nodes| && currentParent == t.nodes[current].parent
      invariant RootOf(t.nodes, rank, current) == RootOf(t.nodes, rank, trueLeaf)
      invariant t.nodes[trueLeaf].parent.None? ==> current == trueLeaf
      decreases rank[current]
    {
      current := currentParent.value;
      currentParent := t.nodes[current].parent;
    }
    r := current;
  }

  function MaxRank(rank: seq<nat>): (m: nat)
    ensures forall i | 0 <= i < |rank| :: rank[i] <= m
  {
    if |rank| == 0 then 0
    else var m := MaxRank(rank[1..]); if rank[0] > m then rank[0] else m
  }

  /** Below every record of a valid tree there is a leaf of that tree. */
  lemma {:induction false} LeafBelow(a: Arena, rank: seq<nat>, r: nat, x: nat)
    requires ValidAt(a, rank, r) && InTree(a, rank, r, x)
    ensures exists l :: l in TreeLeaves(a, rank, r)
    decreases MaxRank(rank) - rank[x]
  {
    if IsLeaf(a[x]) {
      assert x in TreeLeaves(a, rank, r);
    } else {
      assert NodeOk(a, x);
      var c := a[x].left.value;
      assert RootOf(a, rank, c) == RootOf(a, rank, x);
      LeafBelow(a, rank, r, c);
    }
  }

  /** A valid tree has at least one leaf. */
  lemma ValidTreeHasLeaf(a: Arena, rank: seq<nat>, r: nat)
    requires ValidAt(a, rank, r)
    ensures TreeLeaves(a, rank, r) != {}
  {
    assert InTree(a, rank, r, r);
    LeafBelow(a, rank, r, r);
  }

  /** When the tree holds a record other than its root, the root is not a leaf. */
  lemma {:induction false} RootNotLeaf(a: Arena, rank: seq<nat>, r: nat, x: nat)
    requires ValidAt(a, rank, r) && InTree(a, rank, r, x) && x != r
    ensures !IsLeaf(a[r])
    decreases rank[x]
  {
    var p := a[x].parent.value;
    assert NodeOk(a, x);
    if p == r {
      assert HasChild(a[r], x);
    } else {
      assert InTree(a, rank, r, p);
      RootNotLeaf(a, rank, r, p);
    }
  }
}
