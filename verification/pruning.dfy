/**
 * The splice that removes one leaf together with its parent, promoting the
 * leaf's sibling into the parent's slot under the grandparent, and the fold
 * that applies it to a whole list of leaves.
 */
module Pruning {
  import opened Wrappers
  import opened FlatTrees
  import opened Collections

  /** The parent record has the slots the sibling lookup unwraps: the left
      slot always, and the right slot when the left one holds the leaf. */
  predicate SisterDefined(p: FlatNode, index: nat) {
    p.left.Some? && (p.left.value == index ==> p.right.Some?)
  }

  /** The right child when the left slot holds `index`, the left child otherwise. */
  function SisterOf(p: FlatNode, index: nat): nat
    requires SisterDefined(p, index)
  {
    if p.left.value == index then p.right.value else p.left.value
  }

  /** Everything the splice of `index` reads without aborting: a parent, the
      parent's child slots, and the sibling and grandparent inside the arena. */
  predicate CanChange(t: FlatTree, index: nat) {
    && index < |t.nodes|
    && t.nodes[index].parent.Some?
    && t.nodes[index].parent.value < |t.nodes|
    && SisterDefined(t.nodes[t.nodes[index].parent.value], index)
    && SisterOf(t.nodes[t.nodes[index].parent.value], index) < |t.nodes|
    && (t.nodes[t.nodes[index].parent.value].parent.Some? ==>
          t.nodes[t.nodes[index].parent.value].parent.value < |t.nodes|)
  }

  function ParentIndex(t: FlatTree, index: nat): nat
    requires CanChange(t, index)
  {
    t.nodes[index].parent.value
  }

  function SisterIndex(t: FlatTree, index: nat): nat
    requires CanChange(t, index)
  {
    SisterOf(t.nodes[ParentIndex(t, index)], index)
  }

  /** Name, branch length and depth are the same in both records. */
  predicate SameLabels(m: FlatNode, n: FlatNode) {
    m.name == n.name && m.length == n.length && m.depth == n.depth
  }

  /** The slot of the grandparent that held `p` now holds `s`; the other slot
      is untouched. */
  predicate Relinked(before: FlatNode, after: FlatNode, p: nat, s: nat) {
    if before.left == Some(p) then after.left == Some(s) && after.right == before.right
    else after.right == Some(s) && after.left == before.left
  }

  /** Splice out the leaf `index` and its parent. The parent loses its parent
      link (it keeps its two child slots), the sibling takes the parent's old
      parent link, and the grandparent, if any, points at the sibling. The
      three updates run in this order, each on the result of the last. */
  function ChangeTree(t: FlatTree, index: nat): (t': FlatTree)
    requires CanChange(t, index)
    ensures |t'.nodes| == |t.nodes| && t'.root == t.root
    ensures forall i | 0 <= i < |t.nodes| :: SameLabels(t'.nodes[i], t.nodes[i])
    ensures var p := ParentIndex(t, index);
            var s := SisterIndex(t, index);
            var g := t.nodes[p].parent;
            && t'.nodes[s].parent == g
            && (s != p ==> t'.nodes[p].parent == None)
            && (forall i | 0 <= i < |t.nodes| && i != p && i != s ::
                  t'.nodes[i].parent == t.nodes[i].parent)
            && (forall i | 0 <= i < |t.nodes| && g != Some(i) ::
                  t'.nodes[i].left == t.nodes[i].left && t'.nodes[i].right == t.nodes[i].right)
            && (g.Some? ==> Relinked(t.nodes[g.value], t'.nodes[g.value], p, s))
  {
    var p := t.nodes[index].parent.value;
    var s := SisterOf(t.nodes[p], index);
    var g := t.nodes[p].parent;
    var a1 := t.nodes[p := t.nodes[p].(parent := None)];
    var a2 := a1[s := a1[s].(parent := g)];
    var a3 :=
      match g
      case None => a2
      case Some(gi) =>
        if a2[gi].left == Some(p) then a2[gi := a2[gi].(left := Some(s))]
        else a2[gi := a2[gi].(right := Some(s))];
    t.(nodes := a3)
  }

  /** Every splice of the left fold over `list` finds what it reads. */
  predicate Removable(t: FlatTree, list: seq<nat>)
    decreases |list|
  {
    |list| == 0 || (CanChange(t, list[0]) && Removable(ChangeTree(t, list[0]), list[1..]))
  }

  /** Splice out every listed leaf, in list order. */
  function RemoveAllUnsampled(t: FlatTree, list: seq<nat>): (t': FlatTree)
    requires Removable(t, list)
    ensures |t'.nodes| == |t.nodes| && t'.root == t.root
    ensures forall i | 0 <= i < |t.nodes| :: SameLabels(t'.nodes[i], t.nodes[i])
    decreases |list|
  {
    if |list| == 0 then t
    else RemoveAllUnsampled(ChangeTree(t, list[0]), list[1..])
  }

  /** The root of the tree after splicing out `leaf` from the tree rooted at
      `r`: the sibling when the parent was the root, `r` otherwise. */
  function NewRoot(t: FlatTree, leaf: nat, r: nat): nat
    requires CanChange(t, leaf)
  {
    if ParentIndex(t, leaf) == r then SisterIndex(t, leaf) else r
  }

  /** A leaf of a valid tree other than its root can be spliced, and the
      roles around it are what the tree shape promises: the parent is in the
      tree and holds the leaf and the sibling, which links back to it, and
      the grandparent is neither of them. */
  lemma SpliceSite(t: FlatTree, rank: seq<nat>, r: nat, leaf: nat)
    requires ValidAt(t.nodes, rank, r) && leaf in TreeLeaves(t.nodes, rank, r) && leaf != r
    ensures CanChange(t, leaf)
    ensures var a := t.nodes;
            var p := ParentIndex(t, leaf);
            var s := SisterIndex(t, leaf);
            && InTree(a, rank, r, p) && InTree(a, rank, r, s)
            && a[s].parent == Some(p) && s != leaf && s != p && p != leaf
            && HasChild(a[p], leaf) && HasChild(a[p], s) && !IsLeaf(a[p])
            && (forall c | HasChild(a[p], c) :: c == leaf || c == s)
            && (a[p].parent.None? <==> p == r)
            && (a[p].parent.Some? ==> a[p].parent.value != s && a[p].parent.value != p && a[p].parent.value != leaf)
  {
    var a := t.nodes;
    assert NodeOk(a, leaf);
    var p := a[leaf].parent.value;
    assert InTree(a, rank, r, p);
    assert NodeOk(a, p);
  }

  /** The core of the splice proof: every record other than the leaf and its
      parent keeps the end of its parent chain, except that the old root's
      tree is now rooted at `NewRoot`. */
  lemma {:induction false} SpliceRootOf(t: FlatTree, rank: seq<nat>, r: nat, leaf: nat, x: nat)
    requires ValidAt(t.nodes, rank, r) && leaf in TreeLeaves(t.nodes, rank, r) && leaf != r
    requires x < |t.nodes|
    requires CanChange(t, leaf) && x != leaf && x != ParentIndex(t, leaf)
    ensures Ranked(ChangeTree(t, leaf).nodes, rank)
    ensures RootOf(ChangeTree(t, leaf).nodes, rank, x) ==
              if RootOf(t.nodes, rank, x) == r then NewRoot(t, leaf, r) else RootOf(t.nodes, rank, x)
    decreases rank[x]
  {
    SpliceSite(t, rank, r, leaf);
    SpliceRanked(t, rank, r, leaf);
    var a, a' := t.nodes, ChangeTree(t, leaf).nodes;
    var p, s := ParentIndex(t, leaf), SisterIndex(t, leaf);
    var g := a[p].parent;
    if x == s {
      assert RootOf(a, rank, s) == r;
      if g.Some? {
        var gi := g.value;
        assert rank[gi] < rank[p] < rank[s];
        SpliceRootOf(t, rank, r, leaf, gi);
        assert InTree(a, rank, r, gi);
      }
    } else {
      assert a'[x].parent == a[x].parent;
      // a record hanging below the leaf or the parent would be in the tree,
      // a child of a leaf or a third child of the parent
      assert a[x].parent.Some? && (a[x].parent.value == leaf || a[x].parent.value == p) ==>
               InTree(a, rank, r, x);
      match a[x].parent
      case None =>
      case Some(q) =>
        if q == leaf || q == p {
          assert false;
        } else {
          SpliceRootOf(t, rank, r, leaf, q);
        }
    }
  }

  /** The acyclicity certificate of the tree before the splice still holds after it. */
  lemma SpliceRanked(t: FlatTree, rank: seq<nat>, r: nat, leaf: nat)
    requires ValidAt(t.nodes, rank, r) && leaf in TreeLeaves(t.nodes, rank, r) && leaf != r
    ensures CanChange(t, leaf) && Ranked(ChangeTree(t, leaf).nodes, rank)
  {
    SpliceSite(t, rank, r, leaf);
    var a, a' := t.nodes, ChangeTree(t, leaf).nodes;
    var p, s := ParentIndex(t, leaf), SisterIndex(t, leaf);
    forall x | 0 <= x < |a'| && a'[x].parent.Some?
      ensures a'[x].parent.value < |a'| && rank[a'[x].parent.value] < rank[x]
    {
      if x == s {
        assert rank[a[p].parent.value] < rank[p] < rank[s];
      }
    }
  }

  /** Membership in the tree after a splice: exactly the old members other
      than the leaf and its parent. */
  lemma SpliceMembers(t: FlatTree, rank: seq<nat>, r: nat, leaf: nat, x: nat)
    requires ValidAt(t.nodes, rank, r) && leaf in TreeLeaves(t.nodes, rank, r) && leaf != r
    requires x < |t.nodes|
    ensures CanChange(t, leaf) && Ranked(ChangeTree(t, leaf).nodes, rank)
    ensures InTree(ChangeTree(t, leaf).nodes, rank, NewRoot(t, leaf, r), x) <==>
              InTree(t.nodes, rank, r, x) && x != leaf && x != ParentIndex(t, leaf)
  {
    SpliceSite(t, rank, r, leaf);
    SpliceRanked(t, rank, r, leaf);
    var a, a' := t.nodes, ChangeTree(t, leaf).nodes;
    var p, s := ParentIndex(t, leaf), SisterIndex(t, leaf);
    var r' := NewRoot(t, leaf, r);
    assert a[s].parent.Some?;
    if x == leaf {
      assert RootOf(a', rank, p) == p;
      assert RootOf(a', rank, leaf) == p;
    } else if x == p {
      assert RootOf(a', rank, p) == p;
    } else {
      SpliceRootOf(t, rank, r, leaf, x);
    }
  }

  /** One splice of a leaf of a valid tree leaves a valid tree, rooted at the
      end of the sibling's parent chain, whose records are the old ones minus
      the leaf and its parent and whose leaves are the old ones minus the leaf. */
  lemma ChangeTreeKeepsTree(t: FlatTree, rank: seq<nat>, r: nat, leaf: nat)
    requires ValidAt(t.nodes, rank, r) && leaf in TreeLeaves(t.nodes, rank, r) && leaf != r
    ensures CanChange(t, leaf) && Ranked(ChangeTree(t, leaf).nodes, rank)
    ensures var a' := ChangeTree(t, leaf).nodes;
            var r' := NewRoot(t, leaf, r);
            && r' == RootOf(a', rank, SisterIndex(t, leaf))
            && ValidAt(a', rank, r')
            && TreeNodes(a', rank, r') == TreeNodes(t.nodes, rank, r) - {leaf, ParentIndex(t, leaf)}
            && TreeLeaves(a', rank, r') == TreeLeaves(t.nodes, rank, r) - {leaf}
  {
    SpliceSite(t, rank, r, leaf);
    SpliceRanked(t, rank, r, leaf);
    SpliceAllMembers(t, rank, r, leaf);
    SpliceValid(t, rank, r, leaf);
    var a, a' := t.nodes, ChangeTree(t, leaf).nodes;
    var p, s := ParentIndex(t, leaf), SisterIndex(t, leaf);
    var r' := NewRoot(t, leaf, r);
    assert InTree(a', rank, r', s);
    SpliceNodes(t, rank, r, leaf);
    SpliceLeaves(t, rank, r, leaf);
  }

  /** The records of the tree after a splice are the old ones minus the leaf
      and its parent. */
  lemma SpliceNodes(t: FlatTree, rank: seq<nat>, r: nat, leaf: nat)
    requires ValidAt(t.nodes, rank, r) && leaf in TreeLeaves(t.nodes, rank, r) && leaf != r
    ensures CanChange(t, leaf) && Ranked(ChangeTree(t, leaf).nodes, rank)
    ensures TreeNodes(ChangeTree(t, leaf).nodes, rank, NewRoot(t, leaf, r)) ==
              TreeNodes(t.nodes, rank, r) - {leaf, ParentIndex(t, leaf)}
  {
    SpliceAllMembers(t, rank, r, leaf);
    var a, a' := t.nodes, ChangeTree(t, leaf).nodes;
    var r' := NewRoot(t, leaf, r);
    forall x | x in TreeNodes(a', rank, r')
      ensures x in TreeNodes(a, rank, r) - {leaf, ParentIndex(t, leaf)}
    {
    }
    forall x | x in TreeNodes(a, rank, r) - {leaf, ParentIndex(t, leaf)}
      ensures x in TreeNodes(a', rank, r')
    {
    }
  }

  /** The leaves after a splice are the old leaves minus the removed one. */
  lemma SpliceLeaves(t: FlatTree, rank: seq<nat>, r: nat, leaf: nat)
    requires ValidAt(t.nodes, rank, r) && leaf in TreeLeaves(t.nodes, rank, r) && leaf != r
    ensures CanChange(t, leaf) && Ranked(ChangeTree(t, leaf).nodes, rank)
    ensures TreeLeaves(ChangeTree(t, leaf).nodes, rank, NewRoot(t, leaf, r)) ==
              TreeLeaves(t.nodes, rank, r) - {leaf}
  {
    SpliceSite(t, rank, r, leaf);
    SpliceAllMembers(t, rank, r, leaf);
    var a, a' := t.nodes, ChangeTree(t, leaf).nodes;
    var p := ParentIndex(t, leaf);
    var r' := NewRoot(t, leaf, r);
    forall x | x in TreeLeaves(a', rank, r')
      ensures x in TreeLeaves(a, rank, r) - {leaf}
    {
      SpliceNodeOk(t, rank, r, leaf, x);
    }
    forall x | x in TreeLeaves(a, rank, r) - {leaf}
      ensures x in TreeLeaves(a', rank, r')
    {
      assert NodeOk(a, p);
      SpliceNodeOk(t, rank, r, leaf, x);
    }
  }

  lemma SpliceAllMembers(t: FlatTree, rank: seq<nat>, r: nat, leaf: nat)
    requires ValidAt(t.nodes, rank, r) && leaf in TreeLeaves(t.nodes, rank, r) && leaf != r
    ensures CanChange(t, leaf) && Ranked(ChangeTree(t, leaf).nodes, rank)
    ensures forall x | 0 <= x < |t.nodes| ::
              InTree(ChangeTree(t, leaf).nodes, rank, NewRoot(t, leaf, r), x) <==>
                InTree(t.nodes, rank, r, x) && x != leaf && x != ParentIndex(t, leaf)
  {
    SpliceSite(t, rank, r, leaf);
    SpliceRanked(t, rank, r, leaf);
    forall x | 0 <= x < |t.nodes|
      ensures InTree(ChangeTree(t, leaf).nodes, rank, NewRoot(t, leaf, r), x) <==>
                InTree(t.nodes, rank, r, x) && x != leaf && x != ParentIndex(t, leaf)
    {
      SpliceMembers(t, rank, r, leaf, x);
    }
  }

  lemma SpliceValid(t: FlatTree, rank: seq<nat>, r: nat, leaf: nat)
    requires ValidAt(t.nodes, rank, r) && leaf in TreeLeaves(t.nodes, rank, r) && leaf != r
    ensures CanChange(t, leaf) && ValidAt(ChangeTree(t, leaf).nodes, rank, NewRoot(t, leaf, r))
  {
    SpliceSite(t, rank, r, leaf);
    SpliceAllMembers(t, rank, r, leaf);
    var a, a' := t.nodes, ChangeTree(t, leaf).nodes;
    var r' := NewRoot(t, leaf, r);
    assert a'[r'].parent.None?;
    forall x: nat | InTree(a', rank, r', x)
      ensures NodeOk(a', x)
    {
      SpliceNodeOk(t, rank, r, leaf, x);
    }
  }

  /** The local shape of a surviving record holds after the splice, and the
      splice does not turn a leaf into an internal record or back. */
  lemma SpliceNodeOk(t: FlatTree, rank: seq<nat>, r: nat, leaf: nat, x: nat)
    requires ValidAt(t.nodes, rank, r) && leaf in TreeLeaves(t.nodes, rank, r) && leaf != r
    requires CanChange(t, leaf)
    requires InTree(t.nodes, rank, r, x) && x != leaf && x != ParentIndex(t, leaf)
    ensures NodeOk(ChangeTree(t, leaf).nodes, x)
    ensures IsLeaf(ChangeTree(t, leaf).nodes[x]) <==> IsLeaf(t.nodes[x])
  {
    SpliceChildrenOk(t, rank, r, leaf, x);
    SpliceParentHolds(t, rank, r, leaf, x);
  }

  /** A surviving record keeps zero or two distinct children that link back
      to it: the grandparent swaps the parent for the sibling, whose parent
      link now names the grandparent. */
  lemma SpliceChildrenOk(t: FlatTree, rank: seq<nat>, r: nat, leaf: nat, x: nat)
    requires ValidAt(t.nodes, rank, r) && leaf in TreeLeaves(t.nodes, rank, r) && leaf != r
    requires CanChange(t, leaf)
    requires InTree(t.nodes, rank, r, x) && x != leaf && x != ParentIndex(t, leaf)
    ensures var n := ChangeTree(t, leaf).nodes[x];
            && (n.left.None? <==> n.right.None?)
            && (n.left.Some? ==>
                  && ChildOf(ChangeTree(t, leaf).nodes, x, n.left.value)
                  && ChildOf(ChangeTree(t, leaf).nodes, x, n.right.value)
                  && n.left != n.right)
    ensures IsLeaf(ChangeTree(t, leaf).nodes[x]) <==> IsLeaf(t.nodes[x])
  {
    SpliceSite(t, rank, r, leaf);
    var a, a' := t.nodes, ChangeTree(t, leaf).nodes;
    var p, s := ParentIndex(t, leaf), SisterIndex(t, leaf);
    var g := a[p].parent;
    assert NodeOk(a, x);
    if g == Some(x) {
      assert NodeOk(a, p);
      var other := if a[x].left == Some(p) then a[x].right.value else a[x].left.value;
      assert ChildOf(a, x, other) && other != p;
      assert ChildOf(a', x, other);
      assert ChildOf(a', x, s);
    }
  }

  /** A surviving record is still held in a slot of its parent: the sibling
      in the slot of the grandparent that held the parent, every other record
      where it was. */
  lemma SpliceParentHolds(t: FlatTree, rank: seq<nat>, r: nat, leaf: nat, x: nat)
    requires ValidAt(t.nodes, rank, r) && leaf in TreeLeaves(t.nodes, rank, r) && leaf != r
    requires CanChange(t, leaf)
    requires InTree(t.nodes, rank, r, x) && x != leaf && x != ParentIndex(t, leaf)
    ensures var a' := ChangeTree(t, leaf).nodes;
            a'[x].parent.Some? ==> a'[x].parent.value < |a'| && HasChild(a'[a'[x].parent.value], x)
  {
    SpliceSite(t, rank, r, leaf);
    var a, a' := t.nodes, ChangeTree(t, leaf).nodes;
    var p, s := ParentIndex(t, leaf), SisterIndex(t, leaf);
    var g := a[p].parent;
    assert NodeOk(a, x);
    if x != s && a[x].parent.Some? {
      var q := a[x].parent.value;
      assert q != p;
      if g == Some(q) {
        assert NodeOk(a, p);
        assert HasChild(a[q], p);
      }
    }
  }

  /** Splicing out, one after another, distinct leaves of a valid tree while
      another leaf `keep` stays: no splice aborts, and what is left is a valid
      tree, rooted at the end of `keep`'s parent chain, whose leaves are the
      old ones minus the listed ones. */
  lemma {:induction false} RemoveAllKeepsTree(t: FlatTree, rank: seq<nat>, r: nat, list: seq<nat>, keep: nat)
    requires ValidAt(t.nodes, rank, r)
    requires forall i | 0 <= i < |list| :: list[i] in TreeLeaves(t.nodes, rank, r)
    requires Distinct(list)
    requires keep in TreeLeaves(t.nodes, rank, r) && keep !in list
    ensures Removable(t, list)
    ensures Ranked(RemoveAllUnsampled(t, list).nodes, rank)
    ensures var a' := RemoveAllUnsampled(t, list).nodes;
            var r' := RootOf(a', rank, keep);
            && ValidAt(a', rank, r')
            && TreeLeaves(a', rank, r') == TreeLeaves(t.nodes, rank, r) - Elems(list)
    decreases |list|
  {
    if |list| == 0 {
      assert RootOf(t.nodes, rank, keep) == r;
    } else {
      var leaf := list[0];
      if leaf == r {
        RootNotLeaf(t.nodes, rank, r, keep);
        assert false;
      }
      ChangeTreeKeepsTree(t, rank, r, leaf);
      var t1 := ChangeTree(t, leaf);
      var r1 := NewRoot(t, leaf, r);
      var rest := list[1..];
      forall i | 0 <= i < |rest|
        ensures rest[i] in TreeLeaves(t1.nodes, rank, r1)
      {
        assert rest[i] == list[i + 1];
      }
      assert keep !in rest;
      RemoveAllKeepsTree(t1, rank, r1, rest, keep);
      assert Removable(t, list);
      assert RemoveAllUnsampled(t, list) == RemoveAllUnsampled(t1, rest);
      ElemsCons(list);
      MinusUnion(TreeLeaves(t.nodes, rank, r), leaf, Elems(rest));
    }
  }

  /** Listing every leaf of a valid tree for removal aborts: each splice
      removes one leaf, so the last listed leaf of the tree is by then its
      root, which has no parent to splice it from. */
  lemma {:induction false} RemoveAllLeavesAborts(t: FlatTree, rank: seq<nat>, r: nat, list: seq<nat>)
    requires ValidAt(t.nodes, rank, r)
    requires forall i | 0 <= i < |list| :: list[i] in TreeLeaves(t.nodes, rank, r)
    requires Distinct(list)
    requires TreeLeaves(t.nodes, rank, r) <= Elems(list)
    ensures !Removable(t, list)
    decreases |list|
  {
    ValidTreeHasLeaf(t.nodes, rank, r);
    var leaf := list[0];
    if leaf != r {
      ChangeTreeKeepsTree(t, rank, r, leaf);
      var t1 := ChangeTree(t, leaf);
      var r1 := NewRoot(t, leaf, r);
      var rest := list[1..];
      forall i | 0 <= i < |rest|
        ensures rest[i] in TreeLeaves(t1.nodes, rank, r1)
      {
        assert rest[i] == list[i + 1];
      }
      assert Distinct(rest) by {
        forall i, j | 0 <= i < j < |rest| ensures rest[i] != rest[j] {
          assert rest[i] == list[i + 1] && rest[j] == list[j + 1];
        }
      }
      ElemsCons(list);
      RemoveAllLeavesAborts(t1, rank, r1, rest);
    }
  }
}
