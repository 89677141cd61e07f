/**
 * The pure middle of the sampling driver: rank the leaves, splice out the
 * ones not sampled, and recover the root of what is left.
 */
module Pipeline {
  import opened Wrappers
  import opened Collections
  import opened FlatTrees
  import opened Pruning
  import opened Sampling

  /** The assumption the driver makes without checking it: the pre-order
      traversal of the arena visits record `i` at position `i` and visits
      every record, so a visit position can be used as an arena index. */
  predicate IsIndexOrder(preorder: seq<nat>, n: nat) {
    |preorder| == n && forall i | 0 <= i < n :: preorder[i] == i
  }

  /** The records in the order the traversal visits them. */
  function Visit(t: FlatTree, preorder: seq<nat>): (v: seq<FlatNode>)
    requires forall i | 0 <= i < |preorder| :: preorder[i] < |t.nodes|
    ensures |v| == |preorder| && forall i | 0 <= i < |v| :: v[i] == t.nodes[preorder[i]]
  {
    seq(|preorder|, i requires 0 <= i < |preorder| => t.nodes[preorder[i]])
  }

  /** Leaf discovery, depth ranking and the complement on a freshly
      flattened tree (every record in the tree rooted at `t.root`, every leaf
      carrying a depth): the sampled positions are `nbLeaves` distinct leaves
      of the tree, or all of them when there are fewer, deepest first with
      ties in visit order; the removed ones are the other leaves, each once,
      and every one of them ranks after every sampled one. */
  method SampleLeaves(t: FlatTree, preorder: seq<nat>, nbLeaves: nat, ghost rank: seq<nat>)
    returns (sampled: seq<nat>, removed: seq<nat>)
    requires IsIndexOrder(preorder, |t.nodes|)
    requires ValidAt(t.nodes, rank, t.root)
    requires forall x | 0 <= x < |t.nodes| :: InTree(t.nodes, rank, t.root, x)
    requires LeavesHaveDepth(t.nodes)
    ensures TreeLeaves(t.nodes, rank, t.root) != {}
    ensures |sampled| == Min(nbLeaves, |TreeLeaves(t.nodes, rank, t.root)|)
    ensures Distinct(sampled)
    ensures forall k | 0 <= k < |sampled| :: sampled[k] in TreeLeaves(t.nodes, rank, t.root)
    ensures forall i, j | 0 <= i < j < |sampled| ::
              Precedes(Entry(t.nodes, sampled[i]), Entry(t.nodes, sampled[j]))
    ensures forall x :: x in removed <==> x in TreeLeaves(t.nodes, rank, t.root) && x !in sampled
    ensures forall x | x in removed ::
              x < |t.nodes| && IsLeaf(t.nodes[x]) && forall k | 0 <= k < |sampled| ::
                Precedes(Entry(t.nodes, sampled[k]), Entry(t.nodes, x))
    ensures Distinct(removed)
    ensures TreeLeaves(t.nodes, rank, t.root) - Elems(removed) == Elems(sampled)
    ensures nbLeaves >= |TreeLeaves(t.nodes, rank, t.root)| ==> removed == []
    ensures sampled == FindDeepestNodes(t.nodes, nbLeaves)
    ensures removed == LeavesToBeRemoved(FindAllLeaves(t.nodes), sampled)
  {
    var visit := Visit(t, preorder);
    assert visit == t.nodes;
    sampled := FindDeepestNodes(visit, nbLeaves);
    var leaves := FindAllLeaves(visit);
    removed := LeavesToBeRemoved(leaves, sampled);
    FreshTreeLeaves(t, rank);
    ValidTreeHasLeaf(t.nodes, rank, t.root);
    ComplementFacts(visit, nbLeaves, leaves, sampled, removed);
    SampledAreLeaves(visit, nbLeaves, leaves, sampled);
  }

  /** Prune a freshly flattened tree down to its `nbLeaves` deepest leaves:
      splice out the others and recover the root from the first sampled
      leaf. The result is the splice fold over the removal list, in its
      order, rooted where the first sampled leaf's parent chain ends: a valid
      tree whose leaves are exactly the sampled ones. Asking for at least as
      many leaves as there are changes nothing. */
  method Prune(t: FlatTree, preorder: seq<nat>, nbLeaves: nat, ghost rank: seq<nat>)
    returns (pruned: FlatTree, sampled: seq<nat>, removed: seq<nat>)
    requires IsIndexOrder(preorder, |t.nodes|)
    requires ValidAt(t.nodes, rank, t.root)
    requires forall x | 0 <= x < |t.nodes| :: InTree(t.nodes, rank, t.root, x)
    requires LeavesHaveDepth(t.nodes)
    requires nbLeaves >= 1
    ensures sampled == FindDeepestNodes(t.nodes, nbLeaves)
    ensures |sampled| == Min(nbLeaves, |TreeLeaves(t.nodes, rank, t.root)|)
    ensures forall k | 0 <= k < |sampled| :: sampled[k] in TreeLeaves(t.nodes, rank, t.root)
    ensures forall x :: x in removed <==> x in TreeLeaves(t.nodes, rank, t.root) && x !in sampled
    ensures forall x | x in removed ::
              x < |t.nodes| && IsLeaf(t.nodes[x]) && forall k | 0 <= k < |sampled| ::
                Precedes(Entry(t.nodes, sampled[k]), Entry(t.nodes, x))
    ensures |pruned.nodes| == |t.nodes|
    ensures forall i | 0 <= i < |t.nodes| :: SameLabels(pruned.nodes[i], t.nodes[i])
    ensures ValidAt(pruned.nodes, rank, pruned.root)
    ensures TreeLeaves(pruned.nodes, rank, pruned.root) == Elems(sampled)
    ensures |TreeLeaves(pruned.nodes, rank, pruned.root)| == Min(nbLeaves, |TreeLeaves(t.nodes, rank, t.root)|)
    ensures nbLeaves >= |TreeLeaves(t.nodes, rank, t.root)| ==> removed == [] && pruned == t
    ensures removed == LeavesToBeRemoved(FindAllLeaves(t.nodes), sampled)
    ensures Distinct(removed)
    ensures Removable(t, removed)
    ensures |sampled| >= 1
    ensures pruned.nodes == RemoveAllUnsampled(t, removed).nodes
    ensures pruned.root == RootOf(pruned.nodes, rank, sampled[0])
  {
    sampled, removed := SampleLeaves(t, preorder, nbLeaves, rank);
    DistinctElems(sampled);
    pruned := SpliceAndReroot(t, rank, removed, sampled[0]);
  }

  /** Splice out the listed leaves in list order and recover the root by
      climbing from a leaf that stays: the arena is exactly the fold of the
      splice, and the root is the end of that leaf's parent chain in it. */
  method SpliceAndReroot(t: FlatTree, ghost rank: seq<nat>, removed: seq<nat>, keep: nat)
    returns (pruned: FlatTree)
    requires ValidAt(t.nodes, rank, t.root)
    requires forall x | x in removed :: x in TreeLeaves(t.nodes, rank, t.root)
    requires Distinct(removed)
    requires keep in TreeLeaves(t.nodes, rank, t.root) && keep !in removed
    ensures |pruned.nodes| == |t.nodes|
    ensures forall i | 0 <= i < |t.nodes| :: SameLabels(pruned.nodes[i], t.nodes[i])
    ensures ValidAt(pruned.nodes, rank, pruned.root)
    ensures TreeLeaves(pruned.nodes, rank, pruned.root) == TreeLeaves(t.nodes, rank, t.root) - Elems(removed)
    ensures removed == [] ==> pruned == t
    ensures Removable(t, removed)
    ensures pruned.nodes == RemoveAllUnsampled(t, removed).nodes
    ensures pruned.root == RootOf(pruned.nodes, rank, keep)
  {
    forall i | 0 <= i < |removed| ensures removed[i] in TreeLeaves(t.nodes, rank, t.root) {
      assert removed[i] in removed;
    }
    RemoveAllKeepsTree(t, rank, t.root, removed, keep);
    var spliced := RemoveAllUnsampled(t, removed);
    var root := FindRoot(spliced, keep, rank);
    pruned := spliced.(root := root);
    if removed == [] {
      assert RootOf(t.nodes, rank, keep) == t.root;
    }
  }

  /** With nothing sampled every leaf is listed for removal, and the source
      aborts inside the splice loop: the last leaf has by then become the
      root and has no parent. */
  lemma NothingSampledAborts(t: FlatTree, rank: seq<nat>)
    requires ValidAt(t.nodes, rank, t.root)
    requires forall x | 0 <= x < |t.nodes| :: InTree(t.nodes, rank, t.root, x)
    requires LeavesHaveDepth(t.nodes)
    ensures var removed := LeavesToBeRemoved(FindAllLeaves(t.nodes), FindDeepestNodes(t.nodes, 0));
            Elems(removed) == TreeLeaves(t.nodes, rank, t.root) && !Removable(t, removed)
  {
    var leaves := FindAllLeaves(t.nodes);
    var sampled := FindDeepestNodes(t.nodes, 0);
    var removed := LeavesToBeRemoved(leaves, sampled);
    assert sampled == [];
    FreshTreeLeaves(t, rank);
    DistinctElems(leaves);
    SubsequenceIncreasing(removed, leaves);
    assert Elems(removed) == Elems(leaves);
    forall i | 0 <= i < |removed|
      ensures removed[i] in TreeLeaves(t.nodes, rank, t.root)
    {
      assert removed[i] in Elems(removed);
    }
    RemoveAllLeavesAborts(t, rank, t.root, removed);
  }

  /** On a freshly flattened tree the leaves found by traversal are the
      leaves of the tree. */
  lemma FreshTreeLeaves(t: FlatTree, rank: seq<nat>)
    requires Ranked(t.nodes, rank)
    requires forall x | 0 <= x < |t.nodes| :: InTree(t.nodes, rank, t.root, x)
    ensures Elems(FindAllLeaves(t.nodes)) == TreeLeaves(t.nodes, rank, t.root)
  {
  }


  /** The same facts, stated over visit positions only. */
  lemma ComplementFacts(visit: seq<FlatNode>, nbLeaves: nat,
                        leaves: seq<nat>, sampled: seq<nat>, removed: seq<nat>)
    requires LeavesHaveDepth(visit)
    requires leaves == FindAllLeaves(visit)
    requires sampled == FindDeepestNodes(visit, nbLeaves)
    requires removed == LeavesToBeRemoved(leaves, sampled)
    ensures |Elems(leaves)| == |leaves|
    ensures forall k | 0 <= k < |sampled| :: sampled[k] in Elems(leaves)
    ensures forall x | x in removed ::
              x < |visit| && IsLeaf(visit[x]) && forall k | 0 <= k < |sampled| ::
                Precedes(Entry(visit, sampled[k]), Entry(visit, x))
    ensures Distinct(removed)
    ensures Elems(leaves) - Elems(removed) == Elems(sampled)
    ensures nbLeaves >= |leaves| ==> removed == []
  {
    SampledAreLeaves(visit, nbLeaves, leaves, sampled);
    DistinctElems(leaves);
    SubsequenceIncreasing(removed, leaves);
    ComplementPartition(visit, nbLeaves, leaves, sampled, removed);
  }

  lemma SampledAreLeaves(visit: seq<FlatNode>, nbLeaves: nat, leaves: seq<nat>, sampled: seq<nat>)
    requires LeavesHaveDepth(visit)
    requires leaves == FindAllLeaves(visit)
    requires sampled == FindDeepestNodes(visit, nbLeaves)
    ensures forall k | 0 <= k < |sampled| :: sampled[k] in Elems(leaves)
    ensures Distinct(sampled) && |Elems(sampled)| == |sampled|
  {
    forall k | 0 <= k < |sampled| ensures sampled[k] in Elems(leaves) {
      assert sampled[k] in leaves;
    }
    DistinctElems(sampled);
  }

  /** Sampled and removed leaves split the leaves; asking for at least as
      many leaves as there are removes none. */
  lemma ComplementPartition(visit: seq<FlatNode>, nbLeaves: nat,
                            leaves: seq<nat>, sampled: seq<nat>, removed: seq<nat>)
    requires LeavesHaveDepth(visit)
    requires leaves == FindAllLeaves(visit)
    requires sampled == FindDeepestNodes(visit, nbLeaves)
    requires removed == LeavesToBeRemoved(leaves, sampled)
    ensures Elems(leaves) - Elems(removed) == Elems(sampled)
    ensures nbLeaves >= |leaves| ==> removed == []
  {
    SampledAreLeaves(visit, nbLeaves, leaves, sampled);
    assert Elems(leaves) - Elems(removed) == Elems(sampled);
    if nbLeaves >= |leaves| && removed != [] {
      var x := removed[0];
      assert x in removed;
      assert x in Elems(leaves) && x !in Elems(sampled);
      DistinctElems(leaves);
      assert Elems(sampled) <= Elems(leaves);
      SubsetSameSize(Elems(sampled), Elems(leaves));
      assert false;
    }
  }
}
