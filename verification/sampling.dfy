/**
 * Leaf discovery, depth ranking and the complement of the sampled leaves.
 * All three work on the records in the order a traversal visits them and
 * speak of positions in that visit order.
 */
module Sampling {
  import opened Wrappers
  import opened FlatTrees

  predicate Increasing(s: seq<nat>) {
    forall i, j | 0 <= i < j < |s| :: s[i] < s[j]
  }

  /** The positions, from `from` on, of the visited records that have no child. */
  function LeafPositionsFrom(visit: seq<FlatNode>, from: nat): (r: seq<nat>)
    requires from <= |visit|
    ensures Increasing(r)
    ensures forall k | 0 <= k < |r| :: from <= r[k] < |visit| && IsLeaf(visit[r[k]])
    ensures forall i | from <= i < |visit| && IsLeaf(visit[i]) :: i in r
    decreases |visit| - from
  {
    if from == |visit| then []
    else if IsLeaf(visit[from]) then [from] + LeafPositionsFrom(visit, from + 1)
    else LeafPositionsFrom(visit, from + 1)
  }

  /** Leaf discovery: the visit positions of all leaves, in visit order. */
  function FindAllLeaves(visit: seq<FlatNode>): (r: seq<nat>)
    ensures Increasing(r)
    ensures forall k | 0 <= k < |r| :: r[k] < |visit| && IsLeaf(visit[r[k]])
    ensures forall i | 0 <= i < |visit| && IsLeaf(visit[i]) :: i in r
  {
    LeafPositionsFrom(visit, 0)
  }

  /** Every leaf carries a depth (the ranking unwraps it). */
  predicate LeavesHaveDepth(visit: seq<FlatNode>) {
    forall i | 0 <= i < |visit| && IsLeaf(visit[i]) :: visit[i].depth.Some?
  }

  /** A leaf's visit position paired with its depth. */
  datatype LeafDepth = LeafDepth(pos: nat, depth: real)

  /** The entry describes the leaf at visit position `e.pos`. */
  predicate DescribesLeaf(visit: seq<FlatNode>, e: LeafDepth) {
    e.pos < |visit| && IsLeaf(visit[e.pos]) && visit[e.pos].depth == Some(e.depth)
  }

  function LeavesWithDepths(visit: seq<FlatNode>): (r: seq<LeafDepth>)
    requires LeavesHaveDepth(visit)
    ensures |r| == |FindAllLeaves(visit)|
    ensures forall k | 0 <= k < |r| :: r[k].pos == FindAllLeaves(visit)[k] && DescribesLeaf(visit, r[k])
  {
    var leaves := FindAllLeaves(visit);
    seq(|leaves|, k requires 0 <= k < |leaves| => LeafDepth(leaves[k], visit[leaves[k]].depth.value))
  }

  /** The ranking order: deeper first, and among equal depths the earlier
      visit position first. */
  predicate Precedes(a: LeafDepth, b: LeafDepth) {
    a.depth > b.depth || (a.depth == b.depth && a.pos < b.pos)
  }

  predicate DepthSorted(s: seq<LeafDepth>) {
    forall i, j | 0 <= i < j < |s| :: s[i].depth >= s[j].depth
  }

  predicate PositionsIncreasing(s: seq<LeafDepth>) {
    forall i, j | 0 <= i < j < |s| :: s[i].pos < s[j].pos
  }

  predicate RankOrdered(s: seq<LeafDepth>) {
    forall i, j | 0 <= i < j < |s| :: Precedes(s[i], s[j])
  }

  /** `e` is at least as deep as every entry of `s`. */
  predicate NotShallower(e: LeafDepth, s: seq<LeafDepth>) {
    forall k | 0 <= k < |s| :: e.depth >= s[k].depth
  }

  /** `e` precedes every entry of `s` in the ranking order. */
  predicate PrecedesAll(e: LeafDepth, s: seq<LeafDepth>) {
    forall k | 0 <= k < |s| :: Precedes(e, s[k])
  }

  /** Every entry of `s` has a visit position after `p`. */
  predicate AllAfter(p: nat, s: seq<LeafDepth>) {
    forall k | 0 <= k < |s| :: p < s[k].pos
  }

  /** Put `x` before the first entry that is not deeper than it. */
  function Insert(x: LeafDepth, s: seq<LeafDepth>): (r: seq<LeafDepth>)
    ensures multiset(r) == multiset{x} + multiset(s)
  {
    if |s| == 0 then [x]
    else if s[0].depth <= x.depth then [x] + s
    else
      assert s == [s[0]] + s[1..];
      [s[0]] + Insert(x, s[1..])
  }

  lemma {:induction false} InsertNotShallower(e: LeafDepth, x: LeafDepth, s: seq<LeafDepth>)
    requires NotShallower(e, s) && e.depth >= x.depth
    ensures NotShallower(e, Insert(x, s))
  {
    if |s| > 0 && s[0].depth > x.depth {
      InsertNotShallower(e, x, s[1..]);
    }
  }

  lemma {:induction false} InsertPrecedesAll(e: LeafDepth, x: LeafDepth, s: seq<LeafDepth>)
    requires PrecedesAll(e, s) && Precedes(e, x)
    ensures PrecedesAll(e, Insert(x, s))
  {
    if |s| > 0 && s[0].depth > x.depth {
      InsertPrecedesAll(e, x, s[1..]);
    }
  }

  lemma {:induction false} InsertAllAfter(p: nat, x: LeafDepth, s: seq<LeafDepth>)
    requires AllAfter(p, s) && p < x.pos
    ensures AllAfter(p, Insert(x, s))
  {
    if |s| > 0 && s[0].depth > x.depth {
      InsertAllAfter(p, x, s[1..]);
    }
  }

  /** Inserting into a depth-sorted sequence keeps it depth-sorted. */
  lemma {:induction false} InsertDepthSorted(x: LeafDepth, s: seq<LeafDepth>)
    requires DepthSorted(s)
    ensures DepthSorted(Insert(x, s))
  {
    if |s| > 0 && s[0].depth > x.depth {
      InsertDepthSorted(x, s[1..]);
      InsertNotShallower(s[0], x, s[1..]);
    }
  }

  /** Inserting an entry that was visited before all others keeps the
      ranking order: it lands after the deeper entries and before the
      entries of equal depth. */
  lemma {:induction false} InsertRankOrdered(x: LeafDepth, s: seq<LeafDepth>)
    requires RankOrdered(s) && AllAfter(x.pos, s)
    ensures RankOrdered(Insert(x, s))
  {
    if |s| > 0 && s[0].depth > x.depth {
      InsertRankOrdered(x, s[1..]);
      InsertPrecedesAll(s[0], x, s[1..]);
    }
  }

  /** Stable sort by depth, deepest first (insertion sort). */
  function SortByDepth(s: seq<LeafDepth>): (r: seq<LeafDepth>)
    ensures multiset(r) == multiset(s)
    ensures DepthSorted(r)
    ensures PositionsIncreasing(s) ==> RankOrdered(r)
  {
    if |s| == 0 then []
    else
      assert s == [s[0]] + s[1..];
      var rest := SortByDepth(s[1..]);
      InsertDepthSorted(s[0], rest);
      if PositionsIncreasing(s) then
        PermutationAllAfter(s[0].pos, s[1..], rest);
        InsertRankOrdered(s[0], rest);
        Insert(s[0], rest)
      else
        Insert(s[0], rest)
  }

  /** A rearrangement of entries all visited after `p` is still all visited after `p`. */
  lemma PermutationAllAfter(p: nat, s: seq<LeafDepth>, r: seq<LeafDepth>)
    requires multiset(r) == multiset(s) && AllAfter(p, s)
    ensures AllAfter(p, r)
  {
    forall k | 0 <= k < |r| ensures p < r[k].pos {
      assert r[k] in multiset(s);
    }
  }

  function Min(a: nat, b: nat): nat {
    if a <= b then a else b
  }

  function Entry(visit: seq<FlatNode>, pos: nat): LeafDepth
    requires pos < |visit| && visit[pos].depth.Some?
  {
    LeafDepth(pos, visit[pos].depth.value)
  }

  /** The visit positions of the first `m` entries of `sorted`. */
  function TakePositions(sorted: seq<LeafDepth>, m: nat): (r: seq<nat>)
    requires m <= |sorted|
    ensures |r| == m && forall k | 0 <= k < m :: r[k] == sorted[k].pos
  {
    seq(m, k requires 0 <= k < m => sorted[k].pos)
  }

  /** Depth ranking: the `nbLeaves` deepest leaves, deepest first, ties in
      visit order. */
  function FindDeepestNodes(visit: seq<FlatNode>, nbLeaves: nat): (r: seq<nat>)
    requires LeavesHaveDepth(visit)
    ensures |r| == Min(nbLeaves, |FindAllLeaves(visit)|)
    ensures forall k | 0 <= k < |r| :: r[k] < |visit| && IsLeaf(visit[r[k]])
    ensures forall i, j | 0 <= i < j < |r| ::
              r[i] != r[j] && Precedes(Entry(visit, r[i]), Entry(visit, r[j]))
    ensures forall p, k | 0 <= p < |visit| && IsLeaf(visit[p]) && p !in r && 0 <= k < |r| ::
              Precedes(Entry(visit, r[k]), Entry(visit, p))
  {
    var sorted := SortByDepth(LeavesWithDepths(visit));
    var m := Min(nbLeaves, |sorted|);
    RankedEntries(visit);
    RankedPrefix(visit, sorted, m);
    TakePositions(sorted, m)
  }

  /** The sorted entries describe the leaves, each exactly once, in ranking order. */
  lemma RankedEntries(visit: seq<FlatNode>)
    requires LeavesHaveDepth(visit)
    ensures var sorted := SortByDepth(LeavesWithDepths(visit));
            && |sorted| == |FindAllLeaves(visit)|
            && RankOrdered(sorted)
            && (forall k | 0 <= k < |sorted| :: DescribesLeaf(visit, sorted[k]))
            && (forall p | 0 <= p < |visit| && IsLeaf(visit[p]) ::
                  exists j :: 0 <= j < |sorted| && sorted[j] == Entry(visit, p))
  {
    var entries := LeavesWithDepths(visit);
    var sorted := SortByDepth(entries);
    assert |sorted| == |entries| by {
      assert |multiset(sorted)| == |multiset(entries)|;
    }
    assert PositionsIncreasing(entries);
    forall k | 0 <= k < |sorted| ensures DescribesLeaf(visit, sorted[k]) {
      assert sorted[k] in multiset(entries);
    }
    forall p | 0 <= p < |visit| && IsLeaf(visit[p])
      ensures exists j :: 0 <= j < |sorted| && sorted[j] == Entry(visit, p)
    {
      var i :| 0 <= i < |entries| && FindAllLeaves(visit)[i] == p;
      assert entries[i] == Entry(visit, p);
      assert entries[i] in multiset(sorted);
    }
  }

  /** The positions of the first `m` ranked entries are distinct leaves in
      ranking order, and every leaf left out is ranked after all of them. */
  lemma RankedPrefix(visit: seq<FlatNode>, sorted: seq<LeafDepth>, m: nat)
    requires LeavesHaveDepth(visit) && m <= |sorted| && RankOrdered(sorted)
    requires forall k | 0 <= k < |sorted| :: DescribesLeaf(visit, sorted[k])
    requires forall p | 0 <= p < |visit| && IsLeaf(visit[p]) ::
               exists j :: 0 <= j < |sorted| && sorted[j] == Entry(visit, p)
    ensures var r := TakePositions(sorted, m);
            && (forall k | 0 <= k < |r| :: r[k] < |visit| && IsLeaf(visit[r[k]]))
            && (forall i, j | 0 <= i < j < |r| ::
                  r[i] != r[j] && Precedes(Entry(visit, r[i]), Entry(visit, r[j])))
            && (forall p, k | 0 <= p < |visit| && IsLeaf(visit[p]) && p !in r && 0 <= k < |r| ::
                  Precedes(Entry(visit, r[k]), Entry(visit, p)))
  {
  }


  /** `a` is `b` with some elements left out, the rest in the same order. */
  ghost predicate IsSubsequence<T>(a: seq<T>, b: seq<T>)
    decreases |b|
  {
    |a| == 0 || (|b| > 0 && ((a[0] == b[0] && IsSubsequence(a[1..], b[1..])) || IsSubsequence(a, b[1..])))
  }

  /** The complement: the leaves that were not sampled, in their order. */
  function LeavesToBeRemoved(leaves: seq<nat>, sampled: seq<nat>): (r: seq<nat>)
    ensures IsSubsequence(r, leaves)
    ensures forall x :: x in r <==> x in leaves && x !in sampled
    ensures (forall x | x in leaves :: x in sampled) ==> r == []
  {
    if |leaves| == 0 then []
    else if leaves[0] in sampled then LeavesToBeRemoved(leaves[1..], sampled)
    else [leaves[0]] + LeavesToBeRemoved(leaves[1..], sampled)
  }

  /** Leaving elements out of an increasing sequence keeps it increasing. */
  lemma {:induction false} SubsequenceIncreasing(a: seq<nat>, b: seq<nat>)
    requires IsSubsequence(a, b) && Increasing(b)
    ensures Increasing(a)
    decreases |b|
  {
    if |a| == 0 {
    } else if a[0] == b[0] && IsSubsequence(a[1..], b[1..]) {
      SubsequenceIncreasing(a[1..], b[1..]);
      SubsequenceMembers(a[1..], b[1..]);
      forall i, j | 0 <= i < j < |a| ensures a[i] < a[j] {
        if i > 0 {
          assert a[i] == a[1..][i - 1] && a[j] == a[1..][j - 1];
        } else {
          assert a[j] in b[1..];
        }
      }
    } else {
      SubsequenceIncreasing(a, b[1..]);
    }
  }

  lemma {:induction false} SubsequenceMembers<T>(a: seq<T>, b: seq<T>)
    requires IsSubsequence(a, b)
    ensures forall x | x in a :: x in b
    decreases |b|
  {
    if |a| == 0 {
    } else if a[0] == b[0] && IsSubsequence(a[1..], b[1..]) {
      SubsequenceMembers(a[1..], b[1..]);
      assert a == [a[0]] + a[1..];
    } else {
      SubsequenceMembers(a, b[1..]);
    }
  }
}
