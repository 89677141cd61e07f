# Leaf-pruning engine of `extract_extant_script`, in Dafny

`extract_extant_script` reads a phylogenetic species tree in Newick notation
and keeps only its `n` most recent (deepest) leaves. Before pruning, the tree is
flattened into an index-addressed *flat tree*. This is an arena of records,
each with `parent`, `left_child`, `right_child`, `name`, branch length and
`depth`, plus a `root` index. The pruning engine in `src/main.rs` then:

1. lists the leaves (`find_all_leaves`);
2. ranks them by depth, deepest first, with a stable sort, and keeps the
   first `n` (`find_deepest_nodes`);
3. takes the complement (`leaves_to_be_removed`);
4. splices each unwanted leaf out together with its parent. The leaf's
   sibling moves into the parent's slot under the grandparent
   (`change_tree`, folded by `remove_all_unsampled`);
5. climbs parent links from the first sampled leaf to find the new root
   (`find_root`).

This project models those five steps and their composition (lines 217-226 of
`species_tree_sample_to_string`) and proves their contracts.

Modules:

- `Wrappers`: `Option`.
- `Collections`: a sequence's element set, distinctness, and small set facts.
- `FlatTrees`: the data model (`FlatNode`, `FlatTree`) and the tree invariant
  `ValidAt`, plus root recovery (`FindRoot`).
  - Acyclicity of parent chains is certified by a ghost `rank: seq<nat>`.
    Every parent link goes to a record of strictly smaller rank (`Ranked`).
  - A record belongs to the tree rooted at `r` when its parent chain ends at
    `r` (`InTree`, via `RootOf`).
  - `ValidAt` asks every member to have zero or two distinct children. Each
    child must link back to the member, and the member's parent must hold it
    in a child slot.
  - Records cut off by earlier splices are orphans. They are not members, and
    nothing constrains them.
- `Pruning`: the splice (`ChangeTree`), the fold (`RemoveAllUnsampled`), and
  the proofs that both preserve the tree and remove exactly the listed leaves.
- `Sampling`: leaf discovery, the stable depth sort (insertion sort), the
  ranking and the complement.
- `Pipeline`: the composition.

Modelling choices:

- Depth is a `real`. Only its order matters.
- Arena indices and counts are `nat`. Rust's `usize` cannot overflow here,
  because every index stays below the arena length.
- Each `.expect`, `.unwrap` or out-of-range index in the source aborts the
  program. These become preconditions:
  - `CanChange` for `change_tree`;
  - `Removable` for the fold;
  - `LeavesHaveDepth` for the ranking;
  - `nbLeaves >= 1`, which excludes the abort inside `remove_all_unsampled`
    (see below).
- `find_all_leaves` and `find_deepest_nodes` return positions in a pre-order
  enumeration (`enumerate()` at src/main.rs:83 and :105). The driver later
  uses these positions as arena indices (src/main.rs:225 and :248). The
  source therefore assumes that the pre-order traversal visits record `i` at
  position `i`. The model makes that assumption explicit:
  - `SampleLeaves` and `Prune` take the traversal order `preorder` as a
    parameter;
  - they require `IsIndexOrder(preorder, |t.nodes|)`;
  - they require every record to belong to the tree rooted at `t.root`, as in
    a freshly flattened tree.
- For `nbLeaves == 0`, nothing is sampled and every leaf is listed for
  removal. The source then aborts inside `remove_all_unsampled`
  (src/main.rs:222), before `sampled_leaves[0]` is reached: each splice
  removes one leaf, so the last listed leaf has become the root by the time
  it is spliced, and `change_tree` finds no parent (src/main.rs:25-27).
  `Pipeline.NothingSampledAborts` proves this abort, and `Prune` requires
  `nbLeaves >= 1`.
- The code does not check that the spliced index is a leaf, or that it sits
  in one of its parent's slots. `ChangeTree` follows the code: its
  precondition is only what the code unwraps or indexes. The slot-agreement
  facts are proved about valid trees (`SpliceSite`) instead of being checked.

## Model

| member | source | states |
|---|---|---|
| `FlatTrees.RootOf` | src/main.rs:149-157 | Reference definition of root recovery: following parent links from any record ends at a record of the arena that has no parent, at a rank no larger than the start's. |
| `FlatTrees.FindRoot` | src/main.rs:149-157 | The loop terminates when parent chains are acyclic, and returns a parentless record. That record is the end of the start's parent chain (`RootOf`). It is the start itself when the start has no parent. |
| `FlatTrees.ValidTreeHasLeaf` | src/main.rs:225 | A valid tree has at least one leaf, so asking for one or more deepest leaves yields a non-empty sample. |
| `Pruning.ChangeTree` | src/main.rs:23-51 | The splice keeps the arena length, the `root` field and every name, length and depth. The parent loses its parent link and the sibling gets the old grandparent link, which may be `None`. In the grandparent, exactly the slot that held the parent now holds the sibling. No other parent link or child slot changes. |
| `Pruning.SpliceSite` | src/main.rs:25-34 | In a valid tree, splicing a non-root leaf never aborts. The parent is internal and holds the leaf and the sibling, and only them. The sibling links back to the parent. The grandparent is neither of them, and it is absent exactly when the parent is the root. |
| `Pruning.SpliceRanked` | src/main.rs:37-40 | After a splice, parent chains are still acyclic under the same rank, because the sibling's new parent ranks below its old one. |
| `Pruning.SpliceRootOf` | src/main.rs:34-49 | After a splice, every record except the leaf and its parent keeps the end of its parent chain. The exception is the old tree, which is now rooted at the sibling when the parent was the root. |
| `Pruning.ChangeTreeKeepsTree` | src/main.rs:12-51 | One splice of a leaf of a valid tree leaves a valid tree rooted at the end of the sibling's parent chain. Every member still has 0 or 2 children. The members are the old ones minus the leaf and its parent, and the leaves are the old ones minus the removed leaf. |
| `Pruning.RemoveAllUnsampled` | src/main.rs:63-67 | The left fold of the splice keeps the arena length, the `root` field and every record's name, length and depth. |
| `Pruning.RemoveAllKeepsTree` | src/main.rs:53-67 | Distinct leaves of a valid tree can be spliced out in list order without an abort, as long as some other leaf stays. The result is a valid tree rooted at the end of that leaf's parent chain, and its leaves are the old ones minus the listed ones. |
| `Sampling.FindAllLeaves` | src/main.rs:80-87 | Returns, in increasing visit position, exactly the positions whose record has neither child. Every result is a leaf and no leaf is missing. |
| `Sampling.SortByDepth` | src/main.rs:110-111 | The sort is a permutation and is non-increasing in depth. When the input positions increase, as `enumerate` makes them, equal depths keep their input order. |
| `Sampling.FindDeepestNodes` | src/main.rs:101-115 | Returns `min(nbLeaves, #leaves)` distinct leaf positions, deepest first, with ties in visit order. Every leaf left out ranks after every selected one: it is not deeper, and on equal depth it comes later. |
| `Sampling.LeavesToBeRemoved` | src/main.rs:129-135 | The result is a subsequence of `leaves` (same order). It holds exactly the leaves not in `sampled`, so it is disjoint from them and covers the rest, and it is empty when every leaf is sampled. |
| `Sampling.SubsequenceIncreasing` | src/main.rs:129-135 | Filtering an increasing list of leaf positions keeps it increasing, so no leaf is scheduled for removal twice. |
| `Pruning.RemoveAllLeavesAborts` | src/main.rs:23-27 | Listing every leaf of a valid tree, each once, for removal makes some splice abort: the fold is never `Removable`, because the last listed leaf is by then the root and has no parent. |
| `Pipeline.SampleLeaves` | src/main.rs:217-221 | On a freshly flattened tree, the sample is exactly `find_deepest_nodes` and the removal list exactly `leaves_to_be_removed` of the traversal's leaves. Stated over the tree: the sample is `min(nbLeaves, #leaves)` distinct leaves of the tree, deepest first with ties in visit order. The removal list holds the other leaves, each once, and every removed leaf ranks after every sampled one: it is not deeper, and on equal depth it was visited later. |
| `Pipeline.NothingSampledAborts` | src/main.rs:217-222 | With `nbLeaves == 0` the removal list is every leaf of the tree, and splicing it out aborts, so the driver fails inside `remove_all_unsampled` before it reaches `sampled_leaves[0]`. |
| `Pipeline.SpliceAndReroot` | src/main.rs:222-226 | Splicing out distinct leaves of a valid tree while one leaf stays never aborts. The resulting arena is exactly the list-order fold of the splice, and its `root` is where the kept leaf's parent chain ends. That gives a valid tree whose leaves are the old ones minus the spliced ones. Names, lengths and depths are unchanged, and an empty list returns the flat tree unchanged. |
| `Pipeline.Prune` | src/main.rs:217-226 | For `nbLeaves >= 1`, the sample is exactly `find_deepest_nodes`: leaves of the input tree, with every removed leaf ranking after every sampled one. The removal list is exactly `leaves_to_be_removed`, with no repeats, and no splice aborts. The pruned arena is exactly the fold of the splice over that list, in its order. Its `root` is where the first sampled leaf's parent chain ends, which makes a valid tree whose leaves are exactly the sampled set, `min(nbLeaves, #leaves)` of them. Names, lengths and depths are unchanged. When `nbLeaves` is at least the number of leaves, nothing is removed and the flat tree is returned unchanged. |
## Left out

- File and directory I/O in `species_tree_sample_to_string`:
  `create_dir_all`, `read_to_string`, `File::create` and `write_all`
  (src/main.rs:187-195, 240-243). They are plumbing around the pure core.
- Command-line handling in `main` (src/main.rs:258-302): argument count,
  `usize` parsing, printing.
- Everything from the external `newick_parser` crate, whose source is not part
  of this model: parsing, `newick_to_tree`, `zero_root_length`,
  `assign_depths`, `to_flat_tree`, `to_node`, `depths_to_lengths` and
  `node_to_newick`.
  - Their effect on the flat tree enters only as preconditions of
    `SampleLeaves` and `Prune`: a valid tree, every record in it, and every
    leaf carrying a depth.
  - The traversal `FlatTree::iter(PreOrder)` enters as the `preorder`
    parameter, which must be the arena's index order.
- The "root depth not found" error after `to_node` (src/main.rs:232-234). It
  depends on `to_node`, which is not modelled.
- The projection of sampled and removed positions to leaf names
  (src/main.rs:246-253). It reads `name` fields, which every step provably
  leaves unchanged.
- Floating point: depth is a `real`, so the NaN abort of
  `partial_cmp(...).unwrap()` (src/main.rs:111) is not modelled.
- The unused `regex` import (src/main.rs:6).
- Sampling.SortByDepth: stability is stated as "equal depths keep visit
  order" only for inputs whose positions increase. This is the only kind of
  input the ranking gives it. The general "equal keys keep input order" law of
  `sort_by` for arbitrary inputs is not stated.
- FlatTrees.FindRoot: takes the acyclicity certificate `rank` as a ghost
  argument and requires it. On an arena with a parent cycle the source loops
  forever, and that case is not modelled.
- Pruning.RemoveAllUnsampled: its precondition `Removable` is exactly
  "no splice of the fold aborts". Validity-based conditions that imply it are
  proved separately (`RemoveAllKeepsTree`). Splicing orders that abort are not
  modelled.
- Rust's `sort_by` is a merge sort, and the model uses an insertion sort.
  Both are stable, so for the same input they give the same output.
