/** The auth tree over one-time keys: the recursive builders of `core/src/lib.rs`
    and the bottom-up builder of `services/tzel/src/proof_bench.rs`. */
module Xmss {
  import opened Bytes
  import opened Merkle
  import opened Wots
  import opened Wrappers
  import WotsAuth

  const AUTH_DEPTH: nat := 16
  const MAX_BENCH_INPUTS: nat := 7

  /** The leaf of a key index, and how two children at (level, index) are joined;
      the builders themselves look at neither, so they are generic in the digest. */
  type LeafAt<F> = nat -> F
  type JoinAt<!F> = (nat, nat, F, F) -> F

  /** `wots_pk_to_leaf(pub_seed, i, &wots_pk(ask, i))`. */
  function Leaves(h: PartsHash, ask: Felt, pubSeed: Felt): LeafAt<Felt>
  {
    (i: nat) => WotsAuth.LTree(h, pubSeed, i % U32_LIMIT, WotsAuth.WotsPk(h, ask, i % U32_LIMIT))
  }

  /** `xmss_tree_node_hash`, with its casts to `u32`. */
  function Joins(h: PartsHash, pubSeed: Felt): JoinAt<Felt>
  {
    (level: nat, i: nat, left: Felt, right: Felt) =>
      h([pubSeed, PackAdrs(TAG_XMSS_TREE, 0, level % U32_LIMIT, i % U32_LIMIT, 0), left, right])
  }

  /** A start and height whose leaves all have `u32` indices. */
  predicate InRange(start: nat, height: nat)
  {
    height < 32 && start + Pow2(height) <= U32_LIMIT
  }

  /** `xmss_subtree_root`. */
  function SubtreeRoot<F>(leaf: LeafAt<F>, join: JoinAt<F>, start: nat, height: nat): F
    requires InRange(start, height)
    decreases height
  {
    if height == 0 then leaf(start)
    else
      var split := Pow2(height - 1);
      join(height - 1, Shift(start, height),
           SubtreeRoot(leaf, join, start, height - 1), SubtreeRoot(leaf, join, start + split, height - 1))
  }

  /** `xmss_root_and_path_inner`. */
  function RootAndPath<F>(leaf: LeafAt<F>, join: JoinAt<F>, start: nat, height: nat, target: nat): (F, Option<seq<F>>)
    requires InRange(start, height)
    decreases height
  {
    if height == 0 then (leaf(start), if start == target then Some([]) else None)
    else
      var mid := start + Pow2(height - 1);
      var left := if target < mid then RootAndPath(leaf, join, start, height - 1, target)
                  else (SubtreeRoot(leaf, join, start, height - 1), None);
      var right := if target >= mid then RootAndPath(leaf, join, mid, height - 1, target)
                   else (SubtreeRoot(leaf, join, mid, height - 1), None);
      var root := join(height - 1, Shift(start, height), left.0, right.0);
      (root,
       match (left.1, right.1)
       case (Some(path), _) => Some(path + [right.0])
       case (None, Some(path)) => Some(path + [left.0])
       case (None, None) => None)
  }

  // ----- The tree the builders are proved against

  /** Node `i` at a height: children at even and odd positions below. */
  function TreeNode<F>(leaf: LeafAt<F>, join: JoinAt<F>, height: nat, i: nat): F
  {
    if height == 0 then leaf(i)
    else join(height - 1, i, TreeNode(leaf, join, height - 1, 2 * i), TreeNode(leaf, join, height - 1, 2 * i + 1))
  }

  /** Recompute the root from a leaf, its index and its siblings, lowest first. */
  function FoldAddressed<F>(join: JoinAt<F>, level: nat, index: nat, current: F, siblings: seq<F>): F
    decreases |siblings|
  {
    if siblings == [] then current
    else
      var parent := if index % 2 == 0 then join(level, index / 2, current, siblings[0])
                    else join(level, index / 2, siblings[0], current);
      FoldAddressed(join, level + 1, index / 2, parent, siblings[1..])
  }

  /** The siblings of `target`'s ancestors, from height `from` on, lowest first. */
  function SiblingsAbove<F>(leaf: LeafAt<F>, join: JoinAt<F>, from: nat, index: nat, count: nat): (r: seq<F>)
    ensures |r| == count
    decreases count
  {
    if count == 0 then []
    else [TreeNode(leaf, join, from, Sibling(index))] + SiblingsAbove(leaf, join, from + 1, index / 2, count - 1)
  }

  lemma {:induction false} ShiftOfAligned(i: nat, height: nat)
    ensures Shift(i * Pow2(height), height) == i
  {
    if height == 0 {
    } else {
      assert i * Pow2(height) == 2 * (i * Pow2(height - 1));
      assert (i * Pow2(height)) / 2 == i * Pow2(height - 1);
      ShiftOfAligned(i, height - 1);
    }
  }

  /** `start` is the first leaf below node `i` of a height. */
  predicate Starts(start: nat, i: nat, height: nat)
  {
    InRange(start, height) && start == i * Pow2(height)
  }

  lemma Halves(start: nat, i: nat, height: nat)
    requires height > 0 && Starts(start, i, height)
    ensures Pow2(height) == 2 * Pow2(height - 1)
    ensures Starts(start, 2 * i, height - 1) && Starts(start + Pow2(height - 1), 2 * i + 1, height - 1)
    ensures InRange(start, height - 1) && InRange(start + Pow2(height - 1), height - 1)
    ensures Shift(start, height) == i
  {
    SplitRange(height, i);
    ShiftOfAligned(i, height);
  }

  /** From an aligned start, the recursive builder computes the tree's node. */
  lemma {:induction false} SubtreeIsNode<F>(leaf: LeafAt<F>, join: JoinAt<F>, start: nat, i: nat, height: nat)
    requires Starts(start, i, height)
    ensures SubtreeRoot(leaf, join, start, height) == TreeNode(leaf, join, height, i)
    decreases height
  {
    if height == 0 {
    } else {
      Halves(start, i, height);
      SubtreeIsNode(leaf, join, start, 2 * i, height - 1);
      SubtreeIsNode(leaf, join, start + Pow2(height - 1), 2 * i + 1, height - 1);
    }
  }

  /** The last sibling of a path is the neighbour just below its top. */
  lemma {:induction false} LastSibling<F>(leaf: LeafAt<F>, join: JoinAt<F>, from: nat, index: nat, count: nat)
    ensures SiblingsAbove(leaf, join, from, index, count + 1)
            == SiblingsAbove(leaf, join, from, index, count)
               + [TreeNode(leaf, join, from + count, Sibling(Shift(index, count)))]
    decreases count
  {
    if count == 0 {
    } else {
      LastSibling(leaf, join, from + 1, index / 2, count - 1);
      assert from + 1 + (count - 1) == from + count;
    }
  }

  lemma ShiftInside(start: nat, i: nat, height: nat, target: nat)
    requires Starts(start, i, height) && start <= target < start + Pow2(height)
    ensures Shift(target, height) == i
  {
    ShiftBounds(target, height);
    hide Shift, Pow2;
    var s, p := Shift(target, height), Pow2(height);
    if s < i {
      MultiplesApart(s, i, p);
    } else if s > i {
      MultiplesApart(i, s, p);
    }
  }

  lemma MultiplesApart(a: nat, b: nat, p: nat)
    requires a < b
    ensures (a + 1) * p == a * p + p <= b * p
  {
    assert b * p == (a + 1) * p + (b - a - 1) * p;
  }

  /** The root returned with a path is the root computed without one. */
  lemma {:induction false} SameRoot<F>(leaf: LeafAt<F>, join: JoinAt<F>, start: nat, height: nat, target: nat)
    requires InRange(start, height)
    ensures RootAndPath(leaf, join, start, height, target).0 == SubtreeRoot(leaf, join, start, height)
    decreases height
  {
    if height == 0 {
    } else {
      SameRoot(leaf, join, start, height - 1, target);
      SameRoot(leaf, join, start + Pow2(height - 1), height - 1, target);
    }
  }

  /** How the two halves' paths combine. */
  lemma PathStep<F>(leaf: LeafAt<F>, join: JoinAt<F>, start: nat, height: nat, target: nat)
    requires InRange(start, height) && height > 0
    ensures var mid := start + Pow2(height - 1);
            var inner := RootAndPath(leaf, join, if target < mid then start else mid, height - 1, target).1;
            RootAndPath(leaf, join, start, height, target).1 ==
              if inner.Some?
                then Some(inner.value + [SubtreeRoot(leaf, join, if target < mid then mid else start, height - 1)])
              else None
  {
  }

  lemma Neighbours(i: nat)
    ensures Sibling(2 * i) == 2 * i + 1 && Sibling(2 * i + 1) == 2 * i
  {
  }

  /** Below an aligned node, a target's last sibling is the root of the other half. */
  lemma OtherHalf<F>(leaf: LeafAt<F>, join: JoinAt<F>, start: nat, i: nat, height: nat, target: nat)
    requires height > 0 && Starts(start, i, height) && start <= target < start + Pow2(height)
    ensures var mid := start + Pow2(height - 1);
            SiblingsAbove(leaf, join, 0, target, height)
            == SiblingsAbove(leaf, join, 0, target, height - 1)
               + [SubtreeRoot(leaf, join, if target < mid then mid else start, height - 1)]
  {
    Halves(start, i, height);
    Neighbours(i);
    LastSibling(leaf, join, 0, target, height - 1);
    assert 0 + (height - 1) == height - 1;
    hide TreeNode, SiblingsAbove, Pow2, Shift, SubtreeRoot, Starts, InRange, Sibling;
    var mid := start + Pow2(height - 1);
    if target < mid {
      SubtreeIsNode(leaf, join, mid, 2 * i + 1, height - 1);
      ShiftInside(start, 2 * i, height - 1, target);
    } else {
      SubtreeIsNode(leaf, join, start, 2 * i, height - 1);
      ShiftInside(mid, 2 * i + 1, height - 1, target);
    }
  }

  /** The path that should be found below an aligned node. */
  ghost predicate PathFound<F>(leaf: LeafAt<F>, join: JoinAt<F>, start: nat, height: nat, target: nat)
    requires InRange(start, height)
  {
    RootAndPath(leaf, join, start, height, target).1
    == if start <= target < start + Pow2(height) then Some(SiblingsAbove(leaf, join, 0, target, height)) else None
  }

  /** It is found if the half on the target's side finds it. */
  lemma PathFromHalf<F>(leaf: LeafAt<F>, join: JoinAt<F>, start: nat, i: nat, height: nat, target: nat)
    requires height > 0 && Starts(start, i, height)
    requires var half := Pow2(height - 1);
             InRange(start, height - 1) && InRange(start + half, height - 1)
             && PathFound(leaf, join, if target < start + half then start else start + half, height - 1, target)
    ensures PathFound(leaf, join, start, height, target)
  {
    PathStep(leaf, join, start, height, target);
    Halves(start, i, height);
    hide RootAndPath, SiblingsAbove, Pow2, Shift, SubtreeRoot, Starts, InRange;
    if start <= target < start + Pow2(height) {
      OtherHalf(leaf, join, start, i, height, target);
    }
  }

  lemma {:induction false} PathIsFound<F>(leaf: LeafAt<F>, join: JoinAt<F>, start: nat, i: nat, height: nat,
                                          target: nat)
    requires Starts(start, i, height)
    ensures PathFound(leaf, join, start, height, target)
    decreases height
  {
    if height == 0 {
    } else {
      Halves(start, i, height);
      hide PathFound, InRange, Starts, Pow2, Shift;
      var mid := start + Pow2(height - 1);
      if target < mid {
        PathIsFound(leaf, join, start, 2 * i, height - 1, target);
      } else {
        PathIsFound(leaf, join, mid, 2 * i + 1, height - 1, target);
      }
      PathFromHalf(leaf, join, start, i, height, target);
    }
  }

  /** From an aligned start, a path is found exactly when the target lies below,
      and it holds the target's siblings. */
  lemma PathIsRight<F>(leaf: LeafAt<F>, join: JoinAt<F>, start: nat, i: nat, height: nat, target: nat)
    requires Starts(start, i, height)
    ensures RootAndPath(leaf, join, start, height, target).1
            == if start <= target < start + Pow2(height) then Some(SiblingsAbove(leaf, join, 0, target, height))
               else None
  {
    PathIsFound(leaf, join, start, i, height, target);
    hide RootAndPath, SiblingsAbove, Pow2;
  }

  lemma ParentOf<F>(leaf: LeafAt<F>, join: JoinAt<F>, from: nat, index: nat)
    ensures TreeNode(leaf, join, from + 1, index / 2) ==
            if index % 2 == 0
              then join(from, index / 2, TreeNode(leaf, join, from, index), TreeNode(leaf, join, from, Sibling(index)))
            else join(from, index / 2, TreeNode(leaf, join, from, Sibling(index)), TreeNode(leaf, join, from, index))
  {
  }

  /** Folding a node along its siblings reaches its ancestor. */
  lemma {:induction false} FoldReachesAncestor<F>(leaf: LeafAt<F>, join: JoinAt<F>, from: nat, index: nat, count: nat)
    ensures FoldAddressed(join, from, index, TreeNode(leaf, join, from, index),
                          SiblingsAbove(leaf, join, from, index, count))
            == TreeNode(leaf, join, from + count, Shift(index, count))
    decreases count
  {
    if count == 0 {
    } else {
      FirstSibling(leaf, join, from, index, count);
      ParentOf(leaf, join, from, index);
      hide TreeNode, SiblingsAbove, FoldAddressed;
      FoldReachesAncestor(leaf, join, from + 1, index / 2, count - 1);
      assert from + 1 + (count - 1) == from + count;
    }
  }

  lemma FirstSibling<F>(leaf: LeafAt<F>, join: JoinAt<F>, from: nat, index: nat, count: nat)
    requires count > 0
    ensures var current, sibling := TreeNode(leaf, join, from, index), TreeNode(leaf, join, from, Sibling(index));
            FoldAddressed(join, from, index, current, SiblingsAbove(leaf, join, from, index, count))
            == FoldAddressed(join, from + 1, index / 2,
                 if index % 2 == 0 then join(from, index / 2, current, sibling)
                   else join(from, index / 2, sibling, current),
                 SiblingsAbove(leaf, join, from + 1, index / 2, count - 1))
  {
    hide TreeNode;
    var siblings := SiblingsAbove(leaf, join, from, index, count);
    assert siblings[1..] == SiblingsAbove(leaf, join, from + 1, index / 2, count - 1);
  }

  /** Whatever path the builder returns folds the target's leaf to the root it
      returns, with node addresses obtained by shifting the leaf index. */
  lemma PathFoldsToRoot<F>(leaf: LeafAt<F>, join: JoinAt<F>, start: nat, i: nat, height: nat, target: nat)
    requires Starts(start, i, height)
    ensures var r := RootAndPath(leaf, join, start, height, target);
            && r.0 == SubtreeRoot(leaf, join, start, height)
            && (r.1.Some? <==> start <= target < start + Pow2(height))
            && (r.1.Some? ==> |r.1.value| == height && FoldAddressed(join, 0, target, leaf(target), r.1.value) == r.0)
  {
    SameRoot(leaf, join, start, height, target);
    PathIsRight(leaf, join, start, i, height, target);
    if RootAndPath(leaf, join, start, height, target).1.Some? {
      FoldReachesAncestor(leaf, join, 0, target, height);
      ShiftInside(start, i, height, target);
      SubtreeIsNode(leaf, join, start, i, height);
    }
  }

  // ----- Binding: every law names the address where two pairs would have to meet

  /** Two distinct pairs of children with the same parent at one address. */
  predicate JoinsCollide<F(==)>(join: JoinAt<F>, level: nat, i: nat, a: F, b: F, c: F, d: F)
  {
    join(level, i, a, b) == join(level, i, c, d) && !(a == c && b == d)
  }

  /** For the tree hash, such a pair is a collision of the hash on these inputs. */
  lemma TreeJoinsMeet(h: PartsHash, pubSeed: Felt, level: u32, i: u32, a: Felt, b: Felt, c: Felt, d: Felt)
    ensures JoinsCollide(Joins(h, pubSeed), level, i, a, b, c, d)
            <==> HashCollision(h, [pubSeed, PackAdrs(TAG_XMSS_TREE, 0, level, i, 0), a, b],
                                  [pubSeed, PackAdrs(TAG_XMSS_TREE, 0, level, i, 0), c, d])
  {
    hide PackAdrs;
    var adrs := PackAdrs(TAG_XMSS_TREE, 0, level, i, 0);
    var x, y := [pubSeed, adrs, a, b], [pubSeed, adrs, c, d];
    assert x[2..] == [a, b] && y[2..] == [c, d];
  }

  /** Level `d` of the fold joins another pair than the tree does, to the same digest. */
  predicate PathCollides<F(==)>(leaf: LeafAt<F>, join: JoinAt<F>, from: nat, index: nat, x: F, siblings: seq<F>, d: nat)
    requires d < |siblings|
  {
    var i, current := Shift(index, d), FoldAddressed(join, from, index, x, siblings[..d]);
    var left, right := TreeNode(leaf, join, from + d, 2 * (i / 2)), TreeNode(leaf, join, from + d, 2 * (i / 2) + 1);
    if i % 2 == 0 then JoinsCollide(join, from + d, i / 2, current, siblings[d], left, right)
    else JoinsCollide(join, from + d, i / 2, siblings[d], current, left, right)
  }

  ghost predicate PathIsClean<F>(leaf: LeafAt<F>, join: JoinAt<F>, from: nat, index: nat, x: F, siblings: seq<F>)
  {
    forall d: nat :: d < |siblings| ==> !PathCollides(leaf, join, from, index, x, siblings, d)
  }

  /** One step of a fold. */
  function ParentFrom<F>(join: JoinAt<F>, from: nat, index: nat, x: F, sibling: F): F
  {
    if index % 2 == 0 then join(from, index / 2, x, sibling) else join(from, index / 2, sibling, x)
  }

  lemma CleanTail<F>(leaf: LeafAt<F>, join: JoinAt<F>, from: nat, index: nat, x: F, siblings: seq<F>)
    requires siblings != [] && PathIsClean(leaf, join, from, index, x, siblings)
    ensures !PathCollides(leaf, join, from, index, x, siblings, 0)
    ensures PathIsClean(leaf, join, from + 1, index / 2, ParentFrom(join, from, index, x, siblings[0]), siblings[1..])
  {
    var parent := ParentFrom(join, from, index, x, siblings[0]);
    var (above, half, rest) := (from + 1, index / 2, siblings[1..]);
    forall d: nat | d < |rest|
      ensures !PathCollides(leaf, join, above, half, parent, rest, d)
    {
      assert siblings[..d + 1][1..] == rest[..d];
      assert FoldAddressed(join, from, index, x, siblings[..d + 1])
             == FoldAddressed(join, above, half, parent, rest[..d]);
      assert from + (d + 1) == above + d;
      hide TreeNode, FoldAddressed;
      assert !PathCollides(leaf, join, from, index, x, siblings, d + 1);
    }
  }

  lemma FootBinds<F>(leaf: LeafAt<F>, join: JoinAt<F>, from: nat, index: nat, x: F, siblings: seq<F>)
    requires siblings != [] && !PathCollides(leaf, join, from, index, x, siblings, 0)
    requires ParentFrom(join, from, index, x, siblings[0]) == TreeNode(leaf, join, from + 1, index / 2)
    ensures x == TreeNode(leaf, join, from, index) && siblings[0] == TreeNode(leaf, join, from, Sibling(index))
  {
    assert siblings[..0] == [];
    assert FoldAddressed(join, from, index, x, siblings[..0]) == x && Shift(index, 0) == index && from + 0 == from;
  }

  lemma {:induction false} FoldBinds<F>(leaf: LeafAt<F>, join: JoinAt<F>, from: nat, index: nat, x: F, siblings: seq<F>)
    requires PathIsClean(leaf, join, from, index, x, siblings)
    requires FoldAddressed(join, from, index, x, siblings)
             == TreeNode(leaf, join, from + |siblings|, Shift(index, |siblings|))
    ensures x == TreeNode(leaf, join, from, index) && siblings == SiblingsAbove(leaf, join, from, index, |siblings|)
    decreases |siblings|
  {
    if siblings == [] {
    } else {
      assert from + 1 + |siblings[1..]| == from + |siblings|;
      CleanTail(leaf, join, from, index, x, siblings);
      FoldBinds(leaf, join, from + 1, index / 2, ParentFrom(join, from, index, x, siblings[0]), siblings[1..]);
      FootBinds(leaf, join, from, index, x, siblings);
      assert siblings == [siblings[0]] + siblings[1..];
    }
  }

  /** On its own path a leaf meets no collision: both sides join the same pairs. */
  lemma OwnPathIsClean<F>(leaf: LeafAt<F>, join: JoinAt<F>, index: nat, depth: nat)
    ensures PathIsClean(leaf, join, 0, index, leaf(index), SiblingsAbove(leaf, join, 0, index, depth))
  {
    forall d: nat | d < depth
      ensures !PathCollides(leaf, join, 0, index, leaf(index), SiblingsAbove(leaf, join, 0, index, depth), d)
    {
      SiblingAt(leaf, join, 0, index, depth, d);
      FoldReachesAncestor(leaf, join, 0, index, d);
      assert TreeNode(leaf, join, 0, index) == leaf(index);
      hide TreeNode, FoldAddressed, SiblingsAbove, Shift;
    }
  }

  lemma {:induction false} SiblingAt<F>(leaf: LeafAt<F>, join: JoinAt<F>, from: nat, index: nat, count: nat, d: nat)
    requires d < count
    ensures SiblingsAbove(leaf, join, from, index, count)[d] == TreeNode(leaf, join, from + d, Sibling(Shift(index, d)))
    ensures SiblingsAbove(leaf, join, from, index, count)[..d] == SiblingsAbove(leaf, join, from, index, d)
    decreases d
  {
    if d == 0 {
    } else {
      SiblingAt(leaf, join, from + 1, index / 2, count - 1, d - 1);
      assert from + 1 + (d - 1) == from + d;
    }
  }

  /** For every join: a leaf and a path fold to the auth root under an index
      without meeting a collision exactly when they are that index's leaf and path. */
  lemma AuthRootBinds<F>(leaf: LeafAt<F>, join: JoinAt<F>, depth: nat, index: nat, x: F, siblings: seq<F>)
    requires InRange(0, depth) && index < Pow2(depth) && |siblings| == depth
    ensures FoldAddressed(join, 0, index, x, siblings) == SubtreeRoot(leaf, join, 0, depth)
            && PathIsClean(leaf, join, 0, index, x, siblings)
            <==> x == leaf(index) && RootAndPath(leaf, join, 0, depth, index).1 == Some(siblings)
  {
    hide RootAndPath, SubtreeRoot, PathIsClean;
    SubtreeIsNode(leaf, join, 0, 0, depth);
    PathIsRight(leaf, join, 0, 0, depth, index);
    PathFoldsToRoot(leaf, join, 0, 0, depth, index);
    OwnPathIsClean(leaf, join, index, depth);
    ShiftToZero(index, depth);
    if FoldAddressed(join, 0, index, x, siblings) == SubtreeRoot(leaf, join, 0, depth)
       && PathIsClean(leaf, join, 0, index, x, siblings) {
      FoldBinds(leaf, join, 0, index, x, siblings);
    }
  }

  // ----- Bottom-up

  /** `row` holds the tree's nodes at height `d`, all of them. */
  ghost predicate IsRow<F>(leaf: LeafAt<F>, join: JoinAt<F>, depth: nat, d: nat, row: seq<F>)
    requires d <= depth
  {
    |row| == Pow2(depth - d) && forall i :: 0 <= i < |row| ==> row[i] == TreeNode(leaf, join, d, i)
  }

  method JoinRow<F>(leaf: LeafAt<F>, join: JoinAt<F>, depth: nat, d: nat, row: seq<F>) returns (next: seq<F>)
    requires d < depth && IsRow(leaf, join, depth, d, row)
    ensures IsRow(leaf, join, depth, d + 1, next)
  {
    next := [];
    for i := 0 to |row| / 2
      invariant |next| == i
      invariant forall k :: 0 <= k < i ==> next[k] == TreeNode(leaf, join, d + 1, k)
    {
      next := next + [join(d, i, row[2 * i], row[2 * i + 1])];
    }
    assert Pow2(depth - d) == 2 * Pow2(depth - d - 1);
  }

  /** `build_auth_root_and_paths`: the whole tree row by row, with the paths of
      the first leaves read off on the way. */
  method BuildAuthRootAndPaths<F>(leaf: LeafAt<F>, join: JoinAt<F>, depth: nat, prefixLen: nat)
    returns (root: F, paths: seq<seq<F>>)
    requires InRange(0, depth) && 0 < prefixLen <= MAX_BENCH_INPUTS && prefixLen <= Pow2(depth)
    ensures root == SubtreeRoot(leaf, join, 0, depth)
    ensures |paths| == prefixLen
    ensures forall i :: 0 <= i < prefixLen ==> RootAndPath(leaf, join, 0, depth, i).1 == Some(paths[i])
  {
    var level: seq<F> := seq(Pow2(depth), i requires 0 <= i => leaf(i));
    paths := seq(prefixLen, _ => []);
    for d := 0 to depth
      invariant IsRow(leaf, join, depth, d, level)
      invariant |paths| == prefixLen
      invariant forall i :: 0 <= i < prefixLen ==> paths[i] == SiblingsAbove(leaf, join, 0, i, d)
    {
      paths := PushSiblings(leaf, join, depth, d, level, paths);
      level := JoinRow(leaf, join, depth, d, level);
    }
    root := level[0];
    SubtreeIsNode(leaf, join, 0, 0, depth);
    forall i | 0 <= i < prefixLen
      ensures RootAndPath(leaf, join, 0, depth, i).1 == Some(paths[i])
    {
      PathIsRight(leaf, join, 0, 0, depth, i);
    }
  }

  method PushSiblings<F>(ghost leaf: LeafAt<F>, ghost join: JoinAt<F>, ghost depth: nat, d: nat, level: seq<F>,
                         before: seq<seq<F>>)
    returns (paths: seq<seq<F>>)
    requires d < depth && IsRow(leaf, join, depth, d, level) && |before| <= Pow2(depth)
    requires forall i :: 0 <= i < |before| ==> before[i] == SiblingsAbove(leaf, join, 0, i, d)
    ensures |paths| == |before|
    ensures forall i :: 0 <= i < |before| ==> paths[i] == SiblingsAbove(leaf, join, 0, i, d + 1)
  {
    paths := before;
    for leafIdx := 0 to |paths|
      invariant |paths| == |before|
      invariant forall i :: 0 <= i < leafIdx ==> paths[i] == SiblingsAbove(leaf, join, 0, i, d + 1)
      invariant forall i :: leafIdx <= i < |paths| ==> paths[i] == before[i]
    {
      var nodeIdx := Shift(leafIdx, d);
      SiblingInRow(depth, d, leafIdx);
      LastSibling(leaf, join, 0, leafIdx, d);
      paths := paths[leafIdx := paths[leafIdx] + [level[Sibling(nodeIdx)]]];
    }
  }

  /** A leaf's ancestor and its neighbour both lie in the row. */
  lemma SiblingInRow(depth: nat, d: nat, i: nat)
    requires d < depth && i < Pow2(depth)
    ensures Sibling(Shift(i, d)) < Pow2(depth - d)
  {
    hide Shift, Pow2;
    ShiftOfShift(i, d, depth - d);
    assert d + (depth - d) == depth;
    ShiftToZero(i, depth);
    ShiftZeroBound(Shift(i, d), depth - d);
    Pow2Doubles(depth - d);
  }

  lemma {:induction false} ShiftOfShift(n: nat, a: nat, b: nat)
    ensures Shift(Shift(n, a), b) == Shift(n, a + b)
    decreases a
  {
    if a == 0 {
    } else {
      ShiftOfShift(n / 2, a - 1, b);
    }
  }

  lemma ShiftZeroBound(n: nat, d: nat)
    requires Shift(n, d) == 0
    ensures n < Pow2(d)
  {
    ShiftBounds(n, d);
  }

  // ----- Signatures under an auth root

  /** The trees' leaves are the leaves signatures are verified against. */
  lemma LeafIsAuthLeaf(h: PartsHash, ask: Felt, index: u32)
    ensures Leaves(h, ask, AuthPubSeed(h, ask))(index) == WotsAuth.AuthLeaf(h, ask, index)
  {
    hide WotsAuth.LTree, WotsAuth.WotsPk, AuthPubSeed;
    assert index % U32_LIMIT == index;
  }

  /** The leaf a signature recovers. */
  function RecoveredLeaf(h: PartsHash, ask: Felt, index: u32, msg: Felt, sig: seq<Felt>): Felt
    requires |sig| == WOTS_CHAINS
  {
    WotsAuth.LTree(h, AuthPubSeed(h, ask), index, WotsAuth.RecoverPk(h, msg, AuthPubSeed(h, ask), index, sig))
  }

  /** For every hash: a signature and a path lead to the auth root under a key
      index without meeting a collision exactly when they are that key's own
      signature and that index's path. */
  lemma OnlyTheOwnerReachesRoot(h: PartsHash, ask: Felt, depth: nat, index: u32, msg: Felt, sig: seq<Felt>,
                                siblings: seq<Felt>)
    requires InRange(0, depth) && index < Pow2(depth) && |siblings| == depth && |sig| == WOTS_CHAINS
    ensures var leaf, join := Leaves(h, ask, AuthPubSeed(h, ask)), Joins(h, AuthPubSeed(h, ask));
            var x := RecoveredLeaf(h, ask, index, msg, sig);
            && FoldAddressed(join, 0, index, x, siblings) == SubtreeRoot(leaf, join, 0, depth)
            && PathIsClean(leaf, join, 0, index, x, siblings) && WotsAuth.SignatureIsClean(h, ask, index, msg, sig)
            <==> sig == WotsAuth.WotsSign(h, ask, index, msg)
                 && RootAndPath(leaf, join, 0, depth, index).1 == Some(siblings)
  {
    var leaf, join := Leaves(h, ask, AuthPubSeed(h, ask)), Joins(h, AuthPubSeed(h, ask));
    LeafIsAuthLeaf(h, ask, index);
    hide Leaves, Joins, WotsAuth.SignatureIsClean, WotsAuth.WotsSign, WotsAuth.LTree, WotsAuth.RecoverPk, AuthPubSeed;
    hide PathIsClean, RootAndPath, SubtreeRoot, FoldAddressed, InRange, Pow2, WotsAuth.AuthLeaf;
    WotsAuth.OnlyTheSignatureVerifies(h, ask, index, msg, sig);
    AuthRootBinds(leaf, join, depth, index, RecoveredLeaf(h, ask, index, msg, sig), siblings);
  }

  /** `a` and `b` are what one level of the tree hashes over two pairs of children. */
  ghost predicate AreJoinInputs(pubSeed: Felt, a: seq<Felt>, b: seq<Felt>)
  {
    && |a| == |b| == 4
    && exists level: u32, i: u32 :: a[..2] == b[..2] == [pubSeed, PackAdrs(TAG_XMSS_TREE, 0, level, i, 0)]
  }

  /** A fold that meets a collision meets one of the hash. */
  lemma UncleanPathCollides(h: PartsHash, pubSeed: Felt, leaf: LeafAt<Felt>, index: u32, x: Felt, siblings: seq<Felt>)
    returns (a: seq<Felt>, b: seq<Felt>)
    requires |siblings| < U32_LIMIT && !PathIsClean(leaf, Joins(h, pubSeed), 0, index, x, siblings)
    ensures HashCollision(h, a, b) && AreJoinInputs(pubSeed, a, b)
  {
    var join := Joins(h, pubSeed);
    hide Joins, PackAdrs, TreeNode, FoldAddressed, Shift;
    var d: nat :| d < |siblings| && PathCollides(leaf, join, 0, index, x, siblings, d);
    var i, current := Shift(index, d), FoldAddressed(join, 0, index, x, siblings[..d]);
    var left, right := TreeNode(leaf, join, 0 + d, 2 * (i / 2)), TreeNode(leaf, join, 0 + d, 2 * (i / 2) + 1);
    ShiftShrinks(index, d);
    var adrs := PackAdrs(TAG_XMSS_TREE, 0, d, i / 2, 0);
    if i % 2 == 0 {
      TreeJoinsMeet(h, pubSeed, d, i / 2, current, siblings[d], left, right);
      a, b := [pubSeed, adrs, current, siblings[d]], [pubSeed, adrs, left, right];
    } else {
      TreeJoinsMeet(h, pubSeed, d, i / 2, siblings[d], current, left, right);
      a, b := [pubSeed, adrs, siblings[d], current], [pubSeed, adrs, left, right];
    }
    assert a[..2] == b[..2] == [pubSeed, adrs];
  }

  lemma {:induction false} ShiftShrinks(n: nat, d: nat)
    ensures Shift(n, d) <= n
    decreases d
  {
    if d == 0 {
    } else {
      ShiftShrinks(n / 2, d - 1);
    }
  }

  /** Whoever reaches the auth root with anything but the key's own signature and
      path holds two distinct inputs with one digest: those of a tree level, or of
      a chain step or L-tree node of the signature. */
  lemma OtherOwnerCollides(h: PartsHash, ask: Felt, depth: nat, index: u32, msg: Felt, sig: seq<Felt>,
                           siblings: seq<Felt>)
    returns (a: seq<Felt>, b: seq<Felt>)
    requires InRange(0, depth) && index < Pow2(depth) && |siblings| == depth && |sig| == WOTS_CHAINS
    requires var leaf, join := Leaves(h, ask, AuthPubSeed(h, ask)), Joins(h, AuthPubSeed(h, ask));
             FoldAddressed(join, 0, index, RecoveredLeaf(h, ask, index, msg, sig), siblings)
             == SubtreeRoot(leaf, join, 0, depth)
    requires !(sig == WotsAuth.WotsSign(h, ask, index, msg)
               && RootAndPath(Leaves(h, ask, AuthPubSeed(h, ask)), Joins(h, AuthPubSeed(h, ask)), 0, depth, index).1
                  == Some(siblings))
    ensures HashCollision(h, a, b)
    ensures var seed := AuthPubSeed(h, ask);
            var recovered := WotsAuth.RecoverPk(h, msg, seed, index, sig);
            || AreJoinInputs(seed, a, b) || WotsAuth.AreChainInputs(h, ask, index, msg, sig, a, b)
            || WotsAuth.AreNodeInputs(h, seed, index, recovered, WotsAuth.WotsPk(h, ask, index), a, b)
  {
    var leaf, join := Leaves(h, ask, AuthPubSeed(h, ask)), Joins(h, AuthPubSeed(h, ask));
    var x := RecoveredLeaf(h, ask, index, msg, sig);
    LeafIsAuthLeaf(h, ask, index);
    hide Leaves, Joins, WotsAuth.WotsSign, WotsAuth.LTree, WotsAuth.RecoverPk, AuthPubSeed, HashCollision;
    hide PathIsClean, RootAndPath, SubtreeRoot, FoldAddressed, Pow2, WotsAuth.AuthLeaf, WotsAuth.WotsPk;
    hide AreJoinInputs, WotsAuth.AreChainInputs, WotsAuth.AreNodeInputs;
    AuthRootBinds(leaf, join, depth, index, x, siblings);
    if PathIsClean(leaf, join, 0, index, x, siblings) {
      a, b := WotsAuth.OtherSignatureCollides(h, ask, index, msg, sig);
    } else {
      a, b := UncleanPathCollides(h, AuthPubSeed(h, ask), leaf, index, x, siblings);
    }
  }

  lemma AuthDepthInRange(depth: nat)
    requires depth <= AUTH_DEPTH
    ensures InRange(0, depth) && Pow2(depth) <= 65536
  {
    hide Pow2;
    Pow2Small();
    Pow2Sum(8, 8);
    Pow2Monotone(depth, AUTH_DEPTH);
  }

  /** The wallet's tree of 2^16 keys and its subtrees are such trees, without a
      condition on the range: their roots are reached cleanly by the owner alone. */
  lemma WalletKeysBind(h: PartsHash, ask: Felt, depth: nat, index: u32, msg: Felt, sig: seq<Felt>, siblings: seq<Felt>)
    requires depth <= AUTH_DEPTH && index < Pow2(depth) && |siblings| == depth && |sig| == WOTS_CHAINS
    ensures InRange(0, depth)
    ensures var leaf, join := Leaves(h, ask, AuthPubSeed(h, ask)), Joins(h, AuthPubSeed(h, ask));
            var x := RecoveredLeaf(h, ask, index, msg, sig);
            && FoldAddressed(join, 0, index, x, siblings) == SubtreeRoot(leaf, join, 0, depth)
            && PathIsClean(leaf, join, 0, index, x, siblings) && WotsAuth.SignatureIsClean(h, ask, index, msg, sig)
            <==> sig == WotsAuth.WotsSign(h, ask, index, msg)
                 && RootAndPath(leaf, join, 0, depth, index).1 == Some(siblings)
  {
    hide InRange, Pow2, SubtreeRoot, RootAndPath, FoldAddressed, WotsAuth.WotsSign, RecoveredLeaf, Leaves, Joins;
    hide AuthPubSeed, PathIsClean, WotsAuth.SignatureIsClean;
    AuthDepthInRange(depth);
    OnlyTheOwnerReachesRoot(h, ask, depth, index, msg, sig, siblings);
  }
}
