/** The commitment tree: a reference definition of its nodes, and the laws that
    the full tree, the frontier and the authentication paths are proved against.

    The node hash `h` is an arbitrary function; the binding laws name the pairs
    that would have to collide. */
module Merkle {
  import opened Bytes

  type NodeHash = (Felt, Felt) -> Felt

  const DEPTH: nat := 48

  function Pow2(n: nat): (p: nat)
    ensures p > 0
  {
    if n == 0 then 1 else 2 * Pow2(n - 1)
  }

  lemma {:induction false} Pow2Monotone(a: nat, b: nat)
    requires a <= b
    ensures Pow2(a) <= Pow2(b)
  {
    if a == b {
    } else {
      Pow2Monotone(a, b - 1);
    }
  }

  lemma {:induction false} Pow2Sum(a: nat, b: nat)
    ensures Pow2(a + b) == Pow2(a) * Pow2(b)
  {
    if a == 0 {
    } else {
      Pow2Sum(a - 1, b);
      assert Pow2(a + b) == 2 * Pow2(a - 1 + b);
    }
  }

  lemma Pow2Small()
    ensures Pow2(3) == 8 && Pow2(4) == 16 && Pow2(6) == 64 && Pow2(8) == 256 && Pow2(9) == 512
  {
    assert Pow2(2) == 4;
  }

  lemma Pow2Doubles(n: nat)
    requires n > 0
    ensures Pow2(n) == 2 * Pow2(n - 1)
  {
  }

  /** `n >> d`. */
  function Shift(n: nat, d: nat): nat
    decreases d
  {
    if d == 0 then n else Shift(n / 2, d - 1)
  }

  /** Bit `level` of `n`: `(n >> level) & 1`. */
  predicate Bit(n: nat, level: nat)
  {
    Shift(n, level) % 2 == 1
  }

  lemma {:induction false} ShiftOnce(n: nat, d: nat)
    ensures Shift(n, d + 1) == Shift(n, d) / 2
    decreases d
  {
    if d == 0 {
    } else {
      ShiftOnce(n / 2, d - 1);
    }
  }

  /** `n >> d` is the quotient of `n` by `2^d`. */
  lemma {:induction false} ShiftBounds(n: nat, d: nat)
    ensures Shift(n, d) * Pow2(d) <= n < (Shift(n, d) + 1) * Pow2(d)
    decreases d
  {
    if d == 0 {
    } else {
      ShiftBounds(n / 2, d - 1);
      Doubled(Shift(n / 2, d - 1), Pow2(d - 1));
      Doubled(Shift(n / 2, d - 1) + 1, Pow2(d - 1));
    }
  }

  lemma Doubled(s: nat, p: nat)
    ensures s * (2 * p) == 2 * (s * p)
  {
  }

  lemma ShiftToZero(n: nat, d: nat)
    requires n < Pow2(d)
    ensures Shift(n, d) == 0
  {
    assert Shift(n, d) == 0 || Shift(n, d) * Pow2(d) >= Pow2(d);
    ShiftBounds(n, d);
  }

  /** `zero_hashes[level]`: the root of an all-empty subtree of that height. */
  function ZeroHash(h: NodeHash, level: nat): Felt
  {
    if level == 0 then ZERO else h(ZeroHash(h, level - 1), ZeroHash(h, level - 1))
  }

  /** The `i`-th node of a row at height `base`, padded on the right. */
  function At(h: NodeHash, base: nat, row: seq<Felt>, i: nat): Felt
  {
    if i < |row| then row[i] else ZeroHash(h, base)
  }

  /** The node `height` levels above position `index` of the padded row: the
      definition of the complete binary tree over that row. */
  function Node(h: NodeHash, base: nat, row: seq<Felt>, height: nat, index: nat): Felt
  {
    if height == 0 then At(h, base, row, index)
    else h(Node(h, base, row, height - 1, 2 * index), Node(h, base, row, height - 1, 2 * index + 1))
  }

  /** The root of the depth-`depth` tree whose leaves are `leaves`, padded with ZERO. */
  function Root(h: NodeHash, depth: nat, leaves: seq<Felt>): Felt
  {
    Node(h, 0, leaves, depth, 0)
  }

  /** The row above `row`: never empty, one node for each pair. */
  function Parents(h: NodeHash, base: nat, row: seq<Felt>): (next: seq<Felt>)
    ensures |next| == if |row| == 0 then 1 else (|row| + 1) / 2
  {
    seq(if |row| == 0 then 1 else (|row| + 1) / 2,
      i requires 0 <= i => h(At(h, base, row, 2 * i), At(h, base, row, 2 * i + 1)))
  }

  lemma {:induction false} NodeOfEmptyPart(h: NodeHash, base: nat, row: seq<Felt>, height: nat, index: nat)
    requires |row| <= index * Pow2(height)
    ensures Node(h, base, row, height, index) == ZeroHash(h, base + height)
  {
    if height == 0 {
    } else {
      assert index * Pow2(height) == (2 * index) * Pow2(height - 1);
      assert (2 * index) * Pow2(height - 1) <= (2 * index + 1) * Pow2(height - 1);
      NodeOfEmptyPart(h, base, row, height - 1, 2 * index);
      NodeOfEmptyPart(h, base, row, height - 1, 2 * index + 1);
    }
  }

  /** Building one row and continuing from it reaches the same nodes. */
  lemma {:induction false} NodeOverParents(h: NodeHash, base: nat, row: seq<Felt>, height: nat, index: nat)
    ensures Node(h, base + 1, Parents(h, base, row), height, index) == Node(h, base, row, height + 1, index)
  {
    if height == 0 {
      if index >= |Parents(h, base, row)| {
        NodeOfEmptyPart(h, base, row, 1, index);
      }
      assert Node(h, base, row, 0, 2 * index) == At(h, base, row, 2 * index);
      assert Node(h, base, row, 0, 2 * index + 1) == At(h, base, row, 2 * index + 1);
    } else {
      NodeOverParents(h, base, row, height - 1, 2 * index);
      NodeOverParents(h, base, row, height - 1, 2 * index + 1);
    }
  }

  /** A node depends only on the leaves below it. */
  lemma {:induction false} NodeIsLocal(h: NodeHash, a: seq<Felt>, b: seq<Felt>, height: nat, index: nat)
    requires forall i :: index * Pow2(height) <= i < (index + 1) * Pow2(height) ==> At(h, 0, a, i) == At(h, 0, b, i)
    ensures Node(h, 0, a, height, index) == Node(h, 0, b, height, index)
  {
    if height > 0 {
      SplitRange(height, index);
      NodeIsLocal(h, a, b, height - 1, 2 * index);
      NodeIsLocal(h, a, b, height - 1, 2 * index + 1);
    } else {
      assert At(h, 0, a, index) == At(h, 0, b, index);
    }
  }

  /** The leaves below a node are those below its two children, in order. */
  lemma SplitRange(height: nat, index: nat)
    requires height > 0
    ensures (2 * index) * Pow2(height - 1) == index * Pow2(height)
    ensures (2 * index + 2) * Pow2(height - 1) == (index + 1) * Pow2(height)
    ensures index * Pow2(height) <= (2 * index + 1) * Pow2(height - 1) <= (index + 1) * Pow2(height)
  {
    var p := Pow2(height - 1);
    assert Pow2(height) == 2 * p;
    assert (2 * index) * p == index * (2 * p);
    assert (2 * index + 2) * p == (index + 1) * (2 * p);
    assert (2 * index + 1) * p == (2 * index) * p + p;
    assert (2 * index + 2) * p == (2 * index + 1) * p + p;
  }

  /** Appending a leaf leaves every complete subtree to its left untouched. */
  lemma CompleteNodeKept(h: NodeHash, leaves: seq<Felt>, more: seq<Felt>, height: nat, index: nat)
    requires (index + 1) * Pow2(height) <= |leaves|
    ensures Node(h, 0, leaves + more, height, index) == Node(h, 0, leaves, height, index)
  {
    forall i: nat | index * Pow2(height) <= i < (index + 1) * Pow2(height)
      ensures At(h, 0, leaves + more, i) == At(h, 0, leaves, i)
    {
    }
    NodeIsLocal(h, leaves + more, leaves, height, index);
  }

  // ----- Authentication paths

  /** The neighbour of node `i` under the same parent: `i ^ 1`. */
  function Sibling(i: nat): nat
  {
    if i % 2 == 0 then i + 1 else i - 1
  }

  /** Recompute a root from a leaf and its siblings, lowest first. */
  function FoldPath(h: NodeHash, current: Felt, index: nat, siblings: seq<Felt>): Felt
    decreases |siblings|
  {
    if siblings == [] then current
    else
      var parent := if index % 2 == 0 then h(current, siblings[0]) else h(siblings[0], current);
      FoldPath(h, parent, index / 2, siblings[1..])
  }

  /** `siblings` are the sibling nodes met on the way up from height `height`, position `index`. */
  ghost predicate IsPathFrom(h: NodeHash, leaves: seq<Felt>, height: nat, index: nat, siblings: seq<Felt>)
  {
    forall d: nat :: d < |siblings| ==> siblings[d] == Node(h, 0, leaves, height + d, Sibling(Shift(index, d)))
  }

  lemma PathTail(h: NodeHash, leaves: seq<Felt>, height: nat, index: nat, siblings: seq<Felt>)
    requires siblings != []
    ensures IsPathFrom(h, leaves, height, index, siblings) <==>
            siblings[0] == Node(h, 0, leaves, height, Sibling(index)) &&
            IsPathFrom(h, leaves, height + 1, index / 2, siblings[1..])
  {
    var rest := siblings[1..];
    if IsPathFrom(h, leaves, height, index, siblings) {
      assert siblings[0] == Node(h, 0, leaves, height + 0, Sibling(Shift(index, 0)));
      forall d: nat | d < |rest|
        ensures rest[d] == Node(h, 0, leaves, height + 1 + d, Sibling(Shift(index / 2, d)))
      {
        assert rest[d] == siblings[d + 1];
        assert height + (d + 1) == height + 1 + d;
      }
    }
    if siblings[0] == Node(h, 0, leaves, height, Sibling(index)) && IsPathFrom(h, leaves, height + 1, index / 2, rest) {
      forall d: nat | d < |siblings|
        ensures siblings[d] == Node(h, 0, leaves, height + d, Sibling(Shift(index, d)))
      {
        if d > 0 {
          assert siblings[d] == rest[d - 1];
          assert height + 1 + (d - 1) == height + d;
        }
      }
    }
  }

  /** Folding a node with its sibling path gives the node at the top of the path. */
  lemma {:induction false} FoldPathFromNode(h: NodeHash, leaves: seq<Felt>, height: nat, index: nat,
                                            siblings: seq<Felt>)
    requires IsPathFrom(h, leaves, height, index, siblings)
    ensures FoldPath(h, Node(h, 0, leaves, height, index), index, siblings)
            == Node(h, 0, leaves, height + |siblings|, Shift(index, |siblings|))
    decreases |siblings|
  {
    if siblings == [] {
    } else {
      PathTail(h, leaves, height, index, siblings);
      assert height + 1 + |siblings[1..]| == height + |siblings|;
      hide IsPathFrom;
      FoldPathFromNode(h, leaves, height + 1, index / 2, siblings[1..]);
    }
  }

  // ----- What a fold binds: a hash into 32 bytes has collisions, so each law
  //       names the one place where one would have to be

  /** Two distinct pairs of children with the same parent. */
  predicate Collision(h: NodeHash, a: Felt, b: Felt, c: Felt, d: Felt)
  {
    h(a, b) == h(c, d) && !(a == c && b == d)
  }

  /** At level `d` the fold hashes another pair than the tree does, with the same result. */
  predicate PathCollides(h: NodeHash, leaves: seq<Felt>, height: nat, index: nat, x: Felt, siblings: seq<Felt>, d: nat)
    requires d < |siblings|
  {
    var i, current := Shift(index, d), FoldPath(h, x, index, siblings[..d]);
    var left, right := Node(h, 0, leaves, height + d, 2 * (i / 2)), Node(h, 0, leaves, height + d, 2 * (i / 2) + 1);
    if i % 2 == 0 then Collision(h, current, siblings[d], left, right)
    else Collision(h, siblings[d], current, left, right)
  }

  ghost predicate PathIsClean(h: NodeHash, leaves: seq<Felt>, height: nat, index: nat, x: Felt, siblings: seq<Felt>)
  {
    forall d: nat :: d < |siblings| ==> !PathCollides(h, leaves, height, index, x, siblings, d)
  }

  /** The collisions of a path are one at its foot and those of its tail. */
  lemma CleanTail(h: NodeHash, leaves: seq<Felt>, height: nat, index: nat, x: Felt, siblings: seq<Felt>)
    requires siblings != [] && PathIsClean(h, leaves, height, index, x, siblings)
    ensures !PathCollides(h, leaves, height, index, x, siblings, 0)
    ensures var parent := if index % 2 == 0 then h(x, siblings[0]) else h(siblings[0], x);
            PathIsClean(h, leaves, height + 1, index / 2, parent, siblings[1..])
  {
    var parent := if index % 2 == 0 then h(x, siblings[0]) else h(siblings[0], x);
    var (above, half, rest) := (height + 1, index / 2, siblings[1..]);
    forall d: nat | d < |rest|
      ensures !PathCollides(h, leaves, above, half, parent, rest, d)
    {
      assert siblings[..d + 1][1..] == rest[..d];
      assert FoldPath(h, x, index, siblings[..d + 1]) == FoldPath(h, parent, index / 2, rest[..d]);
      assert height + (d + 1) == height + 1 + d;
      hide Node, FoldPath;
      assert !PathCollides(h, leaves, height, index, x, siblings, d + 1);
    }
  }

  /** A path without collisions folds to a tree node only from the node it
      leads from, and only with that node's own siblings. */
  lemma {:induction false} FoldPathBinds(h: NodeHash, leaves: seq<Felt>, height: nat, index: nat,
                                         x: Felt, siblings: seq<Felt>)
    requires PathIsClean(h, leaves, height, index, x, siblings)
    requires FoldPath(h, x, index, siblings)
             == Node(h, 0, leaves, height + |siblings|, Shift(index, |siblings|))
    ensures x == Node(h, 0, leaves, height, index)
    ensures IsPathFrom(h, leaves, height, index, siblings)
    decreases |siblings|
  {
    if siblings == [] {
    } else {
      var parent := if index % 2 == 0 then h(x, siblings[0]) else h(siblings[0], x);
      CleanTail(h, leaves, height, index, x, siblings);
      FoldPathBinds(h, leaves, height + 1, index / 2, parent, siblings[1..]);
      FootBinds(h, leaves, height, index, x, siblings);
      PathTail(h, leaves, height, index, siblings);
    }
  }

  lemma FootBinds(h: NodeHash, leaves: seq<Felt>, height: nat, index: nat, x: Felt, siblings: seq<Felt>)
    requires siblings != [] && !PathCollides(h, leaves, height, index, x, siblings, 0)
    requires (if index % 2 == 0 then h(x, siblings[0]) else h(siblings[0], x))
             == Node(h, 0, leaves, height + 1, index / 2)
    ensures x == Node(h, 0, leaves, height, index) && siblings[0] == Node(h, 0, leaves, height, Sibling(index))
  {
    assert siblings[..0] == [];
    assert FoldPath(h, x, index, siblings[..0]) == x && Shift(index, 0) == index && height + 0 == height;
  }

  /** Along its own path a leaf meets no collision: both sides hash the same pairs. */
  lemma OwnPathIsClean(h: NodeHash, leaves: seq<Felt>, height: nat, index: nat, siblings: seq<Felt>)
    requires IsPathFrom(h, leaves, height, index, siblings)
    ensures PathIsClean(h, leaves, height, index, Node(h, 0, leaves, height, index), siblings)
  {
    forall d: nat | d < |siblings|
      ensures !PathCollides(h, leaves, height, index, Node(h, 0, leaves, height, index), siblings, d)
    {
      OwnLevelIsClean(h, leaves, height, index, siblings, d);
    }
  }

  lemma OwnLevelIsClean(h: NodeHash, leaves: seq<Felt>, height: nat, index: nat, siblings: seq<Felt>, d: nat)
    requires d < |siblings| && IsPathFrom(h, leaves, height, index, siblings)
    ensures !PathCollides(h, leaves, height, index, Node(h, 0, leaves, height, index), siblings, d)
  {
    hide Node, FoldPath, Shift;
    var below := siblings[..d];
    assert siblings[d] == Node(h, 0, leaves, height + d, Sibling(Shift(index, d)));
    assert IsPathFrom(h, leaves, height, index, below);
    hide IsPathFrom;
    FoldPathFromNode(h, leaves, height, index, below);
  }

  /** The membership law of the tree, for every hash and every leaf index in
      range: a sibling list of the tree's depth folds `x` to the root without
      meeting a collision exactly when `x` is that leaf and the list is its
      authentication path. A wrong leaf or path that folds to the root
      therefore shows a collision at one of its levels. */
  lemma MembershipBinding(h: NodeHash, depth: nat, leaves: seq<Felt>, index: nat, x: Felt, siblings: seq<Felt>)
    requires |siblings| == depth && index < Pow2(depth)
    ensures FoldPath(h, x, index, siblings) == Root(h, depth, leaves) && PathIsClean(h, leaves, 0, index, x, siblings)
            <==> x == At(h, 0, leaves, index) && IsPathFrom(h, leaves, 0, index, siblings)
  {
    ShiftToZero(index, depth);
    assert Node(h, 0, leaves, 0, index) == At(h, 0, leaves, index);
    hide Node, FoldPath, Shift, PathIsClean, IsPathFrom, Pow2, At;
    if FoldPath(h, x, index, siblings) == Root(h, depth, leaves) && PathIsClean(h, leaves, 0, index, x, siblings) {
      FoldPathBinds(h, leaves, 0, index, x, siblings);
    }
    if x == At(h, 0, leaves, index) && IsPathFrom(h, leaves, 0, index, siblings) {
      FoldPathFromNode(h, leaves, 0, index, siblings);
      OwnPathIsClean(h, leaves, 0, index, siblings);
    }
  }

  // ----- What a root commits to

  /** Node `index` of a height has the same digest in both trees, over different children. */
  predicate NodesCollide(h: NodeHash, a: seq<Felt>, b: seq<Felt>, height: nat, index: nat)
    requires height > 0
  {
    Collision(h, Node(h, 0, a, height - 1, 2 * index), Node(h, 0, a, height - 1, 2 * index + 1),
              Node(h, 0, b, height - 1, 2 * index), Node(h, 0, b, height - 1, 2 * index + 1))
  }

  /** No inner node of the two trees collides. */
  ghost predicate TreesAreClean(h: NodeHash, depth: nat, a: seq<Felt>, b: seq<Felt>)
  {
    forall height: nat, index: nat :: 0 < height <= depth && index < Pow2(depth - height) ==>
      !NodesCollide(h, a, b, height, index)
  }

  lemma {:induction false} NodeBinds(h: NodeHash, depth: nat, a: seq<Felt>, b: seq<Felt>, height: nat, index: nat)
    requires TreesAreClean(h, depth, a, b) && height <= depth && index < Pow2(depth - height)
    requires Node(h, 0, a, height, index) == Node(h, 0, b, height, index)
    ensures forall i :: index * Pow2(height) <= i < (index + 1) * Pow2(height) ==> At(h, 0, a, i) == At(h, 0, b, i)
  {
    if height == 0 {
    } else {
      SplitRange(height, index);
      assert !NodesCollide(h, a, b, height, index);
      assert Pow2(depth - (height - 1)) == 2 * Pow2(depth - height);
      hide TreesAreClean, Pow2, At;
      NodeBinds(h, depth, a, b, height - 1, 2 * index);
      NodeBinds(h, depth, a, b, height - 1, 2 * index + 1);
    }
  }

  predicate PaddedAlike(h: NodeHash, depth: nat, a: seq<Felt>, b: seq<Felt>)
  {
    forall i :: 0 <= i < Pow2(depth) ==> At(h, 0, a, i) == At(h, 0, b, i)
  }

  lemma PaddedAlikeSameNodes(h: NodeHash, depth: nat, a: seq<Felt>, b: seq<Felt>)
    requires |a| <= Pow2(depth) && |b| <= Pow2(depth) && PaddedAlike(h, depth, a, b)
    ensures forall height: nat, index: nat :: Node(h, 0, a, height, index) == Node(h, 0, b, height, index)
  {
    forall i: nat
      ensures At(h, 0, a, i) == At(h, 0, b, i)
    {
    }
    forall height: nat, index: nat
      ensures Node(h, 0, a, height, index) == Node(h, 0, b, height, index)
    {
      NodeIsLocal(h, a, b, height, index);
    }
  }

  /** What a root commits to, for every hash: two leaf sequences have the same
      root over trees without a colliding node exactly when they agree once
      padded. (A transfer may append the ZERO commitment, which a root does not
      reveal; sequences of equal length are equal.) */
  lemma RootBinding(h: NodeHash, depth: nat, a: seq<Felt>, b: seq<Felt>)
    requires |a| <= Pow2(depth) && |b| <= Pow2(depth)
    ensures Root(h, depth, a) == Root(h, depth, b) && TreesAreClean(h, depth, a, b) <==> PaddedAlike(h, depth, a, b)
    ensures |a| == |b| ==> (PaddedAlike(h, depth, a, b) <==> a == b)
  {
    if Root(h, depth, a) == Root(h, depth, b) && TreesAreClean(h, depth, a, b) {
      assert Pow2(depth - depth) == 1;
      NodeBinds(h, depth, a, b, depth, 0);
    }
    if PaddedAlike(h, depth, a, b) {
      PaddedAlikeSameNodes(h, depth, a, b);
      if |a| == |b| {
        forall i | 0 <= i < |a|
          ensures a[i] == b[i]
        {
          assert At(h, 0, a, i) == At(h, 0, b, i);
        }
      }
    }
  }

  /** The length caveat is needed: the empty tree and the tree of one ZERO leaf share a root. */
  lemma ZeroLeafIsInvisible(h: NodeHash, depth: nat)
    ensures Root(h, depth, [ZERO]) == Root(h, depth, [])
  {
    forall i: nat
      ensures At(h, 0, [ZERO], i) == At(h, 0, [], i)
    {
    }
    NodeIsLocal(h, [ZERO], [], depth, 0);
  }
}
