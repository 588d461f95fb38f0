/** `MerkleTree`: all leaves are kept and every query rebuilds the rows. */
module MerkleTrees {
  import opened Bytes
  import opened Merkle
  import opened Frontier

  class MerkleTree {
    const h: NodeHash
    const depth: nat
    const zeroHashes: seq<Felt>
    var leaves: seq<Felt>

    ghost predicate Valid()
      reads this
    {
      depth > 0 && IsZeroHashes(h, depth, zeroHashes) && |leaves| <= Pow2(depth)
    }

    constructor (h: NodeHash, depth: nat)
      requires depth > 0
      ensures Valid() && leaves == [] && this.h == h && this.depth == depth
    {
      var z := BuildZeroHashes(h, depth);
      this.h := h;
      this.depth := depth;
      zeroHashes := z;
      leaves := [];
    }

    /** The source asserts that the tree is not full. */
    method Append(leaf: Felt) returns (index: nat)
      requires Valid() && |leaves| < Pow2(depth)
      modifies this`leaves
      ensures Valid() && leaves == old(leaves) + [leaf] && index == |old(leaves)|
    {
      index := |leaves|;
      leaves := leaves + [leaf];
    }

    method GetRoot() returns (root: Felt)
      requires Valid()
      ensures root == Root(h, depth, leaves)
    {
      root := ComputeLevel(0, leaves);
    }

    /** One row up: pairs of nodes, padded with this height's zero hash. */
    method NextRow(d: nat, row: seq<Felt>) returns (next: seq<Felt>)
      requires Valid() && d < depth
      ensures next == Parents(h, d, row)
    {
      next := [];
      var i := 0;
      ghost var target := Parents(h, d, row);
      while true
        invariant i == 2 * |next| && |next| <= |target|
        invariant next == target[..|next|]
        invariant |next| > 0 ==> i < |row| || |next| == |target|
        decreases |target| - |next|
      {
        if |next| > 0 && i >= |row| {
          break;
        }
        var left := if i < |row| then row[i] else zeroHashes[d];
        var right := if i + 1 < |row| then row[i + 1] else zeroHashes[d];
        assert |next| < |target|;
        assert target[|next|] == h(left, right);
        next := next + [h(left, right)];
        i := i + 2;
      }
    }

    method ComputeLevel(d: nat, row: seq<Felt>) returns (root: Felt)
      requires Valid() && d <= depth
      ensures root == Node(h, d, row, depth - d, 0)
      decreases depth - d
    {
      if d == depth {
        return if row == [] then zeroHashes[depth] else row[0];
      }
      var next := NextRow(d, row);
      NodeOverParents(h, d, row, depth - d - 1, 0);
      root := ComputeLevel(d + 1, next);
    }

    predicate SameNode(d: nat, row: seq<Felt>, k: nat, i: nat)
      reads this
    {
      Node(h, d, row, k, i) == Node(h, 0, leaves, d + k, i)
    }

    /** `row` stands for the tree's nodes at height `d`. */
    ghost predicate IsRow(d: nat, row: seq<Felt>)
      reads this
    {
      forall k: nat, i: nat :: SameNode(d, row, k, i)
    }

    /** Sibling path and root for one index. */
    method AuthPath(index: nat) returns (siblings: seq<Felt>, root: Felt)
      requires Valid()
      ensures |siblings| == depth && IsPathFrom(h, leaves, 0, index, siblings)
      ensures root == Root(h, depth, leaves)
    {
      var row := leaves;
      siblings := [];
      var idx := index;
      for d := 0 to depth
        invariant |siblings| == d && idx == Shift(index, d)
        invariant IsPathFrom(h, leaves, 0, index, siblings)
        invariant d > 0 ==> row != []
        invariant IsRow(d, row)
      {
        var sib := Sibling(idx);
        var s := if sib < |row| then row[sib] else zeroHashes[d];
        assert SameNode(d, row, 0, sib);
        assert Node(h, 0, leaves, 0 + d, Sibling(Shift(index, d))) == s;
        siblings := siblings + [s];
        var next := NextRow(d, row);
        ghost var above := d + 1;
        forall k: nat, i: nat
          ensures SameNode(above, next, k, i)
        {
          NodeOverParents(h, d, row, k, i);
          assert SameNode(d, row, k + 1, i);
          assert d + (k + 1) == d + 1 + k;
        }
        row := next;
        ShiftOnce(index, d);
        idx := idx / 2;
      }
      root := row[0];
      assert SameNode(depth, row, 0, 0);
    }
  }
}
