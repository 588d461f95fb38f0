/** The kernel's incremental form of the commitment tree: one stored node per
    level plus the number of leaves, and the proof that it always computes the
    root of the full tree. */
module Frontier {
  import opened Bytes
  import opened Merkle
  import opened Wrappers

  type Branches = seq<Option<Felt>>

  datatype FrontierError = MissingFrontier(level: nat) | TreeFull

  /** `zero_hashes[0..=depth]`. */
  predicate IsZeroHashes(h: NodeHash, depth: nat, zeros: seq<Felt>)
  {
    |zeros| == depth + 1 && forall i :: 0 <= i <= depth ==> zeros[i] == ZeroHash(h, i)
  }

  /** The walk from level `level` to the top: a left child is remembered in its
      slot, a right child is joined with the remembered left one. */
  function Walk(h: NodeHash, branches: Branches, level: nat, index: nat, current: Felt)
    : (r: Result<(Felt, Branches), FrontierError>)
    requires level <= |branches|
    ensures r.Ok? ==> |r.value.1| == |branches|
    decreases |branches| - level
  {
    if level == |branches| then Ok((current, branches))
    else if index % 2 == 0 then
      Walk(h, branches[level := Some(current)], level + 1, index / 2, h(current, ZeroHash(h, level)))
    else if branches[level].None? then Err(MissingFrontier(level))
    else Walk(h, branches, level + 1, index / 2, h(branches[level].value, current))
  }

  method BuildZeroHashes(h: NodeHash, depth: nat) returns (zeros: seq<Felt>)
    ensures IsZeroHashes(h, depth, zeros)
  {
    zeros := [ZERO];
    for i := 0 to depth
      invariant IsZeroHashes(h, i, zeros)
    {
      zeros := zeros + [h(zeros[i], zeros[i])];
    }
  }

  /** `simulate_frontier_append` on the in-memory slots. */
  method SimulateFrontierAppend(h: NodeHash, zeros: seq<Felt>, branches: array<Option<Felt>>, start: nat, cm: Felt)
    returns (r: Result<Felt, FrontierError>)
    requires IsZeroHashes(h, branches.Length, zeros)
    modifies branches
    ensures var w := Walk(h, old(branches[..]), 0, start, cm);
            match w
            case Ok(v) => r == Ok(v.0) && branches[..] == v.1
            case Err(e) => r == Err(e)
  {
    var current := cm;
    var index := start;
    ghost var whole := Walk(h, branches[..], 0, start, cm);
    for level := 0 to branches.Length
      invariant Walk(h, branches[..], level, index, current) == whole
    {
      if index % 2 == 0 {
        ghost var before := branches[..];
        branches[level] := Some(current);
        assert branches[..] == before[level := Some(current)];
        current := h(current, zeros[level]);
      } else {
        match branches[level] {
          case None => return Err(MissingFrontier(level));
          case Some(left) => current := h(left, current);
        }
      }
      index := index / 2;
    }
    r := Ok(current);
  }

  /** Every slot a right child will look for is filled. */
  predicate HasLiveSlots(branches: Branches, size: nat)
  {
    forall l :: 0 <= l < |branches| && Bit(size, l) ==> branches[l].Some?
  }

  /** `assert_frontier_matches_tree_size`. */
  method AssertFrontierMatchesTreeSize(branches: array<Option<Felt>>, size: nat) returns (ok: bool)
    ensures ok <==> HasLiveSlots(branches[..], size)
  {
    var bits := size;
    for level := 0 to branches.Length
      invariant bits == Shift(size, level)
      invariant forall l :: 0 <= l < level && Bit(size, l) ==> branches[l].Some?
    {
      if bits % 2 == 1 && branches[level].None? {
        assert Bit(size, level) && branches[..][level].None?;
        return false;
      }
      ShiftOnce(size, level);
      bits := bits / 2;
    }
    return true;
  }

  /** Each live slot from a level on holds the complete subtree just left of the
      next leaf. The other slots may hold anything. */
  ghost predicate LiveFrom(h: NodeHash, leaves: seq<Felt>, branches: Branches, level: nat)
  {
    forall l :: level <= l < |branches| && Bit(|leaves|, l) ==>
      branches[l] == Some(Node(h, 0, leaves, l, Shift(|leaves|, l) - 1))
  }

  ghost predicate Live(h: NodeHash, leaves: seq<Felt>, branches: Branches)
  {
    LiveFrom(h, leaves, branches, 0)
  }

  /** What the slots hold after `cm` is appended: the new leaf's ancestor at
      every level where it is a left child, the former content elsewhere. */
  function Appended(h: NodeHash, leaves: seq<Felt>, branches: Branches, cm: Felt): (r: Branches)
    ensures |r| == |branches|
  {
    AppendedFrom(h, leaves, branches, cm, 0)
  }

  function AppendedFrom(h: NodeHash, leaves: seq<Felt>, branches: Branches, cm: Felt, level: nat): (r: Branches)
    ensures |r| == |branches|
  {
    seq(|branches|, l requires 0 <= l < |branches| =>
      if l < level || Bit(|leaves|, l) then branches[l]
      else Some(Node(h, 0, leaves + [cm], l, Shift(|leaves|, l))))
  }

  /** A live frontier never misses a node, and the walk ends at the root of the
      full tree over the extended leaves. */
  lemma WalkReachesRoot(h: NodeHash, leaves: seq<Felt>, branches: Branches, cm: Felt)
    requires Live(h, leaves, branches) && |leaves| < Pow2(|branches|)
    ensures Walk(h, branches, 0, |leaves|, cm)
            == Ok((Root(h, |branches|, leaves + [cm]), Appended(h, leaves, branches, cm)))
  {
    ShiftToZero(|leaves|, |branches|);
    WalkFrom(h, leaves, branches, cm, 0);
    hide Walk, AppendedFrom, Pow2;
    assert Shift(|leaves|, 0) == |leaves|;
    assert Node(h, 0, leaves + [cm], 0, |leaves|) == cm;
  }

  /** At an even position the new leaf's ancestor is a left child with an empty right neighbour. */
  lemma LeftParent(h: NodeHash, all: seq<Felt>, n: nat, level: nat)
    requires |all| == n + 1 && Shift(n, level) % 2 == 0
    ensures Node(h, 0, all, level + 1, Shift(n, level + 1))
            == h(Node(h, 0, all, level, Shift(n, level)), ZeroHash(h, level))
  {
    ShiftOnce(n, level);
    ShiftBounds(n, level);
    NodeOfEmptyPart(h, 0, all, level, Shift(n, level) + 1);
  }

  /** At an odd position its left neighbour is a complete subtree of the old leaves. */
  lemma RightParent(h: NodeHash, leaves: seq<Felt>, cm: Felt, level: nat)
    requires Bit(|leaves|, level)
    ensures Node(h, 0, leaves + [cm], level + 1, Shift(|leaves|, level + 1))
            == h(Node(h, 0, leaves, level, Shift(|leaves|, level) - 1),
                 Node(h, 0, leaves + [cm], level, Shift(|leaves|, level)))
  {
    ShiftOnce(|leaves|, level);
    ShiftBounds(|leaves|, level);
    CompleteNodeKept(h, leaves, [cm], level, Shift(|leaves|, level) - 1);
  }

  /** One level of the walk at an even position: the ancestor is remembered. */
  lemma LeftStep(h: NodeHash, leaves: seq<Felt>, branches: Branches, cm: Felt, level: nat)
    requires level < |branches| && Shift(|leaves|, level) % 2 == 0 && LiveFrom(h, leaves, branches, level)
    ensures var ancestor := Node(h, 0, leaves + [cm], level, Shift(|leaves|, level));
            var next := branches[level := Some(ancestor)];
            && Walk(h, branches, level, Shift(|leaves|, level), ancestor)
               == Walk(h, next, level + 1, Shift(|leaves|, level + 1),
                       Node(h, 0, leaves + [cm], level + 1, Shift(|leaves|, level + 1)))
            && LiveFrom(h, leaves, next, level + 1)
            && AppendedFrom(h, leaves, next, cm, level + 1) == AppendedFrom(h, leaves, branches, cm, level)
  {
    LeftParent(h, leaves + [cm], |leaves|, level);
    ShiftOnce(|leaves|, level);
    hide Node, Shift, ZeroHash;
    var next := branches[level := Some(Node(h, 0, leaves + [cm], level, Shift(|leaves|, level)))];
    assert AppendedFrom(h, leaves, next, cm, level + 1) == AppendedFrom(h, leaves, branches, cm, level);
  }

  /** At an odd position it is joined with the subtree in the slot. */
  lemma RightStep(h: NodeHash, leaves: seq<Felt>, branches: Branches, cm: Felt, level: nat)
    requires level < |branches| && Shift(|leaves|, level) % 2 == 1 && LiveFrom(h, leaves, branches, level)
    ensures var ancestor := Node(h, 0, leaves + [cm], level, Shift(|leaves|, level));
            && Walk(h, branches, level, Shift(|leaves|, level), ancestor)
               == Walk(h, branches, level + 1, Shift(|leaves|, level + 1),
                       Node(h, 0, leaves + [cm], level + 1, Shift(|leaves|, level + 1)))
            && LiveFrom(h, leaves, branches, level + 1)
            && AppendedFrom(h, leaves, branches, cm, level + 1) == AppendedFrom(h, leaves, branches, cm, level)
  {
    assert Bit(|leaves|, level);
    RightParent(h, leaves, cm, level);
    ShiftOnce(|leaves|, level);
    hide Node, Shift;
    assert AppendedFrom(h, leaves, branches, cm, level + 1) == AppendedFrom(h, leaves, branches, cm, level);
  }

  lemma {:induction false} WalkFrom(h: NodeHash, leaves: seq<Felt>, branches: Branches, cm: Felt, level: nat)
    requires level <= |branches| && LiveFrom(h, leaves, branches, level)
    ensures Walk(h, branches, level, Shift(|leaves|, level), Node(h, 0, leaves + [cm], level, Shift(|leaves|, level)))
            == Ok((Node(h, 0, leaves + [cm], |branches|, Shift(|leaves|, |branches|)),
                   AppendedFrom(h, leaves, branches, cm, level)))
    decreases |branches| - level
  {
    if level == |branches| {
      assert AppendedFrom(h, leaves, branches, cm, level) == branches;
    } else if Shift(|leaves|, level) % 2 == 0 {
      hide AppendedFrom, Node, Walk, Shift, LiveFrom;
      LeftStep(h, leaves, branches, cm, level);
      var ancestor := Node(h, 0, leaves + [cm], level, Shift(|leaves|, level));
      WalkFrom(h, leaves, branches[level := Some(ancestor)], cm, level + 1);
    } else {
      hide AppendedFrom, Node, Walk, Shift, LiveFrom;
      RightStep(h, leaves, branches, cm, level);
      WalkFrom(h, leaves, branches, cm, level + 1);
    }
  }

  /** Counting one more leaf moves a level's position by at most one. */
  lemma {:induction false} ShiftSuccessor(n: nat, d: nat)
    ensures Shift(n + 1, d) == Shift(n, d) || Shift(n + 1, d) == Shift(n, d) + 1
    decreases d
  {
    if d == 0 {
    } else {
      if (n + 1) / 2 == n / 2 + 1 {
        ShiftSuccessor(n / 2, d - 1);
      } else {
        assert (n + 1) / 2 == n / 2;
      }
    }
  }

  lemma LiveSlotAfter(h: NodeHash, leaves: seq<Felt>, branches: Branches, cm: Felt, l: nat)
    requires Live(h, leaves, branches) && l < |branches| && Bit(|leaves| + 1, l)
    ensures Appended(h, leaves, branches, cm)[l] == Some(Node(h, 0, leaves + [cm], l, Shift(|leaves| + 1, l) - 1))
  {
    ShiftSuccessor(|leaves|, l);
    ShiftBounds(|leaves|, l);
    hide Node, Shift, Pow2;
    if Bit(|leaves|, l) {
      assert branches[l] == Some(Node(h, 0, leaves, l, Shift(|leaves|, l) - 1));
      CompleteNodeKept(h, leaves, [cm], l, Shift(|leaves|, l) - 1);
    }
  }

  /** Appending keeps the frontier live. */
  lemma AppendedIsLive(h: NodeHash, leaves: seq<Felt>, branches: Branches, cm: Felt)
    requires Live(h, leaves, branches)
    ensures Live(h, leaves + [cm], Appended(h, leaves, branches, cm))
  {
    var all, after := leaves + [cm], Appended(h, leaves, branches, cm);
    forall l | 0 <= l < |after| && Bit(|all|, l)
      ensures after[l] == Some(Node(h, 0, all, l, Shift(|all|, l) - 1))
    {
      LiveSlotAfter(h, leaves, branches, cm, l);
    }
  }

  lemma LiveHasSlots(h: NodeHash, leaves: seq<Felt>, branches: Branches)
    requires Live(h, leaves, branches)
    ensures HasLiveSlots(branches, |leaves|)
  {
  }

  /** A walk fails exactly when a live slot is empty, whatever the slots hold. */
  lemma {:induction false} WalkFailsExactlyOnMissingSlot(h: NodeHash, branches: Branches, level: nat, start: nat,
                                                         current: Felt)
    requires level <= |branches|
    ensures Walk(h, branches, level, Shift(start, level), current).Ok? <==>
            forall l :: level <= l < |branches| && Bit(start, l) ==> branches[l].Some?
    decreases |branches| - level
  {
    if level >= |branches| {
    } else {
      var index := Shift(start, level);
      ShiftOnce(start, level);
      if index % 2 == 0 {
        WalkFailsExactlyOnMissingSlot(h, branches[level := Some(current)], level + 1, start,
                                      h(current, ZeroHash(h, level)));
      } else if branches[level].Some? {
        WalkFailsExactlyOnMissingSlot(h, branches, level + 1, start, h(branches[level].value, current));
      } else {
        assert Bit(start, level);
      }
    }
  }

  // ----- Appending leaf by leaf

  datatype State = State(branches: Branches, size: nat, root: Felt)

  /** One append on the stored frontier, capacity check included. */
  function Append(h: NodeHash, s: State, cm: Felt): Result<State, FrontierError>
  {
    if s.size >= Pow2(|s.branches|) then Err(TreeFull)
    else
      var (root, branches) :- Walk(h, s.branches, 0, s.size, cm);
      Ok(State(branches, s.size + 1, root))
  }

  function AppendAll(h: NodeHash, s: State, leaves: seq<Felt>): Result<State, FrontierError>
  {
    if leaves == [] then Ok(s)
    else
      var before :- AppendAll(h, s, leaves[..|leaves| - 1]);
      Append(h, before, leaves[|leaves| - 1])
  }

  /** From an empty tree whose slots hold anything at all, appending leaf by leaf
      succeeds exactly while the tree has room, and then holds a live frontier
      and the root the full tree computes from all the leaves. */
  lemma {:induction false} IncrementalRootIsFullRoot(h: NodeHash, stale: Branches, leaves: seq<Felt>)
    ensures var r := AppendAll(h, State(stale, 0, Root(h, |stale|, [])), leaves);
            (r.Ok? <==> |leaves| <= Pow2(|stale|)) &&
            (r.Err? ==> r.error == TreeFull) &&
            (r.Ok? ==> r.value.size == |leaves| && |r.value.branches| == |stale|
                       && r.value.root == Root(h, |stale|, leaves)
                       && Live(h, leaves, r.value.branches))
  {
    if leaves == [] {
      forall l: nat
        ensures !Bit(0, l)
      {
        ZeroHasNoBits(l);
      }
    } else {
      var before, last := leaves[..|leaves| - 1], leaves[|leaves| - 1];
      IncrementalRootIsFullRoot(h, stale, before);
      assert leaves == before + [last];
      var r := AppendAll(h, State(stale, 0, Root(h, |stale|, [])), before);
      if r.Ok? && |before| < Pow2(|stale|) {
        WalkReachesRoot(h, before, r.value.branches, last);
        AppendedIsLive(h, before, r.value.branches, last);
      }
    }
  }

  lemma {:induction false} ZeroHasNoBits(l: nat)
    ensures Shift(0, l) == 0
  {
    if l == 0 {
    } else {
      ZeroHasNoBits(l - 1);
    }
  }
}
