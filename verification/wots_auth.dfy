/** One-time keys, their L-tree leaves, and signature verification
    (`core/src/lib.rs`). */
module WotsAuth {
  import opened Bytes
  import opened Wots
  import opened Wrappers

  datatype VerifyError = BadSignatureLength | VerificationFailed

  // ----- L-trees

  /** What the L-tree node at (level, nodeIdx) hashes. */
  function LTreeInput(pubSeed: Felt, keyIdx: u32, level: u32, nodeIdx: u32, left: Felt, right: Felt): seq<Felt>
  {
    [pubSeed, PackAdrs(TAG_XMSS_LTREE, keyIdx, level, nodeIdx, 0), left, right]
  }

  /** `xmss_ltree_node_hash`. */
  function LTreeNode(h: PartsHash, pubSeed: Felt, keyIdx: u32, level: u32, nodeIdx: u32, left: Felt, right: Felt): Felt
  {
    h(LTreeInput(pubSeed, keyIdx, level, nodeIdx, left, right))
  }

  /** The number of nodes of an L-tree over `n` leaves at a level. */
  function Width(n: nat, level: nat): (r: nat)
    ensures r <= n && (n > 0 ==> r > 0)
  {
    if level == 0 then n else (Width(n, level - 1) + 1) / 2
  }

  /** How two children at (level, index) are joined. */
  type NodeAt = (u32, u32, Felt, Felt) -> Felt

  function LTreeNodes(h: PartsHash, pubSeed: Felt, keyIdx: u32): NodeAt
  {
    (level: u32, i: u32, left: Felt, right: Felt) => LTreeNode(h, pubSeed, keyIdx, level, i, left, right)
  }

  /** The L-tree, defined from the top: a node joins its two children, and a
      child without a neighbour is lifted as it is (section 4.1.5 of RFC 8391). */
  function LNode(node: NodeAt, pk: seq<Felt>, level: nat, i: nat): Felt
    requires i < Width(|pk|, level) && level <= U32_LIMIT && |pk| < U32_LIMIT
    decreases level
  {
    if level == 0 then pk[i]
    else if 2 * i + 1 < Width(|pk|, level - 1) then
      node(level - 1, i, LNode(node, pk, level - 1, 2 * i), LNode(node, pk, level - 1, 2 * i + 1))
    else LNode(node, pk, level - 1, 2 * i)
  }

  /** The level at which one node is left. */
  function LHeight(n: nat): (r: nat)
    requires n > 0
    ensures r < n
  {
    if n == 1 then 0 else 1 + LHeight((n + 1) / 2)
  }

  /** The leaf of a one-time public key. */
  function LTree(h: PartsHash, pubSeed: Felt, keyIdx: u32, pk: seq<Felt>): Felt
    requires 0 < |pk| < U32_LIMIT
  {
    WidthAtHeight(|pk|, 0);
    LNode(LTreeNodes(h, pubSeed, keyIdx), pk, LHeight(|pk|), 0)
  }

  lemma {:induction false} WidthAtHeight(n: nat, level: nat)
    requires n > 0
    ensures Width(n, level + LHeight(Width(n, level))) == 1
    decreases Width(n, level)
  {
    if Width(n, level) <= 1 {
    } else {
      assert Width(n, level + 1) == (Width(n, level) + 1) / 2;
      WidthAtHeight(n, level + 1);
      assert level + 1 + LHeight(Width(n, level + 1)) == level + LHeight(Width(n, level));
    }
  }

  /** `row` holds the L-tree's nodes at `level`. */
  ghost predicate IsLayer(node: NodeAt, pk: seq<Felt>, level: nat, row: seq<Felt>)
    requires level <= U32_LIMIT && |pk| < U32_LIMIT
  {
    |row| == Width(|pk|, level) && forall i :: 0 <= i < |row| ==> row[i] == LNode(node, pk, level, i)
  }

  lemma BottomLayer(node: NodeAt, pk: seq<Felt>)
    requires |pk| < U32_LIMIT
    ensures IsLayer(node, pk, 0, pk)
  {
  }

  /** The layer of one node holds the leaf. */
  lemma TopLayer(h: PartsHash, pubSeed: Felt, keyIdx: u32, pk: seq<Felt>, level: nat, row: seq<Felt>)
    requires 0 < |pk| < U32_LIMIT && level == LHeight(|pk|) && |row| == 1
    requires IsLayer(LTreeNodes(h, pubSeed, keyIdx), pk, level, row)
    ensures row[0] == LTree(h, pubSeed, keyIdx, pk)
  {
    hide LTreeNodes, LNode, Width;
  }

  /** The next layer's node `i`, from the layer below it. */
  lemma NextLayer(h: PartsHash, pubSeed: Felt, keyIdx: u32, pk: seq<Felt>, level: nat, row: seq<Felt>, i: nat)
    requires level < U32_LIMIT && |pk| < U32_LIMIT && IsLayer(LTreeNodes(h, pubSeed, keyIdx), pk, level, row)
    requires 2 * i < |row|
    ensures LNode(LTreeNodes(h, pubSeed, keyIdx), pk, level + 1, i)
            == if 2 * i + 1 < |row| then LTreeNode(h, pubSeed, keyIdx, level, i, row[2 * i], row[2 * i + 1])
               else row[2 * i]
  {
    hide LTreeNode;
  }

  /** One level of `wots_pk_to_leaf`: pairs are joined into a new row. */
  method AllocateLayer(h: PartsHash, pubSeed: Felt, keyIdx: u32, ghost pk: seq<Felt>, level: nat, current: seq<Felt>)
    returns (next: seq<Felt>)
    requires |pk| < U32_LIMIT && level + |current| <= |pk| && 1 < |current|
    requires IsLayer(LTreeNodes(h, pubSeed, keyIdx), pk, level, current)
    ensures |next| == (|current| + 1) / 2 && IsLayer(LTreeNodes(h, pubSeed, keyIdx), pk, level + 1, next)
  {
    hide LTreeNode, LTreeNodes, LNode;
    next := [];
    var nodeIdx, at := 0, 0;
    while at < |current|
      invariant at == Min(2 * |next|, |current|) && |next| <= (|current| + 1) / 2
      invariant nodeIdx == Min(|next|, |current| / 2)
      invariant forall i :: 0 <= i < |next| ==> next[i] == LNode(LTreeNodes(h, pubSeed, keyIdx), pk, level + 1, i)
      decreases |current| - at
    {
      NextLayer(h, pubSeed, keyIdx, pk, level, current, |next|);
      if at + 1 == |current| {
        next := next + [current[at]];
        at := at + 1;
      } else {
        next := next + [LTreeNode(h, pubSeed, keyIdx, level, nodeIdx, current[at], current[at + 1])];
        nodeIdx := nodeIdx + 1;
        at := at + 2;
      }
    }
  }

  /** `wots_pk_to_leaf`: a new row is allocated for each level. */
  method WotsPkToLeaf(h: PartsHash, pubSeed: Felt, keyIdx: u32, pk: seq<Felt>) returns (leaf: Felt)
    requires 0 < |pk| < U32_LIMIT
    ensures leaf == LTree(h, pubSeed, keyIdx, pk)
  {
    hide LTreeNodes, IsLayer;
    BottomLayer(LTreeNodes(h, pubSeed, keyIdx), pk);
    var level := 0;
    var current := pk;
    while |current| > 1
      invariant 0 < |current| && level + |current| <= |pk|
      invariant IsLayer(LTreeNodes(h, pubSeed, keyIdx), pk, level, current)
      invariant level + LHeight(|current|) == LHeight(|pk|)
      decreases |current|
    {
      current := AllocateLayer(h, pubSeed, keyIdx, pk, level, current);
      level := level + 1;
    }
    leaf := current[0];
    TopLayer(h, pubSeed, keyIdx, pk, level, current);
  }

  /** One level of the in-place compaction: the new nodes overwrite the front. */
  method CompactLayer(h: PartsHash, pubSeed: Felt, keyIdx: u32, ghost pk: seq<Felt>, level: nat, current: array<Felt>,
                      len: nat)
    returns (write: nat)
    requires |pk| < U32_LIMIT && level + len <= |pk| && 1 < len <= current.Length
    requires IsLayer(LTreeNodes(h, pubSeed, keyIdx), pk, level, current[..len])
    modifies current
    ensures write == (len + 1) / 2
    ensures IsLayer(LTreeNodes(h, pubSeed, keyIdx), pk, level + 1, current[..write])
  {
    hide LTreeNode, LTreeNodes, LNode;
    write := 0;
    var read, nodeIdx := 0, 0;
    ghost var row := current[..len];
    while read < len
      invariant read == 2 * write && write <= (len + 1) / 2 && nodeIdx == Min(write, len / 2)
      invariant forall i :: read <= i < len ==> current[i] == row[i]
      invariant forall i :: 0 <= i < write ==> current[i] == LNode(LTreeNodes(h, pubSeed, keyIdx), pk, level + 1, i)
      decreases len - read
    {
      NextLayer(h, pubSeed, keyIdx, pk, level, row, write);
      if read + 1 == len {
        current[write] := current[read];
      } else {
        current[write] := LTreeNode(h, pubSeed, keyIdx, level, nodeIdx, current[read], current[read + 1]);
        nodeIdx := nodeIdx + 1;
      }
      write := write + 1;
      read := read + 2;
    }
  }

  // ----- Keys and signatures

  /** The ends of a key's chains, walked under any public seed. */
  function ChainEnds(h: PartsHash, ask: Felt, pubSeed: Felt, keyIdx: u32): (pk: seq<Felt>)
    ensures |pk| == WOTS_CHAINS
  {
    seq(WOTS_CHAINS, j requires 0 <= j < WOTS_CHAINS =>
      Chain(h, pubSeed, keyIdx, j, SecretStart(h, ask, keyIdx, j), 0, WOTS_W - 1))
  }

  /** `wots_pk`. */
  function WotsPk(h: PartsHash, ask: Felt, keyIdx: u32): (pk: seq<Felt>)
    ensures |pk| == WOTS_CHAINS
  {
    ChainEnds(h, ask, AuthPubSeed(h, ask), keyIdx)
  }

  /** `auth_leaf_hash`, by its meaning: the L-tree over the public key. */
  function AuthLeaf(h: PartsHash, ask: Felt, keyIdx: u32): Felt
  {
    LTree(h, AuthPubSeed(h, ask), keyIdx, WotsPk(h, ask, keyIdx))
  }

  /** `auth_leaf_hash_with_pub_seed`: the ends of all chains in one array ... */
  method FillChainEnds(h: PartsHash, ask: Felt, pubSeed: Felt, keyIdx: u32) returns (current: array<Felt>)
    ensures fresh(current) && current[..] == ChainEnds(h, ask, pubSeed, keyIdx)
  {
    hide Chain, SecretStart;
    ghost var pk := ChainEnds(h, ask, pubSeed, keyIdx);
    current := new Felt[WOTS_CHAINS](_ => ZERO);
    for j := 0 to WOTS_CHAINS
      invariant current[..j] == pk[..j]
    {
      current[j] := XmssHashChain(h, SecretStart(h, ask, keyIdx, j), pubSeed, keyIdx, j, 0, WOTS_W - 1);
    }
    assert current[..] == current[..WOTS_CHAINS] == pk;
  }

  /** ... compacted in place, level by level, to the L-tree's root. */
  method AuthLeafHashWithPubSeed(h: PartsHash, ask: Felt, pubSeed: Felt, keyIdx: u32) returns (leaf: Felt)
    ensures leaf == LTree(h, pubSeed, keyIdx, ChainEnds(h, ask, pubSeed, keyIdx))
    ensures pubSeed == AuthPubSeed(h, ask) ==> leaf == AuthLeaf(h, ask, keyIdx)
  {
    hide AuthPubSeed, ChainEnds, LTreeNodes, LNode, IsLayer;
    ghost var pk := ChainEnds(h, ask, pubSeed, keyIdx);
    var current := FillChainEnds(h, ask, pubSeed, keyIdx);
    assert current[..WOTS_CHAINS] == current[..];
    BottomLayer(LTreeNodes(h, pubSeed, keyIdx), pk);
    var level, len := 0, WOTS_CHAINS;
    while len > 1
      invariant 0 < len <= current.Length && level + len <= |pk|
      invariant IsLayer(LTreeNodes(h, pubSeed, keyIdx), pk, level, current[..len])
      invariant level + LHeight(len) == LHeight(|pk|)
      decreases len
    {
      len := CompactLayer(h, pubSeed, keyIdx, pk, level, current, len);
      level := level + 1;
    }
    leaf := current[0];
    TopLayer(h, pubSeed, keyIdx, pk, level, current[..len]);
  }

  /** `wots_sign`: each chain walked as far as its digit. */
  function WotsSign(h: PartsHash, ask: Felt, keyIdx: u32, msg: Felt): (sig: seq<Felt>)
    ensures |sig| == WOTS_CHAINS
  {
    seq(WOTS_CHAINS, j requires 0 <= j < WOTS_CHAINS =>
      Chain(h, AuthPubSeed(h, ask), keyIdx, j, SecretStart(h, ask, keyIdx, j), 0, Digits(msg)[j]))
  }

  /** `recover_wots_pk`: each part walked to the end of its chain. */
  function RecoverPk(h: PartsHash, msg: Felt, pubSeed: Felt, keyIdx: u32, sig: seq<Felt>): (pk: seq<Felt>)
    ensures |pk| == Min(|sig|, WOTS_CHAINS)
  {
    seq(Min(|sig|, WOTS_CHAINS), j requires 0 <= j < Min(|sig|, WOTS_CHAINS) =>
      Chain(h, pubSeed, keyIdx, j, sig[j], Digits(msg)[j], WOTS_W - 1 - Digits(msg)[j]))
  }

  /** `verify_wots_signature_against_leaf`. */
  function VerifyAgainstLeaf(h: PartsHash, msg: Felt, pubSeed: Felt, keyIdx: u32, sig: seq<Felt>,
                             leaf: Felt): Outcome<VerifyError>
  {
    if |sig| != WOTS_CHAINS then Fail(BadSignatureLength)
    else if LTree(h, pubSeed, keyIdx, RecoverPk(h, msg, pubSeed, keyIdx, sig)) != leaf then Fail(VerificationFailed)
    else Pass
  }

  lemma SignatureRecoversPk(h: PartsHash, ask: Felt, keyIdx: u32, msg: Felt)
    ensures RecoverPk(h, msg, AuthPubSeed(h, ask), keyIdx, WotsSign(h, ask, keyIdx, msg)) == WotsPk(h, ask, keyIdx)
  {
    var seed, sig, pk := AuthPubSeed(h, ask), WotsSign(h, ask, keyIdx, msg), WotsPk(h, ask, keyIdx);
    hide Chain, SecretStart, AuthPubSeed, Digits;
    var recovered := RecoverPk(h, msg, seed, keyIdx, sig);
    forall j | 0 <= j < WOTS_CHAINS
      ensures recovered[j] == pk[j]
    {
      var d := Digits(msg)[j];
      ChainsCompose(h, seed, keyIdx, j, SecretStart(h, ask, keyIdx, j), 0, d, WOTS_W - 1 - d);
    }
  }

  /** Every signature is accepted against its key's leaf. */
  lemma SignaturesVerify(h: PartsHash, ask: Felt, keyIdx: u32, msg: Felt)
    ensures VerifyAgainstLeaf(h, msg, AuthPubSeed(h, ask), keyIdx, WotsSign(h, ask, keyIdx, msg),
            AuthLeaf(h, ask, keyIdx)) == Pass
  {
    SignatureRecoversPk(h, ask, keyIdx, msg);
  }

  // ----- What an accepted signature is: the signer's own, or a named collision

  /** The trees over `a` and `b` join different children to one node at this position. */
  predicate LNodesCollide(node: NodeAt, a: seq<Felt>, b: seq<Felt>, level: u32, i: nat)
    requires |a| == |b| < U32_LIMIT
  {
    && 2 * i + 1 < Width(|a|, level)
    && var (a0, a1) := (LNode(node, a, level, 2 * i), LNode(node, a, level, 2 * i + 1));
       var (b0, b1) := (LNode(node, b, level, 2 * i), LNode(node, b, level, 2 * i + 1));
       node(level, i, a0, a1) == node(level, i, b0, b1) && !(a0 == b0 && a1 == b1)
  }

  ghost predicate LTreesAreClean(node: NodeAt, a: seq<Felt>, b: seq<Felt>)
    requires |a| == |b| < U32_LIMIT
  {
    forall level: u32, i: nat :: !LNodesCollide(node, a, b, level, i)
  }

  /** The two trees have the same nodes at a level. */
  ghost predicate LevelAlike(node: NodeAt, a: seq<Felt>, b: seq<Felt>, level: nat)
    requires |a| == |b| < U32_LIMIT && level <= U32_LIMIT
  {
    forall i :: 0 <= i < Width(|a|, level) ==> LNode(node, a, level, i) == LNode(node, b, level, i)
  }

  /** How the nodes of a level hang below the next one. */
  lemma Parents(node: NodeAt, pk: seq<Felt>, level: u32, i: nat)
    requires |pk| < U32_LIMIT && 2 * i < Width(|pk|, level)
    ensures i < Width(|pk|, level + 1)
    ensures LNode(node, pk, level + 1, i) ==
            if 2 * i + 1 < Width(|pk|, level)
              then node(level, i, LNode(node, pk, level, 2 * i), LNode(node, pk, level, 2 * i + 1))
            else LNode(node, pk, level, 2 * i)
  {
  }

  /** Without a collision above them, children are fixed by their parent. */
  lemma ChildrenBind(node: NodeAt, a: seq<Felt>, b: seq<Felt>, level: u32, i: nat)
    requires |a| == |b| < U32_LIMIT && 2 * i < Width(|a|, level)
    requires LTreesAreClean(node, a, b) && LevelAlike(node, a, b, level + 1)
    ensures LNode(node, a, level, 2 * i) == LNode(node, b, level, 2 * i)
    ensures 2 * i + 1 < Width(|a|, level) ==> LNode(node, a, level, 2 * i + 1) == LNode(node, b, level, 2 * i + 1)
  {
    hide LNode, Width;
    Parents(node, a, level, i);
    Parents(node, b, level, i);
    assert !LNodesCollide(node, a, b, level, i);
    hide LTreesAreClean;
    assert LNode(node, a, level + 1, i) == LNode(node, b, level + 1, i);
  }

  /** Without collisions, two trees alike at one level are over the same leaves. */
  lemma {:induction false} LevelBinds(node: NodeAt, a: seq<Felt>, b: seq<Felt>, level: nat)
    requires |a| == |b| < U32_LIMIT && level <= U32_LIMIT
    requires LTreesAreClean(node, a, b) && LevelAlike(node, a, b, level)
    ensures a == b
    decreases level
  {
    if level == 0 {
      forall k | 0 <= k < |a|
        ensures a[k] == b[k]
      {
        assert LNode(node, a, 0, k) == LNode(node, b, 0, k);
      }
    } else {
      var below: u32 := level - 1;
      assert below + 1 == level;
      hide LNode, LTreesAreClean, Width;
      forall m | 0 <= m < Width(|a|, below)
        ensures LNode(node, a, below, m) == LNode(node, b, below, m)
      {
        assert m == 2 * (m / 2) || m == 2 * (m / 2) + 1;
        ChildrenBind(node, a, b, below, m / 2);
      }
      LevelBinds(node, a, b, below);
    }
  }

  /** Two joins at one address that meet are a collision of the hash, on these inputs. */
  lemma LTreeJoinsMeet(h: PartsHash, pubSeed: Felt, keyIdx: u32, level: u32, i: u32, a: Felt, b: Felt, c: Felt, d: Felt)
    requires !(a == c && b == d)
    ensures LTreeNodes(h, pubSeed, keyIdx)(level, i, a, b) == LTreeNodes(h, pubSeed, keyIdx)(level, i, c, d)
            <==> HashCollision(h, LTreeInput(pubSeed, keyIdx, level, i, a, b),
                 LTreeInput(pubSeed, keyIdx, level, i, c, d))
  {
    hide PackAdrs;
    var x, y := LTreeInput(pubSeed, keyIdx, level, i, a, b), LTreeInput(pubSeed, keyIdx, level, i, c, d);
    assert x[2..] == [a, b] && y[2..] == [c, d];
  }

  /** A leaf commits to the whole public key it was made from, for every hash:
      two keys share a leaf over trees without a colliding node exactly when
      they are one key. */
  lemma LTreeBinds(h: PartsHash, pubSeed: Felt, keyIdx: u32, a: seq<Felt>, b: seq<Felt>)
    requires 0 < |a| == |b| < U32_LIMIT
    ensures LTree(h, pubSeed, keyIdx, a) == LTree(h, pubSeed, keyIdx, b)
            && LTreesAreClean(LTreeNodes(h, pubSeed, keyIdx), a, b)
            <==> a == b
  {
    var node := LTreeNodes(h, pubSeed, keyIdx);
    hide LTreeNodes, LNode;
    if LTree(h, pubSeed, keyIdx, a) == LTree(h, pubSeed, keyIdx, b) && LTreesAreClean(node, a, b) {
      WidthAtHeight(|a|, 0);
      LevelBinds(node, a, b, LHeight(|a|));
    }
  }

  /** No chain of `sig` and no L-tree node above it collides with the signer's own. */
  ghost predicate SignatureIsClean(h: PartsHash, ask: Felt, keyIdx: u32, msg: Felt, sig: seq<Felt>)
  {
    && |sig| == WOTS_CHAINS
    && (forall j: nat :: j < WOTS_CHAINS ==> ChainIsClean(h, ask, keyIdx, msg, sig, j))
    && LTreesAreClean(LTreeNodes(h, AuthPubSeed(h, ask), keyIdx), RecoverPk(h, msg, AuthPubSeed(h, ask), keyIdx, sig),
                      WotsPk(h, ask, keyIdx))
  }

  ghost predicate ChainIsClean(h: PartsHash, ask: Felt, keyIdx: u32, msg: Felt, sig: seq<Felt>, j: nat)
    requires j < WOTS_CHAINS == |sig|
  {
    var d := Digits(msg)[j];
    WalksAreClean(h, AuthPubSeed(h, ask), keyIdx, j, sig[j], WotsSign(h, ask, keyIdx, msg)[j], d, WOTS_W - 1 - d)
  }

  /** For every hash: a signature recovers the public key over clean chains
      exactly when it is the one the key's owner would make. */
  lemma OnlyTheSignatureRecovers(h: PartsHash, ask: Felt, keyIdx: u32, msg: Felt, sig: seq<Felt>)
    requires |sig| == WOTS_CHAINS
    ensures && RecoverPk(h, msg, AuthPubSeed(h, ask), keyIdx, sig) == WotsPk(h, ask, keyIdx)
            && (forall j: nat :: j < WOTS_CHAINS ==> ChainIsClean(h, ask, keyIdx, msg, sig, j))
            <==> sig == WotsSign(h, ask, keyIdx, msg)
  {
    var seed, honest, pk := AuthPubSeed(h, ask), WotsSign(h, ask, keyIdx, msg), WotsPk(h, ask, keyIdx);
    hide Chain, SecretStart, Digits, AuthPubSeed, WotsSign, WotsPk, WalksAreClean;
    SignatureRecoversPk(h, ask, keyIdx, msg);
    var recovered := RecoverPk(h, msg, seed, keyIdx, sig);
    forall j: nat | j < WOTS_CHAINS
      ensures recovered[j] == pk[j] && ChainIsClean(h, ask, keyIdx, msg, sig, j) <==> sig[j] == honest[j]
    {
      var d := Digits(msg)[j];
      assert pk[j] == RecoverPk(h, msg, seed, keyIdx, honest)[j];
      ChainBinds(h, seed, keyIdx, j, sig[j], honest[j], d, WOTS_W - 1 - d);
    }
  }

  /** For every hash: verification accepts a signature without meeting a
      collision exactly when it is the one the key's owner would make. Any
      other accepted signature therefore shows two inputs of one chain step or
      one L-tree node with the same digest. */
  lemma OnlyTheSignatureVerifies(h: PartsHash, ask: Felt, keyIdx: u32, msg: Felt, sig: seq<Felt>)
    ensures && VerifyAgainstLeaf(h, msg, AuthPubSeed(h, ask), keyIdx, sig, AuthLeaf(h, ask, keyIdx)) == Pass
            && SignatureIsClean(h, ask, keyIdx, msg, sig)
            <==> sig == WotsSign(h, ask, keyIdx, msg)
  {
    hide WotsPk, AuthPubSeed, LTree, LTreesAreClean, ChainIsClean, WotsSign, Digits, RecoverPk;
    if |sig| == WOTS_CHAINS {
      OnlyTheSignatureRecovers(h, ask, keyIdx, msg, sig);
      LTreeBinds(h, AuthPubSeed(h, ask), keyIdx, RecoverPk(h, msg, AuthPubSeed(h, ask), keyIdx, sig),
        WotsPk(h, ask, keyIdx));
    }
  }

  /** `a` and `b` are what one step of chain `j` hashes on the way from `sig` and
      from the owner's signature. */
  ghost predicate AreChainInputs(h: PartsHash, ask: Felt, keyIdx: u32, msg: Felt, sig: seq<Felt>,
                                 a: seq<Felt>, b: seq<Felt>)
    requires |sig| == WOTS_CHAINS
  {
    exists j: nat, k: nat :: j < WOTS_CHAINS && Digits(msg)[j] + k < WOTS_W - 1
      && a == StepInputOf(h, ask, keyIdx, msg, sig, j, k)
      && b == StepInputOf(h, ask, keyIdx, msg, WotsSign(h, ask, keyIdx, msg), j, k)
  }

  /** What verification hashes in step `k` of chain `j`. */
  function StepInputOf(h: PartsHash, ask: Felt, keyIdx: u32, msg: Felt, sig: seq<Felt>, j: nat, k: nat): seq<Felt>
    requires j < WOTS_CHAINS == |sig| && Digits(msg)[j] + k < WOTS_W - 1
  {
    var (seed, d) := (AuthPubSeed(h, ask), Digits(msg)[j]);
    StepInput(seed, keyIdx, j, d + k, Chain(h, seed, keyIdx, j, sig[j], d, k))
  }

  /** `a` and `b` are what one node of the L-trees over two public keys hashes. */
  ghost predicate AreNodeInputs(h: PartsHash, pubSeed: Felt, keyIdx: u32, p: seq<Felt>, q: seq<Felt>,
                                a: seq<Felt>, b: seq<Felt>)
    requires |p| == |q| < U32_LIMIT
  {
    exists level: u32, i: u32 :: 2 * i + 1 < Width(|p|, level)
      && a == NodeInputOf(h, pubSeed, keyIdx, p, level, i) && b == NodeInputOf(h, pubSeed, keyIdx, q, level, i)
  }

  function NodeInputOf(h: PartsHash, pubSeed: Felt, keyIdx: u32, pk: seq<Felt>, level: u32, i: u32): seq<Felt>
    requires |pk| < U32_LIMIT && 2 * i + 1 < Width(|pk|, level)
  {
    LTreeInput(pubSeed, keyIdx, level, i, LNode(LTreeNodes(h, pubSeed, keyIdx), pk, level, 2 * i),
               LNode(LTreeNodes(h, pubSeed, keyIdx), pk, level, 2 * i + 1))
  }

  lemma UncleanChainCollides(h: PartsHash, ask: Felt, keyIdx: u32, msg: Felt, sig: seq<Felt>, j: nat)
    returns (a: seq<Felt>, b: seq<Felt>)
    requires j < WOTS_CHAINS == |sig| && !ChainIsClean(h, ask, keyIdx, msg, sig, j)
    ensures HashCollision(h, a, b) && AreChainInputs(h, ask, keyIdx, msg, sig, a, b)
  {
    var honest := WotsSign(h, ask, keyIdx, msg);
    hide Chain, PackAdrs, SecretStart, AuthPubSeed, Digits, WotsSign;
    var d := Digits(msg)[j];
    var k: nat :| k < WOTS_W - 1 - d
      && WalksCollide(h, AuthPubSeed(h, ask), keyIdx, j, sig[j], honest[j], d, k);
    a := StepInputOf(h, ask, keyIdx, msg, sig, j, k);
    b := StepInputOf(h, ask, keyIdx, msg, honest, j, k);
  }

  lemma UncleanTreesCollide(h: PartsHash, pubSeed: Felt, keyIdx: u32, p: seq<Felt>, q: seq<Felt>)
    returns (a: seq<Felt>, b: seq<Felt>)
    requires |p| == |q| < U32_LIMIT && !LTreesAreClean(LTreeNodes(h, pubSeed, keyIdx), p, q)
    ensures HashCollision(h, a, b) && AreNodeInputs(h, pubSeed, keyIdx, p, q, a, b)
  {
    var node := LTreeNodes(h, pubSeed, keyIdx);
    hide LTreeNodes, LTreeInput, LNode;
    var level: u32, i: nat :| LNodesCollide(node, p, q, level, i);
    hide Width;
    a := NodeInputOf(h, pubSeed, keyIdx, p, level, i);
    b := NodeInputOf(h, pubSeed, keyIdx, q, level, i);
    LTreeJoinsMeet(h, pubSeed, keyIdx, level, i, LNode(node, p, level, 2 * i), LNode(node, p, level, 2 * i + 1),
                   LNode(node, q, level, 2 * i), LNode(node, q, level, 2 * i + 1));
  }

  /** Whoever has another signature accepted than the owner's holds two distinct
      inputs with one digest: those of a chain step, or of an L-tree node. */
  lemma OtherSignatureCollides(h: PartsHash, ask: Felt, keyIdx: u32, msg: Felt, sig: seq<Felt>)
    returns (a: seq<Felt>, b: seq<Felt>)
    requires VerifyAgainstLeaf(h, msg, AuthPubSeed(h, ask), keyIdx, sig, AuthLeaf(h, ask, keyIdx)) == Pass
    requires sig != WotsSign(h, ask, keyIdx, msg)
    ensures HashCollision(h, a, b) && |sig| == WOTS_CHAINS
    ensures var recovered := RecoverPk(h, msg, AuthPubSeed(h, ask), keyIdx, sig);
            || AreChainInputs(h, ask, keyIdx, msg, sig, a, b)
            || AreNodeInputs(h, AuthPubSeed(h, ask), keyIdx, recovered, WotsPk(h, ask, keyIdx), a, b)
  {
    OnlyTheSignatureVerifies(h, ask, keyIdx, msg, sig);
    hide AuthPubSeed, AuthLeaf, WotsSign, RecoverPk, LTree, LTreesAreClean, ChainIsClean, WotsPk, AreChainInputs;
    hide AreNodeInputs, HashCollision, Digits;
    if j: nat :| j < WOTS_CHAINS && !ChainIsClean(h, ask, keyIdx, msg, sig, j) {
      a, b := UncleanChainCollides(h, ask, keyIdx, msg, sig, j);
    } else {
      a, b := UncleanTreesCollide(h, AuthPubSeed(h, ask), keyIdx, RecoverPk(h, msg, AuthPubSeed(h, ask), keyIdx, sig),
                                  WotsPk(h, ask, keyIdx));
    }
  }

  /** `forged` holds, in chain `j`, a value from which the published one follows
      by walking forward: a preimage the signer never revealed. */
  ghost predicate WalksBack(h: PartsHash, ask: Felt, keyIdx: u32, msg: Felt, other: Felt, forged: seq<Felt>, j: nat)
    requires |forged| == WOTS_CHAINS
  {
    && j < WOTS_CHAINS && Digits(other)[j] < Digits(msg)[j]
    && Chain(h, AuthPubSeed(h, ask), keyIdx, j, forged[j], Digits(other)[j], Digits(msg)[j] - Digits(other)[j])
       == WotsSign(h, ask, keyIdx, msg)[j]
  }

  /** After one signature, any signature accepted for another message walks some
      chain backwards or meets a collision: the checksum leaves no message that
      only walks forward. */
  lemma ForgeryWalksBack(h: PartsHash, ask: Felt, keyIdx: u32, msg: Felt, other: Felt, forged: seq<Felt>)
    requires msg != other
    requires VerifyAgainstLeaf(h, other, AuthPubSeed(h, ask), keyIdx, forged, AuthLeaf(h, ask, keyIdx)) == Pass
    ensures |forged| == WOTS_CHAINS
    ensures || (exists j: nat :: WalksBack(h, ask, keyIdx, msg, other, forged, j))
            || !SignatureIsClean(h, ask, keyIdx, other, forged)
  {
    hide Digits, Chain, SecretStart, AuthPubSeed, LTree, SignatureIsClean, AuthLeaf;
    OnlyTheSignatureVerifies(h, ask, keyIdx, other, forged);
    if SignatureIsClean(h, ask, keyIdx, other, forged) {
      DigitsAreIncomparable(msg, other);
      var j: nat :| j < WOTS_CHAINS && Digits(msg)[j] > Digits(other)[j];
      var d, e := Digits(other)[j], Digits(msg)[j];
      ChainsCompose(h, AuthPubSeed(h, ask), keyIdx, j, SecretStart(h, ask, keyIdx, j), 0, d, e - d);
      assert WalksBack(h, ask, keyIdx, msg, other, forged, j);
    }
  }
}
