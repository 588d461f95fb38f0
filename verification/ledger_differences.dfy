/** Runs on which the two ledgers really part: one for each of the two rules. */
module LedgerDifferences {
  import opened Bytes
  import opened KernelState
  import opened KernelStore
  import opened KernelUpdates
  import opened LedgerAgreement
  import opened MemoryLedgers
  import opened Merkle
  import opened PlainTransfers
  import opened Protocol

  /** The `n`-th of a series of plain transfers, all under the root of the empty tree. */
  function PlainReq(w: World, n: u64, fee: u64): TransferReq
  {
    PlainTransfer(TreeRootOf(w, []), n, fee, U64ToFelt(n), TrustMeBro)
  }

  /** The first `n` of the series, in one inbox level. */
  function PlainOps(w: World, level: i32, fee: u64, n: u64): (ops: seq<Timed>)
    ensures |ops| == n
  {
    if n == 0 then [] else PlainOps(w, level, fee, n - 1) + [Timed(level, TransferOp(PlainReq(w, n, fee)))]
  }

  /** What the series leaves in memory, and its verdicts there. */
  function InMemory(w: World, level: i32, fee: u64, n: u64): (Mem, seq<bool>)
  {
    AllOnMemory(w, InitialMem(w, w.defaultAuthDomain), PlainOps(w, level, fee, n))
  }

  /** The same on the durable ledger. */
  function InStore(w: World, level: i32, fee: u64, n: u64): (Ledger, seq<bool>)
  {
    AllOnDurable(w, InitialLedger(w), PlainOps(w, level, fee, n))
  }

  function PlainNotes(n: u64): (notes: seq<Note>)
    ensures |notes| == 3 * n
  {
    if n == 0 then []
    else
      var note := Note(U64ToFelt(n), BlankNote());
      PlainNotes(n - 1) + [note, note, note]
  }

  function RootAfter(w: World, n: u64): Felt
  {
    TreeRootOf(w, PlainNotes(n))
  }

  function AllTrue(n: nat): (verdicts: seq<bool>)
    ensures |verdicts| == n
  {
    seq(n, _ => true)
  }

  lemma MemoryPlain(w: World, m: Mem, n: u64, fee: u64)
    requires CapacityFitsHost(w) && fee >= MIN_TX_FEE && |m.notes| + 3 <= Pow2(w.crypto.depth)
    requires U64ToFelt(n) !in m.nullifiers
    ensures var req := PlainReq(w, n, fee);
            OnMemory(w, m, TransferOp(req))
            == if req.root in m.history then (MemTransfer(w, m, req), true) else (m, false)
  {
    var req := PlainReq(w, n, fee);
    if req.root in m.history {
      PlainTransferPasses(w.crypto, MemReads(w, m), req.root, n, fee, U64ToFelt(n), TrustMeBro);
    }
  }

  lemma DurablePlain(w: World, l: Ledger, level: i32, n: u64, fee: u64)
    requires CapacityFitsHost(w) && |l.notes| + 3 <= Pow2(w.crypto.depth)
    requires U64ToFelt(n) !in l.nullifiers && TreeRootOf(w, []) in l.roots
    ensures var r := OnDurable(w, l, level, TransferOp(PlainReq(w, n, fee)));
            && (r.1 <==> fee >= RequiredTxFee(AcceptedInLevel(l, level)))
            && (r.1 ==> AcceptedInLevel(r.0, level) == AcceptedInLevel(l, level) + 1 && TreeRootOf(w, []) in r.0.roots)
  {
    var req := PlainReq(w, n, fee);
    if fee >= RequiredTxFee(AcceptedInLevel(l, level)) {
      PlainTransferPasses(w.crypto, ReadsOf(l, level), req.root, n, fee, U64ToFelt(n), TrustMeBro);
      hide CheckTransfer, TreeRootOf;
      var notes := TransferNotes(req);
      AppendThree(w, l, notes[0], notes[1], notes[2]);
      AppendsKeepRest(w, l, notes);
      hide AppendFallible;
    }
  }

  /** What both ledgers hold after `n` transfers of the series, as long as each
      pays what its level asks. */
  ghost predicate InSeries(w: World, level: i32, n: u64, m: Mem, l: Ledger)
  {
    && Related(m, l) && m.notes == PlainNotes(n) && AcceptedInLevel(l, level) == n
    && (forall k: u64 :: U64ToFelt(k) in m.nullifiers ==> k <= n)
    && TreeRootOf(w, []) in l.roots
    && |m.history| <= n + 1 && (n < MAX_VALID_ROOTS ==> TreeRootOf(w, []) in m.history)
  }

  /** The verdicts on the next transfer of the series. */
  lemma NextOfSeries(w: World, level: i32, fee: u64, n: u64, m: Mem, l: Ledger)
    requires n + 1 < U64_LIMIT && CapacityFitsHost(w) && 3 * (n + 1) <= Pow2(w.crypto.depth)
    requires InSeries(w, level, n, m, l) && fee >= MIN_TX_FEE
    ensures var req := PlainReq(w, n + 1, fee);
            && OnMemory(w, m, TransferOp(req))
               == (if req.root in m.history then (MemTransfer(w, m, req), true) else (m, false))
            && (n < MAX_VALID_ROOTS ==> req.root in m.history)
            && (OnDurable(w, l, level, TransferOp(req)).1 <==> fee >= RequiredTxFee(n))
            && (fee >= RequiredTxFee(n) ==>
                  AcceptedInLevel(OnDurable(w, l, level, TransferOp(req)).0, level) == n + 1
                  && TreeRootOf(w, []) in OnDurable(w, l, level, TransferOp(req)).0.roots)
  {
    hide OnMemory, OnDurable, RequiredTxFee, U64ToFelt, Pow2, TreeRootOf, MemTransfer, PlainNotes;
    assert U64ToFelt(n + 1) in l.nullifiers <==> U64ToFelt(n + 1) in Elements(l.nullifiers);
    MemoryPlain(w, m, n + 1, fee);
    DurablePlain(w, l, level, n + 1, fee);
  }

  lemma NextInSeries(w: World, level: i32, fee: u64, n: u64, m: Mem, l: Ledger)
    requires n + 1 < U64_LIMIT && CapacityFitsHost(w) && 3 * (n + 1) <= Pow2(w.crypto.depth)
    requires InSeries(w, level, n, m, l) && n < MAX_VALID_ROOTS
    requires fee >= MIN_TX_FEE && fee >= RequiredTxFee(n)
    ensures var op := TransferOp(PlainReq(w, n + 1, fee));
            && OnMemory(w, m, op) == (MemTransfer(w, m, op.transfer), true) && OnDurable(w, l, level, op).1
            && InSeries(w, level, n + 1, OnMemory(w, m, op).0, OnDurable(w, l, level, op).0)
  {
    hide OnMemory, OnDurable, Related, RequiredTxFee, U64ToFelt, Pow2, TreeRootOf, BlankNote;
    var req := PlainReq(w, n + 1, fee);
    var op := TransferOp(req);
    NextOfSeries(w, level, fee, n, m, l);
    SameVerdictStaysRelated(w, m, l, level, op);
    var after := MemTransfer(w, m, req);
    assert after.notes == PlainNotes(n + 1);
    forall k: u64 | U64ToFelt(k) in after.nullifiers
      ensures k <= n + 1
    {
      if U64ToFelt(k) !in m.nullifiers {
        assert U64ToFelt(k) in req.nullifiers;
        U64ToFeltInjective(k, n + 1);
      }
    }
  }

  /** The series one transfer further. */
  lemma LastOfSeries(w: World, level: i32, fee: u64, n: u64)
    requires n > 0
    ensures var a, b := InMemory(w, level, fee, n - 1), InStore(w, level, fee, n - 1);
            var op := TransferOp(PlainReq(w, n, fee));
            var (x, y) := (OnMemory(w, a.0, op), OnDurable(w, b.0, level, op));
            InMemory(w, level, fee, n) == (x.0, a.1 + [x.1]) && InStore(w, level, fee, n) == (y.0, b.1 + [y.1])
  {
    hide OnMemory, OnDurable, InitialMem, InitialLedger, PlainReq;
    var ops, before := PlainOps(w, level, fee, n), PlainOps(w, level, fee, n - 1);
    assert ops[..|ops| - 1] == before;
  }

  lemma FeeSuffices(fee: u64, n: nat)
    requires fee >= TOP_FEE || (fee >= MIN_TX_FEE && n <= 1)
    ensures fee >= RequiredTxFee(n) && fee >= MIN_TX_FEE
  {
    TopFeeIsEnough(n);
    FirstFees();
  }

  lemma OneMoreTrue(n: nat)
    requires n > 0
    ensures AllTrue(n - 1) + [true] == AllTrue(n)
  {
  }

  lemma SeriesStarts(w: World, level: i32, fee: u64)
    ensures var a, b := InMemory(w, level, fee, 0), InStore(w, level, fee, 0);
            InSeries(w, level, 0, a.0, b.0) && a.1 == b.1 == AllTrue(0)
  {
    FreshLedgersAreRelated(w);
    hide TreeRootOf, Related, OnMemory, OnDurable;
  }

  /** While fees suffice, both ledgers accept the first 4096 transfers of the series. */
  lemma {:induction false} SeriesAccepted(w: World, level: i32, fee: u64, n: u64)
    requires CapacityFitsHost(w) && 3 * n <= Pow2(w.crypto.depth) && n <= MAX_VALID_ROOTS
    requires fee >= TOP_FEE || (fee >= MIN_TX_FEE && n <= 2)
    ensures var a, b := InMemory(w, level, fee, n), InStore(w, level, fee, n);
            InSeries(w, level, n, a.0, b.0) && a.1 == b.1 == AllTrue(n)
    decreases n
  {
    hide InSeries, OnMemory, OnDurable, InMemory, InStore, PlainReq, RequiredTxFee, AllTrue;
    if n == 0 {
      SeriesStarts(w, level, fee);
    } else {
      SeriesAccepted(w, level, fee, n - 1);
      LastOfSeries(w, level, fee, n);
      FeeSuffices(fee, n - 1);
      NextInSeries(w, level, fee, n - 1, InMemory(w, level, fee, n - 1).0, InStore(w, level, fee, n - 1).0);
      OneMoreTrue(n);
    }
  }

  // ----- The fee

  /** The third transfer of a level at the minimum fee: accepted in memory,
      refused by the durable ledger. */
  lemma ThirdCheapTransferDiffers(w: World, level: i32)
    requires CapacityFitsHost(w) && 9 <= Pow2(w.crypto.depth)
    ensures InMemory(w, level, MIN_TX_FEE, 3).1 == [true, true, true]
    ensures InStore(w, level, MIN_TX_FEE, 3).1 == [true, true, false]
  {
    hide InSeries, OnMemory, OnDurable, InMemory, InStore, PlainReq, RequiredTxFee, U64ToFelt, Pow2, TreeRootOf;
    var fee: u64, n: u64 := MIN_TX_FEE, 2;
    SeriesAccepted(w, level, fee, n);
    LastOfSeries(w, level, fee, n + 1);
    FirstFees();
    NextOfSeries(w, level, fee, n, InMemory(w, level, fee, n).0, InStore(w, level, fee, n).0);
    assert AllTrue(n) == [true, true];
  }

  // ----- The forgotten root

  /** The series gives the tree a new root each time. */
  ghost predicate RootsApart(w: World, n: u64)
  {
    forall i: u64, j: u64 :: i < j <= n ==> RootAfter(w, i) != RootAfter(w, j)
  }

  function RootsUpTo(w: World, n: u64): (roots: seq<Felt>)
    ensures |roots| == n + 1
  {
    seq(n + 1, i requires 0 <= i <= n => RootAfter(w, i))
  }

  /** Then the history is the newest of these roots. */
  lemma {:induction false} HistoryOfSeries(w: World, level: i32, fee: u64, n: u64)
    requires CapacityFitsHost(w) && 3 * n <= Pow2(w.crypto.depth) && n <= MAX_VALID_ROOTS
    requires fee >= TOP_FEE && RootsApart(w, n)
    ensures InMemory(w, level, fee, n).0.history == Newest(RootsUpTo(w, n), MAX_VALID_ROOTS)
    decreases n
  {
    if n == 0 {
      assert RootsUpTo(w, 0) == [RootAfter(w, 0)];
    } else {
      HistoryOfSeries(w, level, fee, n - 1);
      hide OnMemory, OnDurable, RequiredTxFee, TreeRootOf, InMemory, InStore, InSeries, RootsUpTo, Newest, RootAfter;
      hide PlainReq, MemTransfer, PlainNotes;
      SeriesAccepted(w, level, fee, n - 1);
      LastOfSeries(w, level, fee, n);
      FeeSuffices(fee, n - 1);
      var a, b := InMemory(w, level, fee, n - 1).0, InStore(w, level, fee, n - 1).0;
      SeriesNotes(w, level, n - 1, a, b);
      NextInSeries(w, level, fee, n - 1, a, b);
      HistoryStep(w, a, n, fee);
    }
  }

  lemma SeriesNotes(w: World, level: i32, n: u64, m: Mem, l: Ledger)
    requires InSeries(w, level, n, m, l)
    ensures m.notes == PlainNotes(n)
  {
  }

  /** One transfer of the series records the next root. */
  lemma HistoryStep(w: World, m: Mem, n: u64, fee: u64)
    requires 0 < n <= MAX_VALID_ROOTS && RootsApart(w, n)
    requires m.notes == PlainNotes(n - 1) && m.history == Newest(RootsUpTo(w, n - 1), MAX_VALID_ROOTS)
    ensures MemTransfer(w, m, PlainReq(w, n, fee)).history == Newest(RootsUpTo(w, n), MAX_VALID_ROOTS)
  {
    NewRootRecorded(w, n);
    hide TreeRootOf, RootsUpTo, RootsApart, Newest, Recorded, U64ToFelt, BlankNote;
    assert m.notes + TransferNotes(PlainReq(w, n, fee)) == PlainNotes(n);
  }

  lemma NewRootRecorded(w: World, n: u64)
    requires 0 < n <= MAX_VALID_ROOTS && RootsApart(w, n)
    ensures Recorded(Newest(RootsUpTo(w, n - 1), MAX_VALID_ROOTS), RootAfter(w, n))
            == Newest(RootsUpTo(w, n), MAX_VALID_ROOTS)
  {
    hide RootAfter;
    var roots := RootsUpTo(w, n - 1);
    forall i | 0 <= i < |roots|
      ensures roots[i] != RootAfter(w, n)
    {
      assert roots[i] == RootAfter(w, i);
    }
    assert RootsUpTo(w, n) == roots + [RootAfter(w, n)];
  }

  /** After 4096 transfers that each change the root, a transfer under the first
      root is accepted by the durable ledger and refused in memory. */
  lemma ForgottenRootDiffers(w: World, level: i32, n: u64)
    requires n == MAX_VALID_ROOTS && CapacityFitsHost(w) && 3 * (n + 1) <= Pow2(w.crypto.depth)
    requires RootsApart(w, n)
    ensures InMemory(w, level, TOP_FEE, n + 1).1 == AllTrue(n) + [false]
    ensures InStore(w, level, TOP_FEE, n + 1).1 == AllTrue(n) + [true]
  {
    hide InSeries, OnMemory, OnDurable, InMemory, InStore, RequiredTxFee, TreeRootOf;
    SeriesAccepted(w, level, TOP_FEE, n);
    LastOfSeries(w, level, TOP_FEE, n + 1);
    HistoryOfSeries(w, level, TOP_FEE, n);
    TopFeeIsEnough(n);
    FirstRootForgotten(w, n);
    NextOfSeries(w, level, TOP_FEE, n, InMemory(w, level, TOP_FEE, n).0, InStore(w, level, TOP_FEE, n).0);
  }

  lemma FirstRootForgotten(w: World, n: u64)
    requires n == MAX_VALID_ROOTS && RootsApart(w, n)
    ensures TreeRootOf(w, []) !in Newest(RootsUpTo(w, n), MAX_VALID_ROOTS)
  {
    var kept := Newest(RootsUpTo(w, n), MAX_VALID_ROOTS);
    assert RootAfter(w, 0) == TreeRootOf(w, []);
    hide RootAfter;
    forall i | 0 <= i < |kept|
      ensures kept[i] != RootAfter(w, 0)
    {
      assert kept[i] == RootAfter(w, i + 1);
    }
  }

  /** A node hash under which all these roots do differ: the last leaf that is not ZERO. */
  function LastNonZero(a: Felt, b: Felt): Felt
  {
    if b == ZERO then a else b
  }

  ghost predicate HashesByLast(h: NodeHash)
  {
    forall a, b :: h(a, b) == LastNonZero(a, b)
  }

  lemma {:induction false} NodeIsLast(h: NodeHash, leaves: seq<Felt>, height: nat, index: nat)
    requires HashesByLast(h) && leaves != [] && leaves[|leaves| - 1] != ZERO
    ensures |leaves| <= index * Pow2(height) ==> Node(h, 0, leaves, height, index) == ZERO
    ensures index * Pow2(height) < |leaves| <= (index + 1) * Pow2(height) ==>
              Node(h, 0, leaves, height, index) == leaves[|leaves| - 1]
    decreases height
  {
    if height == 0 {
    } else {
      SplitRange(height, index);
      hide Pow2;
      NodeIsLast(h, leaves, height - 1, 2 * index);
      NodeIsLast(h, leaves, height - 1, 2 * index + 1);
    }
  }

  lemma {:induction false} EmptyIsZero(h: NodeHash, height: nat, index: nat)
    requires HashesByLast(h)
    ensures Node(h, 0, [], height, index) == ZERO
  {
    if height == 0 {
    } else {
      EmptyIsZero(h, height - 1, 2 * index);
      EmptyIsZero(h, height - 1, 2 * index + 1);
    }
  }

  lemma ZeroIsNamed()
    ensures U64ToFelt(0) == ZERO
  {
  }

  lemma LastOfPlainNotes(n: u64)
    requires n > 0
    ensures var leaves := Commitments(PlainNotes(n));
            |leaves| == 3 * n && leaves[3 * n - 1] == U64ToFelt(n) != ZERO
  {
    ZeroIsNamed();
    hide U64ToFelt;
    assert PlainNotes(n)[3 * n - 1] == Note(U64ToFelt(n), BlankNote());
    if U64ToFelt(n) == ZERO {
      U64ToFeltInjective(n, 0);
    }
  }

  lemma RootNames(w: World, n: u64)
    requires HashesByLast(w.crypto.node) && 3 * n <= Pow2(w.crypto.depth)
    ensures RootAfter(w, n) == U64ToFelt(n)
  {
    hide U64ToFelt, Node, Pow2;
    var leaves := Commitments(PlainNotes(n));
    if n == 0 {
      ZeroIsNamed();
      assert leaves == [];
      EmptyIsZero(w.crypto.node, w.crypto.depth, 0);
    } else {
      LastOfPlainNotes(n);
      hide PlainNotes;
      NodeIsLast(w.crypto.node, leaves, w.crypto.depth, 0);
    }
  }

  lemma LastLeafKeepsRootsApart(w: World, n: u64)
    requires HashesByLast(w.crypto.node) && 3 * n <= Pow2(w.crypto.depth)
    ensures RootsApart(w, n)
  {
    hide RootAfter, U64ToFelt;
    forall i: u64, j: u64 | i < j <= n
      ensures RootAfter(w, i) != RootAfter(w, j)
    {
      RootNames(w, i);
      RootNames(w, j);
      if U64ToFelt(i) == U64ToFelt(j) {
        U64ToFeltInjective(i, j);
      }
    }
  }
}
