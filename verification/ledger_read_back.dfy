/** The in-memory ledger that reading a store back returns, against the durable
    ledger it was read from (`read_ledger`). */
module LedgerReadBack {
  import opened Bytes
  import opened KernelHistory
  import opened KernelRuns
  import opened KernelState
  import opened KernelStore
  import opened LedgerAgreement
  import opened Merkle
  import opened Protocol
  import opened Wrappers

  /** The answers that ledger gives to validation, after deposits have left it
      with `balances`. */
  function AnswersOf(w: World, r: Snapshot, balances: map<Felt, u64>): LedgerReads
  {
    LedgerReads(
      Ok(r.authDomain),
      Ok(MIN_TX_FEE),
      root => root in r.validRoots,
      nf => nf in r.nullifiers,
      cm => cm in r.applied,
      key => Ok(if key in balances then Some(balances[key]) else None),
      if Pow2(w.crypto.depth) > w.crypto.usizeMax then Err(IndexDoesNotFit) else Ok(|r.leaves|))
  }

  /** The durable ledger with its pools replaced and its applied shields forgotten. */
  function Forgetful(l: Ledger, balances: map<Felt, u64>): Ledger
  {
    l.(pools := map key | key in balances :: Some(balances[key]), applied := {})
  }

  /** Exactly what the ledger read back answers: what the durable ledger would,
      had it other pools, no applied shield and the constant fee. */
  lemma ReadBackAnswers(w: World, s: KState, level: i32, balances: map<Felt, u64>)
    requires s.ledger.Some? && CapacityFitsHost(w)
    ensures Agree(AnswersOf(w, SnapshotOf(w, s), balances),
                  ReadsOf(Forgetful(s.ledger.value, balances), level).(requiredFee := Ok(MIN_TX_FEE)))
  {
    var l := s.ledger.value;
    assert forall x :: x in Elements(l.roots) <==> x in l.roots;
    assert forall x :: x in Elements(l.nullifiers) <==> x in l.nullifiers;
  }

  /** Field by field: domain, roots, nullifiers and size are answered as by the
      durable ledger; a pool only if it is not live there, an applied shield only
      if there was none of that commitment. */
  lemma ReadBackDiffersExactly(w: World, s: KState, level: i32)
    requires s.ledger.Some? && CapacityFitsHost(w)
    ensures var l := s.ledger.value;
            var a, b := AnswersOf(w, SnapshotOf(w, s), map[]), ReadsOf(l, level);
            && a.authDomain == b.authDomain && a.noteCount == b.noteCount
            && (forall x :: a.hasRoot(x) == b.hasRoot(x) && a.hasNullifier(x) == b.hasNullifier(x))
            && (forall key :: a.poolBalance(key) == b.poolBalance(key) <==> PoolBalance(l, key) == None)
            && (forall cm :: a.hasApplied(cm) == b.hasApplied(cm) <==> cm !in l.applied)
  {
    ReadBackAnswers(w, s, level, map[]);
  }

  lemma SpendsCongruent(a: LedgerReads, b: LedgerReads, root: Felt, nullifiers: seq<Felt>)
    requires a.hasRoot(root) == b.hasRoot(root) && forall nf :: a.hasNullifier(nf) == b.hasNullifier(nf)
    ensures CheckSpends(a, root, nullifiers) == CheckSpends(b, root, nullifiers)
  {
    assert forall i :: 0 <= i < |nullifiers| ==> a.hasNullifier(nullifiers[i]) == b.hasNullifier(nullifiers[i]);
  }

  /** So a transfer is valid against the durable ledger if and only if it is
      valid against the ledger read back and pays the level's fee. */
  lemma TransferVerdictsReadBack(w: World, s: KState, level: i32, req: TransferReq)
    requires s.ledger.Some? && CapacityFitsHost(w)
    ensures var l := s.ledger.value;
            CheckTransfer(w.crypto, ReadsOf(l, level), req).Pass?
            <==> CheckTransfer(w.crypto, AnswersOf(w, SnapshotOf(w, s), map[]), req).Pass?
                 && req.fee >= RequiredTxFee(AcceptedInLevel(l, level))
  {
    var l := s.ledger.value;
    var b := ReadsOf(Forgetful(l, map[]), level).(requiredFee := Ok(MIN_TX_FEE));
    ReadBackAnswers(w, s, level, map[]);
    CheckTransferCongruent(w.crypto, AnswersOf(w, SnapshotOf(w, s), map[]), b, req);
    SpendsCongruent(b, ReadsOf(l, level), req.root, req.nullifiers);
    FeesOnlyRise(AcceptedInLevel(l, level));
    hide CheckOutputs, CheckSpends, RequiredTxFee, SnapshotOf, AnswersOf;
  }

  /** The same for an unshield, whose prepared commit is then the same, too. */
  lemma UnshieldVerdictsReadBack(w: World, s: KState, level: i32, req: UnshieldReq)
    requires s.ledger.Some? && CapacityFitsHost(w)
    ensures var l := s.ledger.value;
            var a := PrepareUnshield(w.crypto, AnswersOf(w, SnapshotOf(w, s), map[]), req);
            var b := PrepareUnshield(w.crypto, ReadsOf(l, level), req);
            && (b.Ok? <==> a.Ok? && req.fee >= RequiredTxFee(AcceptedInLevel(l, level)))
            && (b.Ok? ==> a == b)
  {
    var l := s.ledger.value;
    var b := ReadsOf(Forgetful(l, map[]), level).(requiredFee := Ok(MIN_TX_FEE));
    ReadBackAnswers(w, s, level, map[]);
    PrepareUnshieldCongruent(w.crypto, AnswersOf(w, SnapshotOf(w, s), map[]), b, req);
    SpendsCongruent(b, ReadsOf(l, level), req.root, req.nullifiers);
    FeesOnlyRise(AcceptedInLevel(l, level));
    hide CheckOutputs, CheckSpends, RequiredTxFee, SnapshotOf, AnswersOf;
  }

  /** Once deposits gave the ledger read back the durable balance of a pool, a
      shield is valid there and pays the level's fee if and only if it would be
      valid against the durable ledger without applied shields: the replay check
      is the one check it has lost. */
  lemma ShieldVerdictsReadBack(w: World, s: KState, level: i32, req: ShieldReq, balances: map<Felt, u64>)
    requires s.ledger.Some? && CapacityFitsHost(w)
    requires PoolBalance(s.ledger.value, req.pubkeyHash)
             == if req.pubkeyHash in balances then Some(balances[req.pubkeyHash]) else None
    ensures var l := s.ledger.value;
            var valid := PrepareShield(w.crypto, AnswersOf(w, SnapshotOf(w, s), balances), req).Ok?
                         && req.fee >= RequiredTxFee(AcceptedInLevel(l, level));
            && (valid <==> PrepareShield(w.crypto, ReadsOf(l.(applied := {}), level), req).Ok?)
            && (valid && req.clientCm !in l.applied <==> PrepareShield(w.crypto, ReadsOf(l, level), req).Ok?)
  {
    var l := s.ledger.value;
    var b := ReadsOf(Forgetful(l, balances), level).(requiredFee := Ok(MIN_TX_FEE));
    ReadBackAnswers(w, s, level, balances);
    PrepareShieldCongruent(w.crypto, AnswersOf(w, SnapshotOf(w, s), balances), b, req);
    FeesOnlyRise(AcceptedInLevel(l, level));
    hide CheckOutputs, RequiredTxFee, SnapshotOf, AnswersOf;
  }

  /** The invariant of the in-memory ledger, that the valid roots are those in the
      history, holds of a ledger read back exactly when the kernel is initialised
      and has recorded no root since. */
  lemma HistoryInvariantExactly(w: World, inputs: seq<Input>)
    ensures var s := Reached(w, inputs);
            var r := SnapshotOf(w, s);
            r.validRoots == Elements(r.rootHistory) <==> s.ledger.Some? && s.ledger.value.roots == [TreeRootOf(w, [])]
  {
    var s := Reached(w, inputs);
    var r := SnapshotOf(w, s);
    assert TreeRootOf(w, []) in Elements(r.rootHistory);
    if s.ledger.Some? {
      EveryRunIsSound(w, inputs);
      HistoryOnlyGrows(w, EmptyState(), inputs);
      var roots := s.ledger.value.roots;
      assert [TreeRootOf(w, [])] <= roots && Distinct(roots);
      hide Reached, TreeRootOf;
      if |roots| > 1 {
        assert roots[1] in r.validRoots && roots[1] !in Elements(r.rootHistory);
      } else {
        assert roots == [TreeRootOf(w, [])];
      }
    }
  }
}
