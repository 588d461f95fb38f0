/** The in-memory ledger against the durable one, run side by side. */
module LedgerAgreement {
  import opened Bytes
  import opened Frontier
  import opened KernelInvariant
  import opened KernelState
  import opened KernelStore
  import opened KernelUpdates
  import opened MemoryLedgers
  import opened Merkle
  import opened Protocol
  import opened Wrappers

  /** The same ledger, kept in two ways. The durable one never forgets a root. */
  ghost predicate Related(m: Mem, l: Ledger)
  {
    && m.authDomain == l.authDomain && m.notes == l.notes
    && m.nullifiers == Elements(l.nullifiers) && m.applied == l.applied
    && m.withdrawals == l.withdrawals
    && Elements(m.history) <= Elements(l.roots)
    && forall key :: MemBalance(m, key) == PoolBalance(l, key)
  }

  /** An operation of the ledger interface, as `core/src/lib.rs` applies it. */
  datatype Op =
    | DepositOp(recipient: Text, amount: u64)
    | ShieldOp(shield: ShieldReq)
    | TransferOp(transfer: TransferReq)
    | UnshieldOp(unshield: UnshieldReq)

  /** On the in-memory ledger: the new state, and whether it was accepted. */
  function OnMemory(w: World, m: Mem, op: Op): (Mem, bool)
  {
    match op
    case DepositOp(recipient, amount) =>
      var r := MemDeposit(w, m, recipient, amount);
      (r.0, r.1.Pass?)
    case ShieldOp(req) =>
      var p := PrepareShield(w.crypto, MemReads(w, m), req);
      if p.Err? then (m, false)
      else
        MemShieldAccepted(w, m, req);
        (MemShield(w, m, p.value), true)
    case TransferOp(req) =>
      if CheckTransfer(w.crypto, MemReads(w, m), req).Fail? then (m, false) else (MemTransfer(w, m, req), true)
    case UnshieldOp(req) =>
      var p := PrepareUnshield(w.crypto, MemReads(w, m), req);
      if p.Err? then (m, false) else (MemUnshield(w, m, p.value), true)
  }

  /** On the durable ledger, in an inbox level, as the direct commits do it: they
      stop halfway where an index does not fit the host's `usize`. */
  function OnDurable(w: World, l: Ledger, level: i32, op: Op): (Ledger, bool)
  {
    match op
    case DepositOp(recipient, amount) =>
      (match w.parseDepositKey(recipient)
       case None => (l, false)
       case Some(key) =>
         var balance := if PoolBalance(l, key).Some? then PoolBalance(l, key).value else 0;
         if balance + amount >= U64_LIMIT then (l, false)
         else (l.(pools := l.pools[key := Some(balance + amount)]), true))
    case ShieldOp(req) =>
      var p := PrepareShield(w.crypto, ReadsOf(l, level), req);
      if p.Err? then (l, false)
      else
        ShieldAccepted(w, l, level, req);
        if |l.notes| + 1 > w.crypto.usizeMax then (StoppedShield(w, l, p.value), false)
        else (ShieldLedger(w, l, level, p.value), true)
    case TransferOp(req) =>
      var r := TransferReply(w, l, level, req);
      (r.ledger, r.result.Transferred?)
    case UnshieldOp(req) =>
      var p := PrepareUnshield(w.crypto, ReadsOf(l, level), req);
      if p.Err? then (l, false)
      else if |l.notes| + |UnshieldNotes(p.value)| - 1 > w.crypto.usizeMax then (StoppedUnshield(w, l, p.value), false)
      else (UnshieldLedger(w, l, level, p.value), true)
  }

  /** The two rules that differ: the durable ledger's fee rises within a level, ... */
  predicate Underpays(l: Ledger, level: i32, op: Op)
  {
    match op
    case DepositOp(_, _) => false
    case ShieldOp(req) => req.fee < RequiredTxFee(AcceptedInLevel(l, level))
    case TransferOp(req) => req.fee < RequiredTxFee(AcceptedInLevel(l, level))
    case UnshieldOp(req) => req.fee < RequiredTxFee(AcceptedInLevel(l, level))
  }

  /** ... and the in-memory one forgets old roots. */
  predicate NamesForgottenRoot(m: Mem, op: Op)
  {
    match op
    case TransferOp(req) => req.root !in m.history
    case UnshieldOp(req) => req.root !in m.history
    case _ => false
  }

  /** A host that can hold the tree's capacity in a `usize`. */
  predicate CapacityFitsHost(w: World)
  {
    Pow2(w.crypto.depth) <= w.crypto.usizeMax
  }

  lemma FeesOnlyRise(accepted: nat)
    ensures RequiredTxFee(accepted) >= MIN_TX_FEE
  {
  }

  /** The answers of two related ledgers, with the two differences left out. */
  lemma RelatedAnswers(w: World, m: Mem, l: Ledger, level: i32)
    requires Related(m, l) && CapacityFitsHost(w)
    ensures var a, b := MemReads(w, m), ReadsOf(l, level);
            Agree(a, b.(requiredFee := a.requiredFee, hasRoot := a.hasRoot))
  {
    var a, b := MemReads(w, m), ReadsOf(l, level);
    forall nf
      ensures a.hasNullifier(nf) == b.hasNullifier(nf)
    {
      assert nf in m.nullifiers <==> nf in l.nullifiers;
    }
  }

  lemma SpendsAgree(w: World, m: Mem, l: Ledger, level: i32, root: Felt, nullifiers: seq<Felt>)
    requires Related(m, l)
    ensures CheckSpends(MemReads(w, m), root, nullifiers).Pass?
            <==> root in m.history && CheckSpends(ReadsOf(l, level), root, nullifiers).Pass?
  {
    var a, b := MemReads(w, m), ReadsOf(l, level);
    assert root in m.history ==> root in Elements(m.history);
    forall nf
      ensures a.hasNullifier(nf) == b.hasNullifier(nf)
    {
      assert nf in m.nullifiers <==> nf in l.nullifiers;
    }
  }

  /** A shield passes both ledgers' checks alike, but for the fee. */
  lemma ShieldVerdicts(w: World, m: Mem, l: Ledger, level: i32, req: ShieldReq)
    requires Related(m, l)
    ensures var a, b := PrepareShield(w.crypto, MemReads(w, m), req), PrepareShield(w.crypto, ReadsOf(l, level), req);
            && (CapacityFitsHost(w) && b.Ok? <==> a.Ok? && !Underpays(l, level, ShieldOp(req)))
            && (b.Ok? ==> !Underpays(l, level, ShieldOp(req)))
            && (a.Ok? && b.Ok? ==> a == b)
  {
    hide CheckOutputs;
    FeesOnlyRise(AcceptedInLevel(l, level));
    hide RequiredTxFee;
    if CapacityFitsHost(w) {
      RelatedAnswers(w, m, l, level);
    }
  }

  /** A transfer, but for the fee and the root. */
  lemma TransferVerdicts(w: World, m: Mem, l: Ledger, level: i32, req: TransferReq)
    requires Related(m, l)
    ensures var a, b := CheckTransfer(w.crypto, MemReads(w, m), req), CheckTransfer(w.crypto, ReadsOf(l, level), req);
            && (CapacityFitsHost(w) && req.root in m.history && b.Pass?
               <==> a.Pass? && !Underpays(l, level, TransferOp(req)))
            && (b.Pass? ==> !Underpays(l, level, TransferOp(req)))
  {
    SpendsAgree(w, m, l, level, req.root, req.nullifiers);
    FeesOnlyRise(AcceptedInLevel(l, level));
    hide CheckOutputs, CheckSpends, RequiredTxFee;
  }

  lemma UnshieldVerdicts(w: World, m: Mem, l: Ledger, level: i32, req: UnshieldReq)
    requires Related(m, l)
    ensures var a, b := PrepareUnshield(w.crypto, MemReads(w, m), req),
            PrepareUnshield(w.crypto, ReadsOf(l, level), req);
            && (CapacityFitsHost(w) && req.root in m.history && b.Ok?
               <==> a.Ok? && !Underpays(l, level, UnshieldOp(req)))
            && (b.Ok? ==> !Underpays(l, level, UnshieldOp(req)))
            && (a.Ok? && b.Ok? ==> a == b)
  {
    SpendsAgree(w, m, l, level, req.root, req.nullifiers);
    FeesOnlyRise(AcceptedInLevel(l, level));
    hide CheckOutputs, CheckSpends, RequiredTxFee;
  }

  lemma RootsStayRelated(w: World, m: Mem, l: Ledger, root: Felt)
    requires Elements(m.history) <= Elements(l.roots)
    ensures Elements(Recorded(m.history, root)) <= Elements(WithRoot(l, root).roots)
  {
    var r := Recorded(m.history, root);
    forall x | x in r
      ensures x in WithRoot(l, root).roots
    {
      assert x == root || (x in m.history && x in Elements(m.history));
      assert x != root ==> x in Elements(l.roots);
    }
  }

  lemma ShieldStaysRelated(w: World, m: Mem, l: Ledger, level: i32, p: PreparedShield)
    requires Related(m, l) && PoolBalance(l, p.pubkeyHash).Some? && PoolBalance(l, p.pubkeyHash).value >= p.debit
    ensures p.pubkeyHash in m.balances && m.balances[p.pubkeyHash] >= p.debit
    ensures Related(MemShield(w, m, p), ShieldLedger(w, l, level, p))
  {
    hide TreeRootOf, Appended, Elements;
    assert MemBalance(m, p.pubkeyHash) == PoolBalance(l, p.pubkeyHash);
    var a, b := MemShield(w, m, p), ShieldLedger(w, l, level, p);
    assert a.notes == b.notes;
    RootsStayRelated(w, m, l, TreeRootOf(w, a.notes));
    forall key
      ensures MemBalance(a, key) == PoolBalance(b, key)
    {
      assert MemBalance(m, key) == PoolBalance(l, key);
    }
  }

  lemma TransferStaysRelated(w: World, m: Mem, l: Ledger, level: i32, req: TransferReq)
    requires Related(m, l)
    requires CheckTransfer(w.crypto, ReadsOf(l, level), req).Pass? && CapacityFitsHost(w)
    ensures TransferReply(w, l, level, req).result.Transferred?
    ensures Related(MemTransfer(w, m, req), TransferReply(w, l, level, req).ledger)
  {
    TransferAccepted(w, l, level, req);
    hide CheckTransfer, TreeRootOf, Appended;
    var notes := TransferNotes(req);
    AppendThree(w, l, notes[0], notes[1], notes[2]);
    AppendsKeepRest(w, l, notes);
    hide AppendFallible;
    var a, b := MemTransfer(w, m, req), TransferReply(w, l, level, req).ledger;
    assert a.notes == b.notes;
    RootsStayRelated(w, m, l, TreeRootOf(w, a.notes));
    forall key
      ensures MemBalance(a, key) == PoolBalance(b, key)
    {
      assert MemBalance(m, key) == PoolBalance(l, key);
    }
  }

  lemma UnshieldStaysRelated(w: World, m: Mem, l: Ledger, level: i32, p: PreparedUnshield)
    requires Related(m, l)
    ensures Related(MemUnshield(w, m, p), UnshieldLedger(w, l, level, p))
  {
    hide TreeRootOf, Appended;
    var a, b := MemUnshield(w, m, p), UnshieldLedger(w, l, level, p);
    assert a.notes == b.notes;
    RootsStayRelated(w, m, l, TreeRootOf(w, a.notes));
    forall key
      ensures MemBalance(a, key) == PoolBalance(b, key)
    {
      assert MemBalance(m, key) == PoolBalance(l, key);
    }
  }

  lemma DepositAgrees(w: World, m: Mem, l: Ledger, level: i32, recipient: Text, amount: u64)
    requires Related(m, l)
    ensures var a, b := OnMemory(w, m, DepositOp(recipient, amount)),
            OnDurable(w, l, level, DepositOp(recipient, amount));
            a.1 == b.1 && Related(a.0, b.0)
  {
    match w.parseDepositKey(recipient) {
      case None =>
      case Some(key) =>
        assert MemBalance(m, key) == PoolBalance(l, key);
        var a, b := OnMemory(w, m, DepositOp(recipient, amount)), OnDurable(w, l, level, DepositOp(recipient, amount));
        forall k
          ensures MemBalance(a.0, k) == PoolBalance(b.0, k)
        {
          assert MemBalance(m, k) == PoolBalance(l, k);
        }
    }
  }

  /** Where the capacity fits, a prepared commit's indices do. */
  lemma ShieldFits(w: World, l: Ledger, level: i32, req: ShieldReq)
    requires CapacityFitsHost(w) && PrepareShield(w.crypto, ReadsOf(l, level), req).Ok?
    ensures |l.notes| + 1 <= w.crypto.usizeMax
  {
    ShieldAccepted(w, l, level, req);
  }

  lemma UnshieldFits(w: World, l: Ledger, level: i32, req: UnshieldReq)
    requires CapacityFitsHost(w) && PrepareUnshield(w.crypto, ReadsOf(l, level), req).Ok?
    ensures var p := PrepareUnshield(w.crypto, ReadsOf(l, level), req).value;
            |l.notes| + |UnshieldNotes(p)| - 1 <= w.crypto.usizeMax
  {
    UnshieldAccepted(w, l, level, req);
  }

  /** The exact condition under which one ledger accepts what the other refuses.
      A shield, transfer or unshield that the in-memory ledger accepts is refused
      by the durable one if and only if it underpays at this point of the level;
      one that the durable ledger accepts is refused in memory if and only if its
      root was forgotten, or the host cannot even hold the tree's capacity. */
  lemma VerdictsDifferExactly(w: World, m: Mem, l: Ledger, level: i32, op: Op)
    requires Related(m, l)
    ensures var inMemory, durable := OnMemory(w, m, op).1, OnDurable(w, l, level, op).1;
            && (inMemory && !durable <==> inMemory && Underpays(l, level, op))
            && (durable && !inMemory
               <==> durable && (NamesForgottenRoot(m, op) || (!op.DepositOp? && !CapacityFitsHost(w))))
  {
    hide Related, PrepareShield, PrepareUnshield, CheckTransfer, ShieldLedger, UnshieldLedger;
    hide StoppedShield, StoppedUnshield, MemShield, MemTransfer, MemUnshield, UnshieldNotes;
    match op {
      case DepositOp(recipient, amount) => DepositAgrees(w, m, l, level, recipient, amount);
      case ShieldOp(req) =>
        ShieldVerdicts(w, m, l, level, req);
        if PrepareShield(w.crypto, ReadsOf(l, level), req).Ok? && CapacityFitsHost(w) {
          ShieldFits(w, l, level, req);
        }
      case TransferOp(req) =>
        TransferVerdicts(w, m, l, level, req);
        if CheckTransfer(w.crypto, ReadsOf(l, level), req).Pass? && CapacityFitsHost(w) {
          TransferStaysRelated(w, m, l, level, req);
        }
      case UnshieldOp(req) =>
        UnshieldVerdicts(w, m, l, level, req);
        if PrepareUnshield(w.crypto, ReadsOf(l, level), req).Ok? && CapacityFitsHost(w) {
          UnshieldFits(w, l, level, req);
        }
    }
  }

  /** Where the verdicts do not differ, the two ledgers go on holding the same. */
  lemma SameVerdictStaysRelated(w: World, m: Mem, l: Ledger, level: i32, op: Op)
    requires Related(m, l) && CapacityFitsHost(w)
    requires OnMemory(w, m, op).1 == OnDurable(w, l, level, op).1
    ensures Related(OnMemory(w, m, op).0, OnDurable(w, l, level, op).0)
  {
    hide Related, PrepareShield, PrepareUnshield, CheckTransfer, ShieldLedger, UnshieldLedger;
    hide StoppedShield, StoppedUnshield, MemShield, MemTransfer, MemUnshield, UnshieldNotes;
    match op {
      case DepositOp(recipient, amount) => DepositAgrees(w, m, l, level, recipient, amount);
      case ShieldOp(req) =>
        ShieldVerdicts(w, m, l, level, req);
        var p := PrepareShield(w.crypto, ReadsOf(l, level), req);
        if p.Ok? {
          ShieldAccepted(w, l, level, req);
          ShieldFits(w, l, level, req);
          ShieldStaysRelated(w, m, l, level, p.value);
        }
      case TransferOp(req) =>
        TransferVerdicts(w, m, l, level, req);
        if CheckTransfer(w.crypto, ReadsOf(l, level), req).Pass? {
          TransferStaysRelated(w, m, l, level, req);
        }
      case UnshieldOp(req) =>
        UnshieldVerdicts(w, m, l, level, req);
        var p := PrepareUnshield(w.crypto, ReadsOf(l, level), req);
        if p.Ok? {
          UnshieldFits(w, l, level, req);
          UnshieldStaysRelated(w, m, l, level, p.value);
        }
    }
  }

  // ----- Side by side

  datatype Timed = Timed(level: i32, op: Op)

  function AllOnMemory(w: World, m: Mem, ops: seq<Timed>): (Mem, seq<bool>)
  {
    if ops == [] then (m, [])
    else
      var before := AllOnMemory(w, m, ops[..|ops| - 1]);
      var last := OnMemory(w, before.0, ops[|ops| - 1].op);
      (last.0, before.1 + [last.1])
  }

  function AllOnDurable(w: World, l: Ledger, ops: seq<Timed>): (Ledger, seq<bool>)
  {
    if ops == [] then (l, [])
    else
      var before := AllOnDurable(w, l, ops[..|ops| - 1]);
      var last := OnDurable(w, before.0, ops[|ops| - 1].level, ops[|ops| - 1].op);
      (last.0, before.1 + [last.1])
  }

  /** One ledger accepts what the other refuses, for the reason its rule gives. */
  predicate Differs(w: World, m: Mem, l: Ledger, level: i32, op: Op)
  {
    || (OnMemory(w, m, op).1 && Underpays(l, level, op))
    || (OnDurable(w, l, level, op).1 && NamesForgottenRoot(m, op))
  }

  predicate NeverDiffer(w: World, m: Mem, l: Ledger, ops: seq<Timed>)
  {
    ops == [] ||
    (var before, last := ops[..|ops| - 1], ops[|ops| - 1];
     NeverDiffer(w, m, l, before)
     && !Differs(w, AllOnMemory(w, m, before).0, AllOnDurable(w, l, before).0, last.level, last.op))
  }

  lemma StepsDifferExactly(w: World, m: Mem, l: Ledger, level: i32, op: Op)
    requires Related(m, l) && CapacityFitsHost(w)
    ensures OnMemory(w, m, op).1 == OnDurable(w, l, level, op).1 <==> !Differs(w, m, l, level, op)
  {
    hide OnMemory, OnDurable, Related, Underpays, NamesForgottenRoot;
    VerdictsDifferExactly(w, m, l, level, op);
  }

  /** From a fresh start, on a host that can hold the tree's capacity: the two
      ledgers give the same verdicts on a sequence of operations if and only if no
      operation met one of the two differing rules, and then they end up holding
      the same. */
  lemma {:induction false} LedgersAgree(w: World, ops: seq<Timed>)
    requires CapacityFitsHost(w)
    ensures var m, l := InitialMem(w, w.defaultAuthDomain), InitialLedger(w);
            var a, b := AllOnMemory(w, m, ops), AllOnDurable(w, l, ops);
            (a.1 == b.1 <==> NeverDiffer(w, m, l, ops)) && (a.1 == b.1 ==> Related(a.0, b.0))
  {
    hide OnMemory, OnDurable, Related, Differs;
    var m, l := InitialMem(w, w.defaultAuthDomain), InitialLedger(w);
    if ops == [] {
      FreshLedgersAreRelated(w);
    } else {
      var before, last := ops[..|ops| - 1], ops[|ops| - 1];
      LedgersAgree(w, before);
      var a, b := AllOnMemory(w, m, before), AllOnDurable(w, l, before);
      VerdictLists(w, m, l, ops);
      if a.1 == b.1 {
        StepsDifferExactly(w, a.0, b.0, last.level, last.op);
        if !Differs(w, a.0, b.0, last.level, last.op) {
          SameVerdictStaysRelated(w, a.0, b.0, last.level, last.op);
        }
      }
    }
  }

  lemma {:induction false} VerdictLengths(w: World, m: Mem, l: Ledger, ops: seq<Timed>)
    ensures |AllOnMemory(w, m, ops).1| == |AllOnDurable(w, l, ops).1| == |ops|
  {
    if ops == [] {
    } else {
      VerdictLengths(w, m, l, ops[..|ops| - 1]);
    }
  }

  /** Two verdict lists are equal when all but the last verdict are, and the last. */
  lemma VerdictLists(w: World, m: Mem, l: Ledger, ops: seq<Timed>)
    requires ops != []
    ensures var before, last := ops[..|ops| - 1], ops[|ops| - 1];
            var a, b := AllOnMemory(w, m, before), AllOnDurable(w, l, before);
            AllOnMemory(w, m, ops).1 == AllOnDurable(w, l, ops).1
            <==> a.1 == b.1 && OnMemory(w, a.0, last.op).1 == OnDurable(w, b.0, last.level, last.op).1
  {
    hide OnMemory, OnDurable;
    var before := ops[..|ops| - 1];
    VerdictLengths(w, m, l, before);
    var x, y := AllOnMemory(w, m, ops).1, AllOnDurable(w, l, ops).1;
    assert x[..|before|] == AllOnMemory(w, m, before).1 && y[..|before|] == AllOnDurable(w, l, before).1;
    assert x[|before|] == OnMemory(w, AllOnMemory(w, m, before).0, ops[|ops| - 1].op).1;
  }

  lemma FreshLedgersAreRelated(w: World)
    ensures Related(InitialMem(w, w.defaultAuthDomain), InitialLedger(w))
  {
    hide TreeRootOf;
  }
}
