/** Laws of whole runs of the kernel, from the empty store on. */
module KernelLaws {
  import opened Bytes
  import opened Frontier
  import opened KernelInvariant
  import opened KernelState
  import opened KernelUpdates
  import opened Merkle
  import opened Protocol
  import opened Wrappers

  // ----- What one message can change, seen from its effect

  function NotesOf(e: Effect): seq<Note>
  {
    match e
    case Draw(_, _, _, _, notes) => notes
    case Spend(_, _, notes) => notes
    case Withdraw(_, _, notes, _, _) => notes
    case _ => []
  }

  function NullifiersOf(e: Effect): seq<Felt>
  {
    match e
    case Spend(nullifiers, _, _) => nullifiers
    case Withdraw(nullifiers, _, _, _, _) => nullifiers
    case _ => []
  }

  function RecordsOf(e: Effect): seq<Withdrawal>
  {
    if e.Withdraw? then [e.record] else []
  }

  predicate IsPrivateTx(e: Effect)
  {
    e.Draw? || e.Spend? || e.Withdraw?
  }

  function PoolsAfter(pools: map<Felt, Option<u64>>, e: Effect): map<Felt, Option<u64>>
    requires e.Draw? ==> e.pool in pools && pools[e.pool].Some? && pools[e.pool].value >= e.debit
    requires e.Credit? ==> BalanceIn(pools, e.pool) + e.amount < U64_LIMIT
  {
    match e
    case Credit(pool, amount) => pools[pool := Some(BalanceIn(pools, pool) + amount)]
    case Draw(pool, _, debit, _, _) =>
      var left := pools[pool].value - debit;
      pools[pool := if left == 0 then None else Some(left)]
    case _ => pools
  }

  function BalanceIn(pools: map<Felt, Option<u64>>, key: Felt): u64
  {
    if key in pools && pools[key].Some? then pools[key].value else 0
  }

  /** The books of a ledger change by exactly what the reply's effect says. */
  ghost predicate Follows(w: World, l: Ledger, level: i32, r: Reply)
  {
    && (r.effect.Withdraw?
       ==> l.ticketer.Some? && w.outboxMessage(l.ticketer.value, r.effect.record) == Some(r.effect.message))
    && r.ledger.nullifiers == l.nullifiers + NullifiersOf(r.effect)
    && r.ledger.withdrawals == l.withdrawals + RecordsOf(r.effect)
    && (r.effect.Draw? ==> PoolBalance(l, r.effect.pool).Some? && PoolBalance(l, r.effect.pool).value >= r.effect.debit)
    && (r.effect.Credit? ==> BalanceIn(l.pools, r.effect.pool) + r.effect.amount < U64_LIMIT)
    && r.ledger.pools == PoolsAfter(l.pools, r.effect)
    && r.ledger.applied == l.applied + (if r.effect.Draw? then {r.effect.cm} else {})
    && (r.effect.Draw? ==> r.effect.cm !in l.applied)
    && r.ledger.feeMark
       == (if IsPrivateTx(r.effect) then Some(FeeMark(level, AcceptedInLevel(l, level) + 1)) else l.feeMark)
    && (IsPrivateTx(r.effect) ==> FeeOf(r.effect) >= RequiredTxFee(AcceptedInLevel(l, level)))
    && (r.result.Error? <==> r.effect == Nothing && !r.result.Configured?)
    && (l.ticketer.Some? ==> r.ledger.ticketer == l.ticketer)
    && (l.verifier.Some? ==> r.ledger.verifier == l.verifier && r.ledger.authDomain == l.authDomain)
  }

  function FeeOf(e: Effect): nat
  {
    match e
    case Draw(_, _, _, fee, _) => fee
    case Spend(_, fee, _) => fee
    case Withdraw(_, fee, _, _, _) => fee
    case _ => 0
  }

  lemma ShieldFollows(w: World, l: Ledger, level: i32, proof: StarkProof, req: ShieldReq)
    ensures Follows(w, l, level, ApplyShield(w, l, level, proof, req))
  {
    hide PrepareShield, TreeRootOf, Appended, CheckProof, ShieldLedger;
    var host := req.(proof := proof.ToHost());
    if PrepareShield(w.crypto, ReadsOf(l, level), host).Ok? {
      ShieldAccepted(w, l, level, host);
      ShieldLedgerBooks(w, l, level, PrepareShield(w.crypto, ReadsOf(l, level), host).value);
    }
  }

  /** The parts of the ledger beside the tree, after a shield. */
  lemma ShieldLedgerBooks(w: World, l: Ledger, level: i32, p: PreparedShield)
    requires PoolBalance(l, p.pubkeyHash).Some? && PoolBalance(l, p.pubkeyHash).value >= p.debit
    ensures var m := ShieldLedger(w, l, level, p);
            m == l.(notes := m.notes, branches := m.branches, roots := m.roots,
                    pools := DebitPool(l, p.pubkeyHash, p.debit).pools, applied := l.applied + {p.clientCm},
                    feeMark := Some(FeeMark(level, AcceptedInLevel(l, level) + 1)))
  {
    hide TreeRootOf, Appended;
  }

  lemma TransferFollows(w: World, l: Ledger, level: i32, proof: StarkProof, req: TransferReq)
    ensures Follows(w, l, level, ApplyTransfer(w, l, level, proof, req))
  {
    hide CheckTransfer, TreeRootOf, AppendFallible;
    var host := req.(proof := proof.ToHost());
    AppendsKeepRest(w, l, TransferNotes(host));
    if CheckTransfer(w.crypto, ReadsOf(l, level), host).Pass? {
      TransferAccepted(w, l, level, host);
    }
  }

  lemma UnshieldFollows(w: World, l: Ledger, level: i32, proof: StarkProof, req: UnshieldReq, outputAccepted: bool)
    ensures Follows(w, l, level, ApplyUnshield(w, l, level, proof, req, outputAccepted))
  {
    hide PrepareUnshield, TreeRootOf, Appended, CheckProof, UnshieldLedger, Distinct;
    var host := req.(proof := proof.ToHost());
    if PrepareUnshield(w.crypto, ReadsOf(l, level), host).Ok? {
      UnshieldAccepted(w, l, level, host);
      UnshieldLedgerBooks(w, l, level, PrepareUnshield(w.crypto, ReadsOf(l, level), host).value);
    }
  }

  /** The parts of the ledger beside the tree, after an unshield. */
  lemma UnshieldLedgerBooks(w: World, l: Ledger, level: i32, p: PreparedUnshield)
    ensures var m := UnshieldLedger(w, l, level, p);
            m == l.(notes := m.notes, branches := m.branches, roots := m.roots,
                    nullifiers := l.nullifiers + p.nullifiers,
                    withdrawals := l.withdrawals + [Withdrawal(p.recipient, p.amount)],
                    feeMark := Some(FeeMark(level, AcceptedInLevel(l, level) + 1)))
  {
    hide TreeRootOf, Appended;
  }

  lemma DepositFollows(w: World, l: Ledger, level: i32, ticketer: Text, recipient: Text, amount: u64)
    ensures Follows(w, l, level, ApplyDeposit(w, l, ticketer, recipient, amount))
  {
  }

  lemma KernelFollows(w: World, l: Ledger, input: Input, message: KernelMessage)
    ensures Follows(w, l, input.level, ApplyKernel(w, l, input, message))
    decreases message.DalPointer?
  {
    hide ApplyShield, ApplyTransfer, ApplyUnshield, FetchMessage;
    match message {
      case ConfigureVerifier(_, _) =>
      case ConfigureBridge(_, _) =>
      case Shield(proof, req) => ShieldFollows(w, l, input.level, proof, req);
      case Transfer(proof, req) => TransferFollows(w, l, input.level, proof, req);
      case Unshield(proof, req) => UnshieldFollows(w, l, input.level, proof, req, input.outputAccepted);
      case DalPointer(pointer) =>
        var fetched := FetchMessage(w, input.dal, pointer);
        if fetched.Ok? {
          KernelFollows(w, l, input, fetched.value);
        }
    }
  }

  // ----- The tree, and what a rejected message leaves behind

  /** The message the rules get to see: a DAL pointer stands for what it points to. */
  function Dispatched(w: World, input: Input, message: KernelMessage): KernelMessage
  {
    if !message.DalPointer? then message
    else
      match FetchMessage(w, input.dal, message.pointer)
      case Err(_) => message
      case Ok(nested) => nested
  }

  /** A transfer that passes every check, in a tree whose next three indices do
      not all fit the host's `usize`. */
  predicate StopsHalfway(w: World, l: Ledger, level: i32, message: KernelMessage)
  {
    && message.Transfer?
    && CheckProof(w, l, message.proof, TransferCircuit).Pass?
    && CheckTransfer(w.crypto, ReadsOf(l, level), message.transfer.(proof := message.proof.ToHost())).Pass?
    && |l.notes| + 2 > w.crypto.usizeMax
  }

  /** The tree grows by exactly the effect's notes, and its new root is recorded. */
  ghost predicate TreeFollows(w: World, l: Ledger, r: Reply)
  {
    && r.ledger.notes == l.notes + NotesOf(r.effect)
    && (IsPrivateTx(r.effect) ==> NotesOf(r.effect) != [] && |r.ledger.notes| <= w.crypto.usizeMax + 1)
    && r.ledger.roots == (if IsPrivateTx(r.effect) then WithRoot(l, TreeRootOf(w, r.ledger.notes)).roots else l.roots)
  }

  lemma ShieldTreeFollows(w: World, l: Ledger, level: i32, proof: StarkProof, req: ShieldReq)
    ensures var r := ApplyShield(w, l, level, proof, req);
            TreeFollows(w, l, r) && (r.result.Error? ==> r.ledger == l)
  {
    hide PrepareShield, TreeRootOf, Appended;
    var host := req.(proof := proof.ToHost());
    if PrepareShield(w.crypto, ReadsOf(l, level), host).Ok? {
      ShieldAccepted(w, l, level, host);
      var p := PrepareShield(w.crypto, ReadsOf(l, level), host).value;
      assert l.notes + ShieldNotes(p) == l.notes + [ShieldNotes(p)[0]] + [ShieldNotes(p)[1]];
    }
  }

  lemma UnshieldTreeFollows(w: World, l: Ledger, level: i32, proof: StarkProof, req: UnshieldReq, outputAccepted: bool)
    ensures var r := ApplyUnshield(w, l, level, proof, req, outputAccepted);
            TreeFollows(w, l, r) && (r.result.Error? ==> r.ledger == l)
  {
    hide PrepareUnshield, TreeRootOf, Appended;
    var host := req.(proof := proof.ToHost());
    if PrepareUnshield(w.crypto, ReadsOf(l, level), host).Ok? {
      var p := PrepareUnshield(w.crypto, ReadsOf(l, level), host).value;
      if p.changeNote.Some? {
        assert l.notes + UnshieldNotes(p) == l.notes + [p.changeNote.value] + [p.producerNote];
      }
    }
  }

  lemma TransferTreeFollows(w: World, l: Ledger, level: i32, proof: StarkProof, req: TransferReq)
    ensures var r := ApplyTransfer(w, l, level, proof, req);
            if StopsHalfway(w, l, level, Transfer(proof, req)) then
              r.result == Error(IndexDoesNotFit) && l.notes < r.ledger.notes
                && |r.ledger.notes| >= w.crypto.usizeMax + 2
              && r.ledger.roots == l.roots
            else TreeFollows(w, l, r) && (r.result.Error? ==> r.ledger == l)
  {
    hide CheckTransfer, TreeRootOf, Appended;
    var host := req.(proof := proof.ToHost());
    AppendsKeepRest(w, l, TransferNotes(host));
    AppendThree(w, l, TransferNotes(host)[0], TransferNotes(host)[1], TransferNotes(host)[2]);
    assert TransferNotes(host) == [TransferNotes(host)[0], TransferNotes(host)[1], TransferNotes(host)[2]];
    hide AppendFallible;
  }

  /** Atomicity, exactly: a rejected message leaves the ledger as it was unless
      it is a transfer that stops halfway, and such a transfer never does. */
  lemma RejectionIsAtomicExactly(w: World, l: Ledger, input: Input, message: KernelMessage)
    ensures var r := ApplyKernel(w, l, input, message);
            var half := StopsHalfway(w, l, input.level, Dispatched(w, input, message));
            && (r.result.Error? ==> (r.ledger == l <==> !half))
            && (half ==> r.result == Error(IndexDoesNotFit) && l.notes < r.ledger.notes
                         && |r.ledger.notes| >= w.crypto.usizeMax + 2 && r.ledger.roots == l.roots)
            && (!half ==> TreeFollows(w, l, r))
    decreases message.DalPointer?
  {
    hide ApplyShield, ApplyTransfer, ApplyUnshield, FetchMessage, CheckTransfer, CheckProof, TreeRootOf;
    match message {
      case ConfigureVerifier(_, _) =>
      case ConfigureBridge(_, _) =>
      case Shield(proof, req) => ShieldTreeFollows(w, l, input.level, proof, req);
      case Transfer(proof, req) => TransferTreeFollows(w, l, input.level, proof, req);
      case Unshield(proof, req) => UnshieldTreeFollows(w, l, input.level, proof, req, input.outputAccepted);
      case DalPointer(pointer) =>
        var fetched := FetchMessage(w, input.dal, pointer);
        if fetched.Ok? {
          RejectionIsAtomicExactly(w, l, input, fetched.value);
        }
    }
  }

  /** A host whose `usize` can index the whole tree, as every 64-bit host can. */
  predicate HostFits(w: World)
  {
    Pow2(w.crypto.depth) <= w.crypto.usizeMax + 1
  }

  /** On such a host every rejected message leaves the ledger untouched. */
  lemma RejectionIsAtomic(w: World, l: Ledger, input: Input, message: KernelMessage)
    requires HostFits(w)
    ensures ApplyKernel(w, l, input, message).result.Error? ==> ApplyKernel(w, l, input, message).ledger == l
  {
    hide ApplyKernel, CheckProof, FetchMessage;
    RejectionIsAtomicExactly(w, l, input, message);
    var inner := Dispatched(w, input, message);
    if StopsHalfway(w, l, input.level, inner) {
      TransferAccepted(w, l, input.level, inner.transfer.(proof := inner.proof.ToHost()));
    }
  }
}
