/** Every message keeps the ledger invariant. */
module KernelInvariant {
  import opened Bytes
  import opened Frontier
  import opened KernelState
  import opened KernelStore
  import opened KernelUpdates
  import opened Merkle
  import opened Protocol

  lemma InitialLedgerIsSound(w: World)
    ensures LedgerInv(w, InitialLedger(w))
  {
    var l := InitialLedger(w);
    forall i | 0 <= i < |l.branches|
      ensures !Bit(0, i)
    {
      ZeroHasNoBits(i);
    }
  }

  lemma {:induction false} AppendFallibleKeepsTreeInv(w: World, l: Ledger, notes: seq<Note>)
    requires TreeInv(w, l) && |l.notes| + |notes| <= Pow2(w.crypto.depth)
    requires forall i :: 0 <= i < |notes| ==> notes[i].enc.Valid()
    ensures TreeInv(w, AppendFallible(w, l, notes).0)
    decreases |notes|
  {
    if notes == [] {
    } else {
      AppendKeepsTreeInv(w, l, notes[0]);
      if |l.notes| <= w.crypto.usizeMax {
        AppendFallibleKeepsTreeInv(w, AppendNote(w, l, notes[0]), notes[1..]);
      }
    }
  }

  /** What passing the shield checks guarantees about the writes that follow. */
  lemma ShieldAccepted(w: World, l: Ledger, level: i32, req: ShieldReq)
    requires PrepareShield(w.crypto, ReadsOf(l, level), req).Ok?
    ensures var p := PrepareShield(w.crypto, ReadsOf(l, level), req).value;
            && p.clientEnc.Valid() && p.producerEnc.Valid()
            && |l.notes| + 2 <= Pow2(w.crypto.depth)
            && PoolBalance(l, p.pubkeyHash).Some? && PoolBalance(l, p.pubkeyHash).value >= p.debit
            && p.clientCm !in l.applied && p.clientCm == req.clientCm
            && p.debit == req.v + req.fee + req.producerFee && p.pubkeyHash == req.pubkeyHash
            && req.fee >= RequiredTxFee(AcceptedInLevel(l, level))
  {
    hide CheckOutputs;
    assert NoteCapacity(w.crypto, ReadsOf(l, level), 2).Pass?;
  }

  /** What passing the unshield checks guarantees about the writes that follow. */
  lemma UnshieldAccepted(w: World, l: Ledger, level: i32, req: UnshieldReq)
    requires PrepareUnshield(w.crypto, ReadsOf(l, level), req).Ok?
    ensures var p := PrepareUnshield(w.crypto, ReadsOf(l, level), req).value;
            && p.producerNote.enc.Valid() && (p.changeNote.Some? ==> p.changeNote.value.enc.Valid())
            && |l.notes| + |UnshieldNotes(p)| <= Pow2(w.crypto.depth)
            && p.nullifiers == req.nullifiers && 0 < |p.nullifiers| <= MAX_NULLIFIERS && Distinct(p.nullifiers)
            && (forall i :: 0 <= i < |p.nullifiers| ==> p.nullifiers[i] !in l.nullifiers)
            && p.amount == req.vPub && w.crypto.validContract(p.recipient)
            && req.fee >= RequiredTxFee(AcceptedInLevel(l, level))
            && req.root in l.roots
  {
    hide CheckOutputs;
    var view := ReadsOf(l, level);
    assert forall nf :: view.hasNullifier(nf) == (nf in l.nullifiers);
    assert CheckSpends(view, req.root, req.nullifiers).Pass?;
    assert NoteCapacity(w.crypto, view, if req.cmChange == ZERO then 1 else 2).Pass?;
  }

  /** Everything but the tree, for a ledger that gained `notes` notes. */
  ghost predicate BooksInv(w: World, l: Ledger, notes: nat)
  {
    && Distinct(l.nullifiers)
    && Distinct(l.roots)
    && |l.nullifiers| <= MAX_NULLIFIERS * notes
    && |l.roots| <= notes + 1
    && |l.withdrawals| <= notes
    && (l.feeMark.Some? ==> l.feeMark.value.count <= notes)
    && (l.ticketer.Some? ==> w.crypto.validContract(l.ticketer.value))
    && (forall i :: 0 <= i < |l.withdrawals| ==> w.crypto.validContract(l.withdrawals[i].recipient))
  }

  /** Recording the root and counting the transaction use up one note's allowance. */
  lemma FinishKeepsBooks(w: World, l: Ledger, level: i32, notes: nat)
    requires BooksInv(w, l, notes)
    ensures BooksInv(w, NotePrivateTx(SnapshotRoot(w, l), level), notes + 1)
  {
    hide TreeRootOf;
  }

  lemma SpendKeepsBooks(w: World, l: Ledger, nullifiers: seq<Felt>, notes: nat)
    requires BooksInv(w, l, notes) && |nullifiers| <= MAX_NULLIFIERS && Distinct(nullifiers)
    requires forall i :: 0 <= i < |nullifiers| ==> nullifiers[i] !in l.nullifiers
    ensures BooksInv(w, l.(nullifiers := l.nullifiers + nullifiers), notes + 1)
  {
    var all := l.nullifiers + nullifiers;
    forall i, j | 0 <= i < j < |all|
      ensures all[i] != all[j]
    {
      if j >= |l.nullifiers| {
        assert all[j] == nullifiers[j - |l.nullifiers|];
        if i >= |l.nullifiers| {
          assert all[i] == nullifiers[i - |l.nullifiers|];
        } else {
          assert all[i] in l.nullifiers;
        }
      }
    }
  }

  lemma MoreNotesKeepBooks(w: World, l: Ledger, notes: nat, more: nat)
    requires BooksInv(w, l, notes) && notes <= more
    ensures BooksInv(w, l, more)
  {
  }

  lemma ShieldKeepsInv(w: World, l: Ledger, level: i32, p: PreparedShield)
    requires LedgerInv(w, l) && p.clientEnc.Valid() && p.producerEnc.Valid()
    requires |l.notes| + 2 <= Pow2(w.crypto.depth)
    requires PoolBalance(l, p.pubkeyHash).Some? && PoolBalance(l, p.pubkeyHash).value >= p.debit
    ensures LedgerInv(w, ShieldLedger(w, l, level, p))
  {
    hide TreeRootOf, Appended, Live;
    var drawn := Drawn(l, p.pubkeyHash, p.debit, p.clientCm);
    var a, b := Note(p.clientCm, p.clientEnc), Note(p.producerCm, p.producerEnc);
    AppendKeepsTreeInv(w, drawn, a);
    AppendKeepsTreeInv(w, AppendNote(w, drawn, a), b);
    var appended := AppendNote(w, AppendNote(w, drawn, a), b);
    assert BooksInv(w, appended, |l.notes|);
    FinishKeepsBooks(w, appended, level, |l.notes|);
    MoreNotesKeepBooks(w, ShieldLedger(w, l, level, p), |l.notes| + 1, |l.notes| + 2);
  }

  lemma TransferKeepsInv(w: World, l: Ledger, level: i32, req: TransferReq)
    requires LedgerInv(w, l) && CheckTransfer(w.crypto, ReadsOf(l, level), req).Pass?
    ensures var appended := AppendFallible(w, l, TransferNotes(req));
            LedgerInv(w, if appended.1 then TransferLedger(w, appended.0, level, req) else appended.0)
  {
    hide CheckTransfer, TreeRootOf, Appended, Live;
    TransferAccepted(w, l, level, req);
    var appended := AppendFallible(w, l, TransferNotes(req));
    AppendFallibleKeepsTreeInv(w, l, TransferNotes(req));
    AppendsKeepRest(w, l, TransferNotes(req));
    assert BooksInv(w, appended.0, |l.notes|);
    if appended.1 {
      var spent := appended.0.(nullifiers := appended.0.nullifiers + req.nullifiers);
      SpendKeepsBooks(w, appended.0, req.nullifiers, |l.notes|);
      FinishKeepsBooks(w, spent, level, |l.notes| + 1);
      MoreNotesKeepBooks(w, TransferLedger(w, appended.0, level, req), |l.notes| + 2, |l.notes| + 3);
    } else {
      MoreNotesKeepBooks(w, appended.0, |l.notes|, |appended.0.notes|);
    }
  }

  lemma UnshieldKeepsInv(w: World, l: Ledger, level: i32, p: PreparedUnshield)
    requires LedgerInv(w, l) && p.producerNote.enc.Valid() && (p.changeNote.Some? ==> p.changeNote.value.enc.Valid())
    requires |l.notes| + |UnshieldNotes(p)| <= Pow2(w.crypto.depth)
    requires |p.nullifiers| <= MAX_NULLIFIERS && Distinct(p.nullifiers) && w.crypto.validContract(p.recipient)
    requires forall i :: 0 <= i < |p.nullifiers| ==> p.nullifiers[i] !in l.nullifiers
    ensures LedgerInv(w, UnshieldLedger(w, l, level, p))
  {
    hide TreeRootOf, Appended, Live, AppendNotes;
    UnshieldLedgerByParts(w, l, level, p);
    var notes := UnshieldNotes(p);
    AppendNotesShape(w, l, notes);
    AppendNotesKeepTreeInv(w, l, notes);
    var appended := AppendNotes(w, l, notes);
    var spent := appended.(nullifiers := appended.nullifiers + p.nullifiers);
    var queued := spent.(withdrawals := spent.withdrawals + [Withdrawal(p.recipient, p.amount)]);
    var n := |l.notes|;
    QueueKeepsBooks(w, appended, p, n);
    FinishExactly(w, queued, level, n);
    if |notes| == 2 {
      MoreNotesKeepBooks(w, UnshieldLedger(w, l, level, p), n + 1, n + 2);
    }
  }

  /** One note pays for its spends and its withdrawal. */
  lemma QueueKeepsBooks(w: World, l: Ledger, p: PreparedUnshield, notes: nat)
    requires BooksInv(w, l, notes) && |p.nullifiers| <= MAX_NULLIFIERS && Distinct(p.nullifiers)
    requires w.crypto.validContract(p.recipient)
    requires forall i :: 0 <= i < |p.nullifiers| ==> p.nullifiers[i] !in l.nullifiers
    ensures var spent := l.(nullifiers := l.nullifiers + p.nullifiers);
            var queued := spent.(withdrawals := spent.withdrawals + [Withdrawal(p.recipient, p.amount)]);
            BooksInv(w, queued, notes + 1) && |queued.roots| <= notes + 1
            && (queued.feeMark.Some? ==> queued.feeMark.value.count <= notes)
  {
    SpendKeepsBooks(w, l, p.nullifiers, notes);
  }

  /** ... and for recording the root and counting the transaction. */
  lemma FinishExactly(w: World, l: Ledger, level: i32, notes: nat)
    requires BooksInv(w, l, notes + 1) && |l.roots| <= notes + 1
    requires l.feeMark.Some? ==> l.feeMark.value.count <= notes
    ensures BooksInv(w, NotePrivateTx(SnapshotRoot(w, l), level), notes + 1)
  {
    hide TreeRootOf;
  }

  /** Whatever the message and its fate, the ledger stays sound. */
  lemma ApplyKernelKeepsInv(w: World, l: Ledger, input: Input, message: KernelMessage)
    requires LedgerInv(w, l)
    ensures LedgerInv(w, ApplyKernel(w, l, input, message).ledger)
    decreases message.DalPointer?
  {
    hide TreeRootOf, Live, CheckProof;
    match message {
      case ConfigureVerifier(_, _) =>
      case ConfigureBridge(_, _) =>
      case Shield(proof, shield) =>
        var req := shield.(proof := proof.ToHost());
        ApplyShieldKeepsInv(w, l, input.level, proof, shield);
      case Transfer(proof, req) => ApplyTransferKeepsInv(w, l, input.level, proof, req);
      case Unshield(proof, req) => ApplyUnshieldKeepsInv(w, l, input.level, proof, req, input.outputAccepted);
      case DalPointer(pointer) =>
        var fetched := FetchMessage(w, input.dal, pointer);
        if fetched.Ok? {
          ApplyKernelKeepsInv(w, l, input, fetched.value);
        }
    }
  }

  lemma ApplyShieldKeepsInv(w: World, l: Ledger, level: i32, proof: StarkProof, req: ShieldReq)
    requires LedgerInv(w, l)
    ensures LedgerInv(w, ApplyShield(w, l, level, proof, req).ledger)
  {
    hide PrepareShield, ShieldLedger, TreeInv;
    var prepared := PrepareShield(w.crypto, ReadsOf(l, level), req.(proof := proof.ToHost()));
    if prepared.Ok? {
      ShieldAccepted(w, l, level, req.(proof := proof.ToHost()));
      ShieldKeepsInv(w, l, level, prepared.value);
    }
  }

  lemma ApplyTransferKeepsInv(w: World, l: Ledger, level: i32, proof: StarkProof, req: TransferReq)
    requires LedgerInv(w, l)
    ensures LedgerInv(w, ApplyTransfer(w, l, level, proof, req).ledger)
  {
    hide CheckTransfer, AppendFallible, TransferLedger, TreeInv;
    var host := req.(proof := proof.ToHost());
    if CheckTransfer(w.crypto, ReadsOf(l, level), host).Pass? {
      TransferKeepsInv(w, l, level, host);
    }
  }

  lemma ApplyUnshieldKeepsInv(w: World, l: Ledger, level: i32, proof: StarkProof, req: UnshieldReq,
                              outputAccepted: bool)
    requires LedgerInv(w, l)
    ensures LedgerInv(w, ApplyUnshield(w, l, level, proof, req, outputAccepted).ledger)
  {
    hide PrepareUnshield, UnshieldLedger, TreeInv;
    var prepared := PrepareUnshield(w.crypto, ReadsOf(l, level), req.(proof := proof.ToHost()));
    if prepared.Ok? {
      UnshieldAccepted(w, l, level, req.(proof := proof.ToHost()));
      UnshieldKeepsInv(w, l, level, prepared.value);
    }
  }

  lemma ApplyDepositKeepsInv(w: World, l: Ledger, ticketer: Text, recipient: Text, amount: u64)
    requires LedgerInv(w, l)
    ensures LedgerInv(w, ApplyDeposit(w, l, ticketer, recipient, amount).ledger)
  {
    hide Live;
  }
}
