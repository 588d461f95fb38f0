/** The journal of a run against its inbox: every effect is the one its own
    message asked for. */
module KernelJournal {
  import opened Bytes
  import opened KernelInvariant
  import opened KernelLaws
  import opened KernelRuns
  import opened KernelState
  import opened KernelUpdates
  import opened Protocol
  import opened Wrappers

  /** The message an input brings to the rules, by itself or through a pointer. */
  function Brought(w: World, input: Input): Option<KernelMessage>
  {
    match w.parse(input.payload)
    case Kernel(message) => Some(Dispatched(w, input, message))
    case _ => None
  }

  /** A proof the configured verifier accepts. */
  predicate Proven(w: World, l: Ledger, proof: StarkProof, circuit: Circuit)
  {
    l.verifier.Some? && w.proofValid(l.verifier.value, proof, circuit)
  }

  function NotesOfShield(req: ShieldReq): seq<Note>
  {
    [Note(req.clientCm, req.clientEnc), Note(req.producerCm, req.producerEnc)]
  }

  function NotesOfUnshield(req: UnshieldReq): seq<Note>
  {
    (match req.encChange case Some(enc) => [Note(req.cmChange, enc)] case None => []) + [Note(req.cmFee, req.encFee)]
  }

  /** A shield draws v + fee + producer fee from the pool it names. */
  predicate IsShieldsEffect(w: World, l: Ledger, proof: StarkProof, req: ShieldReq, e: Effect)
  {
    && e.Draw? && e.pool == req.pubkeyHash && e.cm == req.clientCm && e.debit == req.v + req.fee + req.producerFee
    && e.fee == req.fee && e.notes == NotesOfShield(req)
    && Proven(w, l, proof, ShieldCircuit)
  }

  /** A transfer spends the nullifiers it names, under a root that was valid. */
  predicate IsTransfersEffect(w: World, l: Ledger, proof: StarkProof, req: TransferReq, e: Effect)
  {
    && e == Spend(req.nullifiers, req.fee, TransferNotes(req))
    && req.root in l.roots && Proven(w, l, proof, TransferCircuit)
  }

  /** An unshield pays the amount it names to its trimmed recipient, if the host
      took the message. */
  predicate IsUnshieldsEffect(w: World, l: Ledger, outputAccepted: bool, proof: StarkProof, req: UnshieldReq, e: Effect)
  {
    && e.Withdraw? && e.nullifiers == req.nullifiers && e.fee == req.fee && e.notes == NotesOfUnshield(req)
    && e.record == Withdrawal(w.crypto.trim(req.recipient), req.vPub)
    && req.root in l.roots && outputAccepted && Proven(w, l, proof, UnshieldCircuit)
  }

  /** What an input did to the ledger it found is what its message asked for. */
  predicate IsAskedFor(w: World, l: Ledger, input: Input, e: Effect)
  {
    match e
    case Nothing => true
    case Credit(pool, amount) =>
      var parsed := w.parse(input.payload);
      && parsed.Deposit? && parsed.amount == amount && w.parseDepositKey(parsed.recipient) == Some(pool)
      && l.ticketer == Some(parsed.ticketer)
    case Draw(_, _, _, _, _) =>
      var m := Brought(w, input);
      m.Some? && m.value.Shield? && IsShieldsEffect(w, l, m.value.proof, m.value.shield, e)
    case Spend(_, _, _) =>
      var m := Brought(w, input);
      m.Some? && m.value.Transfer? && IsTransfersEffect(w, l, m.value.proof, m.value.transfer, e)
    case Withdraw(_, _, _, _, _) =>
      var m := Brought(w, input);
      m.Some? && m.value.Unshield? && IsUnshieldsEffect(w, l, input.outputAccepted, m.value.proof, m.value.unshield, e)
  }

  /** A reply names its effect. */
  predicate Answers(r: Reply)
  {
    match r.result
    case Deposited => r.effect.Credit?
    case Shielded(_) => r.effect.Draw?
    case Transferred(_) => r.effect.Spend?
    case Unshielded(_) => r.effect.Withdraw?
    case _ => r.effect == Nothing
  }

  /** A prepared shield is the request without its proof. */
  lemma PreparedShieldIs(c: Crypto, view: LedgerReads, req: ShieldReq)
    requires PrepareShield(c, view, req).Ok?
    ensures req.v + req.fee + req.producerFee < U64_LIMIT
    ensures PrepareShield(c, view, req).value
            == PreparedShield(req.pubkeyHash, req.v + req.fee + req.producerFee,
                              req.clientCm, req.clientEnc, req.producerCm, req.producerEnc)
  {
    hide CheckOutputs, NoteCapacity, ShieldOutputs;
  }

  lemma ShieldEffect(w: World, l: Ledger, level: i32, proof: StarkProof, req: ShieldReq)
    ensures var r := ApplyShield(w, l, level, proof, req);
            Answers(r) && (r.effect == Nothing || (r.effect.Draw? && IsShieldsEffect(w, l, proof, req, r.effect)))
  {
    hide PrepareShield, TreeRootOf, ShieldLedger, ReadsOf;
    var host := req.(proof := proof.ToHost());
    if PrepareShield(w.crypto, ReadsOf(l, level), host).Ok? {
      PreparedShieldIs(w.crypto, ReadsOf(l, level), host);
      ShieldAccepted(w, l, level, host);
    }
  }

  lemma TransferEffect(w: World, l: Ledger, level: i32, proof: StarkProof, req: TransferReq)
    ensures var r := ApplyTransfer(w, l, level, proof, req);
            Answers(r) && (r.effect == Nothing || (r.effect.Spend? && IsTransfersEffect(w, l, proof, req, r.effect)))
  {
    hide TreeRootOf, AppendFallible;
    var host := req.(proof := proof.ToHost());
    if CheckTransfer(w.crypto, ReadsOf(l, level), host).Pass? {
      TransferAccepted(w, l, level, host);
    }
    hide CheckTransfer;
  }

  lemma UnshieldEffect(w: World, l: Ledger, level: i32, proof: StarkProof, req: UnshieldReq, outputAccepted: bool)
    ensures var r := ApplyUnshield(w, l, level, proof, req, outputAccepted);
            Answers(r) && (r.effect == Nothing
              || (r.effect.Withdraw? && IsUnshieldsEffect(w, l, outputAccepted, proof, req, r.effect)))
  {
    hide TreeRootOf, UnshieldLedger, CheckOutputs, UnshieldOutputs, RequiredTxFee, CheckSpends;
    var host := req.(proof := proof.ToHost());
    if PrepareUnshield(w.crypto, ReadsOf(l, level), host).Ok? {
      UnshieldAccepted(w, l, level, host);
    }
  }

  /** What a dispatched message did is what it asked for. */
  lemma KernelEffect(w: World, l: Ledger, input: Input, message: KernelMessage)
    ensures var (r, m) := (ApplyKernel(w, l, input, message), Dispatched(w, input, message));
            && Answers(r)
            && match r.effect
               case Nothing => true
               case Draw(_, _, _, _, _) => m.Shield? && IsShieldsEffect(w, l, m.proof, m.shield, r.effect)
               case Spend(_, _, _) => m.Transfer? && IsTransfersEffect(w, l, m.proof, m.transfer, r.effect)
               case Withdraw(_, _, _, _, _) =>
                 m.Unshield? && IsUnshieldsEffect(w, l, input.outputAccepted, m.proof, m.unshield, r.effect)
               case Credit(_, _) => false
    decreases message.DalPointer?
  {
    hide ApplyShield, ApplyTransfer, ApplyUnshield, FetchMessage, IsShieldsEffect, IsTransfersEffect, IsUnshieldsEffect;
    match message {
      case ConfigureVerifier(_, _) =>
      case ConfigureBridge(_, _) =>
      case Shield(proof, req) => ShieldEffect(w, l, input.level, proof, req);
      case Transfer(proof, req) => TransferEffect(w, l, input.level, proof, req);
      case Unshield(proof, req) => UnshieldEffect(w, l, input.level, proof, req, input.outputAccepted);
      case DalPointer(pointer) =>
        var fetched := FetchMessage(w, input.dal, pointer);
        if fetched.Ok? {
          KernelEffect(w, l, input, fetched.value);
        }
    }
  }

  lemma StepIsAskedFor(w: World, s: KState, input: Input)
    ensures IsAskedFor(w, Opened(w, s), input, EffectOf(w, s, input))
    ensures Answers(ReplyBehind(w, s, input)) && ReplyBehind(w, s, input).effect == EffectOf(w, s, input)
  {
    hide ApplyKernel, IsShieldsEffect, IsTransfersEffect, IsUnshieldsEffect, Dispatched, InitialLedger;
    match w.parse(input.payload) {
      case Kernel(message) => KernelEffect(w, Opened(w, s), input, message);
      case _ =>
    }
  }

  /** Line by line, the journal of a run is what the inbox asked for: no effect
      without the message that asks for it, in the state that message found. */
  lemma {:induction false} JournalMatchesInbox(w: World, inputs: seq<Input>, i: nat)
    requires i < |inputs|
    ensures var entry, found := Journal(w, inputs)[i], Opened(w, Reached(w, inputs[..i]));
            entry.level == inputs[i].level && IsAskedFor(w, found, inputs[i], entry.effect)
  {
    hide IsAskedFor, EffectOf, Reached;
    var before, last := inputs[..|inputs| - 1], inputs[|inputs| - 1];
    if i == |before| {
      StepIsAskedFor(w, Reached(w, before), last);
    } else {
      JournalMatchesInbox(w, before, i);
      assert before[..i] == inputs[..i];
    }
  }

  // ----- Conservation, in terms of the requests

  /** What an input asks to take out of its pool, if it is a shield. */
  function ShieldCost(w: World, input: Input): nat
  {
    var m := Brought(w, input);
    if m.Some? && m.value.Shield? then m.value.shield.v + m.value.shield.fee + m.value.shield.producerFee else 0
  }

  /** What it brings in, if it is a deposit. */
  function DepositAmount(w: World, input: Input): nat
  {
    var parsed := w.parse(input.payload);
    if parsed.Deposit? then parsed.amount else 0
  }

  /** The cost of all shields that were answered as shielded. */
  function ShieldedTotal(w: World, inputs: seq<Input>): nat
  {
    if inputs == [] then 0
    else
      var before, last := inputs[..|inputs| - 1], inputs[|inputs| - 1];
      ShieldedTotal(w, before)
      + if ReplyBehind(w, Reached(w, before), last).result.Shielded? then ShieldCost(w, last) else 0
  }

  /** The amount of all deposits that were answered as deposited. */
  function DepositedTotal(w: World, inputs: seq<Input>): nat
  {
    if inputs == [] then 0
    else
      var before, last := inputs[..|inputs| - 1], inputs[|inputs| - 1];
      DepositedTotal(w, before)
      + if ReplyBehind(w, Reached(w, before), last).result.Deposited? then DepositAmount(w, last) else 0
  }

  /** One input adds the same to the totals of the requests and of the journal. */
  lemma StepTotals(w: World, s: KState, input: Input)
    ensures var (r, e) := (ReplyBehind(w, s, input), EffectOf(w, s, input));
            && (if r.result.Deposited? then DepositAmount(w, input) else 0) == (if e.Credit? then e.amount else 0)
            && (if r.result.Shielded? then ShieldCost(w, input) else 0) == (if e.Draw? then e.debit else 0)
  {
    StepIsAskedFor(w, s, input);
    hide ReplyBehind, EffectOf, Brought, Proven;
  }

  lemma OneMoreEntry(j: seq<Entry>, entry: Entry)
    ensures Credited(j + [entry]) == Credited(j) + if entry.effect.Credit? then entry.effect.amount else 0
    ensures Debited(j + [entry]) == Debited(j) + if entry.effect.Draw? then entry.effect.debit else 0
  {
    assert (j + [entry])[..|j|] == j;
  }

  lemma {:induction false} TotalsAreJournalled(w: World, inputs: seq<Input>)
    ensures DepositedTotal(w, inputs) == Credited(Journal(w, inputs))
    ensures ShieldedTotal(w, inputs) == Debited(Journal(w, inputs))
  {
    hide Reached, ReplyBehind, EffectOf, ShieldCost, DepositAmount;
    if inputs == [] {
    } else {
      var before, last := inputs[..|inputs| - 1], inputs[|inputs| - 1];
      TotalsAreJournalled(w, before);
      StepTotals(w, Reached(w, before), last);
      OneMoreEntry(Journal(w, before), Entry(last.level, EffectOf(w, Reached(w, before), last)));
      hide Credited, Debited;
    }
  }

  /** Conservation: over every run, the amounts of the deposits taken are the
      live pool balances plus v + fee + producer fee of every shield applied. */
  lemma DepositsCoverShields(w: World, inputs: seq<Input>)
    ensures DepositedTotal(w, inputs) == PoolTotal(Opened(w, Reached(w, inputs)).pools) + ShieldedTotal(w, inputs)
  {
    hide Journal, Reached, DepositedTotal, ShieldedTotal, PoolTotal, Credited, Debited;
    TotalsAreJournalled(w, inputs);
    DepositsAreConserved(w, inputs);
  }
}
