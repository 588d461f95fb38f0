/** The rollup kernel as a transition system: what the ledger is, and what one
    inbox message does to it. The imperative kernel is proved to implement these
    transitions on its byte store. */
module KernelState {
  import opened Bytes
  import opened Frontier
  import opened Merkle
  import opened Protocol
  import opened Wrappers
  import Dal

  // ----- Messages

  datatype VerifierConfig = VerifierConfig(authDomain: Felt, shieldHash: Felt, transferHash: Felt, unshieldHash: Felt)

  datatype Circuit = ShieldCircuit | TransferCircuit | UnshieldCircuit

  /** A kernel request always carries a real proof, which replaces the request's
      own `proof` field when it is handed to the ledger rules. */
  datatype StarkProof = StarkProof(proofBytes: Bytes, outputPreimage: seq<Felt>)
  {
    function ToHost(): Proof
    {
      Stark(proofBytes, outputPreimage)
    }
  }

  datatype KernelMessage =
    | ConfigureVerifier(config: VerifierConfig, signature: seq<Felt>)
    | ConfigureBridge(newTicketer: Text, signature: seq<Felt>)
    | Shield(proof: StarkProof, shield: ShieldReq)
    | Transfer(proof: StarkProof, transfer: TransferReq)
    | Unshield(proof: StarkProof, unshield: UnshieldReq)
    | DalPointer(pointer: Dal.PayloadPointer)

  datatype Parsed =
    | Malformed
    | Ignore
    | Deposit(ticketer: Text, recipient: Text, amount: u64)
    | Kernel(message: KernelMessage)

  datatype KernelResult =
    | Configured
    | Deposited
    | Shielded(shieldResp: ShieldResp)
    | Transferred(transferResp: TransferResp)
    | Unshielded(unshieldResp: UnshieldResp)
    | Error(error: LedgerError)

  /** One inbox message, with what the host answers while it is processed. */
  datatype Input = Input(level: i32, id: i32, payload: Bytes, dal: Dal.Reveals, outputAccepted: bool)

  datatype Withdrawal = Withdrawal(recipient: Text, amount: u64)

  /** The kernel's surroundings: libraries, build constants and message framing. */
  datatype World = World(
    crypto: Crypto,
    defaultAuthDomain: Felt,
    parse: Bytes -> Parsed,
    decodeKernel: Bytes -> Option<KernelMessage>,
    parseDepositKey: Text -> Option<Felt>,
    originated: Text -> bool,
    verifierSigned: (VerifierConfig, seq<Felt>) -> bool,
    bridgeSigned: (Text, seq<Felt>) -> bool,
    verifierUsable: VerifierConfig -> bool,
    proofValid: (VerifierConfig, StarkProof, Circuit) -> bool,
    outboxMessage: (Text, Withdrawal) -> Option<Bytes>,
    encodeResult: KernelResult -> Option<Bytes>)

  const MAX_STORE_STRING_BYTES: nat := 256
  const MAX_STORED_INPUT_PAYLOAD_BYTES: nat := 2048

  /** What is assumed of the surroundings: a tree no deeper than the protocol's,
      and contract addresses that are text short enough for the kernel's string reads. */
  ghost predicate Sane(w: World)
  {
    && 0 < w.crypto.depth <= DEPTH
    && forall t :: w.crypto.validContract(t) ==> |t| <= MAX_STORE_STRING_BYTES && w.crypto.utf8(t)
  }

  // ----- The ledger

  datatype FeeMark = FeeMark(level: i32, count: nat)

  /** A pool maps to None once it has been drained and its entry emptied. */
  datatype Ledger = Ledger(
    authDomain: Felt,
    notes: seq<Note>,
    branches: Branches,
    nullifiers: seq<Felt>,
    roots: seq<Felt>,
    withdrawals: seq<Withdrawal>,
    pools: map<Felt, Option<u64>>,
    applied: set<Felt>,
    ticketer: Option<Text>,
    verifier: Option<VerifierConfig>,
    feeMark: Option<FeeMark>)

  function Commitments(notes: seq<Note>): (cms: seq<Felt>)
    ensures |cms| == |notes|
    ensures forall i :: 0 <= i < |notes| ==> cms[i] == notes[i].cm
  {
    seq(|notes|, i requires 0 <= i < |notes| => notes[i].cm)
  }

  function TreeRootOf(w: World, notes: seq<Note>): Felt
  {
    Root(w.crypto.node, w.crypto.depth, Commitments(notes))
  }

  function InitialLedger(w: World): Ledger
  {
    Ledger(w.defaultAuthDomain, [], seq(w.crypto.depth, _ => None), [], [TreeRootOf(w, [])], [],
           map[], {}, None, None, None)
  }

  function PoolBalance(l: Ledger, key: Felt): Option<u64>
  {
    if key in l.pools then l.pools[key] else None
  }

  function AcceptedInLevel(l: Ledger, level: i32): nat
  {
    match l.feeMark
    case None => 0
    case Some(mark) => if mark.level == level then mark.count else 0
  }

  /** The answers the validation rules get from this ledger. */
  function ReadsOf(l: Ledger, level: i32): LedgerReads
  {
    LedgerReads(
      Ok(l.authDomain),
      Ok(RequiredTxFee(AcceptedInLevel(l, level))),
      root => root in l.roots,
      nf => nf in l.nullifiers,
      cm => cm in l.applied,
      key => Ok(PoolBalance(l, key)),
      Ok(|l.notes|))
  }

  // ----- Ledger updates

  function AppendNote(w: World, l: Ledger, note: Note): Ledger
  {
    l.(notes := l.notes + [note],
       branches := Appended(w.crypto.node, Commitments(l.notes), l.branches, note.cm))
  }

  /** Appends in turn; a note whose index does not fit the host's `usize` is
      written, and then reported as a failure. */
  function AppendFallible(w: World, l: Ledger, notes: seq<Note>): (r: (Ledger, bool))
    decreases |notes|
  {
    if notes == [] then (l, true)
    else
      var next := AppendNote(w, l, notes[0]);
      if |l.notes| > w.crypto.usizeMax then (next, false) else AppendFallible(w, next, notes[1..])
  }

  function SnapshotRoot(w: World, l: Ledger): Ledger
  {
    var root := TreeRootOf(w, l.notes);
    if root in l.roots then l else l.(roots := l.roots + [root])
  }

  function NotePrivateTx(l: Ledger, level: i32): Ledger
  {
    l.(feeMark := Some(FeeMark(level, AcceptedInLevel(l, level) + 1)))
  }

  function DebitPool(l: Ledger, key: Felt, amount: u64): Ledger
    requires PoolBalance(l, key).Some? && PoolBalance(l, key).value >= amount
  {
    var balance := l.pools[key].value - amount;
    l.(pools := l.pools[key := if balance == 0 then None else Some(balance)])
  }

  /** The pool debited and the shield's commitment marked as applied. */
  function Drawn(l: Ledger, key: Felt, debit: u64, cm: Felt): Ledger
    requires PoolBalance(l, key).Some? && PoolBalance(l, key).value >= debit
  {
    DebitPool(l, key, debit).(applied := l.applied + {cm})
  }

  function ShieldLedger(w: World, l: Ledger, level: i32, p: PreparedShield): Ledger
    requires PoolBalance(l, p.pubkeyHash).Some? && PoolBalance(l, p.pubkeyHash).value >= p.debit
  {
    var first := AppendNote(w, Drawn(l, p.pubkeyHash, p.debit, p.clientCm), Note(p.clientCm, p.clientEnc));
    var second := AppendNote(w, first, Note(p.producerCm, p.producerEnc));
    NotePrivateTx(SnapshotRoot(w, second), level)
  }

  /** What `commit_prepared_shield` leaves when a note's index does not fit the
      host's `usize`: the pool drawn, and the notes up to the one that does not fit. */
  function StoppedShield(w: World, l: Ledger, p: PreparedShield): Ledger
    requires PoolBalance(l, p.pubkeyHash).Some? && PoolBalance(l, p.pubkeyHash).value >= p.debit
  {
    var first := AppendNote(w, Drawn(l, p.pubkeyHash, p.debit, p.clientCm), Note(p.clientCm, p.clientEnc));
    if |l.notes| > w.crypto.usizeMax then first else AppendNote(w, first, Note(p.producerCm, p.producerEnc))
  }

  function ShieldNotes(p: PreparedShield): seq<Note>
  {
    [Note(p.clientCm, p.clientEnc), Note(p.producerCm, p.producerEnc)]
  }

  function UnshieldNotes(p: PreparedUnshield): seq<Note>
  {
    (if p.changeNote.Some? then [p.changeNote.value] else []) + [p.producerNote]
  }

  function UnshieldResponse(size: nat, p: PreparedUnshield): UnshieldResp
  {
    if p.changeNote.Some? then UnshieldResp(Some(size), size + 1) else UnshieldResp(None, size)
  }

  function UnshieldLedger(w: World, l: Ledger, level: i32, p: PreparedUnshield): Ledger
  {
    var queued := l.(withdrawals := l.withdrawals + [Withdrawal(p.recipient, p.amount)],
                     nullifiers := l.nullifiers + p.nullifiers);
    var changed := if p.changeNote.Some? then AppendNote(w, queued, p.changeNote.value) else queued;
    NotePrivateTx(SnapshotRoot(w, AppendNote(w, changed, p.producerNote)), level)
  }

  /** What `commit_prepared_unshield` leaves in that case: the withdrawal queued,
      and the nullifiers spent only if the change note's index still fitted. */
  function StoppedUnshield(w: World, l: Ledger, p: PreparedUnshield): Ledger
  {
    var queued := l.(withdrawals := l.withdrawals + [Withdrawal(p.recipient, p.amount)]);
    var changed := if p.changeNote.Some? then AppendNote(w, queued, p.changeNote.value) else queued;
    if p.changeNote.Some? && |l.notes| > w.crypto.usizeMax then changed
    else AppendNote(w, changed.(nullifiers := changed.nullifiers + p.nullifiers), p.producerNote)
  }

  function TransferNotes(req: TransferReq): seq<Note>
  {
    [Note(req.cm1, req.enc1), Note(req.cm2, req.enc2), Note(req.cm3, req.enc3)]
  }

  // ----- One message

  /** What an accepted message did, for the laws about whole runs. */
  datatype Effect =
    | Nothing
    | Credit(pool: Felt, amount: u64)
    | Draw(pool: Felt, cm: Felt, debit: u64, fee: u64, notes: seq<Note>)
    | Spend(nullifiers: seq<Felt>, fee: u64, notes: seq<Note>)
    | Withdraw(nullifiers: seq<Felt>, fee: u64, notes: seq<Note>, record: Withdrawal, message: Bytes)

  datatype Reply = Reply(ledger: Ledger, result: KernelResult, effect: Effect)

  function Rejected(l: Ledger, e: LedgerError): Reply
  {
    Reply(l, Error(e), Nothing)
  }

  function ApplyDeposit(w: World, l: Ledger, ticketer: Text, recipient: Text, amount: u64): Reply
  {
    if l.ticketer.None? then Rejected(l, BridgeNotConfigured)
    else if l.ticketer.value != ticketer then Rejected(l, UnexpectedTicketer)
    else
      match w.parseDepositKey(recipient)
      case None => Rejected(l, NotADepositKey)
      case Some(key) =>
        var balance := if PoolBalance(l, key).Some? then PoolBalance(l, key).value else 0;
        if l.verifier.None? then Rejected(l, VerifierNotConfigured)
        else if balance + amount >= U64_LIMIT then Rejected(l, BalanceOverflow)
        else Reply(l.(pools := l.pools[key := Some(balance + amount)]), Deposited, Credit(key, amount))
  }

  function CheckProof(w: World, l: Ledger, proof: StarkProof, circuit: Circuit): Wrappers.Outcome<LedgerError>
  {
    if l.verifier.None? then Fail(VerifierNotConfigured)
    else if !w.verifierUsable(l.verifier.value) then Fail(BadVerifierConfig)
    else if !w.proofValid(l.verifier.value, proof, circuit) then Fail(InvalidProof)
    else Pass
  }

  function ApplyShield(w: World, l: Ledger, level: i32, proof: StarkProof, req: ShieldReq): Reply
  {
    match CheckProof(w, l, proof, ShieldCircuit)
    case Fail(e) => Rejected(l, e)
    case Pass =>
      match PrepareShield(w.crypto, ReadsOf(l, level), req.(proof := proof.ToHost()))
      case Err(e) => Rejected(l, e)
      case Ok(p) =>
        if |l.notes| + 1 > w.crypto.usizeMax then Rejected(l, IndexDoesNotFit)
        else
          Reply(ShieldLedger(w, l, level, p),
                  Shielded(ShieldResp(p.clientCm, |l.notes|, p.producerCm, |l.notes| + 1)),
                  Draw(p.pubkeyHash, p.clientCm, p.debit, req.fee, ShieldNotes(p)))
  }

  function TransferLedger(w: World, appended: Ledger, level: i32, req: TransferReq): Ledger
  {
    NotePrivateTx(SnapshotRoot(w, appended.(nullifiers := appended.nullifiers + req.nullifiers)), level)
  }

  /** `apply_transfer`: the only rule that writes as it goes. */
  function TransferReply(w: World, l: Ledger, level: i32, req: TransferReq): Reply
  {
    match CheckTransfer(w.crypto, ReadsOf(l, level), req)
    case Fail(e) => Rejected(l, e)
    case Pass =>
      var appended := AppendFallible(w, l, TransferNotes(req));
      if !appended.1 then Rejected(appended.0, IndexDoesNotFit)
      else
        Reply(TransferLedger(w, appended.0, level, req),
                Transferred(TransferResp(|l.notes|, |l.notes| + 1, |l.notes| + 2)),
                Spend(req.nullifiers, req.fee, TransferNotes(req)))
  }

  function ApplyTransfer(w: World, l: Ledger, level: i32, proof: StarkProof, req: TransferReq): Reply
  {
    match CheckProof(w, l, proof, TransferCircuit)
    case Fail(e) => Rejected(l, e)
    case Pass => TransferReply(w, l, level, req.(proof := proof.ToHost()))
  }

  function ApplyUnshield(w: World, l: Ledger, level: i32, proof: StarkProof, req: UnshieldReq,
                         outputAccepted: bool): Reply
  {
    match CheckProof(w, l, proof, UnshieldCircuit)
    case Fail(e) => Rejected(l, e)
    case Pass =>
      match PrepareUnshield(w.crypto, ReadsOf(l, level), req.(proof := proof.ToHost()))
      case Err(e) => Rejected(l, e)
      case Ok(p) =>
        if l.ticketer.None? then Rejected(l, BridgeNotConfigured)
        else
          var record := Withdrawal(p.recipient, p.amount);
          match w.outboxMessage(l.ticketer.value, record)
          case None => Rejected(l, BadOutboxMessage)
          case Some(message) =>
            var size := |l.notes|;
            if size + |UnshieldNotes(p)| - 1 > w.crypto.usizeMax then Rejected(l, IndexDoesNotFit)
            else if !outputAccepted then Rejected(l, OutboxRejected)
            else
              Reply(UnshieldLedger(w, l, level, p),
                      Unshielded(UnshieldResponse(size, p)),
                      Withdraw(p.nullifiers, req.fee, UnshieldNotes(p), record, message))
  }

  function ApplyConfigureVerifier(w: World, l: Ledger, config: VerifierConfig, signature: seq<Felt>): Reply
  {
    if !w.verifierSigned(config, signature) then Rejected(l, BadSignature)
    else if !w.verifierUsable(config) then Rejected(l, BadVerifierConfig)
    else if l.verifier.Some? then Rejected(l, AlreadyConfigured)
    else Reply(l.(authDomain := config.authDomain, verifier := Some(config)), Configured, Nothing)
  }

  function ApplyConfigureBridge(w: World, l: Ledger, ticketer: Text, signature: seq<Felt>): Reply
  {
    if !w.bridgeSigned(ticketer, signature) then Rejected(l, BadSignature)
    else if !w.crypto.validContract(ticketer) || !w.originated(ticketer) then Rejected(l, NotAnOriginatedContract)
    else if l.ticketer.Some? then Rejected(l, AlreadyConfigured)
    else Reply(l.(ticketer := Some(ticketer)), Configured, Nothing)
  }

  function KindOf(m: KernelMessage): Option<Dal.PayloadKind>
  {
    match m
    case ConfigureVerifier(_, _) => Some(Dal.ConfigureVerifier)
    case ConfigureBridge(_, _) => Some(Dal.ConfigureBridge)
    case Shield(_, _) => Some(Dal.Shield)
    case Transfer(_, _) => Some(Dal.Transfer)
    case Unshield(_, _) => Some(Dal.Unshield)
    case DalPointer(_) => None
  }

  /** `fetch_kernel_message_from_dal`: never yields another pointer. */
  function FetchMessage(w: World, dal: Dal.Reveals, pointer: Dal.PayloadPointer): (r: Res<KernelMessage>)
    ensures r.Ok? ==> !r.value.DalPointer?
  {
    match Dal.Fetch(dal, w.crypto.usizeMax, w.crypto.hash, pointer)
    case Err(HashMismatch) => Err(DalHashMismatch)
    case Err(_) => Err(DalFailure)
    case Ok(payload) =>
      match w.decodeKernel(payload)
      case None => Err(DalPayloadUndecodable)
      case Some(message) =>
        if message.DalPointer? then Err(NestedDalPointer)
        else if KindOf(message) != Some(pointer.kind) then Err(DalKindMismatch)
        else Ok(message)
  }

  /** `apply_kernel_message`. */
  function ApplyKernel(w: World, l: Ledger, input: Input, message: KernelMessage): Reply
    decreases message.DalPointer?
  {
    match message
    case ConfigureVerifier(config, signature) => ApplyConfigureVerifier(w, l, config, signature)
    case ConfigureBridge(ticketer, signature) => ApplyConfigureBridge(w, l, ticketer, signature)
    case Shield(proof, req) => ApplyShield(w, l, input.level, proof, req)
    case Transfer(proof, req) => ApplyTransfer(w, l, input.level, proof, req)
    case Unshield(proof, req) => ApplyUnshield(w, l, input.level, proof, req, input.outputAccepted)
    case DalPointer(pointer) =>
      match FetchMessage(w, input.dal, pointer)
      case Err(e) => Rejected(l, e)
      case Ok(nested) => ApplyKernel(w, l, input, nested)
  }

  // ----- The whole kernel state

  datatype InputLog = InputLog(count: u64, bytes: u64, level: i32, id: i32, stored: Bytes)

  /** Before its first relevant message the kernel has no ledger at all. */
  datatype KState = KState(inputs: Option<InputLog>, ledger: Option<Ledger>, result: Option<Bytes>, outbox: seq<Bytes>)

  function EmptyState(): KState
  {
    KState(None, None, None, [])
  }

  function SaturatingAdd(a: u64, b: nat): (r: u64)
  {
    if a + b >= U64_LIMIT then U64_LIMIT - 1 else a + b
  }

  function LogInput(log: Option<InputLog>, input: Input): (r: InputLog)
    ensures |r.stored| <= MAX_STORED_INPUT_PAYLOAD_BYTES
  {
    var stored := input.payload[..Min(|input.payload|, MAX_STORED_INPUT_PAYLOAD_BYTES)];
    var count := if log.Some? then log.value.count else 0;
    var bytes := if log.Some? then log.value.bytes else 0;
    InputLog(SaturatingAdd(count, 1), SaturatingAdd(bytes, |input.payload|), input.level, input.id, stored)
  }

  /** The ledger a message finds: initialised on first use. */
  function Opened(w: World, s: KState): Ledger
  {
    if s.ledger.Some? then s.ledger.value else InitialLedger(w)
  }

  /** What an input does, once it is known to concern the kernel. */
  function ReplyTo(w: World, s: KState, input: Input, parsed: Parsed): Reply
    requires parsed.Deposit? || parsed.Kernel?
  {
    match parsed
    case Deposit(ticketer, recipient, amount) => ApplyDeposit(w, Opened(w, s), ticketer, recipient, amount)
    case Kernel(message) => ApplyKernel(w, Opened(w, s), input, message)
  }

  function EffectOf(w: World, s: KState, input: Input): Effect
  {
    var parsed := w.parse(input.payload);
    if parsed.Deposit? || parsed.Kernel? then ReplyTo(w, s, input, parsed).effect else Nothing
  }

  function Emit(outbox: seq<Bytes>, effect: Effect): seq<Bytes>
  {
    if effect.Withdraw? then outbox + [effect.message] else outbox
  }

  function RecordResult(w: World, previous: Option<Bytes>, result: KernelResult): Option<Bytes>
  {
    if w.encodeResult(result).Some? then w.encodeResult(result) else previous
  }

  /** `process_input`. */
  function Step(w: World, s: KState, input: Input): KState
  {
    var logged := s.(inputs := Some(LogInput(s.inputs, input)));
    var parsed := w.parse(input.payload);
    match parsed
    case Malformed => logged.(result := RecordResult(w, s.result, Error(MalformedInput)))
    case Ignore => logged
    case _ =>
      var o := ReplyTo(w, s, input, parsed);
      KState(logged.inputs, Some(o.ledger), RecordResult(w, s.result, o.result), Emit(s.outbox, o.effect))
  }

  /** `run_with_host`: the inbox is processed in order. */
  function Run(w: World, s: KState, inputs: seq<Input>): KState
  {
    if inputs == [] then s else Step(w, Run(w, s, inputs[..|inputs| - 1]), inputs[|inputs| - 1])
  }
}
