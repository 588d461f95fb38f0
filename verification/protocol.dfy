/** Requests, their validation, and the prepared commits they turn into
    (`core/src/lib.rs`). Validation is generic over a ledger's read interface,
    passed as a record of functions. */
module Protocol {
  import opened Bytes
  import opened CanonicalWire
  import opened Merkle
  import opened Wrappers

  const MIN_TX_FEE: nat := 100_000
  const BASE_PRIVATE_TXS_PER_LEVEL: nat := 2
  const MAX_DYNAMIC_FEE_STEP: nat := 6
  const MAX_NULLIFIERS: nat := 7

  /** UTF-8 text, as its bytes. */
  type Text = Bytes

  /** What the protocol takes from libraries and from its build: fixed for a
      whole run, otherwise arbitrary. */
  datatype Crypto = Crypto(
    depth: nat,
    usizeMax: nat,
    node: NodeHash,
    hash: Bytes -> Felt,
    memoHash: EncryptedNote -> Felt,
    trim: Text -> Text,
    utf8: Bytes -> bool,
    validContract: Text -> bool)

  datatype LedgerError =
    | FeeBelowMinimum | ProducerFeeZero | ZeroClientCommitment | ZeroProducerCommitment
    | ShieldReplay | InvalidNote | DebitOverflow | NoPool | PoolTooSmall
    | BadPublicOutputs | PublicOutputMismatch(position: nat)
    | TreeIsFull | BadNullifierCount | InvalidRoot | AlreadySpent | DuplicateNullifier
    | InvalidRecipient | ChangeDataWithoutCommitment | ChangeCommitmentWithoutData | ZeroFeeCommitment
    | BadStoredValue | MissingAuthDomain | MissingTreeRoot | MissingFrontierNode | CorruptedFrontier
    | IndexDoesNotFit | BalanceOverflow
    | BridgeNotConfigured | UnexpectedTicketer | NotADepositKey | VerifierNotConfigured
    | BadOutboxMessage | OutboxRejected | InvalidProof | BadSignature | BadVerifierConfig
    | AlreadyConfigured | NotAnOriginatedContract | DalFailure | DalHashMismatch
    | DalPayloadUndecodable | DalKindMismatch | NestedDalPointer | MalformedInput

  type Res<+T> = Result<T, LedgerError>

  datatype Proof = TrustMeBro | Stark(proofBytes: Bytes, outputPreimage: seq<Felt>)

  datatype ShieldReq = ShieldReq(
    pubkeyHash: Felt, fee: u64, v: u64, producerFee: u64, proof: Proof,
    clientCm: Felt, clientEnc: EncryptedNote, producerCm: Felt, producerEnc: EncryptedNote)

  datatype TransferReq = TransferReq(
    root: Felt, nullifiers: seq<Felt>, fee: u64,
    cm1: Felt, cm2: Felt, cm3: Felt,
    enc1: EncryptedNote, enc2: EncryptedNote, enc3: EncryptedNote, proof: Proof)

  datatype UnshieldReq = UnshieldReq(
    root: Felt, nullifiers: seq<Felt>, vPub: u64, fee: u64, recipient: Text,
    cmChange: Felt, encChange: Option<EncryptedNote>, cmFee: Felt, encFee: EncryptedNote, proof: Proof)

  datatype PreparedShield = PreparedShield(
    pubkeyHash: Felt, debit: u64,
    clientCm: Felt, clientEnc: EncryptedNote, producerCm: Felt, producerEnc: EncryptedNote)

  datatype Note = Note(cm: Felt, enc: EncryptedNote)

  datatype PreparedUnshield = PreparedUnshield(
    changeNote: Option<Note>, producerNote: Note,
    nullifiers: seq<Felt>, recipient: Text, amount: u64)

  datatype ShieldResp = ShieldResp(cm: Felt, index: nat, producerCm: Felt, producerIndex: nat)
  datatype TransferResp = TransferResp(index1: nat, index2: nat, index3: nat)
  datatype UnshieldResp = UnshieldResp(changeIndex: Option<nat>, producerIndex: nat)

  /** The read half of the `LedgerState` trait. */
  datatype LedgerReads = LedgerReads(
    authDomain: Res<Felt>,
    requiredFee: Res<nat>,
    hasRoot: Felt -> bool,
    hasNullifier: Felt -> bool,
    hasApplied: Felt -> bool,
    poolBalance: Felt -> Res<Option<u64>>,
    noteCount: Res<nat>)

  /** Two implementations that answer every query alike. */
  ghost predicate Agree(a: LedgerReads, b: LedgerReads)
  {
    && a.authDomain == b.authDomain
    && a.requiredFee == b.requiredFee
    && a.noteCount == b.noteCount
    && (forall r :: a.hasRoot(r) == b.hasRoot(r))
    && (forall n :: a.hasNullifier(n) == b.hasNullifier(n))
    && (forall c :: a.hasApplied(c) == b.hasApplied(c))
    && (forall k :: a.poolBalance(k) == b.poolBalance(k))
  }

  // ----- Fees

  /** `required_tx_fee_for_private_tx_count`. */
  function RequiredTxFee(acceptedInLevel: nat): (fee: nat)
  {
    var over := if acceptedInLevel >= BASE_PRIVATE_TXS_PER_LEVEL - 1
                then acceptedInLevel - (BASE_PRIVATE_TXS_PER_LEVEL - 1) else 0;
    var step := if over < MAX_DYNAMIC_FEE_STEP then over else MAX_DYNAMIC_FEE_STEP;
    MIN_TX_FEE * Pow2(step)
  }

  // ----- Public outputs

  function U64ToFelt(v: u64): (f: Felt)
  {
    U64Le(v) + Zeros(24)
  }

  lemma U64ToFeltInjective(v: u64, w: u64)
    requires U64ToFelt(v) == U64ToFelt(w)
    ensures v == w
  {
    assert U64ToFelt(v)[..8] == U64Le(v);
    assert U64ToFelt(w)[..8] == U64Le(w);
    assert FromLe(U64Le(v)) == v;
  }

  function FeltToUsize(c: Crypto, f: Felt): Option<nat>
  {
    if !AllZero(f[8..]) then None
    else
      var n := U64FromLe(f[..8]);
      if n <= c.usizeMax then Some(n) else None
  }

  /** `parse_single_task_output_preimage`: the outputs of the one task, or None. */
  function ParseSingleTask(c: Crypto, preimage: seq<Felt>): Option<seq<Felt>>
  {
    if |preimage| < 3 || FeltToUsize(c, preimage[0]) != Some(1) then None
    else
      match FeltToUsize(c, preimage[1])
      case None => None
      case Some(size) =>
        if size < 2 || 1 + size > c.usizeMax || |preimage| != 1 + size then None else Some(preimage[3..])
  }

  /** `transition_public_outputs`. */
  function TransitionPublicOutputs(c: Crypto, preimage: seq<Felt>, expected: nat): (r: Res<seq<Felt>>)
    ensures r.Ok? ==> |r.value| == expected
  {
    match ParseSingleTask(c, preimage)
    case None => if |preimage| == expected then Ok(preimage) else Err(BadPublicOutputs)
    case Some(task) =>
      if task == [] || FeltToUsize(c, task[0]) != Some(|task| - 1) || |task| - 1 != expected then Err(BadPublicOutputs)
      else Ok(task[1..])
  }

  /** Compare public outputs with the request's fields, reporting the first difference. */
  function MatchOutputs(actual: seq<Felt>, expected: seq<Felt>, from: nat): (r: Outcome<LedgerError>)
    requires |actual| == |expected| && from <= |actual|
    ensures r.Pass? <==> actual[from..] == expected[from..]
    decreases |actual| - from
  {
    if from == |actual| then Pass
    else if actual[from] != expected[from] then
      assert actual[from..][0] != expected[from..][0];
      Fail(PublicOutputMismatch(from))
    else
      assert actual[from..] == [actual[from]] + actual[from + 1..];
      assert expected[from..] == [expected[from]] + expected[from + 1..];
      MatchOutputs(actual, expected, from + 1)
  }

  function ShieldOutputs(c: Crypto, authDomain: Felt, req: ShieldReq): (o: seq<Felt>)
    ensures |o| == 9
  {
    [authDomain, req.pubkeyHash, U64ToFelt(req.v), U64ToFelt(req.fee), U64ToFelt(req.producerFee),
     req.clientCm, req.producerCm, c.memoHash(req.clientEnc), c.memoHash(req.producerEnc)]
  }

  function TransferOutputs(c: Crypto, authDomain: Felt, req: TransferReq): (o: seq<Felt>)
    ensures |o| == 9 + |req.nullifiers|
  {
    [authDomain, req.root] + req.nullifiers +
    [U64ToFelt(req.fee), req.cm1, req.cm2, req.cm3,
     c.memoHash(req.enc1), c.memoHash(req.enc2), c.memoHash(req.enc3)]
  }

  function UnshieldOutputs(c: Crypto, authDomain: Felt, recipient: Text, req: UnshieldReq): (o: seq<Felt>)
    ensures |o| == 9 + |req.nullifiers|
  {
    [authDomain, req.root] + req.nullifiers +
    [U64ToFelt(req.vPub), U64ToFelt(req.fee), c.hash(recipient), req.cmChange,
     (match req.encChange case Some(enc) => c.memoHash(enc) case None => ZERO),
     req.cmFee, c.memoHash(req.encFee)]
  }

  function CheckOutputs(c: Crypto, proof: Proof, expected: seq<Felt>): (r: Outcome<LedgerError>)
    ensures r.Pass? && proof.Stark? ==>
              TransitionPublicOutputs(c, proof.outputPreimage, |expected|) == Ok(expected)
  {
    match proof
    case TrustMeBro => Pass
    case Stark(_, preimage) =>
      match TransitionPublicOutputs(c, preimage, |expected|)
      case Err(e) => Fail(e)
      case Ok(outputs) => MatchOutputs(outputs, expected, 0)
  }

  // ----- Validation

  function NoteCapacity(c: Crypto, view: LedgerReads, additional: nat): Outcome<LedgerError>
  {
    match view.noteCount
    case Err(e) => Fail(e)
    case Ok(count) => if count + additional > Pow2(c.depth) then Fail(TreeIsFull) else Pass
  }

  predicate Distinct(s: seq<Felt>)
  {
    forall i, j :: 0 <= i < j < |s| ==> s[i] != s[j]
  }

  /** `prepare_shield`. */
  function PrepareShield(c: Crypto, view: LedgerReads, req: ShieldReq): (r: Res<PreparedShield>)
  {
    if view.requiredFee.Err? then Err(view.requiredFee.error)
    else if req.fee < view.requiredFee.value then Err(FeeBelowMinimum)
    else if req.producerFee == 0 then Err(ProducerFeeZero)
    else if req.clientCm == ZERO then Err(ZeroClientCommitment)
    else if req.producerCm == ZERO then Err(ZeroProducerCommitment)
    else if view.hasApplied(req.clientCm) then Err(ShieldReplay)
    else if !req.clientEnc.Valid() || !req.producerEnc.Valid() then Err(InvalidNote)
    else if view.authDomain.Err? then Err(view.authDomain.error)
    else if req.v + req.fee + req.producerFee >= U64_LIMIT then Err(DebitOverflow)
    else
      match view.poolBalance(req.pubkeyHash)
      case Err(e) => Err(e)
      case Ok(None) => Err(NoPool)
      case Ok(Some(balance)) =>
        var debit := req.v + req.fee + req.producerFee;
        if balance < debit then Err(PoolTooSmall)
        else
          match CheckOutputs(c, req.proof, ShieldOutputs(c, view.authDomain.value, req))
          case Fail(e) => Err(e)
          case Pass =>
            match NoteCapacity(c, view, 2)
            case Fail(e) => Err(e)
            case Pass =>
              Ok(PreparedShield(req.pubkeyHash, debit, req.clientCm, req.clientEnc, req.producerCm, req.producerEnc))
  }

  /** The checks `apply_transfer` and `prepare_unshield` share on what is spent. */
  function CheckSpends(view: LedgerReads, root: Felt, nullifiers: seq<Felt>): Outcome<LedgerError>
  {
    if !view.hasRoot(root) then Fail(InvalidRoot)
    else if exists i :: 0 <= i < |nullifiers| && view.hasNullifier(nullifiers[i]) then Fail(AlreadySpent)
    else if !Distinct(nullifiers) then Fail(DuplicateNullifier)
    else Pass
  }

  /** The auth domain is read only when there is a proof to compare it with. */
  function ProofDomain(view: LedgerReads, proof: Proof): Res<Felt>
  {
    if proof.Stark? then view.authDomain else Ok(ZERO)
  }

  /** The checks of `apply_transfer`, before its first write. */
  function CheckTransfer(c: Crypto, view: LedgerReads, req: TransferReq): (r: Outcome<LedgerError>)
  {
    if view.requiredFee.Err? then Fail(view.requiredFee.error)
    else if req.fee < view.requiredFee.value then Fail(FeeBelowMinimum)
    else if |req.nullifiers| == 0 || |req.nullifiers| > MAX_NULLIFIERS then Fail(BadNullifierCount)
    else if !req.enc1.Valid() || !req.enc2.Valid() || !req.enc3.Valid() then Fail(InvalidNote)
    else
      match CheckSpends(view, req.root, req.nullifiers)
      case Fail(e) => Fail(e)
      case Pass =>
        match ProofDomain(view, req.proof)
        case Err(e) => Fail(e)
        case Ok(authDomain) =>
          match CheckOutputs(c, req.proof, TransferOutputs(c, authDomain, req))
          case Fail(e) => Fail(e)
          case Pass => NoteCapacity(c, view, 3)
  }

  /** `prepare_unshield`, which pays the trimmed recipient. */
  function PrepareUnshield(c: Crypto, view: LedgerReads, req: UnshieldReq): (r: Res<PreparedUnshield>)
  {
    PrepareUnshieldTo(c, view, req, c.trim(req.recipient))
  }

  function PrepareUnshieldTo(c: Crypto, view: LedgerReads, req: UnshieldReq,
                             recipient: Text): (r: Res<PreparedUnshield>)
  {
    if recipient == [] || !c.validContract(recipient) then Err(InvalidRecipient)
    else if view.requiredFee.Err? then Err(view.requiredFee.error)
    else if req.fee < view.requiredFee.value then Err(FeeBelowMinimum)
    else if |req.nullifiers| == 0 || |req.nullifiers| > MAX_NULLIFIERS then Err(BadNullifierCount)
    else if req.cmChange == ZERO && req.encChange.Some? then Err(ChangeDataWithoutCommitment)
    else if req.encChange.Some? && !req.encChange.value.Valid() then Err(InvalidNote)
    else if !req.encFee.Valid() then Err(InvalidNote)
    else if req.cmFee == ZERO then Err(ZeroFeeCommitment)
    else
      match CheckSpends(view, req.root, req.nullifiers)
      case Fail(e) => Err(e)
      case Pass =>
        match ProofDomain(view, req.proof)
        case Err(e) => Err(e)
        case Ok(authDomain) =>
          match CheckOutputs(c, req.proof, UnshieldOutputs(c, authDomain, recipient, req))
          case Fail(e) => Err(e)
          case Pass =>
            match NoteCapacity(c, view, if req.cmChange == ZERO then 1 else 2)
            case Fail(e) => Err(e)
            case Pass =>
              if req.cmChange != ZERO && req.encChange.None? then Err(ChangeCommitmentWithoutData)
              else
                Ok(PreparedUnshield(
                     if req.cmChange != ZERO then Some(Note(req.cmChange, req.encChange.value)) else None,
                     Note(req.cmFee, req.encFee), req.nullifiers, recipient, req.vPub))
  }

  // ----- Validation depends on the ledger only through its answers

  lemma PrepareShieldCongruent(c: Crypto, a: LedgerReads, b: LedgerReads, req: ShieldReq)
    requires Agree(a, b)
    ensures PrepareShield(c, a, req) == PrepareShield(c, b, req)
  {
  }

  lemma CheckSpendsCongruent(a: LedgerReads, b: LedgerReads, root: Felt, nullifiers: seq<Felt>)
    requires Agree(a, b)
    ensures CheckSpends(a, root, nullifiers) == CheckSpends(b, root, nullifiers)
  {
    assert forall i :: 0 <= i < |nullifiers| ==> a.hasNullifier(nullifiers[i]) == b.hasNullifier(nullifiers[i]);
  }

  lemma CheckTransferCongruent(c: Crypto, a: LedgerReads, b: LedgerReads, req: TransferReq)
    requires Agree(a, b)
    ensures CheckTransfer(c, a, req) == CheckTransfer(c, b, req)
  {
    CheckSpendsCongruent(a, b, req.root, req.nullifiers);
  }

  lemma PrepareUnshieldCongruent(c: Crypto, a: LedgerReads, b: LedgerReads, req: UnshieldReq)
    requires Agree(a, b)
    ensures PrepareUnshield(c, a, req) == PrepareUnshield(c, b, req)
  {
    CheckSpendsCongruent(a, b, req.root, req.nullifiers);
  }

  // ----- What an accepted proof binds

  /** One proof cannot authorise two different shields: the public outputs of an
      accepted proof fix every field of the request but the ciphertexts, which
      they fix up to their hash. */
  lemma ShieldProofBindsRequest(c: Crypto, view: LedgerReads, a: ShieldReq, b: ShieldReq)
    requires PrepareShield(c, view, a).Ok? && PrepareShield(c, view, b).Ok?
    requires a.proof.Stark? && a.proof == b.proof
    ensures a.pubkeyHash == b.pubkeyHash && a.v == b.v && a.fee == b.fee && a.producerFee == b.producerFee
    ensures a.clientCm == b.clientCm && a.producerCm == b.producerCm
    ensures c.memoHash(a.clientEnc) == c.memoHash(b.clientEnc)
    ensures c.memoHash(a.producerEnc) == c.memoHash(b.producerEnc)
  {
    var d := view.authDomain.value;
    ShieldOutputsProven(c, view, a);
    ShieldOutputsProven(c, view, b);
    hide PrepareShield, TransitionPublicOutputs, ShieldOutputs;
    ShieldOutputsBind(c, d, a, b);
  }

  /** An accepted shield's proof has the shield's outputs. */
  lemma ShieldOutputsProven(c: Crypto, view: LedgerReads, req: ShieldReq)
    requires PrepareShield(c, view, req).Ok? && req.proof.Stark?
    ensures view.authDomain.Ok?
    ensures TransitionPublicOutputs(c, req.proof.outputPreimage, 9) == Ok(ShieldOutputs(c, view.authDomain.value, req))
  {
    hide ShieldOutputs, CheckOutputs, TransitionPublicOutputs, NoteCapacity;
  }

  lemma ShieldOutputsBind(c: Crypto, d: Felt, a: ShieldReq, b: ShieldReq)
    requires ShieldOutputs(c, d, a) == ShieldOutputs(c, d, b)
    ensures a.pubkeyHash == b.pubkeyHash && a.v == b.v && a.fee == b.fee && a.producerFee == b.producerFee
    ensures a.clientCm == b.clientCm && a.producerCm == b.producerCm
    ensures c.memoHash(a.clientEnc) == c.memoHash(b.clientEnc)
    ensures c.memoHash(a.producerEnc) == c.memoHash(b.producerEnc)
  {
    hide U64ToFelt;
    var x, y := ShieldOutputs(c, d, a), ShieldOutputs(c, d, b);
    assert x[1] == y[1] && x[2] == y[2] && x[3] == y[3] && x[4] == y[4];
    assert x[5] == y[5] && x[6] == y[6] && x[7] == y[7] && x[8] == y[8];
    U64ToFeltInjective(a.v, b.v);
    U64ToFeltInjective(a.fee, b.fee);
    U64ToFeltInjective(a.producerFee, b.producerFee);
  }

  /** A proof's public outputs are accepted for one length only. */
  lemma OutputLengthIsFixed(c: Crypto, preimage: seq<Felt>, m: nat, n: nat)
    requires TransitionPublicOutputs(c, preimage, m).Ok? && TransitionPublicOutputs(c, preimage, n).Ok?
    ensures m == n
  {
  }

  /** Nor two transfers. */
  lemma TransferProofBindsRequest(c: Crypto, view: LedgerReads, a: TransferReq, b: TransferReq)
    requires CheckTransfer(c, view, a).Pass? && CheckTransfer(c, view, b).Pass?
    requires a.proof.Stark? && a.proof == b.proof
    ensures a.root == b.root && a.nullifiers == b.nullifiers && a.fee == b.fee
    ensures a.cm1 == b.cm1 && a.cm2 == b.cm2 && a.cm3 == b.cm3
    ensures c.memoHash(a.enc1) == c.memoHash(b.enc1) && c.memoHash(a.enc2) == c.memoHash(b.enc2)
    ensures c.memoHash(a.enc3) == c.memoHash(b.enc3)
  {
    var d := view.authDomain.value;
    OutputLengthIsFixed(c, a.proof.outputPreimage, 9 + |a.nullifiers|, 9 + |b.nullifiers|);
    assert TransferOutputs(c, d, a) == TransferOutputs(c, d, b);
    TransferOutputsBind(c, d, a, b);
    hide TransferOutputs, CheckTransfer;
  }

  lemma TransferOutputsBind(c: Crypto, d: Felt, a: TransferReq, b: TransferReq)
    requires TransferOutputs(c, d, a) == TransferOutputs(c, d, b) && |a.nullifiers| == |b.nullifiers|
    ensures a.root == b.root && a.nullifiers == b.nullifiers && a.fee == b.fee
    ensures a.cm1 == b.cm1 && a.cm2 == b.cm2 && a.cm3 == b.cm3
    ensures c.memoHash(a.enc1) == c.memoHash(b.enc1) && c.memoHash(a.enc2) == c.memoHash(b.enc2)
    ensures c.memoHash(a.enc3) == c.memoHash(b.enc3)
  {
    hide U64ToFelt;
    var n, x, y := |a.nullifiers|, TransferOutputs(c, d, a), TransferOutputs(c, d, b);
    assert x[1] == a.root && y[1] == b.root;
    assert x[2..2 + n] == a.nullifiers && y[2..2 + n] == b.nullifiers;
    assert x[2 + n] == U64ToFelt(a.fee) && y[2 + n] == U64ToFelt(b.fee);
    assert x[3 + n] == a.cm1 && x[4 + n] == a.cm2 && x[5 + n] == a.cm3;
    assert y[3 + n] == b.cm1 && y[4 + n] == b.cm2 && y[5 + n] == b.cm3;
    assert x[6 + n] == c.memoHash(a.enc1) && x[7 + n] == c.memoHash(a.enc2) && x[8 + n] == c.memoHash(a.enc3);
    assert y[6 + n] == c.memoHash(b.enc1) && y[7 + n] == c.memoHash(b.enc2) && y[8 + n] == c.memoHash(b.enc3);
    U64ToFeltInjective(a.fee, b.fee);
  }

  /** Nor two unshields: not another recipient or amount, and no other notes. */
  lemma UnshieldProofBindsRequest(c: Crypto, view: LedgerReads, a: UnshieldReq, b: UnshieldReq)
    requires PrepareUnshield(c, view, a).Ok? && PrepareUnshield(c, view, b).Ok?
    requires a.proof.Stark? && a.proof == b.proof
    ensures a.root == b.root && a.nullifiers == b.nullifiers
    ensures a.vPub == b.vPub && a.fee == b.fee && a.cmChange == b.cmChange && a.cmFee == b.cmFee
    ensures c.hash(c.trim(a.recipient)) == c.hash(c.trim(b.recipient))
    ensures c.memoHash(a.encFee) == c.memoHash(b.encFee)
    ensures a.encChange.Some? == b.encChange.Some?
    ensures a.encChange.Some? ==> c.memoHash(a.encChange.value) == c.memoHash(b.encChange.value)
  {
    var d := view.authDomain.value;
    UnshieldOutputsProven(c, view, a);
    UnshieldOutputsProven(c, view, b);
    hide UnshieldOutputs, PrepareUnshield;
    OutputLengthIsFixed(c, a.proof.outputPreimage, 9 + |a.nullifiers|, 9 + |b.nullifiers|);
    hide TransitionPublicOutputs;
    UnshieldOutputsBind(c, d, a, b);
  }

  /** An accepted unshield's proof has the unshield's outputs. */
  lemma UnshieldOutputsProven(c: Crypto, view: LedgerReads, req: UnshieldReq)
    requires PrepareUnshield(c, view, req).Ok? && req.proof.Stark?
    ensures view.authDomain.Ok?
    ensures TransitionPublicOutputs(c, req.proof.outputPreimage, 9 + |req.nullifiers|)
            == Ok(UnshieldOutputs(c, view.authDomain.value, c.trim(req.recipient), req))
    ensures req.cmChange == ZERO <==> req.encChange.None?
  {
    hide UnshieldOutputs, CheckOutputs, TransitionPublicOutputs, NoteCapacity, CheckSpends;
  }

  lemma UnshieldOutputsBind(c: Crypto, d: Felt, a: UnshieldReq, b: UnshieldReq)
    requires UnshieldOutputs(c, d, c.trim(a.recipient), a) == UnshieldOutputs(c, d, c.trim(b.recipient), b)
    requires |a.nullifiers| == |b.nullifiers|
    ensures a.root == b.root && a.nullifiers == b.nullifiers
    ensures a.vPub == b.vPub && a.fee == b.fee && a.cmChange == b.cmChange && a.cmFee == b.cmFee
    ensures c.hash(c.trim(a.recipient)) == c.hash(c.trim(b.recipient))
    ensures c.memoHash(a.encFee) == c.memoHash(b.encFee)
    ensures a.encChange.Some? && b.encChange.Some? ==> c.memoHash(a.encChange.value) == c.memoHash(b.encChange.value)
  {
    hide U64ToFelt;
    var n := |a.nullifiers|;
    var x := UnshieldOutputs(c, d, c.trim(a.recipient), a);
    var y := UnshieldOutputs(c, d, c.trim(b.recipient), b);
    assert x[1] == a.root && y[1] == b.root;
    assert x[2..2 + n] == a.nullifiers && y[2..2 + n] == b.nullifiers;
    assert x[2 + n] == U64ToFelt(a.vPub) && y[2 + n] == U64ToFelt(b.vPub);
    assert x[3 + n] == U64ToFelt(a.fee) && y[3 + n] == U64ToFelt(b.fee);
    assert x[4 + n] == c.hash(c.trim(a.recipient)) && y[4 + n] == c.hash(c.trim(b.recipient));
    assert x[5 + n] == a.cmChange && y[5 + n] == b.cmChange;
    assert a.encChange.Some? ==> x[6 + n] == c.memoHash(a.encChange.value);
    assert b.encChange.Some? ==> y[6 + n] == c.memoHash(b.encChange.value);
    assert x[7 + n] == a.cmFee && y[7 + n] == b.cmFee;
    assert x[8 + n] == c.memoHash(a.encFee) && y[8 + n] == c.memoHash(b.encFee);
    U64ToFeltInjective(a.vPub, b.vPub);
    U64ToFeltInjective(a.fee, b.fee);
  }
}
