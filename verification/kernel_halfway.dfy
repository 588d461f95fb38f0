/** A transfer that is rejected and still changes the ledger: a run of the kernel
    on a 32-bit host, whatever the hashes are. */
module KernelHalfway {
  import opened Bytes
  import opened CanonicalWire
  import opened KernelHistory
  import opened KernelLaws
  import opened KernelRuns
  import opened KernelState
  import opened KernelStore
  import opened KernelUpdates
  import opened Merkle
  import opened PlainTransfers
  import opened Protocol
  import opened Wrappers

  const USIZE_MAX_32: nat := 0xFFFF_FFFF

  /** Three notes each, and the next index is 2^32 - 1, the last that fits. */
  const CROWDING_TRANSFERS: u64 := 0x5555_5555

  function Ones(n: nat): (bs: Bytes)
    ensures |bs| == n && forall i :: 0 <= i < n ==> bs[i] == 1
  {
    seq(n, _ => 1)
  }

  const DOMAIN: Felt := Ones(FELT_BYTES)

  /** A 32-bit host with these hashes. */
  function Crypto32(node: NodeHash, hash: Bytes -> Felt, memoHash: EncryptedNote -> Felt): Crypto
  {
    Crypto(DEPTH, USIZE_MAX_32, node, hash, memoHash, (t: Text) => t, (bs: Bytes) => true, (t: Text) => false)
  }

  function TheConfig(): VerifierConfig
  {
    VerifierConfig.VerifierConfig(DOMAIN, ZERO, ZERO, ZERO)
  }

  /** The `n`-th transfer, under the root of the empty tree, ... */
  function NthTransfer(c: Crypto, n: u64, proof: Proof): TransferReq
  {
    PlainTransfer(Root(c.node, c.depth, []), n, TOP_FEE, ZERO, proof)
  }

  /** ... and a proof of it. */
  function NthProof(c: Crypto, n: u64): StarkProof
  {
    StarkProof([], TransferOutputs(c, DOMAIN, NthTransfer(c, n, TrustMeBro)))
  }

  function NthMessage(c: Crypto, n: u64): KernelMessage
  {
    Transfer(NthProof(c, n), NthTransfer(c, n, TrustMeBro))
  }

  /** A framing with two kinds of message: an empty payload configures the
      verifier, and eight bytes are the number of a transfer. */
  function ParsePlain(c: Crypto, payload: Bytes): Parsed
  {
    if payload == [] then Kernel(ConfigureVerifier(TheConfig(), []))
    else if |payload| == 8 then Kernel(NthMessage(c, U64FromLe(payload)))
    else Malformed
  }

  function World32(c: Crypto): World
  {
    World.World(
      c, ZERO, (payload: Bytes) => ParsePlain(c, payload), (bs: Bytes) => None, (t: Text) => None, (t: Text) => false,
      (config: VerifierConfig, signature: seq<Felt>) => true, (t: Text, signature: seq<Felt>) => false,
      (config: VerifierConfig) => true, (config: VerifierConfig, proof: StarkProof, circuit: Circuit) => true,
      (t: Text, record: Withdrawal) => None, (result: KernelResult) => None)
  }

  /** The configuration and the first `n` transfers; level, id and host answers
      are those of any one input. */
  function Inbox(like: Input, n: u64): seq<Input>
  {
    if n == 0 then [like.(payload := [])] else Inbox(like, n - 1) + [NthInput(like, n - 1)]
  }

  function NthInput(like: Input, n: u64): Input
  {
    like.(payload := U64Le(n))
  }

  /** What the ledger holds once `n` transfers were applied. */
  ghost predicate Holds(c: Crypto, n: nat, l: Ledger)
  {
    && |l.notes| == 3 * n && l.authDomain == DOMAIN && l.verifier == Some(TheConfig())
    && Root(c.node, c.depth, []) in l.roots
    && forall k: u64 :: U64ToFelt(k) in l.nullifiers ==> k < n
  }

  lemma ItsOutputsMatch(c: Crypto, n: u64)
    ensures var proof := NthProof(c, n).ToHost();
            CheckOutputs(c, proof, TransferOutputs(c, DOMAIN, NthTransfer(c, n, proof))).Pass?
  {
    var outputs := TransferOutputs(c, DOMAIN, NthTransfer(c, n, TrustMeBro));
    assert outputs == TransferOutputs(c, DOMAIN, NthTransfer(c, n, NthProof(c, n).ToHost()));
    assert outputs[0] == DOMAIN;
    assert DOMAIN[8..][0] == 1;
    assert ParseSingleTask(c, outputs) == None;
  }

  /** The request the ledger rules get to see. */
  function NthHost(c: Crypto, n: u64): TransferReq
  {
    NthTransfer(c, n, NthProof(c, n).ToHost())
  }

  /** The next transfer passes every check while there is room in the tree. */
  lemma ItsChecksPass(c: Crypto, n: u64, l: Ledger, level: i32)
    requires Holds(c, n, l) && 3 * n + 3 <= Pow2(c.depth)
    ensures CheckTransfer(c, ReadsOf(l, level), NthHost(c, n)).Pass?
  {
    ItsOutputsMatch(c, n);
    TopFeeIsEnough(AcceptedInLevel(l, level));
    hide CheckOutputs, TransferOutputs, RequiredTxFee, U64ToFelt, Pow2, Root, CheckTransfer;
    var view, proof := ReadsOf(l, level), NthProof(c, n).ToHost();
    PlainTransferPasses(c, view, Root(c.node, c.depth, []), n, TOP_FEE, ZERO, proof);
  }

  lemma ItIsTransferReply(c: Crypto, n: u64, l: Ledger, level: i32)
    requires l.verifier.Some?
    ensures ApplyTransfer(World32(c), l, level, NthProof(c, n), NthTransfer(c, n, TrustMeBro))
            == TransferReply(World32(c), l, level, NthHost(c, n))
  {
    hide TransferReply, NthProof;
    assert CheckProof(World32(c), l, NthProof(c, n), TransferCircuit).Pass?;
  }

  /** Applied while its indices fit: three more notes, one more nullifier, the rest kept. */
  lemma NextReply(c: Crypto, n: u64, l: Ledger, level: i32)
    requires Holds(c, n, l) && 3 * n + 2 <= c.usizeMax && 3 * n + 3 <= Pow2(c.depth)
    ensures var r := TransferReply(World32(c), l, level, NthHost(c, n));
            && r.result.Transferred? && |r.ledger.notes| == |l.notes| + 3
            && r.ledger.nullifiers == l.nullifiers + [U64ToFelt(n)]
            && r.ledger.authDomain == l.authDomain && r.ledger.verifier == l.verifier
            && forall root :: root in l.roots ==> root in r.ledger.roots
  {
    var w, req := World32(c), NthHost(c, n);
    var notes := TransferNotes(req);
    assert req.nullifiers == [U64ToFelt(n)];
    ItsChecksPass(c, n, l, level);
    hide CheckTransfer, TreeRootOf, NthHost, Root, U64ToFelt, TransferNotes, Pow2, World32, TheConfig, RequiredTxFee;
    AppendThree(w, l, notes[0], notes[1], notes[2]);
    assert notes == [notes[0], notes[1], notes[2]];
    AppendsKeepRest(w, l, notes);
    hide AppendFallible;
  }

  lemma NextHolds(c: Crypto, n: u64, l: Ledger, level: i32)
    requires Holds(c, n, l) && n + 1 < U64_LIMIT && 3 * n + 2 <= c.usizeMax && 3 * n + 3 <= Pow2(c.depth)
    ensures var r := TransferReply(World32(c), l, level, NthHost(c, n));
            r.result.Transferred? && Holds(c, n + 1, r.ledger)
  {
    hide TransferReply, NthHost, World32, U64ToFelt, TheConfig, Root, Pow2;
    NextReply(c, n, l, level);
    NumbersBelow(l.nullifiers, n);
  }

  lemma NumbersBelow(nullifiers: seq<Felt>, n: u64)
    requires forall k: u64 :: U64ToFelt(k) in nullifiers ==> k < n
    ensures forall k: u64 :: U64ToFelt(k) in nullifiers + [U64ToFelt(n)] ==> k < n + 1
  {
    hide U64ToFelt;
    forall k: u64 | U64ToFelt(k) in nullifiers + [U64ToFelt(n)]
      ensures k < n + 1
    {
      if U64ToFelt(k) !in nullifiers {
        U64ToFeltInjective(k, n);
      }
    }
  }

  /** Stopped halfway where they do not. */
  lemma NextStops(c: Crypto, n: u64, l: Ledger, input: Input)
    requires Holds(c, n, l) && 3 * n + 2 > c.usizeMax && 3 * n + 3 <= Pow2(c.depth)
    ensures var r := ApplyKernel(World32(c), l, input, NthMessage(c, n));
            && r.result == Error(IndexDoesNotFit) && r.effect == Nothing
            && l.notes < r.ledger.notes && |r.ledger.notes| >= c.usizeMax + 2
  {
    var w, message := World32(c), NthMessage(c, n);
    ItsChecksPass(c, n, l, input.level);
    assert StopsHalfway(w, l, input.level, message) by {
      hide CheckTransfer, NthProof, PlainTransfer;
      assert CheckProof(w, l, NthProof(c, n), TransferCircuit).Pass?;
    }
    hide ApplyKernel, StopsHalfway, NthMessage, Follows;
    assert Dispatched(w, input, message) == message;
    RejectionIsAtomicExactly(w, l, input, message);
  }

  // ----- The run

  lemma ItParses(c: Crypto, n: u64)
    ensures World32(c).parse(U64Le(n)) == Kernel(NthMessage(c, n))
  {
    U64RoundTrip(n);
  }

  lemma U64RoundTrip(n: u64)
    ensures U64FromLe(U64Le(n)) == n
  {
  }

  /** One transfer of the run, once the ledger is there. */
  lemma StepNth(c: Crypto, like: Input, n: u64, s: KState)
    requires s.ledger.Some?
    ensures var (l, input) := (s.ledger.value, NthInput(like, n));
            var r := ApplyKernel(World32(c), l, input, NthMessage(c, n));
            ReplyBehind(World32(c), s, input) == r && Step(World32(c), s, input).ledger == Some(r.ledger)
  {
    ItParses(c, n);
    hide ApplyKernel, NthMessage, LogInput, U64Le;
  }

  lemma ReachedNext(c: Crypto, like: Input, n: u64)
    requires n > 0
    ensures Reached(World32(c), Inbox(like, n))
            == Step(World32(c), Reached(World32(c), Inbox(like, n - 1)), NthInput(like, n - 1))
  {
    hide Step, World32;
    var inputs := Inbox(like, n);
    assert inputs[..|inputs| - 1] == Inbox(like, n - 1);
  }

  lemma Configured0(c: Crypto, like: Input)
    ensures var s := Reached(World32(c), Inbox(like, 0));
            s.ledger.Some? && Holds(c, 0, s.ledger.value)
  {
    var w, first := World32(c), like.(payload := []);
    var inputs := Inbox(like, 0);
    assert inputs == [first] && inputs[..0] == [];
    assert Reached(w, inputs[..0]) == EmptyState();
    assert Reached(w, Inbox(like, 0)) == Step(w, EmptyState(), first);
    assert w.parse(first.payload) == Kernel(ConfigureVerifier(TheConfig(), []));
    assert Commitments([]) == [];
    hide Root, LogInput;
  }

  lemma AppliesTransfer(c: Crypto, n: u64, l: Ledger, input: Input)
    requires Holds(c, n, l)
    ensures ApplyKernel(World32(c), l, input, NthMessage(c, n))
            == TransferReply(World32(c), l, input.level, NthHost(c, n))
  {
    ItIsTransferReply(c, n, l, input.level);
    hide TransferReply, NthProof, ApplyTransfer, NthHost, NthTransfer;
  }

  lemma StepApplies(c: Crypto, like: Input, n: u64, s: KState)
    requires s.ledger.Some? && Holds(c, n, s.ledger.value)
    requires n + 1 < U64_LIMIT && 3 * n + 2 <= c.usizeMax && 3 * n + 3 <= Pow2(c.depth)
    ensures var after := Step(World32(c), s, NthInput(like, n));
            after.ledger.Some? && Holds(c, n + 1, after.ledger.value)
  {
    hide Holds, World32, Step, ApplyKernel, TransferReply, NthHost, NthMessage, Pow2;
    StepNth(c, like, n, s);
    AppliesTransfer(c, n, s.ledger.value, NthInput(like, n));
    NextHolds(c, n, s.ledger.value, like.level);
  }

  /** While their notes' indices fit, every transfer is applied. */
  lemma {:induction false} TransfersApplied(c: Crypto, like: Input, n: u64)
    requires 3 * n < c.usizeMax + 2 && c.usizeMax < Pow2(c.depth)
    ensures var s := Reached(World32(c), Inbox(like, n));
            s.ledger.Some? && Holds(c, n, s.ledger.value)
    decreases n
  {
    hide Holds, Reached, Inbox, World32, Step;
    if n == 0 {
      Configured0(c, like);
    } else {
      TransfersApplied(c, like, n - 1);
      ReachedNext(c, like, n);
      hide Pow2;
      StepApplies(c, like, n - 1, Reached(World32(c), Inbox(like, n - 1)));
    }
  }

  /** The law of atomicity has a real exception. For every choice of hashes: a
      32-bit host is configured and applies 1431655765 transfers; the next one
      passes every check, is rejected, and leaves some of its notes in the tree,
      which then no longer holds just the accepted messages' notes. */
  lemma RejectedButWritten(node: NodeHash, hash: Bytes -> Felt, memoHash: EncryptedNote -> Felt, like: Input)
    ensures var w := World32(Crypto32(node, hash, memoHash));
            var s, last := Reached(w, Inbox(like, CROWDING_TRANSFERS)), NthInput(like, CROWDING_TRANSFERS);
            var after := Step(w, s, last);
            && Sane(w) && s.ledger.Some? && |s.ledger.value.notes| == USIZE_MAX_32
            && ReplyBehind(w, s, last).result == Error(IndexDoesNotFit)
            && after.ledger.Some? && s.ledger.value.notes < after.ledger.value.notes
            && after.ledger.value.notes != AllNotes(Journal(w, Inbox(like, CROWDING_TRANSFERS) + [last]))
  {
    var c, n: u64 := Crypto32(node, hash, memoHash), CROWDING_TRANSFERS;
    Narrow(node, hash, memoHash);
    hide Holds, Reached, Inbox, ApplyKernel, Step, Pow2, NthMessage, Journal, AllNotes, Crypto32, ReplyBehind;
    TransfersApplied(c, like, n);
    StopsAfter(c, like, n);
  }

  lemma Narrow(node: NodeHash, hash: Bytes -> Felt, memoHash: EncryptedNote -> Felt)
    ensures var c := Crypto32(node, hash, memoHash);
            c.usizeMax == USIZE_MAX_32 && c.usizeMax + 4 <= Pow2(c.depth) && Sane(World32(c))
  {
    Pow2Of48();
  }

  lemma StopsAfter(c: Crypto, like: Input, n: u64)
    requires var s := Reached(World32(c), Inbox(like, n)); s.ledger.Some? && Holds(c, n, s.ledger.value)
    requires 3 * n + 2 > c.usizeMax && 3 * n + 3 <= Pow2(c.depth)
    ensures var w, s, last := World32(c), Reached(World32(c), Inbox(like, n)), NthInput(like, n);
            var after := Step(w, s, last);
            && |s.ledger.value.notes| == 3 * n && ReplyBehind(w, s, last).result == Error(IndexDoesNotFit)
            && after.ledger.Some? && s.ledger.value.notes < after.ledger.value.notes
            && after.ledger.value.notes != AllNotes(Journal(w, Inbox(like, n) + [last]))
  {
    var w, s, last := World32(c), Reached(World32(c), Inbox(like, n)), NthInput(like, n);
    var all := Inbox(like, n) + [last];
    assert all[..|all| - 1] == Inbox(like, n);
    assert Reached(w, all) == Step(w, s, last);
    hide Reached, World32, ApplyKernel, Step, Journal, AllNotes, NthMessage, Inbox, ReplyBehind;
    StepNth(c, like, n, s);
    NextStops(c, n, s.ledger.value, last);
    TreeIsWhatWasAccepted(w, all);
  }
}
