/** The plainest transfer there is, to show what particular runs do: one
    nullifier numbered `n`, one commitment three times, empty ciphertexts. */
module PlainTransfers {
  import opened Bytes
  import opened CanonicalWire
  import opened Merkle
  import opened Protocol

  /** The highest fee a level can ask: 64 times the minimum. */
  const TOP_FEE: u64 := 6_400_000

  function BlankNote(): (enc: EncryptedNote)
    ensures enc.Valid()
  {
    EncryptedNote(Zeros(CIPHERTEXT_BYTES), 0, Zeros(CIPHERTEXT_BYTES), Zeros(NONCE_BYTES),
                  Zeros(ENCRYPTED_NOTE_BYTES), Zeros(OUTGOING_CT_BYTES))
  }

  function PlainTransfer(root: Felt, n: u64, fee: u64, cm: Felt, proof: Proof): TransferReq
  {
    TransferReq(root, [U64ToFelt(n)], fee, cm, cm, cm, BlankNote(), BlankNote(), BlankNote(), proof)
  }

  lemma TopFeeIsEnough(accepted: nat)
    ensures RequiredTxFee(accepted) <= TOP_FEE
  {
    assert Pow2(3) == 8 && Pow2(6) == 64;
    var over := if accepted >= 1 then accepted - 1 else 0;
    Pow2Monotone(if over < 6 then over else 6, 6);
  }

  /** Two transactions a level go at the minimum, the third costs twice that. */
  lemma FirstFees()
    ensures RequiredTxFee(0) == MIN_TX_FEE && RequiredTxFee(1) == MIN_TX_FEE && RequiredTxFee(2) == 2 * MIN_TX_FEE
  {
    assert Pow2(0) == 1 && Pow2(1) == 2;
  }

  /** A plain transfer passes under a valid root, with an unspent nullifier, for
      the required fee, while there is room for its notes. */
  lemma PlainTransferPasses(c: Crypto, view: LedgerReads, root: Felt, n: u64, fee: u64, cm: Felt, proof: Proof)
    requires view.requiredFee.Ok? && fee >= view.requiredFee.value
    requires view.hasRoot(root) && !view.hasNullifier(U64ToFelt(n))
    requires view.noteCount.Ok? && view.noteCount.value + 3 <= Pow2(c.depth)
    requires ProofDomain(view, proof).Ok?
    requires CheckOutputs(c, proof,
             TransferOutputs(c, ProofDomain(view, proof).value, PlainTransfer(root, n, fee, cm, proof))).Pass?
    ensures CheckTransfer(c, view, PlainTransfer(root, n, fee, cm, proof)).Pass?
  {
    hide CheckOutputs, TransferOutputs, U64ToFelt, BlankNote;
    assert CheckSpends(view, root, [U64ToFelt(n)]).Pass?;
  }
}
