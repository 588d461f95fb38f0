/** The locations of the kernel's durable store. */
module Paths {
  import opened Bytes

  datatype Path =
    | RawInputCount | RawInputBytes
    | LastInputLevel | LastInputId | LastInputLen | LastInputPayload | LastResult
    | FeeLevel | FeeCount
    | AuthDomain | Ticketer | VerifierConfig
    | TreeSize | TreeRoot | Branch(level: nat)
    | NoteBody(index: nat) | NoteLen(index: nat) | NoteChunk(index: nat, chunk: nat)
    | NullifierCount | Nullifier(key: Felt) | NullifierAt(index: nat)
    | RootCount | RootMarker(key: Felt) | RootAt(index: nat)
    | WithdrawalCount | WithdrawalAt(index: nat)
    | Pool(key: Felt)
    | AppliedShield(key: Felt)

  /** The durable store, keyed by location; PathRendering justifies the keys. */
  type Store = map<Path, Bytes>
}
