/** The kernel's inbox messages on the wire (`core/src/kernel_wire.rs`): proof
    framing, the request payloads, DAL pointers and the envelope. */
module KernelWire {
  import opened Bytes
  import opened CanonicalWire
  import opened KernelState
  import opened Protocol
  import opened WireFields
  import opened Wrappers

  const KERNEL_WIRE_VERSION: u16 := 17
  const MAX_ACCOUNT_ID_BYTES: nat := 1024
  const MAX_PROOF_BYTES: nat := 8 * 1024 * 1024
  const MAX_OUTPUT_PREIMAGE_ITEMS: nat := 1024
  const MAX_DAL_CHUNK_POINTERS: nat := 256
  const MAX_DAL_CHUNK_LIST_BYTES: nat := 64 * 1024
  const MAX_ENCODED_NOTE_WIRE_BYTES: nat := CIPHERTEXT_BYTES * 2 + NONCE_BYTES + ENCRYPTED_NOTE_BYTES
    + OUTGOING_CT_BYTES + 32
  const MAX_ENCODED_PROOF_WIRE_BYTES: nat := MAX_PROOF_BYTES + MAX_OUTPUT_PREIMAGE_ITEMS * 64 + 4096
  const MAX_ENCODED_NULLIFIER_LIST_BYTES: nat := 256 * 1024
  const MAX_TRANSFER_PAYLOAD_BYTES: nat := 5 * 32 + MAX_ENCODED_PROOF_WIRE_BYTES + 3 * MAX_ENCODED_NOTE_WIRE_BYTES
    + 65536
  const MAX_UNSHIELD_PAYLOAD_BYTES: nat := 4 * 32 + MAX_ENCODED_PROOF_WIRE_BYTES + 2 * MAX_ENCODED_NOTE_WIRE_BYTES
    + 65536

  // ----- Proof framing

  function ConcatFelts(felts: seq<Felt>): (bs: Bytes)
    ensures |bs| == FELT_BYTES * |felts|
  {
    if felts == [] then [] else ConcatFelts(felts[..|felts| - 1]) + felts[|felts| - 1]
  }

  function EncodeProof(p: StarkProof): (r: Option<Bytes>)
    ensures r.Some? ==> |r.value| == 8 + |p.proofBytes| + FELT_BYTES * |p.outputPreimage|
    ensures r.Some? <==> |p.proofBytes| <= MAX_PROOF_BYTES && |p.outputPreimage| <= MAX_OUTPUT_PREIMAGE_ITEMS
  {
    if |p.proofBytes| > MAX_PROOF_BYTES || |p.outputPreimage| > MAX_OUTPUT_PREIMAGE_ITEMS then None
    else Some(BeBytes(|p.proofBytes|, 4) + p.proofBytes + BeBytes(|p.outputPreimage|, 4)
      + ConcatFelts(p.outputPreimage))
  }

  /** `kernel_proof_to_wire`. */
  method KernelProofToWire(p: StarkProof) returns (r: Option<Bytes>)
    ensures r == EncodeProof(p)
  {
    if |p.proofBytes| > MAX_PROOF_BYTES {
      return None;
    }
    if |p.outputPreimage| > MAX_OUTPUT_PREIMAGE_ITEMS {
      return None;
    }
    var bytes := BeBytes(|p.proofBytes|, 4) + p.proofBytes + BeBytes(|p.outputPreimage|, 4);
    ghost var header := bytes;
    for i := 0 to |p.outputPreimage|
      invariant bytes == header + ConcatFelts(p.outputPreimage[..i])
    {
      bytes := bytes + p.outputPreimage[i];
      assert p.outputPreimage[..i + 1][..i] == p.outputPreimage[..i];
    }
    assert p.outputPreimage[..|p.outputPreimage|] == p.outputPreimage;
    r := Some(bytes);
  }

  /** `take_bytes`: the head, and the slice advanced past it. */
  method TakeBytes(rest: Bytes, len: nat) returns (r: Option<Bytes>, next: Bytes)
    ensures if len <= |rest| then r == Some(rest[..len]) && next == rest[len..] else r == None && next == rest
  {
    if |rest| < len {
      return None, rest;
    }
    return Some(rest[..len]), rest[len..];
  }

  /** `take_u32_be_len`. */
  method TakeU32BeLen(rest: Bytes) returns (r: Option<nat>, next: Bytes)
    ensures if 4 <= |rest| then r == Some(FromBe(rest[..4])) && next == rest[4..] else r == None && next == rest
  {
    var raw, tail := TakeBytes(rest, 4);
    next := tail;
    r := if raw.Some? then Some(FromBe(raw.value)) else None;
  }

  /** Bytes that are some proof's encoding, seen from the two lengths they declare. */
  predicate DeclaresProof(bs: Bytes)
  {
    && 4 <= |bs|
    && var n := FromBe(bs[..4]);
       && n <= MAX_PROOF_BYTES && 8 + n <= |bs|
       && var k := FromBe(bs[4 + n..8 + n]);
          k <= MAX_OUTPUT_PREIMAGE_ITEMS && |bs| == 8 + n + FELT_BYTES * k
  }

  /** A run of `count` felts. */
  function SplitFelts(bs: Bytes, count: nat): (felts: seq<Felt>)
    requires |bs| == FELT_BYTES * count
    ensures |felts| == count
  {
    if count == 0 then []
    else SplitFelts(bs[..FELT_BYTES * (count - 1)], count - 1) + [bs[FELT_BYTES * (count - 1)..]]
  }

  lemma {:induction false} SplitConcat(felts: seq<Felt>)
    ensures SplitFelts(ConcatFelts(felts), |felts|) == felts
  {
    if felts == [] {
    } else {
      var bs, before := ConcatFelts(felts), felts[..|felts| - 1];
      SplitConcat(before);
      assert bs[..FELT_BYTES * |before|] == ConcatFelts(before);
      assert bs[FELT_BYTES * |before|..] == felts[|felts| - 1];
    }
  }

  lemma {:induction false} ConcatSplit(bs: Bytes, count: nat)
    requires |bs| == FELT_BYTES * count
    ensures ConcatFelts(SplitFelts(bs, count)) == bs
  {
    if count == 0 {
    } else {
      var felts, cut := SplitFelts(bs, count), FELT_BYTES * (count - 1);
      ConcatSplit(bs[..cut], count - 1);
      assert felts[..|felts| - 1] == SplitFelts(bs[..cut], count - 1);
      assert bs == bs[..cut] + bs[cut..];
    }
  }

  function DecodeProof(bs: Bytes): Option<StarkProof>
  {
    if !DeclaresProof(bs) then None
    else
      var n := FromBe(bs[..4]);
      Some(StarkProof(bs[4..4 + n], SplitFelts(bs[8 + n..], FromBe(bs[4 + n..8 + n]))))
  }

  /** `kernel_proof_from_wire`. */
  method KernelProofFromWire(bytes: Bytes) returns (r: Option<StarkProof>)
    ensures r == DecodeProof(bytes)
  {
    hide FromBe;
    var len, rest := TakeU32BeLen(bytes);
    if len.None? || len.value > MAX_PROOF_BYTES {
      return None;
    }
    var proofBytes, afterProof := TakeBytes(rest, len.value);
    if proofBytes.None? {
      return None;
    }
    ghost var n := len.value;
    assert afterProof == bytes[4 + n..] && proofBytes.value == bytes[4..4 + n];
    var count, tail := TakeU32BeLen(afterProof);
    assert |afterProof| >= 4 ==> afterProof[..4] == bytes[4 + n..8 + n] && tail == bytes[8 + n..];
    if count.None? || count.value > MAX_OUTPUT_PREIMAGE_ITEMS {
      return None;
    }
    var preimage := TakeFelts(tail, count.value);
    if preimage.None? {
      return None;
    }
    r := Some(StarkProof(proofBytes.value, preimage.value));
  }

  /** The loop over the output preimage, and the check that nothing is left. */
  method TakeFelts(tail: Bytes, count: nat) returns (r: Option<seq<Felt>>)
    ensures r == if |tail| == FELT_BYTES * count then Some(SplitFelts(tail, count)) else None
  {
    var preimage: seq<Felt> := [];
    var rest := tail;
    for i := 0 to count
      invariant FELT_BYTES * i <= |tail| && rest == tail[FELT_BYTES * i..]
      invariant preimage == SplitFelts(tail[..FELT_BYTES * i], i)
    {
      var felt, next := TakeBytes(rest, FELT_BYTES);
      if felt.None? {
        return None;
      }
      ghost var taken := tail[..FELT_BYTES * (i + 1)];
      assert taken[..FELT_BYTES * i] == tail[..FELT_BYTES * i];
      assert taken[FELT_BYTES * i..] == felt.value;
      rest := next;
      preimage := preimage + [felt.value];
    }
    if rest != [] {
      return None;
    }
    assert tail[..|tail|] == tail;
    r := Some(preimage);
  }

  lemma EncodedProofDecodes(p: StarkProof)
    requires EncodeProof(p).Some?
    ensures DecodeProof(EncodeProof(p).value) == Some(p)
  {
    var bs, n := EncodeProof(p).value, |p.proofBytes|;
    Pow256Values();
    BeRoundTrip(n, 4);
    BeRoundTrip(|p.outputPreimage|, 4);
    SplitConcat(p.outputPreimage);
    hide BeBytes, FromBe, Pow256, SplitFelts, ConcatFelts;
    assert bs[..4] == BeBytes(n, 4);
    assert bs[4..4 + n] == p.proofBytes;
    assert bs[4 + n..8 + n] == BeBytes(|p.outputPreimage|, 4);
    assert bs[8 + n..] == ConcatFelts(p.outputPreimage);
  }

  lemma DecodedProofEncodes(bs: Bytes)
    requires DecodeProof(bs).Some?
    ensures EncodeProof(DecodeProof(bs).value) == Some(bs)
  {
    hide BeBytes, FromBe, Pow256, SplitFelts, ConcatFelts;
    var n := FromBe(bs[..4]);
    BeCanonical(bs[..4]);
    BeCanonical(bs[4 + n..8 + n]);
    ConcatSplit(bs[8 + n..], FromBe(bs[4 + n..8 + n]));
    FourParts(bs, n);
  }

  lemma FourParts(bs: Bytes, n: nat)
    requires 8 + n <= |bs|
    ensures bs == bs[..4] + bs[4..4 + n] + bs[4 + n..8 + n] + bs[8 + n..]
  {
  }

  /** Proof framing is exact: bytes decode to a proof exactly when they are its encoding. */
  lemma ProofFramingIsExact(bs: Bytes, p: StarkProof)
    ensures DecodeProof(bs) == Some(p) <==> EncodeProof(p) == Some(bs)
  {
    hide DecodeProof, EncodeProof;
    if DecodeProof(bs) == Some(p) {
      DecodedProofEncodes(bs);
    }
    if EncodeProof(p) == Some(bs) {
      EncodedProofDecodes(p);
    }
  }

  // ----- Lists inside a length-prefixed field

  const FELT_ITEM: seq<FieldSpec> := [Sized(32)]

  function FeltItems(felts: seq<Felt>): seq<seq<Field>>
  {
    if felts == [] then [] else [[Raw(felts[0])]] + FeltItems(felts[1..])
  }

  /** `wire_to_felt` over a list. */
  function FeltsOfItems(items: seq<seq<Field>>): Option<seq<Felt>>
  {
    if items == [] then Some([])
    else if |items[0]| != 1 || items[0][0].Absent? || |items[0][0].bytes| != FELT_BYTES then None
    else
      match FeltsOfItems(items[1..])
      case None => None
      case Some(others) => Some([items[0][0].bytes] + others)
  }

  lemma {:induction false} FeltItemsAreExact(items: seq<seq<Field>>, felts: seq<Felt>)
    ensures FeltsOfItems(items) == Some(felts) <==> items == FeltItems(felts)
    decreases |items|
  {
    if items == [] || felts == [] {
    } else {
      FeltItemsAreExact(items[1..], felts[1..]);
      assert items == [items[0]] + items[1..] && felts == [felts[0]] + felts[1..];
      if items == FeltItems(felts) {
        assert items[0] == [Raw(felts[0])] && items[1..] == FeltItems(felts[1..]);
      }
      if FeltsOfItems(items) == Some(felts) {
        assert items[0] == [Raw(felts[0])];
        assert ([items[0][0].bytes] + FeltsOfItems(items[1..]).value)[1..] == felts[1..];
      }
    }
  }

  /** `encoded_felt_list_to_wire`. */
  function EncodeFeltList(felts: seq<Felt>): Option<Bytes>
  {
    match EncodeAll(FELT_ITEM, FeltItems(felts))
    case None => None
    case Some(body) => EncodeLimited(U32_LIMIT, body)
  }

  /** `encoded_felt_list_from_wire`. */
  function DecodeFeltList(bs: Bytes): Option<seq<Felt>>
  {
    match ParseLimited(U32_LIMIT, bs)
    case None => None
    case Some(p) =>
      if p.1 != [] then None
      else
        match ParseAll(FELT_ITEM, p.0)
        case None => None
        case Some(items) => FeltsOfItems(items)
  }

  lemma WholeLimitedIsExact(max: nat, bytes: Bytes, bs: Bytes)
    ensures ParseLimited(max, bs) == Some((bytes, [])) <==> EncodeLimited(max, bytes) == Some(bs)
  {
    hide EncodeLimited, ParseLimited;
    LimitedIsExact(max, bytes, bs, []);
    if EncodeLimited(max, bytes).Some? {
      assert EncodeLimited(max, bytes).value + [] == EncodeLimited(max, bytes).value;
    }
  }

  lemma FeltListIsExact(bs: Bytes, felts: seq<Felt>)
    ensures DecodeFeltList(bs) == Some(felts) <==> EncodeFeltList(felts) == Some(bs)
  {
    hide EncodeLimited, ParseLimited, EncodeAll, ParseAll, FeltItems, FeltsOfItems;
    if DecodeFeltList(bs) == Some(felts) {
      var body := ParseLimited(U32_LIMIT, bs).value.0;
      var items := ParseAll(FELT_ITEM, body).value;
      WholeLimitedIsExact(U32_LIMIT, body, bs);
      ListIsExact(FELT_ITEM, items, body);
      FeltItemsAreExact(items, felts);
    }
    if EncodeFeltList(felts) == Some(bs) {
      var items := FeltItems(felts);
      var body := EncodeAll(FELT_ITEM, items).value;
      WholeLimitedIsExact(U32_LIMIT, body, bs);
      ListIsExact(FELT_ITEM, items, body);
      FeltItemsAreExact(items, felts);
    }
  }

  lemma {:induction false} FeltListLength(felts: seq<Felt>)
    requires FELT_BYTES * |felts| < U32_LIMIT
    ensures EncodeAll(FELT_ITEM, FeltItems(felts)).Some?
            && |EncodeAll(FELT_ITEM, FeltItems(felts)).value| == FELT_BYTES * |felts|
    ensures EncodeFeltList(felts).Some? && |EncodeFeltList(felts).value| == 4 + FELT_BYTES * |felts|
    decreases |felts|
  {
    if felts == [] {
    } else {
      FeltListLength(felts[1..]);
      var items := FeltItems(felts);
      assert items[0] == [Raw(felts[0])] && items[1..] == FeltItems(felts[1..]);
      assert EncodeStruct(FELT_ITEM, items[0]) == Some(felts[0]) by {
        assert FELT_ITEM[1..] == [] && items[0][1..] == [];
        assert felts[0] + [] == felts[0];
      }
    }
  }

  // ----- Fields of requests

  function RawFelt(f: Field): Option<Felt>
  {
    if f.Raw? && |f.bytes| == FELT_BYTES then Some(f.bytes) else None
  }

  function RawU64(f: Field): (r: Option<u64>)
    ensures forall v: u64 :: r == Some(v) <==> f == Raw(U64Le(v))
  {
    if f.Raw? && |f.bytes| == 8 then Some(U64FromLe(f.bytes)) else None
  }

  function ToRaw(bytes: Option<Bytes>): Option<Field>
  {
    match bytes
    case None => None
    case Some(b) => Some(Raw(b))
  }

  function RawFelts(f: Field): Option<seq<Felt>>
  {
    if f.Raw? then DecodeFeltList(f.bytes) else None
  }

  function RawProof(f: Field): Option<StarkProof>
  {
    if f.Raw? then DecodeProof(f.bytes) else None
  }

  /** `encoded_note_from_wire`. */
  function RawNote(f: Field): Option<EncryptedNote>
  {
    if f.Absent? then None
    else
      match DecodeNote(f.bytes)
      case Err(_) => None
      case Ok(enc) => Some(enc)
  }

  /** `encoded_note_to_wire`. */
  function NoteField(enc: EncryptedNote): Option<Field>
  {
    match EncodeNote(enc)
    case Err(_) => None
    case Ok(bytes) => Some(Raw(bytes))
  }

  /** A note that may be missing: the outer option is failure, the inner one absence. */
  function RawOptionalNote(f: Field): Option<Option<EncryptedNote>>
  {
    if f.Absent? then Some(None)
    else
      match RawNote(f)
      case None => None
      case Some(enc) => Some(Some(enc))
  }

  function OptionalNoteField(enc: Option<EncryptedNote>): Option<Field>
  {
    match enc
    case None => Some(Absent)
    case Some(e) => NoteField(e)
  }

  /** Text on the wire is UTF-8. */
  function RawText(utf8: Bytes -> bool, f: Field): Option<Text>
  {
    if f.Raw? && utf8(f.bytes) then Some(f.bytes) else None
  }

  function TextField(utf8: Bytes -> bool, text: Text): Option<Field>
  {
    if utf8(text) then Some(Raw(text)) else None
  }

  lemma FieldsAreExact(f: Field, felts: seq<Felt>, proof: StarkProof, enc: EncryptedNote, change: Option<EncryptedNote>)
    ensures RawFelts(f) == Some(felts) <==> ToRaw(EncodeFeltList(felts)) == Some(f)
    ensures RawProof(f) == Some(proof) <==> ToRaw(EncodeProof(proof)) == Some(f)
    ensures RawNote(f) == Some(enc) <==> NoteField(enc) == Some(f)
    ensures RawOptionalNote(f) == Some(change) <==> OptionalNoteField(change) == Some(f)
  {
    hide EncodeNote, DecodeNote, EncodeFeltList, DecodeFeltList, EncodeProof, DecodeProof;
    if f.Raw? {
      FeltListIsExact(f.bytes, felts);
      ProofFramingIsExact(f.bytes, proof);
      NoteCodecIsExact(f.bytes, enc);
      if change.Some? {
        NoteCodecIsExact(f.bytes, change.value);
      }
    }
  }

  // ----- Requests

  datatype WireShield = WireShield(
    pubkeyHash: Felt, fee: u64, v: u64, producerFee: u64, proof: StarkProof,
    clientCm: Felt, clientEnc: EncryptedNote, producerCm: Felt, producerEnc: EncryptedNote)

  datatype WireTransfer = WireTransfer(
    root: Felt, nullifiers: seq<Felt>, fee: u64, cm1: Felt, cm2: Felt, cm3: Felt,
    enc1: EncryptedNote, enc2: EncryptedNote, enc3: EncryptedNote, proof: StarkProof)

  datatype WireUnshield = WireUnshield(
    root: Felt, nullifiers: seq<Felt>, vPub: u64, fee: u64, recipient: Text, cmChange: Felt,
    encChange: Option<EncryptedNote>, cmFee: Felt, encFee: EncryptedNote, proof: StarkProof)

  const SHIELD_SPECS: seq<FieldSpec> := [
    Sized(32), Sized(8), Sized(8), Sized(8), Limited(MAX_ENCODED_PROOF_WIRE_BYTES),
    Sized(32), Sized(NOTE_WIRE_BYTES), Sized(32), Sized(NOTE_WIRE_BYTES)]

  const TRANSFER_SPECS: seq<FieldSpec> := [
    Sized(32), Limited(MAX_ENCODED_NULLIFIER_LIST_BYTES), Sized(8), Sized(32), Sized(32), Sized(32),
    Limited(MAX_ENCODED_PROOF_WIRE_BYTES),
    Limited(MAX_ENCODED_NOTE_WIRE_BYTES), Limited(MAX_ENCODED_NOTE_WIRE_BYTES), Limited(MAX_ENCODED_NOTE_WIRE_BYTES)]

  const UNSHIELD_SPECS: seq<FieldSpec> := [
    Sized(32), Limited(MAX_ENCODED_NULLIFIER_LIST_BYTES), Sized(8), Sized(8), Limited(MAX_ACCOUNT_ID_BYTES), Sized(32),
    Limited(MAX_ENCODED_PROOF_WIRE_BYTES), Optional(MAX_ENCODED_NOTE_WIRE_BYTES), Sized(32),
    Limited(MAX_ENCODED_NOTE_WIRE_BYTES)]

  function ShieldToFields(r: WireShield): Option<seq<Field>>
  {
    var proof, client, producer := ToRaw(EncodeProof(r.proof)), NoteField(r.clientEnc), NoteField(r.producerEnc);
    if proof.None? || client.None? || producer.None? then None
    else Some([Raw(r.pubkeyHash), Raw(U64Le(r.fee)), Raw(U64Le(r.v)), Raw(U64Le(r.producerFee)), proof.value,
               Raw(r.clientCm), client.value, Raw(r.producerCm), producer.value])
  }

  function ShieldFromFields(f: seq<Field>): Option<WireShield>
  {
    if |f| != 9 then None
    else
      var (key, fee, v, producerFee, proof) := (RawFelt(f[0]), RawU64(f[1]), RawU64(f[2]), RawU64(f[3]),
          RawProof(f[4]));
      var (clientCm, client, producerCm, producer) := (RawFelt(f[5]), RawNote(f[6]), RawFelt(f[7]), RawNote(f[8]));
      if key.None? || fee.None? || v.None? || producerFee.None? || proof.None?
         || clientCm.None? || client.None? || producerCm.None? || producer.None? then None
      else Some(WireShield(key.value, fee.value, v.value, producerFee.value, proof.value,
                           clientCm.value, client.value, producerCm.value, producer.value))
  }

  lemma ShieldFieldsAreExact(f: seq<Field>, r: WireShield)
    ensures ShieldFromFields(f) == Some(r) <==> ShieldToFields(r) == Some(f)
  {
    hide EncodeProof, RawProof, RawNote, NoteField, U64Le, ToRaw, RawOptionalNote, OptionalNoteField, RawFelts;
    if |f| == 9 {
      FieldsAreExact(f[4], [], r.proof, r.clientEnc, None);
      FieldsAreExact(f[6], [], r.proof, r.clientEnc, None);
      FieldsAreExact(f[8], [], r.proof, r.producerEnc, None);
      assert f == [f[0], f[1], f[2], f[3], f[4], f[5], f[6], f[7], f[8]];
    }
  }

  /** `kernel_transfer_req_to_wire`, as the fields it writes end to end. */
  function TransferToFields(r: WireTransfer): Option<seq<Field>>
  {
    var nullifiers, proof := ToRaw(EncodeFeltList(r.nullifiers)), ToRaw(EncodeProof(r.proof));
    var (n1, n2, n3) := (NoteField(r.enc1), NoteField(r.enc2), NoteField(r.enc3));
    if nullifiers.None? || proof.None? || n1.None? || n2.None? || n3.None? then None
    else Some([Raw(r.root), nullifiers.value, Raw(U64Le(r.fee)), Raw(r.cm1), Raw(r.cm2), Raw(r.cm3), proof.value,
               n1.value, n2.value, n3.value])
  }

  /** `kernel_transfer_req_from_wire`, from the parsed fields on. */
  function TransferFromFields(f: seq<Field>): Option<WireTransfer>
  {
    if |f| != 10 then None
    else
      var (root, nullifiers, fee, proof) := (RawFelt(f[0]), RawFelts(f[1]), RawU64(f[2]), RawProof(f[6]));
      var (cm1, cm2, cm3) := (RawFelt(f[3]), RawFelt(f[4]), RawFelt(f[5]));
      var (n1, n2, n3) := (RawNote(f[7]), RawNote(f[8]), RawNote(f[9]));
      if root.None? || nullifiers.None? || fee.None? || cm1.None? || cm2.None? || cm3.None? || proof.None?
         || n1.None? || n2.None? || n3.None? then None
      else Some(WireTransfer(root.value, nullifiers.value, fee.value, cm1.value, cm2.value, cm3.value,
                             n1.value, n2.value, n3.value, proof.value))
  }

  lemma TransferFieldsAreExact(f: seq<Field>, r: WireTransfer)
    ensures TransferFromFields(f) == Some(r) <==> TransferToFields(r) == Some(f)
  {
    hide EncodeProof, EncodeFeltList, RawProof, RawNote, RawFelts, NoteField, U64Le, ToRaw, RawOptionalNote,
         OptionalNoteField;
    if |f| == 10 {
      FieldsAreExact(f[1], r.nullifiers, r.proof, r.enc1, None);
      FieldsAreExact(f[6], [], r.proof, r.enc1, None);
      FieldsAreExact(f[7], [], r.proof, r.enc1, None);
      FieldsAreExact(f[8], [], r.proof, r.enc2, None);
      FieldsAreExact(f[9], [], r.proof, r.enc3, None);
      assert f == [f[0], f[1], f[2], f[3], f[4], f[5], f[6], f[7], f[8], f[9]];
    }
  }

  /** `kernel_unshield_req_to_wire`. */
  function UnshieldToFields(utf8: Bytes -> bool, r: WireUnshield): Option<seq<Field>>
  {
    var nullifiers, proof := ToRaw(EncodeFeltList(r.nullifiers)), ToRaw(EncodeProof(r.proof));
    var (recipient, change, fee) := (TextField(utf8, r.recipient), OptionalNoteField(r.encChange), NoteField(r.encFee));
    if nullifiers.None? || proof.None? || recipient.None? || change.None? || fee.None? then None
    else Some([Raw(r.root), nullifiers.value, Raw(U64Le(r.vPub)), Raw(U64Le(r.fee)), recipient.value, Raw(r.cmChange),
               proof.value, change.value, Raw(r.cmFee), fee.value])
  }

  /** `kernel_unshield_req_from_wire`. */
  function UnshieldFromFields(utf8: Bytes -> bool, f: seq<Field>): Option<WireUnshield>
  {
    if |f| != 10 then None
    else
      var (root, nullifiers, vPub, fee, recipient) := (RawFelt(f[0]), RawFelts(f[1]), RawU64(f[2]), RawU64(f[3]),
          RawText(utf8, f[4]));
      var (cmChange, proof, change, cmFee, feeNote) := (RawFelt(f[5]), RawProof(f[6]), RawOptionalNote(f[7]),
          RawFelt(f[8]), RawNote(f[9]));
      if root.None? || nullifiers.None? || vPub.None? || fee.None? || recipient.None?
         || cmChange.None? || proof.None? || change.None? || cmFee.None? || feeNote.None? then None
      else Some(WireUnshield(root.value, nullifiers.value, vPub.value, fee.value, recipient.value, cmChange.value,
                             change.value, cmFee.value, feeNote.value, proof.value))
  }

  lemma UnshieldFieldsAreExact(utf8: Bytes -> bool, f: seq<Field>, r: WireUnshield)
    ensures UnshieldFromFields(utf8, f) == Some(r) <==> UnshieldToFields(utf8, r) == Some(f)
  {
    hide EncodeProof, EncodeFeltList, RawProof, RawNote, RawFelts, NoteField, U64Le, ToRaw, RawOptionalNote,
         OptionalNoteField;
    if |f| == 10 {
      FieldsAreExact(f[1], r.nullifiers, r.proof, r.encFee, None);
      FieldsAreExact(f[6], [], r.proof, r.encFee, None);
      FieldsAreExact(f[7], [], r.proof, r.encFee, r.encChange);
      FieldsAreExact(f[9], [], r.proof, r.encFee, None);
      assert f == [f[0], f[1], f[2], f[3], f[4], f[5], f[6], f[7], f[8], f[9]];
    }
  }
}
