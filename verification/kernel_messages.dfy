/** The inbox envelope: every kernel message as bytes, and back. */
module KernelMessages {
  import opened Bytes
  import opened CanonicalWire
  import opened KernelState
  import opened KernelStore
  import opened KernelWire
  import opened Protocol
  import opened WireFields
  import opened Wrappers
  import Dal

  // ----- Whole payloads

  function EncodeWhole(specs: seq<FieldSpec>, fields: Option<seq<Field>>): Option<Bytes>
  {
    match fields
    case None => None
    case Some(f) => EncodeStruct(specs, f)
  }

  function ParseWhole(specs: seq<FieldSpec>, bs: Bytes): Option<seq<Field>>
  {
    match ParseStruct(specs, bs)
    case None => None
    case Some(p) => if p.1 != [] then None else Some(p.0)
  }

  lemma WholeIsExact(specs: seq<FieldSpec>, fields: seq<Field>, bs: Bytes)
    ensures ParseWhole(specs, bs) == Some(fields) <==> EncodeStruct(specs, fields) == Some(bs)
  {
    hide EncodeStruct, ParseStruct;
    StructIsExact(specs, fields, bs, []);
    if EncodeStruct(specs, fields).Some? {
      assert EncodeStruct(specs, fields).value + [] == EncodeStruct(specs, fields).value;
    }
  }

  /** Nothing can be added to or cut from a whole payload. */
  lemma WholeHasNoExtension(specs: seq<FieldSpec>, bs: Bytes, more: Bytes)
    requires ParseWhole(specs, bs).Some? && ParseWhole(specs, bs + more).Some?
    ensures more == []
  {
    hide EncodeStruct, ParseStruct;
    var fields := ParseWhole(specs, bs).value;
    WholeIsExact(specs, fields, bs);
    StructIsExact(specs, fields, bs + more, more);
  }

  function EncodeTransfer(r: WireTransfer): Option<Bytes>
  {
    EncodeWhole(TRANSFER_SPECS, TransferToFields(r))
  }

  function DecodeTransfer(bs: Bytes): Option<WireTransfer>
  {
    match ParseWhole(TRANSFER_SPECS, bs)
    case None => None
    case Some(f) => TransferFromFields(f)
  }

  lemma TransferPayloadIsExact(bs: Bytes, r: WireTransfer)
    ensures DecodeTransfer(bs) == Some(r) <==> EncodeTransfer(r) == Some(bs)
  {
    hide EncodeStruct, ParseWhole, TransferToFields, TransferFromFields;
    if DecodeTransfer(bs) == Some(r) {
      var f := ParseWhole(TRANSFER_SPECS, bs).value;
      WholeIsExact(TRANSFER_SPECS, f, bs);
      TransferFieldsAreExact(f, r);
    }
    if EncodeTransfer(r) == Some(bs) {
      var f := TransferToFields(r).value;
      WholeIsExact(TRANSFER_SPECS, f, bs);
      TransferFieldsAreExact(f, r);
    }
  }

  function EncodeUnshield(utf8: Bytes -> bool, r: WireUnshield): Option<Bytes>
  {
    EncodeWhole(UNSHIELD_SPECS, UnshieldToFields(utf8, r))
  }

  function DecodeUnshield(utf8: Bytes -> bool, bs: Bytes): Option<WireUnshield>
  {
    match ParseWhole(UNSHIELD_SPECS, bs)
    case None => None
    case Some(f) => UnshieldFromFields(utf8, f)
  }

  lemma UnshieldPayloadIsExact(utf8: Bytes -> bool, bs: Bytes, r: WireUnshield)
    ensures DecodeUnshield(utf8, bs) == Some(r) <==> EncodeUnshield(utf8, r) == Some(bs)
  {
    hide EncodeStruct, ParseWhole, UnshieldToFields, UnshieldFromFields;
    if DecodeUnshield(utf8, bs) == Some(r) {
      var f := ParseWhole(UNSHIELD_SPECS, bs).value;
      WholeIsExact(UNSHIELD_SPECS, f, bs);
      UnshieldFieldsAreExact(utf8, f, r);
    }
    if EncodeUnshield(utf8, r) == Some(bs) {
      var f := UnshieldToFields(utf8, r).value;
      WholeIsExact(UNSHIELD_SPECS, f, bs);
      UnshieldFieldsAreExact(utf8, f, r);
    }
  }

  // ----- Payload builders

  lemma {:induction false} StructExtends(specs: seq<FieldSpec>, fields: seq<Field>, spec: FieldSpec, f: Field)
    requires |specs| == |fields|
    ensures EncodeStruct(specs + [spec], fields + [f]) ==
            if EncodeStruct(specs, fields).Some? && EncodeField(spec, f).Some?
            then Some(EncodeStruct(specs, fields).value + EncodeField(spec, f).value) else None
    decreases |specs|
  {
    hide EncodeField;
    if specs == [] {
      assert (specs + [spec])[1..] == [] && (fields + [f])[1..] == [];
      assert EncodeField(spec, f).Some? ==> EncodeField(spec, f).value + [] == [] + EncodeField(spec, f).value;
    } else {
      assert (specs + [spec])[1..] == specs[1..] + [spec] && (fields + [f])[1..] == fields[1..] + [f];
      StructExtends(specs[1..], fields[1..], spec, f);
      if EncodeStruct(specs, fields).Some? && EncodeField(spec, f).Some? {
        var first, others, last := EncodeField(specs[0], fields[0]).value, EncodeStruct(specs[1..], fields[1..]).value,
            EncodeField(spec, f).value;
        assert first + (others + last) == (first + others) + last;
      }
    }
  }

  /** The buffer of a payload builder, extended field by field. */
  method AppendFields(specs: seq<FieldSpec>, fields: seq<Field>) returns (r: Option<Bytes>)
    requires |specs| == |fields|
    ensures r == EncodeStruct(specs, fields)
  {
    hide EncodeStruct, EncodeField;
    var bytes: Bytes := [];
    EmptyStruct();
    for i := 0 to |specs|
      invariant EncodeStruct(specs[..i], fields[..i]) == Some(bytes)
    {
      StructExtends(specs[..i], fields[..i], specs[i], fields[i]);
      assert specs[..i + 1] == specs[..i] + [specs[i]] && fields[..i + 1] == fields[..i] + [fields[i]];
      var piece := EncodeField(specs[i], fields[i]);
      if piece.None? {
        FailedPrefix(specs, fields, i + 1);
        return None;
      }
      bytes := bytes + piece.value;
    }
    assert specs[..|specs|] == specs && fields[..|fields|] == fields;
    r := Some(bytes);
  }

  lemma EmptyStruct()
    ensures EncodeStruct([], []) == Some([])
  {
  }

  lemma {:induction false} FailedPrefix(specs: seq<FieldSpec>, fields: seq<Field>, i: nat)
    requires |specs| == |fields| && i <= |specs| && EncodeStruct(specs[..i], fields[..i]).None?
    ensures EncodeStruct(specs, fields).None?
    decreases |specs|
  {
    hide EncodeField;
    if i == 0 {
    } else {
      assert specs[..i][1..] == specs[1..][..i - 1] && fields[..i][1..] == fields[1..][..i - 1];
      if EncodeField(specs[0], fields[0]).Some? {
        FailedPrefix(specs[1..], fields[1..], i - 1);
      }
    }
  }

  /** `kernel_transfer_req_to_wire`. */
  method KernelTransferReqToWire(r: WireTransfer) returns (payload: Option<Bytes>)
    ensures payload == EncodeTransfer(r)
  {
    hide EncodeStruct, TransferToFields;
    var fields := TransferToFields(r);
    if fields.None? {
      return None;
    }
    TransferFieldCount(r);
    payload := AppendFields(TRANSFER_SPECS, fields.value);
  }

  lemma TransferFieldCount(r: WireTransfer)
    ensures TransferToFields(r).Some? ==> |TransferToFields(r).value| == |TRANSFER_SPECS|
  {
  }

  // ----- DAL pointers

  const CHUNK_SPECS: seq<FieldSpec> := [Sized(8), Sized(1), Sized(8)]
  const POINTER_SPECS: seq<FieldSpec> := [Sized(1), Limited(MAX_DAL_CHUNK_LIST_BYTES), Sized(32), Sized(8)]

  function KindTag(kind: Dal.PayloadKind): byte
  {
    match kind
    case Shield => 0
    case Transfer => 1
    case Unshield => 2
    case ConfigureVerifier => 3
    case ConfigureBridge => 4
  }

  function KindOfTag(f: Field): (r: Option<Dal.PayloadKind>)
    ensures forall kind :: r == Some(kind) <==> f == Raw([KindTag(kind)])
  {
    if f == Raw([0]) then Some(Dal.Shield)
    else if f == Raw([1]) then Some(Dal.Transfer)
    else if f == Raw([2]) then Some(Dal.Unshield)
    else if f == Raw([3]) then Some(Dal.ConfigureVerifier)
    else if f == Raw([4]) then Some(Dal.ConfigureBridge)
    else None
  }

  function ChunkItems(chunks: seq<Dal.ChunkPointer>): seq<seq<Field>>
  {
    if chunks == [] then []
    else [[Raw(U64Le(chunks[0].publishedLevel)), Raw([chunks[0].slotIndex]), Raw(U64Le(chunks[0].payloadLen))]]
         + ChunkItems(chunks[1..])
  }

  function ChunkOfItem(item: seq<Field>): Option<Dal.ChunkPointer>
  {
    if |item| != 3 then None
    else
      var (level, length) := (RawU64(item[0]), RawU64(item[2]));
      if level.None? || length.None? || item[1].Absent? || |item[1].bytes| != 1 then None
      else Some(Dal.ChunkPointer(level.value, item[1].bytes[0], length.value))
  }

  function ChunksOfItems(items: seq<seq<Field>>): Option<seq<Dal.ChunkPointer>>
  {
    if items == [] then Some([])
    else
      match (ChunkOfItem(items[0]), ChunksOfItems(items[1..]))
      case (Some(first), Some(others)) => Some([first] + others)
      case _ => None
  }

  lemma ChunkItemIsExact(item: seq<Field>, c: Dal.ChunkPointer)
    ensures ChunkOfItem(item) == Some(c)
            <==> item == [Raw(U64Le(c.publishedLevel)), Raw([c.slotIndex]), Raw(U64Le(c.payloadLen))]
  {
    hide U64Le;
    if |item| == 3 {
      assert item == [item[0], item[1], item[2]];
      if item[1].Raw? && |item[1].bytes| == 1 {
        assert item[1].bytes == [item[1].bytes[0]];
      }
    }
  }

  lemma {:induction false} ChunkItemsAreExact(items: seq<seq<Field>>, chunks: seq<Dal.ChunkPointer>)
    ensures ChunksOfItems(items) == Some(chunks) <==> items == ChunkItems(chunks)
    decreases |items|
  {
    hide ChunkOfItem, U64Le;
    if items == [] || chunks == [] {
    } else {
      ChunkItemIsExact(items[0], chunks[0]);
      ChunkItemsAreExact(items[1..], chunks[1..]);
      assert items == [items[0]] + items[1..] && chunks == [chunks[0]] + chunks[1..];
      var all := ChunkItems(chunks);
      assert all[1..] == ChunkItems(chunks[1..]);
      if ChunksOfItems(items) == Some(chunks) {
        var first, others := ChunkOfItem(items[0]).value, ChunksOfItems(items[1..]).value;
        assert ([first] + others)[0] == first && ([first] + others)[1..] == others;
      }
    }
  }

  /** The chunk list: a bounded, length-prefixed list of 17-byte pointers. */
  function EncodeChunks(listLimit: nat, chunks: seq<Dal.ChunkPointer>): Option<Bytes>
  {
    match EncodeAll(CHUNK_SPECS, ChunkItems(chunks))
    case None => None
    case Some(body) => EncodeLimited(listLimit, body)
  }

  function DecodeChunks(listLimit: nat, bs: Bytes): Option<seq<Dal.ChunkPointer>>
  {
    match ParseLimited(listLimit, bs)
    case None => None
    case Some(p) =>
      if p.1 != [] then None
      else
        match ParseAll(CHUNK_SPECS, p.0)
        case None => None
        case Some(items) => ChunksOfItems(items)
  }

  lemma ChunkListIsExact(listLimit: nat, bs: Bytes, chunks: seq<Dal.ChunkPointer>)
    ensures DecodeChunks(listLimit, bs) == Some(chunks) <==> EncodeChunks(listLimit, chunks) == Some(bs)
  {
    hide EncodeLimited, ParseLimited, EncodeAll, ParseAll, ChunkItems, ChunksOfItems;
    if DecodeChunks(listLimit, bs) == Some(chunks) {
      var body := ParseLimited(listLimit, bs).value.0;
      var items := ParseAll(CHUNK_SPECS, body).value;
      WholeLimitedIsExact(listLimit, body, bs);
      ListIsExact(CHUNK_SPECS, items, body);
      ChunkItemsAreExact(items, chunks);
    }
    if EncodeChunks(listLimit, chunks) == Some(bs) {
      var items := ChunkItems(chunks);
      var body := EncodeAll(CHUNK_SPECS, items).value;
      WholeLimitedIsExact(listLimit, body, bs);
      ListIsExact(CHUNK_SPECS, items, body);
      ChunkItemsAreExact(items, chunks);
    }
  }

  /** `kernel_dal_payload_pointer_to_wire`. */
  function PointerToFields(listLimit: nat, p: Dal.PayloadPointer): Option<seq<Field>>
  {
    if p.chunks == [] || |p.chunks| > MAX_DAL_CHUNK_POINTERS then None
    else
      match EncodeChunks(listLimit, p.chunks)
      case None => None
      case Some(list) => Some([Raw([KindTag(p.kind)]), Raw(list), Raw(p.payloadHash), Raw(U64Le(p.payloadLen))])
  }

  /** `kernel_dal_payload_pointer_from_wire`. */
  function PointerFromFields(listLimit: nat, f: seq<Field>): Option<Dal.PayloadPointer>
  {
    if |f| != 4 || f[1].Absent? then None
    else
      var (kind, chunks, hash, length) := (KindOfTag(f[0]), DecodeChunks(listLimit, f[1].bytes), RawFelt(f[2]),
          RawU64(f[3]));
      if kind.None? || chunks.None? || hash.None? || length.None? then None
      else if chunks.value == [] || |chunks.value| > MAX_DAL_CHUNK_POINTERS then None
      else Some(Dal.PayloadPointer(kind.value, chunks.value, length.value, hash.value))
  }

  lemma PointerFieldsAreExact(listLimit: nat, f: seq<Field>, p: Dal.PayloadPointer)
    ensures PointerFromFields(listLimit, f) == Some(p) <==> PointerToFields(listLimit, p) == Some(f)
  {
    hide EncodeChunks, DecodeChunks, U64Le, KindTag;
    if |f| == 4 && f[1].Raw? {
      ChunkListIsExact(listLimit, f[1].bytes, p.chunks);
      assert f == [f[0], f[1], f[2], f[3]];
    }
  }

  // ----- The envelope

  datatype InboxMessage =
    | VerifierMessage(config: VerifierConfig, signature: seq<Felt>)
    | BridgeMessage(ticketer: Text, signature: seq<Felt>)
    | ShieldMessage(shield: WireShield)
    | TransferMessage(transfer: WireTransfer)
    | UnshieldMessage(unshield: WireUnshield)
    | PointerMessage(pointer: Dal.PayloadPointer)

  /** What the format takes from its library: which bytes are text, and the
      byte limit put on a chunk list. */
  datatype Format = Format(utf8: Bytes -> bool, listLimit: nat)

  const VERIFIER_SPECS: seq<FieldSpec> := [Sized(128), Limited(MAX_ENCODED_NULLIFIER_LIST_BYTES)]
  const BRIDGE_SPECS: seq<FieldSpec> := [Limited(MAX_ACCOUNT_ID_BYTES), Limited(MAX_ENCODED_NULLIFIER_LIST_BYTES)]

  function MessageTag(m: InboxMessage): byte
  {
    match m
    case VerifierMessage(_, _) => 0
    case BridgeMessage(_, _) => 1
    case ShieldMessage(_) => 2
    case TransferMessage(_) => 3
    case UnshieldMessage(_) => 4
    case PointerMessage(_) => 6
  }

  function SpecsOfTag(tag: byte): Option<seq<FieldSpec>>
  {
    if tag == 0 then Some(VERIFIER_SPECS)
    else if tag == 1 then Some(BRIDGE_SPECS)
    else if tag == 2 then Some(SHIELD_SPECS)
    else if tag == 3 then Some([Limited(MAX_TRANSFER_PAYLOAD_BYTES)])
    else if tag == 4 then Some([Limited(MAX_UNSHIELD_PAYLOAD_BYTES)])
    else if tag == 6 then Some(POINTER_SPECS)
    else None
  }

  function OneField(bytes: Option<Bytes>): Option<seq<Field>>
  {
    match bytes
    case None => None
    case Some(b) => Some([Raw(b)])
  }

  function MessageToFields(format: Format, m: InboxMessage): Option<seq<Field>>
  {
    match m
    case VerifierMessage(config, signature) =>
      (match EncodeFeltList(signature)
       case None => None
       case Some(list) => Some([Raw(EncodeConfig(config)), Raw(list)]))
    case BridgeMessage(ticketer, signature) =>
      (match EncodeFeltList(signature)
       case None => None
       case Some(list) => if format.utf8(ticketer) then Some([Raw(ticketer), Raw(list)]) else None)
    case ShieldMessage(r) => ShieldToFields(r)
    case TransferMessage(r) => OneField(EncodeTransfer(r))
    case UnshieldMessage(r) => OneField(EncodeUnshield(format.utf8, r))
    case PointerMessage(p) => PointerToFields(format.listLimit, p)
  }

  function ConfigFromFields(f: seq<Field>): Option<InboxMessage>
  {
    if |f| != 2 || f[0].Absent? then None
    else
      var (config, signature) := (DecodeConfig(f[0].bytes), RawFelts(f[1]));
      if config.None? || signature.None? then None else Some(VerifierMessage(config.value, signature.value))
  }

  function BridgeFromFields(format: Format, f: seq<Field>): Option<InboxMessage>
  {
    if |f| != 2 then None
    else
      var (ticketer, signature) := (RawText(format.utf8, f[0]), RawFelts(f[1]));
      if ticketer.None? || signature.None? then None else Some(BridgeMessage(ticketer.value, signature.value))
  }

  function MessageFromFields(format: Format, tag: byte, f: seq<Field>): Option<InboxMessage>
  {
    if tag == 0 then ConfigFromFields(f)
    else if tag == 1 then BridgeFromFields(format, f)
    else if tag == 2 then
      (match ShieldFromFields(f) case None => None case Some(r) => Some(ShieldMessage(r)))
    else if tag == 3 then
      (if |f| != 1 || f[0].Absent? then None
       else match DecodeTransfer(f[0].bytes) case None => None case Some(r) => Some(TransferMessage(r)))
    else if tag == 4 then
      (if |f| != 1 || f[0].Absent? then None
       else match DecodeUnshield(format.utf8, f[0].bytes) case None => None case Some(r) => Some(UnshieldMessage(r)))
    else if tag == 6 then
      (match PointerFromFields(format.listLimit, f) case None => None case Some(p) => Some(PointerMessage(p)))
    else None
  }

  lemma ConfigFieldsAreExact(f: seq<Field>, config: VerifierConfig, signature: seq<Felt>)
    ensures ConfigFromFields(f) == Some(VerifierMessage(config, signature)) <==>
            EncodeFeltList(signature).Some? && f == [Raw(EncodeConfig(config)), Raw(EncodeFeltList(signature).value)]
  {
    hide EncodeFeltList, RawFelts, DecodeConfig, EncodeConfig, EncodeProof, RawProof, RawNote, NoteField,
         RawOptionalNote, OptionalNoteField;
    ConfigRoundTrip(config);
    if |f| == 2 && f[0].Raw? {
      FieldsAreExact(f[1], signature, StarkProof([], []), EncryptedNote([], 0, [], [], [], []), None);
      ConfigBytesBack(f[0].bytes);
      assert f == [f[0], f[1]];
    }
  }

  lemma ConfigBytesBack(bs: Bytes)
    ensures DecodeConfig(bs).Some? ==> EncodeConfig(DecodeConfig(bs).value) == bs
  {
    if |bs| == 128 {
      assert bs == bs[..32] + bs[32..64] + bs[64..96] + bs[96..];
    }
  }

  lemma BridgeFieldsAreExact(format: Format, f: seq<Field>, ticketer: Text, signature: seq<Felt>)
    ensures BridgeFromFields(format, f) == Some(BridgeMessage(ticketer, signature)) <==>
            EncodeFeltList(signature).Some? && format.utf8(ticketer)
              && f == [Raw(ticketer), Raw(EncodeFeltList(signature).value)]
  {
    hide EncodeFeltList, RawFelts, EncodeProof, RawProof, RawNote, NoteField, RawOptionalNote, OptionalNoteField;
    if |f| == 2 {
      FieldsAreExact(f[1], signature, StarkProof([], []), EncryptedNote([], 0, [], [], [], []), None);
      assert f == [f[0], f[1]];
    }
  }

  lemma MessageFieldsAreExact(format: Format, tag: byte, f: seq<Field>, m: InboxMessage)
    ensures MessageFromFields(format, tag, f) == Some(m)
            <==> tag == MessageTag(m) && MessageToFields(format, m) == Some(f)
  {
    hide EncodeTransfer, DecodeTransfer, EncodeUnshield, DecodeUnshield, ShieldToFields, ShieldFromFields,
         PointerToFields, PointerFromFields, EncodeFeltList, EncodeConfig, ConfigFromFields, BridgeFromFields;
    match m {
      case VerifierMessage(config, signature) => ConfigFieldsAreExact(f, config, signature);
      case BridgeMessage(ticketer, signature) => BridgeFieldsAreExact(format, f, ticketer, signature);
      case ShieldMessage(r) => ShieldFieldsAreExact(f, r);
      case TransferMessage(r) =>
        if |f| == 1 && f[0].Raw? {
          TransferPayloadIsExact(f[0].bytes, r);
          assert f == [f[0]];
        }
      case UnshieldMessage(r) =>
        if |f| == 1 && f[0].Raw? {
          UnshieldPayloadIsExact(format.utf8, f[0].bytes, r);
          assert f == [f[0]];
        }
      case PointerMessage(p) => PointerFieldsAreExact(format.listLimit, f, p);
    }
    TagsSeparate(format, tag, f);
  }

  /** Each tag yields messages of its own kind only. */
  lemma TagsSeparate(format: Format, tag: byte, f: seq<Field>)
    ensures MessageFromFields(format, tag, f).Some? ==> MessageTag(MessageFromFields(format, tag, f).value) == tag
  {
    hide DecodeTransfer, DecodeUnshield, ShieldFromFields, PointerFromFields, RawFelts, DecodeConfig;
  }

  /** `encode_kernel_inbox_message`. */
  function EncodeMessage(format: Format, m: InboxMessage): Option<Bytes>
  {
    match (SpecsOfTag(MessageTag(m)), MessageToFields(format, m))
    case (Some(specs), Some(f)) =>
      (match EncodeStruct(specs, f)
       case None => None
       case Some(payload) => Some(U16Le(KERNEL_WIRE_VERSION) + [MessageTag(m)] + payload))
    case _ => None
  }

  /** `decode_kernel_inbox_message`. */
  function DecodeMessage(format: Format, bs: Bytes): Option<InboxMessage>
  {
    if |bs| < 3 || SpecsOfTag(bs[2]).None? then None
    else
      match ParseWhole(SpecsOfTag(bs[2]).value, bs[3..])
      case None => None
      case Some(f) => if U16FromLe(bs[..2]) != KERNEL_WIRE_VERSION then None else MessageFromFields(format, bs[2], f)
  }

  /** The wire format is exact: bytes decode to a message if and only if they are
      what that message encodes to. So every encodable message survives the
      round trip, no two byte strings mean the same message, and nothing else
      is accepted. */
  lemma MessageCodecIsExact(format: Format, bs: Bytes, m: InboxMessage)
    ensures DecodeMessage(format, bs) == Some(m) <==> EncodeMessage(format, m) == Some(bs)
  {
    hide EncodeStruct, ParseWhole, MessageToFields, MessageFromFields, MessageTag, SpecsOfTag, LeBytes, FromLe;
    if DecodeMessage(format, bs) == Some(m) {
      var specs := SpecsOfTag(bs[2]).value;
      var f := ParseWhole(specs, bs[3..]).value;
      WholeIsExact(specs, f, bs[3..]);
      MessageFieldsAreExact(format, bs[2], f, m);
      assert bs[..2] == U16Le(KERNEL_WIRE_VERSION);
      assert bs == bs[..2] + [bs[2]] + bs[3..];
    }
    if EncodeMessage(format, m) == Some(bs) {
      var specs, f := SpecsOfTag(MessageTag(m)).value, MessageToFields(format, m).value;
      var payload := EncodeStruct(specs, f).value;
      assert bs[..2] == U16Le(KERNEL_WIRE_VERSION) && bs[2] == MessageTag(m) && bs[3..] == payload;
      WholeIsExact(specs, f, payload);
      MessageFieldsAreExact(format, bs[2], f, m);
      VersionReadsBack();
    }
  }

  lemma VersionReadsBack()
    ensures U16FromLe(U16Le(KERNEL_WIRE_VERSION)) == KERNEL_WIRE_VERSION
  {
  }

  /** The accepted byte strings are prefix-free: no strict prefix or extension of
      a message decodes. */
  lemma MessagesArePrefixFree(format: Format, bs: Bytes, more: Bytes)
    requires DecodeMessage(format, bs).Some? && DecodeMessage(format, bs + more).Some?
    ensures more == []
  {
    hide MessageFromFields, ParseWhole, SpecsOfTag, LeBytes, FromLe;
    assert (bs + more)[2] == bs[2] && (bs + more)[3..] == bs[3..] + more;
    WholeHasNoExtension(SpecsOfTag(bs[2]).value, bs[3..], more);
  }

  // ----- What fits

  predicate ProofFits(p: StarkProof)
  {
    |p.proofBytes| <= MAX_PROOF_BYTES && |p.outputPreimage| <= MAX_OUTPUT_PREIMAGE_ITEMS
  }

  /** Every transfer the rules could accept has an encoding within the limits. */
  lemma TransfersFit(format: Format, r: WireTransfer)
    requires ProofFits(r.proof) && |r.nullifiers| <= MAX_NULLIFIERS
    requires r.enc1.Valid() && r.enc2.Valid() && r.enc3.Valid()
    ensures EncodeTransfer(r).Some? && |EncodeTransfer(r).value| <= MAX_TRANSFER_PAYLOAD_BYTES
    ensures EncodeMessage(format, TransferMessage(r)).Some?
  {
    hide EncodeStruct, U64Le, EncodeAll, BeBytes, EncodeLimited, ConcatFelts, EncodeFeltList;
    FeltListLength(r.nullifiers);
    var f := TransferToFields(r).value;
    LengthsOfTen(f);
    StructLength(TRANSFER_SPECS, f);
    OnePieceFits(MAX_TRANSFER_PAYLOAD_BYTES, EncodeTransfer(r).value);
  }

  /** So has every unshield with a recipient of at most 1024 bytes of text. */
  lemma UnshieldsFit(format: Format, r: WireUnshield)
    requires ProofFits(r.proof) && |r.nullifiers| <= MAX_NULLIFIERS
    requires (r.encChange.Some? ==> r.encChange.value.Valid()) && r.encFee.Valid()
    requires format.utf8(r.recipient) && |r.recipient| <= MAX_ACCOUNT_ID_BYTES
    ensures EncodeUnshield(format.utf8, r).Some? && |EncodeUnshield(format.utf8, r).value| <= MAX_UNSHIELD_PAYLOAD_BYTES
    ensures EncodeMessage(format, UnshieldMessage(r)).Some?
  {
    UnshieldPayloadFits(format, r);
    hide EncodeStruct, EncodeUnshield;
    OnePieceFits(MAX_UNSHIELD_PAYLOAD_BYTES, EncodeUnshield(format.utf8, r).value);
  }

  lemma UnshieldPayloadFits(format: Format, r: WireUnshield)
    requires ProofFits(r.proof) && |r.nullifiers| <= MAX_NULLIFIERS
    requires (r.encChange.Some? ==> r.encChange.value.Valid()) && r.encFee.Valid()
    requires format.utf8(r.recipient) && |r.recipient| <= MAX_ACCOUNT_ID_BYTES
    ensures EncodeUnshield(format.utf8, r).Some? && |EncodeUnshield(format.utf8, r).value| <= MAX_UNSHIELD_PAYLOAD_BYTES
  {
    UnshieldFieldsFit(format, r);
    hide EncodeStruct, UnshieldToFields, FieldFits, FieldLength, TotalLength;
    var f := UnshieldToFields(format.utf8, r).value;
    LengthsOfTen(f);
    StructLength(UNSHIELD_SPECS, f);
  }

  lemma UnshieldFieldsFit(format: Format, r: WireUnshield)
    requires ProofFits(r.proof) && |r.nullifiers| <= MAX_NULLIFIERS
    requires (r.encChange.Some? ==> r.encChange.value.Valid()) && r.encFee.Valid()
    requires format.utf8(r.recipient) && |r.recipient| <= MAX_ACCOUNT_ID_BYTES
    ensures UnshieldToFields(format.utf8, r).Some?
    ensures var f := UnshieldToFields(format.utf8, r).value;
            && |f| == 10 && (forall i :: 0 <= i < 10 ==> FieldFits(UNSHIELD_SPECS[i], f[i]))
            && FieldLength(f[0]) + FieldLength(f[1]) + FieldLength(f[2]) + FieldLength(f[3]) + FieldLength(f[4])
               + FieldLength(f[5]) + FieldLength(f[6]) + FieldLength(f[7]) + FieldLength(f[8]) + FieldLength(f[9])
               <= MAX_UNSHIELD_PAYLOAD_BYTES
  {
    hide EncodeStruct, U64Le, EncodeAll, BeBytes, EncodeLimited, ConcatFelts, EncodeFeltList;
    FeltListLength(r.nullifiers);
  }

  /** An upper bound on an encoded field. */
  function FieldLength(f: Field): nat
  {
    if f.Raw? then 5 + |f.bytes| else 1
  }

  function TotalLength(fields: seq<Field>): nat
  {
    if fields == [] then 0 else FieldLength(fields[0]) + TotalLength(fields[1..])
  }

  predicate FieldFits(spec: FieldSpec, f: Field)
  {
    match spec
    case Sized(width) => f.Raw? && |f.bytes| == width
    case Limited(max) => f.Raw? && |f.bytes| <= max && |f.bytes| < U32_LIMIT
    case Optional(max) => f.Raw? ==> |f.bytes| <= max && |f.bytes| < U32_LIMIT
  }

  lemma {:induction false} StructLength(specs: seq<FieldSpec>, fields: seq<Field>)
    requires |specs| == |fields| && forall i :: 0 <= i < |specs| ==> FieldFits(specs[i], fields[i])
    ensures EncodeStruct(specs, fields).Some? && |EncodeStruct(specs, fields).value| <= TotalLength(fields)
    decreases |specs|
  {
    if specs == [] {
    } else {
      assert FieldFits(specs[0], fields[0]);
      StructLength(specs[1..], fields[1..]);
    }
  }

  lemma LengthsOfTen(f: seq<Field>)
    requires |f| == 10
    ensures TotalLength(f)
            == FieldLength(f[0]) + FieldLength(f[1]) + FieldLength(f[2]) + FieldLength(f[3]) + FieldLength(f[4])
               + FieldLength(f[5]) + FieldLength(f[6]) + FieldLength(f[7]) + FieldLength(f[8]) + FieldLength(f[9])
  {
    hide FieldLength;
    forall i | 0 <= i < 10
      ensures TotalLength(f[i..]) == FieldLength(f[i]) + TotalLength(f[i + 1..])
    {
      assert f[i..][1..] == f[i + 1..];
    }
    assert f[0..] == f && f[10..] == [];
  }

  lemma OnePieceFits(max: nat, payload: Bytes)
    requires |payload| <= max < U32_LIMIT
    ensures EncodeStruct([Limited(max)], [Raw(payload)]).Some?
  {
    assert [Limited(max)][1..] == [] && [Raw(payload)][1..] == [];
  }

  lemma {:induction false} ChunkListLength(chunks: seq<Dal.ChunkPointer>)
    ensures EncodeAll(CHUNK_SPECS, ChunkItems(chunks)).Some?
    ensures |EncodeAll(CHUNK_SPECS, ChunkItems(chunks)).value| == 17 * |chunks|
    decreases |chunks|
  {
    hide U64Le;
    if chunks == [] {
    } else {
      ChunkListLength(chunks[1..]);
      var items := ChunkItems(chunks);
      assert items[1..] == ChunkItems(chunks[1..]);
      ChunkLength(items[0]);
    }
  }

  lemma ChunkLength(item: seq<Field>)
    requires |item| == 3 && item[0].Raw? && item[1].Raw? && item[2].Raw?
    requires |item[0].bytes| == 8 && |item[1].bytes| == 1 && |item[2].bytes| == 8
    ensures EncodeStruct(CHUNK_SPECS, item).Some? && |EncodeStruct(CHUNK_SPECS, item).value| == 17
  {
    var (last, two) := ([Sized(8)], [Sized(1), Sized(8)]);
    assert last[1..] == [] && [item[2]][1..] == [];
    assert EncodeStruct(last, [item[2]]) == Some(item[2].bytes + []);
    assert two[1..] == last && [item[1], item[2]][1..] == [item[2]];
    assert EncodeStruct(two, [item[1], item[2]]).Some?;
    assert CHUNK_SPECS[1..] == two && item[1..] == [item[1], item[2]];
  }

  /** A DAL pointer has a wire form exactly when its chunk count is in range and
      17 bytes for each chunk fit the list's byte limit. With a limit of 256
      bytes that is 15 chunks, fewer than the 256 its own check allows. */
  lemma PointersFitExactly(format: Format, p: Dal.PayloadPointer)
    requires format.listLimit + 4 <= MAX_DAL_CHUNK_LIST_BYTES
    ensures EncodeMessage(format, PointerMessage(p)).Some?
            <==> 0 < |p.chunks| <= MAX_DAL_CHUNK_POINTERS && 17 * |p.chunks| <= format.listLimit
  {
    hide EncodeStruct, U64Le, EncodeAll, BeBytes, KindTag;
    ChunkListLength(p.chunks);
    var fields := PointerToFields(format.listLimit, p);
    if fields.Some? {
      StructLength(POINTER_SPECS, fields.value);
    }
  }

  // ----- From the wire to the kernel

  /** `kernel_*_req_to_host`: the request as the rules see it; its proof is
      carried beside it. */
  function ToKernel(m: InboxMessage): KernelMessage
  {
    match m
    case VerifierMessage(config, signature) => KernelState.ConfigureVerifier(config, signature)
    case BridgeMessage(ticketer, signature) => KernelState.ConfigureBridge(ticketer, signature)
    case ShieldMessage(r) =>
      KernelState.Shield(r.proof, ShieldReq(r.pubkeyHash, r.fee, r.v, r.producerFee, r.proof.ToHost(),
                                            r.clientCm, r.clientEnc, r.producerCm, r.producerEnc))
    case TransferMessage(r) =>
      KernelState.Transfer(r.proof, TransferReq(r.root, r.nullifiers, r.fee, r.cm1, r.cm2, r.cm3,
                                                r.enc1, r.enc2, r.enc3, r.proof.ToHost()))
    case UnshieldMessage(r) =>
      KernelState.Unshield(r.proof, UnshieldReq(r.root, r.nullifiers, r.vPub, r.fee, r.recipient,
                                                r.cmChange, r.encChange, r.cmFee, r.encFee, r.proof.ToHost()))
    case PointerMessage(p) => KernelState.DalPointer(p)
  }

  function DecodeForKernel(format: Format, bs: Bytes): Option<KernelMessage>
  {
    match DecodeMessage(format, bs)
    case None => None
    case Some(m) => Some(ToKernel(m))
  }

  /** From a sender to the rules: a message that is encoded, cut into chunks,
      published in padded pages and pointed at reaches the kernel as it was;
      a pointer published that way is refused instead of followed. */
  lemma PublishedMessagesArrive(w: World, format: Format, m: InboxMessage, dal: Dal.Reveals,
                                pointer: Dal.PayloadPointer, pieces: seq<Bytes>)
    requires forall bs :: w.decodeKernel(bs) == DecodeForKernel(format, bs)
    requires EncodeMessage(format, m) == Some(Dal.Concat(pieces))
    requires Dal.Published(dal, w.crypto.usizeMax, w.crypto.hash, pointer, pieces)
    requires !m.PointerMessage? ==> KindOf(ToKernel(m)) == Some(pointer.kind)
    ensures FetchMessage(w, dal, pointer) == if m.PointerMessage? then Err(NestedDalPointer) else Ok(ToKernel(m))
  {
    hide EncodeMessage, DecodeMessage;
    MessageCodecIsExact(format, Dal.Concat(pieces), m);
    Dal.PublishThenFetch(dal, w.crypto.usizeMax, w.crypto.hash, pointer, pieces);
    assert w.decodeKernel(Dal.Concat(pieces)) == Some(ToKernel(m));
  }
}
