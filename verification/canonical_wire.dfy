/** Encrypted notes and the byte form in which a note is published and stored. */
module CanonicalWire {
  import opened Bytes
  import opened Wrappers

  const CIPHERTEXT_BYTES: nat := 1088
  const NONCE_BYTES: nat := 12
  const MEMO_SIZE: nat := 1024
  const ENCRYPTED_NOTE_BYTES: nat := 8 + 32 + MEMO_SIZE + 16
  const OUTGOING_CT_BYTES: nat := 1 + 8 + 5 * 32 + 16

  /** `1 << DETECT_K`, with 10 bits of detection tag. */
  const NUM_DETECTION_TAGS: nat := 1024

  /** Encoded length of a ciphertext record, without its commitment. */
  const NOTE_WIRE_BYTES: nat :=
    CIPHERTEXT_BYTES + 2 + CIPHERTEXT_BYTES + NONCE_BYTES + ENCRYPTED_NOTE_BYTES + OUTGOING_CT_BYTES

  type u16 = x: int | 0 <= x < 0x1_0000

  datatype EncryptedNote = EncryptedNote(
    ctD: Bytes, tag: u16, ctV: Bytes, nonce: Bytes, data: Bytes, outgoing: Bytes)
  {
    /** `EncryptedNote::validate`. */
    predicate Valid()
    {
      && |ctD| == CIPHERTEXT_BYTES
      && |ctV| == CIPHERTEXT_BYTES
      && |nonce| == NONCE_BYTES
      && |data| == ENCRYPTED_NOTE_BYTES
      && |outgoing| == OUTGOING_CT_BYTES
      && tag < NUM_DETECTION_TAGS
    }
  }

  datatype WireError = BadNote | BadLength

  function U16Le(n: u16): (bs: Bytes)
    ensures |bs| == 2
    ensures FromLe(bs) == n
  {
    Pow256Values();
    LeRoundTrip(n, 2);
    LeBytes(n, 2)
  }

  function U16FromLe(bs: Bytes): (n: u16)
    requires |bs| == 2
    ensures U16Le(n) == bs
  {
    Pow256Values();
    LeCanonical(bs);
    FromLe(bs)
  }

  /** `encrypted_note_to_wire` followed by `encode_tze`: the fields end to end. */
  function EncodeNote(enc: EncryptedNote): (r: Result<Bytes, WireError>)
    ensures r.Ok? <==> enc.Valid()
    ensures r.Ok? ==> |r.value| == NOTE_WIRE_BYTES
  {
    if !enc.Valid() then Err(BadNote)
    else Ok(enc.ctD + U16Le(enc.tag) + enc.ctV + enc.nonce + enc.data + enc.outgoing)
  }

  /** `decode_tze::<WireEncryptedNote>` followed by `encrypted_note_from_wire`. */
  function DecodeNote(bs: Bytes): (r: Result<EncryptedNote, WireError>)
    ensures r.Ok? ==> r.value.Valid()
  {
    if |bs| != NOTE_WIRE_BYTES then Err(BadLength)
    else
      var enc := EncryptedNote(bs[..1088], U16FromLe(bs[1088..1090]), bs[1090..2178],
                               bs[2178..2190], bs[2190..3270], bs[3270..]);
      if enc.Valid() then Ok(enc) else Err(BadNote)
  }

  /** `encode_published_note`. */
  function EncodePublishedNote(cm: Felt, enc: EncryptedNote): (r: Result<Bytes, WireError>)
    ensures r.Ok? <==> enc.Valid()
    ensures r.Ok? ==> |r.value| == FELT_BYTES + NOTE_WIRE_BYTES
  {
    var note :- EncodeNote(enc);
    Ok(cm + note)
  }

  /** `decode_published_note`. */
  function DecodePublishedNote(bs: Bytes): (r: Result<(Felt, EncryptedNote), WireError>)
  {
    if |bs| != FELT_BYTES + NOTE_WIRE_BYTES then Err(BadLength)
    else
      var enc :- DecodeNote(bs[FELT_BYTES..]);
      Ok((bs[..FELT_BYTES], enc))
  }

  /** Decoding accepts exactly the encodings, each as the note it came from. */
  lemma NoteCodecIsExact(bs: Bytes, enc: EncryptedNote)
    ensures DecodeNote(bs) == Ok(enc) <==> EncodeNote(enc) == Ok(bs)
  {
    if EncodeNote(enc) == Ok(bs) {
      assert bs[..1088] == enc.ctD;
      assert bs[1088..1090] == U16Le(enc.tag);
      assert bs[1090..2178] == enc.ctV;
      assert bs[2178..2190] == enc.nonce;
      assert bs[2190..3270] == enc.data;
      assert bs[3270..] == enc.outgoing;
    }
    if DecodeNote(bs) == Ok(enc) {
      assert bs == bs[..1088] + bs[1088..1090] + bs[1090..2178] + bs[2178..2190] + bs[2190..3270] + bs[3270..];
    }
  }

  /** The published form is a bijection between valid notes and accepted bytes. */
  lemma PublishedNoteCodecIsExact(bs: Bytes, cm: Felt, enc: EncryptedNote)
    ensures DecodePublishedNote(bs) == Ok((cm, enc)) <==> EncodePublishedNote(cm, enc) == Ok(bs)
  {
    if EncodePublishedNote(cm, enc) == Ok(bs) {
      assert bs[..FELT_BYTES] == cm;
      assert EncodeNote(enc) == Ok(bs[FELT_BYTES..]);
      NoteCodecIsExact(bs[FELT_BYTES..], enc);
    }
    if DecodePublishedNote(bs) == Ok((cm, enc)) {
      NoteCodecIsExact(bs[FELT_BYTES..], enc);
      assert bs == bs[..FELT_BYTES] + bs[FELT_BYTES..];
    }
  }
}
