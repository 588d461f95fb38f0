/** Reassembly of a kernel message published on the data availability layer in
    chunks of zero-padded pages (`fetch_kernel_message_from_dal`). */
module Dal {
  import opened Bytes
  import opened Wrappers

  const MAX_DAL_PAYLOAD_BYTES: nat := 512 * 1024
  const PAGE_INDEX_LIMIT: nat := 0x1_0000

  datatype PayloadKind = ConfigureVerifier | ConfigureBridge | Shield | Transfer | Unshield

  datatype ChunkPointer = ChunkPointer(publishedLevel: u64, slotIndex: byte, payloadLen: u64)

  datatype PayloadPointer = PayloadPointer(
    kind: PayloadKind, chunks: seq<ChunkPointer>, payloadLen: u64, payloadHash: Felt)

  datatype Parameters = Parameters(numberOfSlots: u64, slotSize: u64, pageSize: u64)

  /** What the host reveals; None stands for a failed reveal. A page is asked for
      by published level, slot, page index and size limit. */
  datatype Reveals = Reveals(parameters: Option<Parameters>, page: (int, byte, nat, nat) -> Option<Bytes>)

  datatype DalError =
    | NoChunks | EmptyPayload | PayloadTooLarge | NoParameters | BadParameters
    | LengthOverflow | LengthMismatch | EmptyChunk | ChunkTooLarge | BadSlot | BadLevel
    | PageIndexOverflow | PageUnavailable | PageTooLarge | Truncated | NonZeroPadding | HashMismatch

  type DalResult<+T> = Result<T, DalError>

  function DivCeil(a: nat, b: nat): (n: nat)
    requires b > 0
    ensures n * b >= a
    ensures a > 0 ==> n > 0 && (n - 1) * b < a
  {
    CeilBounds(a, b, a / b, a % b);
    if a % b == 0 then a / b else a / b + 1
  }

  lemma CeilBounds(a: nat, b: nat, q: nat, r: nat)
    requires b > 0 && q == a / b && r == a % b
    ensures a == q * b + r && r < b
    ensures (q + 1) * b == q * b + b && (q - 1) * b == q * b - b
    ensures a > 0 && r == 0 ==> q > 0
  {
  }

  // ----- The fetch, as a function of what the host reveals

  /** The first `n` pages of a chunk, end to end. */
  function Pages(host: Reveals, chunk: ChunkPointer, pageSize: nat, n: nat): DalResult<Bytes>
  {
    if n == 0 then Ok([])
    else
      match Pages(host, chunk, pageSize, n - 1)
      case Err(e) => Err(e)
      case Ok(before) =>
        if n - 1 >= PAGE_INDEX_LIMIT then Err(PageIndexOverflow)
        else
          match host.page(chunk.publishedLevel, chunk.slotIndex, n - 1, pageSize)
          case None => Err(PageUnavailable)
          case Some(page) => if |page| > pageSize then Err(PageTooLarge) else Ok(before + page)
  }

  /** The limits a chunk pointer must respect on its own. */
  function ChunkLimits(p: Parameters, chunk: ChunkPointer): Outcome<DalError>
  {
    if chunk.payloadLen == 0 then Fail(EmptyChunk)
    else if chunk.payloadLen > p.slotSize then Fail(ChunkTooLarge)
    else if chunk.slotIndex >= p.numberOfSlots then Fail(BadSlot)
    else if chunk.publishedLevel > I32_MAX then Fail(BadLevel)
    else Pass
  }

  function ChunkPayload(host: Reveals, p: Parameters, chunk: ChunkPointer): (r: DalResult<Bytes>)
    requires p.pageSize > 0
    ensures r.Ok? ==> |r.value| == chunk.payloadLen
  {
    match ChunkLimits(p, chunk)
    case Fail(e) => Err(e)
    case Pass =>
      match Pages(host, chunk, p.pageSize, DivCeil(chunk.payloadLen, p.pageSize))
      case Err(e) => Err(e)
      case Ok(bytes) =>
        if |bytes| < chunk.payloadLen then Err(Truncated)
        else if !AllZero(bytes[chunk.payloadLen..]) then Err(NonZeroPadding)
        else Ok(bytes[..chunk.payloadLen])
  }

  function ChunksPayload(host: Reveals, p: Parameters, chunks: seq<ChunkPointer>): DalResult<Bytes>
    requires p.pageSize > 0
  {
    if chunks == [] then Ok([])
    else
      match ChunksPayload(host, p, chunks[..|chunks| - 1])
      case Err(e) => Err(e)
      case Ok(before) =>
        match ChunkPayload(host, p, chunks[|chunks| - 1])
        case Err(e) => Err(e)
        case Ok(last) => Ok(before + last)
  }

  function DeclaredTotal(usizeMax: nat, chunks: seq<ChunkPointer>): DalResult<nat>
  {
    if chunks == [] then Ok(0)
    else
      match DeclaredTotal(usizeMax, chunks[..|chunks| - 1])
      case Err(e) => Err(e)
      case Ok(total) =>
        var len := chunks[|chunks| - 1].payloadLen;
        if len > usizeMax || total + len > usizeMax then Err(LengthOverflow) else Ok(total + len)
  }

  /** Everything checked before the first page is asked for. */
  function CheckPointer(host: Reveals, usizeMax: nat, pointer: PayloadPointer): (r: DalResult<Parameters>)
    ensures r.Ok? ==> r.value.pageSize > 0
  {
    if pointer.chunks == [] then Err(NoChunks)
    else if pointer.payloadLen > usizeMax then Err(LengthOverflow)
    else if pointer.payloadLen == 0 then Err(EmptyPayload)
    else if pointer.payloadLen > MAX_DAL_PAYLOAD_BYTES then Err(PayloadTooLarge)
    else
      match host.parameters
      case None => Err(NoParameters)
      case Some(p) =>
        if p.numberOfSlots == 0 || p.slotSize == 0 || p.pageSize == 0 then Err(BadParameters)
        else
          match DeclaredTotal(usizeMax, pointer.chunks)
          case Err(e) => Err(e)
          case Ok(total) =>
            if total != pointer.payloadLen then Err(LengthMismatch)
            else if p.slotSize > usizeMax || p.pageSize > usizeMax then Err(LengthOverflow)
            else Ok(p)
  }

  /** The payload a pointer denotes. */
  function Fetch(host: Reveals, usizeMax: nat, hash: Bytes -> Felt, pointer: PayloadPointer): DalResult<Bytes>
  {
    match CheckPointer(host, usizeMax, pointer)
    case Err(e) => Err(e)
    case Ok(p) =>
      match ChunksPayload(host, p, pointer.chunks)
      case Err(e) => Err(e)
      case Ok(payload) =>
        if |payload| != pointer.payloadLen then Err(LengthMismatch)
        else if hash(payload) != pointer.payloadHash then Err(HashMismatch)
        else Ok(payload)
  }

  // ----- The nested loops that compute it

  method FetchChunk(host: Reveals, p: Parameters, chunk: ChunkPointer) returns (r: DalResult<Bytes>)
    requires p.pageSize > 0
    ensures r == ChunkPayload(host, p, chunk)
  {
    match ChunkLimits(p, chunk) {
      case Fail(e) => return Err(e);
      case Pass =>
    }
    var count := DivCeil(chunk.payloadLen, p.pageSize);
    var bytes: Bytes := [];
    for k := 0 to count
      invariant Pages(host, chunk, p.pageSize, k) == Ok(bytes)
    {
      var next := if k >= PAGE_INDEX_LIMIT then Err(PageIndexOverflow)
                  else
                    match host.page(chunk.publishedLevel, chunk.slotIndex, k, p.pageSize)
                    case None => Err(PageUnavailable)
                    case Some(page) => if |page| > p.pageSize then Err(PageTooLarge) else Ok(page);
      match next {
        case Err(e) =>
          PagesFailEarly(host, chunk, p.pageSize, k + 1, count);
          return Err(e);
        case Ok(page) => bytes := bytes + page;
      }
    }
    if |bytes| < chunk.payloadLen {
      return Err(Truncated);
    }
    if !AllZero(bytes[chunk.payloadLen..]) {
      return Err(NonZeroPadding);
    }
    r := Ok(bytes[..chunk.payloadLen]);
  }

  lemma {:induction false} PagesFailEarly(host: Reveals, chunk: ChunkPointer, pageSize: nat, k: nat, n: nat)
    requires k <= n && Pages(host, chunk, pageSize, k).Err?
    ensures Pages(host, chunk, pageSize, n) == Pages(host, chunk, pageSize, k)
  {
    if k >= n {
    } else {
      PagesFailEarly(host, chunk, pageSize, k, n - 1);
    }
  }

  lemma {:induction false} ChunksFailEarly(host: Reveals, p: Parameters, chunks: seq<ChunkPointer>, k: nat)
    requires p.pageSize > 0 && k <= |chunks| && ChunksPayload(host, p, chunks[..k]).Err?
    ensures ChunksPayload(host, p, chunks) == ChunksPayload(host, p, chunks[..k])
  {
    if k < |chunks| {
      assert chunks[..|chunks| - 1][..k] == chunks[..k];
      ChunksFailEarly(host, p, chunks[..|chunks| - 1], k);
    } else {
      assert chunks[..k] == chunks;
    }
  }

  method FetchPayload(host: Reveals, usizeMax: nat, hash: Bytes -> Felt, pointer: PayloadPointer)
    returns (r: DalResult<Bytes>)
    ensures r == Fetch(host, usizeMax, hash, pointer)
  {
    hide CheckPointer, ChunkPayload;
    var checked := CheckPointer(host, usizeMax, pointer);
    if checked.Err? {
      return Err(checked.error);
    }
    var p, chunks := checked.value, pointer.chunks;
    var payload: Bytes := [];
    for i := 0 to |chunks|
      invariant ChunksPayload(host, p, chunks[..i]) == Ok(payload)
    {
      var chunk := FetchChunk(host, p, chunks[i]);
      assert chunks[..i + 1][..i] == chunks[..i];
      match chunk {
        case Err(e) =>
          ChunksFailEarly(host, p, chunks, i + 1);
          return Err(e);
        case Ok(bytes) => payload := payload + bytes;
      }
    }
    assert chunks[..|chunks|] == chunks;
    if |payload| != pointer.payloadLen {
      return Err(LengthMismatch);
    }
    if hash(payload) != pointer.payloadHash {
      return Err(HashMismatch);
    }
    r := Ok(payload);
  }

  // ----- What is fetched is what was published

  function Concat(pieces: seq<Bytes>): Bytes
  {
    if pieces == [] then [] else Concat(pieces[..|pieces| - 1]) + pieces[|pieces| - 1]
  }

  /** The chunk's pages hold `piece` followed by nothing but zeros. */
  ghost predicate Carries(host: Reveals, p: Parameters, chunk: ChunkPointer, piece: Bytes)
    requires p.pageSize > 0
  {
    && |piece| == chunk.payloadLen
    && exists padding: nat ::
         Pages(host, chunk, p.pageSize, DivCeil(chunk.payloadLen, p.pageSize)) == Ok(piece + Zeros(padding))
  }

  lemma ChunkPayloadExact(host: Reveals, p: Parameters, chunk: ChunkPointer, piece: Bytes)
    requires p.pageSize > 0
    ensures ChunkPayload(host, p, chunk) == Ok(piece) <==>
            ChunkLimits(p, chunk).Pass? && Carries(host, p, chunk, piece)
  {
    var pages := Pages(host, chunk, p.pageSize, DivCeil(chunk.payloadLen, p.pageSize));
    if ChunkPayload(host, p, chunk) == Ok(piece) {
      var rest := pages.value[chunk.payloadLen..];
      assert rest == Zeros(|rest|);
      assert pages.value == piece + Zeros(|rest|);
    }
    if ChunkLimits(p, chunk).Pass? && Carries(host, p, chunk, piece) {
      var padding: nat :| pages == Ok(piece + Zeros(padding));
      assert pages.value[chunk.payloadLen..] == Zeros(padding);
      assert pages.value[..chunk.payloadLen] == piece;
    }
  }

  /** Chunk by chunk, in pointer order. */
  ghost predicate CarriesAll(host: Reveals, p: Parameters, chunks: seq<ChunkPointer>, pieces: seq<Bytes>)
    requires p.pageSize > 0
  {
    && |pieces| == |chunks|
    && forall i :: 0 <= i < |chunks| ==> ChunkLimits(p, chunks[i]).Pass? && Carries(host, p, chunks[i], pieces[i])
  }

  lemma {:induction false} ChunksPayloadSound(host: Reveals, p: Parameters, chunks: seq<ChunkPointer>)
    returns (pieces: seq<Bytes>)
    requires p.pageSize > 0 && ChunksPayload(host, p, chunks).Ok?
    ensures CarriesAll(host, p, chunks, pieces) && ChunksPayload(host, p, chunks) == Ok(Concat(pieces))
  {
    if chunks == [] {
      pieces := [];
    } else {
      var before := ChunksPayloadSound(host, p, chunks[..|chunks| - 1]);
      var last := ChunkPayload(host, p, chunks[|chunks| - 1]).value;
      ChunkPayloadExact(host, p, chunks[|chunks| - 1], last);
      pieces := before + [last];
      assert pieces[..|pieces| - 1] == before;
    }
  }

  lemma {:induction false} ChunksPayloadComplete(host: Reveals, p: Parameters, chunks: seq<ChunkPointer>,
                                                 pieces: seq<Bytes>)
    requires p.pageSize > 0 && CarriesAll(host, p, chunks, pieces)
    ensures ChunksPayload(host, p, chunks) == Ok(Concat(pieces))
  {
    if chunks == [] {
    } else {
      ChunksPayloadComplete(host, p, chunks[..|chunks| - 1], pieces[..|pieces| - 1]);
      ChunkPayloadExact(host, p, chunks[|chunks| - 1], pieces[|pieces| - 1]);
    }
  }

  lemma {:induction false} DeclaredTotalIsLength(usizeMax: nat, chunks: seq<ChunkPointer>, pieces: seq<Bytes>)
    requires |pieces| == |chunks| && forall i :: 0 <= i < |chunks| ==> |pieces[i]| == chunks[i].payloadLen
    ensures |Concat(pieces)| <= usizeMax ==> DeclaredTotal(usizeMax, chunks) == Ok(|Concat(pieces)|)
    ensures |Concat(pieces)| > usizeMax ==> DeclaredTotal(usizeMax, chunks).Err?
  {
    if chunks == [] {
    } else {
      DeclaredTotalIsLength(usizeMax, chunks[..|chunks| - 1], pieces[..|pieces| - 1]);
    }
  }

  /** The host reveals parameters a fetch can work with. */
  predicate UsableParameters(host: Reveals, usizeMax: nat)
  {
    host.parameters.Some? &&
    var p := host.parameters.value;
    p.numberOfSlots > 0 && 0 < p.slotSize <= usizeMax && 0 < p.pageSize <= usizeMax
  }

  /** Exactly what a fetch accepts: the host's parameters are usable, the payload
      is the in-order concatenation of the declared chunk prefixes, every
      remainder is zero, and the sizes and the hash are the declared ones. */
  lemma FetchExact(host: Reveals, usizeMax: nat, hash: Bytes -> Felt, pointer: PayloadPointer, payload: Bytes)
    ensures Fetch(host, usizeMax, hash, pointer) == Ok(payload) <==>
            UsableParameters(host, usizeMax)
            && pointer.chunks != [] && 0 < |payload| <= MAX_DAL_PAYLOAD_BYTES && |payload| <= usizeMax
            && |payload| == pointer.payloadLen && hash(payload) == pointer.payloadHash
            && (exists pieces ::
                  CarriesAll(host, host.parameters.value, pointer.chunks, pieces) && Concat(pieces) == payload)
  {
    hide ChunksPayload, CarriesAll, Concat, DeclaredTotal;
    if Fetch(host, usizeMax, hash, pointer) == Ok(payload) {
      var pieces := ChunksPayloadSound(host, host.parameters.value, pointer.chunks);
    }
    if UsableParameters(host, usizeMax)
       && pointer.chunks != [] && 0 < |payload| <= MAX_DAL_PAYLOAD_BYTES && |payload| <= usizeMax
       && |payload| == pointer.payloadLen && hash(payload) == pointer.payloadHash
       && (exists pieces ::
             CarriesAll(host, host.parameters.value, pointer.chunks, pieces) && Concat(pieces) == payload) {
      var p := host.parameters.value;
      var pieces :| CarriesAll(host, p, pointer.chunks, pieces) && Concat(pieces) == payload;
      ChunksPayloadComplete(host, p, pointer.chunks, pieces);
      CarriedLengths(host, p, pointer.chunks, pieces);
      DeclaredTotalIsLength(usizeMax, pointer.chunks, pieces);
    }
  }

  lemma CarriedLengths(host: Reveals, p: Parameters, chunks: seq<ChunkPointer>, pieces: seq<Bytes>)
    requires p.pageSize > 0 && CarriesAll(host, p, chunks, pieces)
    ensures |pieces| == |chunks| && forall i :: 0 <= i < |chunks| ==> |pieces[i]| == chunks[i].payloadLen
  {
    hide ChunkLimits;
  }

  /** Page `k` of a published chunk: its slice, padded with zeros to the page size. */
  function PublishedPage(piece: Bytes, pageSize: nat, k: nat): (page: Bytes)
    ensures |page| == pageSize
  {
    var padded := piece + Zeros((k + 1) * pageSize);
    padded[k * pageSize..(k + 1) * pageSize]
  }

  ghost predicate Publishes(host: Reveals, p: Parameters, chunk: ChunkPointer, piece: Bytes)
    requires p.pageSize > 0
  {
    forall k: nat :: k < DivCeil(|piece|, p.pageSize) ==>
      host.page(chunk.publishedLevel, chunk.slotIndex, k, p.pageSize) == Some(PublishedPage(piece, p.pageSize, k))
  }

  lemma {:induction false} PublishedPages(host: Reveals, p: Parameters, chunk: ChunkPointer, piece: Bytes, n: nat)
    requires p.pageSize > 0 && Publishes(host, p, chunk, piece)
    requires n <= DivCeil(|piece|, p.pageSize) && n <= PAGE_INDEX_LIMIT
    ensures Pages(host, chunk, p.pageSize, n) == Ok((piece + Zeros(n * p.pageSize))[..n * p.pageSize])
  {
    if n == 0 {
    } else {
      PublishedPages(host, p, chunk, piece, n - 1);
      OneMorePage(piece, p.pageSize, n - 1);
      hide PublishedPage;
    }
  }

  lemma OneMorePage(piece: Bytes, pageSize: nat, k: nat)
    ensures (piece + Zeros(k * pageSize))[..k * pageSize] + PublishedPage(piece, pageSize, k)
            == (piece + Zeros((k + 1) * pageSize))[..(k + 1) * pageSize]
  {
    var lo, hi := k * pageSize, (k + 1) * pageSize;
    assert hi == lo + pageSize;
    var padded := piece + Zeros(hi);
    assert (piece + Zeros(lo))[..lo] == padded[..lo];
    assert PublishedPage(piece, pageSize, k) == padded[lo..hi];
    assert padded[..lo] + padded[lo..hi] == padded[..hi];
  }

  /** The pointer is to `pieces`, published in zero-padded pages within the size limits. */
  ghost predicate Published(host: Reveals, usizeMax: nat, hash: Bytes -> Felt, pointer: PayloadPointer,
                            pieces: seq<Bytes>)
  {
    && UsableParameters(host, usizeMax) && |pieces| == |pointer.chunks|
    && (var p := host.parameters.value;
        forall i :: 0 <= i < |pieces| ==>
          |pieces[i]| == pointer.chunks[i].payloadLen && ChunkLimits(p, pointer.chunks[i]).Pass?
          && DivCeil(|pieces[i]|, p.pageSize) <= PAGE_INDEX_LIMIT
          && Publishes(host, p, pointer.chunks[i], pieces[i]))
    && 0 < |Concat(pieces)| <= MAX_DAL_PAYLOAD_BYTES && |Concat(pieces)| <= usizeMax
    && pointer.payloadLen == |Concat(pieces)| && pointer.payloadHash == hash(Concat(pieces))
  }

  /** Publishing and fetching are inverse: any payload within the size limits,
      cut into chunks however one likes and published in zero-padded pages, is
      fetched back whole. */
  lemma PublishThenFetch(host: Reveals, usizeMax: nat, hash: Bytes -> Felt, pointer: PayloadPointer, pieces: seq<Bytes>)
    requires Published(host, usizeMax, hash, pointer, pieces)
    ensures Fetch(host, usizeMax, hash, pointer) == Ok(Concat(pieces))
  {
    var p := host.parameters.value;
    forall i | 0 <= i < |pieces|
      ensures Carries(host, p, pointer.chunks[i], pieces[i])
    {
      var piece, count := pieces[i], DivCeil(|pieces[i]|, p.pageSize);
      PublishedPages(host, p, pointer.chunks[i], piece, count);
      var size := count * p.pageSize;
      assert (piece + Zeros(size))[..size] == piece + Zeros(size - |piece|);
    }
    assert CarriesAll(host, p, pointer.chunks, pieces);
    FetchExact(host, usizeMax, hash, pointer, Concat(pieces));
  }
}
