/** How a kernel state is laid out in the durable store, cell by cell. */
module KernelStore {
  import opened Bytes
  import opened CanonicalWire
  import opened Frontier
  import opened KernelState
  import opened Merkle
  import opened Paths
  import opened Protocol
  import opened Wrappers

  const MAX_NOTE_CHUNK_BYTES: nat := 1024
  const MAX_STORE_BINARY_BYTES: nat := 1024
  const MAX_LEDGER_STATE_BYTES: nat := 4 * 1024 * 1024

  type Cell = Option<Bytes>

  function Get(store: Store, p: Path): Cell
  {
    if p in store then Some(store[p]) else None
  }

  /** `host.read_store(path, max_bytes)`: at most the first `max` bytes. */
  function ReadStore(store: Store, p: Path, max: nat): Cell
  {
    if p in store then Some(store[p][..Min(|store[p]|, max)]) else None
  }

  // ----- Notes, possibly in chunks

  /** The stored form of a note; a ledger only holds valid ones. */
  function StoredNote(note: Note): Bytes
  {
    var r := EncodePublishedNote(note.cm, note.enc);
    if r.Ok? then r.value else []
  }

  function Chunk(bytes: Bytes, c: nat): Cell
  {
    var lo := c * MAX_NOTE_CHUNK_BYTES;
    if lo < |bytes| then Some(bytes[lo..Min(lo + MAX_NOTE_CHUNK_BYTES, |bytes|)]) else None
  }

  function NoteCell(bytes: Bytes, p: Path): Cell
  {
    if |bytes| <= MAX_NOTE_CHUNK_BYTES then (if p.NoteBody? then Some(bytes) else None)
    else if p.NoteLen? then Some(LeBytes(|bytes|, 8))
    else if p.NoteChunk? then Chunk(bytes, p.chunk)
    else None
  }

  function TreeCell(w: World, notes: seq<Note>, branches: Branches, p: Path): Cell
  {
    match p
    case TreeSize => Some(LeBytes(|notes|, 8))
    case TreeRoot => Some(TreeRootOf(w, notes))
    case Branch(level) => if level < |branches| then branches[level] else None
    case NoteBody(i) => if i < |notes| then NoteCell(StoredNote(notes[i]), p) else None
    case NoteLen(i) => if i < |notes| then NoteCell(StoredNote(notes[i]), p) else None
    case NoteChunk(i, _) => if i < |notes| then NoteCell(StoredNote(notes[i]), p) else None
    case _ => None
  }

  // ----- Markers with an index

  function MarkerCell(log: seq<Felt>, key: Felt): Cell
  {
    if key in log then Some([1]) else None
  }

  function IndexCell(log: seq<Felt>, i: nat): Cell
  {
    if i < |log| then Some(log[i]) else None
  }

  function EncodeWithdrawal(r: Withdrawal): Bytes
  {
    LeBytes(r.amount, 8) + LeBytes(Min(|r.recipient|, U32_LIMIT - 1), 4) + r.recipient
  }

  function EncodeConfig(c: VerifierConfig): (bs: Bytes)
    ensures |bs| == 128
  {
    c.authDomain + c.shieldHash + c.transferHash + c.unshieldHash
  }

  function DecodeConfig(bs: Bytes): Option<VerifierConfig>
  {
    if |bs| != 128 then None
    else Some(VerifierConfig.VerifierConfig(bs[..32], bs[32..64], bs[64..96], bs[96..]))
  }

  lemma ConfigRoundTrip(c: VerifierConfig)
    ensures DecodeConfig(EncodeConfig(c)) == Some(c)
  {
    var bs := EncodeConfig(c);
    assert bs[..32] == c.authDomain && bs[32..64] == c.shieldHash;
    assert bs[64..96] == c.transferHash && bs[96..] == c.unshieldHash;
  }

  function PoolCell(pools: map<Felt, Option<u64>>, key: Felt): Cell
  {
    if key !in pools then None
    else if pools[key].None? then Some([])
    else Some(LeBytes(pools[key].value, 8))
  }

  function LedgerCell(w: World, l: Ledger, p: Path): Cell
  {
    match p
    case AuthDomain => Some(l.authDomain)
    case Ticketer => l.ticketer
    case VerifierConfig => if l.verifier.Some? then Some(EncodeConfig(l.verifier.value)) else None
    case FeeLevel => if l.feeMark.Some? then Some(I32Le(l.feeMark.value.level)) else None
    case FeeCount => if l.feeMark.Some? then Some(LeBytes(l.feeMark.value.count, 8)) else None
    case NullifierCount => Some(LeBytes(|l.nullifiers|, 8))
    case Nullifier(key) => MarkerCell(l.nullifiers, key)
    case NullifierAt(i) => IndexCell(l.nullifiers, i)
    case RootCount => Some(LeBytes(|l.roots|, 8))
    case RootMarker(key) => MarkerCell(l.roots, key)
    case RootAt(i) => IndexCell(l.roots, i)
    case WithdrawalCount => Some(LeBytes(|l.withdrawals|, 8))
    case WithdrawalAt(i) => if i < |l.withdrawals| then Some(EncodeWithdrawal(l.withdrawals[i])) else None
    case Pool(key) => PoolCell(l.pools, key)
    case AppliedShield(key) => if key in l.applied then Some([1]) else None
    case _ => TreeCell(w, l.notes, l.branches, p)
  }

  predicate IsInputPath(p: Path)
  {
    p.RawInputCount? || p.RawInputBytes? || p.LastInputLevel? || p.LastInputId? || p.LastInputLen?
      || p.LastInputPayload?
  }

  function InputCell(log: Option<InputLog>, p: Path): Cell
  {
    if log.None? then None
    else
      match p
      case RawInputCount => Some(LeBytes(log.value.count, 8))
      case RawInputBytes => Some(LeBytes(log.value.bytes, 8))
      case LastInputLevel => Some(I32Le(log.value.level))
      case LastInputId => Some(I32Le(log.value.id))
      case LastInputLen => Some(LeBytes(|log.value.stored|, 4))
      case LastInputPayload => Some(log.value.stored)
      case _ => None
  }

  /** The content of one storage location. */
  function StateCell(w: World, s: KState, p: Path): Cell
  {
    if IsInputPath(p) then InputCell(s.inputs, p)
    else if p.LastResult? then s.result
    else if s.ledger.None? then None
    else LedgerCell(w, s.ledger.value, p)
  }

  /** `store` is exactly the layout of state `s`: no cell is missing, stale or extra. */
  ghost predicate Represents(w: World, s: KState, store: Store)
  {
    forall p :: Get(store, p) == StateCell(w, s, p)
  }

  /** A state has only one layout. */
  lemma LayoutIsUnique(w: World, s: KState, a: Store, b: Store)
    requires Represents(w, s, a) && Represents(w, s, b)
    ensures a == b
  {
    forall p
      ensures p in a <==> p in b
      ensures p in a ==> a[p] == b[p]
    {
      assert Get(a, p) == Get(b, p);
    }
  }

  // ----- Reading typed values back

  function ReadU64(store: Store, p: Path): Res<Option<u64>>
  {
    match ReadStore(store, p, 8)
    case None => Ok(None)
    case Some(bytes) => if |bytes| != 8 then Err(BadStoredValue) else Ok(Some(U64FromLe(bytes)))
  }

  function ReadFelt(store: Store, p: Path): Res<Option<Felt>>
  {
    match ReadStore(store, p, 32)
    case None => Ok(None)
    case Some(bytes) => if |bytes| != 32 then Err(BadStoredValue) else Ok(Some(bytes))
  }

  function ReadI32(store: Store, p: Path): Option<i32>
  {
    match ReadStore(store, p, 4)
    case None => None
    case Some(bytes) => if |bytes| != 4 then None else Some(I32FromLe(bytes))
  }

  /** `read_u64(..)?.unwrap_or(0)`. */
  function ReadCount(store: Store, p: Path): Res<u64>
  {
    match ReadU64(store, p)
    case Err(e) => Err(e)
    case Ok(v) => Ok(if v.Some? then v.value else 0)
  }

  predicate HasMarker(store: Store, p: Path)
  {
    ReadStore(store, p, 1).Some?
  }

  /** `current_private_tx_count_in_level`. */
  function CurrentPrivateTxCount(store: Store): Res<u64>
  {
    var current, stored := ReadI32(store, LastInputLevel), ReadI32(store, FeeLevel);
    if current.None? || stored.None? || stored != current then Ok(0) else ReadCount(store, FeeCount)
  }

  /** The pool entry: empty bytes stand for a drained pool. */
  function ReadPool(store: Store, key: Felt): Res<Option<u64>>
  {
    match ReadStore(store, Pool(key), 8)
    case None => Ok(None)
    case Some(bytes) =>
      if bytes == [] then Ok(None)
      else if |bytes| != 8 then Err(BadStoredValue)
      else Ok(Some(U64FromLe(bytes)))
  }

  /** `read_verifier_config`. */
  function ReadVerifierConfig(store: Store): Res<Option<VerifierConfig>>
  {
    match ReadStore(store, Path.VerifierConfig, MAX_STORE_BINARY_BYTES)
    case None => Ok(None)
    case Some(bytes) =>
      match DecodeConfig(bytes)
      case None => Err(BadStoredValue)
      case Some(config) => Ok(Some(config))
  }

  /** `read_string` of the bridge ticketer. */
  function ReadTicketer(store: Store): Option<Text>
  {
    ReadStore(store, Ticketer, MAX_STORE_STRING_BYTES)
  }

  /** The read half of the ledger interface, answered from the byte store. */
  function DurableReads(store: Store): LedgerReads
  {
    LedgerReads(
      match ReadFelt(store, AuthDomain)
        case Err(e) => Err(e)
        case Ok(v) => if v.Some? then Ok(v.value) else Err(MissingAuthDomain),
      match CurrentPrivateTxCount(store)
        case Err(e) => Err(e)
        case Ok(count) => Ok(RequiredTxFee(count)),
      (root: Felt) => HasMarker(store, RootMarker(root)),
      (nf: Felt) => HasMarker(store, Nullifier(nf)),
      (cm: Felt) => HasMarker(store, AppliedShield(cm)),
      (key: Felt) => ReadPool(store, key),
      ReadCount(store, TreeSize))
  }

  /** Counters and balances read back as the numbers written. */
  lemma ReadBackU64(store: Store, p: Path, n: u64)
    requires Get(store, p) == Some(LeBytes(n, 8))
    ensures ReadU64(store, p) == Ok(Some(n)) && ReadCount(store, p) == Ok(n)
  {
    var bytes := store[p];
    assert bytes[..8] == bytes;
    Pow256Values();
    LeRoundTrip(n, 8);
  }

  lemma ReadBackFelt(store: Store, p: Path, f: Felt)
    requires Get(store, p) == Some(f)
    ensures ReadFelt(store, p) == Ok(Some(f))
  {
    assert store[p][..32] == f;
  }

  lemma ReadBackI32(store: Store, p: Path, n: i32)
    requires Get(store, p) == Some(I32Le(n))
    ensures ReadI32(store, p) == Some(n)
  {
    assert store[p][..4] == I32Le(n);
  }

  // ----- What holds of every stored ledger

  /** The tree part: a live frontier over valid notes, within capacity. */
  ghost predicate TreeInv(w: World, l: Ledger)
  {
    && |l.branches| == w.crypto.depth
    && |l.notes| <= Pow2(w.crypto.depth)
    && Live(w.crypto.node, Commitments(l.notes), l.branches)
    && forall i :: 0 <= i < |l.notes| ==> l.notes[i].enc.Valid()
  }

  /** Counters that fit the eight bytes they are stored in. */
  predicate CountersFit(l: Ledger)
  {
    && |l.notes| < U64_LIMIT
    && |l.nullifiers| < U64_LIMIT
    && |l.roots| < U64_LIMIT
    && |l.withdrawals| < U64_LIMIT
    && (l.feeMark.Some? ==> l.feeMark.value.count < U64_LIMIT)
  }

  lemma CapacityFits(w: World)
    requires Sane(w)
    ensures Pow2(w.crypto.depth) <= 0x1_0000_0000_0000
  {
    Pow2Monotone(w.crypto.depth, DEPTH);
    Pow2Of48();
  }

  lemma Pow2Of48()
    ensures Pow2(48) == 0x1_0000_0000_0000
  {
    hide Pow2;
    Pow2Small();
    Pow2Sum(8, 8);
    Pow2Sum(16, 16);
    Pow2Sum(32, 16);
  }

  lemma MarkersReadBack(w: World, s: KState, store: Store, key: Felt)
    requires s.ledger.Some? && Represents(w, s, store)
    ensures HasMarker(store, RootMarker(key)) <==> key in s.ledger.value.roots
    ensures HasMarker(store, Nullifier(key)) <==> key in s.ledger.value.nullifiers
    ensures HasMarker(store, AppliedShield(key)) <==> key in s.ledger.value.applied
  {
    var l := s.ledger.value;
    assert Get(store, RootMarker(key)) == MarkerCell(l.roots, key);
    assert Get(store, Nullifier(key)) == MarkerCell(l.nullifiers, key);
    assert Get(store, AppliedShield(key)) == if key in l.applied then Some([1]) else None;
  }

  lemma CounterReadsBack(w: World, s: KState, store: Store, p: Path, n: nat)
    requires Represents(w, s, store) && n < U64_LIMIT && StateCell(w, s, p) == Some(LeBytes(n, 8))
    ensures ReadCount(store, p) == Ok(n)
  {
    assert Get(store, p) == StateCell(w, s, p);
    ReadBackU64(store, p, n);
  }

  lemma FeltReadsBack(w: World, s: KState, store: Store, p: Path, f: Felt)
    requires Represents(w, s, store) && StateCell(w, s, p) == Some(f)
    ensures ReadFelt(store, p) == Ok(Some(f))
  {
    assert Get(store, p) == StateCell(w, s, p);
    ReadBackFelt(store, p, f);
  }

  lemma CountersReadBack(w: World, s: KState, store: Store)
    requires s.ledger.Some? && Represents(w, s, store) && CountersFit(s.ledger.value)
    ensures ReadCount(store, TreeSize) == Ok(|s.ledger.value.notes|)
    ensures ReadCount(store, NullifierCount) == Ok(|s.ledger.value.nullifiers|)
    ensures ReadCount(store, RootCount) == Ok(|s.ledger.value.roots|)
    ensures ReadCount(store, WithdrawalCount) == Ok(|s.ledger.value.withdrawals|)
  {
    var l := s.ledger.value;
    CounterReadsBack(w, s, store, TreeSize, |l.notes|);
    CounterReadsBack(w, s, store, NullifierCount, |l.nullifiers|);
    CounterReadsBack(w, s, store, RootCount, |l.roots|);
    CounterReadsBack(w, s, store, WithdrawalCount, |l.withdrawals|);
  }

  /** Validation gets the same answers from the byte store as from the ledger. */
  lemma StoreAnswersLikeLedger(w: World, s: KState, store: Store)
    requires s.ledger.Some? && s.inputs.Some? && Represents(w, s, store) && CountersFit(s.ledger.value)
    ensures Agree(DurableReads(store), ReadsOf(s.ledger.value, s.inputs.value.level))
  {
    var l, level := s.ledger.value, s.inputs.value.level;
    var a, b := DurableReads(store), ReadsOf(l, level);
    CountersReadBack(w, s, store);
    FeltReadsBack(w, s, store, AuthDomain, l.authDomain);
    CountReadsBack(w, s, store);
    assert a.authDomain == b.authDomain && a.requiredFee == b.requiredFee && a.noteCount == b.noteCount;
    forall k
      ensures a.hasRoot(k) == b.hasRoot(k) && a.hasNullifier(k) == b.hasNullifier(k)
      ensures a.hasApplied(k) == b.hasApplied(k)
    {
      MarkersReadBack(w, s, store, k);
    }
    forall k
      ensures a.poolBalance(k) == b.poolBalance(k)
    {
      PoolReadsBack(w, s, store, k);
    }
  }

  lemma PoolReadsBack(w: World, s: KState, store: Store, key: Felt)
    requires s.ledger.Some? && Represents(w, s, store)
    ensures ReadPool(store, key) == Ok(PoolBalance(s.ledger.value, key))
  {
    var l := s.ledger.value;
    assert Get(store, Pool(key)) == PoolCell(l.pools, key);
    if PoolBalance(l, key).Some? {
      var bytes := store[Pool(key)];
      assert bytes[..8] == bytes;
      Pow256Values();
      LeRoundTrip(l.pools[key].value, 8);
    }
  }

  lemma CountReadsBack(w: World, s: KState, store: Store)
    requires s.ledger.Some? && s.inputs.Some? && Represents(w, s, store) && CountersFit(s.ledger.value)
    ensures CurrentPrivateTxCount(store) == Ok(AcceptedInLevel(s.ledger.value, s.inputs.value.level))
  {
    var l, level := s.ledger.value, s.inputs.value.level;
    assert Get(store, LastInputLevel) == Some(I32Le(level));
    ReadBackI32(store, LastInputLevel, level);
    assert Get(store, FeeLevel) == LedgerCell(w, l, FeeLevel);
    assert Get(store, FeeCount) == LedgerCell(w, l, FeeCount);
    if l.feeMark.Some? {
      ReadBackI32(store, FeeLevel, l.feeMark.value.level);
      ReadBackU64(store, FeeCount, l.feeMark.value.count);
    }
  }

  lemma VerifierConfigReadsBack(w: World, s: KState, store: Store)
    requires s.ledger.Some? && Represents(w, s, store)
    ensures ReadVerifierConfig(store) == Ok(s.ledger.value.verifier)
  {
    assert Get(store, Path.VerifierConfig) == LedgerCell(w, s.ledger.value, Path.VerifierConfig);
    if s.ledger.value.verifier.Some? {
      var config := s.ledger.value.verifier.value;
      assert store[Path.VerifierConfig][..128] == EncodeConfig(config);
      ConfigRoundTrip(config);
    }
  }

  lemma TicketerReadsBack(w: World, s: KState, store: Store)
    requires Sane(w) && s.ledger.Some? && Represents(w, s, store)
    requires s.ledger.value.ticketer.Some? ==> w.crypto.validContract(s.ledger.value.ticketer.value)
    ensures ReadTicketer(store) == s.ledger.value.ticketer
  {
    assert Get(store, Ticketer) == s.ledger.value.ticketer;
    if s.ledger.value.ticketer.Some? {
      var t := s.ledger.value.ticketer.value;
      assert t[..|t|] == t;
    }
  }

  // ----- Reading the whole ledger back

  function DecodeWithdrawal(w: World, bytes: Bytes): Res<Withdrawal>
  {
    if |bytes| < 12 then Err(BadStoredValue)
    else if |bytes| != 12 + FromLe(bytes[8..12]) then Err(BadStoredValue)
    else if !w.crypto.utf8(bytes[12..]) then Err(BadStoredValue)
    else Ok(Withdrawal(bytes[12..], U64FromLe(bytes[..8])))
  }

  lemma WithdrawalRoundTrip(w: World, r: Withdrawal)
    requires w.crypto.utf8(r.recipient) && |r.recipient| < U32_LIMIT
    ensures DecodeWithdrawal(w, EncodeWithdrawal(r)) == Ok(r)
  {
    var bytes := EncodeWithdrawal(r);
    Pow256Values();
    assert bytes[..8] == LeBytes(r.amount, 8);
    assert bytes[8..12] == LeBytes(|r.recipient|, 4);
    assert bytes[12..] == r.recipient;
    LeRoundTrip(r.amount, 8);
    LeRoundTrip(|r.recipient|, 4);
  }

  /** The in-memory ledger that `read_ledger` returns, field by field. */
  datatype Snapshot = Snapshot(
    authDomain: Felt, leaves: seq<Felt>, memos: seq<Note>,
    nullifiers: set<Felt>, validRoots: set<Felt>, rootHistory: seq<Felt>,
    withdrawals: seq<Withdrawal>, balances: map<Felt, u64>, applied: set<Felt>)

  function Elements(s: seq<Felt>): set<Felt>
  {
    set x | x in s
  }

  /** The ledger a reader finds: an empty one, without roots, before initialisation. */
  function Known(w: World, s: KState): Ledger
  {
    if s.ledger.Some? then s.ledger.value
    else Ledger(w.defaultAuthDomain, [], [], [], [], [], map[], {}, None, None, None)
  }

  /** Notes, nullifiers, roots and withdrawals are rebuilt. The root history keeps
      the fresh ledger's one entry, and no pool or applied shield is read. */
  function SnapshotOf(w: World, s: KState): Snapshot
  {
    var l := Known(w, s);
    Snapshot(l.authDomain, Commitments(l.notes), l.notes, Elements(l.nullifiers), Elements(l.roots),
             [TreeRootOf(w, [])], l.withdrawals, map[], {})
  }

  lemma NoteCellsReadBack(w: World, s: KState, store: Store, i: nat)
    requires s.ledger.Some? && Represents(w, s, store) && i < |s.ledger.value.notes|
    ensures var bytes := StoredNote(s.ledger.value.notes[i]);
            Get(store, NoteBody(i)) == NoteCell(bytes, NoteBody(i))
            && Get(store, NoteLen(i)) == NoteCell(bytes, NoteLen(i))
            && forall c :: Get(store, NoteChunk(i, c)) == NoteCell(bytes, NoteChunk(i, c))
  {
    hide NoteCell, StoredNote;
    forall c
      ensures Get(store, NoteChunk(i, c)) == NoteCell(StoredNote(s.ledger.value.notes[i]), NoteChunk(i, c))
    {
      assert Get(store, NoteChunk(i, c)) == StateCell(w, s, NoteChunk(i, c));
    }
    assert Get(store, NoteBody(i)) == StateCell(w, s, NoteBody(i));
    assert Get(store, NoteLen(i)) == StateCell(w, s, NoteLen(i));
  }

  lemma StoredNoteDecodes(note: Note)
    requires note.enc.Valid()
    ensures DecodePublishedNote(StoredNote(note)) == Ok((note.cm, note.enc))
  {
    PublishedNoteCodecIsExact(StoredNote(note), note.cm, note.enc);
  }

  lemma IndexedCellsReadBack(w: World, s: KState, store: Store, i: nat)
    requires s.ledger.Some? && Represents(w, s, store)
    ensures i < |s.ledger.value.nullifiers|
            ==> ReadFelt(store, NullifierAt(i)) == Ok(Some(s.ledger.value.nullifiers[i]))
    ensures i < |s.ledger.value.roots| ==> ReadFelt(store, RootAt(i)) == Ok(Some(s.ledger.value.roots[i]))
  {
    var l := s.ledger.value;
    if i < |l.nullifiers| {
      FeltReadsBack(w, s, store, NullifierAt(i), l.nullifiers[i]);
    }
    if i < |l.roots| {
      FeltReadsBack(w, s, store, RootAt(i), l.roots[i]);
    }
  }

  lemma WithdrawalReadsBack(w: World, s: KState, store: Store, i: nat)
    requires Sane(w) && s.ledger.Some? && Represents(w, s, store) && i < |s.ledger.value.withdrawals|
    requires w.crypto.validContract(s.ledger.value.withdrawals[i].recipient)
    ensures var cell := ReadStore(store, WithdrawalAt(i), MAX_STORE_BINARY_BYTES);
            cell.Some? && DecodeWithdrawal(w, cell.value) == Ok(s.ledger.value.withdrawals[i])
  {
    var record := s.ledger.value.withdrawals[i];
    assert Get(store, WithdrawalAt(i)) == Some(EncodeWithdrawal(record));
    var bytes := EncodeWithdrawal(record);
    assert |bytes| == 12 + |record.recipient|;
    assert bytes[..Min(|bytes|, MAX_STORE_BINARY_BYTES)] == bytes;
    WithdrawalRoundTrip(w, record);
  }

  lemma ChunkReadsBack(store: Store, index: nat, bytes: Bytes, c: nat)
    requires Get(store, NoteChunk(index, c)) == NoteCell(bytes, NoteChunk(index, c))
    requires |bytes| > MAX_NOTE_CHUNK_BYTES && c * MAX_NOTE_CHUNK_BYTES < |bytes|
    ensures ReadStore(store, NoteChunk(index, c), MAX_NOTE_CHUNK_BYTES)
            == Some(bytes[c * MAX_NOTE_CHUNK_BYTES..Min((c + 1) * MAX_NOTE_CHUNK_BYTES, |bytes|)])
  {
    var chunk := store[NoteChunk(index, c)];
    assert chunk[..|chunk|] == chunk;
  }
}
