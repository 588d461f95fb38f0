/** The rollup kernel over its durable byte store. The ghost field `state` is the
    transition system's view of the store; every method keeps the two in step. */
module Kernels {
  import opened Bytes
  import opened CanonicalWire
  import opened Frontier
  import opened KernelInvariant
  import opened KernelState
  import opened KernelStore
  import opened KernelUpdates
  import opened Merkle
  import opened Paths
  import opened Protocol
  import opened Wrappers
  import Dal

  /** The tree part of a staged commit: every byte it will write. */
  datatype StagedTree = StagedTree(
    encodedNotes: seq<Bytes>, branchValues: seq<(nat, Felt)>, newRoot: Felt, start: nat,
    rootMarker: Option<(nat, Felt)>)

  datatype StagedShield = StagedShield(
    tree: StagedTree, pool: Felt, newBalance: u64, appliedCm: Felt, response: ShieldResp)

  datatype StagedUnshield = StagedUnshield(
    tree: StagedTree, nullifierStart: nat, nullifiers: seq<Felt>,
    withdrawalIndex: nat, record: Withdrawal, response: UnshieldResp)

  class Kernel {
    const w: World
    const zeroHashes: seq<Felt>
    var store: Store
    var outbox: seq<Bytes>
    ghost var state: KState

    /** The store is the layout of an initialised state, and the outbox is its outbox. */
    ghost predicate Holds()
      reads this
    {
      && IsZeroHashes(w.crypto.node, w.crypto.depth, zeroHashes)
      && state.inputs.Some? && state.ledger.Some?
      && Represents(w, state, store)
      && CountersFit(state.ledger.value)
      && outbox == state.outbox
    }

    ghost function L(): Ledger
      reads this
      requires state.ledger.Some?
    {
      state.ledger.value
    }

    ghost function Level(): i32
      reads this
      requires state.inputs.Some?
    {
      state.inputs.value.level
    }

    // ----- The write half of the ledger interface

    method InsertNullifier(nf: Felt)
      requires Holds() && |L().nullifiers| + 1 < U64_LIMIT
      modifies this
      ensures Holds() && state == With(old(state), WithNullifier(old(L()), nf))
    {
      hide Represents;
      MarkersReadBack(w, state, store, nf);
      if !HasMarker(store, Nullifier(nf)) {
        CounterReadsBack(w, state, store, NullifierCount, |L().nullifiers|);
        NullifierWritten(w, state, store, nf);
        var index := ReadCount(store, NullifierCount).value;
        store := store[Nullifier(nf) := [1]];
        store := store[NullifierAt(index) := nf];
        store := store[NullifierCount := LeBytes(index + 1, 8)];
      }
      state := With(state, WithNullifier(L(), nf));
    }

    method SnapshotTreeRoot() returns (r: Outcome<LedgerError>)
      requires Holds() && |L().roots| + 1 < U64_LIMIT
      modifies this
      ensures r == Pass
      ensures Holds() && state == With(old(state), SnapshotRoot(w, old(L())))
    {
      hide Represents, TreeRootOf;
      FeltReadsBack(w, state, store, TreeRoot, TreeRootOf(w, L().notes));
      match ReadFelt(store, TreeRoot) {
        case Err(e) => return Fail(e);
        case Ok(None) => return Fail(MissingTreeRoot);
        case Ok(Some(root)) =>
          MarkersReadBack(w, state, store, root);
          if !HasMarker(store, RootMarker(root)) {
            CounterReadsBack(w, state, store, RootCount, |L().roots|);
            RootWritten(w, state, store, root);
            var index := ReadCount(store, RootCount).value;
            store := store[RootMarker(root) := [1]];
            store := store[RootAt(index) := root];
            store := store[RootCount := LeBytes(index + 1, 8)];
          }
          state := With(state, WithRoot(L(), root));
          return Pass;
      }
    }

    method EnqueueWithdrawal(record: Withdrawal) returns (index: nat)
      requires Holds() && |L().withdrawals| + 1 < U64_LIMIT
      modifies this
      ensures index == |old(L()).withdrawals|
      ensures Holds()
      ensures state == With(old(state), old(L()).(withdrawals := old(L()).withdrawals + [record]))
    {
      CounterReadsBack(w, state, store, WithdrawalCount, |L().withdrawals|);
      WithdrawalWritten(w, state, store, record);
      index := ReadCount(store, WithdrawalCount).value;
      store := store[WithdrawalAt(index) := EncodeWithdrawal(record)];
      store := store[WithdrawalCount := LeBytes(index + 1, 8)];
      state := With(state, L().(withdrawals := L().withdrawals + [record]));
    }

    method NotePrivateTxApplied()
      requires Holds() && AcceptedInLevel(L(), Level()) + 1 < U64_LIMIT
      modifies this
      ensures Holds() && state == With(old(state), NotePrivateTx(old(L()), old(Level())))
    {
      InputLevelReadsBack();
      var current := ReadI32(store, LastInputLevel);
      if current.None? {
        return;
      }
      CountReadsBack(w, state, store);
      var count := CurrentPrivateTxCount(store);
      var next := (if count.Ok? then count.value else 0) + 1;
      FeeMarkWritten(w, state, store, FeeMark(current.value, next));
      store := store[FeeLevel := I32Le(current.value)];
      store := store[FeeCount := LeBytes(next, 8)];
      state := With(state, NotePrivateTx(L(), Level()));
    }

    lemma InputLevelReadsBack()
      requires Holds()
      ensures ReadI32(store, LastInputLevel) == Some(Level())
    {
      assert Get(store, LastInputLevel) == StateCell(w, state, LastInputLevel);
      ReadBackI32(store, LastInputLevel, Level());
    }

    method CreditDeposit(key: Felt, amount: u64) returns (r: Outcome<LedgerError>)
      requires Holds()
      modifies this
      ensures Holds()
      ensures var balance := if PoolBalance(old(L()), key).Some? then PoolBalance(old(L()), key).value else 0;
              if balance + amount >= U64_LIMIT then r == Fail(BalanceOverflow) && state == old(state)
              else
                r == Pass
                && state == With(old(state), old(L()).(pools := old(L()).pools[key := Some(balance + amount)]))
    {
      hide Represents;
      PoolReadsBack(w, state, store, key);
      hide ReadPool;
      match ReadPool(store, key) {
        case Err(e) => return Fail(e);
        case Ok(pool) =>
          var current := if pool.Some? then pool.value else 0;
          if current + amount >= U64_LIMIT {
            return Fail(BalanceOverflow);
          }
          PoolWritten(w, state, store, key, Some(current + amount));
          store := store[Pool(key) := LeBytes(current + amount, 8)];
          state := With(state, L().(pools := L().pools[key := Some(current + amount)]));
          return Pass;
      }
    }

    method DebitDeposit(key: Felt, amount: u64) returns (r: Outcome<LedgerError>)
      requires Holds()
      modifies this
      ensures Holds()
      ensures var balance := PoolBalance(old(L()), key);
              if balance.None? then r == Fail(NoPool) && state == old(state)
              else if balance.value < amount then r == Fail(PoolTooSmall) && state == old(state)
              else r == Pass && state == With(old(state), DebitPool(old(L()), key, amount))
    {
      PoolReadsBack(w, state, store, key);
      match ReadPool(store, key) {
        case Err(e) => return Fail(e);
        case Ok(None) => return Fail(NoPool);
        case Ok(Some(current)) =>
          if current < amount {
            return Fail(PoolTooSmall);
          }
          var next := current - amount;
          PoolWritten(w, state, store, key, if next == 0 then None else Some(next));
          if next == 0 {
            store := store[Pool(key) := []];
          } else {
            store := store[Pool(key) := LeBytes(next, 8)];
          }
          state := With(state, DebitPool(L(), key, amount));
          return Pass;
      }
    }

    method MarkAppliedShield(cm: Felt)
      requires Holds()
      modifies this
      ensures Holds() && state == With(old(state), old(L()).(applied := old(L()).applied + {cm}))
    {
      AppliedWritten(w, state, store, cm);
      store := store[AppliedShield(cm) := [1]];
      state := With(state, L().(applied := L().applied + {cm}));
    }

    method StoredSize() returns (size: nat)
      requires Holds()
      ensures size == |L().notes|
    {
      CounterReadsBack(w, state, store, TreeSize, |L().notes|);
      size := ReadCount(store, TreeSize).value;
    }

    method WriteBranchValues(ghost target: Branches, values: seq<(nat, Felt)>)
      requires values == Filled(target, 0)
      requires forall i :: 0 <= i < |target| && target[i].None? ==> Get(store, Branch(i)).None?
      requires forall p: Path :: p.Branch? && p.level >= |target| ==> Get(store, p).None?
      modifies this`store
      ensures SlotsStored(target, old(store), store)
    {
      ghost var level := 0;
      for i := 0 to |values|
        invariant level <= |target|
        invariant values[i..] == Filled(target, level)
        invariant forall p :: Get(store, p) ==
                    if p.Branch? && p.level < level then SlotCell(target, p.level) else Get(old(store), p)
      {
        level := NextFilled(target, level);
        var (at, felt) := values[i];
        assert values[i..][0] == values[i] && values[i..][1..] == values[i + 1..];
        store := store[Branch(at) := felt];
        level := level + 1;
      }
      NoneFilled(target, level);
    }

    /** Skip the empty slots before the next filled one. */
    lemma NextFilled(target: Branches, level: nat) returns (next: nat)
      requires Filled(target, level) != []
      ensures level <= next < |target| && target[next].Some?
      ensures Filled(target, level) == [(next, target[next].value)] + Filled(target, next + 1)
      ensures forall i :: level <= i < next ==> target[i].None?
      decreases |target| - level
    {
      if target[level].Some? {
        next := level;
      } else {
        next := NextFilled(target, level + 1);
      }
    }

    lemma {:induction false} NoneFilled(target: Branches, level: nat)
      requires Filled(target, level) == []
      ensures forall i :: level <= i < |target| ==> target[i].None?
      decreases |target| - level
    {
      if level >= |target| {
      } else {
        NoneFilled(target, level + 1);
      }
    }

    /** Write a staged tree: notes, slots, root, size. */
    method WriteStagedTree(ghost notes: seq<Note>, t: StagedTree)
      requires Holds() && |L().branches| == w.crypto.depth && |L().notes| + |notes| < U64_LIMIT
      requires StagesTree(L(), notes, t)
      modifies this
      ensures Holds() && state == With(old(state), AppendNotes(w, old(L()), notes))
    {
      hide StateCell, TreeRootOf, AppendNotes, StoredNote, Appended;
      AppendNotesShape(w, L(), notes);
      ghost var after := AppendNotes(w, L(), notes);
      for i := 0 to |t.encodedNotes|
        invariant outbox == old(outbox) && state == old(state)
        invariant NotesPut(old(store), store, t.start, t.encodedNotes[..i])
      {
        ghost var put := store;
        assert |t.encodedNotes[i]| < U64_LIMIT by {
          StoredNoteIsShort(notes[i]);
        }
        WriteNotePayload(t.start + i, t.encodedNotes[i]);
        NotesPutOneMore(old(store), put, store, t.start, t.encodedNotes[..i], t.encodedNotes[i]);
        assert t.encodedNotes[..i] + [t.encodedNotes[i]] == t.encodedNotes[..i + 1];
      }
      assert t.encodedNotes[..|t.encodedNotes|] == t.encodedNotes;
      ghost var put := store;
      BranchCellsBefore(w, state, old(store), put, t.start, t.encodedNotes);
      WriteBranchValues(after.branches, t.branchValues);
      BatchStored(w, state, old(store), put, store, notes);
      store := store[TreeRoot := t.newRoot];
      store := store[TreeSize := LeBytes(t.start + |t.encodedNotes|, 8)];
      state := With(state, after);
    }

    /** Write a staged root marker, if any. */
    method WriteRootMarker(marker: Option<(nat, Felt)>)
      requires Holds() && |L().roots| + 1 < U64_LIMIT
      requires var root := TreeRootOf(w, L().notes);
               marker == if root in L().roots then None else Some((|L().roots|, root))
      modifies this
      ensures Holds() && state == With(old(state), SnapshotRoot(w, old(L())))
    {
      match marker {
        case None =>
        case Some(indexed) =>
          RootWritten(w, state, store, indexed.1);
          store := store[RootMarker(indexed.1) := [1]];
          store := store[RootAt(indexed.0) := indexed.1];
          store := store[RootCount := LeBytes(indexed.0 + 1, 8)];
      }
      state := With(state, SnapshotRoot(w, L()));
    }

    /** Write staged nullifiers: markers and index entries one by one, the count once. */
    method WriteNullifiers(start: nat, nullifiers: seq<Felt>)
      requires Holds() && start == |L().nullifiers| && |L().nullifiers| + |nullifiers| < U64_LIMIT
      modifies this
      ensures Holds()
      ensures state == With(old(state), old(L()).(nullifiers := old(L()).nullifiers + nullifiers))
    {
      hide StateCell;
      var index := start;
      for i := 0 to |nullifiers|
        invariant outbox == old(outbox) && state == old(state) && index == start + i
        invariant NullifiersPut(old(store), store, start, nullifiers[..i])
      {
        ghost var put := store;
        store := store[Nullifier(nullifiers[i]) := [1]];
        store := store[NullifierAt(index) := nullifiers[i]];
        index := index + 1;
        OneMoreNullifier(old(store), put, start, nullifiers[..i], nullifiers[i]);
        assert nullifiers[..i] + [nullifiers[i]] == nullifiers[..i + 1];
      }
      assert nullifiers[..|nullifiers|] == nullifiers;
      NullifiersStored(w, state, old(store), store, nullifiers);
      store := store[NullifierCount := LeBytes(index, 8)];
      state := With(state, L().(nullifiers := L().nullifiers + nullifiers));
    }

    /** Store one note, in chunks when it is long. */
    method WriteNotePayload(index: nat, encoded: Bytes)
      requires |encoded| < U64_LIMIT
      modifies this`store
      ensures NotePut(old(store), store, index, encoded)
    {
      if |encoded| <= MAX_NOTE_CHUNK_BYTES {
        store := store[NoteBody(index) := encoded];
        return;
      }
      store := store[NoteLen(index) := LeBytes(|encoded|, 8)];
      var c := 0;
      while c * MAX_NOTE_CHUNK_BYTES < |encoded|
        invariant forall p :: Get(store, p) ==
                    if p == NoteLen(index) then Some(LeBytes(|encoded|, 8))
                    else if p.NoteChunk? && p.index == index && p.chunk < c && Chunk(encoded, p.chunk).Some?
                    then Chunk(encoded, p.chunk)
                    else Get(old(store), p)
        decreases |encoded| - c * MAX_NOTE_CHUNK_BYTES
      {
        var lo := c * MAX_NOTE_CHUNK_BYTES;
        store := store[NoteChunk(index, c) := encoded[lo..Min(lo + MAX_NOTE_CHUNK_BYTES, |encoded|)]];
        c := c + 1;
      }
    }

    /** The loop of `append_note` over the stored frontier. */
    method WriteFrontier(ghost before: Branches, start: nat, cm: Felt) returns (r: Res<Felt>)
      requires IsZeroHashes(w.crypto.node, w.crypto.depth, zeroHashes)
      requires |before| == w.crypto.depth && SlotsStored(before, store, store)
      modifies this`store
      ensures match Walk(w.crypto.node, before, 0, start, cm)
              case Err(_) => r == Err(MissingFrontierNode)
              case Ok(walk) => r == Ok(walk.0) && SlotsStored(walk.1, old(store), store)
    {
      ghost var slots := before;
      var current: Felt, index: nat := cm, start;
      for level := 0 to w.crypto.depth
        invariant |slots| == w.crypto.depth
        invariant Walk(w.crypto.node, slots, level, index, current) == Walk(w.crypto.node, before, 0, start, cm)
        invariant SlotsStored(slots, old(store), store)
      {
        if index % 2 == 0 {
          store := store[Branch(level) := current];
          slots := slots[level := Some(current)];
          current := w.crypto.node(current, zeroHashes[level]);
        } else {
          assert Get(store, Branch(level)) == SlotCell(slots, level);
          if slots[level].Some? {
            ReadBackFelt(store, Branch(level), slots[level].value);
          }
          match ReadFelt(store, Branch(level)) {
            case Err(e) => return Err(e);
            case Ok(None) => return Err(MissingFrontierNode);
            case Ok(Some(left)) => current := w.crypto.node(left, current);
          }
        }
        index := index / 2;
      }
      r := Ok(current);
    }

    /** Append one note through the stored frontier. The note is written before
        its index is converted to the host's `usize`, which may then fail. */
    method AppendOneNote(note: Note) returns (r: Res<nat>)
      requires Holds() && TreeInv(w, L()) && note.enc.Valid() && |L().notes| + 1 < U64_LIMIT
      modifies this
      ensures Holds()
      ensures |old(L()).notes| >= Pow2(w.crypto.depth) ==> r == Err(TreeIsFull) && state == old(state)
      ensures |old(L()).notes| < Pow2(w.crypto.depth) ==>
                state == With(old(state), AppendNote(w, old(L()), note))
                && r == if |old(L()).notes| > w.crypto.usizeMax then Err(IndexDoesNotFit) else Ok(|old(L()).notes|)
    {
      hide StateCell, Represents, TreeRootOf, Walk, Appended;
      var count := StoredSize();
      if count >= Pow2(w.crypto.depth) {
        return Err(TreeIsFull);
      }
      var encoded := EncodePublishedNote(note.cm, note.enc).value;
      WriteNotePayload(count, encoded);
      ghost var put := store;
      BranchesStored(w, state, old(store), put, encoded);
      AppendWalk(w, L(), note);
      var root := WriteFrontier(L().branches, count, note.cm);
      match root {
        case Err(e) => return Err(e);
        case Ok(top) =>
          AppendStored(w, state, old(store), put, store, note);
          store := store[TreeRoot := top];
          store := store[TreeSize := LeBytes(count + 1, 8)];
          state := With(state, AppendNote(w, L(), note));
          return if count > w.crypto.usizeMax then Err(IndexDoesNotFit) else Ok(count);
      }
    }

    // ----- The generic commits, run on the durable store

    ghost predicate Valid()
      reads this
    {
      Sane(w) && Holds() && LedgerInv(w, L())
    }

    /** The checks of `apply_transfer`, answered from the store. */
    method CheckTransferOnStore(req: TransferReq) returns (r: Outcome<LedgerError>)
      requires Holds()
      ensures r == CheckTransfer(w.crypto, ReadsOf(L(), Level()), req)
    {
      StoreAnswersLikeLedger(w, state, store);
      CheckTransferCongruent(w.crypto, DurableReads(store), ReadsOf(L(), Level()), req);
      r := CheckTransfer(w.crypto, DurableReads(store), req);
    }

    /** Insert nullifiers known to be fresh and distinct. */
    method InsertNullifiers(nullifiers: seq<Felt>)
      requires Holds() && |L().nullifiers| + |nullifiers| < U64_LIMIT
      requires Distinct(nullifiers) && forall i :: 0 <= i < |nullifiers| ==> nullifiers[i] !in L().nullifiers
      modifies this
      ensures Holds()
      ensures state == With(old(state), old(L()).(nullifiers := old(L()).nullifiers + nullifiers))
    {
      ghost var l := L();
      assert l.nullifiers + nullifiers[..0] == l.nullifiers;
      for i := 0 to |nullifiers|
        invariant Holds() && state == With(old(state), l.(nullifiers := l.nullifiers + nullifiers[..i]))
      {
        assert nullifiers[i] !in l.nullifiers + nullifiers[..i];
        InsertNullifier(nullifiers[i]);
        assert l.nullifiers + nullifiers[..i] + [nullifiers[i]] == l.nullifiers + nullifiers[..i + 1];
      }
      assert nullifiers[..|nullifiers|] == nullifiers;
    }

    /** `snapshot_root` then `note_private_tx_applied`, as every commit ends. */
    method FinishPrivateTx()
      requires Holds() && |L().roots| + 1 < U64_LIMIT && AcceptedInLevel(L(), Level()) + 1 < U64_LIMIT
      modifies this
      ensures Holds() && state == With(old(state), NotePrivateTx(SnapshotRoot(w, old(L())), old(Level())))
    {
      var snapped := SnapshotTreeRoot();
      NotePrivateTxApplied();
    }

    /** The last append of a commit, with the bookkeeping that ends it. */
    method AppendLast(note: Note) returns (r: Res<nat>)
      requires Holds() && TreeInv(w, L()) && note.enc.Valid()
      requires |L().notes| < Pow2(w.crypto.depth) && |L().notes| + 1 < U64_LIMIT
      requires |L().roots| + 1 < U64_LIMIT && AcceptedInLevel(L(), Level()) + 1 < U64_LIMIT
      modifies this
      ensures Holds()
      ensures |old(L()).notes| <= w.crypto.usizeMax ==>
                r == Ok(|old(L()).notes|)
                && state == With(old(state),
                   NotePrivateTx(SnapshotRoot(w, AppendNote(w, old(L()), note)), old(Level())))
      ensures |old(L()).notes| > w.crypto.usizeMax ==>
                r == Err(IndexDoesNotFit) && state == With(old(state), AppendNote(w, old(L()), note))
    {
      r := AppendOneNote(note);
      if r.Ok? {
        FinishPrivateTx();
      }
    }

    method DebitAndMark(key: Felt, debit: u64, cm: Felt)
      requires Holds() && PoolBalance(L(), key).Some? && PoolBalance(L(), key).value >= debit
      modifies this
      ensures Holds()
      ensures state == With(old(state), Drawn(old(L()), key, debit, cm))
    {
      var debited := DebitDeposit(key, debit);
      MarkAppliedShield(cm);
    }

    /** `commit_prepared_shield` writing straight through. On a host whose
        `usize` cannot hold an index it stops after the pool was debited. */
    method CommitPreparedShield(p: PreparedShield) returns (r: Res<ShieldResp>)
      requires Valid() && p.clientEnc.Valid() && p.producerEnc.Valid()
      requires PoolBalance(L(), p.pubkeyHash).Some? && PoolBalance(L(), p.pubkeyHash).value >= p.debit
      requires |L().notes| + 2 <= Pow2(w.crypto.depth)
      modifies this
      ensures Holds()
      ensures |old(L()).notes| + 1 <= w.crypto.usizeMax ==>
                state == With(old(state), ShieldLedger(w, old(L()), old(Level()), p))
                && r == Ok(ShieldResp(p.clientCm, |old(L()).notes|, p.producerCm, |old(L()).notes| + 1))
      ensures |old(L()).notes| + 1 > w.crypto.usizeMax ==>
                r == Err(IndexDoesNotFit) && state == With(old(state), StoppedShield(w, old(L()), p))
    {
      InvariantBoundsCounters(w, L());
      DebitAndMark(p.pubkeyHash, p.debit, p.clientCm);
      AppendKeepsTreeInv(w, L(), Note(p.clientCm, p.clientEnc));
      var first := AppendOneNote(Note(p.clientCm, p.clientEnc));
      match first {
        case Err(e) => return Err(e);
        case Ok(index) =>
          var second := AppendLast(Note(p.producerCm, p.producerEnc));
          match second {
            case Err(e) => return Err(e);
            case Ok(producerIndex) => return Ok(ShieldResp(p.clientCm, index, p.producerCm, producerIndex));
          }
      }
    }

    /** Append the change note, if there is one. */
    method AppendChange(change: Option<Note>) returns (r: Res<Option<nat>>)
      requires Holds() && TreeInv(w, L()) && |L().notes| + 1 < U64_LIMIT
      requires change.Some? ==> change.value.enc.Valid() && |L().notes| < Pow2(w.crypto.depth)
      modifies this
      ensures Holds() && TreeInv(w, L())
      ensures state == With(old(state), if change.Some? then AppendNote(w, old(L()), change.value) else old(L()))
      ensures r == if change.None? then Ok(None)
                   else if |old(L()).notes| > w.crypto.usizeMax then Err(IndexDoesNotFit)
                     else Ok(Some(|old(L()).notes|))
    {
      match change {
        case None => return Ok(None);
        case Some(note) =>
          AppendKeepsTreeInv(w, L(), note);
          var index := AppendOneNote(note);
          match index {
            case Err(e) => return Err(e);
            case Ok(i) => return Ok(Some(i));
          }
      }
    }

    /** `commit_prepared_unshield` writing straight through. On a host whose
        `usize` cannot hold an index it stops after the withdrawal was queued. */
    method CommitPreparedUnshield(p: PreparedUnshield) returns (r: Res<UnshieldResp>)
      requires Valid() && p.producerNote.enc.Valid() && (p.changeNote.Some? ==> p.changeNote.value.enc.Valid())
      requires |p.nullifiers| <= MAX_NULLIFIERS && Distinct(p.nullifiers)
      requires forall i :: 0 <= i < |p.nullifiers| ==> p.nullifiers[i] !in L().nullifiers
      requires |L().notes| + |UnshieldNotes(p)| <= Pow2(w.crypto.depth)
      modifies this
      ensures Holds()
      ensures |old(L()).notes| + |UnshieldNotes(p)| - 1 <= w.crypto.usizeMax ==>
                state == With(old(state), UnshieldLedger(w, old(L()), old(Level()), p))
                && r == Ok(UnshieldResponse(|old(L()).notes|, p))
      ensures |old(L()).notes| + |UnshieldNotes(p)| - 1 > w.crypto.usizeMax ==>
                r == Err(IndexDoesNotFit) && state == With(old(state), StoppedUnshield(w, old(L()), p))
    {
      hide Represents, TreeRootOf, AppendNote, TreeInv, Distinct;
      InvariantBoundsCounters(w, L());
      ghost var l := L();
      var queued := EnqueueWithdrawal(Withdrawal(p.recipient, p.amount));
      TreeInvLocal(w, l, L());
      UnshieldOrders(w, l, p);
      r := ChangeThenSpend(p);
    }

    /** What a queued unshield writes next: change, nullifiers, producer note. */
    method ChangeThenSpend(p: PreparedUnshield) returns (r: Res<UnshieldResp>)
      requires Holds() && TreeInv(w, L()) && p.producerNote.enc.Valid()
      requires p.changeNote.Some? ==> p.changeNote.value.enc.Valid()
      requires Distinct(p.nullifiers) && forall i :: 0 <= i < |p.nullifiers| ==> p.nullifiers[i] !in L().nullifiers
      requires |L().notes| + |UnshieldNotes(p)| <= Pow2(w.crypto.depth) && |L().notes| + 2 < U64_LIMIT
      requires |L().nullifiers| + |p.nullifiers| < U64_LIMIT
      requires |L().roots| + 1 < U64_LIMIT && AcceptedInLevel(L(), Level()) + 1 < U64_LIMIT
      modifies this
      ensures Holds()
      ensures var l := old(L());
              var changed := if p.changeNote.Some? then AppendNote(w, l, p.changeNote.value) else l;
              var spent := changed.(nullifiers := changed.nullifiers + p.nullifiers);
              if |l.notes| + |UnshieldNotes(p)| - 1 > w.crypto.usizeMax then
                r == Err(IndexDoesNotFit)
                && state == With(old(state), if p.changeNote.Some? && |l.notes| > w.crypto.usizeMax then changed
                                             else AppendNote(w, spent, p.producerNote))
              else
                state == With(old(state),
                  NotePrivateTx(SnapshotRoot(w, AppendNote(w, spent, p.producerNote)), old(Level())))
                && r == Ok(UnshieldResponse(|l.notes|, p))
    {
      hide Represents, TreeRootOf, AppendNote, TreeInv, Distinct;
      AppendNoteShape(w, L(), if p.changeNote.Some? then p.changeNote.value else p.producerNote);
      var changeIndex := AppendChange(p.changeNote);
      match changeIndex {
        case Err(e) => return Err(e);
        case Ok(change) =>
          AppendNoteShape(w, L().(nullifiers := L().nullifiers + p.nullifiers), p.producerNote);
          var producer := SpendAndAppend(p.nullifiers, p.producerNote);
          match producer {
            case Err(e) => return Err(e);
            case Ok(index) => return Ok(UnshieldResp(change, index));
          }
      }
    }

    /** The nullifiers, then the last note. */
    method SpendAndAppend(nullifiers: seq<Felt>, note: Note) returns (r: Res<nat>)
      requires Holds() && TreeInv(w, L()) && note.enc.Valid()
      requires Distinct(nullifiers) && forall i :: 0 <= i < |nullifiers| ==> nullifiers[i] !in L().nullifiers
      requires |L().notes| < Pow2(w.crypto.depth) && |L().notes| + 1 < U64_LIMIT
      requires |L().nullifiers| + |nullifiers| < U64_LIMIT
      requires |L().roots| + 1 < U64_LIMIT && AcceptedInLevel(L(), Level()) + 1 < U64_LIMIT
      modifies this
      ensures Holds()
      ensures var spent := old(L()).(nullifiers := old(L()).nullifiers + nullifiers);
              if |old(L()).notes| > w.crypto.usizeMax then
                r == Err(IndexDoesNotFit) && state == With(old(state), AppendNote(w, spent, note))
              else
                r == Ok(|old(L()).notes|)
                && state == With(old(state), NotePrivateTx(SnapshotRoot(w, AppendNote(w, spent, note)), old(Level())))
    {
      hide Represents, TreeRootOf, AppendNote, TreeInv, Distinct;
      InsertNullifiers(nullifiers);
      TreeInvLocal(w, old(L()), L());
      r := AppendLast(note);
    }

    method AppendThreeNotes(a: Note, b: Note, c: Note) returns (r: Res<TransferResp>)
      requires Holds() && TreeInv(w, L()) && a.enc.Valid() && b.enc.Valid() && c.enc.Valid()
      requires |L().notes| + 3 <= Pow2(w.crypto.depth) && |L().notes| + 3 < U64_LIMIT
      modifies this
      ensures Holds()
      ensures var size := |old(L()).notes|;
              var appended := AppendFallible(w, old(L()), [a, b, c]);
              state == With(old(state), appended.0)
              && r == if appended.1 then Ok(TransferResp(size, size + 1, size + 2)) else Err(IndexDoesNotFit)
    {
      AppendThree(w, L(), a, b, c);
      AppendKeepsTreeInv(w, L(), a);
      AppendKeepsTreeInv(w, AppendNote(w, L(), a), b);
      var first := AppendOneNote(a);
      match first {
        case Err(e) => return Err(e);
        case Ok(index1) =>
          var second := AppendOneNote(b);
          match second {
            case Err(e) => return Err(e);
            case Ok(index2) =>
              var third := AppendOneNote(c);
              match third {
                case Err(e) => return Err(e);
                case Ok(index3) => return Ok(TransferResp(index1, index2, index3));
              }
          }
      }
    }

    /** The writes of `apply_transfer`, in its order. */
    method WriteTransfer(req: TransferReq) returns (r: Res<TransferResp>)
      requires Valid() && CheckTransfer(w.crypto, ReadsOf(L(), Level()), req).Pass?
      modifies this
      ensures Holds()
      ensures var size := |old(L()).notes|;
              var appended := AppendFallible(w, old(L()), TransferNotes(req));
              if appended.1 then
                r == Ok(TransferResp(size, size + 1, size + 2))
                && state == With(old(state), TransferLedger(w, appended.0, old(Level()), req))
              else r == Err(IndexDoesNotFit) && state == With(old(state), appended.0)
    {
      hide CheckTransfer;
      TransferAccepted(w, L(), Level(), req);
      InvariantBoundsCounters(w, L());
      AppendsKeepRest(w, L(), TransferNotes(req));
      r := AppendThreeNotes(Note(req.cm1, req.enc1), Note(req.cm2, req.enc2), Note(req.cm3, req.enc3));
      if r.Ok? {
        InsertNullifiers(req.nullifiers);
        FinishPrivateTx();
      }
    }

    /** `apply_transfer` on the durable store: it writes as it goes. */
    method ApplyTransferDirect(req: TransferReq) returns (r: Res<TransferResp>)
      requires Valid()
      modifies this
      ensures Holds()
      ensures var reply := TransferReply(w, old(L()), old(Level()), req);
              state == With(old(state), reply.ledger)
              && reply.result == match r case Ok(resp) => Transferred(resp) case Err(e) => Error(e)
    {
      var checked := CheckTransferOnStore(req);
      match checked {
        case Fail(e) => return Err(e);
        case Pass => r := WriteTransfer(req);
      }
    }

    // ----- The staged commits: plan everything, then write without failing

    /** What the tree part of a commit appending `notes` must contain. */
    ghost predicate StagesTree(l: Ledger, notes: seq<Note>, t: StagedTree)
    {
      var after := AppendNotes(w, l, notes);
      && t.encodedNotes == StoredNotes(notes)
      && t.branchValues == Filled(after.branches, 0)
      && t.newRoot == TreeRootOf(w, l.notes + notes)
      && t.start == |l.notes|
      && t.rootMarker == if t.newRoot in l.roots then None else Some((|l.roots|, t.newRoot))
    }

    /** Read every frontier slot into memory. */
    method LoadBranches() returns (r: Res<array<Option<Felt>>>)
      requires Holds() && |L().branches| == w.crypto.depth
      ensures r.Ok? && fresh(r.value) && r.value[..] == L().branches
    {
      var slots := new Option<Felt>[w.crypto.depth](_ => None);
      for level := 0 to w.crypto.depth
        invariant slots[..level] == L().branches[..level]
      {
        assert Get(store, Branch(level)) == StateCell(w, state, Branch(level));
        if L().branches[level].Some? {
          ReadBackFelt(store, Branch(level), L().branches[level].value);
        }
        match ReadFelt(store, Branch(level)) {
          case Err(e) => return Err(e);
          case Ok(slot) => slots[level] := slot;
        }
      }
      assert slots[..] == L().branches;
      return Ok(slots);
    }

    /** Load the slots and check that every live one is filled. */
    method LoadCheckedBranches(size: nat) returns (r: Res<array<Option<Felt>>>)
      requires Holds() && TreeInv(w, L()) && size == |L().notes|
      ensures r.Ok? && fresh(r.value) && r.value[..] == L().branches
    {
      hide StateCell;
      r := LoadBranches();
      LiveHasSlots(w.crypto.node, Commitments(L().notes), L().branches);
      var sound := AssertFrontierMatchesTreeSize(r.value, size);
      if !sound {
        return Err(CorruptedFrontier);
      }
    }

    /** Plan one append on the in-memory slots. */
    method StageAppend(branches: array<Option<Felt>>, index: nat, note: Note, ghost l: Ledger)
      returns (r: Res<(Bytes, Felt)>)
      requires IsZeroHashes(w.crypto.node, w.crypto.depth, zeroHashes)
      requires TreeInv(w, l) && branches[..] == l.branches && index == |l.notes| < Pow2(w.crypto.depth)
      requires note.enc.Valid()
      modifies branches
      ensures r == Ok((StoredNote(note), TreeRootOf(w, l.notes + [note])))
      ensures branches[..] == AppendNote(w, l, note).branches
    {
      AppendWalk(w, l, note);
      var encoded := EncodePublishedNote(note.cm, note.enc);
      var root := SimulateFrontierAppend(w.crypto.node, zeroHashes, branches, index, note.cm);
      r := match (encoded, root)
        case (Ok(bytes), Ok(top)) => Ok((bytes, top))
        case (Err(_), _) => Err(InvalidNote)
        case (_, Err(_)) => Err(MissingFrontierNode);
    }

    /** The filled slots, lowest level first. */
    method CollectBranches(branches: array<Option<Felt>>) returns (values: seq<(nat, Felt)>)
      ensures values == Filled(branches[..], 0)
    {
      values := [];
      for level := 0 to branches.Length
        invariant values + Filled(branches[..], level) == Filled(branches[..], 0)
      {
        match branches[level] {
          case None =>
            assert Filled(branches[..], level) == [] + Filled(branches[..], level + 1);
          case Some(felt) =>
            assert Filled(branches[..], level) == [(level, felt)] + Filled(branches[..], level + 1);
            values := values + [(level, felt)];
        }
      }
    }

    /** Plan the root marker: only a root not yet recorded gets one. */
    method StageRootMarker(root: Felt) returns (r: Res<Option<(nat, Felt)>>)
      requires Holds()
      ensures r == Ok(if root in L().roots then None else Some((|L().roots|, root)))
    {
      MarkersReadBack(w, state, store, root);
      if HasMarker(store, RootMarker(root)) {
        return Ok(None);
      }
      CounterReadsBack(w, state, store, RootCount, |L().roots|);
      return Ok(Some((ReadCount(store, RootCount).value, root)));
    }

    /** Simulate the appends of `notes` in turn. */
    method StageNotes(branches: array<Option<Felt>>, start: nat, notes: seq<Note>)
      returns (encoded: seq<Bytes>, root: Felt)
      requires Holds() && TreeInv(w, L()) && start == |L().notes| && branches[..] == L().branches
      requires notes != [] && |L().notes| + |notes| <= Pow2(w.crypto.depth)
      requires forall i :: 0 <= i < |notes| ==> notes[i].enc.Valid()
      modifies branches
      ensures encoded == StoredNotes(notes)
      ensures branches[..] == AppendNotes(w, L(), notes).branches
      ensures root == TreeRootOf(w, L().notes + notes)
    {
      hide Represents, CountersFit, TreeRootOf, StoredNote, Appended;
      encoded, root := [], ZERO;
      for i := 0 to |notes|
        invariant encoded == StoredNotes(notes[..i])
        invariant branches[..] == AppendNotes(w, L(), notes[..i]).branches
        invariant i > 0 ==> root == TreeRootOf(w, L().notes + notes[..i])
      {
        AppendNotesKeepTreeInv(w, L(), notes[..i]);
        AppendNotesShape(w, L(), notes[..i]);
        var planned := StageAppend(branches, start + i, notes[i], AppendNotes(w, L(), notes[..i]));
        assert notes[..i + 1] == notes[..i] + [notes[i]];
        assert L().notes + notes[..i] + [notes[i]] == L().notes + notes[..i + 1];
        encoded := encoded + [planned.value.0];
        root := planned.value.1;
      }
      assert notes[..|notes|] == notes;
    }

    /** Plan the tree part of a shield or unshield: the frontier is loaded and
        checked, every note simulated, and the root marker decided. */
    method StageTree(notes: seq<Note>) returns (r: Res<StagedTree>)
      requires Valid() && notes != [] && |L().notes| + |notes| <= Pow2(w.crypto.depth)
      requires forall i :: 0 <= i < |notes| ==> notes[i].enc.Valid()
      ensures r.Ok? && StagesTree(L(), notes, r.value)
    {
      hide Represents, TreeRootOf, AppendNotes, StoredNotes, Filled, Live;
      InvariantBoundsCounters(w, L());
      var start := StoredSize();
      var loaded := LoadCheckedBranches(start);
      var encoded, root := StageNotes(loaded.value, start, notes);
      var values := CollectBranches(loaded.value);
      var marker := StageRootMarker(root);
      return Ok(StagedTree(encoded, values, root, start, marker.value));
    }

    ghost predicate StagesShield(l: Ledger, p: PreparedShield, c: StagedShield)
    {
      && PoolBalance(l, p.pubkeyHash).Some? && PoolBalance(l, p.pubkeyHash).value >= p.debit
      && StagesTree(l, ShieldNotes(p), c.tree)
      && c.pool == p.pubkeyHash
      && c.newBalance == PoolBalance(l, p.pubkeyHash).value - p.debit
      && c.appliedCm == p.clientCm
      && c.response == ShieldResp(p.clientCm, |l.notes|, p.producerCm, |l.notes| + 1)
    }

    /** `prepare_durable_shield_commit`: reads only. */
    method PrepareDurableShieldCommit(p: PreparedShield) returns (r: Res<StagedShield>)
      requires Valid() && p.clientEnc.Valid() && p.producerEnc.Valid()
      requires |L().notes| + 2 <= Pow2(w.crypto.depth)
      ensures var balance := PoolBalance(L(), p.pubkeyHash);
              if balance.None? then r == Err(NoPool)
              else if balance.value < p.debit then r == Err(PoolTooSmall)
              else if p.clientCm in L().applied then r == Err(ShieldReplay)
              else if |L().notes| + 1 > w.crypto.usizeMax then r == Err(IndexDoesNotFit)
              else r.Ok? && StagesShield(L(), p, r.value)
    {
      hide StateCell, TreeRootOf, AppendNotes, StoredNotes, Filled, TreeInv;
      PoolReadsBack(w, state, store, p.pubkeyHash);
      match ReadPool(store, p.pubkeyHash) {
        case Err(e) => return Err(e);
        case Ok(None) => return Err(NoPool);
        case Ok(Some(balance)) =>
          if balance < p.debit {
            return Err(PoolTooSmall);
          }
          MarkersReadBack(w, state, store, p.clientCm);
          if HasMarker(store, AppliedShield(p.clientCm)) {
            return Err(ShieldReplay);
          }
          var staged := StageTree(ShieldNotes(p));
          var tree := staged.value;
          if tree.start > w.crypto.usizeMax || tree.start + 1 > w.crypto.usizeMax {
            return Err(IndexDoesNotFit);
          }
          return Ok(StagedShield(tree, p.pubkeyHash, balance - p.debit, p.clientCm,
                                 ShieldResp(p.clientCm, tree.start, p.producerCm, tree.start + 1)));
      }
    }

    /** `apply_durable_shield_commit`: cannot fail. */
    method ApplyDurableShieldCommit(ghost p: PreparedShield, c: StagedShield) returns (resp: ShieldResp)
      requires Valid() && StagesShield(L(), p, c)
      modifies this
      ensures Holds() && state == With(old(state), ShieldLedger(w, old(L()), old(Level()), p))
      ensures resp == ShieldResp(p.clientCm, |old(L()).notes|, p.producerCm, |old(L()).notes| + 1)
    {
      hide StateCell, TreeRootOf, AppendNotes, StoredNotes, Filled, Live;
      InvariantBoundsCounters(w, L());
      ShieldLedgerByParts(w, L(), Level(), p);
      ghost var l, drawn := L(), Drawn(L(), p.pubkeyHash, p.debit, p.clientCm);
      WriteBalanceAndMarker(p.pubkeyHash, p.debit, c);
      AppendNotesLocal(w, l, drawn, ShieldNotes(p));
      AppendNotesShape(w, drawn, ShieldNotes(p));
      WriteStagedTree(ShieldNotes(p), c.tree);
      WriteRootMarker(c.tree.rootMarker);
      NotePrivateTxApplied();
      resp := c.response;
    }

    /** The new balance, emptied when it reaches zero, and the replay marker. */
    method WriteBalanceAndMarker(ghost key: Felt, ghost debit: u64, c: StagedShield)
      requires Holds() && PoolBalance(L(), key).Some? && PoolBalance(L(), key).value >= debit
      requires c.pool == key && c.newBalance == PoolBalance(L(), key).value - debit
      modifies this
      ensures Holds() && state == With(old(state), Drawn(old(L()), key, debit, c.appliedCm))
    {
      hide StateCell;
      PoolWritten(w, state, store, key, if c.newBalance == 0 then None else Some(c.newBalance));
      if c.newBalance == 0 {
        store := store[Pool(c.pool) := []];
      } else {
        store := store[Pool(c.pool) := LeBytes(c.newBalance, 8)];
      }
      state := With(state, DebitPool(L(), key, debit));
      AppliedWritten(w, state, store, c.appliedCm);
      store := store[AppliedShield(c.appliedCm) := [1]];
      state := With(state, L().(applied := L().applied + {c.appliedCm}));
    }

    ghost predicate StagesUnshield(l: Ledger, p: PreparedUnshield, c: StagedUnshield)
    {
      && StagesTree(l, UnshieldNotes(p), c.tree)
      && c.nullifierStart == |l.nullifiers| && c.nullifiers == p.nullifiers
      && c.withdrawalIndex == |l.withdrawals| && c.record == Withdrawal(p.recipient, p.amount)
      && c.response == UnshieldResponse(|l.notes|, p)
    }

    /** `prepare_durable_unshield_commit`: reads only. */
    method PrepareDurableUnshieldCommit(p: PreparedUnshield) returns (r: Res<StagedUnshield>)
      requires Valid() && p.producerNote.enc.Valid() && (p.changeNote.Some? ==> p.changeNote.value.enc.Valid())
      requires |L().notes| + |UnshieldNotes(p)| <= Pow2(w.crypto.depth)
      ensures if |L().notes| + |UnshieldNotes(p)| - 1 > w.crypto.usizeMax then r == Err(IndexDoesNotFit)
              else r.Ok? && StagesUnshield(L(), p, r.value)
    {
      hide StateCell, TreeRootOf, AppendNotes, StoredNotes, Filled, TreeInv;
      var staged := StageTree(UnshieldNotes(p));
      var tree := staged.value;
      if tree.start + |UnshieldNotes(p)| - 1 > w.crypto.usizeMax {
        return Err(IndexDoesNotFit);
      }
      CountersReadBackIn();
      var nullifierStart := ReadCount(store, NullifierCount).value;
      var withdrawalIndex := ReadCount(store, WithdrawalCount).value;
      return Ok(StagedUnshield(tree, nullifierStart, p.nullifiers, withdrawalIndex,
                               Withdrawal(p.recipient, p.amount), UnshieldResponse(tree.start, p)));
    }

    lemma CountersReadBackIn()
      requires Holds()
      ensures ReadCount(store, NullifierCount) == Ok(|L().nullifiers|)
      ensures ReadCount(store, WithdrawalCount) == Ok(|L().withdrawals|)
    {
      CounterReadsBack(w, state, store, NullifierCount, |L().nullifiers|);
      CounterReadsBack(w, state, store, WithdrawalCount, |L().withdrawals|);
    }

    /** `apply_durable_unshield_commit`: cannot fail, and runs after the outbox
        message has gone out. */
    method ApplyDurableUnshieldCommit(ghost p: PreparedUnshield, c: StagedUnshield) returns (resp: UnshieldResp)
      requires Valid() && StagesUnshield(L(), p, c) && |p.nullifiers| <= MAX_NULLIFIERS
      modifies this
      ensures Holds() && state == With(old(state), UnshieldLedger(w, old(L()), old(Level()), p))
      ensures resp == UnshieldResponse(|old(L()).notes|, p)
    {
      hide StateCell, TreeRootOf, AppendNotes, StoredNotes, Filled, Live;
      InvariantBoundsCounters(w, L());
      UnshieldLedgerByParts(w, L(), Level(), p);
      AppendNotesShape(w, L(), UnshieldNotes(p));
      WriteStagedTree(UnshieldNotes(p), c.tree);
      WriteNullifiers(c.nullifierStart, c.nullifiers);
      var index := EnqueueWithdrawalAt(c.withdrawalIndex, c.record);
      WriteRootMarker(c.tree.rootMarker);
      NotePrivateTxApplied();
      resp := c.response;
    }

    method EnqueueWithdrawalAt(index: nat, record: Withdrawal) returns (next: nat)
      requires Holds() && index == |L().withdrawals| && |L().withdrawals| + 1 < U64_LIMIT
      modifies this
      ensures next == index + 1
      ensures Holds()
      ensures state == With(old(state), old(L()).(withdrawals := old(L()).withdrawals + [record]))
    {
      hide StateCell;
      WithdrawalWritten(w, state, store, record);
      store := store[WithdrawalAt(index) := EncodeWithdrawal(record)];
      store := store[WithdrawalCount := LeBytes(index + 1, 8)];
      state := With(state, L().(withdrawals := L().withdrawals + [record]));
      next := index + 1;
    }

    // ----- Messages

    /** `validate_transition_proof`. */
    method ValidateTransitionProof(proof: StarkProof, circuit: Circuit) returns (r: Outcome<LedgerError>)
      requires Holds()
      ensures r == CheckProof(w, L(), proof, circuit)
    {
      VerifierConfigReadsBack(w, state, store);
      match ReadVerifierConfig(store) {
        case Err(e) => return Fail(e);
        case Ok(None) => return Fail(VerifierNotConfigured);
        case Ok(Some(config)) =>
          if !w.verifierUsable(config) {
            return Fail(BadVerifierConfig);
          }
          return if w.proofValid(config, proof, circuit) then Pass else Fail(InvalidProof);
      }
    }

    /** `prepare_shield`, answered from the store. */
    method PrepareShieldOnStore(req: ShieldReq) returns (r: Res<PreparedShield>)
      requires Holds()
      ensures r == PrepareShield(w.crypto, ReadsOf(L(), Level()), req)
    {
      StoreAnswersLikeLedger(w, state, store);
      PrepareShieldCongruent(w.crypto, DurableReads(store), ReadsOf(L(), Level()), req);
      r := PrepareShield(w.crypto, DurableReads(store), req);
    }

    /** `prepare_unshield`, answered from the store. */
    method PrepareUnshieldOnStore(req: UnshieldReq) returns (r: Res<PreparedUnshield>)
      requires Holds()
      ensures r == PrepareUnshield(w.crypto, ReadsOf(L(), Level()), req)
    {
      StoreAnswersLikeLedger(w, state, store);
      PrepareUnshieldCongruent(w.crypto, DurableReads(store), ReadsOf(L(), Level()), req);
      r := PrepareUnshield(w.crypto, DurableReads(store), req);
    }

    /** What a message must do: move to the reply's ledger, emit its effect, report its result. */
    twostate predicate Performs(reply: Reply, result: KernelResult)
      reads this
    {
      && Valid()
      && state == old(state).(ledger := Some(reply.ledger), outbox := Emit(old(state).outbox, reply.effect))
      && result == reply.result
    }

    method HandleShield(proof: StarkProof, shield: ShieldReq) returns (result: KernelResult)
      requires Valid()
      modifies this
      ensures Performs(ApplyShield(w, old(L()), old(Level()), proof, shield), result)
    {
      hide PrepareShield, ShieldLedger, TreeInv, Represents, CheckProof, StagesShield;
      var req := shield.(proof := proof.ToHost());
      ghost var l := L();
      ApplyShieldKeepsInv(w, l, Level(), proof, shield);
      var checked := ValidateTransitionProof(proof, ShieldCircuit);
      if checked.Fail? {
        return Error(checked.error);
      }
      var prepared := PrepareShieldOnStore(req);
      match prepared {
        case Err(e) => return Error(e);
        case Ok(p) =>
          ShieldAccepted(w, L(), Level(), req);
          var staged := PrepareDurableShieldCommit(p);
          match staged {
            case Err(e) => return Error(e);
            case Ok(commit) =>
              var resp := ApplyDurableShieldCommit(p, commit);
              return Shielded(resp);
          }
      }
    }

    method HandleTransfer(proof: StarkProof, transfer: TransferReq) returns (result: KernelResult)
      requires Valid()
      modifies this
      ensures Performs(ApplyTransfer(w, old(L()), old(Level()), proof, transfer), result)
    {
      hide TransferReply, TreeInv, Represents, CheckProof;
      ApplyTransferKeepsInv(w, L(), Level(), proof, transfer);
      var checked := ValidateTransitionProof(proof, TransferCircuit);
      if checked.Fail? {
        return Error(checked.error);
      }
      TransferEmitsNothing(w, L(), Level(), transfer.(proof := proof.ToHost()));
      var r := ApplyTransferDirect(transfer.(proof := proof.ToHost()));
      match r {
        case Err(e) => return Error(e);
        case Ok(resp) => return Transferred(resp);
      }
    }

    /** `host.write_output`, when the host accepts the message. */
    method WriteOutput(message: Bytes)
      requires Valid()
      modifies this
      ensures Valid() && state == old(state).(outbox := old(state).outbox + [message])
    {
      hide LedgerInv;
      outbox := outbox + [message];
      state := state.(outbox := state.outbox + [message]);
      forall p
        ensures Get(store, p) == StateCell(w, state, p)
      {
        assert Get(store, p) == StateCell(w, old(state), p);
      }
    }

    /** `prepare_unshield_outbox`. */
    method PrepareUnshieldOutbox(record: Withdrawal) returns (r: Res<Bytes>)
      requires Valid()
      ensures r == if L().ticketer.None? then Err(BridgeNotConfigured)
                   else if w.outboxMessage(L().ticketer.value, record).None? then Err(BadOutboxMessage)
                   else Ok(w.outboxMessage(L().ticketer.value, record).value)
    {
      TicketerReadsBack(w, state, store);
      match ReadTicketer(store) {
        case None => return Err(BridgeNotConfigured);
        case Some(ticketer) =>
          match w.outboxMessage(ticketer, record) {
            case None => return Err(BadOutboxMessage);
            case Some(message) => return Ok(message);
          }
      }
    }

    method HandleUnshield(proof: StarkProof, unshield: UnshieldReq, outputAccepted: bool) returns (result: KernelResult)
      requires Valid()
      modifies this
      ensures Performs(ApplyUnshield(w, old(L()), old(Level()), proof, unshield, outputAccepted), result)
    {
      hide PrepareUnshield, UnshieldLedger, TreeInv, Represents, CheckProof, StagesUnshield;
      var req := unshield.(proof := proof.ToHost());
      ApplyUnshieldKeepsInv(w, L(), Level(), proof, unshield, outputAccepted);
      var checked := ValidateTransitionProof(proof, UnshieldCircuit);
      if checked.Fail? {
        return Error(checked.error);
      }
      var prepared := PrepareUnshieldOnStore(req);
      match prepared {
        case Err(e) => return Error(e);
        case Ok(p) =>
          UnshieldAccepted(w, L(), Level(), req);
          var message := PrepareUnshieldOutbox(Withdrawal(p.recipient, p.amount));
          if message.Err? {
            return Error(message.error);
          }
          var staged := PrepareDurableUnshieldCommit(p);
          match staged {
            case Err(e) => return Error(e);
            case Ok(commit) =>
              if !outputAccepted {
                return Error(OutboxRejected);
              }
              WriteOutput(message.value);
              var resp := ApplyDurableUnshieldCommit(p, commit);
              return Unshielded(resp);
          }
      }
    }

    /** `configure_verifier`: once only. */
    method HandleConfigureVerifier(config: VerifierConfig, signature: seq<Felt>) returns (result: KernelResult)
      requires Valid()
      modifies this
      ensures Performs(ApplyConfigureVerifier(w, old(L()), config, signature), result)
    {
      hide Represents, Live;
      if !w.verifierSigned(config, signature) {
        return Error(BadSignature);
      }
      if !w.verifierUsable(config) {
        return Error(BadVerifierConfig);
      }
      VerifierConfigReadsBack(w, state, store);
      match ReadVerifierConfig(store) {
        case Err(e) => return Error(e);
        case Ok(Some(_)) => return Error(AlreadyConfigured);
        case Ok(None) =>
          ConfigWritten(w, state, store, config);
          store := store[AuthDomain := config.authDomain];
          store := store[Path.VerifierConfig := EncodeConfig(config)];
          state := With(state, L().(authDomain := config.authDomain, verifier := Some(config)));
          return Configured;
      }
    }

    /** `configure_bridge`: once only. */
    method HandleConfigureBridge(ticketer: Text, signature: seq<Felt>) returns (result: KernelResult)
      requires Valid()
      modifies this
      ensures Performs(ApplyConfigureBridge(w, old(L()), ticketer, signature), result)
    {
      hide Represents, Live;
      if !w.bridgeSigned(ticketer, signature) {
        return Error(BadSignature);
      }
      if !w.crypto.validContract(ticketer) || !w.originated(ticketer) {
        return Error(NotAnOriginatedContract);
      }
      TicketerReadsBack(w, state, store);
      if ReadTicketer(store).Some? {
        return Error(AlreadyConfigured);
      }
      TicketerWritten(w, state, store, ticketer);
      store := store[Ticketer := ticketer];
      state := With(state, L().(ticketer := Some(ticketer)));
      return Configured;
    }

    /** `validate_bridge_deposit` then `apply_deposit`. */
    method HandleDeposit(ticketer: Text, recipient: Text, amount: u64) returns (result: KernelResult)
      requires Valid()
      modifies this
      ensures Performs(ApplyDeposit(w, old(L()), ticketer, recipient, amount), result)
    {
      hide Represents, TreeInv;
      TicketerReadsBack(w, state, store);
      VerifierConfigReadsBack(w, state, store);
      ApplyDepositKeepsInv(w, L(), ticketer, recipient, amount);
      hide LedgerInv;
      var configured := ReadTicketer(store);
      if configured.None? {
        return Error(BridgeNotConfigured);
      }
      if configured.value != ticketer {
        return Error(UnexpectedTicketer);
      }
      match w.parseDepositKey(recipient) {
        case None => return Error(NotADepositKey);
        case Some(key) =>
          match ReadVerifierConfig(store) {
            case Err(e) => return Error(e);
            case Ok(None) => return Error(VerifierNotConfigured);
            case Ok(Some(_)) =>
              var credited := CreditDeposit(key, amount);
              match credited {
                case Fail(e) => return Error(e);
                case Pass => return Deposited;
              }
          }
      }
    }

    /** `fetch_kernel_message_from_dal`. */
    method FetchFromDal(dal: Dal.Reveals, pointer: Dal.PayloadPointer) returns (r: Res<KernelMessage>)
      ensures r == FetchMessage(w, dal, pointer)
    {
      var fetched := Dal.FetchPayload(dal, w.crypto.usizeMax, w.crypto.hash, pointer);
      match fetched {
        case Err(e) => return Err(if e == Dal.HashMismatch then DalHashMismatch else DalFailure);
        case Ok(payload) =>
          match w.decodeKernel(payload) {
            case None => return Err(DalPayloadUndecodable);
            case Some(message) =>
              if message.DalPointer? {
                return Err(NestedDalPointer);
              }
              return if KindOf(message) != Some(pointer.kind) then Err(DalKindMismatch) else Ok(message);
          }
      }
    }

    /** `apply_kernel_message`: a fetched message is never a pointer, so it ends. */
    method ApplyKernelMessage(input: Input, message: KernelMessage) returns (result: KernelResult)
      requires Valid() && input.level == Level()
      modifies this
      ensures Performs(ApplyKernel(w, old(L()), input, message), result)
      decreases message.DalPointer?
    {
      hide ApplyShield, ApplyTransfer, ApplyUnshield, ApplyConfigureVerifier, ApplyConfigureBridge, Represents,
           LedgerInv;
      match message {
        case ConfigureVerifier(config, signature) => result := HandleConfigureVerifier(config, signature);
        case ConfigureBridge(ticketer, signature) => result := HandleConfigureBridge(ticketer, signature);
        case Shield(proof, req) => result := HandleShield(proof, req);
        case Transfer(proof, req) => result := HandleTransfer(proof, req);
        case Unshield(proof, req) => result := HandleUnshield(proof, req, input.outputAccepted);
        case DalPointer(pointer) =>
          var nested := FetchFromDal(input.dal, pointer);
          match nested {
            case Err(e) => return Error(e);
            case Ok(inner) => result := ApplyKernelMessage(input, inner);
          }
      }
    }

    // ----- Inputs

    /** The invariant between inputs, before or after initialisation. */
    ghost predicate Ready()
      reads this
    {
      && Sane(w)
      && IsZeroHashes(w.crypto.node, w.crypto.depth, zeroHashes)
      && Represents(w, state, store)
      && outbox == state.outbox
      && (state.ledger.Some? ==> state.inputs.Some? && LedgerInv(w, L()))
    }

    constructor (w: World)
      requires Sane(w)
      ensures Ready() && state == EmptyState() && this.w == w
    {
      var zeros := BuildZeroHashes(w.crypto.node, w.crypto.depth);
      this.w := w;
      zeroHashes := zeros;
      store := map[];
      outbox := [];
      state := EmptyState();
    }

    method WriteIfMissing(p: Path, max: nat, bytes: Bytes)
      modifies this`store
      ensures store == if p in old(store) then old(store) else old(store)[p := bytes]
    {
      if ReadStore(store, p, max).None? {
        store := store[p := bytes];
      }
    }

    method WriteMissingScalars()
      requires IsZeroHashes(w.crypto.node, w.crypto.depth, zeroHashes)
      requires AuthDomain in store <==> TreeSize in store
      requires AuthDomain in store <==> TreeRoot in store
      requires AuthDomain in store <==> NullifierCount in store
      requires AuthDomain in store <==> WithdrawalCount in store
      modifies this`store
      ensures store == if AuthDomain in old(store) then old(store)
                       else old(store)[AuthDomain := w.defaultAuthDomain][TreeSize := LeBytes(0, 8)]
                                      [TreeRoot := ZeroHash(w.crypto.node, w.crypto.depth)]
                                      [NullifierCount := LeBytes(0, 8)][WithdrawalCount := LeBytes(0, 8)]
    {
      hide LeBytes;
      WriteIfMissing(AuthDomain, 32, w.defaultAuthDomain);
      WriteIfMissing(TreeSize, 8, LeBytes(0, 8));
      WriteIfMissing(TreeRoot, 32, zeroHashes[w.crypto.depth]);
      WriteIfMissing(NullifierCount, 8, LeBytes(0, 8));
      WriteIfMissing(WithdrawalCount, 8, LeBytes(0, 8));
    }

    method WriteFirstRoot(ghost root: Felt)
      requires IsZeroHashes(w.crypto.node, w.crypto.depth, zeroHashes)
      requires RootCount !in store ==> Get(store, TreeRoot) == Some(root)
      modifies this`store
      ensures store == if RootCount in old(store) then old(store)
                       else old(store)[RootMarker(root) := [1]][RootAt(0) := root][RootCount := LeBytes(1, 8)]
    {
      hide LeBytes;
      if ReadStore(store, RootCount, 8).None? {
        var fallback := zeroHashes[w.crypto.depth];
        var stored := ReadFelt(store, TreeRoot);
        ReadBackFelt(store, TreeRoot, root);
        var first := if stored.Ok? && stored.value.Some? then stored.value.value else fallback;
        store := store[RootMarker(first) := [1]];
        store := store[RootAt(0) := first];
        store := store[RootCount := LeBytes(1, 8)];
      }
    }

    /** `ensure_initialized`: each missing cell is written on its own. */
    method EnsureInitialized()
      requires Ready() && state.inputs.Some?
      modifies this
      ensures Valid() && state == old(state).(ledger := Some(Opened(w, old(state))))
    {
      hide Represents, LedgerInv, LeBytes, LedgerCell, TreeRootOf, InitialLedger;
      ghost var found := Opened(w, state);
      if state.ledger.Some? {
        InitialisedCells(w, state, store);
      } else {
        FreshCells(w, state, store);
        InitialWritten(w, state, store);
        InitialLedgerIsSound(w);
        EmptyTreeRoot(w);
      }
      InvariantBoundsCounters(w, found);
      WriteMissingScalars();
      WriteFirstRoot(TreeRootOf(w, []));
      state := state.(ledger := Some(found));
    }

    /** `apply_input_message` for the messages that concern the kernel. */
    method Dispatch(input: Input, parsed: Parsed) returns (result: KernelResult)
      requires Ready() && state.inputs.Some? && input.level == Level()
      requires parsed.Deposit? || parsed.Kernel?
      modifies this
      ensures Valid()
      ensures var reply := ReplyTo(w, old(state), input, parsed);
              state == old(state).(ledger := Some(reply.ledger), outbox := Emit(old(state).outbox, reply.effect))
              && result == reply.result
    {
      hide Represents, LedgerInv, ApplyKernel, ApplyDeposit;
      EnsureInitialized();
      match parsed {
        case Deposit(ticketer, recipient, amount) =>
          DepositEmitsNothing(w, L(), ticketer, recipient, amount);
          result := HandleDeposit(ticketer, recipient, amount);
        case Kernel(message) => result := ApplyKernelMessage(input, message);
      }
    }

    /** The input counters and the copy of the last input. */
    method RecordInput(input: Input)
      requires Ready()
      modifies this
      ensures Ready() && state == old(state).(inputs := Some(LogInput(old(state).inputs, input)))
    {
      hide Represents, LedgerInv;
      InputCountersReadBack(w, state, store);
      var log := LogInput(state.inputs, input);
      var count := ReadU64(store, RawInputCount);
      var bytes := ReadU64(store, RawInputBytes);
      InputWritten(w, state, store, log);
      var stored := input.payload[..Min(|input.payload|, MAX_STORED_INPUT_PAYLOAD_BYTES)];
      var seen := if count.Ok? && count.value.Some? then count.value.value else 0;
      var received := if bytes.Ok? && bytes.value.Some? then bytes.value.value else 0;
      store := store[RawInputCount := LeBytes(SaturatingAdd(seen, 1), 8)];
      store := store[RawInputBytes := LeBytes(SaturatingAdd(received, |input.payload|), 8)];
      store := store[LastInputLevel := I32Le(input.level)];
      store := store[LastInputId := I32Le(input.id)];
      store := store[LastInputLen := LeBytes(|stored|, 4)];
      store := store[LastInputPayload := stored];
      state := state.(inputs := Some(log));
    }

    method StoreResult(result: KernelResult)
      requires Ready()
      modifies this
      ensures Ready() && state == old(state).(result := RecordResult(w, old(state).result, result))
    {
      hide Represents, LedgerInv;
      match w.encodeResult(result) {
        case None =>
        case Some(bytes) =>
          ResultWritten(w, state, store, bytes);
          store := store[LastResult := bytes];
          state := state.(result := Some(bytes));
      }
    }

    /** `process_input`. */
    method ProcessInput(input: Input)
      requires Ready()
      modifies this
      ensures Ready() && state == Step(w, old(state), input)
    {
      hide Represents, LedgerInv, ReplyTo;
      RecordInput(input);
      ReplyIgnoresLog(w, old(state), state, input);
      var parsed := w.parse(input.payload);
      match parsed {
        case Malformed => StoreResult(Error(MalformedInput));
        case Ignore =>
        case _ =>
          var result := Dispatch(input, parsed);
          StoreResult(result);
      }
    }

    /** `run_with_host`: the whole inbox, in order. */
    method RunWithHost(inputs: seq<Input>)
      requires Ready()
      modifies this
      ensures Ready() && state == Run(w, old(state), inputs)
    {
      hide Represents, LedgerInv, Step;
      for i := 0 to |inputs|
        invariant Ready() && state == Run(w, old(state), inputs[..i])
      {
        ProcessInput(inputs[i]);
        assert inputs[..i + 1][..i] == inputs[..i];
      }
      assert inputs[..|inputs|] == inputs;
    }

    // ----- Reading the whole ledger back

    /** `read_persisted_note`. */
    method ReadPersistedNote(index: nat) returns (r: Option<Bytes>)
      requires state.ledger.Some? && Represents(w, state, store) && index < |L().notes|
      ensures r == Some(StoredNote(L().notes[index]))
    {
      hide Represents, StoredNote;
      ghost var bytes := StoredNote(L().notes[index]);
      NoteCellsReadBack(w, state, store, index);
      StoredNoteIsShort(L().notes[index]);
      match ReadStore(store, NoteBody(index), MAX_LEDGER_STATE_BYTES) {
        case Some(whole) =>
          assert whole == bytes;
          return Some(whole);
        case None =>
      }
      ReadBackU64(store, NoteLen(index), |bytes|);
      var stored := ReadU64(store, NoteLen(index));
      if stored.Err? || stored.value.None? {
        return None;
      }
      var total := stored.value.value;
      if total > MAX_LEDGER_STATE_BYTES {
        return None;
      }
      var chunks := Dal.DivCeil(total, MAX_NOTE_CHUNK_BYTES);
      var acc: Bytes := [];
      for c := 0 to chunks
        invariant acc == bytes[..Min(c * MAX_NOTE_CHUNK_BYTES, |bytes|)]
      {
        ChunkReadsBack(store, index, bytes, c);
        var chunk := ReadStore(store, NoteChunk(index, c), MAX_NOTE_CHUNK_BYTES);
        if chunk.None? {
          return None;
        }
        acc := acc + chunk.value;
      }
      assert bytes[..|bytes|] == bytes;
      if |acc| != total {
        return None;
      }
      return Some(acc);
    }

    method ReadNotes(count: nat) returns (r: Res<seq<Note>>)
      requires Represents(w, state, store) && count == |Known(w, state).notes|
      requires forall i :: 0 <= i < count ==> Known(w, state).notes[i].enc.Valid()
      ensures r == Ok(Known(w, state).notes)
    {
      hide Represents, StoredNote;
      var notes: seq<Note> := [];
      for i := 0 to count
        invariant notes == Known(w, state).notes[..i]
      {
        var bytes := ReadPersistedNote(i);
        StoredNoteDecodes(L().notes[i]);
        match bytes {
          case None => return Err(BadStoredValue);
          case Some(encoded) =>
            match DecodePublishedNote(encoded) {
              case Err(_) => return Err(BadStoredValue);
              case Ok(decoded) => notes := notes + [Note(decoded.0, decoded.1)];
            }
        }
      }
      assert Known(w, state).notes[..count] == Known(w, state).notes;
      return Ok(notes);
    }

    /** The entries of an index, gathered into a set. */
    method ReadIndexedFelts(roots: bool, count: nat) returns (r: Res<set<Felt>>)
      requires Represents(w, state, store)
      requires count == if roots then |Known(w, state).roots| else |Known(w, state).nullifiers|
      ensures r == Ok(Elements(if roots then Known(w, state).roots else Known(w, state).nullifiers))
    {
      hide Represents;
      var found: set<Felt> := {};
      ghost var log := if roots then Known(w, state).roots else Known(w, state).nullifiers;
      for i := 0 to count
        invariant found == Elements(log[..i])
      {
        IndexedCellsReadBack(w, state, store, i);
        match ReadFelt(store, if roots then RootAt(i) else NullifierAt(i)) {
          case Err(e) => return Err(e);
          case Ok(None) => return Err(BadStoredValue);
          case Ok(Some(felt)) =>
            assert log[..i + 1] == log[..i] + [felt];
            found := found + {felt};
        }
      }
      assert log[..count] == log;
      return Ok(found);
    }

    method ReadWithdrawals(count: nat) returns (r: Res<seq<Withdrawal>>)
      requires Sane(w) && Represents(w, state, store) && count == |Known(w, state).withdrawals|
      requires forall i :: 0 <= i < count ==> w.crypto.validContract(Known(w, state).withdrawals[i].recipient)
      ensures r == Ok(Known(w, state).withdrawals)
    {
      hide Represents;
      var records: seq<Withdrawal> := [];
      for i := 0 to count
        invariant records == Known(w, state).withdrawals[..i]
      {
        WithdrawalReadsBack(w, state, store, i);
        match ReadStore(store, WithdrawalAt(i), MAX_STORE_BINARY_BYTES) {
          case None => return Err(BadStoredValue);
          case Some(bytes) =>
            match DecodeWithdrawal(w, bytes) {
              case Err(e) => return Err(e);
              case Ok(record) => records := records + [record];
            }
        }
      }
      assert Known(w, state).withdrawals[..count] == Known(w, state).withdrawals;
      return Ok(records);
    }

    /** `read_u64(..).unwrap_or(0)`. */
    method ReadCounter(p: Path, ghost expected: nat) returns (n: nat)
      requires Represents(w, state, store) && expected < U64_LIMIT
      requires CounterHolds(p, expected)
      ensures n == expected
    {
      hide StateCell, LeBytes;
      assert Get(store, p) == StateCell(w, state, p);
      if Get(store, p).Some? {
        ReadBackU64(store, p, expected);
      }
      var read := ReadU64(store, p);
      n := if read.Ok? && read.value.Some? then read.value.value else 0;
    }

    lemma KnownIsSound()
      requires Ready()
      ensures var l := Known(w, state);
              CountersFit(l)
              && (forall i :: 0 <= i < |l.notes| ==> l.notes[i].enc.Valid())
              && (forall i :: 0 <= i < |l.withdrawals| ==> w.crypto.validContract(l.withdrawals[i].recipient))
    {
      hide Represents;
      if state.ledger.Some? {
        InvariantBoundsCounters(w, L());
      }
    }

    lemma FitMeans(l: Ledger)
      requires CountersFit(l)
      ensures |l.nullifiers| < U64_LIMIT && |l.roots| < U64_LIMIT && |l.withdrawals| < U64_LIMIT
    {
    }

    /** The three stored counters, or nothing and empty logs. */
    lemma CounterCells()
      ensures var l := Known(w, state);
              CounterHolds(NullifierCount, |l.nullifiers|) && CounterHolds(RootCount, |l.roots|)
              && CounterHolds(WithdrawalCount, |l.withdrawals|)
    {
      hide LeBytes, TreeRootOf;
    }

    ghost predicate CounterHolds(p: Path, n: nat)
      reads this
    {
      StateCell(w, state, p) == Some(LeBytes(n, 8)) || (StateCell(w, state, p) == None && n == 0)
    }

    /** The indexed parts of the ledger: nullifiers, roots and withdrawals. */
    method ReadBooks() returns (r: Res<(set<Felt>, set<Felt>, seq<Withdrawal>)>)
      requires Ready()
      ensures var l := Known(w, state);
              r == Ok((Elements(l.nullifiers), Elements(l.roots), l.withdrawals))
    {
      KnownIsSound();
      ghost var l := Known(w, state);
      CounterCells();
      hide Represents, LedgerInv, TreeRootOf, LeBytes, Elements, StateCell, CountersFit;
      assert |l.nullifiers| < U64_LIMIT && |l.roots| < U64_LIMIT && |l.withdrawals| < U64_LIMIT by {
        FitMeans(l);
      }
      var nullifierCount := ReadCounter(NullifierCount, |l.nullifiers|);
      var rootCount := ReadCounter(RootCount, |l.roots|);
      var withdrawalCount := ReadCounter(WithdrawalCount, |l.withdrawals|);
      var nullifiers := ReadIndexedFelts(false, nullifierCount);
      var roots := ReadIndexedFelts(true, rootCount);
      var withdrawals := ReadWithdrawals(withdrawalCount);
      if nullifiers.Err? || roots.Err? || withdrawals.Err? {
        return Err(BadStoredValue);
      }
      r := Ok((nullifiers.value, roots.value, withdrawals.value));
    }

    /** `read_ledger`: succeeds in every state the kernel reaches. */
    method ReadLedger() returns (r: Res<Snapshot>)
      requires Ready()
      ensures r == Ok(SnapshotOf(w, state))
    {
      hide Represents, LedgerInv, TreeRootOf, LeBytes, Elements;
      KnownIsSound();
      var authDomain := ReadAuthDomain();
      var treeSize := ReadCounter(TreeSize, |Known(w, state).notes|);
      var notes := ReadNotes(treeSize);
      var books := ReadBooks();
      if authDomain.Err? || notes.Err? || books.Err? {
        return Err(BadStoredValue);
      }
      r := Ok(Snapshot(authDomain.value, Commitments(notes.value), notes.value, books.value.0, books.value.1,
                       [TreeRootOf(w, [])], books.value.2, map[], {}));
    }

    method ReadAuthDomain() returns (r: Res<Felt>)
      requires Represents(w, state, store)
      ensures r == Ok(Known(w, state).authDomain)
    {
      assert Get(store, AuthDomain) == StateCell(w, state, AuthDomain);
      hide Represents;
      if state.ledger.Some? {
        ReadBackFelt(store, AuthDomain, L().authDomain);
      }
      match ReadStore(store, AuthDomain, 32) {
        case None => return Ok(w.defaultAuthDomain);
        case Some(bytes) =>
          if |bytes| != 32 {
            return Err(BadStoredValue);
          }
          return Ok(bytes);
      }
    }
  }
}
