/** Each group of writes the kernel makes, as one change of the represented ledger. */
module KernelUpdates {
  import opened Bytes
  import opened Frontier
  import opened KernelState
  import opened KernelStore
  import opened Merkle
  import opened Paths
  import opened Protocol
  import opened Wrappers

  function WithNullifier(l: Ledger, nf: Felt): Ledger
  {
    if nf in l.nullifiers then l else l.(nullifiers := l.nullifiers + [nf])
  }

  function WithRoot(l: Ledger, root: Felt): Ledger
  {
    if root in l.roots then l else l.(roots := l.roots + [root])
  }

  /** `s` with another ledger. */
  function With(s: KState, l: Ledger): KState
  {
    s.(ledger := Some(l))
  }

  lemma NullifierWritten(w: World, s: KState, store: Store, nf: Felt)
    requires s.ledger.Some? && Represents(w, s, store) && nf !in s.ledger.value.nullifiers
    ensures var n := |s.ledger.value.nullifiers|;
            Represents(w, With(s, WithNullifier(s.ledger.value, nf)),
                       store[Nullifier(nf) := [1]][NullifierAt(n) := nf][NullifierCount := LeBytes(n + 1, 8)])
  {
    var l := s.ledger.value;
    var n := |l.nullifiers|;
    var s', store' := With(s, WithNullifier(l, nf)),
                      store[Nullifier(nf) := [1]][NullifierAt(n) := nf][NullifierCount := LeBytes(n + 1, 8)];
    forall p
      ensures Get(store', p) == StateCell(w, s', p)
    {
      assert Get(store, p) == StateCell(w, s, p);
    }
  }

  lemma RootWritten(w: World, s: KState, store: Store, root: Felt)
    requires s.ledger.Some? && Represents(w, s, store) && root !in s.ledger.value.roots
    ensures var n := |s.ledger.value.roots|;
            Represents(w, With(s, WithRoot(s.ledger.value, root)),
                       store[RootMarker(root) := [1]][RootAt(n) := root][RootCount := LeBytes(n + 1, 8)])
  {
    var l := s.ledger.value;
    var n := |l.roots|;
    var s', store' := With(s, WithRoot(l, root)),
                      store[RootMarker(root) := [1]][RootAt(n) := root][RootCount := LeBytes(n + 1, 8)];
    forall p
      ensures Get(store', p) == StateCell(w, s', p)
    {
      assert Get(store, p) == StateCell(w, s, p);
    }
  }

  lemma WithdrawalWritten(w: World, s: KState, store: Store, record: Withdrawal)
    requires s.ledger.Some? && Represents(w, s, store)
    ensures var l := s.ledger.value;
            var n := |l.withdrawals|;
            Represents(w, With(s, l.(withdrawals := l.withdrawals + [record])),
                       store[WithdrawalAt(n) := EncodeWithdrawal(record)][WithdrawalCount := LeBytes(n + 1, 8)])
  {
    var l := s.ledger.value;
    var n := |l.withdrawals|;
    var s', store' := With(s, l.(withdrawals := l.withdrawals + [record])),
                      store[WithdrawalAt(n) := EncodeWithdrawal(record)][WithdrawalCount := LeBytes(n + 1, 8)];
    forall p
      ensures Get(store', p) == StateCell(w, s', p)
    {
      assert Get(store, p) == StateCell(w, s, p);
    }
  }

  lemma FeeMarkWritten(w: World, s: KState, store: Store, mark: FeeMark)
    requires s.ledger.Some? && Represents(w, s, store)
    ensures Represents(w, With(s, s.ledger.value.(feeMark := Some(mark))),
                       store[FeeLevel := I32Le(mark.level)][FeeCount := LeBytes(mark.count, 8)])
  {
    var s', store' := With(s, s.ledger.value.(feeMark := Some(mark))),
                      store[FeeLevel := I32Le(mark.level)][FeeCount := LeBytes(mark.count, 8)];
    forall p
      ensures Get(store', p) == StateCell(w, s', p)
    {
      assert Get(store, p) == StateCell(w, s, p);
    }
  }

  function PoolBytes(balance: Option<u64>): Bytes
  {
    if balance.None? then [] else LeBytes(balance.value, 8)
  }

  lemma PoolWritten(w: World, s: KState, store: Store, key: Felt, balance: Option<u64>)
    requires s.ledger.Some? && Represents(w, s, store)
    ensures Represents(w, With(s, s.ledger.value.(pools := s.ledger.value.pools[key := balance])),
                       store[Pool(key) := PoolBytes(balance)])
  {
    var s', store' := With(s, s.ledger.value.(pools := s.ledger.value.pools[key := balance])),
                      store[Pool(key) := PoolBytes(balance)];
    forall p
      ensures Get(store', p) == StateCell(w, s', p)
    {
      assert Get(store, p) == StateCell(w, s, p);
    }
  }

  lemma AppliedWritten(w: World, s: KState, store: Store, cm: Felt)
    requires s.ledger.Some? && Represents(w, s, store)
    ensures Represents(w, With(s, s.ledger.value.(applied := s.ledger.value.applied + {cm})),
                       store[AppliedShield(cm) := [1]])
  {
    var s', store' := With(s, s.ledger.value.(applied := s.ledger.value.applied + {cm})),
        store[AppliedShield(cm) := [1]];
    forall p
      ensures Get(store', p) == StateCell(w, s', p)
    {
      assert Get(store, p) == StateCell(w, s, p);
    }
  }

  /** The cells of the note at `index`. */
  predicate IsNotePath(p: Path, index: nat)
  {
    (p.NoteBody? || p.NoteLen? || p.NoteChunk?) && p.index == index
  }

  /** `after` is `before` with the note at `index` stored as `bytes`. */
  ghost predicate NotePut(before: Store, after: Store, index: nat, bytes: Bytes)
  {
    forall p :: Get(after, p) ==
      if IsNotePath(p, index) && NoteCell(bytes, p).Some? then NoteCell(bytes, p) else Get(before, p)
  }

  function SlotCell(slots: Branches, level: nat): Cell
  {
    if level < |slots| then slots[level] else None
  }

  /** The branch cells of `after` hold `slots`; everything else is as in `before`. */
  ghost predicate SlotsStored(slots: Branches, before: Store, after: Store)
  {
    forall p :: Get(after, p) == if p.Branch? then SlotCell(slots, p.level) else Get(before, p)
  }

  lemma BranchesStored(w: World, s: KState, before: Store, put: Store, encoded: Bytes)
    requires s.ledger.Some? && Represents(w, s, before)
    requires NotePut(before, put, |s.ledger.value.notes|, encoded)
    ensures SlotsStored(s.ledger.value.branches, put, put)
  {
    forall p
      ensures Get(put, p) == if p.Branch? then SlotCell(s.ledger.value.branches, p.level) else Get(put, p)
    {
      assert Get(before, p) == StateCell(w, s, p);
    }
  }

  /** The writes of one append: the note's cells, the branch slots, root and size. */
  lemma AppendStored(w: World, s: KState, before: Store, put: Store, walked: Store, note: Note)
    requires s.ledger.Some? && Represents(w, s, before)
    requires var l := s.ledger.value;
             NotePut(before, put, |l.notes|, StoredNote(note))
             && SlotsStored(AppendNote(w, l, note).branches, put, walked)
    ensures var l := s.ledger.value;
            var all := l.notes + [note];
            Represents(w, With(s, AppendNote(w, l, note)),
                       walked[TreeRoot := TreeRootOf(w, all)][TreeSize := LeBytes(|all|, 8)])
  {
    hide StoredNote, TreeRootOf, NoteCell, Appended;
    var l := s.ledger.value;
    var all, s' := l.notes + [note], With(s, AppendNote(w, l, note));
    var after := walked[TreeRoot := TreeRootOf(w, all)][TreeSize := LeBytes(|all|, 8)];
    forall p
      ensures Get(after, p) == StateCell(w, s', p)
    {
      assert Get(before, p) == StateCell(w, s, p);
      assert p != TreeRoot && p != TreeSize ==> Get(after, p) == Get(walked, p);
    }
  }

  /** Within capacity the stored frontier's walk ends at the new tree root. */
  lemma AppendWalk(w: World, l: Ledger, note: Note)
    requires TreeInv(w, l) && |l.notes| < Pow2(w.crypto.depth)
    ensures Walk(w.crypto.node, l.branches, 0, |l.notes|, note.cm)
            == Ok((TreeRootOf(w, l.notes + [note]), AppendNote(w, l, note).branches))
  {
    WalkReachesRoot(w.crypto.node, Commitments(l.notes), l.branches, note.cm);
    assert Commitments(l.notes + [note]) == Commitments(l.notes) + [note.cm];
  }

  lemma AppendKeepsTreeInv(w: World, l: Ledger, note: Note)
    requires TreeInv(w, l) && |l.notes| < Pow2(w.crypto.depth) && note.enc.Valid()
    ensures TreeInv(w, AppendNote(w, l, note))
  {
    AppendedIsLive(w.crypto.node, Commitments(l.notes), l.branches, note.cm);
    assert Commitments(l.notes + [note]) == Commitments(l.notes) + [note.cm];
  }

  // ----- The invariant of every ledger the kernel reaches

  ghost predicate LedgerInv(w: World, l: Ledger)
  {
    && TreeInv(w, l)
    && Distinct(l.nullifiers)
    && Distinct(l.roots)
    && |l.nullifiers| <= MAX_NULLIFIERS * |l.notes|
    && |l.roots| <= |l.notes| + 1
    && |l.withdrawals| <= |l.notes|
    && (l.feeMark.Some? ==> l.feeMark.value.count <= |l.notes|)
    && (l.ticketer.Some? ==> w.crypto.validContract(l.ticketer.value))
    && (forall i :: 0 <= i < |l.withdrawals| ==> w.crypto.validContract(l.withdrawals[i].recipient))
  }

  /** Every counter is bounded by the tree's capacity, so none can overflow. */
  lemma InvariantBoundsCounters(w: World, l: Ledger)
    requires Sane(w) && LedgerInv(w, l)
    ensures |l.notes| <= 0x1_0000_0000_0000
    ensures |l.nullifiers| <= 0x7_0000_0000_0000
    ensures CountersFit(l)
  {
    CapacityFits(w);
  }

  lemma AppendThree(w: World, l: Ledger, a: Note, b: Note, c: Note)
    ensures var one := AppendNote(w, l, a);
            var two := AppendNote(w, one, b);
            var three := AppendNote(w, two, c);
            AppendFallible(w, l, [a, b, c]) ==
              if |l.notes| > w.crypto.usizeMax then (one, false)
              else if |l.notes| + 1 > w.crypto.usizeMax then (two, false)
              else (three, |l.notes| + 2 <= w.crypto.usizeMax)
  {
    var one := AppendNote(w, l, a);
    var two := AppendNote(w, one, b);
    var three := AppendNote(w, two, c);
    assert [a, b, c][1..] == [b, c] && [b, c][1..] == [c] && [c][1..] == [];
    assert AppendFallible(w, three, []) == (three, true);
    assert AppendFallible(w, two, [c]) == (three, |two.notes| <= w.crypto.usizeMax);
  }

  /** What passing the transfer checks guarantees about the writes that follow. */
  lemma TransferAccepted(w: World, l: Ledger, level: i32, req: TransferReq)
    requires CheckTransfer(w.crypto, ReadsOf(l, level), req).Pass?
    ensures req.enc1.Valid() && req.enc2.Valid() && req.enc3.Valid()
    ensures 0 < |req.nullifiers| <= MAX_NULLIFIERS && Distinct(req.nullifiers)
    ensures forall i :: 0 <= i < |req.nullifiers| ==> req.nullifiers[i] !in l.nullifiers
    ensures |l.notes| + 3 <= Pow2(w.crypto.depth)
    ensures req.root in l.roots && req.fee >= RequiredTxFee(AcceptedInLevel(l, level))
  {
    var view := ReadsOf(l, level);
    assert forall nf :: view.hasNullifier(nf) == (nf in l.nullifiers);
    assert CheckSpends(view, req.root, req.nullifiers).Pass?;
    assert NoteCapacity(w.crypto, view, 3).Pass?;
  }

  /** Appending notes touches nothing but the tree. */
  lemma {:induction false} AppendsKeepRest(w: World, l: Ledger, notes: seq<Note>)
    ensures var after := AppendFallible(w, l, notes).0;
            after == l.(notes := after.notes, branches := after.branches)
            && |l.notes| <= |after.notes| <= |l.notes| + |notes|
            && |after.branches| == |l.branches|
            && (AppendFallible(w, l, notes).1 ==> after.notes == l.notes + notes)
    decreases |notes|
  {
    if notes != [] && |l.notes| <= w.crypto.usizeMax {
      AppendsKeepRest(w, AppendNote(w, l, notes[0]), notes[1..]);
      assert l.notes + [notes[0]] + notes[1..] == l.notes + notes;
    } else if notes == [] {
      assert l.notes + notes == l.notes;
    }
  }

  // ----- Batched writes of the staged commits

  /** Notes `encoded` stored from position `start` on, everything else as before. */
  ghost predicate NotesPut(before: Store, after: Store, start: nat, encoded: seq<Bytes>)
  {
    forall p :: Get(after, p) == NotesPutCell(before, start, encoded, p)
  }

  function NotesPutCell(before: Store, start: nat, encoded: seq<Bytes>, p: Path): Cell
  {
    if (p.NoteBody? || p.NoteLen? || p.NoteChunk?) && start <= p.index < start + |encoded|
       && NoteCell(encoded[p.index - start], p).Some? then NoteCell(encoded[p.index - start], p)
    else Get(before, p)
  }

  lemma NotesPutOneMore(before: Store, put: Store, after: Store, start: nat, encoded: seq<Bytes>, next: Bytes)
    requires NotesPut(before, put, start, encoded) && NotePut(put, after, start + |encoded|, next)
    ensures NotesPut(before, after, start, encoded + [next])
  {
    forall p
      ensures Get(after, p) == NotesPutCell(before, start, encoded + [next], p)
    {
      assert Get(put, p) == NotesPutCell(before, start, encoded, p);
    }
  }

  function StoredNotes(notes: seq<Note>): (r: seq<Bytes>)
    ensures |r| == |notes|
  {
    seq(|notes|, i requires 0 <= i < |notes| => StoredNote(notes[i]))
  }

  /** The slots that hold a node, with their levels: what a staged commit writes back. */
  function Filled(branches: Branches, level: nat): seq<(nat, Felt)>
    decreases |branches| - level
  {
    if level >= |branches| then []
    else (if branches[level].Some? then [(level, branches[level].value)] else []) + Filled(branches, level + 1)
  }

  /** Appending all of `notes` at once. */
  function AppendNotes(w: World, l: Ledger, notes: seq<Note>): Ledger
    decreases |notes|
  {
    if notes == [] then l
    else AppendNote(w, AppendNotes(w, l, notes[..|notes| - 1]), notes[|notes| - 1])
  }

  lemma {:induction false} AppendNotesShape(w: World, l: Ledger, notes: seq<Note>)
    ensures var after := AppendNotes(w, l, notes);
            after == l.(notes := l.notes + notes, branches := after.branches)
            && |after.branches| == |l.branches|
            && forall i :: 0 <= i < |l.branches| ==> after.branches[i].None? ==> l.branches[i].None?
    decreases |notes|
  {
    if notes == [] {
      assert l.notes + notes == l.notes;
    } else {
      var before := notes[..|notes| - 1];
      AppendNotesShape(w, l, before);
      assert l.notes + before + [notes[|notes| - 1]] == l.notes + notes;
    }
  }

  lemma {:induction false} AppendNotesKeepTreeInv(w: World, l: Ledger, notes: seq<Note>)
    requires TreeInv(w, l) && |l.notes| + |notes| <= Pow2(w.crypto.depth)
    requires forall i :: 0 <= i < |notes| ==> notes[i].enc.Valid()
    ensures TreeInv(w, AppendNotes(w, l, notes))
    decreases |notes|
  {
    if notes == [] {
    } else {
      var before := notes[..|notes| - 1];
      AppendNotesKeepTreeInv(w, l, before);
      AppendNotesShape(w, l, before);
      AppendKeepsTreeInv(w, AppendNotes(w, l, before), notes[|notes| - 1]);
    }
  }

  /** A batch of appends: note cells, branch slots, root and size. */
  lemma BatchStored(w: World, s: KState, before: Store, put: Store, walked: Store, notes: seq<Note>)
    requires s.ledger.Some? && Represents(w, s, before)
    requires var l := s.ledger.value;
             NotesPut(before, put, |l.notes|, StoredNotes(notes))
             && SlotsStored(AppendNotes(w, l, notes).branches, put, walked)
    ensures var l := s.ledger.value;
            var all := l.notes + notes;
            Represents(w, With(s, AppendNotes(w, l, notes)),
                       walked[TreeRoot := TreeRootOf(w, all)][TreeSize := LeBytes(|all|, 8)])
  {
    hide AppendNotes, StoredNote, TreeRootOf, NoteCell;
    var l := s.ledger.value;
    AppendNotesShape(w, l, notes);
    var all, s' := l.notes + notes, With(s, AppendNotes(w, l, notes));
    var after := walked[TreeRoot := TreeRootOf(w, all)][TreeSize := LeBytes(|all|, 8)];
    forall p
      ensures Get(after, p) == StateCell(w, s', p)
    {
      assert Get(before, p) == StateCell(w, s, p);
      assert Get(put, p) == NotesPutCell(before, |l.notes|, StoredNotes(notes), p);
      assert p != TreeRoot && p != TreeSize ==> Get(after, p) == Get(walked, p);
    }
  }

  /** Markers and index entries of a batch of nullifiers, the count not yet written. */
  function NullifiersPutCell(before: Store, start: nat, nullifiers: seq<Felt>, p: Path): Cell
  {
    if p.Nullifier? && p.key in nullifiers then Some([1])
    else if p.NullifierAt? && start <= p.index < start + |nullifiers| then Some(nullifiers[p.index - start])
    else Get(before, p)
  }

  ghost predicate NullifiersPut(before: Store, after: Store, start: nat, nullifiers: seq<Felt>)
  {
    forall p :: Get(after, p) == NullifiersPutCell(before, start, nullifiers, p)
  }

  lemma NullifiersStored(w: World, s: KState, before: Store, put: Store, nullifiers: seq<Felt>)
    requires s.ledger.Some? && Represents(w, s, before)
    requires NullifiersPut(before, put, |s.ledger.value.nullifiers|, nullifiers)
    ensures var l := s.ledger.value;
            var all := l.nullifiers + nullifiers;
            Represents(w, With(s, l.(nullifiers := all)), put[NullifierCount := LeBytes(|all|, 8)])
  {
    var l := s.ledger.value;
    var all := l.nullifiers + nullifiers;
    var s', after := With(s, l.(nullifiers := all)), put[NullifierCount := LeBytes(|all|, 8)];
    forall p
      ensures Get(after, p) == StateCell(w, s', p)
    {
      assert Get(before, p) == StateCell(w, s, p);
      assert Get(put, p) == NullifiersPutCell(before, |l.nullifiers|, nullifiers, p);
    }
  }

  lemma OneMoreNullifier(before: Store, put: Store, start: nat, nullifiers: seq<Felt>, next: Felt)
    requires NullifiersPut(before, put, start, nullifiers)
    ensures NullifiersPut(before, put[Nullifier(next) := [1]][NullifierAt(start + |nullifiers|) := next],
                          start, nullifiers + [next])
  {
    var after := put[Nullifier(next) := [1]][NullifierAt(start + |nullifiers|) := next];
    forall p
      ensures Get(after, p) == NullifiersPutCell(before, start, nullifiers + [next], p)
    {
      assert Get(put, p) == NullifiersPutCell(before, start, nullifiers, p);
    }
  }

  lemma StoredNoteIsShort(note: Note)
    ensures |StoredNote(note)| < MAX_LEDGER_STATE_BYTES
  {
  }

  /** Storing notes leaves the branch cells of the old layout in place. */
  lemma BranchCellsBefore(w: World, s: KState, before: Store, put: Store, start: nat, encoded: seq<Bytes>)
    requires s.ledger.Some? && Represents(w, s, before) && NotesPut(before, put, start, encoded)
    ensures forall p: Path :: p.Branch? ==> Get(put, p) == SlotCell(s.ledger.value.branches, p.level)
  {
    forall p: Path | p.Branch?
      ensures Get(put, p) == SlotCell(s.ledger.value.branches, p.level)
    {
      assert Get(before, p) == StateCell(w, s, p);
      assert Get(put, p) == NotesPutCell(before, start, encoded, p);
    }
  }

  /** Appends look only at the tree, so they commute with updates elsewhere. */
  lemma {:induction false} AppendNotesLocal(w: World, a: Ledger, b: Ledger, notes: seq<Note>)
    requires a.notes == b.notes && a.branches == b.branches
    ensures AppendNotes(w, a, notes).branches == AppendNotes(w, b, notes).branches
    decreases |notes|
  {
    if notes == [] {
    } else {
      var before := notes[..|notes| - 1];
      AppendNotesLocal(w, a, b, before);
      AppendNotesShape(w, a, before);
      AppendNotesShape(w, b, before);
    }
  }

  lemma AppendNotesOfTwo(w: World, l: Ledger, a: Note, b: Note)
    ensures AppendNotes(w, l, [a, b]) == AppendNote(w, AppendNote(w, l, a), b)
  {
    AppendNotesOfOne(w, l, a);
    assert [a, b][..1] == [a];
  }

  lemma AppendNotesOfOne(w: World, l: Ledger, a: Note)
    ensures AppendNotes(w, l, [a]) == AppendNote(w, l, a)
  {
    assert [a][..0] == [];
  }

  /** Debiting, marking and then appending gives the shielded ledger. */
  lemma ShieldLedgerByParts(w: World, l: Ledger, level: i32, p: PreparedShield)
    requires PoolBalance(l, p.pubkeyHash).Some? && PoolBalance(l, p.pubkeyHash).value >= p.debit
    ensures ShieldLedger(w, l, level, p) ==
            NotePrivateTx(SnapshotRoot(w, AppendNotes(w, Drawn(l, p.pubkeyHash, p.debit, p.clientCm), ShieldNotes(p))),
              level)
  {
    AppendNotesOfTwo(w, Drawn(l, p.pubkeyHash, p.debit, p.clientCm), Note(p.clientCm, p.clientEnc),
      Note(p.producerCm, p.producerEnc));
  }

  /** The staged order of an unshield (notes, nullifiers, withdrawal) reaches the
      same ledger as the direct order (withdrawal, change, nullifiers, producer). */
  lemma UnshieldLedgerByParts(w: World, l: Ledger, level: i32, p: PreparedUnshield)
    ensures var appended := AppendNotes(w, l, UnshieldNotes(p));
            var spent := appended.(nullifiers := appended.nullifiers + p.nullifiers);
            var queued := spent.(withdrawals := spent.withdrawals + [Withdrawal(p.recipient, p.amount)]);
            UnshieldLedger(w, l, level, p) == NotePrivateTx(SnapshotRoot(w, queued), level)
  {
    match p.changeNote {
      case None =>
        assert UnshieldNotes(p) == [p.producerNote];
        AppendNotesOfOne(w, l, p.producerNote);
      case Some(change) =>
        assert UnshieldNotes(p) == [change, p.producerNote];
        AppendNotesOfTwo(w, l, change, p.producerNote);
    }
  }

  lemma TreeInvLocal(w: World, a: Ledger, b: Ledger)
    requires TreeInv(w, a) && a.notes == b.notes && a.branches == b.branches
    ensures TreeInv(w, b)
  {
  }

  lemma AppendNoteShape(w: World, l: Ledger, note: Note)
    ensures var after := AppendNote(w, l, note);
            after == l.(notes := l.notes + [note], branches := after.branches) && |after.branches| == |l.branches|
  {
  }

  /** Inserting the nullifiers before or after appending the change makes no difference. */
  lemma UnshieldOrders(w: World, l: Ledger, p: PreparedUnshield)
    ensures var queued := l.(withdrawals := l.withdrawals + [Withdrawal(p.recipient, p.amount)]);
            var changed := if p.changeNote.Some? then AppendNote(w, queued, p.changeNote.value) else queued;
            var spentFirst := queued.(nullifiers := l.nullifiers + p.nullifiers);
            changed.(nullifiers := changed.nullifiers + p.nullifiers)
            == if p.changeNote.Some? then AppendNote(w, spentFirst, p.changeNote.value) else spentFirst
  {
  }

  // ----- Configuration, initialisation and input records

  lemma ConfigWritten(w: World, s: KState, store: Store, config: VerifierConfig)
    requires s.ledger.Some? && Represents(w, s, store)
    ensures Represents(w, With(s, s.ledger.value.(authDomain := config.authDomain, verifier := Some(config))),
                       store[AuthDomain := config.authDomain][Path.VerifierConfig := EncodeConfig(config)])
  {
    var s' := With(s, s.ledger.value.(authDomain := config.authDomain, verifier := Some(config)));
    var store' := store[AuthDomain := config.authDomain][Path.VerifierConfig := EncodeConfig(config)];
    forall p
      ensures Get(store', p) == StateCell(w, s', p)
    {
      assert Get(store, p) == StateCell(w, s, p);
    }
  }

  lemma TicketerWritten(w: World, s: KState, store: Store, ticketer: Text)
    requires s.ledger.Some? && Represents(w, s, store)
    ensures Represents(w, With(s, s.ledger.value.(ticketer := Some(ticketer))), store[Ticketer := ticketer])
  {
    var s', store' := With(s, s.ledger.value.(ticketer := Some(ticketer))), store[Ticketer := ticketer];
    forall p
      ensures Get(store', p) == StateCell(w, s', p)
    {
      assert Get(store, p) == StateCell(w, s, p);
    }
  }

  /** The cells of a fresh ledger, one by one. */
  function InitialCell(w: World, root: Felt, p: Path): Cell
  {
    match p
    case AuthDomain => Some(w.defaultAuthDomain)
    case TreeSize => Some(LeBytes(0, 8))
    case TreeRoot => Some(root)
    case NullifierCount => Some(LeBytes(0, 8))
    case WithdrawalCount => Some(LeBytes(0, 8))
    case RootMarker(key) => if key == root then Some([1]) else None
    case RootAt(i) => if i == 0 then Some(root) else None
    case RootCount => Some(LeBytes(1, 8))
    case _ => None
  }

  lemma InitialLayout(w: World, p: Path)
    ensures LedgerCell(w, InitialLedger(w), p) == InitialCell(w, TreeRootOf(w, []), p)
  {
    hide TreeRootOf, LeBytes;
  }

  /** The writes of `ensure_initialized` on a store without a ledger. */
  lemma InitialWritten(w: World, s: KState, store: Store)
    requires s.ledger.None? && Represents(w, s, store)
    ensures var root := TreeRootOf(w, []);
            Represents(w, With(s, InitialLedger(w)),
              store[AuthDomain := w.defaultAuthDomain][TreeSize := LeBytes(0, 8)][TreeRoot := root]
                   [NullifierCount := LeBytes(0, 8)][WithdrawalCount := LeBytes(0, 8)]
                   [RootMarker(root) := [1]][RootAt(0) := root][RootCount := LeBytes(1, 8)])
  {
    hide TreeRootOf, LedgerCell, LeBytes, InputCell;
    var root, s' := TreeRootOf(w, []), With(s, InitialLedger(w));
    var store' := store[AuthDomain := w.defaultAuthDomain][TreeSize := LeBytes(0, 8)][TreeRoot := root]
                       [NullifierCount := LeBytes(0, 8)][WithdrawalCount := LeBytes(0, 8)]
                       [RootMarker(root) := [1]][RootAt(0) := root][RootCount := LeBytes(1, 8)];
    forall p
      ensures Get(store', p) == StateCell(w, s', p)
    {
      InitialLayout(w, p);
      assert Get(store, p) == StateCell(w, s, p);
    }
  }

  lemma InputWritten(w: World, s: KState, store: Store, log: InputLog)
    requires Represents(w, s, store)
    ensures Represents(w, s.(inputs := Some(log)),
              store[RawInputCount := LeBytes(log.count, 8)][RawInputBytes := LeBytes(log.bytes, 8)]
                   [LastInputLevel := I32Le(log.level)][LastInputId := I32Le(log.id)]
                   [LastInputLen := LeBytes(|log.stored|, 4)][LastInputPayload := log.stored])
  {
    hide LedgerCell;
    var s' := s.(inputs := Some(log));
    var store' := store[RawInputCount := LeBytes(log.count, 8)][RawInputBytes := LeBytes(log.bytes, 8)]
                       [LastInputLevel := I32Le(log.level)][LastInputId := I32Le(log.id)]
                       [LastInputLen := LeBytes(|log.stored|, 4)][LastInputPayload := log.stored];
    forall p
      ensures Get(store', p) == StateCell(w, s', p)
    {
      assert Get(store, p) == StateCell(w, s, p);
    }
  }

  lemma ResultWritten(w: World, s: KState, store: Store, bytes: Bytes)
    requires Represents(w, s, store)
    ensures Represents(w, s.(result := Some(bytes)), store[LastResult := bytes])
  {
    hide LedgerCell;
    var s', store' := s.(result := Some(bytes)), store[LastResult := bytes];
    forall p
      ensures Get(store', p) == StateCell(w, s', p)
    {
      assert Get(store, p) == StateCell(w, s, p);
    }
  }

  lemma TransferEmitsNothing(w: World, l: Ledger, level: i32, req: TransferReq)
    ensures !TransferReply(w, l, level, req).effect.Withdraw?
  {
  }

  lemma DepositEmitsNothing(w: World, l: Ledger, ticketer: Text, recipient: Text, amount: u64)
    ensures !ApplyDeposit(w, l, ticketer, recipient, amount).effect.Withdraw?
  {
  }

  /** A message's reply depends on the ledger it finds, not on the input counters. */
  lemma ReplyIgnoresLog(w: World, a: KState, b: KState, input: Input)
    requires a.ledger == b.ledger
    ensures forall parsed: Parsed :: parsed.Deposit? || parsed.Kernel? ==>
              ReplyTo(w, a, input, parsed) == ReplyTo(w, b, input, parsed)
  {
    hide ApplyKernel, ApplyDeposit;
  }

  lemma EmptyTreeRoot(w: World)
    ensures TreeRootOf(w, []) == ZeroHash(w.crypto.node, w.crypto.depth)
  {
    assert Commitments([]) == [];
    NodeOfEmptyPart(w.crypto.node, 0, [], w.crypto.depth, 0);
  }

  lemma CellPresence(w: World, s: KState, store: Store, p: Path)
    requires Represents(w, s, store)
    ensures p in store <==> StateCell(w, s, p).Some?
  {
    hide StateCell;
    assert Get(store, p) == StateCell(w, s, p);
  }

  /** Before initialisation none of the ledger's cells exist. */
  lemma FreshCells(w: World, s: KState, store: Store)
    requires s.ledger.None? && Represents(w, s, store)
    ensures AuthDomain !in store && TreeSize !in store && TreeRoot !in store
    ensures NullifierCount !in store && WithdrawalCount !in store && RootCount !in store
  {
    hide Represents, TreeRootOf, LeBytes;
    CellPresence(w, s, store, AuthDomain);
    CellPresence(w, s, store, TreeSize);
    CellPresence(w, s, store, TreeRoot);
    CellPresence(w, s, store, NullifierCount);
    CellPresence(w, s, store, WithdrawalCount);
    CellPresence(w, s, store, RootCount);
  }

  /** Afterwards they all do. */
  lemma InitialisedCells(w: World, s: KState, store: Store)
    requires s.ledger.Some? && Represents(w, s, store)
    ensures AuthDomain in store && TreeSize in store && TreeRoot in store
    ensures NullifierCount in store && WithdrawalCount in store && RootCount in store
  {
    hide Represents, TreeRootOf, LeBytes;
    CellPresence(w, s, store, AuthDomain);
    CellPresence(w, s, store, TreeSize);
    CellPresence(w, s, store, TreeRoot);
    CellPresence(w, s, store, NullifierCount);
    CellPresence(w, s, store, WithdrawalCount);
    CellPresence(w, s, store, RootCount);
  }

  lemma InputCountersReadBack(w: World, s: KState, store: Store)
    requires Represents(w, s, store)
    ensures ReadU64(store, RawInputCount) == Ok(if s.inputs.Some? then Some(s.inputs.value.count) else None)
    ensures ReadU64(store, RawInputBytes) == Ok(if s.inputs.Some? then Some(s.inputs.value.bytes) else None)
  {
    assert Get(store, RawInputCount) == InputCell(s.inputs, RawInputCount);
    assert Get(store, RawInputBytes) == InputCell(s.inputs, RawInputBytes);
    if s.inputs.Some? {
      ReadBackU64(store, RawInputCount, s.inputs.value.count);
      ReadBackU64(store, RawInputBytes, s.inputs.value.bytes);
    }
  }
}
