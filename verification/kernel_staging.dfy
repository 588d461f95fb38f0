/** The staged commits against the direct ones, and whole runs of the imperative
    kernel against the laws of runs. */
module KernelStaging {
  import opened Bytes
  import opened KernelHistory
  import opened KernelInvariant
  import opened KernelRuns
  import opened KernelState
  import opened KernelStore
  import opened KernelUpdates
  import opened Kernels
  import opened Merkle
  import opened Paths
  import opened Protocol
  import opened Wrappers

  /** Two kernels in the same sound state. */
  ghost predicate Twins(a: Kernel, b: Kernel)
    reads a, b
  {
    a != b && a.w == b.w && a.Valid() && b.Valid() && a.state == b.state
  }

  /** Staging and then applying a validated shield leaves exactly the store, the
      outbox and the response of committing it directly. Where the new indices
      do not fit the host both report the same error, and staging wrote nothing. */
  method StagedShieldIsDirectShield(a: Kernel, b: Kernel, req: ShieldReq)
    returns (staged: Res<ShieldResp>, direct: Res<ShieldResp>)
    requires Twins(a, b) && PrepareShield(a.w.crypto, ReadsOf(a.L(), a.Level()), req).Ok?
    modifies a, b
    ensures staged == direct
    ensures staged.Ok? <==> |old(a.L()).notes| + 1 <= a.w.crypto.usizeMax
    ensures staged.Ok? ==> a.store == b.store && a.outbox == b.outbox
    ensures staged.Err? ==> a.store == old(a.store) && staged.error == IndexDoesNotFit
  {
    hide PrepareShield, LedgerInv, StateCell, ShieldLedger;
    ShieldAccepted(a.w, a.L(), a.Level(), req);
    var prepared := a.PrepareShieldOnStore(req);
    match prepared {
      case Err(e) => return Err(e), Err(e);
      case Ok(p) =>
        direct := b.CommitPreparedShield(p);
        var commit := a.PrepareDurableShieldCommit(p);
        match commit {
          case Err(e) => staged := Err(e);
          case Ok(c) =>
            var resp := a.ApplyDurableShieldCommit(p, c);
            staged := Ok(resp);
            LayoutIsUnique(a.w, a.state, a.store, b.store);
        }
    }
  }

  /** The same for an unshield, whose direct commit writes in another order. (The
      message handler has sent its outbox message before it applies the plan.) */
  method StagedUnshieldIsDirectUnshield(a: Kernel, b: Kernel, req: UnshieldReq)
    returns (staged: Res<UnshieldResp>, direct: Res<UnshieldResp>)
    requires Twins(a, b) && PrepareUnshield(a.w.crypto, ReadsOf(a.L(), a.Level()), req).Ok?
    modifies a, b
    ensures staged == direct
    ensures var p := PrepareUnshield(a.w.crypto, ReadsOf(old(a.L()), old(a.Level())), req).value;
            staged.Ok? <==> |old(a.L()).notes| + |UnshieldNotes(p)| - 1 <= a.w.crypto.usizeMax
    ensures staged.Ok? ==> a.store == b.store && a.outbox == b.outbox
    ensures staged.Err? ==> a.store == old(a.store) && staged.error == IndexDoesNotFit
  {
    hide PrepareUnshield, LedgerInv, StateCell, UnshieldLedger;
    UnshieldAccepted(a.w, a.L(), a.Level(), req);
    var prepared := a.PrepareUnshieldOnStore(req);
    match prepared {
      case Err(e) => return Err(e), Err(e);
      case Ok(p) =>
        direct := b.CommitPreparedUnshield(p);
        var commit := a.PrepareDurableUnshieldCommit(p);
        match commit {
          case Err(e) => staged := Err(e);
          case Ok(c) =>
            var resp := a.ApplyDurableUnshieldCommit(p, c);
            staged := Ok(resp);
            LayoutIsUnique(a.w, a.state, a.store, b.store);
        }
    }
  }

  /** Processing an inbox and reading the ledger back always succeeds, and yields
      what the inbox did: exactly the accepted nullifiers and withdrawals, while
      the tree fits the host's indices every accepted note in order and the
      recorded roots, and a stored root that is the root of the leaves read back. */
  method ProcessAndRead(w: World, inputs: seq<Input>)
    returns (ledger: Res<Snapshot>, storedRoot: Res<Option<Felt>>, outbox: seq<Bytes>)
    requires Sane(w)
    ensures ledger.Ok?
    ensures var s := Reached(w, inputs);
            s.ledger.Some? ==> storedRoot == Ok(Some(Root(w.crypto.node, w.crypto.depth, ledger.value.leaves)))
    ensures ledger.value.leaves == Commitments(ledger.value.memos)
    ensures ledger.value.nullifiers == Elements(AllNullifiers(Journal(w, inputs)))
    ensures ledger.value.withdrawals == AllRecords(Journal(w, inputs))
    ensures OutboxEncodesQueue(w, outbox, Opened(w, Reached(w, inputs)))
    ensures TreeFitsHost(w, Opened(w, Reached(w, inputs))) <==> ledger.value.memos == AllNotes(Journal(w, inputs))
    ensures TreeFitsHost(w, Opened(w, Reached(w, inputs))) && Reached(w, inputs).ledger.Some? ==>
              ledger.value.validRoots == Elements(RecordedRoots(w, Journal(w, inputs)))
  {
    hide LedgerInv, StateCell, Run, TreeRootOf, Journal;
    var kernel := new Kernel(w);
    kernel.RunWithHost(inputs);
    ledger := kernel.ReadLedger();
    outbox := kernel.outbox;
    storedRoot := ReadFelt(kernel.store, TreeRoot);
    ghost var s := Reached(w, inputs);
    if s.ledger.Some? {
      StoredRootReadsBack(w, s, kernel.store);
    }
    NoNullifierIsAcceptedTwice(w, inputs);
    OutboxIsTheQueue(w, inputs);
    TreeIsWhatWasAccepted(w, inputs);
  }

  /** In every reachable store the nullifier index is a duplicate-free list of
      exactly the marked nullifiers, and so is the root index. */
  lemma IndexesListTheMarkers(w: World, inputs: seq<Input>, store: Store, key: Felt)
    requires Reached(w, inputs).ledger.Some? && Represents(w, Reached(w, inputs), store)
    ensures Nullifier(key) in store <==> exists i: nat :: Get(store, NullifierAt(i)) == Some(key)
    ensures RootMarker(key) in store <==> exists i: nat :: Get(store, RootAt(i)) == Some(key)
    ensures forall i: nat, j: nat :: i < j && NullifierAt(i) in store && NullifierAt(j) in store ==>
              store[NullifierAt(i)] != store[NullifierAt(j)]
    ensures forall i: nat, j: nat :: i < j && RootAt(i) in store && RootAt(j) in store ==>
              store[RootAt(i)] != store[RootAt(j)]
  {
    var s := Reached(w, inputs);
    EveryRunIsSound(w, inputs);
    var l := s.ledger.value;
    assert Distinct(l.nullifiers) && Distinct(l.roots);
    hide Run, LedgerInv, TreeRootOf;
    hide Represents, Reached;
    IndexLists(w, s, store);
    MarkersOf(w, s, store, key);
    IndexHolds(store, l.nullifiers, key);
    RootIndexHolds(store, l.roots, key);
  }

  lemma MarkersOf(w: World, s: KState, store: Store, key: Felt)
    requires s.ledger.Some? && Represents(w, s, store)
    ensures Get(store, Nullifier(key)) == MarkerCell(s.ledger.value.nullifiers, key)
    ensures Get(store, RootMarker(key)) == MarkerCell(s.ledger.value.roots, key)
  {
    assert Get(store, Nullifier(key)) == StateCell(w, s, Nullifier(key));
    assert Get(store, RootMarker(key)) == StateCell(w, s, RootMarker(key));
  }

  lemma IndexHolds(store: Store, nullifiers: seq<Felt>, key: Felt)
    requires forall i: nat :: Get(store, NullifierAt(i)) == IndexCell(nullifiers, i)
    ensures key in nullifiers <==> exists i: nat :: Get(store, NullifierAt(i)) == Some(key)
  {
    if key in nullifiers {
      var i: nat :| i < |nullifiers| && nullifiers[i] == key;
      assert Get(store, NullifierAt(i)) == Some(key);
    }
  }

  lemma RootIndexHolds(store: Store, roots: seq<Felt>, key: Felt)
    requires forall i: nat :: Get(store, RootAt(i)) == IndexCell(roots, i)
    ensures key in roots <==> exists i: nat :: Get(store, RootAt(i)) == Some(key)
  {
    if key in roots {
      var i: nat :| i < |roots| && roots[i] == key;
      assert Get(store, RootAt(i)) == Some(key);
    }
  }

  lemma IndexLists(w: World, s: KState, store: Store)
    requires s.ledger.Some? && Represents(w, s, store)
    ensures forall i: nat :: Get(store, NullifierAt(i)) == IndexCell(s.ledger.value.nullifiers, i)
    ensures forall i: nat :: Get(store, RootAt(i)) == IndexCell(s.ledger.value.roots, i)
  {
    forall i: nat
      ensures Get(store, NullifierAt(i)) == IndexCell(s.ledger.value.nullifiers, i)
      ensures Get(store, RootAt(i)) == IndexCell(s.ledger.value.roots, i)
    {
      assert Get(store, NullifierAt(i)) == StateCell(w, s, NullifierAt(i));
      assert Get(store, RootAt(i)) == StateCell(w, s, RootAt(i));
    }
  }

  lemma StoredRootReadsBack(w: World, s: KState, store: Store)
    requires s.ledger.Some? && Represents(w, s, store)
    ensures ReadFelt(store, TreeRoot)
            == Ok(Some(Root(w.crypto.node, w.crypto.depth, Commitments(s.ledger.value.notes))))
  {
    FeltReadsBack(w, s, store, TreeRoot, TreeRootOf(w, s.ledger.value.notes));
  }
}
