/** The tree, the recorded roots and the configuration over whole runs, and the
    one message that can stop halfway. */
module KernelHistory {
  import opened Bytes
  import opened KernelLaws
  import opened KernelRuns
  import opened KernelState
  import opened KernelStore
  import opened Protocol

  // ----- One step

  /** A transfer stopped halfway: the tree outgrew the host's indices, the rest stayed. */
  ghost predicate OutgrewHost(w: World, l: Ledger, r: Reply)
  {
    && r.effect == Nothing
    && l.notes < r.ledger.notes && |r.ledger.notes| >= w.crypto.usizeMax + 2
    && r.ledger.roots == l.roots
  }

  lemma StepTree(w: World, s: KState, input: Input)
    ensures var r := ReplyBehind(w, s, input);
            TreeFollows(w, Opened(w, s), r) || OutgrewHost(w, Opened(w, s), r)
  {
    hide ApplyKernel, TreeFollows, InitialLedger, StopsHalfway;
    var l := Opened(w, s);
    match w.parse(input.payload) {
      case Kernel(message) =>
        RejectionIsAtomicExactly(w, l, input, message);
        StepByReply(w, s, input);
      case Deposit(ticketer, recipient, amount) => DepositTreeFollows(w, l, ticketer, recipient, amount);
      case _ => NothingHappened(w, l);
    }
  }

  lemma DepositTreeFollows(w: World, l: Ledger, ticketer: Text, recipient: Text, amount: u64)
    ensures TreeFollows(w, l, ApplyDeposit(w, l, ticketer, recipient, amount))
  {
    hide TreeRootOf;
  }

  lemma NothingHappened(w: World, l: Ledger)
    ensures TreeFollows(w, l, Rejected(l, MalformedInput))
  {
    hide TreeRootOf;
  }

  // ----- Notes and roots of a run

  function AllNotes(j: seq<Entry>): seq<Note>
  {
    if j == [] then [] else AllNotes(j[..|j| - 1]) + NotesOf(j[|j| - 1].effect)
  }

  /** The roots after each accepted private transaction, the empty tree's first, without repetition. */
  function RecordedRoots(w: World, j: seq<Entry>): seq<Felt>
  {
    if j == [] then [TreeRootOf(w, [])]
    else
      var before, root := RecordedRoots(w, j[..|j| - 1]), TreeRootOf(w, AllNotes(j));
      if IsPrivateTx(j[|j| - 1].effect) && root !in before then before + [root] else before
  }

  /** While the tree fits the host's indices. */
  predicate TreeFitsHost(w: World, l: Ledger)
  {
    |l.notes| <= w.crypto.usizeMax + 1
  }

  /** The stored notes are those of the accepted messages, in order, exactly as
      long as the tree fits the host; then the root set is the roots recorded
      after each of them, and the current root is one of them. */
  lemma {:induction false} TreeIsWhatWasAccepted(w: World, inputs: seq<Input>)
    ensures var l := Opened(w, Reached(w, inputs));
            var j := Journal(w, inputs);
            && (TreeFitsHost(w, l) <==> l.notes == AllNotes(j))
            && |AllNotes(j)| <= w.crypto.usizeMax + 1
            && (TreeFitsHost(w, l) ==> l.roots == RecordedRoots(w, j) && TreeRootOf(w, l.notes) in l.roots)
  {
    hide Step, EffectOf, ReplyBehind, TreeRootOf;
    if inputs == [] {
    } else {
      var before, last := inputs[..|inputs| - 1], inputs[|inputs| - 1];
      TreeIsWhatWasAccepted(w, before);
      var s := Reached(w, before);
      StepByReply(w, s, last);
      StepTree(w, s, last);
      var j, j' := Journal(w, before), Journal(w, inputs);
      assert j'[..|inputs| - 1] == j;
      var r := ReplyBehind(w, s, last);
      if !IsPrivateTx(r.effect) && TreeFollows(w, Opened(w, s), r) {
        assert r.ledger.notes == Opened(w, s).notes;
      }
    }
  }

  /** Every 64-bit host can index the whole tree. */
  lemma DepthWithin64Bits(w: World)
    requires Sane(w) && w.crypto.usizeMax == U64_LIMIT - 1
    ensures HostFits(w)
  {
    CapacityFits(w);
  }

  /** On a host that can, as on every 64-bit host, all of this is unconditional. */
  lemma WideHostsNeverOutgrow(w: World, inputs: seq<Input>)
    requires HostFits(w) || (Sane(w) && w.crypto.usizeMax == U64_LIMIT - 1)
    ensures var l := Opened(w, Reached(w, inputs));
            TreeFitsHost(w, l) && l.notes == AllNotes(Journal(w, inputs))
            && l.roots == RecordedRoots(w, Journal(w, inputs)) && TreeRootOf(w, l.notes) in l.roots
  {
    hide TreeRootOf, Reached;
    if !HostFits(w) {
      DepthWithin64Bits(w);
    }
    EveryRunIsSound(w, inputs);
    TreeIsWhatWasAccepted(w, inputs);
  }

  // ----- What later inputs cannot undo

  /** `b` extends `a`: logs only grow, and what is configured stays. */
  ghost predicate Extends(w: World, a: KState, b: KState)
  {
    var l, m := Opened(w, a), Opened(w, b);
    && l.notes <= m.notes && l.nullifiers <= m.nullifiers && l.roots <= m.roots
    && l.withdrawals <= m.withdrawals && l.applied <= m.applied && a.outbox <= b.outbox
    && (l.ticketer.Some? ==> m.ticketer == l.ticketer)
    && (l.verifier.Some? ==> m.verifier == l.verifier && m.authDomain == l.authDomain)
  }

  lemma StepExtends(w: World, s: KState, input: Input)
    ensures Extends(w, s, Step(w, s, input))
  {
    hide Step, EffectOf, ReplyBehind, TreeRootOf, Opened, PoolsAfter, AcceptedInLevel;
    StepByReply(w, s, input);
    StepTree(w, s, input);
  }

  /** Append-only history: more inputs never remove or reorder a note, a
      nullifier, a valid root, a withdrawal or an outbox message, and never
      change the verifier, the auth domain it set, or the ticketer. */
  lemma {:induction false} HistoryOnlyGrows(w: World, s: KState, inputs: seq<Input>)
    ensures Extends(w, s, Run(w, s, inputs))
  {
    hide Step, Opened;
    if inputs == [] {
    } else {
      var before := inputs[..|inputs| - 1];
      HistoryOnlyGrows(w, s, before);
      StepExtends(w, Run(w, s, before), inputs[|inputs| - 1]);
    }
  }

  lemma {:induction false} RunInTwo(w: World, s: KState, first: seq<Input>, second: seq<Input>)
    ensures Run(w, s, first + second) == Run(w, Run(w, s, first), second)
    decreases |second|
  {
    hide Step;
    if second == [] {
      assert first + second == first;
    } else {
      var before := second[..|second| - 1];
      assert (first + second)[..|first + second| - 1] == first + before;
      RunInTwo(w, s, first, before);
    }
  }

  /** A root is valid only if it was the tree's root at some time. */
  ghost predicate IsHistoric(w: World, l: Ledger, root: Felt)
  {
    exists n :: 0 <= n <= |l.notes| && root == TreeRootOf(w, l.notes[..n])
  }

  lemma {:induction false} EveryValidRootIsHistoric(w: World, inputs: seq<Input>)
    ensures var l := Opened(w, Reached(w, inputs));
            forall root :: root in l.roots ==> IsHistoric(w, l, root)
  {
    hide Step, EffectOf, ReplyBehind, TreeRootOf;
    if inputs == [] {
      var l := Opened(w, Reached(w, inputs));
      assert l.notes[..0] == [];
    } else {
      var before, last := inputs[..|inputs| - 1], inputs[|inputs| - 1];
      EveryValidRootIsHistoric(w, before);
      var s := Reached(w, before);
      StepByReply(w, s, last);
      StepTree(w, s, last);
      HistoricForMore(w, Opened(w, s), Opened(w, Reached(w, inputs)));
    }
  }

  lemma HistoricForMore(w: World, l: Ledger, m: Ledger)
    requires l.notes <= m.notes
    ensures forall root :: IsHistoric(w, l, root) ==> IsHistoric(w, m, root)
    ensures IsHistoric(w, m, TreeRootOf(w, m.notes))
  {
    hide TreeRootOf;
    forall root | IsHistoric(w, l, root)
      ensures IsHistoric(w, m, root)
    {
      var n :| 0 <= n <= |l.notes| && root == TreeRootOf(w, l.notes[..n]);
      assert m.notes[..n] == l.notes[..n];
    }
    assert m.notes[..|m.notes|] == m.notes;
  }
}
