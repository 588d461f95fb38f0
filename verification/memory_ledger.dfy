/** The in-memory reference ledger (`core/src/lib.rs`): sets and queues instead of
    a byte store, a bounded history of roots, and a constant fee. */
module MemoryLedgers {
  import opened Bytes
  import opened KernelState
  import opened KernelStore
  import opened Merkle
  import opened MerkleTrees
  import opened Protocol
  import opened Wrappers

  const MAX_VALID_ROOTS: nat := 4096

  /** What the ledger holds, as a value. */
  datatype Mem = Mem(
    authDomain: Felt, notes: seq<Note>, nullifiers: set<Felt>, history: seq<Felt>,
    withdrawals: seq<Withdrawal>, balances: map<Felt, u64>, applied: set<Felt>)

  function InitialMem(w: World, authDomain: Felt): Mem
  {
    Mem(authDomain, [], {}, [TreeRootOf(w, [])], [], map[], {})
  }

  function MemBalance(m: Mem, key: Felt): Option<u64>
  {
    if key in m.balances then Some(m.balances[key]) else None
  }

  /** The answers validation gets. The capacity `1 << DEPTH` must itself fit a `usize`. */
  function MemReads(w: World, m: Mem): LedgerReads
  {
    LedgerReads(
      Ok(m.authDomain),
      Ok(MIN_TX_FEE),
      root => root in m.history,
      nf => nf in m.nullifiers,
      cm => cm in m.applied,
      key => Ok(MemBalance(m, key)),
      if Pow2(w.crypto.depth) > w.crypto.usizeMax then Err(IndexDoesNotFit) else Ok(|m.notes|))
  }

  // ----- The root history

  /** The newest `limit` entries. */
  function Newest(history: seq<Felt>, limit: nat): (r: seq<Felt>)
    ensures |r| == Min(|history|, limit)
  {
    if |history| > limit then history[|history| - limit..] else history
  }

  function Recorded(history: seq<Felt>, root: Felt): seq<Felt>
  {
    if root in history then history else Newest(history + [root], MAX_VALID_ROOTS)
  }

  /** The bounded history: duplicate-free, never empty, at most the limit. */
  ghost predicate HistoryInv(history: seq<Felt>)
  {
    Distinct(history) && 0 < |history| <= MAX_VALID_ROOTS
  }

  lemma RecordedKeepsInv(history: seq<Felt>, root: Felt)
    requires HistoryInv(history)
    ensures HistoryInv(Recorded(history, root)) && root in Recorded(history, root)
  {
    var r := Recorded(history, root);
    if root !in history {
      assert r[|r| - 1] == root;
    }
  }

  function RecordedAll(history: seq<Felt>, roots: seq<Felt>): seq<Felt>
  {
    if roots == [] then history else Recorded(RecordedAll(history, roots[..|roots| - 1]), roots[|roots| - 1])
  }

  /** Eviction is oldest-first and exact: once `n` further new roots were
      recorded, the root at position `i` is still valid if and only if at most
      4096 - |history| + i of them came. */
  lemma {:induction false} EvictionIsOldestFirst(history: seq<Felt>, roots: seq<Felt>, i: nat)
    requires HistoryInv(history) && i < |history|
    requires Distinct(history + roots)
    ensures RecordedAll(history, roots) == Newest(history + roots, MAX_VALID_ROOTS)
    ensures history[i] in RecordedAll(history, roots) <==> |roots| + |history| <= MAX_VALID_ROOTS + i
  {
    RecordedNewRoots(history, roots);
    var all := history + roots;
    var kept := Newest(all, MAX_VALID_ROOTS);
    assert all[i] == history[i];
    if |all| <= MAX_VALID_ROOTS + i {
      var drop := |all| - |kept|;
      assert kept[i - drop] == all[i];
    }
  }

  lemma {:induction false} RecordedNewRoots(history: seq<Felt>, roots: seq<Felt>)
    requires HistoryInv(history) && Distinct(history + roots)
    ensures RecordedAll(history, roots) == Newest(history + roots, MAX_VALID_ROOTS)
    decreases |roots|
  {
    if roots == [] {
      assert history + roots == history;
    } else {
      var before, last := roots[..|roots| - 1], roots[|roots| - 1];
      assert history + roots == history + before + [last];
      forall i, j | 0 <= i < j < |history + before|
        ensures (history + before)[i] != (history + before)[j]
      {
        assert (history + roots)[i] == (history + before)[i] && (history + roots)[j] == (history + before)[j];
      }
      RecordedNewRoots(history, before);
      var kept := RecordedAll(history, before);
      LastIsNew(history + before, last);
      assert last !in kept;
      NewestTwice(history + before, last);
    }
  }

  lemma LastIsNew(all: seq<Felt>, last: Felt)
    requires Distinct(all + [last])
    ensures last !in all
  {
    forall k | 0 <= k < |all|
      ensures all[k] != last
    {
      assert (all + [last])[k] == all[k] && (all + [last])[|all|] == last;
    }
  }

  lemma NewestTwice(all: seq<Felt>, last: Felt)
    ensures Newest(Newest(all, MAX_VALID_ROOTS) + [last], MAX_VALID_ROOTS) == Newest(all + [last], MAX_VALID_ROOTS)
  {
  }

  // ----- Transitions

  function MemAppend(m: Mem, note: Note): Mem
  {
    m.(notes := m.notes + [note])
  }

  function MemSnapshot(w: World, m: Mem): Mem
  {
    m.(history := Recorded(m.history, TreeRootOf(w, m.notes)))
  }

  function MemDebit(m: Mem, key: Felt, amount: u64): Mem
    requires key in m.balances && m.balances[key] >= amount
  {
    var left := m.balances[key] - amount;
    m.(balances := if left == 0 then m.balances - {key} else m.balances[key := left])
  }

  function MemShield(w: World, m: Mem, p: PreparedShield): Mem
    requires p.pubkeyHash in m.balances && m.balances[p.pubkeyHash] >= p.debit
  {
    var drawn := MemDebit(m, p.pubkeyHash, p.debit).(applied := m.applied + {p.clientCm});
    MemSnapshot(w, drawn.(notes := m.notes + ShieldNotes(p)))
  }

  function MemTransfer(w: World, m: Mem, req: TransferReq): Mem
  {
    MemSnapshot(w, m.(notes := m.notes + TransferNotes(req), nullifiers := m.nullifiers + Elements(req.nullifiers)))
  }

  function MemUnshield(w: World, m: Mem, p: PreparedUnshield): Mem
  {
    MemSnapshot(w, m.(notes := m.notes + UnshieldNotes(p), nullifiers := m.nullifiers + Elements(p.nullifiers),
                      withdrawals := m.withdrawals + [Withdrawal(p.recipient, p.amount)]))
  }

  /** A deposit on its own: no bridge is involved here. */
  function MemDeposit(w: World, m: Mem, recipient: Text, amount: u64): (Mem, Outcome<LedgerError>)
  {
    match w.parseDepositKey(recipient)
    case None => (m, Fail(NotADepositKey))
    case Some(key) =>
      var balance := if key in m.balances then m.balances[key] else 0;
      if balance + amount >= U64_LIMIT then (m, Fail(BalanceOverflow))
      else (m.(balances := m.balances[key := balance + amount]), Pass)
  }

  class MemoryLedger {
    const w: World
    const tree: MerkleTree
    var authDomain: Felt
    var nullifiers: set<Felt>
    var validRoots: set<Felt>
    var rootHistory: seq<Felt>
    var memos: seq<Note>
    var withdrawals: seq<Withdrawal>
    var balances: map<Felt, u64>
    var applied: set<Felt>

    ghost function View(): Mem
      reads this
    {
      Mem(authDomain, memos, nullifiers, rootHistory, withdrawals, balances, applied)
    }

    /** Holds between any two writes. */
    ghost predicate Valid()
      reads this, tree
    {
      && tree.Valid() && tree.h == w.crypto.node && tree.depth == w.crypto.depth
      && tree.leaves == Commitments(memos)
      && validRoots == Elements(rootHistory)
      && HistoryInv(rootHistory)
    }

    /** Holds after every transition: the current root is a valid root. */
    ghost predicate Settled()
      reads this, tree
    {
      Valid() && TreeRootOf(w, memos) in validRoots
    }

    constructor (w: World, authDomain: Felt)
      requires w.crypto.depth > 0
      ensures Settled() && fresh(tree) && View() == InitialMem(w, authDomain) && this.w == w
    {
      var t := new MerkleTree(w.crypto.node, w.crypto.depth);
      var root := t.GetRoot();
      this.w := w;
      tree := t;
      this.authDomain := authDomain;
      nullifiers, validRoots, rootHistory := {}, {root}, [root];
      memos, withdrawals, balances, applied := [], [], map[], {};
      new;
      assert Commitments([]) == [];
    }

    /** The read half of the ledger interface. */
    function Reads(): LedgerReads
      reads this, tree
    {
      var (roots, spent, shields, pools) := (validRoots, nullifiers, applied, balances);
      LedgerReads(
        Ok(authDomain),
        Ok(MIN_TX_FEE),
        root => root in roots,
        nf => nf in spent,
        cm => cm in shields,
        key => Ok(if key in pools then Some(pools[key]) else None),
        if Pow2(w.crypto.depth) > w.crypto.usizeMax then Err(IndexDoesNotFit) else Ok(|tree.leaves|))
    }

    lemma ReadsAgree()
      requires Valid()
      ensures Agree(Reads(), MemReads(w, View()))
    {
    }

    method AppendNote(note: Note) returns (index: nat)
      requires Valid() && |memos| < Pow2(w.crypto.depth)
      modifies this, tree
      ensures Valid() && View() == MemAppend(old(View()), note) && index == |old(memos)|
    {
      index := tree.Append(note.cm);
      memos := memos + [note];
      assert Commitments(memos) == Commitments(old(memos)) + [note.cm];
    }

    /** `record_valid_root_with_limit`. */
    method RecordValidRoot(root: Felt, limit: nat)
      requires validRoots == Elements(rootHistory) && Distinct(rootHistory) && limit > 0
      modifies this`validRoots, this`rootHistory
      ensures validRoots == Elements(rootHistory)
      ensures rootHistory == if root in old(rootHistory) then old(rootHistory)
              else Newest(old(rootHistory) + [root], limit)
    {
      if root in validRoots {
        return;
      }
      validRoots := validRoots + {root};
      rootHistory := rootHistory + [root];
      ghost var all := rootHistory;
      assert Distinct(all);
      assert Newest(rootHistory, limit) == Newest(all, limit);
      hide Elements;
      while |rootHistory| > limit
        invariant Distinct(rootHistory) && Newest(rootHistory, limit) == Newest(all, limit)
        invariant validRoots == Elements(rootHistory)
        decreases |rootHistory|
      {
        var oldest := rootHistory[0];
        PopFront(rootHistory, limit);
        rootHistory := rootHistory[1..];
        validRoots := validRoots - {oldest};
      }
    }

    lemma PopFront(s: seq<Felt>, limit: nat)
      requires |s| > limit && Distinct(s)
      ensures Elements(s[1..]) == Elements(s) - {s[0]}
      ensures Distinct(s[1..]) && Newest(s[1..], limit) == Newest(s, limit)
    {
      assert s == [s[0]] + s[1..];
    }

    method SnapshotRoot()
      requires Valid()
      modifies this
      ensures Settled() && View() == MemSnapshot(w, old(View()))
    {
      var root := tree.GetRoot();
      RecordedKeepsInv(rootHistory, root);
      RecordValidRoot(root, MAX_VALID_ROOTS);
    }

    method CreditDeposit(key: Felt, amount: u64) returns (r: Outcome<LedgerError>)
      modifies this`balances
      ensures var balance := if key in old(balances) then old(balances)[key] else 0;
              if balance + amount >= U64_LIMIT then r == Fail(BalanceOverflow) && balances == old(balances)
              else r == Pass && balances == old(balances)[key := balance + amount]
    {
      var entry := if key in balances then balances[key] else 0;
      if entry + amount >= U64_LIMIT {
        return Fail(BalanceOverflow);
      }
      balances := balances[key := entry + amount];
      r := Pass;
    }

    method DebitDeposit(key: Felt, amount: u64) returns (r: Outcome<LedgerError>)
      modifies this`balances
      ensures if key !in old(balances) then r == Fail(NoPool) && balances == old(balances)
              else if old(balances)[key] < amount then r == Fail(PoolTooSmall) && balances == old(balances)
              else r == Pass && View() == MemDebit(old(View()), key, amount)
    {
      if key !in balances {
        return Fail(NoPool);
      }
      if balances[key] < amount {
        return Fail(PoolTooSmall);
      }
      balances := balances[key := balances[key] - amount];
      if balances[key] == 0 {
        assert balances - {key} == old(balances) - {key};
        balances := balances - {key};
      }
      r := Pass;
    }

    method InsertNullifiers(nfs: seq<Felt>)
      modifies this`nullifiers
      ensures nullifiers == old(nullifiers) + Elements(nfs)
    {
      for i := 0 to |nfs|
        invariant nullifiers == old(nullifiers) + Elements(nfs[..i])
      {
        nullifiers := nullifiers + {nfs[i]};
        assert nfs[..i + 1] == nfs[..i] + [nfs[i]];
      }
      assert nfs[..|nfs|] == nfs;
    }

    /** `deposit`. */
    method Deposit(recipient: Text, amount: u64) returns (r: Outcome<LedgerError>)
      requires Settled()
      modifies this`balances
      ensures Settled() && (View(), r) == MemDeposit(w, old(View()), recipient, amount)
    {
      match w.parseDepositKey(recipient) {
        case None => return Fail(NotADepositKey);
        case Some(key) => r := CreditDeposit(key, amount);
      }
    }

    /** `shield`: all checks, then writes that cannot fail. */
    method Shield(req: ShieldReq) returns (r: Res<ShieldResp>)
      requires Settled()
      modifies this, tree
      ensures Settled()
      ensures match PrepareShield(w.crypto, MemReads(w, old(View())), req)
              case Err(e) => r == Err(e) && View() == old(View())
              case Ok(p) =>
                r == Ok(ShieldResp(p.clientCm, |old(memos)|, p.producerCm, |old(memos)| + 1))
                && p.pubkeyHash in old(balances) && old(balances)[p.pubkeyHash] >= p.debit
                && View() == MemShield(w, old(View()), p)
    {
      hide PrepareShield, TreeRootOf;
      ghost var m := View();
      ReadsAgree();
      PrepareShieldCongruent(w.crypto, Reads(), MemReads(w, View()), req);
      match PrepareShield(w.crypto, Reads(), req) {
        case Err(e) => return Err(e);
        case Ok(p) =>
          MemShieldAccepted(w, View(), req);
          var debited := DebitDeposit(p.pubkeyHash, p.debit);
          applied := applied + {p.clientCm};
          var index := AppendNote(Note(p.clientCm, p.clientEnc));
          var producerIndex := AppendNote(Note(p.producerCm, p.producerEnc));
          assert memos == m.notes + ShieldNotes(p);
          SnapshotRoot();
          return Ok(ShieldResp(p.clientCm, index, p.producerCm, producerIndex));
      }
    }

    /** `transfer`. */
    method Transfer(req: TransferReq) returns (r: Res<TransferResp>)
      requires Settled()
      modifies this, tree
      ensures Settled()
      ensures match CheckTransfer(w.crypto, MemReads(w, old(View())), req)
              case Fail(e) => r == Err(e) && View() == old(View())
              case Pass =>
                r == Ok(TransferResp(|old(memos)|, |old(memos)| + 1, |old(memos)| + 2))
                && View() == MemTransfer(w, old(View()), req)
    {
      hide CheckTransfer, TreeRootOf;
      ghost var m := View();
      ReadsAgree();
      CheckTransferCongruent(w.crypto, Reads(), MemReads(w, View()), req);
      match CheckTransfer(w.crypto, Reads(), req) {
        case Fail(e) => return Err(e);
        case Pass =>
          MemTransferAccepted(w, View(), req);
          var index1 := AppendNote(Note(req.cm1, req.enc1));
          var index2 := AppendNote(Note(req.cm2, req.enc2));
          var index3 := AppendNote(Note(req.cm3, req.enc3));
          assert memos == m.notes + TransferNotes(req);
          InsertNullifiers(req.nullifiers);
          SnapshotRoot();
          return Ok(TransferResp(index1, index2, index3));
      }
    }

    /** `unshield`. */
    method Unshield(req: UnshieldReq) returns (r: Res<UnshieldResp>)
      requires Settled()
      modifies this, tree
      ensures Settled()
      ensures match PrepareUnshield(w.crypto, MemReads(w, old(View())), req)
              case Err(e) => r == Err(e) && View() == old(View())
              case Ok(p) =>
                r == Ok(UnshieldResponse(|old(memos)|, p)) && View() == MemUnshield(w, old(View()), p)
    {
      hide PrepareUnshield, TreeRootOf;
      ghost var m := View();
      ReadsAgree();
      PrepareUnshieldCongruent(w.crypto, Reads(), MemReads(w, View()), req);
      match PrepareUnshield(w.crypto, Reads(), req) {
        case Err(e) => return Err(e);
        case Ok(p) =>
          MemUnshieldAccepted(w, View(), req);
          withdrawals := withdrawals + [Withdrawal(p.recipient, p.amount)];
          var changeIndex: Option<nat> := None;
          if p.changeNote.Some? {
            var index := AppendNote(p.changeNote.value);
            changeIndex := Some(index);
          }
          InsertNullifiers(p.nullifiers);
          var producerIndex := AppendNote(p.producerNote);
          assert memos == m.notes + UnshieldNotes(p);
          SnapshotRoot();
          return Ok(UnshieldResp(changeIndex, producerIndex));
      }
    }
  }

  // ----- What passing the checks guarantees

  lemma MemShieldAccepted(w: World, m: Mem, req: ShieldReq)
    requires PrepareShield(w.crypto, MemReads(w, m), req).Ok?
    ensures var p := PrepareShield(w.crypto, MemReads(w, m), req).value;
            p.pubkeyHash in m.balances && m.balances[p.pubkeyHash] >= p.debit && |m.notes| + 2 <= Pow2(w.crypto.depth)
  {
    hide CheckOutputs;
    assert NoteCapacity(w.crypto, MemReads(w, m), 2).Pass?;
  }

  lemma MemTransferAccepted(w: World, m: Mem, req: TransferReq)
    requires CheckTransfer(w.crypto, MemReads(w, m), req).Pass?
    ensures |m.notes| + 3 <= Pow2(w.crypto.depth)
  {
    hide CheckOutputs;
    assert NoteCapacity(w.crypto, MemReads(w, m), 3).Pass?;
  }

  lemma MemUnshieldAccepted(w: World, m: Mem, req: UnshieldReq)
    requires PrepareUnshield(w.crypto, MemReads(w, m), req).Ok?
    ensures var p := PrepareUnshield(w.crypto, MemReads(w, m), req).value;
            |m.notes| + |UnshieldNotes(p)| <= Pow2(w.crypto.depth)
  {
    hide CheckOutputs;
    assert NoteCapacity(w.crypto, MemReads(w, m), if req.cmChange == ZERO then 1 else 2).Pass?;
  }
}
