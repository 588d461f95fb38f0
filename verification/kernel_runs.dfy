/** What holds after every run of the kernel from the empty store. */
module KernelRuns {
  import opened Bytes
  import opened KernelInvariant
  import opened KernelLaws
  import opened KernelState
  import opened KernelStore
  import opened KernelUpdates
  import opened Merkle
  import opened Protocol
  import opened Wrappers

  /** The state after a run from the empty store. */
  function Reached(w: World, inputs: seq<Input>): KState
  {
    Run(w, EmptyState(), inputs)
  }

  /** One line of the journal of a run: what an input did, and at which level. */
  datatype Entry = Entry(level: i32, effect: Effect)

  function Journal(w: World, inputs: seq<Input>): (j: seq<Entry>)
    ensures |j| == |inputs|
  {
    if inputs == [] then []
    else
      var before, last := inputs[..|inputs| - 1], inputs[|inputs| - 1];
      Journal(w, before) + [Entry(last.level, EffectOf(w, Reached(w, before), last))]
  }

  // ----- One step

  /** The reply behind a step: inputs that do not concern the kernel change nothing. */
  function ReplyBehind(w: World, s: KState, input: Input): Reply
  {
    var parsed := w.parse(input.payload);
    if parsed.Deposit? || parsed.Kernel? then ReplyTo(w, s, input, parsed)
    else Rejected(Opened(w, s), MalformedInput)
  }

  lemma StepByReply(w: World, s: KState, input: Input)
    ensures var r := ReplyBehind(w, s, input);
            && r.effect == EffectOf(w, s, input)
            && Opened(w, Step(w, s, input)) == r.ledger
            && Step(w, s, input).outbox == Emit(s.outbox, r.effect)
            && Step(w, s, input).inputs == Some(LogInput(s.inputs, input))
            && Follows(w, Opened(w, s), input.level, r)
  {
    hide ApplyKernel, Follows, ApplyDeposit, InitialLedger, LogInput;
    var l := Opened(w, s);
    assert Follows(w, l, input.level, Rejected(l, MalformedInput)) by {
      NothingFollows(w, l, input.level);
    }
    match w.parse(input.payload) {
      case Malformed =>
      case Ignore =>
      case Deposit(ticketer, recipient, amount) => DepositFollows(w, l, input.level, ticketer, recipient, amount);
      case Kernel(message) => KernelFollows(w, l, input, message);
    }
  }

  lemma NothingFollows(w: World, l: Ledger, level: i32)
    ensures Follows(w, l, level, Rejected(l, MalformedInput))
  {
  }

  // ----- Every reachable state is sound

  ghost predicate Sound(w: World, s: KState)
  {
    s.ledger.Some? ==> s.inputs.Some? && LedgerInv(w, s.ledger.value)
  }

  lemma OpenedIsSound(w: World, s: KState)
    requires Sound(w, s)
    ensures LedgerInv(w, Opened(w, s))
  {
    hide LedgerInv;
    InitialLedgerIsSound(w);
  }

  lemma StepKeepsSound(w: World, s: KState, input: Input)
    requires Sound(w, s)
    ensures Sound(w, Step(w, s, input))
  {
    hide ApplyKernel, ApplyDeposit, LedgerInv, InitialLedger;
    OpenedIsSound(w, s);
    match w.parse(input.payload) {
      case Malformed =>
      case Ignore =>
      case Deposit(ticketer, recipient, amount) => ApplyDepositKeepsInv(w, Opened(w, s), ticketer, recipient, amount);
      case Kernel(message) => ApplyKernelKeepsInv(w, Opened(w, s), input, message);
    }
  }

  /** The ledger invariant holds after every run, whatever the inbox holds. */
  lemma {:induction false} EveryRunIsSound(w: World, inputs: seq<Input>)
    ensures Sound(w, Reached(w, inputs))
    ensures LedgerInv(w, Opened(w, Reached(w, inputs)))
  {
    hide LedgerInv, Step;
    if inputs == [] {
    } else {
      var before := inputs[..|inputs| - 1];
      EveryRunIsSound(w, before);
      StepKeepsSound(w, Reached(w, before), inputs[|inputs| - 1]);
    }
    OpenedIsSound(w, Reached(w, inputs));
  }

  // ----- Nullifiers

  function AllNullifiers(j: seq<Entry>): seq<Felt>
  {
    if j == [] then [] else AllNullifiers(j[..|j| - 1]) + NullifiersOf(j[|j| - 1].effect)
  }

  /** Over any run, transfers and unshields together never accept a nullifier
      twice, and the stored index lists exactly the accepted ones, in order. */
  lemma {:induction false} NoNullifierIsAcceptedTwice(w: World, inputs: seq<Input>)
    ensures Opened(w, Reached(w, inputs)).nullifiers == AllNullifiers(Journal(w, inputs))
    ensures Distinct(AllNullifiers(Journal(w, inputs)))
  {
    hide Step, EffectOf, ReplyBehind;
    EveryRunIsSound(w, inputs);
    if inputs == [] {
    } else {
      var before, last := inputs[..|inputs| - 1], inputs[|inputs| - 1];
      NoNullifierIsAcceptedTwice(w, before);
      StepByReply(w, Reached(w, before), last);
      assert Journal(w, inputs)[..|inputs| - 1] == Journal(w, before);
    }
  }

  // ----- Withdrawals and the outbox

  function AllRecords(j: seq<Entry>): seq<Withdrawal>
  {
    if j == [] then [] else AllRecords(j[..|j| - 1]) + RecordsOf(j[|j| - 1].effect)
  }

  /** The outbox is the queue, encoded record by record for one ticketer. */
  ghost predicate OutboxEncodesQueue(w: World, outbox: seq<Bytes>, l: Ledger)
  {
    && |outbox| == |l.withdrawals|
    && (outbox != [] ==> l.ticketer.Some?)
    && forall i :: 0 <= i < |outbox| ==> w.outboxMessage(l.ticketer.value, l.withdrawals[i]) == Some(outbox[i])
  }

  lemma {:induction false} OutboxIsTheQueue(w: World, inputs: seq<Input>)
    ensures var s := Reached(w, inputs);
            OutboxEncodesQueue(w, s.outbox, Opened(w, s))
            && Opened(w, s).withdrawals == AllRecords(Journal(w, inputs))
  {
    hide Step, EffectOf, ReplyBehind;
    if inputs == [] {
    } else {
      var before, last := inputs[..|inputs| - 1], inputs[|inputs| - 1];
      OutboxIsTheQueue(w, before);
      StepByReply(w, Reached(w, before), last);
      assert Journal(w, inputs)[..|inputs| - 1] == Journal(w, before);
    }
  }

  // ----- Deposits

  function BalanceOf(balance: Option<u64>): nat
  {
    if balance.Some? then balance.value else 0
  }

  ghost function Pick(pools: map<Felt, Option<u64>>): (key: Felt)
    requires pools != map[]
    ensures key in pools
  {
    var key :| key in pools;
    key
  }

  /** The sum of all live pool balances; a drained pool counts nothing. */
  ghost function PoolTotal(pools: map<Felt, Option<u64>>): nat
    decreases |pools|
  {
    if pools == map[] then 0
    else
      var key := Pick(pools);
      assert |pools - {key}| < |pools| by {
        assert (pools - {key}).Keys == pools.Keys - {key};
      }
      BalanceOf(pools[key]) + PoolTotal(pools - {key})
  }

  lemma {:induction false} PoolTotalSplits(pools: map<Felt, Option<u64>>, key: Felt)
    requires key in pools
    ensures PoolTotal(pools) == BalanceOf(pools[key]) + PoolTotal(pools - {key})
    decreases |pools|
  {
    var first := Pick(pools);
    if first == key {
    } else {
      var less, both := pools - {first}, pools - {first} - {key};
      assert less.Keys == pools.Keys - {first};
      PoolTotalSplits(less, key);
      var other := pools - {key};
      assert other.Keys == pools.Keys - {key};
      PoolTotalSplits(other, first);
      assert other - {first} == both;
    }
  }

  /** Setting one pool changes the total by the difference in that pool. */
  lemma PoolTotalAfterUpdate(pools: map<Felt, Option<u64>>, key: Felt, balance: Option<u64>)
    ensures PoolTotal(pools[key := balance]) + BalanceIn(pools, key) == PoolTotal(pools) + BalanceOf(balance)
  {
    var updated := pools[key := balance];
    PoolTotalSplits(updated, key);
    if key in pools {
      PoolTotalSplits(pools, key);
      assert updated - {key} == pools - {key};
    } else {
      assert updated - {key} == pools;
    }
  }

  function Credited(j: seq<Entry>): nat
  {
    if j == [] then 0
    else
      var e := j[|j| - 1].effect;
      Credited(j[..|j| - 1]) + if e.Credit? then e.amount else 0
  }

  function Debited(j: seq<Entry>): nat
  {
    if j == [] then 0
    else
      var e := j[|j| - 1].effect;
      Debited(j[..|j| - 1]) + if e.Draw? then e.debit else 0
  }

  /** The client commitments of the applied shields. */
  function DrawnCms(j: seq<Entry>): seq<Felt>
  {
    if j == [] then []
    else
      var e := j[|j| - 1].effect;
      DrawnCms(j[..|j| - 1]) + if e.Draw? then [e.cm] else []
  }

  /** Conservation: everything ever deposited is either still in a pool or was
      drawn by an applied shield, and no client commitment was applied twice. */
  lemma {:induction false} DepositsAreConserved(w: World, inputs: seq<Input>)
    ensures var l := Opened(w, Reached(w, inputs));
            var j := Journal(w, inputs);
            && Credited(j) == PoolTotal(l.pools) + Debited(j)
            && Distinct(DrawnCms(j))
            && l.applied == Elements(DrawnCms(j))
  {
    hide Step, EffectOf, ReplyBehind;
    if inputs == [] {
    } else {
      var before, last := inputs[..|inputs| - 1], inputs[|inputs| - 1];
      DepositsAreConserved(w, before);
      StepByReply(w, Reached(w, before), last);
      assert Journal(w, inputs)[..|inputs| - 1] == Journal(w, before);
      PoolsFollow(Opened(w, Reached(w, before)).pools, EffectOf(w, Reached(w, before), last));
      OneMoreDraw(DrawnCms(Journal(w, before)), EffectOf(w, Reached(w, before), last));
    }
  }

  lemma PoolsFollow(pools: map<Felt, Option<u64>>, e: Effect)
    requires e.Draw? ==> e.pool in pools && pools[e.pool].Some? && pools[e.pool].value >= e.debit
    requires e.Credit? ==> BalanceIn(pools, e.pool) + e.amount < U64_LIMIT
    ensures PoolTotal(PoolsAfter(pools, e)) + (if e.Draw? then e.debit else 0)
            == PoolTotal(pools) + (if e.Credit? then e.amount else 0)
  {
    hide PoolTotal;
    match e {
      case Credit(pool, amount) => PoolTotalAfterUpdate(pools, pool, Some(BalanceIn(pools, pool) + amount));
      case Draw(pool, _, debit, _, _) =>
        var left := pools[pool].value - debit;
        PoolTotalAfterUpdate(pools, pool, if left == 0 then None else Some(left));
      case _ =>
    }
  }

  lemma OneMoreDraw(cms: seq<Felt>, e: Effect)
    requires Distinct(cms) && (e.Draw? ==> e.cm !in Elements(cms))
    ensures var more := cms + if e.Draw? then [e.cm] else [];
            Distinct(more) && Elements(more) == Elements(cms) + if e.Draw? then {e.cm} else {}
  {
  }

  // ----- Fees

  /** The least that `n` private transactions of one level pay together. */
  function MinTotal(n: nat): nat
  {
    if n == 0 then 0 else MinTotal(n - 1) + RequiredTxFee(n - 1)
  }

  /** The fee schedule in closed form: doubling up to the eighth transaction of a level, linear after it. */
  lemma {:induction false} MinTotalInClosedForm(n: nat)
    ensures 1 <= n <= 8 ==> MinTotal(n) == MIN_TX_FEE * Pow2(n - 1)
    ensures n >= 8 ==> MinTotal(n) == MIN_TX_FEE * (128 + 64 * (n - 8))
  {
    assert Pow2(6) == 64 && Pow2(7) == 128 by {
      assert Pow2(2) == 4 && Pow2(4) == 16;
    }
    if n <= 1 {
    } else {
      MinTotalInClosedForm(n - 1);
    }
  }

  function CountIn(j: seq<Entry>, level: i32): nat
  {
    if j == [] then 0
    else
      var last := j[|j| - 1];
      CountIn(j[..|j| - 1], level) + if last.level == level && IsPrivateTx(last.effect) then 1 else 0
  }

  function FeesIn(j: seq<Entry>, level: i32): nat
  {
    if j == [] then 0
    else
      var last := j[|j| - 1];
      FeesIn(j[..|j| - 1], level) + if last.level == level then FeeOf(last.effect) else 0
  }

  /** An inbox is read level by level. */
  predicate LevelsInOrder(inputs: seq<Input>)
  {
    forall i, k :: 0 <= i < k < |inputs| ==> inputs[i].level <= inputs[k].level
  }

  /** The stored counter counts the accepted transactions of the level it names, the latest with any. */
  ghost predicate CounterCounts(l: Ledger, j: seq<Entry>, now: i32)
  {
    match l.feeMark
    case None => forall level: i32 :: CountIn(j, level) == 0
    case Some(mark) =>
      && mark.level <= now && mark.count == CountIn(j, mark.level)
      && forall level: i32 :: level > mark.level ==> CountIn(j, level) == 0
  }

  /** In every level, the accepted private transactions paid at least the
      schedule's total for their number; and the counter that sets the next fee
      is the number accepted so far in the current level. */
  lemma {:induction false} FeesCoverTheSchedule(w: World, inputs: seq<Input>)
    requires LevelsInOrder(inputs)
    ensures var j := Journal(w, inputs);
            var l := Opened(w, Reached(w, inputs));
            && (forall level: i32 :: FeesIn(j, level) >= MinTotal(CountIn(j, level)))
            && (inputs == [] ==> l.feeMark == None)
            && (inputs != [] ==> CounterCounts(l, j, inputs[|inputs| - 1].level))
            && (forall level: i32 :: (inputs == [] || level >= inputs[|inputs| - 1].level) ==>
                  AcceptedInLevel(l, level) == CountIn(j, level))
  {
    hide Step, EffectOf, ReplyBehind, RequiredTxFee, MinTotal, CountIn, FeesIn;
    if inputs != [] {
      var before, last := inputs[..|inputs| - 1], inputs[|inputs| - 1];
      FeesCoverTheSchedule(w, before);
      var l, e := Opened(w, Reached(w, before)), EffectOf(w, Reached(w, before), last);
      StepByReply(w, Reached(w, before), last);
      var j, j' := Journal(w, before), Journal(w, inputs);
      assert j'[..|inputs| - 1] == j && j'[|inputs| - 1] == Entry(last.level, e);
      assert AcceptedInLevel(l, last.level) == CountIn(j, last.level);
      FeeStep(j, j'[|j|]);
      forall level: i32
        ensures FeesIn(j', level) >= MinTotal(CountIn(j', level))
      {
      }
    } else {
      NothingYet(0);
      forall level: i32
        ensures CountIn(Journal(w, inputs), level) == 0 && FeesIn(Journal(w, inputs), level) == 0
      {
        NoFeesYet(Journal(w, inputs), level);
      }
    }
  }

  lemma NoFeesYet(j: seq<Entry>, level: i32)
    requires j == []
    ensures CountIn(j, level) == 0 && FeesIn(j, level) == 0
  {
  }

  lemma NothingYet(n: nat)
    requires n == 0
    ensures MinTotal(n) == 0
  {
  }

  /** One more entry moves the sums of its own level only. */
  lemma FeeStep(j: seq<Entry>, e: Entry)
    ensures forall level: i32 ::
              CountIn(j + [e], level)
                == CountIn(j, level) + (if e.level == level && IsPrivateTx(e.effect) then 1 else 0)
              && FeesIn(j + [e], level) == FeesIn(j, level) + (if e.level == level then FeeOf(e.effect) else 0)
              && MinTotal(CountIn(j, level) + 1) == MinTotal(CountIn(j, level)) + RequiredTxFee(CountIn(j, level))
  {
    forall level: i32
      ensures CountIn(j + [e], level)
              == CountIn(j, level) + (if e.level == level && IsPrivateTx(e.effect) then 1 else 0)
      ensures FeesIn(j + [e], level) == FeesIn(j, level) + (if e.level == level then FeeOf(e.effect) else 0)
      ensures MinTotal(CountIn(j, level) + 1) == MinTotal(CountIn(j, level)) + RequiredTxFee(CountIn(j, level))
    {
      FeeStepAt(j, e, level);
    }
  }

  lemma FeeStepAt(j: seq<Entry>, e: Entry, level: i32)
    ensures CountIn(j + [e], level)
            == CountIn(j, level) + (if e.level == level && IsPrivateTx(e.effect) then 1 else 0)
    ensures FeesIn(j + [e], level) == FeesIn(j, level) + (if e.level == level then FeeOf(e.effect) else 0)
    ensures MinTotal(CountIn(j, level) + 1) == MinTotal(CountIn(j, level)) + RequiredTxFee(CountIn(j, level))
  {
    hide RequiredTxFee;
    assert (j + [e])[..|j|] == j;
  }
}
