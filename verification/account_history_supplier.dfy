/** The account-history supplier: reads an account's history newest-first in
    batches through the node's `getAccountHistory`, gives each batch's
    transactions downstream, and stops fetching once downstream answers
    `false`. The node, the downstream consumer and the chain's "are there
    consumers" test are parameters; what the supplier does is recorded as a
    trace of events (fetches, gives, the finish signal). */
module AccountHistory {
  import opened Wrappers
  import opened Blockchain
  import opened TransactionBatches

  /** The node's answer to `getAccountHistory(username, from, limit)`. */
  datatype FetchResult = Failed(error: ChainError) | Batch(ops: seq<RawOperation>)

  /** What is given downstream: `give(error, undefined)` or `give(undefined, trx)`. */
  datatype Item = ErrorItem(error: ChainError) | TrxItem(trx: Transaction)

  /** The finish callback: the initial no-op, or one the caller installed. */
  datatype Callback = NoOp | Listener(id: nat)

  /** One observable action of the supplier. */
  datatype Event =
    | Fetched(from: int, limit: int)   // a call of getAccountHistory
    | Gave(item: Item)                 // a call of give
    | Finished(callback: Callback)     // a call of onFinishCallback

  // ---------------------------------------------------------------- the node

  predicate Ascending(ops: seq<RawOperation>)
  {
    forall i, j :: 0 <= i < j < |ops| ==> ops[i].index < ops[j].index
  }

  predicate IndicesAtMost(ops: seq<RawOperation>, from: int)
  {
    forall i :: 0 <= i < |ops| ==> ops[i].index <= from
  }

  /** A node that answers as the supplier expects: each batch oldest-first by
      history index, and a request from a non-negative `from` answered with
      entries at or below `from`. */
  ghost predicate WellBehaved(node: (int, int) -> FetchResult)
  {
    forall from: int, limit: int :: node(from, limit).Batch? ==>
      && Ascending(node(from, limit).ops)
      && (from >= 0 ==> IndicesAtMost(node(from, limit).ops, from))
  }

  // ---------------------------------------------------------------- one batch

  /** The limit of a fetch from `from`: the batch size for the first fetch
      (`from == -1`), otherwise the smaller of the batch size and `from`. */
  function BatchLimit(batchSize: int, from: int): (limit: int)
    ensures limit <= batchSize
    ensures from == -1 ==> limit == batchSize
    ensures from != -1 ==> limit <= from && (limit == batchSize || limit == from)
  {
    if from == -1 then batchSize else if batchSize <= from then batchSize else from
  }

  /** The forEach of processBatch as a value: transactions are given in
      order while the answers are `true`. Returns the final `loadNext` and
      the items given. `given` is what the consumer received before. */
  function Deliver(trxs: seq<Transaction>, consumer: (seq<Item>, Item) -> bool, given: seq<Item>)
    : (r: (bool, seq<Item>))
    ensures |r.1| <= |trxs|
    ensures r.0 ==> |r.1| == |trxs|
    ensures !r.0 ==> |r.1| > 0
  {
    if trxs == [] then (true, [])
    else
      var item := TrxItem(trxs[0]);
      if !consumer(given, item) then (false, [item])
      else
        var rest := Deliver(trxs[1..], consumer, given + [item]);
        (rest.0, [item] + rest.1)
  }

  /** Deliver gives a prefix of the transactions, in order; every one but
      the last was accepted; it answers `true` exactly when every
      transaction was given and accepted, and otherwise the last one given
      is the one refused. */
  lemma DeliverGivesAcceptedPrefix(trxs: seq<Transaction>, consumer: (seq<Item>, Item) -> bool, given: seq<Item>)
    ensures var r := Deliver(trxs, consumer, given);
      && |r.1| <= |trxs|
      && (forall i :: 0 <= i < |r.1| ==> r.1[i] == TrxItem(trxs[i]))
      && (forall i :: 0 <= i < |r.1| - 1 ==> consumer(given + r.1[..i], r.1[i]))
      && (r.0 <==> |r.1| == |trxs| && forall i :: 0 <= i < |r.1| ==> consumer(given + r.1[..i], r.1[i]))
      && (!r.0 ==> |r.1| > 0 && !consumer(given + r.1[..|r.1| - 1], r.1[|r.1| - 1]))
  {
    DeliverGivesPrefix(trxs, consumer, given);
    DeliverAnswers(trxs, consumer, given);
  }

  lemma {:induction false} DeliverGivesPrefix(trxs: seq<Transaction>, consumer: (seq<Item>, Item) -> bool, given: seq<Item>)
    ensures var r := Deliver(trxs, consumer, given);
      && |r.1| <= |trxs|
      && (forall i :: 0 <= i < |r.1| ==> r.1[i] == TrxItem(trxs[i]))
      && (r.0 ==> |r.1| == |trxs|)
      && (!r.0 ==> |r.1| > 0)
  {
    if trxs != [] && consumer(given, TrxItem(trxs[0])) {
      DeliverGivesPrefix(trxs[1..], consumer, given + [TrxItem(trxs[0])]);
    }
  }

  /** The answer Deliver gets to its i-th gift is the consumer's answer given
      everything before it; all are `true` but, when Deliver answers `false`,
      the last. */
  lemma {:induction false} DeliverAnswers(trxs: seq<Transaction>, consumer: (seq<Item>, Item) -> bool, given: seq<Item>)
    ensures var r := Deliver(trxs, consumer, given);
      && (forall i :: 0 <= i < |r.1| ==> (consumer(given + r.1[..i], r.1[i]) <==> i < |r.1| - 1 || r.0))
  {
    if trxs != [] {
      var item := TrxItem(trxs[0]);
      if !consumer(given, item) {
        assert given + [item][..0] == given;
      } else {
        DeliverAnswers(trxs[1..], consumer, given + [item]);
        DeliverGivesPrefix(trxs[1..], consumer, given + [item]);
        var rest := Deliver(trxs[1..], consumer, given + [item]);
        var gave := [item] + rest.1;
        forall i | 0 <= i < |gave|
          ensures consumer(given + gave[..i], gave[i]) <==> i < |gave| - 1 || rest.0
        {
          if i == 0 {
            assert given + gave[..0] == given;
          } else {
            assert gave[..i] == [item] + rest.1[..i - 1];
            assert given + gave[..i] == (given + [item]) + rest.1[..i - 1];
            assert gave[i] == rest.1[i - 1];
          }
        }
      }
    }
  }

  /** Where the walk goes after a batch, AS WRITTEN: another fetch from
      (oldest index in the batch) - 1 when every give answered `true` and the
      batch was full, else the finish signal (None). `reversed` is the batch
      after `result.reverse()`, newest first. */
  function NextFromAsWritten(batchSize: int, loadNext: bool, reversed: seq<RawOperation>): (next: Option<int>)
    requires reversed != []
    ensures next.Some? <==> loadNext && |reversed| >= batchSize
    ensures next.Some? ==> next.value == reversed[|reversed| - 1].index - 1 >= -1
  {
    if loadNext && |reversed| >= batchSize then Some(reversed[|reversed| - 1].index - 1) else None
  }

  /** As written, a full batch that reaches the account's first operation
      (index 0) yields the cursor -1, which the next fetch reads as "the most
      recent batch": the walk starts over from the newest operation with a
      fetch identical to the first one. */
  lemma NextFromAsWrittenRestarts(s: Setup, given: seq<Item>, reversed: seq<RawOperation>)
    requires reversed != [] && |reversed| >= s.batchSize && reversed[|reversed| - 1].index == 0
    requires s.shouldLoad(given) && s.shouldLoad([])
    ensures NextFromAsWritten(s.batchSize, true, reversed) == Some(-1)
    ensures StepFrom(s, -1, given).events[0] == Fetched(-1, s.batchSize)
    ensures StepFrom(s, -1, given).events[0] == StepFrom(s, -1, []).events[0]
  {
  }

  /** Where the walk goes after a batch, corrected: as written, except that
      once the batch reaches index 0 the history is exhausted and the walk
      finishes. */
  function NextFrom(batchSize: int, loadNext: bool, reversed: seq<RawOperation>): (next: Option<int>)
    requires reversed != []
    ensures next.Some? <==> loadNext && |reversed| >= batchSize && reversed[|reversed| - 1].index > 0
    ensures next.Some? ==> next == NextFromAsWritten(batchSize, loadNext, reversed)
    ensures next.Some? ==> 0 <= next.value < reversed[|reversed| - 1].index
  {
    match NextFromAsWritten(batchSize, loadNext, reversed)
    case Some(from) => if from < 0 then None else Some(from)
    case None => None
  }

  function Gifts(items: seq<Item>): (events: seq<Event>)
    ensures |events| == |items| && forall i :: 0 <= i < |items| ==> events[i] == Gave(items[i])
  {
    seq(|items|, i requires 0 <= i < |items| => Gave(items[i]))
  }

  // ---------------------------------------------------------------- the walk

  /** What one walk runs with: the supplier's batch size and finish callback,
      the node, the downstream consumer (answering with the items it was given
      before) and the chain's `shouldLoadNewItems` test. */
  datatype Setup = Setup(
    batchSize: int,
    callback: Callback,
    node: (int, int) -> FetchResult,
    consumer: (seq<Item>, Item) -> bool,
    shouldLoad: seq<Item> -> bool)

  /** One `loadFromOnlyIfConsumers(from)`: the events it causes, the items it
      gave, whether it fired the finish signal, and the cursor of the next
      fetch when there is one. */
  datatype Step = Step(events: seq<Event>, gave: seq<Item>, finishes: bool, next: Option<int>)

  /** One step of the walk: check for consumers; fetch; hand on an error and
      stop; finish on an empty batch; or reverse the batch, give its
      transactions, and either finish or continue from the next cursor. */
  ghost function StepFrom(s: Setup, from: int, given: seq<Item>): (st: Step)
    ensures !s.shouldLoad(given) ==> st == Step([], [], false, None)
    ensures s.shouldLoad(given) ==>
      st.events == [Fetched(from, BatchLimit(s.batchSize, from))] + Gifts(st.gave)
                   + (if st.finishes then [Finished(s.callback)] else [])
    ensures st.finishes ==> st.next.None?
    ensures forall i :: 0 <= i < |st.gave| && st.gave[i].ErrorItem? ==>
      |st.gave| == 1 && st.next.None? && !st.finishes
    ensures forall i :: 0 <= i < |st.gave| && st.gave[i].TrxItem? && !s.consumer(given + st.gave[..i], st.gave[i]) ==>
      i == |st.gave| - 1 && st.finishes
    ensures var answer := s.node(from, BatchLimit(s.batchSize, from));
      s.shouldLoad(given) && answer.Failed? ==> st.gave == [ErrorItem(answer.error)] && st.next.None?
    ensures var answer := s.node(from, BatchLimit(s.batchSize, from));
      s.shouldLoad(given) && answer.Batch? ==>
        var trxs := Transactions(Reverse(answer.ops));
        |st.gave| <= |trxs| && forall i :: 0 <= i < |st.gave| ==> st.gave[i] == TrxItem(trxs[i])
    ensures var answer := s.node(from, BatchLimit(s.batchSize, from));
      st.next.Some? <==>
        && s.shouldLoad(given) && answer.Batch? && 0 < |answer.ops| && |answer.ops| >= s.batchSize
        && answer.ops[0].index > 0
        && |st.gave| == |Transactions(Reverse(answer.ops))|
        && forall i :: 0 <= i < |st.gave| ==> s.consumer(given + st.gave[..i], st.gave[i])
    ensures st.next.Some? ==> st.next.value == s.node(from, BatchLimit(s.batchSize, from)).ops[0].index - 1
    ensures s.shouldLoad(given) && s.node(from, BatchLimit(s.batchSize, from)).Batch? ==> (st.finishes <==> st.next.None?)
    ensures var answer := s.node(from, BatchLimit(s.batchSize, from));
      s.shouldLoad(given) && answer.Batch? ==> st.gave == Deliver(Transactions(Reverse(answer.ops)), s.consumer, given).1
  {
    if !s.shouldLoad(given) then Step([], [], false, None)
    else
      var limit := BatchLimit(s.batchSize, from);
      match s.node(from, limit)
      case Failed(e) => Step([Fetched(from, limit), Gave(ErrorItem(e))], [ErrorItem(e)], false, None)
      case Batch(result) =>
        if |result| == 0 then Step([Fetched(from, limit), Finished(s.callback)], [], true, None)
        else
          var reversed := Reverse(result);
          var delivered := Deliver(Transactions(reversed), s.consumer, given);
          DeliverGivesAcceptedPrefix(Transactions(reversed), s.consumer, given);
          var next := NextFrom(s.batchSize, delivered.0, reversed);
          assert reversed[|reversed| - 1] == result[0];
          Step([Fetched(from, limit)] + Gifts(delivered.1) + (if next.None? then [Finished(s.callback)] else []),
               delivered.1, next.None?, next)
  }

  /** Every entry of a node answer lies strictly above cursor c. */
  ghost predicate BelowBatch(c: int, answer: FetchResult)
  {
    answer.Batch? ==> forall i :: 0 <= i < |answer.ops| ==> c < answer.ops[i].index
  }

  /** The facts about one step that the walk's properties rest on: the fetch
      comes first, then the items given, then the finish signal if any; an
      error or a refusal ends the walk; the next cursor is non-negative, below
      the previous one and below every entry of the batch just fetched. */
  ghost predicate StepOk(s: Setup, from: int, given: seq<Item>, st: Step)
  {
    && (!s.shouldLoad(given) ==> st.events == [] && st.next.None?)
    && (s.shouldLoad(given) ==> |st.events| == 1 + |st.gave| + (if st.finishes then 1 else 0))
    && (forall k :: 0 <= k < |st.events| ==>
          && (st.events[k].Fetched? ==> k == 0 && st.events[k] == Fetched(from, BatchLimit(s.batchSize, from)))
          && (st.events[k].Gave? ==> 1 <= k <= |st.gave| && st.events[k].item == st.gave[k - 1])
          && (st.events[k].Finished? ==> k == |st.events| - 1 && st.finishes && st.events[k].callback == s.callback))
    && (st.finishes ==> st.next.None?)
    && (forall i :: 0 <= i < |st.gave| && st.gave[i].ErrorItem? ==> |st.gave| == 1 && st.next.None? && !st.finishes)
    && (forall i :: 0 <= i < |st.gave| && st.gave[i].TrxItem? && !s.consumer(given + st.gave[..i], st.gave[i]) ==>
          i == |st.gave| - 1 && st.finishes)
    && (st.next.Some? ==>
          && 0 <= st.next.value
          && (from >= 0 ==> st.next.value < from)
          && BelowBatch(st.next.value, s.node(from, BatchLimit(s.batchSize, from))))
  }

  /** A step function every one of whose steps is StepOk. */
  ghost predicate StepLaws(s: Setup, step: (int, seq<Item>) -> Step)
  {
    forall from, given :: StepOk(s, from, given, step(from, given))
  }

  ghost function Stepper(s: Setup): (int, seq<Item>) -> Step
  {
    (from, given) => StepFrom(s, from, given)
  }

  /** With a well-behaved node, every step of the supplier is StepOk. */
  lemma StepperKeepsLaws(s: Setup)
    requires WellBehaved(s.node)
    ensures StepLaws(s, Stepper(s))
  {
    forall from, given ensures StepOk(s, from, given, StepFrom(s, from, given)) {
      StepFromOk(s, from, given);
    }
  }

  lemma StepFromOk(s: Setup, from: int, given: seq<Item>)
    requires WellBehaved(s.node)
    ensures StepOk(s, from, given, StepFrom(s, from, given))
  {
    var st := StepFrom(s, from, given);
    if s.shouldLoad(given) {
      var f := Fetched(from, BatchLimit(s.batchSize, from));
      var g := Gifts(st.gave);
      forall k | 0 <= k < |st.events|
        ensures st.events[k].Fetched? ==> k == 0 && st.events[k] == f
        ensures st.events[k].Gave? ==> 1 <= k <= |st.gave| && st.events[k].item == st.gave[k - 1]
        ensures st.events[k].Finished? ==> k == |st.events| - 1 && st.finishes && st.events[k].callback == s.callback
      {
        if k == 0 {
          assert st.events[k] == f;
        } else if k <= |st.gave| {
          assert st.events[k] == g[k - 1];
        } else {
          assert st.finishes && st.events[k] == Finished(s.callback);
        }
      }
      if st.next.Some? {
        var answer := s.node(from, BatchLimit(s.batchSize, from));
        assert Ascending(answer.ops);
        assert from >= 0 ==> answer.ops[0].index <= from;
      }
    }
  }

  /** The walk driven by a step function that keeps the step laws. */
  ghost function WalkOf(s: Setup, step: (int, seq<Item>) -> Step, from: int, given: seq<Item>): seq<Event>
    requires StepLaws(s, step)
    decreases if from < 0 then 1 else 0, if from < 0 then 0 else from
  {
    var st := step(from, given);
    assert StepOk(s, from, given, st);
    match st.next
    case None => st.events
    case Some(next) => st.events + WalkOf(s, step, next, given + st.gave)
  }

  /** The whole walk from cursor `from`, as the events it causes. `given` is
      what the consumer received earlier in the walk. */
  ghost function Walk(s: Setup, from: int, given: seq<Item>): (w: seq<Event>)
    requires WellBehaved(s.node)
    ensures w == [] <==> !s.shouldLoad(given)
    ensures s.shouldLoad(given) ==> w[0] == Fetched(from, BatchLimit(s.batchSize, from))
  {
    StepperKeepsLaws(s);
    StepFromOk(s, from, given);
    WalkStartsWithStep(s, Stepper(s), from, given);
    WalkOf(s, Stepper(s), from, given)
  }

  /** A walk opens with the events of its first step. */
  lemma WalkStartsWithStep(s: Setup, step: (int, seq<Item>) -> Step, from: int, given: seq<Item>)
    requires StepLaws(s, step)
    ensures var w := WalkOf(s, step, from, given);
      |step(from, given).events| <= |w| && w[..|step(from, given).events|] == step(from, given).events
      && (step(from, given).events == [] ==> w == [])
  {
    var st := step(from, given);
    assert StepOk(s, from, given, st);
    var tail := if st.next.Some? then WalkOf(s, step, st.next.value, given + st.gave) else [];
    assert WalkOf(s, step, from, given) == st.events + tail;
  }

  /** The items a sequence of events gave downstream, in order. */
  function ItemsOf(events: seq<Event>): seq<Item>
  {
    if events == [] then []
    else ItemsOf(events[..|events| - 1]) + (if events[|events| - 1].Gave? then [events[|events| - 1].item] else [])
  }

  lemma {:induction false} ItemsOfConcat(a: seq<Event>, b: seq<Event>)
    ensures ItemsOf(a + b) == ItemsOf(a) + ItemsOf(b)
  {
    if b == [] {
      assert a + b == a;
    } else {
      assert (a + b)[..|a + b| - 1] == a + b[..|b| - 1];
      ItemsOfConcat(a, b[..|b| - 1]);
    }
  }

  lemma ConcatAssociative<T>(a: seq<T>, b: seq<T>, c: seq<T>)
    ensures a + (b + c) == (a + b) + c
  {
  }

  /** The items given by the first k events of a step are its first k - 1 gifts. */
  lemma {:induction false} StepItems(s: Setup, from: int, given: seq<Item>, st: Step, k: nat)
    requires StepOk(s, from, given, st) && s.shouldLoad(given)
    requires 1 <= k <= |st.gave| + 1
    ensures ItemsOf(st.events[..k]) == st.gave[..k - 1]
  {
    var e := st.events[k - 1];
    assert st.events[..k][..k - 1] == st.events[..k - 1];
    if k == 1 {
      assert st.events[..0] == [];
      assert e.Fetched?;
    } else {
      StepItems(s, from, given, st, k - 1);
      assert e.Gave? && e.item == st.gave[k - 2];
      assert st.gave[..k - 1] == st.gave[..k - 2] + [st.gave[k - 2]];
    }
  }

  /** A transaction the consumer refuses within a step is the step's last
      gift, and only the finish signal follows it. */
  lemma RefusalInStep(s: Setup, from: int, given: seq<Item>, st: Step, k: nat)
    requires StepOk(s, from, given, st) && k < |st.events|
    requires st.events[k].Gave? && st.events[k].item.TrxItem?
    requires !s.consumer(given + ItemsOf(st.events[..k]), st.events[k].item)
    ensures st.next.None? && k == |st.events| - 2 && st.events[k + 1] == Finished(s.callback)
  {
    assert s.shouldLoad(given) && 1 <= k <= |st.gave|;
    StepItems(s, from, given, st, k);
    assert !s.consumer(given + st.gave[..k - 1], st.gave[k - 1]);
    assert st.finishes && k == |st.gave|;
    var e := st.events[k + 1];
    assert e.Finished?;
  }

  /** The items given by a step followed by some events: the step's gifts,
      then those of the events. */
  lemma ItemsAfterStep(s: Setup, from: int, given: seq<Item>, st: Step, rest: seq<Event>)
    requires StepOk(s, from, given, st) && st.next.Some?
    ensures ItemsOf(st.events + rest) == st.gave + ItemsOf(rest)
  {
    ItemsOfConcat(st.events, rest);
    assert s.shouldLoad(given) && !st.finishes;
    StepItems(s, from, given, st, |st.gave| + 1);
    assert st.events[..|st.gave| + 1] == st.events;
  }

  // ---------------------------------------------------------------- properties of any lawful walk

  // Each property below is proved for any step function that keeps the step
  // laws, by induction along the walk; StepperKeepsLaws makes the supplier's
  // own walk one of them.

  /** An event of a walk's first step is that step's event at the same index. */
  lemma WalkInFirstStep(s: Setup, step: (int, seq<Item>) -> Step, from: int, given: seq<Item>, k: nat)
    requires StepLaws(s, step)
    requires k < |step(from, given).events|
    ensures var w := WalkOf(s, step, from, given);
      k < |w| && w[k] == step(from, given).events[k]
  {
    var st := step(from, given);
    assert StepOk(s, from, given, st);
    var tail := if st.next.Some? then WalkOf(s, step, st.next.value, given + st.gave) else [];
    assert WalkOf(s, step, from, given) == st.events + tail;
  }

  lemma FetchLimitsOf(s: Setup, step: (int, seq<Item>) -> Step, from: int, given: seq<Item>)
    requires StepLaws(s, step)
    ensures var w := WalkOf(s, step, from, given);
      forall k :: 0 <= k < |w| && w[k].Fetched? ==> w[k].limit == BatchLimit(s.batchSize, w[k].from) <= s.batchSize
  {
    var w := WalkOf(s, step, from, given);
    forall k | 0 <= k < |w| && w[k].Fetched?
      ensures w[k].limit == BatchLimit(s.batchSize, w[k].from) <= s.batchSize
    {
      FetchLimitAt(s, step, from, given, k);
    }
  }

  lemma {:induction false} FetchLimitAt(s: Setup, step: (int, seq<Item>) -> Step, from: int, given: seq<Item>, k: nat)
    requires StepLaws(s, step)
    requires var w := WalkOf(s, step, from, given);
      k < |w| && w[k].Fetched?
    ensures var w := WalkOf(s, step, from, given);
      w[k].limit == BatchLimit(s.batchSize, w[k].from) <= s.batchSize
    decreases if from < 0 then 1 else 0, if from < 0 then 0 else from
  {
    var st := step(from, given);
    if k < |st.events| {
      WalkInFirstStep(s, step, from, given, k);
      assert StepOk(s, from, given, st);
      assert st.events[k] == Fetched(from, BatchLimit(s.batchSize, from));
    } else {
      var next := WalkPastFirstStep(s, step, from, given, k);
      FetchLimitAt(s, step, next, given + st.gave, k - |st.events|);
    }
  }

  lemma FinishIsLastOf(s: Setup, step: (int, seq<Item>) -> Step, from: int, given: seq<Item>)
    requires StepLaws(s, step)
    ensures var w := WalkOf(s, step, from, given);
      forall k :: 0 <= k < |w| && w[k].Finished? ==> k == |w| - 1 && w[k].callback == s.callback
  {
    var w := WalkOf(s, step, from, given);
    forall k | 0 <= k < |w| && w[k].Finished?
      ensures k == |w| - 1 && w[k].callback == s.callback
    {
      FinishAt(s, step, from, given, k);
    }
  }

  lemma {:induction false} FinishAt(s: Setup, step: (int, seq<Item>) -> Step, from: int, given: seq<Item>, k: nat)
    requires StepLaws(s, step)
    requires var w := WalkOf(s, step, from, given);
      k < |w| && w[k].Finished?
    ensures var w := WalkOf(s, step, from, given);
      k == |w| - 1 && w[k].callback == s.callback
    decreases if from < 0 then 1 else 0, if from < 0 then 0 else from
  {
    var st := step(from, given);
    if k < |st.events| {
      WalkInFirstStep(s, step, from, given, k);
      assert StepOk(s, from, given, st);
      assert st.events[k].Finished?;
      assert st.next.None? && WalkOf(s, step, from, given) == st.events;
    } else {
      var next := WalkPastFirstStep(s, step, from, given, k);
      FinishAt(s, step, next, given + st.gave, k - |st.events|);
    }
  }

  lemma ErrorEndsWalkOf(s: Setup, step: (int, seq<Item>) -> Step, from: int, given: seq<Item>)
    requires StepLaws(s, step)
    ensures var w := WalkOf(s, step, from, given);
      forall k :: 0 <= k < |w| && w[k].Gave? && w[k].item.ErrorItem? ==> k == |w| - 1
  {
    var w := WalkOf(s, step, from, given);
    forall k | 0 <= k < |w| && w[k].Gave? && w[k].item.ErrorItem?
      ensures k == |w| - 1
    {
      ErrorAt(s, step, from, given, k);
    }
  }

  lemma {:induction false} ErrorAt(s: Setup, step: (int, seq<Item>) -> Step, from: int, given: seq<Item>, k: nat)
    requires StepLaws(s, step)
    requires var w := WalkOf(s, step, from, given);
      k < |w| && w[k].Gave? && w[k].item.ErrorItem?
    ensures k == |WalkOf(s, step, from, given)| - 1
    decreases if from < 0 then 1 else 0, if from < 0 then 0 else from
  {
    var st := step(from, given);
    if k < |st.events| {
      WalkInFirstStep(s, step, from, given, k);
      assert StepOk(s, from, given, st);
      assert st.events[k].Gave? && s.shouldLoad(given);
      assert st.gave[k - 1].ErrorItem?;
      assert |st.gave| == 1 && st.next.None? && !st.finishes;
      assert WalkOf(s, step, from, given) == st.events;
    } else {
      var next := WalkPastFirstStep(s, step, from, given, k);
      ErrorAt(s, step, next, given + st.gave, k - |st.events|);
    }
  }

  lemma {:induction false} RefusalStopsWalkOf(s: Setup, step: (int, seq<Item>) -> Step, from: int, given: seq<Item>)
    requires StepLaws(s, step)
    ensures var w := WalkOf(s, step, from, given);
      forall k :: 0 <= k < |w| && w[k].Gave? && w[k].item.TrxItem? && !s.consumer(given + ItemsOf(w[..k]), w[k].item) ==>
        k == |w| - 2 && w[k + 1] == Finished(s.callback)
  {
    var w := WalkOf(s, step, from, given);
    forall k | 0 <= k < |w| && w[k].Gave? && w[k].item.TrxItem? && !s.consumer(given + ItemsOf(w[..k]), w[k].item)
      ensures k == |w| - 2 && w[k + 1] == Finished(s.callback)
    {
      RefusalAt(s, step, from, given, k);
    }
  }

  lemma {:induction false} RefusalAt(s: Setup, step: (int, seq<Item>) -> Step, from: int, given: seq<Item>, k: nat)
    requires StepLaws(s, step)
    requires var w := WalkOf(s, step, from, given);
      k < |w| && w[k].Gave? && w[k].item.TrxItem? && !s.consumer(given + ItemsOf(w[..k]), w[k].item)
    ensures var w := WalkOf(s, step, from, given);
      k == |w| - 2 && w[k + 1] == Finished(s.callback)
    decreases if from < 0 then 1 else 0, if from < 0 then 0 else from
  {
    var st := step(from, given);
    if k < |st.events| {
      RefusalInFirstStep(s, step, from, given, k);
    } else {
      var k' := k - |st.events|;
      var next := WalkPastFirstStep(s, step, from, given, k);
      RefusalAt(s, step, next, given + st.gave, k');
    }
  }

  lemma RefusalInFirstStep(s: Setup, step: (int, seq<Item>) -> Step, from: int, given: seq<Item>, k: nat)
    requires StepLaws(s, step)
    requires var w := WalkOf(s, step, from, given);
      k < |step(from, given).events| && k < |w| && w[k].Gave? && w[k].item.TrxItem? && !s.consumer(given + ItemsOf(w[..k]), w[k].item)
    ensures var w := WalkOf(s, step, from, given);
      k == |w| - 2 && w[k + 1] == Finished(s.callback)
  {
    var w := WalkOf(s, step, from, given);
    var st := step(from, given);
    assert StepOk(s, from, given, st);
    var tail := if st.next.Some? then WalkOf(s, step, st.next.value, given + st.gave) else [];
    assert w == st.events + tail;
    assert w[..k] == st.events[..k];
    assert w[k] == st.events[k];
    RefusalInStep(s, from, given, st, k);
    assert w[k + 1] == st.events[k + 1];
  }

  /** An event past the first step of a walk is the event of the rest of the
      walk at the shifted index, after the first step's gifts. */
  lemma WalkPastFirstStep(s: Setup, step: (int, seq<Item>) -> Step, from: int, given: seq<Item>, k: nat)
      returns (next: int)
    requires StepLaws(s, step)
    requires |step(from, given).events| <= k < |WalkOf(s, step, from, given)|
    ensures var st := step(from, given);
      && st.next == Some(next) && 0 <= next && (from >= 0 ==> next < from)
      && var w := WalkOf(s, step, from, given);
      && var tail := WalkOf(s, step, next, given + st.gave);
      && |w| == |st.events| + |tail|
      && w[k] == tail[k - |st.events|]
      && (k + 1 < |w| ==> w[k + 1] == tail[k + 1 - |st.events|])
      && given + ItemsOf(w[..k]) == (given + st.gave) + ItemsOf(tail[..k - |st.events|])
  {
    var w := WalkOf(s, step, from, given);
    var st := step(from, given);
    assert StepOk(s, from, given, st);
    next := st.next.value;
    var tail := WalkOf(s, step, next, given + st.gave);
    assert w == st.events + tail;
    var k' := k - |st.events|;
    assert w[..k] == st.events + tail[..k'];
    ItemsAfterStep(s, from, given, st, tail[..k']);
  }

  lemma {:induction false} FetchAtMost(s: Setup, step: (int, seq<Item>) -> Step, from: int, given: seq<Item>, k: nat)
    requires StepLaws(s, step) && from >= 0
    requires var w := WalkOf(s, step, from, given);
      k < |w| && w[k].Fetched?
    ensures var w := WalkOf(s, step, from, given);
      0 <= w[k].from <= from
    decreases from
  {
    var st := step(from, given);
    if k < |st.events| {
      WalkInFirstStep(s, step, from, given, k);
      assert StepOk(s, from, given, st);
      assert st.events[k] == Fetched(from, BatchLimit(s.batchSize, from));
    } else {
      var next := WalkPastFirstStep(s, step, from, given, k);
      FetchAtMost(s, step, next, given + st.gave, k - |st.events|);
    }
  }

  /** A cursor at or below one that lies below a batch lies below it too. */
  lemma BelowBatchLower(c: int, d: int, answer: FetchResult)
    requires d <= c && BelowBatch(c, answer)
    ensures BelowBatch(d, answer)
  {
  }

  lemma CursorsDescendOf(s: Setup, step: (int, seq<Item>) -> Step, from: int, given: seq<Item>)
    requires StepLaws(s, step)
    ensures var w := WalkOf(s, step, from, given);
      forall j, k :: 0 <= j < k < |w| && w[j].Fetched? && w[k].Fetched? ==>
        0 <= w[k].from && BelowBatch(w[k].from, s.node(w[j].from, w[j].limit))
  {
    var w := WalkOf(s, step, from, given);
    forall j, k | 0 <= j < k < |w| && w[j].Fetched? && w[k].Fetched?
      ensures 0 <= w[k].from && BelowBatch(w[k].from, s.node(w[j].from, w[j].limit))
    {
      DescendAt(s, step, from, given, j, k);
    }
  }

  lemma {:induction false} DescendAt(s: Setup, step: (int, seq<Item>) -> Step, from: int, given: seq<Item>, j: nat, k: nat)
    requires StepLaws(s, step)
    requires var w := WalkOf(s, step, from, given);
      j < k < |w| && w[j].Fetched? && w[k].Fetched?
    ensures var w := WalkOf(s, step, from, given);
      0 <= w[k].from && BelowBatch(w[k].from, s.node(w[j].from, w[j].limit))
    decreases if from < 0 then 1 else 0, if from < 0 then 0 else from
  {
    var st := step(from, given);
    if k < |st.events| {
      FetchOnlyFirst(s, step, from, given, k);
      assert false;
    } else if j >= |st.events| {
      var next := WalkPastFirstStep(s, step, from, given, k);
      var next' := WalkPastFirstStep(s, step, from, given, j);
      DescendAt(s, step, next, given + st.gave, j - |st.events|, k - |st.events|);
    } else {
      DescendFromFirstStep(s, step, from, given, j, k);
    }
  }

  /** Within one step, only the step's first event is a fetch. */
  lemma FetchOnlyFirst(s: Setup, step: (int, seq<Item>) -> Step, from: int, given: seq<Item>, k: nat)
    requires StepLaws(s, step)
    requires k < |step(from, given).events|
    requires WalkOf(s, step, from, given)[k].Fetched?
    ensures k == 0 && WalkOf(s, step, from, given)[k] == Fetched(from, BatchLimit(s.batchSize, from))
  {
    var st := step(from, given);
    WalkInFirstStep(s, step, from, given, k);
    assert StepOk(s, from, given, st);
    assert st.events[k].Fetched?;
  }

  /** A fetch after the first step starts below the first step's batch. */
  lemma DescendFromFirstStep(s: Setup, step: (int, seq<Item>) -> Step, from: int, given: seq<Item>, j: nat, k: nat)
    requires StepLaws(s, step)
    requires var w := WalkOf(s, step, from, given);
      j < |step(from, given).events| <= k < |w| && w[j].Fetched? && w[k].Fetched?
    ensures var w := WalkOf(s, step, from, given);
      0 <= w[k].from && BelowBatch(w[k].from, s.node(w[j].from, w[j].limit))
  {
    var st := step(from, given);
    var w := WalkOf(s, step, from, given);
    FetchOnlyFirst(s, step, from, given, j);
    var next := WalkPastFirstStep(s, step, from, given, k);
    assert StepOk(s, from, given, st);
    FetchAtMost(s, step, next, given + st.gave, k - |st.events|);
    BelowBatchLower(next, w[k].from, s.node(from, BatchLimit(s.batchSize, from)));
  }

  // ---------------------------------------------------------------- properties of the supplier's walk


  /** A walk is its first step followed, if there is a next cursor, by the
      walk from there. */
  lemma WalkUnfold(s: Setup, from: int, given: seq<Item>)
    requires WellBehaved(s.node)
    ensures var st := StepFrom(s, from, given);
      Walk(s, from, given) == st.events + (if st.next.Some? then Walk(s, st.next.value, given + st.gave) else [])
  {
    StepperKeepsLaws(s);
    assert Stepper(s)(from, given) == StepFrom(s, from, given);
  }

  /** The walk opens with a fetch of the most recent batch, of the batch size. */
  lemma WalkOpensWithNewestBatch(s: Setup)
    requires WellBehaved(s.node) && s.shouldLoad([])
    ensures Walk(s, -1, [])[0] == Fetched(-1, s.batchSize)
  {
    StepFromOk(s, -1, []);
  }

  /** Every fetch asks for BatchLimit(batchSize, from): the batch size for the
      first, min(batchSize, from) for later ones, never more than the batch size. */
  lemma FetchLimits(s: Setup, from: int, given: seq<Item>)
    requires WellBehaved(s.node)
    ensures var w := Walk(s, from, given);
      forall k :: 0 <= k < |w| && w[k].Fetched? ==> w[k].limit == BatchLimit(s.batchSize, w[k].from) <= s.batchSize
  {
    StepperKeepsLaws(s);
    assert Walk(s, from, given) == WalkOf(s, Stepper(s), from, given);
    FetchLimitsOf(s, Stepper(s), from, given);
  }

  /** The finish signal, if it comes, is the last event of the walk and
      fires the installed callback: it fires at most once. */
  lemma FinishIsLast(s: Setup, from: int, given: seq<Item>)
    requires WellBehaved(s.node)
    ensures var w := Walk(s, from, given);
      forall k :: 0 <= k < |w| && w[k].Finished? ==> k == |w| - 1 && w[k].callback == s.callback
  {
    StepperKeepsLaws(s);
    assert Walk(s, from, given) == WalkOf(s, Stepper(s), from, given);
    FinishIsLastOf(s, Stepper(s), from, given);
  }

  /** A fetch error is handed downstream as the walk's last event: no finish
      signal and no further fetch follow it. */
  lemma ErrorEndsWalk(s: Setup, from: int, given: seq<Item>)
    requires WellBehaved(s.node)
    ensures var w := Walk(s, from, given);
      forall k :: 0 <= k < |w| && w[k].Gave? && w[k].item.ErrorItem? ==> k == |w| - 1
  {
    StepperKeepsLaws(s);
    assert Walk(s, from, given) == WalkOf(s, Stepper(s), from, given);
    ErrorEndsWalkOf(s, Stepper(s), from, given);
  }

  /** Backpressure: once the consumer answers `false` to a transaction, the
      only thing still to happen is the finish signal; no further transaction
      is given and no further fetch is made. */
  lemma RefusalStopsWalk(s: Setup, from: int, given: seq<Item>)
    requires WellBehaved(s.node)
    ensures var w := Walk(s, from, given);
      forall k :: 0 <= k < |w| && w[k].Gave? && w[k].item.TrxItem? && !s.consumer(given + ItemsOf(w[..k]), w[k].item) ==>
        k == |w| - 2 && w[k + 1] == Finished(s.callback)
  {
    StepperKeepsLaws(s);
    assert Walk(s, from, given) == WalkOf(s, Stepper(s), from, given);
    RefusalStopsWalkOf(s, Stepper(s), from, given);
  }

  /** The cursor only moves into older history: every fetch after the first
      starts at a non-negative index strictly below every entry of every batch
      fetched before it, so no history entry is fetched twice. */
  lemma CursorsDescend(s: Setup, from: int, given: seq<Item>)
    requires WellBehaved(s.node)
    ensures var w := Walk(s, from, given);
      forall j, k :: 0 <= j < k < |w| && w[j].Fetched? && w[k].Fetched? ==>
        0 <= w[k].from && BelowBatch(w[k].from, s.node(w[j].from, w[j].limit))
  {
    StepperKeepsLaws(s);
    assert Walk(s, from, given) == WalkOf(s, Stepper(s), from, given);
    CursorsDescendOf(s, Stepper(s), from, given);
  }

  /** A batch shorter than the batch size (empty included) ends the walk:
      its transactions are given and the finish signal fires, with no
      further fetch. */
  lemma ShortBatchFinishes(s: Setup, from: int, given: seq<Item>)
    requires WellBehaved(s.node) && s.shouldLoad(given)
    requires s.node(from, BatchLimit(s.batchSize, from)).Batch?
    requires |s.node(from, BatchLimit(s.batchSize, from)).ops| < s.batchSize
    ensures var answer := s.node(from, BatchLimit(s.batchSize, from));
      Walk(s, from, given) ==
        [Fetched(from, BatchLimit(s.batchSize, from))]
        + Gifts(Deliver(Transactions(Reverse(answer.ops)), s.consumer, given).1)
        + [Finished(s.callback)]
  {
  }

  /** An empty batch fires the finish signal right after the fetch. */
  lemma EmptyBatchFinishes(s: Setup, from: int, given: seq<Item>)
    requires WellBehaved(s.node) && s.shouldLoad(given)
    requires s.node(from, BatchLimit(s.batchSize, from)) == Batch([])
    ensures Walk(s, from, given) == [Fetched(from, BatchLimit(s.batchSize, from)), Finished(s.callback)]
  {
  }

  // ---------------------------------------------------------------- the supplier

  /** `Array.prototype.reverse` on the node's answer. */
  method ReverseInPlace(a: array<RawOperation>)
    modifies a
    ensures a[..] == Reverse(old(a[..]))
  {
    ghost var s := a[..];
    var n, i := a.Length, 0;
    while i < n / 2
      invariant 0 <= i <= n / 2 && n == |s|
      invariant forall k :: 0 <= k < i || n - i <= k < n ==> a[k] == s[n - 1 - k]
      invariant forall k :: i <= k < n - i ==> a[k] == s[k]
    {
      a[i], a[n - 1 - i] := a[n - 1 - i], a[i];
      i := i + 1;
    }
    ReverseByIndex(s, a[..]);
  }

  /** The forEach of processBatch: `if (loadNext) loadNext = give(trx)` for
      each transaction in order. (`consumer` plays `this.give`; `given` is
      what it received earlier.) */
  method GiveWhileAccepted(trxs: seq<Transaction>, consumer: (seq<Item>, Item) -> bool, given: seq<Item>)
    returns (loadNext: bool, gave: seq<Item>)
    ensures (loadNext, gave) == Deliver(trxs, consumer, given)
  {
    loadNext := true;
    gave := [];
    assert trxs[0..] == trxs && given + [] == given;
    assert [] + Deliver(trxs, consumer, given).1 == Deliver(trxs, consumer, given).1;
    var i := 0;
    while i < |trxs|
      invariant 0 <= i <= |trxs|
      invariant loadNext ==>
        var rest := Deliver(trxs[i..], consumer, given + gave);
        Deliver(trxs, consumer, given) == (rest.0, gave + rest.1)
      invariant !loadNext ==> Deliver(trxs, consumer, given) == (false, gave)
    {
      if loadNext {
        var item := TrxItem(trxs[i]);
        DeliverAt(trxs, i, consumer, given, gave);
        loadNext := consumer(given + gave, item);
        gave := gave + [item];
      }
      i := i + 1;
    }
    assert trxs[i..] == [];
    assert gave + [] == gave;
  }

  /** Deliver from the i-th transaction on, after `gave`, in terms of the
      answer to the i-th one and Deliver from the next one on. */
  lemma DeliverAt(trxs: seq<Transaction>, i: nat, consumer: (seq<Item>, Item) -> bool, given: seq<Item>, gave: seq<Item>)
    requires i < |trxs|
    ensures var item := TrxItem(trxs[i]);
      var here := Deliver(trxs[i..], consumer, given + gave);
      var rest := Deliver(trxs[i + 1..], consumer, given + (gave + [item]));
      && (!consumer(given + gave, item) ==> gave + here.1 == gave + [item] && !here.0)
      && (consumer(given + gave, item) ==> here.0 == rest.0 && gave + here.1 == (gave + [item]) + rest.1)
  {
    var item := TrxItem(trxs[i]);
    assert trxs[i..][0] == trxs[i] && trxs[i..][1..] == trxs[i + 1..];
    assert given + gave + [item] == given + (gave + [item]);
    var rest := Deliver(trxs[i + 1..], consumer, given + (gave + [item]));
    assert gave + ([item] + rest.1) == (gave + [item]) + rest.1;
  }

  /** `processBatch` over a batch already newest-first: groups it into
      transactions, newest first, and gives them while the consumer answers
      `true`; returns the last answer. */
  method ProcessBatch(ops: seq<RawOperation>, consumer: (seq<Item>, Item) -> bool, given: seq<Item>)
    returns (loadNext: bool, gave: seq<Item>)
    ensures (loadNext, gave) == Deliver(Transactions(ops), consumer, given)
  {
    var trxs := Transactions(ops);
    loadNext, gave := GiveWhileAccepted(trxs, consumer, given);
  }

  /** SteemJsAccountHistorySupplier. `trace` records what it has done so far:
      its calls on the node, the items it gave downstream and the finish
      signals it fired. */
  class AccountHistorySupplier {
    const username: string
    var batchSize: int
    var onFinishCallback: Callback
    var trace: seq<Event>

    constructor (username: string)
      ensures this.username == username
      ensures batchSize == 1000 && onFinishCallback == NoOp && trace == []
    {
      this.username := username;
      batchSize := 1000;
      onFinishCallback := NoOp;
      trace := [];
    }

    /** `withBatchSize`: later walks fetch `n` entries at a time. */
    method WithBatchSize(n: int)
      modifies this
      ensures batchSize == n
      ensures onFinishCallback == old(onFinishCallback) && trace == old(trace)
    {
      batchSize := n;
    }

    /** `onFinish`: installs the callback fired when a walk finishes. */
    method OnFinish(callback: Callback)
      modifies this
      ensures onFinishCallback == callback
      ensures batchSize == old(batchSize) && trace == old(trace)
    {
      onFinishCallback := callback;
    }

    /** `loadFromOnlyIfConsumers(from)` and the answer's callback: one step
        of the walk. Returns the next cursor, if the walk goes on, and the
        items given downstream. */
    method LoadFromOnlyIfConsumers(from: int, given: seq<Item>, node: (int, int) -> FetchResult,
                                   consumer: (seq<Item>, Item) -> bool, shouldLoad: seq<Item> -> bool)
      returns (next: Option<int>, gave: seq<Item>)
      modifies this
      ensures batchSize == old(batchSize) && onFinishCallback == old(onFinishCallback)
      ensures var st := StepFrom(Setup(batchSize, onFinishCallback, node, consumer, shouldLoad), from, given);
        trace == old(trace) + st.events && next == st.next && gave == st.gave
    {
      if !shouldLoad(given) {
        return None, [];
      }
      var limit := BatchLimit(batchSize, from);
      match node(from, limit)
      case Failed(e) =>
        trace := trace + [Fetched(from, limit), Gave(ErrorItem(e))];
        next, gave := None, [ErrorItem(e)];
      case Batch(result) =>
        if |result| == 0 {
          trace := trace + [Fetched(from, limit), Finished(onFinishCallback)];
          next, gave := None, [];
        } else {
          var a := new RawOperation[|result|](i requires 0 <= i < |result| => result[i]);
          assert a[..] == result;
          ReverseInPlace(a);
          var reversed := a[..];
          var loadNext;
          loadNext, gave := ProcessBatch(reversed, consumer, given);
          next := NextFrom(batchSize, loadNext, reversed);
          trace := trace + ([Fetched(from, limit)] + Gifts(gave) + (if next.None? then [Finished(onFinishCallback)] else []));
        }
    }

    /** `start`: installs the callback if one is passed, then walks the
        history from the most recent batch. */
    method Start(callback: Option<Callback>, node: (int, int) -> FetchResult,
                 consumer: (seq<Item>, Item) -> bool, shouldLoad: seq<Item> -> bool)
      requires WellBehaved(node)
      modifies this
      ensures batchSize == old(batchSize)
      ensures onFinishCallback == (if callback.Some? then callback.value else old(onFinishCallback))
      ensures trace == old(trace) + Walk(Setup(batchSize, onFinishCallback, node, consumer, shouldLoad), -1, [])
    {
      if callback.Some? {
        onFinishCallback := callback.value;
      }
      ghost var s := Setup(batchSize, onFinishCallback, node, consumer, shouldLoad);
      var next: Option<int> := Some(-1);
      var given: seq<Item> := [];
      assert trace == old(trace);
      while next.Some?
        invariant batchSize == old(batchSize) && s == Setup(batchSize, onFinishCallback, node, consumer, shouldLoad)
        invariant old(trace) + Walk(s, -1, []) == trace + (if next.Some? then Walk(s, next.value, given) else [])
        decreases if next.None? then 0 else if next.value < 0 then 2 else 1, if next.Some? && next.value >= 0 then next.value else 0
      {
        var from := next.value;
        var gave;
        WalkUnfold(s, from, given);
        StepFromOk(s, from, given);
        ghost var before := trace;
        next, gave := LoadFromOnlyIfConsumers(from, given, node, consumer, shouldLoad);
        ghost var rest := if next.Some? then Walk(s, next.value, given + gave) else [];
        ConcatAssociative(before, StepFrom(s, from, given).events, rest);
        given := given + gave;
      }
      assert trace + [] == trace;
    }
  }
}
