/** What `processBatch` does to one batch of account history before giving
    it downstream: group the operations by transaction id (lodash `groupBy`,
    whose groups come in order of first appearance), turn each group into a
    transaction, sort the transactions by (block_num, transaction_num)
    (lodash `sortBy`, a stable sort) and reverse them (lodash `reverse`). */
module TransactionBatches {
  import opened Blockchain

  // ---------------------------------------------------------------- grouping

  /** The operations of the batch that carry transaction id `id`, in batch order. */
  function OpsWithId(ops: seq<RawOperation>, id: string): (r: seq<RawOperation>)
    ensures |r| <= |ops|
    ensures forall i :: 0 <= i < |r| ==> r[i].trxId == id
  {
    if ops == [] then []
    else (if ops[0].trxId == id then [ops[0]] else []) + OpsWithId(ops[1..], id)
  }

  /** The operations of the batch that carry any other transaction id, in batch order. */
  function OpsWithoutId(ops: seq<RawOperation>, id: string): (r: seq<RawOperation>)
    ensures |r| <= |ops|
    ensures forall i :: 0 <= i < |r| ==> r[i].trxId != id
  {
    if ops == [] then []
    else (if ops[0].trxId != id then [ops[0]] else []) + OpsWithoutId(ops[1..], id)
  }

  /** The transaction ids occurring in a batch. */
  function IdsOf(ops: seq<RawOperation>): set<string>
  {
    if ops == [] then {} else {ops[0].trxId} + IdsOf(ops[1..])
  }

  /** `_.values(_.groupBy(ops, op => op[1].trx_id))`: the operations of each
      transaction id, groups in order of first appearance. */
  function GroupByTrxId(ops: seq<RawOperation>): (groups: seq<seq<RawOperation>>)
    ensures |groups| <= |ops|
    ensures forall i :: 0 <= i < |groups| ==> groups[i] != []
    ensures forall i, k :: 0 <= i < |groups| && 0 <= k < |groups[i]| ==> groups[i][k].trxId == groups[i][0].trxId
    decreases |ops|
  {
    if ops == [] then []
    else [OpsWithId(ops, ops[0].trxId)] + GroupByTrxId(OpsWithoutId(ops[1..], ops[0].trxId))
  }

  /** The trx_id a (non-empty) group belongs to. */
  function GroupId(g: seq<RawOperation>): string
    requires g != []
  {
    g[0].trxId
  }

  /** The ids of a sequence of non-empty groups. */
  function GroupIds(groups: seq<seq<RawOperation>>): set<string>
    requires forall i :: 0 <= i < |groups| ==> groups[i] != []
  {
    if groups == [] then {} else {GroupId(groups[0])} + GroupIds(groups[1..])
  }

  lemma {:induction false} OpsWithIdSkipsOthers(ops: seq<RawOperation>, x: string, y: string)
    requires x != y
    ensures OpsWithId(OpsWithoutId(ops, y), x) == OpsWithId(ops, x)
  {
    if ops != [] {
      var w := OpsWithoutId(ops[1..], y);
      OpsWithIdSkipsOthers(ops[1..], x, y);
      if ops[0].trxId != y {
        var v := [ops[0]] + w;
        assert OpsWithoutId(ops, y) == v;
        assert v[0] == ops[0] && v[1..] == w;
        assert OpsWithId(v, x) == (if ops[0].trxId == x then [ops[0]] else []) + OpsWithId(w, x);
      } else {
        assert OpsWithoutId(ops, y) == w;
      }
    }
  }

  lemma {:induction false} IdsOfWithout(ops: seq<RawOperation>, y: string)
    ensures IdsOf(OpsWithoutId(ops, y)) == IdsOf(ops) - {y}
  {
    if ops != [] {
      IdsOfWithout(ops[1..], y);
      var r := OpsWithoutId(ops[1..], y);
      if ops[0].trxId != y {
        var v := [ops[0]] + r;
        assert v[0] == ops[0] && v[1..] == r;
      } else {
        assert [] + r == r;
      }
    }
  }

  lemma {:induction false} IdOfOpInIds(ops: seq<RawOperation>, k: nat)
    requires k < |ops|
    ensures ops[k].trxId in IdsOf(ops)
  {
    if k > 0 {
      IdOfOpInIds(ops[1..], k - 1);
    }
  }

  lemma {:induction false} OpInItsGroup(ops: seq<RawOperation>, k: nat)
    requires k < |ops|
    ensures ops[k] in OpsWithId(ops, ops[k].trxId)
  {
    if k > 0 {
      OpInItsGroup(ops[1..], k - 1);
    }
  }

  /** An id is among the ids of some groups exactly when one of them has it. */
  lemma {:induction false} GroupIdsMembers(groups: seq<seq<RawOperation>>, x: string)
    requires forall i :: 0 <= i < |groups| ==> groups[i] != []
    ensures x in GroupIds(groups) <==> exists i :: 0 <= i < |groups| && GroupId(groups[i]) == x
  {
    if groups != [] {
      GroupIdsMembers(groups[1..], x);
      if exists i :: 0 <= i < |groups| && GroupId(groups[i]) == x {
        var i :| 0 <= i < |groups| && GroupId(groups[i]) == x;
        if i > 0 {
          assert GroupId(groups[1..][i - 1]) == x;
        }
      }
      if exists i :: 0 <= i < |groups[1..]| && GroupId(groups[1..][i]) == x {
        var i :| 0 <= i < |groups[1..]| && GroupId(groups[1..][i]) == x;
        assert GroupId(groups[i + 1]) == x;
      }
    }
  }

  /** The groups' ids are exactly the ids in the batch. */
  lemma {:induction false} GroupIdsCover(ops: seq<RawOperation>)
    ensures GroupIds(GroupByTrxId(ops)) == IdsOf(ops)
    decreases |ops|
  {
    if ops != [] {
      var id0 := ops[0].trxId;
      var rest := OpsWithoutId(ops[1..], id0);
      GroupIdsCover(rest);
      IdsOfWithout(ops[1..], id0);
      assert OpsWithId(ops, id0)[0] == ops[0];
      assert GroupByTrxId(ops)[1..] == GroupByTrxId(rest);
    }
  }

  /** Each group is ALL the operations of its transaction id, in batch order. */
  lemma {:induction false} GroupsAreExact(ops: seq<RawOperation>)
    ensures var groups := GroupByTrxId(ops);
      forall i :: 0 <= i < |groups| ==> groups[i] == OpsWithId(ops, GroupId(groups[i]))
    decreases |ops|
  {
    var groups := GroupByTrxId(ops);
    if ops != [] {
      var id0 := ops[0].trxId;
      var rest := OpsWithoutId(ops[1..], id0);
      var tail := GroupByTrxId(rest);
      assert groups == [OpsWithId(ops, id0)] + tail;
      assert OpsWithId(ops, id0)[0] == ops[0];
      GroupsAreExact(rest);
      GroupIdsCover(rest);
      IdsOfWithout(ops[1..], id0);
      forall i | 0 <= i < |groups|
        ensures groups[i] == OpsWithId(ops, GroupId(groups[i]))
      {
        if i > 0 {
          var x := GroupId(tail[i - 1]);
          GroupIdsMembers(tail, x);
          assert x != id0;
          OpsWithIdSkipsOthers(ops[1..], x, id0);
        }
      }
    }
  }

  /** No two groups share an id. */
  lemma {:induction false} GroupIdsDistinct(ops: seq<RawOperation>)
    ensures var groups := GroupByTrxId(ops);
      forall i, j :: 0 <= i < j < |groups| ==> GroupId(groups[i]) != GroupId(groups[j])
    decreases |ops|
  {
    var groups := GroupByTrxId(ops);
    if ops != [] {
      var id0 := ops[0].trxId;
      var rest := OpsWithoutId(ops[1..], id0);
      var tail := GroupByTrxId(rest);
      assert groups == [OpsWithId(ops, id0)] + tail;
      assert OpsWithId(ops, id0)[0] == ops[0];
      GroupIdsDistinct(rest);
      GroupIdsCover(rest);
      IdsOfWithout(ops[1..], id0);
      forall i, j | 0 <= i < j < |groups|
        ensures GroupId(groups[i]) != GroupId(groups[j])
      {
        if i == 0 {
          GroupIdsMembers(tail, GroupId(tail[j - 1]));
        } else {
          assert groups[i] == tail[i - 1] && groups[j] == tail[j - 1];
        }
      }
    }
  }

  /** Grouping is exact: each group is ALL the operations of its transaction
      id, in batch order; no two groups share an id; and the groups' ids are
      exactly the ids in the batch. So every operation lands in exactly one
      group. */
  lemma GroupingExact(ops: seq<RawOperation>)
    ensures var groups := GroupByTrxId(ops);
      && (forall i :: 0 <= i < |groups| ==> groups[i] == OpsWithId(ops, GroupId(groups[i])))
      && (forall i, j :: 0 <= i < j < |groups| ==> GroupId(groups[i]) != GroupId(groups[j]))
      && GroupIds(groups) == IdsOf(ops)
  {
    GroupsAreExact(ops);
    GroupIdsDistinct(ops);
    GroupIdsCover(ops);
  }

  /** Every operation of the batch is in the group of its own transaction id. */
  lemma EveryOpGrouped(ops: seq<RawOperation>, k: nat)
    requires k < |ops|
    ensures exists i :: (0 <= i < |GroupByTrxId(ops)| && ops[k] in GroupByTrxId(ops)[i]
      && GroupId(GroupByTrxId(ops)[i]) == ops[k].trxId)
  {
    var groups := GroupByTrxId(ops);
    GroupingExact(ops);
    IdOfOpInIds(ops, k);
    GroupIdsMembers(groups, ops[k].trxId);
    var i :| 0 <= i < |groups| && GroupId(groups[i]) == ops[k].trxId;
    OpInItsGroup(ops, k);
  }

  // ---------------------------------------------------------------- transactions

  /** The SteemTransaction of one group: block, position and id of its first
      operation, and the `op` of each operation in group order. */
  function ToTransaction(g: seq<RawOperation>): (t: Transaction)
    requires g != []
    ensures t.blockNum == g[0].block && t.transactionNum == g[0].trxInBlock
    ensures t.transactionId == GroupId(g) && |t.ops| == |g|
    ensures forall i :: 0 <= i < |g| ==> t.ops[i] == g[i].op
  {
    Transaction(g[0].block, g[0].trxInBlock, g[0].trxId, g[0].timestamp,
                seq(|g|, i requires 0 <= i < |g| => g[i].op))
  }

  function ToTransactions(groups: seq<seq<RawOperation>>): (ts: seq<Transaction>)
    requires forall i :: 0 <= i < |groups| ==> groups[i] != []
    ensures |ts| == |groups| && forall i :: 0 <= i < |groups| ==> ts[i] == ToTransaction(groups[i])
  {
    if groups == [] then [] else [ToTransaction(groups[0])] + ToTransactions(groups[1..])
  }

  // ---------------------------------------------------------------- ordering

  /** (block_num, transaction_num) of a strictly smaller than that of b. */
  predicate KeyLess(a: Transaction, b: Transaction)
  {
    a.blockNum < b.blockNum || (a.blockNum == b.blockNum && a.transactionNum < b.transactionNum)
  }

  predicate SortedAscending(ts: seq<Transaction>)
  {
    forall i, j :: 0 <= i < j < |ts| ==> !KeyLess(ts[j], ts[i])
  }

  predicate SortedDescending(ts: seq<Transaction>)
  {
    forall i, j :: 0 <= i < j < |ts| ==> !KeyLess(ts[i], ts[j])
  }

  /** Inserts t before the first element whose key is not below t's. */
  function InsertByKey(t: Transaction, sorted: seq<Transaction>): (r: seq<Transaction>)
    ensures |r| == |sorted| + 1
  {
    if sorted == [] then [t]
    else if KeyLess(sorted[0], t) then [sorted[0]] + InsertByKey(t, sorted[1..])
    else [t] + sorted
  }

  /** `_.sortBy(ts, ["block_num", "transaction_num"])`: a stable insertion sort. */
  function SortByKey(ts: seq<Transaction>): (r: seq<Transaction>)
    ensures |r| == |ts|
  {
    if ts == [] then [] else InsertByKey(ts[0], SortByKey(ts[1..]))
  }

  /** `_.reverse` (and `Array.prototype.reverse` on a copy). */
  function Reverse<T>(s: seq<T>): (r: seq<T>)
    ensures |r| == |s|
    ensures forall i :: 0 <= i < |s| ==> r[i] == s[|s| - 1 - i]
  {
    if s == [] then [] else Reverse(s[1..]) + [s[0]]
  }

  /** A sequence holding s's elements in the opposite order is Reverse(s). */
  lemma ReverseByIndex<T>(s: seq<T>, r: seq<T>)
    requires |r| == |s| && forall k :: 0 <= k < |s| ==> r[k] == s[|s| - 1 - k]
    ensures r == Reverse(s)
  {
    var rs := Reverse(s);
    assert forall k :: 0 <= k < |s| ==> r[k] == rs[k];
  }

  lemma {:induction false} InsertByKeyPermutes(t: Transaction, sorted: seq<Transaction>)
    ensures multiset(InsertByKey(t, sorted)) == multiset(sorted) + multiset{t}
  {
    if sorted != [] && KeyLess(sorted[0], t) {
      assert sorted == [sorted[0]] + sorted[1..];
      InsertByKeyPermutes(t, sorted[1..]);
    }
  }

  lemma {:induction false} InsertByKeyMembers(t: Transaction, sorted: seq<Transaction>, x: Transaction)
    requires x in InsertByKey(t, sorted)
    ensures x == t || x in sorted
  {
    if sorted != [] && KeyLess(sorted[0], t) && x != sorted[0] {
      InsertByKeyMembers(t, sorted[1..], x);
    }
  }

  lemma {:induction false} InsertByKeySorted(t: Transaction, sorted: seq<Transaction>)
    requires SortedAscending(sorted)
    ensures SortedAscending(InsertByKey(t, sorted))
  {
    if sorted != [] && KeyLess(sorted[0], t) {
      var tail := sorted[1..];
      InsertByKeySorted(t, tail);
      var ins := InsertByKey(t, tail);
      forall x | x in ins ensures !KeyLess(x, sorted[0]) {
        InsertByKeyMembers(t, tail, x);
      }
    }
  }

  lemma {:induction false} SortByKeySorted(ts: seq<Transaction>)
    ensures SortedAscending(SortByKey(ts))
    ensures multiset(SortByKey(ts)) == multiset(ts)
  {
    if ts != [] {
      SortByKeySorted(ts[1..]);
      InsertByKeySorted(ts[0], SortByKey(ts[1..]));
      InsertByKeyPermutes(ts[0], SortByKey(ts[1..]));
      assert ts == [ts[0]] + ts[1..];
    }
  }

  lemma ReverseMultiset<T>(s: seq<T>)
    ensures multiset(Reverse(s)) == multiset(s)
  {
    if s != [] {
      var r := Reverse(s);
      assert r == Reverse(s[1..]) + [s[0]];
      ReverseMultiset(s[1..]);
      assert s == [s[0]] + s[1..];
    }
  }

  /** What processBatch gives downstream for a batch already turned
      newest-first: one transaction per transaction id, newest first. */
  function Transactions(ops: seq<RawOperation>): (ts: seq<Transaction>)
    ensures |ts| == |GroupByTrxId(ops)|
  {
    Reverse(SortByKey(ToTransactions(GroupByTrxId(ops))))
  }

  /** The transactions come in non-increasing (block_num, transaction_num)
      order, and they are exactly the grouped transactions, each once. */
  lemma TransactionsNewestFirst(ops: seq<RawOperation>)
    ensures SortedDescending(Transactions(ops))
    ensures multiset(Transactions(ops)) == multiset(ToTransactions(GroupByTrxId(ops)))
  {
    var unsorted := ToTransactions(GroupByTrxId(ops));
    SortByKeySorted(unsorted);
    ReverseMultiset(SortByKey(unsorted));
  }
}
