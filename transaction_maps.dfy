/**
 * transaction_maps.py: the rows of a prepared transaction frame become
 * double-entry transactions. Every row gives two splits that cancel out.
 * Rows marked as Quicken splits ("S") that share a date and a description
 * form one transaction, in the order their first row appears; every other
 * row is a transaction of its own.
 */
module TransactionMaps {
  import opened Wrappers
  import opened Strings
  import opened Calendar
  import Seqs

  /** One leg of a transaction: a full account path, a signed amount and a memo. */
  datatype Split2Move = Split2Move(account: string, value: int, memo: string)

  /** A transaction staged for the GnuCash book. */
  datatype Transaction2Move = Transaction2Move(
    postDate: Date,
    enterDate: Timestamp,
    currency: string,
    description: string,
    notes: string,
    num: string,
    splits: seq<Split2Move>)

  /** One row of a prepared transaction frame, in its `tran_*` columns. */
  datatype TranRow = TranRow(
    date: string,
    description: string,
    split: string,
    acctFrom: string,
    acctTo: string,
    amount: int,
    memo: string,
    tags: string,
    fitid: string)

  /** `__combined_memo_tags`: the memo, then the tags after a "; ". */
  function CombinedMemoTags(memo: string, tags: string): (r: string)
    ensures StartsWith(r, memo) && EndsWith(r, tags)
    ensures r == "" <==> memo == "" && tags == ""
    ensures memo == "" || tags == "" ==> |r| == |memo| + |tags|
    ensures memo != "" && tags != "" ==> |r| == |memo| + 2 + |tags| && r[|memo|..|r| - |tags|] == "; "
  {
    CombinedStringsBy(memo, tags, ";")
  }

  /** The sum of the amounts of `splits`. */
  function SplitsSum(splits: seq<Split2Move>): int
  {
    if splits == [] then 0 else splits[0].value + SplitsSum(splits[1..])
  }

  /** The sum over a concatenation is the sum of the sums. */
  lemma {:induction false} SplitsSumConcat(a: seq<Split2Move>, b: seq<Split2Move>)
    ensures SplitsSum(a + b) == SplitsSum(a) + SplitsSum(b)
  {
    if a == [] {
      assert a + b == b;
    } else {
      assert (a + b)[1..] == a[1..] + b;
      SplitsSumConcat(a[1..], b);
    }
  }

  /**
   * `__split2move_list`: the row's amount enters the "from" account and leaves
   * the "to" account, both legs carrying the memo combined with the tags, so
   * the two legs cancel out.
   */
  function SplitPair(row: TranRow): (splits: seq<Split2Move>)
    ensures |splits| == 2 && SplitsSum(splits) == 0
    ensures splits[0].account == row.acctFrom && splits[0].value == row.amount
    ensures splits[1].account == row.acctTo && splits[1].value == -row.amount
    ensures splits[0].memo == splits[1].memo == CombinedMemoTags(row.memo, row.tags)
  {
    var memo := CombinedMemoTags(row.memo, row.tags);
    var legs := [Split2Move(row.acctFrom, row.amount, memo), Split2Move(row.acctTo, -row.amount, memo)];
    assert legs[1..][1..] == [];
    assert SplitsSum(legs[1..]) == -row.amount + SplitsSum(legs[1..][1..]);
    legs
  }

  /**
   * `__transaction2move`: a transaction in US dollars entered at the clock's
   * time `now`.
   */
  function TransactionOf(posted: Date, description: string, notes: string, num: string, splits: seq<Split2Move>, now: Timestamp)
    : (t: Transaction2Move)
    ensures t.currency == "USD" && t.enterDate == now && t.splits == splits
  {
    Transaction2Move(posted, now, "USD", description, notes, num, splits)
  }

  /**
   * `__build_single_splits_tran`: one row as a balanced two-leg transaction,
   * posted on the row's date as `parse` reads it, noted with the row's raw
   * memo and numbered with its FITID.
   */
  function SingleSplitTran(row: TranRow, parse: string -> Date, now: Timestamp): (t: Transaction2Move)
    ensures t.splits == SplitPair(row) && SplitsSum(t.splits) == 0
    ensures t.postDate == parse(row.date) && t.description == row.description
    ensures t.notes == row.memo && t.num == row.fitid
    ensures t.currency == "USD" && t.enterDate == now
  {
    TransactionOf(parse(row.date), row.description, row.memo, row.fitid, SplitPair(row), now)
  }

  /**
   * The splits of a group of rows, row after row: every row contributes its
   * two legs at positions `2 * i` and `2 * i + 1`, and the whole balances.
   */
  function GroupSplits(group: seq<TranRow>): (splits: seq<Split2Move>)
    ensures |splits| == 2 * |group|
    ensures forall i | 0 <= i < |group| :: splits[2 * i..2 * i + 2] == SplitPair(group[i])
    ensures SplitsSum(splits) == 0
  {
    if group == [] then []
    else
      var rest := GroupSplits(group[1..]);
      var splits := SplitPair(group[0]) + rest;
      assert forall i | 1 <= i < |group| :: splits[2 * i..2 * i + 2] == rest[2 * (i - 1)..2 * (i - 1) + 2];
      SplitsSumConcat(SplitPair(group[0]), rest);
      splits
  }

  /**
   * `__build_multi_splits_tran`: the rows of one group as a single balanced
   * transaction whose header (date, description, notes, number) comes from
   * the group's first row.
   */
  function MultiSplitsTran(group: seq<TranRow>, parse: string -> Date, now: Timestamp): (t: Transaction2Move)
    requires |group| >= 1
    ensures t.splits == GroupSplits(group) && |t.splits| == 2 * |group| && SplitsSum(t.splits) == 0
    ensures t.postDate == parse(group[0].date) && t.description == group[0].description
    ensures t.notes == group[0].memo && t.num == group[0].fitid
    ensures t.currency == "USD" && t.enterDate == now
  {
    TransactionOf(parse(group[0].date), group[0].description, group[0].memo, group[0].fitid, GroupSplits(group), now)
  }

  /** The grouping key of a Quicken split row. */
  datatype GroupKey = GroupKey(date: string, description: string)

  function KeyOf(row: TranRow): GroupKey
  {
    GroupKey(row.date, row.description)
  }

  /**
   * `groupby(["tran_date", "tran_description"], sort=False)`: the distinct
   * keys of `rows` in the order of their first row.
   */
  function GroupKeys(rows: seq<TranRow>): (keys: seq<GroupKey>)
    ensures forall i, j | 0 <= i < j < |keys| :: keys[i] != keys[j]
    ensures forall r | 0 <= r < |rows| :: KeyOf(rows[r]) in keys
    decreases |rows|
  {
    if rows == [] then []
    else
      var front := rows[..|rows| - 1];
      var keys := GroupKeys(front);
      var k := KeyOf(rows[|rows| - 1]);
      assert forall r | 0 <= r < |front| :: front[r] == rows[r];
      if k in keys then keys else keys + [k]
  }

  /** Every key is the key of some row. */
  lemma {:induction false} GroupKeyOccurs(rows: seq<TranRow>, i: nat)
    requires i < |GroupKeys(rows)|
    ensures exists r | 0 <= r < |rows| :: KeyOf(rows[r]) == GroupKeys(rows)[i]
    decreases |rows|
  {
    var n := |rows| - 1;
    var front := rows[..n];
    var keys := GroupKeys(front);
    assert GroupKeys(rows) == if KeyOf(rows[n]) in keys then keys else keys + [KeyOf(rows[n])];
    if i < |keys| {
      GroupKeyOccurs(front, i);
      var r :| 0 <= r < |front| && KeyOf(front[r]) == keys[i];
      assert rows[r] == front[r];
    } else {
      assert KeyOf(rows[n]) == GroupKeys(rows)[i];
    }
  }

  /** The rows of one group, in frame order. */
  function GroupOf(rows: seq<TranRow>, key: GroupKey): (group: seq<TranRow>)
    ensures forall i | 0 <= i < |group| :: group[i] in rows && KeyOf(group[i]) == key
    ensures forall r | 0 <= r < |rows| && KeyOf(rows[r]) == key :: rows[r] in group
    ensures |group| >= 1 <==> exists r | 0 <= r < |rows| :: KeyOf(rows[r]) == key
  {
    var group := Seqs.Filter(rows, (row: TranRow) => KeyOf(row) == key);
    assert (exists r | 0 <= r < |rows| :: KeyOf(rows[r]) == key) <==> |group| >= 1 by {
      if r :| 0 <= r < |rows| && KeyOf(rows[r]) == key {
        assert rows[r] in group;
      }
      if |group| >= 1 {
        assert group[0] in rows;
        var r :| 0 <= r < |rows| && rows[r] == group[0];
        assert KeyOf(rows[r]) == key;
      }
    }
    group
  }

  /** No row up to row `r` has key `key`. */
  predicate NotSeenUpTo(rows: seq<TranRow>, r: nat, key: GroupKey)
    requires r < |rows|
  {
    forall s | 0 <= s <= r :: KeyOf(rows[s]) != key
  }

  /**
   * A group's key appears before another's exactly in the order of their
   * first rows: some row of the earlier group precedes every row of the
   * later one.
   */
  lemma {:induction false} GroupKeysFirstSeen(rows: seq<TranRow>, i: nat, j: nat)
    requires i < j < |GroupKeys(rows)|
    ensures exists r | 0 <= r < |rows| :: KeyOf(rows[r]) == GroupKeys(rows)[i] && NotSeenUpTo(rows, r, GroupKeys(rows)[j])
    decreases |rows|
  {
    var n := |rows| - 1;
    var front := rows[..n];
    var keys := GroupKeys(front);
    var k := KeyOf(rows[n]);
    var all := GroupKeys(rows);
    assert all == if k in keys then keys else keys + [k];
    if j < |keys| {
      assert all[i] == keys[i] && all[j] == keys[j];
      GroupKeysFirstSeen(front, i, j);
      var r :| 0 <= r < |front| && KeyOf(front[r]) == keys[i] && NotSeenUpTo(front, r, keys[j]);
      assert forall s | 0 <= s <= r :: rows[s] == front[s];
      assert KeyOf(rows[r]) == all[i] && NotSeenUpTo(rows, r, all[j]);
    } else {
      assert all[i] == keys[i] && all[j] == k && k !in keys;
      GroupKeyOccurs(front, i);
      var r :| 0 <= r < |front| && KeyOf(front[r]) == keys[i];
      forall s | 0 <= s <= r ensures KeyOf(rows[s]) != k {
        assert rows[s] == front[s];
        assert KeyOf(front[s]) in keys;
      }
      assert KeyOf(rows[r]) == all[i] && NotSeenUpTo(rows, r, all[j]);
    }
  }

  /** The number of rows in the groups of `keys`. */
  function GroupSizes(rows: seq<TranRow>, keys: seq<GroupKey>): nat
  {
    if keys == [] then 0 else GroupSizes(rows, keys[..|keys| - 1]) + |GroupOf(rows, keys[|keys| - 1])|
  }

  /** One more row adds one to the size of its own group, if listed, and to no other. */
  lemma {:induction false} GroupSizesOfOneMoreRow(rows: seq<TranRow>, row: TranRow, keys: seq<GroupKey>)
    requires forall i, j | 0 <= i < j < |keys| :: keys[i] != keys[j]
    ensures GroupSizes(rows + [row], keys) == GroupSizes(rows, keys) + if KeyOf(row) in keys then 1 else 0
  {
    if keys != [] {
      var front := keys[..|keys| - 1];
      var last := keys[|keys| - 1];
      GroupSizesOfOneMoreRow(rows, row, front);
      Seqs.FilterConcat(rows, [row], (r: TranRow) => KeyOf(r) == last);
      assert KeyOf(row) in keys <==> KeyOf(row) in front || KeyOf(row) == last;
      assert KeyOf(row) == last ==> KeyOf(row) !in front;
    }
  }

  /** The row whose key no earlier row has is the only row of its group. */
  lemma NewKeyGroup(front: seq<TranRow>, row: TranRow)
    requires KeyOf(row) !in GroupKeys(front)
    ensures GroupOf(front + [row], KeyOf(row)) == [row]
  {
    Seqs.FilterConcat(front, [row], (r: TranRow) => KeyOf(r) == KeyOf(row));
    assert GroupOf(front, KeyOf(row)) == [];
    assert [row][1..] == [];
    assert GroupOf([row], KeyOf(row)) == [row];
  }

  /** Grouping loses no row and counts none twice: the group sizes add up to the number of rows. */
  lemma {:induction false} GroupsPartitionRows(rows: seq<TranRow>)
    ensures GroupSizes(rows, GroupKeys(rows)) == |rows|
    decreases |rows|
  {
    if rows != [] {
      var n := |rows| - 1;
      var front := rows[..n];
      var row := rows[n];
      var keys := GroupKeys(front);
      assert rows == front + [row];
      GroupsPartitionRows(front);
      GroupSizesOfOneMoreRow(front, row, keys);
      if KeyOf(row) !in keys {
        var all := keys + [KeyOf(row)];
        assert GroupKeys(rows) == all;
        assert all[..|all| - 1] == keys;
        NewKeyGroup(front, row);
        assert GroupSizes(rows, all) == GroupSizes(rows, keys) + 1;
      }
    }
  }

  /** The mask `tran_split == "S"`. */
  predicate IsQuickenSplit(row: TranRow)
  {
    row.split == "S"
  }

  /** Its negation `~splits_mask`. */
  predicate IsSingleRow(row: TranRow)
  {
    !IsQuickenSplit(row)
  }

  /** One transaction per group of Quicken split rows, in group order. */
  function MultiSplitTransactions(multi: seq<TranRow>, parse: string -> Date, now: Timestamp): (ts: seq<Transaction2Move>)
    ensures |ts| == |GroupKeys(multi)|
    ensures forall i | 0 <= i < |ts| ::
      |GroupOf(multi, GroupKeys(multi)[i])| >= 1 && ts[i] == MultiSplitsTran(GroupOf(multi, GroupKeys(multi)[i]), parse, now)
  {
    var keys := GroupKeys(multi);
    assert forall i | 0 <= i < |keys| :: |GroupOf(multi, keys[i])| >= 1 by {
      forall i | 0 <= i < |keys| ensures |GroupOf(multi, keys[i])| >= 1 {
        GroupKeyOccurs(multi, i);
      }
    }
    seq(|keys|, i requires 0 <= i < |keys| => MultiSplitsTran(GroupOf(multi, keys[i]), parse, now))
  }

  /** One transaction per other row, in frame order. */
  function SingleSplitTransactions(single: seq<TranRow>, parse: string -> Date, now: Timestamp): (ts: seq<Transaction2Move>)
    ensures |ts| == |single|
    ensures forall i | 0 <= i < |ts| :: ts[i] == SingleSplitTran(single[i], parse, now)
  {
    seq(|single|, i requires 0 <= i < |single| => SingleSplitTran(single[i], parse, now))
  }

  /**
   * `__processed_transactions` and `mapped_transactions`: the grouped
   * transactions first, then the single ones.
   */
  function MappedTransactions(rows: seq<TranRow>, parse: string -> Date, now: Timestamp): seq<Transaction2Move>
  {
    var multi := Seqs.Filter(rows, IsQuickenSplit);
    var single := Seqs.Filter(rows, IsSingleRow);
    MultiSplitTransactions(multi, parse, now) + SingleSplitTransactions(single, parse, now)
  }

  /** Without Quicken split rows, every row is a transaction of its own, in frame order. */
  lemma MappedSingleRows(rows: seq<TranRow>, parse: string -> Date, now: Timestamp)
    requires forall i | 0 <= i < |rows| :: !IsQuickenSplit(rows[i])
    ensures MappedTransactions(rows, parse, now) == SingleSplitTransactions(rows, parse, now)
  {
    Seqs.FilterNone(rows, IsQuickenSplit);
    Seqs.FilterAll(rows, IsSingleRow);
    assert GroupKeys([]) == [];
  }

  /**
   * There is one transaction per group of Quicken split rows, then one per
   * other row; every transaction balances, is in US dollars and is entered
   * at `now`.
   */
  lemma MappedTransactionsBalance(rows: seq<TranRow>, parse: string -> Date, now: Timestamp)
    ensures var multi := Seqs.Filter(rows, IsQuickenSplit);
      && |MappedTransactions(rows, parse, now)| == |GroupKeys(multi)| + |Seqs.Filter(rows, IsSingleRow)|
      && forall i | 0 <= i < |MappedTransactions(rows, parse, now)| ::
           var t := MappedTransactions(rows, parse, now)[i];
           SplitsSum(t.splits) == 0 && t.currency == "USD" && t.enterDate == now
  {
    var multi := Seqs.Filter(rows, IsQuickenSplit);
    var single := Seqs.Filter(rows, IsSingleRow);
    var m := MultiSplitTransactions(multi, parse, now);
    var s := SingleSplitTransactions(single, parse, now);
    var ts := MappedTransactions(rows, parse, now);
    assert ts == m + s;
    forall i | 0 <= i < |ts| ensures SplitsSum(ts[i].splits) == 0 && ts[i].currency == "USD" && ts[i].enterDate == now {
      if i < |m| {
        assert ts[i] == m[i];
      } else {
        assert ts[i] == s[i - |m|];
      }
    }
  }

  /**
   * Every row of the frame ends up in exactly one transaction: the split
   * rows through their groups, which hold two legs per row, the others on
   * their own; so the transactions hold two legs per row in all.
   */
  lemma MappedTransactionsCoverRows(rows: seq<TranRow>, parse: string -> Date, now: Timestamp)
    ensures var multi := Seqs.Filter(rows, IsQuickenSplit);
      && GroupSizes(multi, GroupKeys(multi)) + |Seqs.Filter(rows, IsSingleRow)| == |rows|
      && (forall i | 0 <= i < |GroupKeys(multi)| ::
            |MappedTransactions(rows, parse, now)[i].splits| == 2 * |GroupOf(multi, GroupKeys(multi)[i])|)
      && (forall i | |GroupKeys(multi)| <= i < |MappedTransactions(rows, parse, now)| ::
            |MappedTransactions(rows, parse, now)[i].splits| == 2)
  {
    var multi := Seqs.Filter(rows, IsQuickenSplit);
    GroupsPartitionRows(multi);
    Seqs.FilterComplementLength(rows, IsQuickenSplit, IsSingleRow);
  }
}
