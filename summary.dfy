/**
 * The dashboard aggregates of `crud/analytics/summary.py`: totals, spend by
 * bucket and by category, and the monthly income/expense series, each over the
 * transactions inside an optional inclusive date window.
 */
module Summary {
  import opened Wrappers
  import opened Dates
  import opened Grouping
  import opened Ledger

  /** SQL's `SUM` over a set of rows: NULL when there are no rows. */
  function SqlSum(rows: seq<Tx>, part: Tx -> int): Option<int> {
    if rows == [] then None else Some(SumVal(rows, part))
  }

  /** `_d0`, and equally `coalesce(..., 0)`: a NULL sum reads as 0.00. */
  function D0(x: Option<int>): int {
    if x.Some? then x.value else 0
  }

  datatype MoneyTotals = MoneyTotals(income: int, expense: int, net: int)

  /**
   * `get_totals`: income and expense of the rows in the window, and their
   * difference. A coalesced `SUM` is the plain sum, so an empty window gives zeros.
   */
  function GetTotals(txs: seq<Tx>, from: Option<Date>, to: Option<Date>): (r: MoneyTotals)
    ensures r.income == SumVal(Between(txs, from, to), IncomePart)
    ensures r.expense == SumVal(Between(txs, from, to), ExpensePart)
    ensures r.net == r.income - r.expense
  {
    var rows := Between(txs, from, to);
    var income := D0(SqlSum(rows, IncomePart));
    var expense := D0(SqlSum(rows, ExpensePart));
    MoneyTotals(income, expense, income - expense)
  }

  /** Every row a window keeps is a row of the ledger, so a valid ledger stays valid. */
  lemma BetweenValid(txs: seq<Tx>, from: Option<Date>, to: Option<Date>)
    requires ValidLedger(txs)
    ensures ValidLedger(Between(txs, from, to))
  {
    var rows := Between(txs, from, to);
    BetweenMembers(txs, from, to);
    forall i | 0 <= i < |rows| ensures ValidTx(rows[i]) {
      var j :| 0 <= j < |txs| && txs[j] == rows[i];
    }
  }

  /** Amounts are positive, so neither total can be negative. */
  lemma TotalsNonNegative(txs: seq<Tx>, from: Option<Date>, to: Option<Date>)
    requires ValidLedger(txs)
    ensures GetTotals(txs, from, to).income >= 0
    ensures GetTotals(txs, from, to).expense >= 0
  {
    var rows := Between(txs, from, to);
    BetweenValid(txs, from, to);
    SumValNonNegative(rows, IncomePart);
    SumValNonNegative(rows, ExpensePart);
  }

  /**
   * The totals are exactly the in-window transactions added up: one more
   * transaction changes them by its own amount when its date is inside the
   * window, and not at all otherwise.
   */
  lemma TotalsAppend(txs: seq<Tx>, t: Tx, from: Option<Date>, to: Option<Date>)
    ensures var before, after := GetTotals(txs, from, to), GetTotals(txs + [t], from, to);
      if InRange(t.occurredOn, from, to) then
        after.income == before.income + IncomePart(t) && after.expense == before.expense + ExpensePart(t)
      else after == before
  {
    assert (txs + [t])[..|txs|] == txs;
    var rows := Between(txs, from, to);
    if InRange(t.occurredOn, from, to) {
      assert Between(txs + [t], from, to) == rows + [t];
      assert (rows + [t])[..|rows|] == rows;
    } else {
      assert Between(txs + [t], from, to) == rows;
    }
  }

  /** The totals as sums of plain amounts over the income rows and the expense rows. */
  lemma TotalsByType(txs: seq<Tx>, from: Option<Date>, to: Option<Date>)
    ensures GetTotals(txs, from, to).income == SumVal(OfType(Between(txs, from, to), Income), AmountOf)
    ensures GetTotals(txs, from, to).expense == SumVal(OfType(Between(txs, from, to), Expense), AmountOf)
  {
    OfTypeSum(Between(txs, from, to));
  }

  /** The expense rows inside the window: what the bucket and category breakdowns group. */
  function ExpensesBetween(txs: seq<Tx>, from: Option<Date>, to: Option<Date>): seq<Tx> {
    OfType(Between(txs, from, to), Expense)
  }

  /**
   * `get_by_bucket`: one row per bucket (NULL included) of the window's
   * expenses, largest first, adding up to the window's total expense.
   */
  function GetByBucket(txs: seq<Tx>, from: Option<Date>, to: Option<Date>): (r: seq<Group<Option<string>>>)
    ensures NonIncreasing(r, TotalOf)
    ensures forall i :: 0 <= i < |r| ==>
      && r[i].key in MapSeq(ExpensesBetween(txs, from, to), BucketOf)
      && r[i].total == SumVal(Matching(ExpensesBetween(txs, from, to), BucketOf, r[i].key), AmountOf)
    ensures forall i :: 0 <= i < |ExpensesBetween(txs, from, to)| ==>
      exists j :: 0 <= j < |r| && r[j].key == ExpensesBetween(txs, from, to)[i].bucket
    ensures forall i, j :: 0 <= i < j < |r| ==> r[i].key != r[j].key
    ensures SumVal(r, TotalOf) == GetTotals(txs, from, to).expense
  {
    var rows := ExpensesBetween(txs, from, to);
    TotalsByType(txs, from, to);
    RankedGroups(rows, BucketOf)
  }

  /**
   * `get_by_category`: at most `topN` category rows of the window's expenses,
   * largest first; a category left out spent no more than any category shown.
   */
  function GetByCategory(txs: seq<Tx>, topN: nat, from: Option<Date>, to: Option<Date>): (r: seq<Group<Option<string>>>)
    ensures |r| <= topN
    ensures |r| == if topN < |KeysOf(ExpensesBetween(txs, from, to), CategoryOf)| then topN
                   else |KeysOf(ExpensesBetween(txs, from, to), CategoryOf)|
    ensures NonIncreasing(r, TotalOf)
    ensures forall i :: 0 <= i < |r| ==>
      && r[i].key in MapSeq(ExpensesBetween(txs, from, to), CategoryOf)
      && r[i].total == SumVal(Matching(ExpensesBetween(txs, from, to), CategoryOf, r[i].key), AmountOf)
    ensures forall i, j :: 0 <= i < j < |r| ==> r[i].key != r[j].key
    ensures forall i, j ::
      0 <= i < |ExpensesBetween(txs, from, to)| && 0 <= j < |r| && ExpensesBetween(txs, from, to)[i].category !in GroupKeys(r) ==>
      SumVal(Matching(ExpensesBetween(txs, from, to), CategoryOf, ExpensesBetween(txs, from, to)[i].category), AmountOf)
        <= r[j].total
  {
    TopGroups(ExpensesBetween(txs, from, to), CategoryOf, topN)
  }

  /** A row of the monthly series. */
  datatype MonthRow = MonthRow(month: MonthKey, income: int, expense: int, net: int)

  function RowMonth(m: MonthRow): MonthKey {
    m.month
  }

  function MonthRank(p: Period<MonthKey>): int {
    MonthIndex(p.key)
  }

  /**
   * The rows the monthly query returns: month groups of the window ordered by
   * month descending (the `YYYY-MM` text orders as the month index does), at
   * most `months` of them.
   */
  function MonthlyQuery(txs: seq<Tx>, months: nat, from: Option<Date>, to: Option<Date>): seq<Period<MonthKey>> {
    Take(SortDesc(PeriodsOf(Between(txs, from, to), MonthOfTx), MonthRank), months)
  }

  /** The loop body of `get_monthly`: the coalesced sums and their difference. */
  function ToMonthRow(p: Period<MonthKey>): MonthRow {
    var income := D0(Some(p.income));
    var expense := D0(Some(p.expense));
    MonthRow(p.key, income, expense, income - expense)
  }

  /** What `get_monthly` returns: the query rows converted and put back in ascending order. */
  function MonthlySeries(txs: seq<Tx>, months: nat, from: Option<Date>, to: Option<Date>): seq<MonthRow> {
    Reverse(MapSeq(MonthlyQuery(txs, months, from, to), ToMonthRow))
  }

  /** The month of every row of a valid ledger is a real month. */
  lemma MonthsValid(rows: seq<Tx>)
    requires ValidLedger(rows)
    ensures forall k :: k in MapSeq(rows, MonthOfTx) ==> 1 <= k.month <= 12
  {
    forall k | k in MapSeq(rows, MonthOfTx) ensures 1 <= k.month <= 12 {
      var i :| 0 <= i < |rows| && MapSeq(rows, MonthOfTx)[i] == k;
      assert ValidTx(rows[i]);
    }
  }

  /**
   * The monthly query, newest first: strictly decreasing months, each with its
   * sums, and a month it leaves out is older than every month it returns.
   */
  lemma MonthlyQueryFacts(txs: seq<Tx>, months: nat, from: Option<Date>, to: Option<Date>)
    requires ValidLedger(txs)
    ensures var q, rows := MonthlyQuery(txs, months, from, to), Between(txs, from, to);
      |q| == (if months < |KeysOf(rows, MonthOfTx)| then months else |KeysOf(rows, MonthOfTx)|)
    ensures var q := MonthlyQuery(txs, months, from, to);
      forall i, j :: 0 <= i < j < |q| ==> MonthIndex(q[j].key) < MonthIndex(q[i].key)
    ensures var q, rows := MonthlyQuery(txs, months, from, to), Between(txs, from, to);
      forall i :: 0 <= i < |q| ==>
        && q[i].key in MapSeq(rows, MonthOfTx)
        && q[i].income == SumVal(Matching(rows, MonthOfTx, q[i].key), IncomePart)
        && q[i].expense == SumVal(Matching(rows, MonthOfTx, q[i].key), ExpensePart)
    ensures var q, rows := MonthlyQuery(txs, months, from, to), Between(txs, from, to);
      forall i, j :: 0 <= i < |rows| && 0 <= j < |q| && MonthOfTx(rows[i]) !in MapSeq(q, PeriodKey) ==>
        MonthIndex(MonthOfTx(rows[i])) < MonthIndex(q[j].key)
  {
    MonthlyQueryRows(txs, months, from, to);
    MonthlyQueryOrder(txs, months, from, to);
  }

  lemma MonthlyQueryRows(txs: seq<Tx>, months: nat, from: Option<Date>, to: Option<Date>)
    ensures var q, rows := MonthlyQuery(txs, months, from, to), Between(txs, from, to);
      |q| == (if months < |KeysOf(rows, MonthOfTx)| then months else |KeysOf(rows, MonthOfTx)|)
    ensures var q, rows := MonthlyQuery(txs, months, from, to), Between(txs, from, to);
      forall i :: 0 <= i < |q| ==>
        && q[i].key in MapSeq(rows, MonthOfTx)
        && q[i].income == SumVal(Matching(rows, MonthOfTx, q[i].key), IncomePart)
        && q[i].expense == SumVal(Matching(rows, MonthOfTx, q[i].key), ExpensePart)
  {
    var rows := Between(txs, from, to);
    var all := SortDesc(PeriodsOf(rows, MonthOfTx), MonthRank);
    PeriodsRows(rows, MonthOfTx, all);
    var q := Take(all, months);
    assert q == MonthlyQuery(txs, months, from, to);
    assert |all| == |KeysOf(rows, MonthOfTx)|;
    forall i | 0 <= i < |q|
      ensures && q[i].key in MapSeq(rows, MonthOfTx)
              && q[i].income == SumVal(Matching(rows, MonthOfTx, q[i].key), IncomePart)
              && q[i].expense == SumVal(Matching(rows, MonthOfTx, q[i].key), ExpensePart)
    {
      assert q[i] == all[i];
    }
  }

  lemma MonthlyQueryOrder(txs: seq<Tx>, months: nat, from: Option<Date>, to: Option<Date>)
    requires ValidLedger(txs)
    ensures var q := MonthlyQuery(txs, months, from, to);
      forall i, j :: 0 <= i < j < |q| ==> MonthIndex(q[j].key) < MonthIndex(q[i].key)
    ensures var q, rows := MonthlyQuery(txs, months, from, to), Between(txs, from, to);
      forall i, j :: 0 <= i < |rows| && 0 <= j < |q| && MonthOfTx(rows[i]) !in MapSeq(q, PeriodKey) ==>
        MonthIndex(MonthOfTx(rows[i])) < MonthIndex(q[j].key)
  {
    var rows := Between(txs, from, to);
    var all := SortDesc(PeriodsOf(rows, MonthOfTx), MonthRank);
    BetweenValid(txs, from, to);
    MonthsValid(rows);
    SortedPeriodsFacts(rows, MonthOfTx, all);
    NewestMonths(rows, all, months);
  }

  /** Month groups sorted newest first, cut after `n`: strictly decreasing, and the cut drops only older months. */
  lemma NewestMonths(rows: seq<Tx>, all: seq<Period<MonthKey>>, n: nat)
    requires NonIncreasing(all, MonthRank)
    requires forall i :: 0 <= i < |all| ==> all[i].key in MapSeq(rows, MonthOfTx)
    requires forall k :: k in MapSeq(rows, MonthOfTx) ==> 1 <= k.month <= 12
    requires forall i, j :: 0 <= i < j < |all| ==> all[i].key != all[j].key
    requires forall i :: 0 <= i < |rows| ==> exists j :: 0 <= j < |all| && all[j].key == MonthOfTx(rows[i])
    ensures forall i, j :: 0 <= i < j < |Take(all, n)| ==> MonthIndex(Take(all, n)[j].key) < MonthIndex(Take(all, n)[i].key)
    ensures forall i, j :: 0 <= i < |rows| && 0 <= j < |Take(all, n)| && MonthOfTx(rows[i]) !in MapSeq(Take(all, n), PeriodKey) ==>
      MonthIndex(MonthOfTx(rows[i])) < MonthIndex(Take(all, n)[j].key)
  {
    var q := Take(all, n);
    forall i, j | 0 <= i < j < |q| ensures MonthIndex(q[j].key) < MonthIndex(q[i].key) {
      assert q[i] == all[i] && q[j] == all[j];
      MonthIndexInjective(q[i].key, q[j].key);
    }
    forall i, j | 0 <= i < |rows| && 0 <= j < |q| && MonthOfTx(rows[i]) !in MapSeq(q, PeriodKey)
      ensures MonthIndex(MonthOfTx(rows[i])) < MonthIndex(q[j].key)
    {
      var p :| 0 <= p < |all| && all[p].key == MonthOfTx(rows[i]);
      OlderThanKept(all, n, p, j);
    }
  }

  lemma OlderThanKept(all: seq<Period<MonthKey>>, n: nat, p: nat, j: nat)
    requires NonIncreasing(all, MonthRank)
    requires forall i, j :: 0 <= i < j < |all| ==> all[i].key != all[j].key
    requires p < |all| && j < |Take(all, n)|
    requires 1 <= all[p].key.month <= 12 && 1 <= all[j].key.month <= 12
    requires all[p].key !in MapSeq(Take(all, n), PeriodKey)
    ensures MonthIndex(all[p].key) < MonthIndex(Take(all, n)[j].key)
  {
    var q := Take(all, n);
    forall k | 0 <= k < |q| ensures q[k] != all[p] {
      assert MapSeq(q, PeriodKey)[k] == q[k].key;
    }
    TopPrefix(all, MonthRank, n, all[p]);
    assert q[j] in q;
    assert q[j] == all[j];
    MonthIndexInjective(all[p].key, q[j].key);
  }

  /**
   * `get_monthly`'s promise: at most `months` rows, strictly ascending by month,
   * only months with transactions in the window, each with its sums and
   * `net = income - expense`, and every month left out older than all returned.
   */
  lemma MonthlySeriesFacts(txs: seq<Tx>, months: nat, from: Option<Date>, to: Option<Date>)
    requires ValidLedger(txs)
    ensures var out, rows := MonthlySeries(txs, months, from, to), Between(txs, from, to);
      && |out| <= months
      && |out| == (if months < |KeysOf(rows, MonthOfTx)| then months else |KeysOf(rows, MonthOfTx)|)
    ensures var out := MonthlySeries(txs, months, from, to);
      forall i, j :: 0 <= i < j < |out| ==> MonthIndex(out[i].month) < MonthIndex(out[j].month)
    ensures var out, rows := MonthlySeries(txs, months, from, to), Between(txs, from, to);
      forall i :: 0 <= i < |out| ==>
        && out[i].month in MapSeq(rows, MonthOfTx)
        && out[i].income == SumVal(Matching(rows, MonthOfTx, out[i].month), IncomePart)
        && out[i].expense == SumVal(Matching(rows, MonthOfTx, out[i].month), ExpensePart)
        && out[i].net == out[i].income - out[i].expense
    ensures var out, rows := MonthlySeries(txs, months, from, to), Between(txs, from, to);
      forall i, j :: 0 <= i < |rows| && 0 <= j < |out| && MonthOfTx(rows[i]) !in MapSeq(out, RowMonth) ==>
        MonthIndex(MonthOfTx(rows[i])) < MonthIndex(out[j].month)
  {
    MonthlySeriesRows(txs, months, from, to);
    MonthlySeriesOrder(txs, months, from, to);
  }

  lemma MonthlySeriesRows(txs: seq<Tx>, months: nat, from: Option<Date>, to: Option<Date>)
    ensures var out, rows := MonthlySeries(txs, months, from, to), Between(txs, from, to);
      && |out| <= months
      && |out| == (if months < |KeysOf(rows, MonthOfTx)| then months else |KeysOf(rows, MonthOfTx)|)
    ensures var out, rows := MonthlySeries(txs, months, from, to), Between(txs, from, to);
      forall i :: 0 <= i < |out| ==>
        && out[i].month in MapSeq(rows, MonthOfTx)
        && out[i].income == SumVal(Matching(rows, MonthOfTx, out[i].month), IncomePart)
        && out[i].expense == SumVal(Matching(rows, MonthOfTx, out[i].month), ExpensePart)
        && out[i].net == out[i].income - out[i].expense
  {
    var rows, q := Between(txs, from, to), MonthlyQuery(txs, months, from, to);
    MonthlyQueryRows(txs, months, from, to);
    ReversedRows(rows, q, MonthlySeries(txs, months, from, to));
  }

  lemma MonthlySeriesOrder(txs: seq<Tx>, months: nat, from: Option<Date>, to: Option<Date>)
    requires ValidLedger(txs)
    ensures var out := MonthlySeries(txs, months, from, to);
      forall i, j :: 0 <= i < j < |out| ==> MonthIndex(out[i].month) < MonthIndex(out[j].month)
    ensures var out, rows := MonthlySeries(txs, months, from, to), Between(txs, from, to);
      forall i, j :: 0 <= i < |rows| && 0 <= j < |out| && MonthOfTx(rows[i]) !in MapSeq(out, RowMonth) ==>
        MonthIndex(MonthOfTx(rows[i])) < MonthIndex(out[j].month)
  {
    var rows, q := Between(txs, from, to), MonthlyQuery(txs, months, from, to);
    MonthlyQueryFacts(txs, months, from, to);
    ReversedOrder(rows, q, MonthlySeries(txs, months, from, to));
  }

  /** Converting and reversing the newest-first rows keeps each row's sums and adds `net`. */
  lemma ReversedRows(rows: seq<Tx>, q: seq<Period<MonthKey>>, out: seq<MonthRow>)
    requires out == Reverse(MapSeq(q, ToMonthRow))
    requires forall i :: 0 <= i < |q| ==>
        && q[i].key in MapSeq(rows, MonthOfTx)
        && q[i].income == SumVal(Matching(rows, MonthOfTx, q[i].key), IncomePart)
        && q[i].expense == SumVal(Matching(rows, MonthOfTx, q[i].key), ExpensePart)
    ensures |out| == |q|
    ensures forall i :: 0 <= i < |out| ==>
        && out[i].month in MapSeq(rows, MonthOfTx)
        && out[i].income == SumVal(Matching(rows, MonthOfTx, out[i].month), IncomePart)
        && out[i].expense == SumVal(Matching(rows, MonthOfTx, out[i].month), ExpensePart)
        && out[i].net == out[i].income - out[i].expense
  {
    assert forall i :: 0 <= i < |out| ==> out[i] == ToMonthRow(q[|q| - 1 - i]);
  }

  /** Reversing the newest-first rows makes them oldest first; a month left out stays older than all. */
  lemma ReversedOrder(rows: seq<Tx>, q: seq<Period<MonthKey>>, out: seq<MonthRow>)
    requires out == Reverse(MapSeq(q, ToMonthRow))
    requires forall i, j :: 0 <= i < j < |q| ==> MonthIndex(q[j].key) < MonthIndex(q[i].key)
    requires forall i, j :: 0 <= i < |rows| && 0 <= j < |q| && MonthOfTx(rows[i]) !in MapSeq(q, PeriodKey) ==>
        MonthIndex(MonthOfTx(rows[i])) < MonthIndex(q[j].key)
    ensures forall i, j :: 0 <= i < j < |out| ==> MonthIndex(out[i].month) < MonthIndex(out[j].month)
    ensures forall i, j :: 0 <= i < |rows| && 0 <= j < |out| && MonthOfTx(rows[i]) !in MapSeq(out, RowMonth) ==>
        MonthIndex(MonthOfTx(rows[i])) < MonthIndex(out[j].month)
  {
    assert forall i :: 0 <= i < |out| ==> out[i].month == q[|q| - 1 - i].key;
    forall i, j | 0 <= i < |rows| && 0 <= j < |out| && MonthOfTx(rows[i]) !in MapSeq(out, RowMonth)
      ensures MonthIndex(MonthOfTx(rows[i])) < MonthIndex(out[j].month)
    {
      var m := MonthOfTx(rows[i]);
      forall k | 0 <= k < |q| ensures MapSeq(q, PeriodKey)[k] != m {
        assert MapSeq(out, RowMonth)[|q| - 1 - k] == q[k].key;
      }
    }
  }

  /** `get_monthly`: converts the query rows one by one, then reverses them. */
  method GetMonthly(txs: seq<Tx>, months: nat, from: Option<Date>, to: Option<Date>) returns (out: seq<MonthRow>)
    ensures out == MonthlySeries(txs, months, from, to)
  {
    var acc := MonthRows(MonthlyQuery(txs, months, from, to));
    out := Reverse(acc);
  }

  /** The loop of `get_monthly`: one row per query row, in the query's order. */
  method MonthRows(rows: seq<Period<MonthKey>>) returns (acc: seq<MonthRow>)
    ensures acc == MapSeq(rows, ToMonthRow)
  {
    acc := [];
    var i := 0;
    while i < |rows|
      invariant 0 <= i <= |rows|
      invariant acc == MapSeq(rows[..i], ToMonthRow)
    {
      var r := rows[i];
      var income := D0(Some(r.income));
      var expense := D0(Some(r.expense));
      acc := acc + [MonthRow(r.key, income, expense, income - expense)];
      i := i + 1;
    }
    assert rows[..i] == rows;
  }
}
