/**
 * The over-budget alerts of `crud/alerts.py`: each budget is joined with its
 * category's expense in one calendar month, and the budgets spent beyond their
 * limit are reported, most over budget first.
 */
module Alerts {
  import opened Wrappers
  import opened Dates
  import opened Grouping
  import opened Ledger
  import opened Summary

  /** A row of the `budgets` table: one monthly limit (in cents) per category. */
  datatype Budget = Budget(category: string, monthlyLimit: int)

  /** The schema's guarantees: positive limits and one budget per category. */
  predicate ValidBudgets(budgets: seq<Budget>) {
    && (forall i :: 0 <= i < |budgets| ==> budgets[i].monthlyLimit > 0)
    && (forall i, j :: 0 <= i < j < |budgets| ==> budgets[i].category != budgets[j].category)
  }

  datatype AlertRow = AlertRow(category: string, monthlyLimit: int, spent: int, overBy: int)

  function OverBy(a: AlertRow): int {
    a.overBy
  }

  function AlertCategory(a: AlertRow): string {
    a.category
  }

  /**
   * `month_bounds`: the first and the last day of `d`'s month. Python cannot
   * build the first day of the month after December 9999, so that month has none.
   */
  function MonthBounds(d: Date): (r: Option<(Date, Date)>)
    requires ValidDate(d)
    ensures r.None? <==> d.year == MaxYear && d.month == 12
    ensures r.Some? ==> r.value.0 == Date(d.year, d.month, 1) && r.value.1 == Date(d.year, d.month, DaysInMonth(d.year, d.month))
    ensures r.Some? ==> DateLe(r.value.0, d) && DateLe(d, r.value.1)
    ensures r.Some? ==> forall x :: ValidDate(x) ==> (DateLe(r.value.0, x) && DateLe(x, r.value.1) <==> MonthOf(x) == MonthOf(d))
  {
    var start := Date(d.year, d.month, 1);
    var next := if d.month == 12 then MakeDate(d.year + 1, 1, 1) else MakeDate(d.year, d.month + 1, 1);
    if next.None? then None
    else
      var end := PrevDay(next.value);
      assert ValidDate(Date(d.year, d.month, DaysInMonth(d.year, d.month)));
      Some((start, end))
  }

  /** The expense of category `c` between `start` and `end`, both inclusive. */
  function MonthSpend(txs: seq<Tx>, c: string, start: Date, end: Date): int {
    SumVal(Matching(ExpensesBetween(txs, Some(start), Some(end)), CategoryOf, Some(c)), AmountOf)
  }

  /** The `spent_stmt` subquery: expense per category in the window. */
  function SpentGroups(txs: seq<Tx>, start: Date, end: Date): seq<Group<Option<string>>> {
    GroupBy(ExpensesBetween(txs, Some(start), Some(end)), CategoryOf, AmountOf)
  }

  /** The sum of the first group with key `k`, or NULL when no group has it. */
  function Lookup<K(==)>(gs: seq<Group<K>>, k: K): (r: Option<int>)
    ensures r.Some? ==> exists j :: 0 <= j < |gs| && gs[j].key == k && gs[j].total == r.value
    ensures r.None? ==> forall j :: 0 <= j < |gs| ==> gs[j].key != k
  {
    if gs == [] then None
    else if gs[0].key == k then Some(gs[0].total)
    else
      var r := Lookup(gs[1..], k);
      assert forall j :: 1 <= j < |gs| ==> gs[1..][j - 1] == gs[j];
      r
  }

  /** A budget joined with its spend: `coalesce(spent, 0)` of the left outer join. */
  datatype JoinRow = JoinRow(category: string, monthlyLimit: int, spent: int)

  function JoinRows(budgets: seq<Budget>, spent: seq<Group<Option<string>>>): (r: seq<JoinRow>)
    ensures |r| == |budgets|
    ensures forall i :: 0 <= i < |budgets| ==>
      r[i] == JoinRow(budgets[i].category, budgets[i].monthlyLimit, D0(Lookup(spent, Some(budgets[i].category))))
  {
    if budgets == [] then []
    else
      var b := budgets[|budgets| - 1];
      JoinRows(budgets[..|budgets| - 1], spent) + [JoinRow(b.category, b.monthlyLimit, D0(Lookup(spent, Some(b.category))))]
  }

  /** The join gives every budget exactly its category's spend, and 0 when nothing was spent. */
  lemma JoinedSpend(txs: seq<Tx>, start: Date, end: Date, c: string)
    ensures D0(Lookup(SpentGroups(txs, start, end), Some(c))) == MonthSpend(txs, c, start, end)
  {
    var rows := ExpensesBetween(txs, Some(start), Some(end));
    var g := SpentGroups(txs, start, end);
    GroupByRows(rows, CategoryOf, AmountOf);
    var r := Lookup(g, Some(c));
    if r.None? {
      forall i | 0 <= i < |rows| ensures CategoryOf(rows[i]) != Some(c) {
        var j :| 0 <= j < |g| && g[j].key == CategoryOf(rows[i]);
      }
      MatchingNone(rows, CategoryOf, Some(c));
    }
  }

  /** The alert a joined row gives. */
  function AlertOf(row: JoinRow): AlertRow {
    AlertRow(row.category, row.monthlyLimit, row.spent, row.spent - row.monthlyLimit)
  }

  /** The loop's filter: an alert for each joined row whose spend exceeds its limit, in order. */
  function OverLimit(rows: seq<JoinRow>): seq<AlertRow> {
    if rows == [] then []
    else
      var row := rows[|rows| - 1];
      OverLimit(rows[..|rows| - 1]) + (if row.spent > row.monthlyLimit then [AlertOf(row)] else [])
  }

  /** The joined row an alert was made from. */
  function RowOf(a: AlertRow): JoinRow {
    JoinRow(a.category, a.monthlyLimit, a.spent)
  }

  /** One more row of the loop: its alert, if over its limit, goes at the end. */
  lemma OverLimitStep(rows: seq<JoinRow>, i: nat)
    requires i < |rows|
    ensures OverLimit(rows[..i + 1]) == OverLimit(rows[..i]) + (if rows[i].spent > rows[i].monthlyLimit then [AlertOf(rows[i])] else [])
  {
    assert rows[..i + 1][..i] == rows[..i];
  }

  /** Every alert of the filter comes from a row over its limit. */
  lemma {:induction false} OverLimitSound(rows: seq<JoinRow>)
    ensures forall i :: 0 <= i < |OverLimit(rows)| ==>
      && RowOf(OverLimit(rows)[i]) in rows
      && OverLimit(rows)[i].spent > OverLimit(rows)[i].monthlyLimit
      && OverLimit(rows)[i].overBy == OverLimit(rows)[i].spent - OverLimit(rows)[i].monthlyLimit
  {
    if rows != [] {
      var init := rows[..|rows| - 1];
      assert rows == init + [rows[|rows| - 1]];
      OverLimitSound(init);
    }
  }

  /** Every row over its limit gives an alert. */
  lemma {:induction false} OverLimitComplete(rows: seq<JoinRow>)
    ensures forall j :: 0 <= j < |rows| && rows[j].spent > rows[j].monthlyLimit ==> AlertOf(rows[j]) in OverLimit(rows)
  {
    if rows != [] {
      var init := rows[..|rows| - 1];
      OverLimitComplete(init);
      assert forall j :: 0 <= j < |init| ==> init[j] == rows[j];
    }
  }

  /** The filter repeats no category that the rows do not repeat. */
  lemma {:induction false} OverLimitDistinct(rows: seq<JoinRow>)
    requires forall i, j :: 0 <= i < j < |rows| ==> rows[i].category != rows[j].category
    ensures forall i, j :: 0 <= i < j < |OverLimit(rows)| ==> OverLimit(rows)[i].category != OverLimit(rows)[j].category
  {
    if rows != [] {
      var init, row := rows[..|rows| - 1], rows[|rows| - 1];
      assert rows == init + [row];
      OverLimitDistinct(init);
      OverLimitSound(init);
      var a := OverLimit(init);
      if row.spent > row.monthlyLimit {
        forall i | 0 <= i < |a| ensures a[i].category != row.category {
          var j :| 0 <= j < |init| && init[j] == RowOf(a[i]);
          assert rows[j] == init[j];
        }
        assert OverLimit(rows) == a + [AlertOf(row)];
      }
    }
  }

  /** What `get_over_budget_alerts` returns for the month `start`..`end`. */
  function AlertsFor(txs: seq<Tx>, budgets: seq<Budget>, start: Date, end: Date): seq<AlertRow> {
    SortDesc(OverLimit(JoinRows(budgets, SpentGroups(txs, start, end))), OverBy)
  }

  /**
   * Each alert is a budget spent beyond its limit: it carries that budget's
   * limit and month spend, and `over_by = spent - limit > 0`. The alerts are
   * sorted by `over_by`, largest first.
   */
  lemma AlertsSound(txs: seq<Tx>, budgets: seq<Budget>, start: Date, end: Date)
    ensures var a := AlertsFor(txs, budgets, start, end);
      forall i :: 0 <= i < |a| ==>
        && a[i].overBy == a[i].spent - a[i].monthlyLimit
        && a[i].overBy > 0
        && exists j :: 0 <= j < |budgets| && budgets[j].category == a[i].category
            && budgets[j].monthlyLimit == a[i].monthlyLimit && a[i].spent == MonthSpend(txs, budgets[j].category, start, end)
    ensures NonIncreasing(AlertsFor(txs, budgets, start, end), OverBy)
  {
    var a := AlertsFor(txs, budgets, start, end);
    forall i | 0 <= i < |a| ensures
      && a[i].overBy == a[i].spent - a[i].monthlyLimit
      && a[i].overBy > 0
      && exists j :: 0 <= j < |budgets| && budgets[j].category == a[i].category
          && budgets[j].monthlyLimit == a[i].monthlyLimit && a[i].spent == MonthSpend(txs, budgets[j].category, start, end)
    {
      AlertSource(txs, budgets, start, end, i);
    }
  }

  /** The budget behind one alert. */
  lemma AlertSource(txs: seq<Tx>, budgets: seq<Budget>, start: Date, end: Date, i: nat)
    requires i < |AlertsFor(txs, budgets, start, end)|
    ensures var x := AlertsFor(txs, budgets, start, end)[i];
      && x.overBy == x.spent - x.monthlyLimit
      && x.overBy > 0
      && exists j :: 0 <= j < |budgets| && budgets[j].category == x.category
          && budgets[j].monthlyLimit == x.monthlyLimit && x.spent == MonthSpend(txs, budgets[j].category, start, end)
  {
    var rows := JoinRows(budgets, SpentGroups(txs, start, end));
    var f := OverLimit(rows);
    var a := AlertsFor(txs, budgets, start, end);
    OverLimitSound(rows);
    assert a[i] in multiset(f);
    var p :| 0 <= p < |f| && f[p] == a[i];
    var j :| 0 <= j < |rows| && rows[j] == RowOf(f[p]);
    JoinedSpend(txs, start, end, budgets[j].category);
  }

  /** Every budget spent beyond its limit has an alert with its limit and its spend. */
  lemma AlertsComplete(txs: seq<Tx>, budgets: seq<Budget>, start: Date, end: Date)
    ensures var a := AlertsFor(txs, budgets, start, end);
      forall j :: 0 <= j < |budgets| && MonthSpend(txs, budgets[j].category, start, end) > budgets[j].monthlyLimit ==>
        exists i :: (0 <= i < |a| && a[i].category == budgets[j].category &&
          a[i].monthlyLimit == budgets[j].monthlyLimit && a[i].spent == MonthSpend(txs, budgets[j].category, start, end))
  {
    var rows := JoinRows(budgets, SpentGroups(txs, start, end));
    var f := OverLimit(rows);
    var a := AlertsFor(txs, budgets, start, end);
    OverLimitComplete(rows);
    forall j | 0 <= j < |budgets| && MonthSpend(txs, budgets[j].category, start, end) > budgets[j].monthlyLimit
      ensures exists i :: (0 <= i < |a| && a[i].category == budgets[j].category &&
        a[i].monthlyLimit == budgets[j].monthlyLimit && a[i].spent == MonthSpend(txs, budgets[j].category, start, end))
    {
      JoinedSpend(txs, start, end, budgets[j].category);
      assert AlertOf(rows[j]) in f;
      var p :| 0 <= p < |f| && f[p] == AlertOf(rows[j]);
      assert f[p] in multiset(a);
      var i :| 0 <= i < |a| && a[i] == f[p];
    }
  }

  /** With one budget per category, no category is alerted twice. */
  lemma AlertsUnique(txs: seq<Tx>, budgets: seq<Budget>, start: Date, end: Date)
    requires ValidBudgets(budgets)
    ensures var a := AlertsFor(txs, budgets, start, end);
      forall i, j :: 0 <= i < j < |a| ==> a[i].category != a[j].category
  {
    var rows := JoinRows(budgets, SpentGroups(txs, start, end));
    OverLimitDistinct(rows);
    KeysDistinctPermutation(OverLimit(rows), AlertsFor(txs, budgets, start, end), AlertCategory);
  }

  /** With one budget per category: a budget is alerted if and only if its month spend exceeds its limit. */
  lemma AlertIff(txs: seq<Tx>, budgets: seq<Budget>, start: Date, end: Date, j: nat)
    requires ValidBudgets(budgets)
    requires j < |budgets|
    ensures (exists i :: 0 <= i < |AlertsFor(txs, budgets, start, end)| && AlertsFor(txs, budgets, start, end)[i].category == budgets[j].category)
        <==> MonthSpend(txs, budgets[j].category, start, end) > budgets[j].monthlyLimit
  {
    var a := AlertsFor(txs, budgets, start, end);
    AlertsComplete(txs, budgets, start, end);
    if exists i :: 0 <= i < |a| && a[i].category == budgets[j].category {
      var i :| 0 <= i < |a| && a[i].category == budgets[j].category;
      AlertSource(txs, budgets, start, end, i);
      var k :| 0 <= k < |budgets| && budgets[k].category == a[i].category
        && budgets[k].monthlyLimit == a[i].monthlyLimit && a[i].spent == MonthSpend(txs, budgets[k].category, start, end);
      assert k == j;
    }
  }

  /** Limits are positive, so a budget whose category had no expense this month never alerts. */
  lemma NoSpendNoAlert(txs: seq<Tx>, budgets: seq<Budget>, start: Date, end: Date, j: nat)
    requires ValidBudgets(budgets)
    requires j < |budgets|
    requires MonthSpend(txs, budgets[j].category, start, end) == 0
    ensures forall i :: 0 <= i < |AlertsFor(txs, budgets, start, end)| ==>
      AlertsFor(txs, budgets, start, end)[i].category != budgets[j].category
  {
    AlertIff(txs, budgets, start, end, j);
  }

  /** The filter gives at most one alert per joined row. */
  lemma {:induction false} OverLimitLength(rows: seq<JoinRow>)
    ensures |OverLimit(rows)| <= |rows|
  {
    if rows != [] {
      OverLimitLength(rows[..|rows| - 1]);
    }
  }

  /** Two expenses of one category inside the window: the month's expense of that category is their sum. */
  lemma TwoExpenses(t1: Tx, t2: Tx, c: string, start: Date, end: Date)
    requires t1.txType == Expense && t2.txType == Expense && t1.category == Some(c) && t2.category == Some(c)
    requires InRange(t1.occurredOn, Some(start), Some(end)) && InRange(t2.occurredOn, Some(start), Some(end))
    ensures MonthSpend([t1, t2], c, start, end) == t1.amount + t2.amount
  {
    var txs := [t1, t2];
    assert txs[..1] == [t1];
    assert [t1][..0] == [];
    assert Between([t1], Some(start), Some(end)) == [t1];
    assert Between(txs, Some(start), Some(end)) == txs;
    assert OfType([t1], Expense) == [t1];
    assert OfType(txs, Expense) == txs;
    assert Matching([t1], CategoryOf, Some(c)) == [t1];
    assert Matching(txs, CategoryOf, Some(c)) == txs;
    assert SumVal([t1], AmountOf) == t1.amount;
  }

  /**
   * The scenario of a 30.00 limit on dining out and two dining-out expenses of
   * 20.00 and 25.00 in the month: one alert, 15.00 over budget.
   */
  lemma DiningOutScenario(day: Date)
    requires ValidDate(day) && !(day.year == MaxYear && day.month == 12)
    ensures var month := MonthBounds(day).value;
      var txs := [Tx(Expense, 2000, "EUR", Some("dining_out"), Some("controllable"), day, None),
                  Tx(Expense, 2500, "EUR", Some("dining_out"), Some("controllable"), day, None)];
      AlertsFor(txs, [Budget("dining_out", 3000)], month.0, month.1) == [AlertRow("dining_out", 3000, 4500, 1500)]
  {
    var month := MonthBounds(day).value;
    var t1 := Tx(Expense, 2000, "EUR", Some("dining_out"), Some("controllable"), day, None);
    var t2 := Tx(Expense, 2500, "EUR", Some("dining_out"), Some("controllable"), day, None);
    var txs, budgets := [t1, t2], [Budget("dining_out", 3000)];
    var a := AlertsFor(txs, budgets, month.0, month.1);
    TwoExpenses(t1, t2, "dining_out", month.0, month.1);
    assert MonthSpend(txs, "dining_out", month.0, month.1) == 4500;
    AlertsComplete(txs, budgets, month.0, month.1);
    OverLimitLength(JoinRows(budgets, SpentGroups(txs, month.0, month.1)));
    assert |a| == 1;
    AlertSource(txs, budgets, month.0, month.1, 0);
  }

  /** `get_over_budget_alerts`: the month's bounds, the join, the filtering loop, then the sort by `over_by`. */
  method GetOverBudgetAlerts(txs: seq<Tx>, budgets: seq<Budget>, forDate: Date) returns (r: Option<seq<AlertRow>>)
    requires ValidDate(forDate)
    ensures r.None? <==> MonthBounds(forDate).None?
    ensures r.Some? ==> r.value == AlertsFor(txs, budgets, MonthBounds(forDate).value.0, MonthBounds(forDate).value.1)
  {
    var bounds := MonthBounds(forDate);
    if bounds.None? {
      return None;
    }
    var start, end := bounds.value.0, bounds.value.1;
    var alerts := FilterOverLimit(JoinRows(budgets, SpentGroups(txs, start, end)));
    alerts := SortDesc(alerts, OverBy);
    return Some(alerts);
  }

  /** The loop of `get_over_budget_alerts`: an alert for each joined row over its limit, in order. */
  method FilterOverLimit(rows: seq<JoinRow>) returns (alerts: seq<AlertRow>)
    ensures alerts == OverLimit(rows)
  {
    alerts := [];
    var i := 0;
    while i < |rows|
      invariant 0 <= i <= |rows|
      invariant alerts == OverLimit(rows[..i])
    {
      var row := rows[i];
      OverLimitStep(rows, i);
      if row.spent > row.monthlyLimit {
        alerts := alerts + [AlertRow(row.category, row.monthlyLimit, row.spent, row.spent - row.monthlyLimit)];
      }
      i := i + 1;
    }
    assert rows[..i] == rows;
  }
}
