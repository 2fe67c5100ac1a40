/**
 * The savings-goal planner of `crud/goal_planner.py`: month arithmetic, the
 * two queries it runs, and the plan it derives from a target amount, a target
 * date and the recent monthly net savings.
 */
module GoalPlanner {
  import opened Wrappers
  import opened Dates
  import opened Grouping
  import opened Ledger
  import opened Summary
  import opened Decimals
  import Alerts

  /* ---------------------------------------------------------------------- */
  /* Month arithmetic                                                         */
  /* ---------------------------------------------------------------------- */

  /** `month_start`: the first day of `d`'s month. */
  function MonthStart(d: Date): (r: Date)
    requires ValidDate(d)
    ensures ValidDate(r) && r.day == 1 && MonthOf(r) == MonthOf(d)
    ensures DateLe(r, d) && forall x :: ValidDate(x) && MonthOf(x) == MonthOf(d) ==> DateLe(r, x)
  {
    Date(d.year, d.month, 1)
  }

  /**
   * `add_months`: the first day of the month `months` after `d`'s (before it
   * when negative). Python's `//` and `%` by 12 floor, as Dafny's do; `date`
   * raises outside years 1..9999, which is `None` here.
   */
  function AddMonths(d: Date, months: int): (r: Option<Date>)
    ensures r.Some? ==> ValidDate(r.value) && r.value.day == 1
    ensures r.Some? ==> MonthIndex(MonthOf(r.value)) == MonthIndex(MonthOf(d)) + months
    ensures r.None? <==> !(MinYear * 12 <= MonthIndex(MonthOf(d)) + months <= MaxYear * 12 + 11)
  {
    var total := d.month - 1 + months;
    var y := d.year + total / 12;
    var m := total % 12 + 1;
    assert total == total / 12 * 12 + total % 12;
    MakeDate(y, m, 1)
  }

  /** `months_between_inclusive`: how many calendar months `start`'s to `end`'s span, both counted. */
  function MonthsBetweenInclusive(start: Date, end: Date): (r: int)
    ensures r == MonthIndex(MonthOf(end)) - MonthIndex(MonthOf(start)) + 1
  {
    (end.year - start.year) * 12 + (end.month - start.month) + 1
  }

  /** The two month functions agree: `k` months on from `s` is the `(k+1)`-th month counting `s`'s. */
  lemma MonthsBetweenAddMonths(s: Date, k: int)
    requires AddMonths(s, k).Some?
    ensures MonthsBetweenInclusive(s, AddMonths(s, k).value) == k + 1
  {
  }

  /** Counting from a month to one not before it gives at least one month, exactly one for the same month. */
  lemma MonthsBetweenPositive(start: Date, end: Date)
    requires ValidDate(start) && ValidDate(end)
    requires DateLe(start, end)
    ensures MonthsBetweenInclusive(start, end) >= 1
    ensures MonthsBetweenInclusive(start, end) == 1 <==> MonthOf(start) == MonthOf(end)
  {
    MonthIndexInjective(MonthOf(start), MonthOf(end));
  }

  /* ---------------------------------------------------------------------- */
  /* The two queries                                                          */
  /* ---------------------------------------------------------------------- */

  /**
   * `get_recent_monthly_net`: the same query and loop as `get_monthly`
   * without date bounds; the newest `months` months, oldest first.
   */
  method GetRecentMonthlyNet(txs: seq<Tx>, months: nat) returns (out: seq<MonthRow>)
    requires ValidLedger(txs)
    ensures out == MonthlySeries(txs, months, None, None)
    ensures |out| == if months < |KeysOf(txs, MonthOfTx)| then months else |KeysOf(txs, MonthOfTx)|
    ensures forall i, j :: 0 <= i < j < |out| ==> MonthIndex(out[i].month) < MonthIndex(out[j].month)
    ensures forall i :: 0 <= i < |out| ==> out[i].net == out[i].income - out[i].expense
    ensures forall i, j :: 0 <= i < |txs| && 0 <= j < |out| && MonthOfTx(txs[i]) !in MapSeq(out, RowMonth) ==>
      MonthIndex(MonthOfTx(txs[i])) < MonthIndex(out[j].month)
  {
    out := GetMonthly(txs, months, None, None);
    MonthlySeriesFacts(txs, months, None, None);
    UnboundedBetween(txs);
  }

  /** Without bounds the window keeps every row. */
  lemma {:induction false} UnboundedBetween(txs: seq<Tx>)
    ensures Between(txs, None, None) == txs
  {
    if txs != [] {
      UnboundedBetween(txs[..|txs| - 1]);
      assert txs == txs[..|txs| - 1] + [txs[|txs| - 1]];
    }
  }

  /** `Transaction.bucket.in_(buckets)`: a NULL bucket is in no list. */
  predicate InBuckets(t: Tx, buckets: seq<string>) {
    t.bucket.Some? && t.bucket.value in buckets
  }

  function WithBuckets(txs: seq<Tx>, buckets: seq<string>): seq<Tx> {
    if txs == [] then []
    else
      var init := WithBuckets(txs[..|txs| - 1], buckets);
      if InBuckets(txs[|txs| - 1], buckets) then init + [txs[|txs| - 1]] else init
  }

  /** The bucket filter keeps exactly the rows whose bucket is listed, in order. */
  lemma {:induction false} WithBucketsMembers(txs: seq<Tx>, buckets: seq<string>)
    ensures forall i :: 0 <= i < |WithBuckets(txs, buckets)| ==>
      WithBuckets(txs, buckets)[i] in txs && InBuckets(WithBuckets(txs, buckets)[i], buckets)
    ensures forall i :: 0 <= i < |txs| && InBuckets(txs[i], buckets) ==> txs[i] in WithBuckets(txs, buckets)
  {
    if txs != [] {
      WithBucketsMembers(txs[..|txs| - 1], buckets);
      assert txs == txs[..|txs| - 1] + [txs[|txs| - 1]];
    }
  }

  /** The rows `get_top_spend_categories` groups: expenses of the window whose bucket is listed. */
  function CutRows(txs: seq<Tx>, from: Date, to: Date, buckets: seq<string>): seq<Tx> {
    WithBuckets(ExpensesBetween(txs, Some(from), Some(to)), buckets)
  }

  /**
   * `get_top_spend_categories`: the `topN` categories of those rows with the
   * largest spend, or all of them when there are fewer, largest first; a
   * category left out spent no more than any shown.
   */
  function TopSpendCategories(txs: seq<Tx>, from: Date, to: Date, buckets: seq<string>, topN: nat): (r: seq<Group<Option<string>>>)
    ensures var n := |KeysOf(CutRows(txs, from, to, buckets), CategoryOf)|;
      |r| == if topN < n then topN else n
    ensures NonIncreasing(r, TotalOf)
    ensures forall i :: 0 <= i < |r| ==>
      && r[i].key in MapSeq(CutRows(txs, from, to, buckets), CategoryOf)
      && r[i].total == SumVal(Matching(CutRows(txs, from, to, buckets), CategoryOf, r[i].key), AmountOf)
    ensures forall i, j :: 0 <= i < j < |r| ==> r[i].key != r[j].key
    ensures forall i, j ::
      0 <= i < |CutRows(txs, from, to, buckets)| && 0 <= j < |r| && CutRows(txs, from, to, buckets)[i].category !in GroupKeys(r) ==>
      SumVal(Matching(CutRows(txs, from, to, buckets), CategoryOf, CutRows(txs, from, to, buckets)[i].category), AmountOf)
        <= r[j].total
  {
    TopGroups(CutRows(txs, from, to, buckets), CategoryOf, topN)
  }

  /** Every row behind a cut target is an expense of the window with a listed bucket. */
  lemma CutRowsFacts(txs: seq<Tx>, from: Date, to: Date, buckets: seq<string>)
    ensures forall t :: t in CutRows(txs, from, to, buckets) ==>
      && t in txs && t.txType == Expense && InRange(t.occurredOn, Some(from), Some(to)) && InBuckets(t, buckets)
    ensures forall i ::
      0 <= i < |txs| && txs[i].txType == Expense && InRange(txs[i].occurredOn, Some(from), Some(to)) && InBuckets(txs[i], buckets) ==>
      txs[i] in CutRows(txs, from, to, buckets)
  {
    var between := Between(txs, Some(from), Some(to));
    var expenses := ExpensesBetween(txs, Some(from), Some(to));
    BetweenMembers(txs, Some(from), Some(to));
    OfTypeMembers(between, Expense);
    WithBucketsMembers(expenses, buckets);
    forall t | t in CutRows(txs, from, to, buckets)
      ensures t in txs && t.txType == Expense && InRange(t.occurredOn, Some(from), Some(to)) && InBuckets(t, buckets)
    {
      var i :| 0 <= i < |CutRows(txs, from, to, buckets)| && CutRows(txs, from, to, buckets)[i] == t;
      assert t in expenses;
      var j :| 0 <= j < |expenses| && expenses[j] == t;
      assert t in between;
      var k :| 0 <= k < |between| && between[k] == t;
    }
    forall i | 0 <= i < |txs| && txs[i].txType == Expense && InRange(txs[i].occurredOn, Some(from), Some(to))
      && InBuckets(txs[i], buckets)
      ensures txs[i] in CutRows(txs, from, to, buckets)
    {
      assert txs[i] in between;
      var k :| 0 <= k < |between| && between[k] == txs[i];
      assert txs[i] in expenses;
      var j :| 0 <= j < |expenses| && expenses[j] == txs[i];
    }
  }

  /* ---------------------------------------------------------------------- */
  /* plan_goal                                                                */
  /* ---------------------------------------------------------------------- */

  /** The buckets whose spend the planner suggests cutting. */
  const CutBuckets: seq<string> := ["controllable", "unnecessary"]

  /** How many cut targets the planner suggests. */
  const CutTargetCount: nat := 5

  /** Why `plan_goal` raises: a target month just before the current one, or a month outside years 1..9999. */
  datatype PlanError = DivisionByZero | YearOutOfRange

  /** The dictionary `plan_goal` returns, amounts in cents. */
  datatype GoalPlan = GoalPlan(
    monthsRemaining: int,
    requiredMonthlySaving: int,
    avgMonthlyNetSaving: int,
    feasible: bool,
    monthlyShortfall: int,
    projectedMonths: Option<int>,
    projectedGoalMonth: Option<MonthKey>,
    suggestedCutTargets: seq<Group<Option<string>>>,
    historyMonthsUsed: nat)

  function MonthNet(m: MonthRow): int {
    m.net
  }

  /** The average monthly net over the history, to the cent, ties to even; zero without history. */
  function AverageNet(monthly: seq<MonthRow>): (r: int)
    ensures |monthly| == 0 ==> r == 0
    ensures |monthly| > 0 ==> RoundsHalfEven(SumVal(monthly, MonthNet), |monthly|, r)
  {
    if |monthly| > 0 then RoundHalfEven(SumVal(monthly, MonthNet), |monthly|) else 0
  }

  /** The current month plus `k` months lies in years 1..9999. */
  predicate MonthInRange(today: Date, k: int) {
    MinYear * 12 <= MonthIndex(MonthOf(today)) + k <= MaxYear * 12 + 11
  }

  /**
   * The projection at `avg` a month from the month of `start`: none without a
   * positive average; otherwise the least number of months whose savings reach
   * `target` and the month that many months on, counting `start`'s. A month
   * past year 9999 makes `add_months` raise.
   */
  function Projection(start: Date, target: int, avg: int): (r: Result<(Option<int>, Option<MonthKey>), PlanError>)
    ensures avg <= 0 ==> r == Success((None, None))
    ensures r.Failure? ==> r.error == YearOutOfRange
    ensures avg > 0 ==>
      (r.Failure? <==> !MonthInRange(start, CeilDiv(target, avg) - 1))
    ensures avg > 0 && r.Success? ==>
      && r.value.0.Some? && r.value.1.Some?
      && (target > 0 ==> r.value.0.value >= 1)
      && avg * (r.value.0.value - 1) < target <= avg * r.value.0.value
      && ValidMonth(r.value.1.value)
      && MonthIndex(r.value.1.value) == MonthIndex(MonthOf(start)) + r.value.0.value - 1
  {
    if avg <= 0 then Success((None, None))
    else
      var months := CeilDiv(target, avg);
      var date := AddMonths(start, months - 1);
      if date.None? then Failure(YearOutOfRange)
      else Success((Some(months), Some(MonthOf(date.value))))
  }

  /** `next_month.fromordinal(next_month.toordinal() - 1)`: the last day of the current month, if the next month exists. */
  function CutWindow(today: Date): (r: Option<(Date, Date)>)
    requires ValidDate(today)
  {
    var from := MonthStart(today);
    var next := AddMonths(from, 1);
    if next.None? then None
    else
      assert next.value != Date(MinYear, 1, 1) by {
        assert MonthIndex(MonthOf(next.value)) == MonthIndex(MonthOf(from)) + 1;
      }
      Some((from, PrevDay(next.value)))
  }

  /**
   * The cut window is the current calendar month, the same month `month_bounds`
   * of the alerts computes in its own way.
   */
  lemma CutWindowIsMonth(today: Date)
    requires ValidDate(today)
    ensures CutWindow(today) == Alerts.MonthBounds(today)
  {
    var from := MonthStart(today);
    var next := AddMonths(from, 1);
    var direct := if today.month == 12 then MakeDate(today.year + 1, 1, 1) else MakeDate(today.year, today.month + 1, 1);
    if next.Some? {
      assert direct.Some?;
      MonthIndexInjective(MonthOf(next.value), MonthOf(direct.value));
      assert next.value == direct.value;
    } else {
      assert direct.None?;
    }
  }

  /**
   * `plan_goal`, with `today` passed in: the plan for saving `targetAmount`
   * cents by `targetDate` from the newest `historyMonths` months of history.
   */
  function PlanGoal(txs: seq<Tx>, targetAmount: int, targetDate: Date, historyMonths: nat, today: Date): (r: Result<GoalPlan, PlanError>)
    requires ValidDate(today) && ValidDate(targetDate)
    ensures r.Success? ==> r.value.historyMonthsUsed == historyMonths && |r.value.suggestedCutTargets| <= CutTargetCount
  {
    var start := MonthStart(today);
    var monthsRemaining := MonthsBetweenInclusive(start, MonthStart(targetDate));
    if monthsRemaining == 0 then Failure(DivisionByZero)
    else
      var required := RoundHalfEven(targetAmount, monthsRemaining);
      var avg := AverageNet(MonthlySeries(txs, historyMonths, None, None));
      var feasible := avg >= required && avg > 0;
      var shortfall := if !feasible then required - avg else 0;
      var projection := Projection(start, targetAmount, avg);
      if projection.Failure? then Failure(projection.error)
      else
        var window := CutWindow(today);
        if window.None? then Failure(YearOutOfRange)
        else
          var cuts := TopSpendCategories(txs, window.value.0, window.value.1, CutBuckets, CutTargetCount);
          Success(GoalPlan(monthsRemaining, required, avg, feasible, shortfall, projection.value.0, projection.value.1, cuts, historyMonths))
  }

  /** The fields of a successful plan, one by one. */
  lemma PlanFields(txs: seq<Tx>, targetAmount: int, targetDate: Date, historyMonths: nat, today: Date)
    requires ValidDate(today) && ValidDate(targetDate)
    requires PlanGoal(txs, targetAmount, targetDate, historyMonths, today).Success?
    ensures var p, start := PlanGoal(txs, targetAmount, targetDate, historyMonths, today).value, MonthStart(today);
      && p.monthsRemaining == MonthsBetweenInclusive(start, MonthStart(targetDate))
      && p.monthsRemaining != 0
      && p.requiredMonthlySaving == RoundHalfEven(targetAmount, p.monthsRemaining)
      && p.avgMonthlyNetSaving == AverageNet(MonthlySeries(txs, historyMonths, None, None))
      && p.feasible == (p.avgMonthlyNetSaving >= p.requiredMonthlySaving && p.avgMonthlyNetSaving > 0)
      && p.monthlyShortfall == (if !p.feasible then p.requiredMonthlySaving - p.avgMonthlyNetSaving else 0)
      && Projection(start, targetAmount, p.avgMonthlyNetSaving) == Success((p.projectedMonths, p.projectedGoalMonth))
      && CutWindow(today).Some?
      && p.suggestedCutTargets == TopSpendCategories(txs, CutWindow(today).value.0, CutWindow(today).value.1, CutBuckets, CutTargetCount)
      && p.historyMonthsUsed == historyMonths
  {
  }

  /**
   * When `plan_goal` raises: division by zero exactly when the target month is
   * the month before the current one; a year out of range exactly when the
   * projected month or the month after the current one leaves years 1..9999.
   */
  lemma PlanErrors(txs: seq<Tx>, targetAmount: int, targetDate: Date, historyMonths: nat, today: Date)
    requires ValidDate(today) && ValidDate(targetDate)
    ensures PlanGoal(txs, targetAmount, targetDate, historyMonths, today) == Failure(DivisionByZero)
      <==> MonthIndex(MonthOf(targetDate)) + 1 == MonthIndex(MonthOf(today))
    ensures var avg := AverageNet(MonthlySeries(txs, historyMonths, None, None));
      PlanGoal(txs, targetAmount, targetDate, historyMonths, today) == Failure(YearOutOfRange)
      <==> && MonthIndex(MonthOf(targetDate)) + 1 != MonthIndex(MonthOf(today))
           && ((avg > 0 && !MonthInRange(today, CeilDiv(targetAmount, avg) - 1)) || !MonthInRange(today, 1))
  {
    var start := MonthStart(today);
    var next := AddMonths(start, 1);
    assert next.None? <==> !MonthInRange(today, 1);
    assert CutWindow(today).None? <==> next.None?;
  }

  /**
   * The saving figures of a plan: the required saving is the target spread
   * evenly over the remaining months, to the cent; the plan is feasible
   * exactly when the average net saving is positive and covers it, and the
   * shortfall is how far the average falls short (never negative for a
   * positive target and a target month not in the past).
   */
  lemma PlanSaving(txs: seq<Tx>, targetAmount: int, targetDate: Date, historyMonths: nat, today: Date)
    requires ValidDate(today) && ValidDate(targetDate)
    requires PlanGoal(txs, targetAmount, targetDate, historyMonths, today).Success?
    ensures var p := PlanGoal(txs, targetAmount, targetDate, historyMonths, today).value;
      && p.monthsRemaining == MonthIndex(MonthOf(targetDate)) - MonthIndex(MonthOf(today)) + 1
      && p.monthsRemaining != 0
      && RoundsHalfEven(targetAmount, p.monthsRemaining, p.requiredMonthlySaving)
    ensures var p := PlanGoal(txs, targetAmount, targetDate, historyMonths, today).value;
      p.feasible <==> p.avgMonthlyNetSaving >= p.requiredMonthlySaving && p.avgMonthlyNetSaving > 0
    ensures var p := PlanGoal(txs, targetAmount, targetDate, historyMonths, today).value;
      p.monthlyShortfall == if p.feasible then 0 else p.requiredMonthlySaving - p.avgMonthlyNetSaving
    ensures var p := PlanGoal(txs, targetAmount, targetDate, historyMonths, today).value;
      targetAmount > 0 && DateLe(today, targetDate) ==>
        && p.requiredMonthlySaving >= 0
        && p.monthlyShortfall == if p.requiredMonthlySaving > p.avgMonthlyNetSaving then p.requiredMonthlySaving - p.avgMonthlyNetSaving else 0
  {
    var p := PlanGoal(txs, targetAmount, targetDate, historyMonths, today).value;
    PlanFields(txs, targetAmount, targetDate, historyMonths, today);
    if targetAmount > 0 && DateLe(today, targetDate) {
      MonthsBetweenPositive(today, targetDate);
      RoundNonNegative(targetAmount, p.monthsRemaining);
    }
  }

  /**
   * The average net saving is the mean of the newest `historyMonths` monthly
   * nets, to the cent, and zero without any history.
   */
  lemma PlanAverage(txs: seq<Tx>, targetAmount: int, targetDate: Date, historyMonths: nat, today: Date)
    requires ValidDate(today) && ValidDate(targetDate)
    requires PlanGoal(txs, targetAmount, targetDate, historyMonths, today).Success?
    ensures var p, monthly := PlanGoal(txs, targetAmount, targetDate, historyMonths, today).value, MonthlySeries(txs, historyMonths, None, None);
      && |monthly| == (if historyMonths < |KeysOf(txs, MonthOfTx)| then historyMonths else |KeysOf(txs, MonthOfTx)|)
      && (|monthly| == 0 ==> p.avgMonthlyNetSaving == 0)
      && (|monthly| > 0 ==> RoundsHalfEven(SumVal(monthly, MonthNet), |monthly|, p.avgMonthlyNetSaving))
    ensures var p := PlanGoal(txs, targetAmount, targetDate, historyMonths, today).value;
      (txs == [] || historyMonths == 0) ==> p.avgMonthlyNetSaving == 0 && !p.feasible
    ensures PlanGoal(txs, targetAmount, targetDate, historyMonths, today).value.historyMonthsUsed == historyMonths
  {
    PlanAverageField(txs, targetAmount, targetDate, historyMonths, today);
    HistoryLength(txs, historyMonths);
  }

  /** The average, the feasibility and the history length of a plan, as `plan_goal` sets them. */
  lemma PlanAverageField(txs: seq<Tx>, targetAmount: int, targetDate: Date, historyMonths: nat, today: Date)
    requires ValidDate(today) && ValidDate(targetDate)
    requires PlanGoal(txs, targetAmount, targetDate, historyMonths, today).Success?
    ensures var p := PlanGoal(txs, targetAmount, targetDate, historyMonths, today).value;
      && p.avgMonthlyNetSaving == AverageNet(MonthlySeries(txs, historyMonths, None, None))
      && (p.feasible ==> p.avgMonthlyNetSaving > 0)
      && p.historyMonthsUsed == historyMonths
  {
    PlanFields(txs, targetAmount, targetDate, historyMonths, today);
  }

  /** The history holds the newest `months` months with transactions, or all of them when fewer. */
  lemma HistoryLength(txs: seq<Tx>, months: nat)
    ensures var monthly := MonthlySeries(txs, months, None, None);
      && |monthly| == (if months < |KeysOf(txs, MonthOfTx)| then months else |KeysOf(txs, MonthOfTx)|)
      && (txs == [] || months == 0 ==> |monthly| == 0)
  {
    MonthlyQueryRows(txs, months, None, None);
    UnboundedBetween(txs);
  }

  /**
   * The projection: with a positive average it is the least number of months
   * whose savings reach the target, and the goal month is that many months on
   * counting the current one; without a positive average there is none.
   */
  lemma PlanProjection(txs: seq<Tx>, targetAmount: int, targetDate: Date, historyMonths: nat, today: Date)
    requires ValidDate(today) && ValidDate(targetDate)
    requires PlanGoal(txs, targetAmount, targetDate, historyMonths, today).Success?
    ensures var p := PlanGoal(txs, targetAmount, targetDate, historyMonths, today).value;
      p.avgMonthlyNetSaving <= 0 <==> p.projectedMonths.None? && p.projectedGoalMonth.None?
    ensures var p := PlanGoal(txs, targetAmount, targetDate, historyMonths, today).value;
      p.avgMonthlyNetSaving > 0 ==>
        && p.projectedMonths.Some? && p.projectedGoalMonth.Some?
        && p.avgMonthlyNetSaving * (p.projectedMonths.value - 1) < targetAmount <= p.avgMonthlyNetSaving * p.projectedMonths.value
        && ValidMonth(p.projectedGoalMonth.value)
        && MonthIndex(p.projectedGoalMonth.value) == MonthIndex(MonthOf(today)) + p.projectedMonths.value - 1
    ensures var p := PlanGoal(txs, targetAmount, targetDate, historyMonths, today).value;
      targetAmount > 0 && p.projectedMonths.Some? ==> p.projectedMonths.value >= 1
  {
    PlanFields(txs, targetAmount, targetDate, historyMonths, today);
  }

  /**
   * The cut targets: the five categories of this month's expenses in the
   * controllable and unnecessary buckets with the largest spend, or all of
   * them when there are fewer, largest first, each with its month's spend; a
   * category left out spent no more than any shown.
   */
  lemma PlanCuts(txs: seq<Tx>, targetAmount: int, targetDate: Date, historyMonths: nat, today: Date)
    requires ValidDate(today) && ValidDate(targetDate)
    requires PlanGoal(txs, targetAmount, targetDate, historyMonths, today).Success?
    ensures Alerts.MonthBounds(today).Some?
    ensures var cuts, month := PlanGoal(txs, targetAmount, targetDate, historyMonths, today).value.suggestedCutTargets, Alerts.MonthBounds(today).value;
      var rows := CutRows(txs, month.0, month.1, CutBuckets);
      && |cuts| == (if CutTargetCount < |KeysOf(rows, CategoryOf)| then CutTargetCount else |KeysOf(rows, CategoryOf)|)
      && NonIncreasing(cuts, TotalOf)
      && (forall i :: 0 <= i < |cuts| ==>
            cuts[i].key in MapSeq(rows, CategoryOf) && cuts[i].total == SumVal(Matching(rows, CategoryOf, cuts[i].key), AmountOf))
      && (forall i, j :: 0 <= i < j < |cuts| ==> cuts[i].key != cuts[j].key)
      && (forall i, j :: 0 <= i < |rows| && 0 <= j < |cuts| && rows[i].category !in GroupKeys(cuts) ==>
            SumVal(Matching(rows, CategoryOf, rows[i].category), AmountOf) <= cuts[j].total)
    ensures var month := Alerts.MonthBounds(today).value;
      forall t :: t in CutRows(txs, month.0, month.1, CutBuckets) ==>
        && t in txs && t.txType == Expense && InBuckets(t, CutBuckets)
        && (ValidDate(t.occurredOn) ==> MonthOf(t.occurredOn) == MonthOf(today))
  {
    PlanCutTargets(txs, targetAmount, targetDate, historyMonths, today);
    var month := Alerts.MonthBounds(today).value;
    var cuts := TopSpendCategories(txs, month.0, month.1, CutBuckets, CutTargetCount);
    assert PlanGoal(txs, targetAmount, targetDate, historyMonths, today).value.suggestedCutTargets == cuts;
    CutRowsFacts(txs, month.0, month.1, CutBuckets);
  }

  /** The cut targets of a plan are the top categories of the current month. */
  lemma PlanCutTargets(txs: seq<Tx>, targetAmount: int, targetDate: Date, historyMonths: nat, today: Date)
    requires ValidDate(today) && ValidDate(targetDate)
    requires PlanGoal(txs, targetAmount, targetDate, historyMonths, today).Success?
    ensures Alerts.MonthBounds(today).Some?
    ensures var month := Alerts.MonthBounds(today).value;
      PlanGoal(txs, targetAmount, targetDate, historyMonths, today).value.suggestedCutTargets
        == TopSpendCategories(txs, month.0, month.1, CutBuckets, CutTargetCount)
  {
    PlanFields(txs, targetAmount, targetDate, historyMonths, today);
    CutWindowIsMonth(today);
  }
}
