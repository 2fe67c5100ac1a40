/**
 * The daily trend of `crud/analytics/daily.py`: one point per calendar day that
 * has transactions inside an inclusive window, oldest first.
 */
module Daily {
  import opened Wrappers
  import opened Dates
  import opened Grouping
  import opened Ledger
  import opened Summary

  /** A point of the series; the day is rendered with `isoformat()` by the source. */
  datatype DayPoint = DayPoint(date: Date, income: int, expense: int, net: int)

  function PointDate(p: DayPoint): Date {
    p.date
  }

  function PointNet(p: DayPoint): int {
    p.net
  }

  /** Sorting key for `ORDER BY occurred_on ASC`, as a descending sort on the negated day number. */
  function DayRank(p: Period<Date>): int {
    -DayNumber(p.key)
  }

  /** The rows of the daily query: day groups of the window, oldest first. */
  function DailyQuery(txs: seq<Tx>, from: Date, to: Date): seq<Period<Date>> {
    SortDesc(PeriodsOf(Between(txs, Some(from), Some(to)), DayOf), DayRank)
  }

  /** The loop body: `r.income or 0.00` is `r.income` itself, since a zero sum reads as zero either way. */
  function ToDayPoint(p: Period<Date>): DayPoint {
    DayPoint(p.key, p.income, p.expense, p.income - p.expense)
  }

  /** What `get_daily_series` returns. */
  function DailySeries(txs: seq<Tx>, from: Date, to: Date): seq<DayPoint> {
    MapSeq(DailyQuery(txs, from, to), ToDayPoint)
  }

  /** The day of every row of a valid ledger is a real date. */
  lemma DaysValid(rows: seq<Tx>)
    requires ValidLedger(rows)
    ensures forall d :: d in MapSeq(rows, DayOf) ==> ValidDate(d)
  {
    forall d | d in MapSeq(rows, DayOf) ensures ValidDate(d) {
      var i :| 0 <= i < |rows| && MapSeq(rows, DayOf)[i] == d;
      assert ValidTx(rows[i]);
    }
  }

  /** The days of the series strictly increase. */
  lemma DailyOrder(txs: seq<Tx>, from: Date, to: Date)
    requires ValidLedger(txs)
    ensures var out := DailySeries(txs, from, to);
      forall i, j :: 0 <= i < j < |out| ==> DateLt(out[i].date, out[j].date)
  {
    var rows := Between(txs, Some(from), Some(to));
    var q := DailyQuery(txs, from, to);
    var out := DailySeries(txs, from, to);
    BetweenValid(txs, Some(from), Some(to));
    DaysValid(rows);
    SortedPeriodsFacts(rows, DayOf, q);
    forall i, j | 0 <= i < j < |out| ensures DateLt(out[i].date, out[j].date) {
      assert out[i].date == q[i].key && out[j].date == q[j].key;
      DayNumberOrder(q[i].key, q[j].key);
    }
  }

  /** Each point carries the sums of its own day, and that day lies in the window. */
  lemma DailyPoints(txs: seq<Tx>, from: Date, to: Date)
    ensures var out, rows := DailySeries(txs, from, to), Between(txs, Some(from), Some(to));
      forall i :: 0 <= i < |out| ==>
        && InRange(out[i].date, Some(from), Some(to))
        && out[i].date in MapSeq(rows, DayOf)
        && out[i].income == SumVal(Matching(rows, DayOf, out[i].date), IncomePart)
        && out[i].expense == SumVal(Matching(rows, DayOf, out[i].date), ExpensePart)
        && out[i].net == out[i].income - out[i].expense
  {
    var rows := Between(txs, Some(from), Some(to));
    var q := DailyQuery(txs, from, to);
    var out := DailySeries(txs, from, to);
    SortedPeriodsFacts(rows, DayOf, q);
    BetweenMembers(txs, Some(from), Some(to));
    forall i | 0 <= i < |out| ensures InRange(out[i].date, Some(from), Some(to)) {
      assert out[i].date == q[i].key;
      var p :| 0 <= p < |rows| && MapSeq(rows, DayOf)[p] == q[i].key;
    }
  }

  /**
   * Exactly the days with transactions get a point: every in-window transaction's
   * day has one, and there are as many points as distinct days.
   */
  lemma DailyComplete(txs: seq<Tx>, from: Date, to: Date)
    ensures var out, rows := DailySeries(txs, from, to), Between(txs, Some(from), Some(to));
      |out| == |KeysOf(rows, DayOf)|
    ensures var out := DailySeries(txs, from, to);
      forall i :: 0 <= i < |txs| && InRange(txs[i].occurredOn, Some(from), Some(to)) ==>
        exists j :: 0 <= j < |out| && out[j].date == txs[i].occurredOn
  {
    var rows := Between(txs, Some(from), Some(to));
    var q := DailyQuery(txs, from, to);
    var out := DailySeries(txs, from, to);
    SortedPeriodsFacts(rows, DayOf, q);
    BetweenMembers(txs, Some(from), Some(to));
    forall i | 0 <= i < |txs| && InRange(txs[i].occurredOn, Some(from), Some(to))
      ensures exists j :: 0 <= j < |out| && out[j].date == txs[i].occurredOn
    {
      var p :| 0 <= p < |rows| && rows[p] == txs[i];
      var j :| 0 <= j < |q| && q[j].key == DayOf(rows[p]);
      assert out[j].date == q[j].key;
    }
  }

  /** The nets of all points add up to the net of the totals over the same window. */
  lemma DailyNetMatchesTotals(txs: seq<Tx>, from: Date, to: Date)
    ensures SumVal(DailySeries(txs, from, to), PointNet) == GetTotals(txs, Some(from), Some(to)).net
  {
    var rows := Between(txs, Some(from), Some(to));
    var q := DailyQuery(txs, from, to);
    PeriodsNetTotal(rows, DayOf, q);
    SumValMapSeq(q, ToDayPoint, PointNet, PeriodNet);
  }

  /** `get_daily_series`: converts the query rows one by one, in order. */
  method GetDailySeries(txs: seq<Tx>, from: Date, to: Date) returns (out: seq<DayPoint>)
    ensures out == DailySeries(txs, from, to)
  {
    out := DayPoints(DailyQuery(txs, from, to));
  }

  /** The loop of `get_daily_series`: one point per row, in the query's order. */
  method DayPoints(rows: seq<Period<Date>>) returns (out: seq<DayPoint>)
    ensures out == MapSeq(rows, ToDayPoint)
  {
    out := [];
    var i := 0;
    while i < |rows|
      invariant 0 <= i <= |rows|
      invariant out == MapSeq(rows[..i], ToDayPoint)
    {
      var r := rows[i];
      var income := r.income;
      var expense := r.expense;
      out := out + [DayPoint(r.key, income, expense, income - expense)];
      i := i + 1;
    }
    assert rows[..i] == rows;
  }
}
