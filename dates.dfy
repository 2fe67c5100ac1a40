/**
 * Calendar dates as Python's `datetime.date` has them: the proleptic
 * Gregorian calendar, years 1 through 9999, ordered year, then month, then day.
 */
module Dates {
  import opened Wrappers

  /** `datetime.MINYEAR` and `datetime.MAXYEAR`. */
  const MinYear: int := 1
  const MaxYear: int := 9999

  datatype Date = Date(year: int, month: int, day: int)

  /** A calendar month, the key that `to_char(occurred_on, 'YYYY-MM')` groups by. */
  datatype MonthKey = MonthKey(year: int, month: int)

  predicate IsLeapYear(y: int) {
    y % 4 == 0 && (y % 100 != 0 || y % 400 == 0)
  }

  function DaysInMonth(y: int, m: int): (n: int)
    requires 1 <= m <= 12
    ensures 28 <= n <= 31
  {
    if m == 2 then (if IsLeapYear(y) then 29 else 28)
    else if m == 4 || m == 6 || m == 9 || m == 11 then 30
    else 31
  }

  predicate ValidDate(d: Date) {
    MinYear <= d.year <= MaxYear && 1 <= d.month <= 12 && 1 <= d.day <= DaysInMonth(d.year, d.month)
  }

  predicate ValidMonth(k: MonthKey) {
    MinYear <= k.year <= MaxYear && 1 <= k.month <= 12
  }

  /** `datetime.date(y, m, d)`: `None` where Python raises ValueError. */
  function MakeDate(y: int, m: int, d: int): Option<Date> {
    if ValidDate(Date(y, m, d)) then Some(Date(y, m, d)) else None
  }

  /** `a <= b` on dates. */
  predicate DateLe(a: Date, b: Date) {
    a.year < b.year || (a.year == b.year && (a.month < b.month || (a.month == b.month && a.day <= b.day)))
  }

  /** `a < b` on dates. */
  predicate DateLt(a: Date, b: Date) {
    DateLe(a, b) && a != b
  }

  function MonthOf(d: Date): MonthKey {
    MonthKey(d.year, d.month)
  }

  /** The absolute number of a month, `y * 12 + (m - 1)`. */
  function MonthIndex(k: MonthKey): int {
    k.year * 12 + (k.month - 1)
  }

  /** A number that orders valid dates as the calendar does (31 slots per month). */
  function DayNumber(d: Date): int {
    MonthIndex(MonthOf(d)) * 31 + (d.day - 1)
  }

  lemma MonthIndexInjective(a: MonthKey, b: MonthKey)
    requires 1 <= a.month <= 12 && 1 <= b.month <= 12
    ensures MonthIndex(a) == MonthIndex(b) ==> a == b
    ensures MonthIndex(a) < MonthIndex(b) <==> (a.year < b.year || (a.year == b.year && a.month < b.month))
  {
    if a.year < b.year {
      assert a.year * 12 + 12 <= b.year * 12;
    } else if b.year < a.year {
      assert b.year * 12 + 12 <= a.year * 12;
    }
  }

  /** Day numbers order valid dates exactly as the calendar does, and tell them apart. */
  lemma DayNumberOrder(a: Date, b: Date)
    requires ValidDate(a) && ValidDate(b)
    ensures DateLe(a, b) <==> DayNumber(a) <= DayNumber(b)
    ensures DayNumber(a) == DayNumber(b) ==> a == b
  {
    var ia, ib := MonthIndex(MonthOf(a)), MonthIndex(MonthOf(b));
    MonthIndexInjective(MonthOf(a), MonthOf(b));
    if ia < ib {
      assert ia * 31 + 31 <= ib * 31;
    } else if ib < ia {
      assert ib * 31 + 31 <= ia * 31;
    }
  }

  /**
   * `d.fromordinal(d.toordinal() - 1)`: the day before `d`. Python raises for the
   * day before 0001-01-01, which the callers never ask for.
   */
  function PrevDay(d: Date): (r: Date)
    requires ValidDate(d)
    requires d != Date(MinYear, 1, 1)
    ensures ValidDate(r) && DateLt(r, d)
    ensures forall x :: ValidDate(x) && DateLt(x, d) ==> DateLe(x, r)
  {
    if d.day > 1 then Date(d.year, d.month, d.day - 1)
    else if d.month > 1 then Date(d.year, d.month - 1, DaysInMonth(d.year, d.month - 1))
    else Date(d.year - 1, 12, 31)
  }
}
