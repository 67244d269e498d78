/** java.util.Date as the modelled code uses it: an instant that can be
    compared with another (Date.compareTo, Payment.SortByDate) and whose
    calendar year and month can be read (GregorianCalendar.get). */
module Calendar {

  /** An instant, given by its calendar year, its month, and the time elapsed
      since the start of that month. Instants are ordered by these three in
      turn, which is the order of time. */
  datatype Date = Date(year: int, month: int, sinceMonthStart: nat)

  /** a is not later than b. */
  predicate DateLe(a: Date, b: Date) {
    a.year < b.year
    || (a.year == b.year && a.month < b.month)
    || (a.year == b.year && a.month == b.month && a.sinceMonthStart <= b.sinceMonthStart)
  }

  /** Date.compareTo: -1, 0 or 1 as a is before, at or after b. */
  function CompareDates(a: Date, b: Date): (r: int)
    ensures r == 0 <==> a == b
    ensures r <= 0 <==> DateLe(a, b)
    ensures -1 <= r <= 1
  {
    if a == b then 0 else if DateLe(a, b) then -1 else 1
  }

  lemma {:induction false} CompareDatesAntisymmetric(a: Date, b: Date)
    ensures CompareDates(b, a) == -CompareDates(a, b)
  {
  }

  lemma {:induction false} DateLeTotal(a: Date, b: Date)
    ensures DateLe(a, b) || DateLe(b, a)
  {
  }

  lemma {:induction false} DateLeTransitive(a: Date, b: Date, c: Date)
    requires DateLe(a, b) && DateLe(b, c)
    ensures DateLe(a, c)
  {
  }

  /** Calendar months from the month of `from` to the month of `to`: the
      difference of the years times twelve plus the difference of the months,
      with the day and time ignored. */
  function MonthsBetween(from: Date, to: Date): (d: int)
    ensures from.year == to.year ==> d == to.month - from.month
    ensures from.month == to.month ==> d == 12 * (to.year - from.year)
  {
    (to.month - from.month) + 12 * (to.year - from.year)
  }

  /** A later date is never fewer months away. */
  lemma {:induction false} MonthsBetweenMonotone(a: Date, b: Date, now: Date)
    requires DateLe(a, b)
    requires 0 <= a.month < 12 && 0 <= b.month < 12
    ensures MonthsBetween(b, now) <= MonthsBetween(a, now)
  {
    if a.year < b.year {
      assert 12 * (b.year - a.year) >= 12;
    }
  }
}
