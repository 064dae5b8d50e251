/** The bounds of the calendar month that contains a reference date, computed
    the way the leave-day views compute them: the first day by replacing the
    day with 1, the last day by jumping 31 days ahead, snapping back to day 1
    of the month reached, and stepping back one day. */
module MonthBounds {
  import opened Wrappers
  import opened Calendar

  /** The (year, month) after month `m` of year `y`. */
  function NextMonth(y: int, m: int): (int, int)
    requires 1 <= m <= 12
  {
    if m == 12 then (y + 1, 1) else (y, m + 1)
  }

  /** `(start_of_month + timedelta(days=31)).replace(day=1) - timedelta(days=1)`;
      None where Python raises OverflowError. */
  function EndOfMonth(startOfMonth: Date): Option<Date> {
    match AddDays(startOfMonth, 31)
    case None => None
    case Some(ahead) => AddDays(FirstOfMonth(ahead), -1)
  }

  /** Walking `a + b` days is walking `a` days and then `b` more. */
  lemma {:induction false} WalkForwardSplit(d: Date, a: nat, b: nat)
    ensures WalkForward(d, a + b) ==
      (match WalkForward(d, a)
       case None => None
       case Some(e) => WalkForward(e, b))
    decreases a
  {
    if a > 0 {
      match NextDay(d)
      case None =>
      case Some(e) =>
        WalkForwardSplit(e, a - 1, b);
    }
  }

  /** Day 1 of any month plus 31 days lands in the following month, never two
      months ahead, on day `32 - DaysInMonth`; only December 9999 overflows. */
  lemma ThirtyOneDaysAhead(first: Date)
    requires first.day == 1
    ensures AddDays(first, 31).None? <==> first.year == MaxYear && first.month == 12
    ensures AddDays(first, 31).Some? ==>
      var ahead := AddDays(first, 31).value;
      && (ahead.year, ahead.month) == NextMonth(first.year, first.month)
      && ahead.day == 32 - DaysInMonth(first.year, first.month)
  {
    var y, m := first.year, first.month;
    var n := DaysInMonth(y, m);
    var last: Date := CivilDate(y, m, n);
    AddDaysWithinMonth(first, n - 1);
    WalkForwardSplit(first, n - 1, 32 - n);
    WalkForwardSplit(last, 1, 31 - n);
    assert WalkForward(last, 1) == NextDay(last);
    match NextDay(last)
    case None =>
    case Some(next) =>
      AddDaysWithinMonth(next, 31 - n);
  }

  /** The month-end trick computes the calendar's last day of the month, for
      every month of every year including February in leap and common years and
      December; it overflows only for December 9999, where the 31-day jump
      leaves Python's date range. */
  lemma MonthEndTrick(today: Date)
    ensures EndOfMonth(FirstOfMonth(today)).Some? <==> !(today.year == MaxYear && today.month == 12)
    ensures EndOfMonth(FirstOfMonth(today)).Some? ==> EndOfMonth(FirstOfMonth(today)).value == LastOfMonth(today)
  {
    var first := FirstOfMonth(today);
    ThirtyOneDaysAhead(first);
    match AddDays(first, 31)
    case None =>
    case Some(ahead) =>
      var snapped := FirstOfMonth(ahead);
      assert AddDays(snapped, -1) == PrevDay(snapped);
  }

  /** The two bounds bracket exactly the dates of the reference month. */
  lemma BoundsBracketMonth(today: Date, d: Date)
    ensures LessEq(FirstOfMonth(today), LastOfMonth(today))
    ensures LessEq(FirstOfMonth(today), d) && LessEq(d, LastOfMonth(today))
            <==> d.year == today.year && d.month == today.month
  {
  }
}
