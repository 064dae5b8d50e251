/** The monthly approved-leave total: the approved leave requests of one
    employee whose inclusive date range meets the reference month, each counted
    with its FULL span `end_date - start_date + 1`, even the days that fall
    outside the month. The database query is modelled as a filter followed by
    an aggregate sum over the sequence of leave rows. */
module LeaveTotal {
  import opened Wrappers
  import opened Calendar
  import opened Records
  import opened MonthBounds

  /** `end_date - start_date + timedelta(days=1)` in days. */
  function Span(l: Leave): int {
    ToOrdinal(l.endDate) - ToOrdinal(l.startDate) + 1
  }

  /** The span is the number of calendar days from the start to the end,
      both included: it is positive exactly for a well-ordered leave, and
      walking `Span - 1` days from the start reaches the end. */
  lemma SpanCountsDays(l: Leave)
    ensures LessEq(l.startDate, l.endDate) <==> Span(l) >= 1
    ensures LessEq(l.startDate, l.endDate) ==> AddDays(l.startDate, Span(l) - 1) == Some(l.endDate)
  {
    OrdinalOrder(l.startDate, l.endDate);
    AddDifference(l.startDate, l.endDate);
  }

  /** The query's filter: this employee, status 'Approved',
      `start_date <= end_of_month` and `end_date >= start_of_month`. */
  predicate Selected(l: Leave, employee: EmployeeId, startOfMonth: Date, endOfMonth: Date) {
    && l.employee == employee
    && l.status == Approved
    && LessEq(l.startDate, endOfMonth)
    && LessEq(startOfMonth, l.endDate)
  }

  /** The rows the query returns, in table order. */
  function SelectRows(leaves: seq<Leave>, employee: EmployeeId, startOfMonth: Date, endOfMonth: Date): (rows: seq<Leave>)
    ensures |rows| <= |leaves|
    ensures forall l :: l in rows <==> l in leaves && Selected(l, employee, startOfMonth, endOfMonth)
  {
    if |leaves| == 0 then []
    else
      var rest := SelectRows(leaves[1..], employee, startOfMonth, endOfMonth);
      if Selected(leaves[0], employee, startOfMonth, endOfMonth) then [leaves[0]] + rest else rest
  }

  /** Equal values stand for distinct database rows: the query keeps every
      selected row as often as it occurs in the table and drops every other
      row. */
  lemma {:induction false} SelectRowsKeepsMultiplicity(leaves: seq<Leave>, employee: EmployeeId, startOfMonth: Date, endOfMonth: Date)
    ensures forall l :: multiset(SelectRows(leaves, employee, startOfMonth, endOfMonth))[l]
                          == (if Selected(l, employee, startOfMonth, endOfMonth) then multiset(leaves)[l] else 0)
  {
    if |leaves| > 0 {
      var rest := SelectRows(leaves[1..], employee, startOfMonth, endOfMonth);
      SelectRowsKeepsMultiplicity(leaves[1..], employee, startOfMonth, endOfMonth);
      assert leaves == [leaves[0]] + leaves[1..];
      assert multiset(leaves) == multiset([leaves[0]]) + multiset(leaves[1..]);
      assert multiset([leaves[0]] + rest) == multiset([leaves[0]]) + multiset(rest);
    }
  }

  function SumOfSpans(rows: seq<Leave>): int {
    if |rows| == 0 then 0 else Span(rows[0]) + SumOfSpans(rows[1..])
  }

  /** `aggregate(total_days=Sum('duration'))['total_days']`: SQL's SUM is NULL
      over no rows. */
  function SumDuration(rows: seq<Leave>): (total: Option<int>)
    ensures total.None? <==> |rows| == 0
  {
    if |rows| == 0 then None else Some(SumOfSpans(rows))
  }

  /** `total.days if total else 0`: a missing sum and a zero duration (which
      Python treats as false) both give 0, so the result is the sum or 0. */
  function DaysOrZero(total: Option<int>): (days: int)
    ensures days == total.GetOr(0)
  {
    if total.Some? && total.value != 0 then total.value else 0
  }

  /** What one leave row adds to the month's total. */
  function Contribution(l: Leave, employee: EmployeeId, startOfMonth: Date, endOfMonth: Date): int {
    if Selected(l, employee, startOfMonth, endOfMonth) then Span(l) else 0
  }

  /** Reference definition of the total: every row's contribution, summed. */
  function LeaveDays(leaves: seq<Leave>, employee: EmployeeId, startOfMonth: Date, endOfMonth: Date): int {
    if |leaves| == 0 then 0
    else Contribution(leaves[0], employee, startOfMonth, endOfMonth) + LeaveDays(leaves[1..], employee, startOfMonth, endOfMonth)
  }

  /** Filtering and then summing spans adds up exactly the contributions. */
  lemma {:induction false} SelectedSumIsLeaveDays(leaves: seq<Leave>, employee: EmployeeId, startOfMonth: Date, endOfMonth: Date)
    ensures SumOfSpans(SelectRows(leaves, employee, startOfMonth, endOfMonth)) == LeaveDays(leaves, employee, startOfMonth, endOfMonth)
    ensures DaysOrZero(SumDuration(SelectRows(leaves, employee, startOfMonth, endOfMonth))) == LeaveDays(leaves, employee, startOfMonth, endOfMonth)
  {
    if |leaves| > 0 {
      SelectedSumIsLeaveDays(leaves[1..], employee, startOfMonth, endOfMonth);
      var rest := SelectRows(leaves[1..], employee, startOfMonth, endOfMonth);
      if Selected(leaves[0], employee, startOfMonth, endOfMonth) {
        assert ([leaves[0]] + rest)[1..] == rest;
      }
    }
  }

  /** The leave total of the month containing `today`, as
      `calculate_total_leave_days` computes it. None stands for the OverflowError raised for a
      reference date in December 9999. */
  function TotalLeaveDays(employee: EmployeeId, leaves: seq<Leave>, today: Date): (total: Option<int>)
    ensures total.Some? <==> !(today.year == MaxYear && today.month == 12)
    ensures total.Some? ==> total.value == LeaveDays(leaves, employee, FirstOfMonth(today), LastOfMonth(today))
  {
    var startOfMonth := FirstOfMonth(today);
    MonthEndTrick(today);
    match EndOfMonth(startOfMonth)
    case None => None
    case Some(endOfMonth) =>
      var rows := SelectRows(leaves, employee, startOfMonth, endOfMonth);
      SelectedSumIsLeaveDays(leaves, employee, startOfMonth, endOfMonth);
      Some(DaysOrZero(SumDuration(rows)))
  }

  // ---------------------------------------------------------------------
  // Properties of the total

  /** Adding a row to the table adds exactly that row's contribution. */
  lemma {:induction false} LeaveDaysAppend(leaves: seq<Leave>, l: Leave, employee: EmployeeId, startOfMonth: Date, endOfMonth: Date)
    ensures LeaveDays(leaves + [l], employee, startOfMonth, endOfMonth)
         == LeaveDays(leaves, employee, startOfMonth, endOfMonth) + Contribution(l, employee, startOfMonth, endOfMonth)
  {
    if |leaves| > 0 {
      assert (leaves + [l])[1..] == leaves[1..] + [l];
      LeaveDaysAppend(leaves[1..], l, employee, startOfMonth, endOfMonth);
    } else {
      assert ([l])[1..] == [];
    }
  }

  /** Appending a leave row raises the month's total by the leave's full span
      when it is this employee's, approved and meets the month, and leaves the
      total unchanged otherwise. */
  lemma TotalAfterAppend(employee: EmployeeId, leaves: seq<Leave>, l: Leave, today: Date)
    requires !(today.year == MaxYear && today.month == 12)
    ensures TotalLeaveDays(employee, leaves + [l], today).value
         == TotalLeaveDays(employee, leaves, today).value
            + (if Selected(l, employee, FirstOfMonth(today), LastOfMonth(today)) then Span(l) else 0)
  {
    LeaveDaysAppend(leaves, l, employee, FirstOfMonth(today), LastOfMonth(today));
  }

  /** Pending and rejected leaves, other employees' leaves, and leaves that
      end before the month starts or start after it ends add nothing. */
  lemma ExcludedLeaveAddsNothing(employee: EmployeeId, leaves: seq<Leave>, l: Leave, today: Date)
    requires !(today.year == MaxYear && today.month == 12)
    requires || l.status != Approved
             || l.employee != employee
             || Less(l.endDate, FirstOfMonth(today))
             || Less(LastOfMonth(today), l.startDate)
    ensures TotalLeaveDays(employee, leaves + [l], today) == TotalLeaveDays(employee, leaves, today)
  {
    TotalAfterAppend(employee, leaves, l, today);
    OrdinalOrder(l.endDate, FirstOfMonth(today));
    OrdinalOrder(LastOfMonth(today), l.startDate);
    OrdinalOrder(l.startDate, LastOfMonth(today));
    OrdinalOrder(FirstOfMonth(today), l.endDate);
  }

  /** With no selected rows the total is 0, not an error. */
  lemma {:induction false} NothingSelectedIsZero(leaves: seq<Leave>, employee: EmployeeId, startOfMonth: Date, endOfMonth: Date)
    requires forall l :: l in leaves ==> !Selected(l, employee, startOfMonth, endOfMonth)
    ensures LeaveDays(leaves, employee, startOfMonth, endOfMonth) == 0
  {
    if |leaves| > 0 {
      assert leaves[0] in leaves;
      NothingSelectedIsZero(leaves[1..], employee, startOfMonth, endOfMonth);
    }
  }

  /** When every leave ends no earlier than it starts, the total is never negative. */
  lemma {:induction false} WellOrderedLeavesGiveNonNegativeTotal(leaves: seq<Leave>, employee: EmployeeId, startOfMonth: Date, endOfMonth: Date)
    requires forall l :: l in leaves ==> LessEq(l.startDate, l.endDate)
    ensures LeaveDays(leaves, employee, startOfMonth, endOfMonth) >= 0
  {
    if |leaves| > 0 {
      assert leaves[0] in leaves;
      SpanCountsDays(leaves[0]);
      WellOrderedLeavesGiveNonNegativeTotal(leaves[1..], employee, startOfMonth, endOfMonth);
    }
  }

  /** Replacing one row changes the total by the difference of the two rows'
      contributions and by nothing else. */
  lemma {:induction false} LeaveDaysUpdate(leaves: seq<Leave>, i: int, x: Leave, employee: EmployeeId, startOfMonth: Date, endOfMonth: Date)
    requires 0 <= i < |leaves|
    ensures LeaveDays(leaves[i := x], employee, startOfMonth, endOfMonth)
         == LeaveDays(leaves, employee, startOfMonth, endOfMonth)
            - Contribution(leaves[i], employee, startOfMonth, endOfMonth)
            + Contribution(x, employee, startOfMonth, endOfMonth)
  {
    if i > 0 {
      assert leaves[i := x][1..] == leaves[1..][i - 1 := x];
      LeaveDaysUpdate(leaves[1..], i - 1, x, employee, startOfMonth, endOfMonth);
    } else {
      assert leaves[i := x][1..] == leaves[1..];
    }
  }

  // ---------------------------------------------------------------------
  // What the overlap test means

  /** A date of the month containing `today`. */
  predicate InMonth(d: Date, today: Date) {
    d.year == today.year && d.month == today.month
  }

  /** A date the leave covers. */
  predicate OnLeave(d: Date, l: Leave) {
    LessEq(l.startDate, d) && LessEq(d, l.endDate)
  }

  /** For a well-ordered leave, the filter's two date comparisons say exactly
      that the leave and the month share at least one day. */
  lemma OverlapMeansSharedDay(l: Leave, today: Date)
    requires LessEq(l.startDate, l.endDate)
    ensures LessEq(l.startDate, LastOfMonth(today)) && LessEq(FirstOfMonth(today), l.endDate)
            <==> exists d: Date :: InMonth(d, today) && OnLeave(d, l)
  {
    var first, last := FirstOfMonth(today), LastOfMonth(today);
    if LessEq(l.startDate, last) && LessEq(first, l.endDate) {
      var d: Date := if Less(l.startDate, first) then first else l.startDate;
      BoundsBracketMonth(today, d);
      if Less(l.startDate, first) {
        assert LessEq(l.startDate, d);
      }
      assert InMonth(d, today) && OnLeave(d, l);
    }
    if exists d: Date :: InMonth(d, today) && OnLeave(d, l) {
      var d: Date :| InMonth(d, today) && OnLeave(d, l);
      BoundsBracketMonth(today, d);
      LessEqTransitive(l.startDate, d, last);
      LessEqTransitive(first, d, l.endDate);
    }
  }

  function MaxDateOf(a: Date, b: Date): Date {
    if Less(a, b) then b else a
  }

  function MinDateOf(a: Date, b: Date): Date {
    if Less(a, b) then a else b
  }

  /** The number of days the leave and the interval [lo, hi] share: the
      clipped overlap `max(0, min(end, hi) - max(start, lo) + 1)`. */
  function OverlapDays(l: Leave, lo: Date, hi: Date): int {
    var n := ToOrdinal(MinDateOf(l.endDate, hi)) - ToOrdinal(MaxDateOf(l.startDate, lo)) + 1;
    if n > 0 then n else 0
  }

  /** The full span counted for a selected, well-ordered leave is at least the
      days it shares with the month, and equal to them exactly when the leave
      lies inside the month. */
  lemma SpanCoversOverlap(l: Leave, today: Date)
    requires LessEq(l.startDate, l.endDate)
    requires LessEq(l.startDate, LastOfMonth(today)) && LessEq(FirstOfMonth(today), l.endDate)
    ensures Span(l) >= OverlapDays(l, FirstOfMonth(today), LastOfMonth(today))
    ensures Span(l) == OverlapDays(l, FirstOfMonth(today), LastOfMonth(today))
            <==> LessEq(FirstOfMonth(today), l.startDate) && LessEq(l.endDate, LastOfMonth(today))
  {
    var first, last := FirstOfMonth(today), LastOfMonth(today);
    OrdinalOrder(l.startDate, l.endDate);
    OrdinalOrder(l.startDate, first);
    OrdinalOrder(first, l.startDate);
    OrdinalOrder(l.endDate, last);
    OrdinalOrder(last, l.endDate);
    OrdinalOrder(l.startDate, last);
    OrdinalOrder(first, l.endDate);
  }
}
