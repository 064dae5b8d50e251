# Monthly approved-leave total of the payroll service, in Dafny

This project models the part of the payroll/HR web application that computes
something: the number of approved leave days an employee has in the current
calendar month. The employee's leave-total page (`calculate_total_leave_days`)
computes it, and the HR payroll run (`calculate_payroll`) computes it again
before it derives a payroll amount. The project also models the two small
state changes beside it: the HR toggle of an employee's active/inactive status
(`change_employee_status`) and the HR decision on a leave request
(`manage_leave_request`).

The computation, as the code performs it:

1. The first day of the month is `today.replace(day=1)`.
2. The last day of the month is `(first + 31 days).replace(day=1) - 1 day`.
3. The query keeps this employee's leaves whose status is `Approved` and
   whose inclusive range `[start_date, end_date]` meets `[first, last]`.
4. The query sums each kept leave's **full** span `end_date - start_date + 1`.
   The span is not clipped to the month.
5. The result is 0 when nothing is kept.

Modules, one per concern:

- `Wrappers` (`wrappers.dfy`): `Option` and `Result`.
- `Calendar` (`calendar.dfy`): Python's `datetime.date`.
  - Dates run from year 1 to 9999.
  - Day ordinals follow `toordinal` (0001-01-01 is 1, 9999-12-31 is 3652059).
  - `AddDays` walks one day at a time and gives `None` where Python raises
    `OverflowError`. It is proved equal to ordinal shifting, which is how
    Python defines date arithmetic.
  - Date order is lexicographic on (year, month, day). It is proved to be the
    order of the ordinals.
- `MonthBounds` (`month_bounds.dfy`): the "+31 days, snap to day 1, −1 day"
  month-end trick and the proof that it gives the calendar's last day of the
  month.
- `Records` (`records.dfy`): the employee, leave and user rows. A user may
  have an employee profile, an HR profile, or neither, as in the code.
- `LeaveTotal` (`leave_total.dfy`): the query as a filter over a
  `seq<Leave>`, the SQL `SUM` (NULL over no rows), the `x.days if x else 0`
  step, and a reference definition `LeaveDays` that the query provably
  computes.
- `Views` (`views.dfy`): the four handlers with logic. Each page or updated
  table is a value.
- `Scenarios` (`scenarios.dfy`): worked examples.

Behaviour of the code that the model makes explicit:

- A leave that crosses a month boundary is counted in full in both months.
  `Scenarios.CrossMonthLeaveCountedTwice` shows a leave from 2024-02-25 to
  2024-03-02. It adds 7 days to February and 7 to March. Only 5 of its days
  fall in February and 2 in March.
- For a reference date in December 9999, the 31-day jump leaves Python's date
  range, so the view raises `OverflowError`.
- Any user with an HR profile may approve or reject any leave, including
  leaves of employees managed by another HR user. Only the status toggle
  compares HR managers.
- Toggling an employee whose status is neither `"active"` nor `"inactive"`
  sets it to `"inactive"`. Toggling twice then gives `"active"`, not the
  original status.
- Each selected leave contributes its full span, not the clipped overlap
  `max(0, min(end, month_end) - max(start, month_start) + 1)`.
  `LeaveTotal.SpanCoversOverlap` relates the two. For a selected leave, the
  span is at least the overlap. The two are equal exactly when the leave lies
  inside the month.
- The leave 2024-02-25..2024-03-02 spans 7 days, because 2024 is a leap
  year.
- Nothing forces a leave's start date to be on or before its end date. A
  leave entered the wrong way round inside the month passes both date tests
  of the filter and adds a negative span, so the month's total can be
  negative. `Scenarios.ReversedLeaveGivesNegativeTotal` shows a total of −4
  for a leave from 2024-03-10 back to 2024-03-05.
  `LeaveTotal.WellOrderedLeavesGiveNonNegativeTotal` proves that the total is
  non-negative when every leave is well ordered.
- `Records.User` keeps the code's two optional profiles, employee and HR.
  A user may have either, both or neither.

## Model

| member | source | states |
|---|---|---|
| Calendar.FirstOfMonth | payroll/employees/views.py:121 | `replace(day=1)` keeps year and month, has day 1, is not after the reference date, and lies exactly `day - 1` days before it |
| Calendar.DaysBeforeMonthStep | payroll/employees/views.py:122 | the cumulative month table behind date arithmetic agrees with the Gregorian month lengths, February included, and December ends the year |
| Calendar.DaysBeforeNextYear | payroll/employees/views.py:122 | each year adds exactly its Gregorian length (366 in leap years, 365 otherwise) to the day count |
| Calendar.OrdinalOrder | payroll/employees/views.py:128-129 | the date comparisons used by the filter are exactly the order of day ordinals; two dates are equal exactly when their ordinals are |
| Calendar.OrdinalRange | payroll/employees/views.py:122 | every date has an ordinal in 1..3652059; only 0001-01-01 and 9999-12-31 reach the ends |
| Calendar.NextDayOrdinal | payroll/employees/views.py:122 | adding one day moves one ordinal forward and fails only at 9999-12-31 |
| Calendar.PrevDayOrdinal | payroll/employees/views.py:122 | subtracting one day moves one ordinal back and fails only at 0001-01-01 |
| Calendar.NextPrevRoundTrip | payroll/employees/views.py:122 | stepping a day back and a day forward undo each other |
| Calendar.AddDays | payroll/employees/views.py:122 | `date ± timedelta(days=n)`, None where Python raises OverflowError; its meaning is stated by `Calendar.AddDaysShiftsOrdinal` |
| Calendar.AddDaysShiftsOrdinal | payroll/employees/views.py:122 | `d + timedelta(days=n)` succeeds exactly when ordinal+n is representable and then lands on ordinal+n, Python's definition |
| Calendar.AddDifference | payroll/employees/views.py:132 | `a + (b - a) == b`: the day difference of two dates, added back, returns the second date |
| Calendar.AddDaysWithinMonth | payroll/employees/views.py:122 | adding days that stay inside the month only advances the day number |
| MonthBounds.EndOfMonth | payroll/employees/views.py:122 | the month-end trick written step by step; `MonthBounds.MonthEndTrick` states that it yields the last day of the month and fails only for December 9999 |
| MonthBounds.ThirtyOneDaysAhead | payroll/employees/views.py:122 | day 1 plus 31 days lands in the following month (never two ahead) on day `32 - DaysInMonth`; only December 9999 overflows |
| MonthBounds.MonthEndTrick | payroll/employees/views.py:122 | the month-end trick yields `(y, m, DaysInMonth(y, m))` for every month and year, and fails exactly for December 9999 |
| MonthBounds.BoundsBracketMonth | payroll/employees/views.py:121-122 | start of month is not after end of month, and a date lies between them exactly when it has the reference year and month |
| LeaveTotal.Span | payroll/employees/views.py:132 | `end_date - start_date + 1 day` in days; `LeaveTotal.SpanCountsDays` states that it is the inclusive day count of a well-ordered leave |
| LeaveTotal.SpanCountsDays | payroll/employees/views.py:131-134 | a leave's duration is positive exactly when it ends no earlier than it starts, and is then the inclusive count of days from start to end |
| LeaveTotal.Selected | payroll/employees/views.py:126-129 | the four conditions of the filter; `LeaveTotal.OverlapMeansSharedDay` states that its date tests mean the leave and the month share a day |
| LeaveTotal.SelectRows | payroll/employees/views.py:125-129 | the query returns exactly the table's rows of this employee that are Approved and meet the month, and no more rows than the table |
| LeaveTotal.SelectRowsKeepsMultiplicity | payroll/employees/views.py:125-129 | each selected row is returned as often as it occurs in the table, and every other row not at all |
| LeaveTotal.SumDuration | payroll/employees/views.py:135 | the aggregate is NULL exactly when no row was selected |
| LeaveTotal.DaysOrZero | payroll/employees/views.py:137 | `total.days if total else 0` is the sum when there is one and 0 otherwise, a zero duration included |
| LeaveTotal.SelectedSumIsLeaveDays | payroll/employees/views.py:125-137 | filtering then summing spans equals the sum of every row's contribution |
| LeaveTotal.TotalLeaveDays | payroll/employees/views.py:120-137 | the total exists except for December 9999 and equals the sum of full spans of the employee's approved leaves that meet the calendar month |
| LeaveTotal.LeaveDaysAppend | payroll/employees/views.py:130-135 | adding a row to the table adds exactly that row's contribution |
| LeaveTotal.TotalAfterAppend | payroll/employees/views.py:125-135 | appending a leave raises the month's total by its full span if it is selected and leaves it unchanged otherwise |
| LeaveTotal.ExcludedLeaveAddsNothing | payroll/employees/views.py:125-129 | pending, rejected, other employees' leaves and leaves wholly before or after the month do not change the total |
| LeaveTotal.NothingSelectedIsZero | payroll/employees/views.py:137 | with no selected leave the total is 0 |
| LeaveTotal.WellOrderedLeavesGiveNonNegativeTotal | payroll/employees/views.py:130-137 | if every leave ends no earlier than it starts, the total is non-negative |
| LeaveTotal.LeaveDaysUpdate | payroll/employees/views.py:130-135 | replacing one row changes the total by exactly the difference of the two rows' contributions |
| LeaveTotal.OverlapMeansSharedDay | payroll/employees/views.py:128-129 | for a well-ordered leave, the filter's two date tests hold exactly when the leave and the month share a day |
| LeaveTotal.SpanCoversOverlap | payroll/employees/views.py:131-134 | the counted full span is at least the days shared with the month, with equality exactly when the leave lies inside the month |
| Views.TotalLeaveDaysView | payroll/employees/views.py:117-139 | a non-employee is redirected; an employee sees the month's total, or an OverflowError exactly for December 9999 |
| Views.PayrollLeaveDays | payroll/employees/views.py:200-217 | the payroll run's inline copy of the query, evaluated row by row, gives the same count as the leave-total page |
| Views.ToggledStatus | payroll/employees/views.py:96-99 | the new status of a toggled employee; `Views.ToggleTwiceRestores` states that it is "active" exactly from "inactive" |
| Views.ToggleTwiceRestores | payroll/employees/views.py:96-99 | the toggle gives "active" exactly from "inactive", and toggling twice restores exactly "active" and "inactive" |
| Views.ChangeEmployeeStatus | payroll/employees/views.py:93-101 | unknown id is not found; a user without HR profile fails; the employee's own HR flips active/inactive; another HR changes nothing; other rows never change |
| Views.ChangeTwiceRestores | payroll/employees/views.py:95-100 | two toggles by the managing HR restore the whole employee table when the status was active or inactive |
| Views.DecidedStatus | payroll/employees/views.py:152-155 | the status a decision string gives a leave; `Views.ManageLeaveRequest` states that "approve" gives Approved, "reject" gives Rejected and anything else keeps the status |
| Views.ManageLeaveRequest | payroll/employees/views.py:149-158 | an existing id always succeeds and an unknown id is not found; for an HR user "approve" sets Approved and "reject" sets Rejected; any other decision or a non-HR user changes nothing; only the decided leave's status may change |
| Views.ApprovalRaisesTotal | payroll/employees/views.py:149-156 | approving a not-yet-approved leave of the employee that meets the month raises that month's total by its full span; otherwise the total is unchanged |
| Scenarios.ApprovedLeaveInMonth | payroll/employees/views.py:125-137 | an approved leave from 5 to 10 March 2024 gives a March total of 6 |
| Scenarios.PendingOrNoLeave | payroll/employees/views.py:125-137 | a pending leave, and an empty leave table, give a total of 0 |
| Scenarios.TwoLeavesAddUp | payroll/employees/views.py:125-137 | two approved March leaves of 6 and 2 days give a total of 8 |
| Scenarios.CrossMonthLeaveCountedTwice | payroll/employees/views.py:130-135 | a 7-day leave from 25 February to 2 March 2024 counts 7 in February and 7 in March, while sharing 5 and 2 days with them |
| Scenarios.ReversedLeaveGivesNegativeTotal | payroll/employees/views.py:125-137 | an approved leave from 10 March back to 5 March 2024 passes the filter and gives a March total of −4, so the well-ordering premise of the non-negativity lemma is needed |

## Left out

- Django plumbing is left out because it is framework behaviour, not this
  repository's logic. This covers `render`, `redirect`, `@login_required`
  (anonymous users are not modelled), sessions, `login`, `logout` and
  `authenticate`. `get_object_or_404` is kept only as the `NotFound` failure.
- The handlers `login_view`, `logout_view`, `dashboard`, `employee_dashboard`,
  `show_employees`, `show_leave_requests`, `show_payroll_details` and `home`
  are left out. Each is a single query or a redirect followed by rendering.
  This includes the `order_by('-month')` of `show_payroll_details`.
- `signup_employee`, `signup_hr`, `apply_leave` and `add_salary_job_type` are
  left out. They save validated forms, and the form classes are not part of
  this model. All `is_valid()` checks are left out for the same reason.
  `calculate_payroll` takes its employee as a parameter instead of from
  `PayrollForm`.
- `Leave.objects.calculate_payroll` (views.py:220) is left out. It is a
  manager method defined in a file that is not part of this model, so the
  payroll amount cannot be modelled. `Views.PayrollLeaveDays` stops at the
  leave count passed to it.
- `send_leave_status_email` (views.py:160-182) is left out because it renders
  a template and sends mail. The same goes for the call on line 157. As
  written, an HR user's unrecognised decision saves the leave unchanged and
  still sends the "Rejected" mail for a leave that is not approved.
- `timezone.localdate()` is left out because it reads the clock and the time
  zone. It becomes the `today` parameter.
- The ORM expression machinery is left out: `ExpressionWrapper`, `F`,
  `DurationField` and `Sum`. The database's `end_date - start_date + 1 day`
  becomes a difference of day ordinals. A backend's internal representation
  of durations is not modelled.
- Persistence (`employee.save()`, `leave.save()`) is left out. The handlers
  return the updated table instead.
- Leave ids are modelled as positions in the leave table. Employee ids are
  keys of a map.
- The HR link of an employee is modelled as always present, because the
  model definitions (`models.py`) are not part of this model.
- `Records.LeaveStatus` has three values. In the code the status column is
  a string compared with `'Approved'`. Every modelled path treats all other
  strings alike, so `Pending` and `Rejected` stand for all of them.
- `LeaveTotal.TotalLeaveDays` and `Views.TotalLeaveDaysView` add spans as
  unbounded integers. The finite range of the summed duration is not
  modelled. The database's duration sum is bounded, and a Python
  `timedelta` holds at most 999,999,999 days, so a huge enough table makes
  the view raise where the model still returns a total. An example is 274
  approved leaves from 0001-01-01 to 9999-12-31. Only December 9999 is
  modelled as an overflow.
