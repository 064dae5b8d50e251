/** The request handlers that hold logic: the employee's monthly leave-total
    page, the leave count computed for a payroll run, the HR toggle of an
    employee's status, and the HR decision on a leave request. Rendering,
    redirects and persistence become values: a `Page`, or the updated table. */
module Views {
  import opened Wrappers
  import opened Calendar
  import opened Records
  import opened MonthBounds
  import opened LeaveTotal

  /** What the leave-total view answers. */
  datatype Page =
    | LeaveTotalPage(totalLeaveDays: int)   // render total_leave_days.html
    | RedirectToDashboard
    | OverflowError                         // an uncaught OverflowError from the date arithmetic

  /** Why a state-changing view fails instead of saving. */
  datatype Failure =
    | NotFound        // get_object_or_404 found no row
    | NoHrProfile     // `request.user.hr` raised: the user has no HR profile

  // ---------------------------------------------------------------------
  // Monthly leave total

  /** `calculate_total_leave_days`: an employee sees the approved leave total of
      the current month; any other user is sent to the dashboard. */
  function TotalLeaveDaysView(user: User, leaves: seq<Leave>, today: Date): (page: Page)
    ensures user.employee.None? <==> page == RedirectToDashboard
    ensures page == OverflowError <==> user.employee.Some? && today.year == MaxYear && today.month == 12
    ensures page.LeaveTotalPage? ==>
      page.totalLeaveDays == LeaveDays(leaves, user.employee.value, FirstOfMonth(today), LastOfMonth(today))
  {
    match user.employee
    case None => RedirectToDashboard
    case Some(employee) =>
      match TotalLeaveDays(employee, leaves, today)
      case None => OverflowError
      case Some(days) => LeaveTotalPage(days)
  }

  /** The leave count of `calculate_payroll`, which repeats the query of
      `calculate_total_leave_days` inline; modelled as the row-by-row
      aggregation a database performs, whose running sum stays NULL until
      the first selected row. It yields the same count as the leave-total view. */
  method PayrollLeaveDays(employee: EmployeeId, leaves: seq<Leave>, today: Date) returns (count: Option<int>)
    ensures count == TotalLeaveDays(employee, leaves, today)
  {
    var startOfMonth := FirstOfMonth(today);
    MonthEndTrick(today);
    var bound := EndOfMonth(startOfMonth);
    if bound.None? {
      return None;
    }
    var endOfMonth := bound.value;
    var total: Option<int> := None;
    var i := 0;
    while i < |leaves|
      invariant 0 <= i <= |leaves|
      invariant total.GetOr(0) == LeaveDays(leaves[..i], employee, startOfMonth, endOfMonth)
    {
      var l := leaves[i];
      if Selected(l, employee, startOfMonth, endOfMonth) {
        total := Some(total.GetOr(0) + Span(l));
      }
      LeaveDaysAppend(leaves[..i], l, employee, startOfMonth, endOfMonth);
      assert leaves[..i + 1] == leaves[..i] + [l];
      i := i + 1;
    }
    assert leaves[..i] == leaves;
    count := Some(DaysOrZero(total));
  }

  // ---------------------------------------------------------------------
  // Employee status toggle

  /** The status an employee gets when toggled. */
  function ToggledStatus(status: string): string {
    if status == "inactive" then "active" else "inactive"
  }

  /** Toggling twice restores the status exactly when it was "active" or
      "inactive"; any other status ends up "active". */
  lemma ToggleTwiceRestores(status: string)
    ensures ToggledStatus(ToggledStatus(status)) == status <==> status == "active" || status == "inactive"
    ensures ToggledStatus(status) == "active" <==> status == "inactive"
  {
    assert "active" != "inactive" by {
      assert |"active"| != |"inactive"|;
    }
  }

  /** `change_employee_status`: the employee's own HR manager flips the
      status between active and inactive; another HR manager changes nothing;
      a user without an HR profile makes the view raise. */
  function ChangeEmployeeStatus(user: User, employees: map<EmployeeId, Employee>, id: EmployeeId)
    : (result: Result<map<EmployeeId, Employee>, Failure>)
    ensures id !in employees <==> result == Err(NotFound)
    ensures id in employees && user.hr.None? <==> result == Err(NoHrProfile)
    ensures result.Ok? ==>
      && result.value.Keys == employees.Keys
      && (forall k :: k in employees && k != id ==> result.value[k] == employees[k])
      && result.value[id].hr == employees[id].hr
    ensures result.Ok? && user.hr.value == employees[id].hr ==>
      && (result.value[id].status == "active" || result.value[id].status == "inactive")
      && (result.value[id].status == "active" <==> employees[id].status == "inactive")
    ensures result.Ok? && user.hr.value != employees[id].hr ==> result.value == employees
  {
    if id !in employees then Err(NotFound)
    else if user.hr.None? then Err(NoHrProfile)
    else
      var employee := employees[id];
      ToggleTwiceRestores(employee.status);
      if user.hr.value == employee.hr then
        Ok(employees[id := employee.(status := ToggledStatus(employee.status))])
      else
        Ok(employees)
  }

  /** Two toggles by the employee's own HR manager give back the original
      table when the status was "active" or "inactive". */
  lemma ChangeTwiceRestores(user: User, employees: map<EmployeeId, Employee>, id: EmployeeId)
    requires id in employees && user.hr == Some(employees[id].hr)
    requires employees[id].status == "active" || employees[id].status == "inactive"
    ensures ChangeEmployeeStatus(user, ChangeEmployeeStatus(user, employees, id).value, id) == Ok(employees)
  {
    var once := ChangeEmployeeStatus(user, employees, id).value;
    var twice := ChangeEmployeeStatus(user, once, id).value;
    ToggleTwiceRestores(employees[id].status);
    assert twice == employees;
  }

  // ---------------------------------------------------------------------
  // HR decision on a leave request

  /** The status a decision string gives a leave. */
  function DecidedStatus(decision: string, current: LeaveStatus): LeaveStatus {
    if decision == "approve" then Approved
    else if decision == "reject" then Rejected
    else current
  }

  /** `manage_leave_request`, with the leave's id its position in the table:
      an HR user's "approve" or "reject" sets the status, any other decision
      or a user without an HR profile changes nothing, and an unknown id is
      not found. Any HR user may decide any leave. */
  function ManageLeaveRequest(user: User, leaves: seq<Leave>, id: int, decision: string)
    : (result: Result<seq<Leave>, Failure>)
    ensures !(0 <= id < |leaves|) <==> result == Err(NotFound)
    ensures result.Ok? <==> 0 <= id < |leaves|
    ensures result.Ok? ==>
      && |result.value| == |leaves|
      && (forall j :: 0 <= j < |leaves| && j != id ==> result.value[j] == leaves[j])
      && result.value[id].employee == leaves[id].employee
      && result.value[id].startDate == leaves[id].startDate
      && result.value[id].endDate == leaves[id].endDate
    ensures result.Ok? && user.hr.Some? && decision == "approve" ==> result.value[id].status == Approved
    ensures result.Ok? && user.hr.Some? && decision == "reject" ==> result.value[id].status == Rejected
    ensures result.Ok? && (user.hr.None? || (decision != "approve" && decision != "reject")) ==> result.value == leaves
  {
    if !(0 <= id < |leaves|) then Err(NotFound)
    else if user.hr.None? then Ok(leaves)
    else Ok(leaves[id := leaves[id].(status := DecidedStatus(decision, leaves[id].status))])
  }

  /** An HR approval raises the employee's monthly total by the leave's full
      span when the leave was not yet approved, belongs to that employee and
      meets the month; otherwise the total stays the same. */
  lemma ApprovalRaisesTotal(user: User, leaves: seq<Leave>, id: int, employee: EmployeeId, today: Date)
    requires 0 <= id < |leaves| && user.hr.Some?
    requires !(today.year == MaxYear && today.month == 12)
    ensures var after := ManageLeaveRequest(user, leaves, id, "approve").value;
            var l := leaves[id];
            TotalLeaveDays(employee, after, today).value
            == TotalLeaveDays(employee, leaves, today).value
               + (if l.status != Approved && Selected(l.(status := Approved), employee, FirstOfMonth(today), LastOfMonth(today))
                  then Span(l) else 0)
  {
    var l := leaves[id];
    LeaveDaysUpdate(leaves, id, l.(status := Approved), employee, FirstOfMonth(today), LastOfMonth(today));
  }
}
