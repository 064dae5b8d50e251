/** The rows the views read and write: employees, HR managers, leave requests,
    and the logged-in user who may carry an employee profile, an HR profile,
    or neither. */
module Records {
  import opened Wrappers
  import opened Calendar

  type EmployeeId = int
  type HrId = int

  /** The approval state of a leave request. The code stores a string and
      only ever tests it against 'Approved'; the other two values stand for
      every other string. */
  datatype LeaveStatus = Pending | Approved | Rejected

  /** A leave request: the employee who asked, the inclusive dates, the state.
      Nothing forces `startDate <= endDate`. */
  datatype Leave = Leave(employee: EmployeeId, startDate: Date, endDate: Date, status: LeaveStatus)

  /** An employee row: the HR manager it reports to and a free-text status
      that the views set to "active" or "inactive". */
  datatype Employee = Employee(hr: HrId, status: string)

  /** The authenticated user; `hasattr(request.user, 'employee')` is
      `employee.Some?`, and likewise for `hr`. */
  datatype User = User(employee: Option<EmployeeId>, hr: Option<HrId>)
}
