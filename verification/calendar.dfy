/** The proleptic Gregorian calendar as Python's `datetime.date` implements it:
    years 1 through 9999, day ordinals counted from 0001-01-01 = 1, date
    arithmetic that raises OverflowError when it leaves that range, and
    dates ordered by (year, month, day). */
module Calendar {
  import opened Wrappers

  const MinYear: int := 1
  const MaxYear: int := 9999

  /** Ordinal of 9999-12-31, the last date Python can represent. */
  const MaxOrdinal: int := 3652059

  datatype CivilDate = CivilDate(year: int, month: int, day: int)

  predicate IsLeap(y: int) {
    y % 4 == 0 && (y % 100 != 0 || y % 400 == 0)
  }

  function DaysInYear(y: int): int {
    if IsLeap(y) then 366 else 365
  }

  function DaysInMonth(y: int, m: int): (n: int)
    requires 1 <= m <= 12
    ensures 28 <= n <= 31
  {
    if m == 2 then (if IsLeap(y) then 29 else 28)
    else if m == 4 || m == 6 || m == 9 || m == 11 then 30
    else 31
  }

  predicate ValidDate(d: CivilDate) {
    && MinYear <= d.year <= MaxYear
    && 1 <= d.month <= 12
    && 1 <= d.day <= DaysInMonth(d.year, d.month)
  }

  /** A value of Python's `date` type: construction rejects anything else. */
  type Date = d: CivilDate | ValidDate(d) witness CivilDate(1, 1, 1)

  const MinDate: Date := CivilDate(MinYear, 1, 1)
  const MaxDate: Date := CivilDate(MaxYear, 12, 31)

  /** Python's `date.replace(day=1)`: day 1 is valid in every month, so it never raises. */
  function FirstOfMonth(d: Date): (f: Date)
    ensures f.year == d.year && f.month == d.month && f.day == 1
    ensures LessEq(f, d)
    ensures ToOrdinal(d) - ToOrdinal(f) == d.day - 1
  {
    d.(day := 1)
  }

  /** The calendar's own "last day of the month" primitive. */
  function LastOfMonth(d: Date): (l: Date)
    ensures l.year == d.year && l.month == d.month
  {
    CivilDate(d.year, d.month, DaysInMonth(d.year, d.month))
  }

  // ---------------------------------------------------------------------
  // Ordinals

  /** Days in the years before `y`, as in Python's `_days_before_year`. */
  function DaysBeforeYear(y: int): (n: int)
    requires y >= 1
    ensures n >= 0
  {
    var x := y - 1;
    x * 365 + x / 4 - x / 100 + x / 400
  }

  /** Days before month `m` in a common year: Python's `_DAYS_BEFORE_MONTH` table. */
  function CommonDaysBeforeMonth(m: int): int
    requires 1 <= m <= 12
  {
    match m
    case 1 => 0   case 2 => 31   case 3 => 59   case 4 => 90
    case 5 => 120 case 6 => 151  case 7 => 181  case 8 => 212
    case 9 => 243 case 10 => 273 case 11 => 304 case _ => 334
  }

  /** Days in the months of year `y` before month `m`, as in Python's `_days_before_month`. */
  function DaysBeforeMonth(y: int, m: int): (n: int)
    requires 1 <= m <= 12
    ensures n >= 0
  {
    CommonDaysBeforeMonth(m) + (if m > 2 && IsLeap(y) then 1 else 0)
  }

  /** Python's `date.toordinal()`. */
  function ToOrdinal(d: Date): (n: int)
    ensures n >= 1
  {
    DaysBeforeYear(d.year) + DaysBeforeMonth(d.year, d.month) + d.day
  }

  lemma MaxOrdinalIsMaxDate()
    ensures ToOrdinal(MaxDate) == MaxOrdinal
  {
    assert DaysBeforeYear(MaxYear) == 3651694;
    assert DaysBeforeMonth(MaxYear, 12) == 334;
  }

  lemma MinOrdinalIsMinDate()
    ensures ToOrdinal(MinDate) == 1
  {
  }

  /** The cumulative month table agrees with the month lengths. */
  lemma DaysBeforeMonthStep(y: int, m: int)
    requires 1 <= m <= 12
    ensures m < 12 ==> DaysBeforeMonth(y, m + 1) == DaysBeforeMonth(y, m) + DaysInMonth(y, m)
    ensures m == 12 ==> DaysBeforeMonth(y, m) + DaysInMonth(y, m) == DaysInYear(y)
  {
  }

  lemma DivStep(x: int, k: int)
    requires x >= 0 && k > 0
    ensures (x + 1) / k == x / k + (if (x + 1) % k == 0 then 1 else 0)
  {
    var q, r := x / k, x % k;
    assert x == k * q + r && 0 <= r < k;
    if r + 1 == k {
      assert x + 1 == k * (q + 1);
      DivUnique(x + 1, k, q + 1, 0);
    } else {
      assert x + 1 == k * q + (r + 1);
      DivUnique(x + 1, k, q, r + 1);
    }
  }

  lemma DivUnique(a: int, k: int, q: int, r: int)
    requires k > 0 && 0 <= r < k && a == k * q + r
    ensures a / k == q && a % k == r
  {
    var q', r' := a / k, a % k;
    assert a == k * q' + r';
    if q' > q {
      assert k * q' >= k * (q + 1) by { MulMono(k, q + 1, q'); }
    } else if q' < q {
      assert k * q >= k * (q' + 1) by { MulMono(k, q' + 1, q); }
    }
  }

  lemma MulMono(k: int, a: int, b: int)
    requires k > 0 && a <= b
    ensures k * a <= k * b
  {
    assert k * b - k * a == k * (b - a);
  }

  /** A year contributes exactly its length to the running day count. */
  lemma DaysBeforeNextYear(y: int)
    requires y >= 1
    ensures DaysBeforeYear(y + 1) == DaysBeforeYear(y) + DaysInYear(y)
  {
    var x := y - 1;
    DivStep(x, 4);
    DivStep(x, 100);
    DivStep(x, 400);
    DivisibilityChain(y);
    var a := if y % 4 == 0 then 1 else 0;
    var b := if y % 100 == 0 then 1 else 0;
    var c := if y % 400 == 0 then 1 else 0;
    assert DaysInYear(y) == 365 + a - b + c;
    assert DaysBeforeYear(y + 1) == DaysBeforeYear(y) + 365 + a - b + c;
  }

  lemma DivisibilityChain(y: int)
    ensures y % 400 == 0 ==> y % 100 == 0
    ensures y % 100 == 0 ==> y % 4 == 0
  {
    if y % 400 == 0 {
      var q := y / 400;
      assert y == 100 * (4 * q);
      DivUnique(y, 100, 4 * q, 0);
    }
    if y % 100 == 0 {
      var q := y / 100;
      assert y == 4 * (25 * q);
      DivUnique(y, 4, 25 * q, 0);
    }
  }

  lemma DaysBeforeYearGrows(y1: int, y2: int)
    requires 1 <= y1 <= y2
    ensures DaysBeforeYear(y1) + 365 * (y2 - y1) <= DaysBeforeYear(y2)
    decreases y2 - y1
  {
    if y1 < y2 {
      DaysBeforeNextYear(y1);
      DaysBeforeYearGrows(y1 + 1, y2);
    }
  }

  lemma DaysBeforeMonthGrows(y: int, m1: int, m2: int)
    requires 1 <= m1 < m2 <= 12
    ensures DaysBeforeMonth(y, m1) + DaysInMonth(y, m1) <= DaysBeforeMonth(y, m2)
    decreases m2 - m1
  {
    DaysBeforeMonthStep(y, m1);
    if m1 + 1 < m2 {
      DaysBeforeMonthGrows(y, m1 + 1, m2);
    }
  }

  // ---------------------------------------------------------------------
  // Order

  /** Python's `a < b` on dates: lexicographic on (year, month, day). */
  predicate Less(a: Date, b: Date) {
    || a.year < b.year
    || (a.year == b.year && a.month < b.month)
    || (a.year == b.year && a.month == b.month && a.day < b.day)
  }

  /** Python's `a <= b` on dates (Django's `__lte` / `__gte` lookups). */
  predicate LessEq(a: Date, b: Date) {
    Less(a, b) || a == b
  }

  lemma {:induction false} OrdinalMonotone(a: Date, b: Date)
    requires Less(a, b)
    ensures ToOrdinal(a) < ToOrdinal(b)
  {
    if a.year < b.year {
      DaysBeforeMonthStep(a.year, a.month);
      if a.month < 12 {
        DaysBeforeMonthGrows(a.year, a.month, 12);
        DaysBeforeMonthStep(a.year, 12);
      }
      assert DaysBeforeMonth(a.year, a.month) + a.day <= DaysInYear(a.year);
      DaysBeforeNextYear(a.year);
      DaysBeforeYearGrows(a.year + 1, b.year);
    } else if a.month < b.month {
      DaysBeforeMonthGrows(a.year, a.month, b.month);
    }
  }

  /** The ordinal is an order isomorphism: chronological order of dates is
      the numeric order of their ordinals, and distinct dates have distinct
      ordinals. */
  lemma OrdinalOrder(a: Date, b: Date)
    ensures Less(a, b) <==> ToOrdinal(a) < ToOrdinal(b)
    ensures LessEq(a, b) <==> ToOrdinal(a) <= ToOrdinal(b)
    ensures a == b <==> ToOrdinal(a) == ToOrdinal(b)
  {
    if Less(a, b) {
      OrdinalMonotone(a, b);
    } else if Less(b, a) {
      OrdinalMonotone(b, a);
    }
  }

  /** Every date's ordinal lies in 1..MaxOrdinal; the ends are reached only by MinDate and MaxDate. */
  lemma OrdinalRange(d: Date)
    ensures 1 <= ToOrdinal(d) <= MaxOrdinal
    ensures ToOrdinal(d) == MaxOrdinal <==> d == MaxDate
    ensures ToOrdinal(d) == 1 <==> d == MinDate
  {
    OrdinalAtMostMax(d);
    MaxOrdinalIsMaxDate();
    if ToOrdinal(d) == MaxOrdinal {
      OrdinalMaxOnlyAtMaxDate(d);
    }
    if ToOrdinal(d) == 1 {
      OrdinalOneOnlyAtMinDate(d);
    }
  }

  lemma OrdinalAtMostMax(d: Date)
    ensures ToOrdinal(d) <= MaxOrdinal
  {
    MaxOrdinalIsMaxDate();
    assert LessEq(d, MaxDate);
    OrdinalOrder(d, MaxDate);
  }

  lemma OrdinalMaxOnlyAtMaxDate(d: Date)
    requires ToOrdinal(d) == MaxOrdinal
    ensures d == MaxDate
  {
    MaxOrdinalIsMaxDate();
    OrdinalOrder(d, MaxDate);
  }

  lemma OrdinalOneOnlyAtMinDate(d: Date)
    requires ToOrdinal(d) == 1
    ensures d == MinDate
  {
    MinOrdinalIsMinDate();
    OrdinalOrder(MinDate, d);
  }

  lemma LessEqTransitive(a: Date, b: Date, c: Date)
    requires LessEq(a, b) && LessEq(b, c)
    ensures LessEq(a, c)
  {
    OrdinalOrder(a, b);
    OrdinalOrder(b, c);
    OrdinalOrder(a, c);
  }

  // ---------------------------------------------------------------------
  // Day arithmetic

  /** `d + timedelta(days=1)`, or None where Python raises OverflowError. */
  function NextDay(d: Date): Option<Date> {
    if d.day < DaysInMonth(d.year, d.month) then Some(CivilDate(d.year, d.month, d.day + 1))
    else if d.month < 12 then Some(CivilDate(d.year, d.month + 1, 1))
    else if d.year < MaxYear then Some(CivilDate(d.year + 1, 1, 1))
    else None
  }

  /** `d - timedelta(days=1)`, or None where Python raises OverflowError. */
  function PrevDay(d: Date): Option<Date> {
    if d.day > 1 then Some(CivilDate(d.year, d.month, d.day - 1))
    else if d.month > 1 then Some(CivilDate(d.year, d.month - 1, DaysInMonth(d.year, d.month - 1)))
    else if d.year > MinYear then Some(CivilDate(d.year - 1, 12, 31))
    else None
  }

  /** The day after `d` is one ordinal later; only the last representable date has none. */
  lemma NextDayOrdinal(d: Date)
    ensures NextDay(d).None? <==> d == MaxDate
    ensures NextDay(d).Some? ==> ToOrdinal(NextDay(d).value) == ToOrdinal(d) + 1
  {
    DaysBeforeMonthStep(d.year, d.month);
    if d.day == DaysInMonth(d.year, d.month) && d.month == 12 && d.year < MaxYear {
      DaysBeforeNextYear(d.year);
    }
  }

  /** Stepping back a day and stepping forward a day undo each other. */
  lemma NextPrevRoundTrip(d: Date, e: Date)
    ensures PrevDay(d) == Some(e) <==> NextDay(e) == Some(d)
    ensures PrevDay(d).None? <==> d == MinDate
  {
  }

  /** The day before `d` is one ordinal earlier; only the first representable date has none. */
  lemma PrevDayOrdinal(d: Date)
    ensures PrevDay(d).None? <==> d == MinDate
    ensures PrevDay(d).Some? ==> ToOrdinal(PrevDay(d).value) == ToOrdinal(d) - 1
  {
    NextPrevRoundTrip(d, d);
    if PrevDay(d).Some? {
      var e := PrevDay(d).value;
      NextPrevRoundTrip(d, e);
      NextDayOrdinal(e);
    }
  }

  /** `d + timedelta(days=n)`, or None where Python raises OverflowError.
      The result is reached by walking one day at a time towards it. */
  function AddDays(d: Date, n: int): Option<Date> {
    if n >= 0 then WalkForward(d, n) else WalkBack(d, -n)
  }

  function WalkForward(d: Date, k: nat): Option<Date>
    decreases k
  {
    if k == 0 then Some(d)
    else
      match NextDay(d)
      case None => None
      case Some(e) => WalkForward(e, k - 1)
  }

  function WalkBack(d: Date, k: nat): Option<Date>
    decreases k
  {
    if k == 0 then Some(d)
    else
      match PrevDay(d)
      case None => None
      case Some(e) => WalkBack(e, k - 1)
  }

  /** AddDays agrees with Python's definition of date arithmetic,
      `date.fromordinal(d.toordinal() + n)`: it succeeds exactly when the
      target ordinal is representable, and then lands on that ordinal. */
  lemma AddDaysShiftsOrdinal(d: Date, n: int)
    ensures AddDays(d, n).Some? <==> 1 <= ToOrdinal(d) + n <= MaxOrdinal
    ensures AddDays(d, n).Some? ==> ToOrdinal(AddDays(d, n).value) == ToOrdinal(d) + n
  {
    OrdinalRange(d);
    if n >= 0 {
      WalkForwardOrdinal(d, n);
    } else {
      WalkBackOrdinal(d, -n);
    }
  }

  lemma {:induction false} WalkForwardOrdinal(d: Date, k: nat)
    ensures WalkForward(d, k).Some? <==> ToOrdinal(d) + k <= MaxOrdinal
    ensures WalkForward(d, k).Some? ==> ToOrdinal(WalkForward(d, k).value) == ToOrdinal(d) + k
    decreases k
  {
    if k == 0 {
      OrdinalAtMostMax(d);
    } else {
      NextDayStep(d);
      match NextDay(d)
      case None =>
      case Some(e) =>
        WalkForwardOrdinal(e, k - 1);
    }
  }

  lemma {:induction false} WalkBackOrdinal(d: Date, k: nat)
    ensures WalkBack(d, k).Some? <==> 1 <= ToOrdinal(d) - k
    ensures WalkBack(d, k).Some? ==> ToOrdinal(WalkBack(d, k).value) == ToOrdinal(d) - k
    decreases k
  {
    if k > 0 {
      PrevDayStep(d);
      match PrevDay(d)
      case None =>
      case Some(e) =>
        WalkBackOrdinal(e, k - 1);
    }
  }

  lemma NextDayStep(d: Date)
    ensures NextDay(d).None? ==> ToOrdinal(d) == MaxOrdinal
    ensures NextDay(d).Some? ==> ToOrdinal(NextDay(d).value) == ToOrdinal(d) + 1
  {
    if NextDay(d).None? {
      assert d.year == MaxYear && d.month == 12 && d.day == 31;
      assert DaysBeforeYear(d.year) == 3651694;
    } else {
      NextDayOrdinal(d);
    }
  }

  lemma PrevDayStep(d: Date)
    ensures PrevDay(d).None? ==> ToOrdinal(d) == 1
    ensures PrevDay(d).Some? ==> ToOrdinal(PrevDay(d).value) == ToOrdinal(d) - 1
  {
    if PrevDay(d).Some? {
      var e := PrevDay(d).value;
      NextPrevRoundTrip(d, e);
      NextDayOrdinal(e);
    }
  }

  /** Subtracting dates and adding the difference back round-trips:
      `a + (b - a) == b`, with `b - a` the difference of ordinals. */
  lemma AddDifference(a: Date, b: Date)
    ensures AddDays(a, ToOrdinal(b) - ToOrdinal(a)) == Some(b)
  {
    OrdinalRange(b);
    AddDaysShiftsOrdinal(a, ToOrdinal(b) - ToOrdinal(a));
    OrdinalOrder(AddDays(a, ToOrdinal(b) - ToOrdinal(a)).value, b);
  }

  /** Walking forward inside one month only advances the day number. */
  lemma {:induction false} AddDaysWithinMonth(d: Date, k: nat)
    requires d.day + k <= DaysInMonth(d.year, d.month)
    ensures AddDays(d, k) == Some(CivilDate(d.year, d.month, d.day + k))
    decreases k
  {
    if k > 0 {
      AddDaysWithinMonth(NextDay(d).value, k - 1);
    }
  }
}
