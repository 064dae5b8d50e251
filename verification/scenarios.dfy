/** Worked examples of the monthly leave total, for employee 7 and reference
    dates in February and March 2024 (a leap year). */
module Scenarios {
  import opened Wrappers
  import opened Calendar
  import opened Records
  import opened LeaveTotal

  const March15: Date := CivilDate(2024, 3, 15)
  const February10: Date := CivilDate(2024, 2, 10)

  /** 5 to 10 March 2024. */
  const EarlyMarch: Leave := Leave(7, CivilDate(2024, 3, 5), CivilDate(2024, 3, 10), Approved)
  /** 20 to 21 March 2024. */
  const LateMarch: Leave := Leave(7, CivilDate(2024, 3, 20), CivilDate(2024, 3, 21), Approved)
  /** 25 February to 2 March 2024. */
  const AcrossMonths: Leave := Leave(7, CivilDate(2024, 2, 25), CivilDate(2024, 3, 2), Approved)
  /** Dates entered the wrong way round: from 10 March back to 5 March 2024. */
  const ReversedMarch: Leave := Leave(7, CivilDate(2024, 3, 10), CivilDate(2024, 3, 5), Approved)

  lemma MarchBounds()
    ensures FirstOfMonth(March15) == CivilDate(2024, 3, 1)
    ensures LastOfMonth(March15) == CivilDate(2024, 3, 31)
    ensures FirstOfMonth(February10) == CivilDate(2024, 2, 1)
    ensures LastOfMonth(February10) == CivilDate(2024, 2, 29)
  {
  }

  lemma TwoRows(a: Leave, b: Leave, today: Date)
    ensures LeaveDays([a], 7, FirstOfMonth(today), LastOfMonth(today))
         == Contribution(a, 7, FirstOfMonth(today), LastOfMonth(today))
    ensures LeaveDays([a, b], 7, FirstOfMonth(today), LastOfMonth(today))
         == Contribution(a, 7, FirstOfMonth(today), LastOfMonth(today))
            + Contribution(b, 7, FirstOfMonth(today), LastOfMonth(today))
  {
    var lo, hi := FirstOfMonth(today), LastOfMonth(today);
    assert [a][1..] == [] && [b][1..] == [];
    assert LeaveDays([a][1..], 7, lo, hi) == 0;
    assert [a, b][1..] == [b];
    assert LeaveDays([b], 7, lo, hi) == Contribution(b, 7, lo, hi) + LeaveDays([b][1..], 7, lo, hi);
  }

  /** An approved leave inside the month counts its six days. */
  lemma ApprovedLeaveInMonth()
    ensures TotalLeaveDays(7, [EarlyMarch], March15) == Some(6)
  {
    MarchBounds();
    TwoRows(EarlyMarch, EarlyMarch, March15);
    assert Selected(EarlyMarch, 7, FirstOfMonth(March15), LastOfMonth(March15));
    assert Span(EarlyMarch) == 6;
  }

  /** A pending leave counts nothing, and neither does an empty table. */
  lemma PendingOrNoLeave()
    ensures TotalLeaveDays(7, [EarlyMarch.(status := Pending)], March15) == Some(0)
    ensures TotalLeaveDays(7, [], March15) == Some(0)
  {
    MarchBounds();
    TwoRows(EarlyMarch.(status := Pending), EarlyMarch, March15);
  }

  /** Two approved leaves in the month add up. */
  lemma TwoLeavesAddUp()
    ensures TotalLeaveDays(7, [EarlyMarch, LateMarch], March15) == Some(8)
  {
    MarchBounds();
    TwoRows(EarlyMarch, LateMarch, March15);
    assert Selected(EarlyMarch, 7, FirstOfMonth(March15), LastOfMonth(March15));
    assert Selected(LateMarch, 7, FirstOfMonth(March15), LastOfMonth(March15));
    assert Span(EarlyMarch) == 6;
    assert Span(LateMarch) == 2;
  }

  /** A leave from 25 February to 2 March 2024 is counted with its full seven
      days in February and again in March, although only five of its days lie
      in February and two in March. */
  lemma CrossMonthLeaveCountedTwice()
    ensures TotalLeaveDays(7, [AcrossMonths], February10) == Some(7)
    ensures TotalLeaveDays(7, [AcrossMonths], March15) == Some(7)
    ensures OverlapDays(AcrossMonths, FirstOfMonth(February10), LastOfMonth(February10)) == 5
    ensures OverlapDays(AcrossMonths, FirstOfMonth(March15), LastOfMonth(March15)) == 2
  {
    MarchBounds();
    TwoRows(AcrossMonths, AcrossMonths, February10);
    TwoRows(AcrossMonths, AcrossMonths, March15);
    assert Selected(AcrossMonths, 7, FirstOfMonth(February10), LastOfMonth(February10));
    assert Selected(AcrossMonths, 7, FirstOfMonth(March15), LastOfMonth(March15));
    assert Span(AcrossMonths) == 7;
  }

  /** Nothing stops a leave from ending before it starts. Such a leave inside
      the month still passes both date tests of the filter and adds its
      negative span, so the month's total can be negative: the well-ordering
      premise of `WellOrderedLeavesGiveNonNegativeTotal` is needed. */
  lemma ReversedLeaveGivesNegativeTotal()
    ensures !LessEq(ReversedMarch.startDate, ReversedMarch.endDate)
    ensures TotalLeaveDays(7, [ReversedMarch], March15) == Some(-4)
  {
    MarchBounds();
    TwoRows(ReversedMarch, ReversedMarch, March15);
    assert Selected(ReversedMarch, 7, FirstOfMonth(March15), LastOfMonth(March15));
    assert Span(ReversedMarch) == -4;
  }
}
