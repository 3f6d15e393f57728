/** The table behind the backend's hours report (server.py lines 634-709,
    `generate_hours_report`): the employee selection, the weekday-only date
    range, and one row per employee whose cells read "F" on a holiday, "A"
    on an absence and the day's `HH:MM` otherwise, closed by the total of
    the counted days. The PDF layout around the table is not modelled. */
module HoursReport {
  import opened Wrappers
  import opened Lists
  import opened Text
  import opened Calendar
  import opened Records
  import opened ServerTime
  import opened Hours
  import opened WeekSchedule

  /** One table row after the header. */
  datatype ReportRow = ReportRow(name: string, cells: seq<string>, total: string)

  /** The table: its date columns and its rows. */
  datatype Report = Report(dateRange: seq<Day>, rows: seq<ReportRow>)

  /** The employees the report covers: all of them when `employee_ids` is
      empty, otherwise those whose id is one of its comma-separated
      pieces, in store order. */
  function SelectedEmployees(employees: seq<Employee>, employeeIds: string): seq<Employee>
  {
    if employeeIds == [] then employees
    else Filter(employees, (e: Employee) => e.id in Split(employeeIds, ','))
  }

  /** Selection keeps store order and picks exactly the employees with a
      listed id, every copy of them. */
  lemma SelectionExactly(employees: seq<Employee>, employeeIds: string, e: Employee)
    ensures e in SelectedEmployees(employees, employeeIds) <==>
      e in employees && (employeeIds == [] || e.id in Split(employeeIds, ','))
    ensures multiset(SelectedEmployees(employees, employeeIds))[e] ==
      if employeeIds == [] || e.id in Split(employeeIds, ',') then multiset(employees)[e] else 0
    ensures IsSubsequence(SelectedEmployees(employees, employeeIds), employees)
  {
    if employeeIds != [] {
      FilterMember(employees, (e: Employee) => e.id in Split(employeeIds, ','), e);
      FilterCount(employees, (e: Employee) => e.id in Split(employeeIds, ','), e);
      FilterIsSubsequence(employees, (e: Employee) => e.id in Split(employeeIds, ','));
    } else {
      FilterAll(employees, (e: Employee) => true);
      FilterIsSubsequence(employees, (e: Employee) => true);
    }
  }

  /** The `while current <= end` loop: one day at a time, keeping the
      weekdays. */
  method DateRange(start: Day, end: Day) returns (dates: seq<Day>)
    ensures dates == WeekdaysIn(start, end)
  {
    dates := [];
    var current := start;
    assert WeekdaysIn(start, start - 1) == [];
    while current <= end
      invariant start <= current <= end + 1 || (current == start && end < start)
      invariant dates == WeekdaysIn(start, current - 1)
      decreases end - current
    {
      if Weekday(current) < 5 {
        dates := dates + [current];
      }
      current := current + 1;
    }
    if end < start {
      assert WeekdaysIn(start, end) == [];
    }
  }

  /** The date range holds exactly the weekdays between the two dates, in
      ascending order. */
  lemma DateRangeExactly(start: Day, end: Day, d: Day)
    ensures d in WeekdaysIn(start, end) <==> start <= d <= end && IsWeekday(d)
    ensures StrictlyIncreasing(WeekdaysIn(start, end))
  {
    WeekdaysInMember(start, end, d);
    WeekdaysInIncreasing(start, end);
  }

  /** One cell: "F" on a holiday (checked first), "A" when one of the
      employee's absences covers the day, otherwise the day's minutes as
      `HH:MM`; `None` when those minutes cannot be computed. */
  function CellOf(emp: Employee, snap: Snapshot, d: Day): Option<string>
  {
    if d in HolidayDates(snap.holidays) then Some("F")
    else if IsAbsent(AbsencesOf(snap.absences, emp.id), d) then Some("A")
    else
      var m := DailyMinutes(AssignmentsOf(snap.assignments, emp.id), TasksOf(snap.temporaryTasks, emp.id), d);
      if m.None? then None else Some(FormatHoursMinutes(m.value))
  }

  /** `row` is the row the report builds for `emp` over `dates`. */
  ghost predicate IsReportRow(row: ReportRow, emp: Employee, snap: Snapshot, dates: seq<Day>)
  {
    && row.name == emp.name
    && CellsFor(emp, snap, dates, row.cells)
    && WeekMinutes(emp, snap, dates).Some?
    && row.total == FormatHoursMinutes(WeekMinutes(emp, snap, dates).value)
  }

  /** A cell can be computed exactly when the day's minutes can, and the
      two agree on whether the day counts. */
  lemma CellMatchesDay(emp: Employee, snap: Snapshot, d: Day)
    ensures CellOf(emp, snap, d).Some? <==> DayMinutes(emp, snap, d).Some?
  {
  }

  /** `cells` are the cells of `dates`, in order. */
  ghost predicate CellsFor(emp: Employee, snap: Snapshot, dates: seq<Day>, cells: seq<string>)
  {
    && |cells| == |dates|
    && forall i :: 0 <= i < |dates| ==> CellOf(emp, snap, dates[i]) == Some(cells[i])
  }

  /** Appending the next date's cell extends the cells by that date. */
  lemma CellNext(emp: Employee, snap: Snapshot, dates: seq<Day>, j: nat, cells: seq<string>, cell: string)
    requires j < |dates| && CellsFor(emp, snap, dates[..j], cells)
    requires CellOf(emp, snap, dates[j]) == Some(cell)
    ensures CellsFor(emp, snap, dates[..j + 1], cells + [cell])
  {
    forall i | 0 <= i < j + 1
      ensures CellOf(emp, snap, dates[..j + 1][i]) == Some((cells + [cell])[i])
    {
      if i < j {
        assert dates[..j + 1][i] == dates[..j][i];
      }
    }
  }

  /** The loop over the dates for one employee: the cells, and the total of
      the days that are neither holidays nor absences. One pass of the loop
      body is `DayCell`. */
  method ReportRowFor(emp: Employee, snap: Snapshot, dates: seq<Day>) returns (r: Option<ReportRow>)
    ensures r.None? <==> WeekMinutes(emp, snap, dates).None?
    ensures r.Some? ==> IsReportRow(r.value, emp, snap, dates)
  {
    var cells: seq<string> := [];
    var total := 0;
    for j := 0 to |dates|
      invariant CellsFor(emp, snap, dates[..j], cells)
      invariant WeekMinutes(emp, snap, dates[..j]) == Some(total)
    {
      var entry := DayCell(emp, snap, dates[j]);
      if entry.None? {
        WeekMinutesFails(emp, snap, dates, j);
        return None;
      }
      var (cell, minutes) := entry.value;
      CellNext(emp, snap, dates, j, cells, cell);
      WeekMinutesExtend(emp, snap, dates, j, total, minutes);
      total := total + minutes;
      cells := cells + [cell];
    }
    assert dates[..|dates|] == dates;
    return Some(ReportRow(emp.name, cells, FormatHoursMinutes(total)));
  }

  /** One pass of the loop over the dates: the cell written for `d` and
      the minutes it adds to the total ("F" and "A" add nothing). */
  method DayCell(emp: Employee, snap: Snapshot, d: Day) returns (r: Option<(string, int)>)
    ensures r.None? <==> DayMinutes(emp, snap, d).None?
    ensures r.Some? ==> CellOf(emp, snap, d) == Some(r.value.0) && DayMinutes(emp, snap, d) == Some(r.value.1)
  {
    if d in HolidayDates(snap.holidays) {
      return Some(("F", 0));
    }
    var empAbsences := AbsencesOf(snap.absences, emp.id);
    var absent := exists i :: 0 <= i < |empAbsences| && empAbsences[i].startDate <= d <= empAbsences[i].endDate;
    if absent {
      return Some(("A", 0));
    }
    var m := CalculateDailyHours(AssignmentsOf(snap.assignments, emp.id), TasksOf(snap.temporaryTasks, emp.id), d);
    if m.None? {
      return None;
    }
    return Some((FormatHoursMinutes(m.value), m.value));
  }

  /** The rows built so far, one per each of the first `n` selected
      employees, in order. */
  ghost predicate RowsOf(rows: seq<ReportRow>, emps: seq<Employee>, n: nat, snap: Snapshot, dates: seq<Day>)
  {
    && n <= |emps| && |rows| == n
    && forall k :: 0 <= k < n ==> IsReportRow(rows[k], emps[k], snap, dates)
  }

  /** Appending the next employee's row extends the rows built so far. */
  lemma RowNext(rows: seq<ReportRow>, emps: seq<Employee>, n: nat, row: ReportRow, snap: Snapshot, dates: seq<Day>)
    requires n < |emps| && RowsOf(rows, emps, n, snap, dates)
    requires IsReportRow(row, emps[n], snap, dates)
    ensures RowsOf(rows + [row], emps, n + 1, snap, dates)
  {
    var next := rows + [row];
    forall k | 0 <= k < n + 1
      ensures IsReportRow(next[k], emps[k], snap, dates)
    {
      if k < n {
        assert next[k] == rows[k];
      }
    }
  }

  /** `generate_hours_report` up to the table: selection, date range, and
      one row per selected employee. It fails when a counted day holds a
      time that does not parse. */
  method GenerateHoursReport(snap: Snapshot, start: Day, end: Day, employeeIds: string) returns (r: Option<Report>)
    ensures var selected := SelectedEmployees(snap.employees, employeeIds);
      r.None? <==> exists i :: 0 <= i < |selected| && WeekMinutes(selected[i], snap, WeekdaysIn(start, end)).None?
    ensures var selected := SelectedEmployees(snap.employees, employeeIds);
      r.Some? ==>
        && r.value.dateRange == WeekdaysIn(start, end)
        && |r.value.rows| == |selected|
        && forall i :: 0 <= i < |selected| ==> IsReportRow(r.value.rows[i], selected[i], snap, r.value.dateRange)
  {
    var selected := SelectedEmployees(snap.employees, employeeIds);
    var dates := DateRange(start, end);
    var rows: seq<ReportRow> := [];
    for i := 0 to |selected|
      invariant RowsOf(rows, selected, i, snap, dates)
    {
      var row := ReportRowFor(selected[i], snap, dates);
      if row.None? {
        return None;
      }
      RowNext(rows, selected, i, row.value, snap, dates);
      rows := rows + [row.value];
    }
    return Some(Report(dates, rows));
  }

  /** What a cell reads back as: "F" and "A" count nothing, any other cell
      is a time. */
  function CellValue(cell: string): Option<int>
  {
    if cell == "F" || cell == "A" then Some(0) else TimeToMinutes(cell)
  }

  /** A formatted duration is never mistaken for a marker. */
  lemma FormattedIsNotMarker(m: int)
    ensures FormatHoursMinutes(m) != "F" && FormatHoursMinutes(m) != "A"
  {
    assert |FormatHoursMinutes(m)| >= 5;
  }

  /** Reading a cell back gives the minutes the day contributes. */
  lemma CellReadsBack(emp: Employee, snap: Snapshot, d: Day)
    requires CellOf(emp, snap, d).Some?
    ensures CellValue(CellOf(emp, snap, d).value) == DayMinutes(emp, snap, d)
  {
    if d !in HolidayDates(snap.holidays) && !IsAbsent(AbsencesOf(snap.absences, emp.id), d) {
      var m := DailyMinutes(AssignmentsOf(snap.assignments, emp.id), TasksOf(snap.temporaryTasks, emp.id), d);
      FormattedIsNotMarker(m.value);
      FormatIsMinutesToTime(m.value);
      TimeRoundTrip(m.value);
    }
  }

  /** The total column is the sum of the numeric cells read back: markers
      add nothing, and the total reads back as that sum. */
  lemma {:induction false} RowAddsUp(row: ReportRow, emp: Employee, snap: Snapshot, dates: seq<Day>)
    requires IsReportRow(row, emp, snap, dates)
    ensures Total(row.cells, CellValue) == WeekMinutes(emp, snap, dates)
    ensures TimeToMinutes(row.total) == Total(row.cells, CellValue)
  {
    CellsAddUp(row.cells, emp, snap, dates);
    FormatIsMinutesToTime(WeekMinutes(emp, snap, dates).value);
    TimeRoundTrip(WeekMinutes(emp, snap, dates).value);
  }

  lemma {:induction false} CellsAddUp(cells: seq<string>, emp: Employee, snap: Snapshot, dates: seq<Day>)
    requires |cells| == |dates|
    requires forall i :: 0 <= i < |dates| ==> CellOf(emp, snap, dates[i]) == Some(cells[i])
    ensures Total(cells, CellValue) == WeekMinutes(emp, snap, dates)
  {
    if dates != [] {
      CellReadsBack(emp, snap, dates[0]);
      CellsAddUp(cells[1..], emp, snap, dates[1..]);
    }
  }

  /** The report and the week schedule agree: over the same dates, an
      employee's row total is the schedule's formatted weekly total, and
      every counted day's cell is that day's entry of `daily_hours`,
      formatted. */
  lemma ReportMatchesSchedule(row: ReportRow, w: EmployeeWeek, emp: Employee, snap: Snapshot, dates: seq<Day>, i: nat)
    requires IsReportRow(row, emp, snap, dates) && IsEmployeeWeek(w, emp, snap, dates)
    requires i < |dates|
    ensures row.total == w.weeklyTotalFormatted
    ensures row.cells[i] == "F" <==> dates[i] in HolidayDates(snap.holidays)
    ensures row.cells[i] != "F" && row.cells[i] != "A" ==> row.cells[i] == FormatHoursMinutes(w.dailyHours[dates[i]])
  {
    var d := dates[i];
    if d !in HolidayDates(snap.holidays) {
      if IsAbsent(AbsencesOf(snap.absences, emp.id), d) {
        assert row.cells[i] == "A";
      } else {
        var m := DailyMinutes(AssignmentsOf(snap.assignments, emp.id), TasksOf(snap.temporaryTasks, emp.id), d);
        FormattedIsNotMarker(m.value);
      }
    }
  }
}
