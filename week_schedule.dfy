/** The computation behind the backend's week schedule (server.py lines
    462-561, `get_schedule`): the five week dates, each employee's daily
    minutes and weekly total, and the pool of work that needs a replacement.
    The five collections arrive as a `Snapshot`; the current date, used when
    no week start is given, is a parameter. */
module WeekSchedule {
  import opened Wrappers
  import opened Lists
  import opened Calendar
  import opened Records
  import opened ServerTime
  import opened Hours

  /** The assignments whose `employee_id` equals `id`. */
  function AssignmentsOf(assignments: seq<Assignment>, id: string): seq<Assignment>
  {
    Filter(assignments, (a: Assignment) => a.employeeId == Some(id))
  }

  /** The temporary tasks whose `employee_id` equals `id`. */
  function TasksOf(tasks: seq<TemporaryTask>, id: string): seq<TemporaryTask>
  {
    Filter(tasks, (t: TemporaryTask) => t.employeeId == Some(id))
  }

  /** The absences whose `employee_id` equals `id`. */
  function AbsencesOf(absences: seq<Absence>, id: string): seq<Absence>
  {
    Filter(absences, (a: Absence) => a.employeeId == id)
  }

  /** `any(a['start_date'] <= date <= a['end_date'] for a in absences)`. */
  predicate IsAbsent(absences: seq<Absence>, d: Day)
  {
    exists i :: 0 <= i < |absences| && absences[i].startDate <= d <= absences[i].endDate
  }

  /** The set `{h['date'] for h in holidays}`. */
  function HolidayDates(holidays: seq<Holiday>): set<Day>
  {
    set h | h in holidays :: h.date
  }

  /** The week dates: with a week start, the weekdays among the seven days
      from it; without one (a missing or empty parameter), Monday to Friday
      of the week holding `today`. */
  function WeekDatesOf(weekStart: Option<Day>, today: Day): seq<Day>
  {
    if weekStart.Some? then WeekdaysIn(weekStart.value, weekStart.value + 6)
    else
      var monday := today - Weekday(today);
      [monday, monday + 1, monday + 2, monday + 3, monday + 4]
  }

  /** The loops that build `week_dates`: seven steps keeping the weekdays,
      or five steps from the Monday. */
  method WeekDates(weekStart: Option<Day>, today: Day) returns (dates: seq<Day>)
    ensures dates == WeekDatesOf(weekStart, today)
  {
    dates := [];
    if weekStart.Some? {
      var start := weekStart.value;
      assert WeekdaysIn(start, start - 1) == [];
      for i := 0 to 7
        invariant dates == WeekdaysIn(start, start + i - 1)
      {
        if Weekday(start + i) < 5 {
          dates := dates + [start + i];
        }
      }
    } else {
      var monday := today - Weekday(today);
      for i := 0 to 5
        invariant |dates| == i && forall k :: 0 <= k < i ==> dates[k] == monday + k
      {
        dates := dates + [monday + i];
      }
    }
  }

  /** There are always exactly five week dates, ascending, all of them
      weekdays; with a week start on a weekday, that day comes first, and
      without one they run from Monday to Friday. */
  lemma WeekDatesShape(weekStart: Option<Day>, today: Day)
    ensures var dates := WeekDatesOf(weekStart, today);
      && |dates| == 5
      && StrictlyIncreasing(dates)
      && (forall i :: 0 <= i < 5 ==> IsWeekday(dates[i]))
      && (weekStart.Some? && IsWeekday(weekStart.value) ==> dates[0] == weekStart.value)
      && (weekStart.None? ==>
            Weekday(dates[0]) == 0 && dates[4] == dates[0] + 4
            && dates[0] == today - Weekday(today) && dates[0] <= today < dates[0] + 7)
  {
    var dates := WeekDatesOf(weekStart, today);
    if weekStart.Some? {
      var s := weekStart.value;
      WeekdaysInSevenDays(s);
      WeekdaysInIncreasing(s, s + 6);
      forall i | 0 <= i < 5
        ensures IsWeekday(dates[i])
      {
        WeekdaysInMember(s, s + 6, dates[i]);
      }
      if IsWeekday(s) {
        WeekdaysInFirst(s, s + 6);
      }
    } else {
      var monday := today - Weekday(today);
      forall i | 0 <= i < 5
        ensures IsWeekday(dates[i])
      {
        WeekdayAdd(monday, i);
      }
    }
  }

  /** The minutes recorded for an employee on one week date: zero on a
      holiday (checked first), zero when one of the employee's absences
      covers the date, otherwise `calculate_daily_hours` over the employee's
      own assignments and tasks. */
  function DayMinutes(emp: Employee, snap: Snapshot, d: Day): Option<int>
  {
    if d in HolidayDates(snap.holidays) then Some(0)
    else if IsAbsent(AbsencesOf(snap.absences, emp.id), d) then Some(0)
    else DailyMinutes(AssignmentsOf(snap.assignments, emp.id), TasksOf(snap.temporaryTasks, emp.id), d)
  }

  /** The employee's minutes summed over the week dates. */
  function WeekMinutes(emp: Employee, snap: Snapshot, dates: seq<Day>): Option<int>
  {
    Total(dates, d => DayMinutes(emp, snap, d))
  }

  /** A successful partial week extended by a successful day. */
  lemma WeekMinutesExtend(emp: Employee, snap: Snapshot, dates: seq<Day>, j: nat, total: int, m: int)
    requires j < |dates| && WeekMinutes(emp, snap, dates[..j]) == Some(total)
    requires DayMinutes(emp, snap, dates[j]) == Some(m)
    ensures WeekMinutes(emp, snap, dates[..j + 1]) == Some(total + m)
  {
    TotalExtend(dates, j, d => DayMinutes(emp, snap, d), total, m);
  }

  /** One failing day makes the week fail. */
  lemma WeekMinutesFails(emp: Employee, snap: Snapshot, dates: seq<Day>, j: nat)
    requires j < |dates| && DayMinutes(emp, snap, dates[j]).None?
    ensures WeekMinutes(emp, snap, dates).None?
  {
    FailsOn(dates, j, d => DayMinutes(emp, snap, d));
  }

  /** One entry of `schedule`. */
  datatype EmployeeWeek = EmployeeWeek(
    employee: Employee,
    assignments: seq<Assignment>,
    temporaryTasks: seq<TemporaryTask>,
    absences: seq<Absence>,
    dailyHours: map<Day, int>,
    weeklyTotal: int,
    weeklyTotalFormatted: string)

  /** `w` is the schedule entry `get_schedule` builds for `emp`. */
  ghost predicate IsEmployeeWeek(w: EmployeeWeek, emp: Employee, snap: Snapshot, dates: seq<Day>)
  {
    && w.employee == emp
    && w.assignments == AssignmentsOf(snap.assignments, emp.id)
    && w.temporaryTasks == TasksOf(snap.temporaryTasks, emp.id)
    && w.absences == AbsencesOf(snap.absences, emp.id)
    && Recorded(emp, snap, dates, w.dailyHours)
    && WeekMinutes(emp, snap, dates) == Some(w.weeklyTotal)
    && w.weeklyTotalFormatted == FormatHoursMinutes(w.weeklyTotal)
  }

  /** `daily` records, for every date in `dates` and for no other date,
      the minutes of that day. */
  ghost predicate Recorded(emp: Employee, snap: Snapshot, dates: seq<Day>, daily: map<Day, int>)
  {
    && (forall d :: d in daily ==> d in dates)
    && (forall i :: 0 <= i < |dates| ==> dates[i] in daily && DayMinutes(emp, snap, dates[i]) == Some(daily[dates[i]]))
  }

  /** Recording the next date's minutes extends what is recorded by that
      date. */
  lemma RecordNext(emp: Employee, snap: Snapshot, dates: seq<Day>, j: nat, daily: map<Day, int>, m: int)
    requires j < |dates| && Recorded(emp, snap, dates[..j], daily)
    requires DayMinutes(emp, snap, dates[j]) == Some(m)
    ensures Recorded(emp, snap, dates[..j + 1], daily[dates[j] := m])
  {
    var next := daily[dates[j] := m];
    forall i | 0 <= i < j + 1
      ensures dates[i] in next && DayMinutes(emp, snap, dates[i]) == Some(next[dates[i]])
    {
      if i < j {
        assert dates[i] == dates[..j][i];
      }
    }
    forall d | d in next
      ensures d in dates[..j + 1]
    {
      if d != dates[j] {
        assert d in dates[..j];
      }
    }
  }

  /** The body of the per-employee loop: one pass over the week dates
      filling `daily_hours` and adding the counted days to `weekly_total`
      (one date's pass is `DayHours`). It fails when some counted day's
      records do not parse. */
  method EmployeeWeekOf(emp: Employee, snap: Snapshot, dates: seq<Day>) returns (r: Option<EmployeeWeek>)
    ensures r.None? <==> WeekMinutes(emp, snap, dates).None?
    ensures r.Some? ==> IsEmployeeWeek(r.value, emp, snap, dates)
    ensures r.Some? ==> r.value.weeklyTotal == SumDays(dates, r.value.dailyHours)
  {
    var daily: map<Day, int> := map[];
    var total := 0;
    for j := 0 to |dates|
      invariant Recorded(emp, snap, dates[..j], daily)
      invariant WeekMinutes(emp, snap, dates[..j]) == Some(total)
    {
      var m := DayHours(emp, snap, dates[j]);
      if m.None? {
        WeekMinutesFails(emp, snap, dates, j);
        return None;
      }
      RecordNext(emp, snap, dates, j, daily, m.value);
      WeekMinutesExtend(emp, snap, dates, j, total, m.value);
      daily := daily[dates[j] := m.value];
      total := total + m.value;
    }
    assert dates[..|dates|] == dates;
    var w := EmployeeWeek(emp, AssignmentsOf(snap.assignments, emp.id), TasksOf(snap.temporaryTasks, emp.id),
                          AbsencesOf(snap.absences, emp.id), daily, total, FormatHoursMinutes(total));
    WeeklyTotalIsSumOfDays(w, emp, snap, dates);
    return Some(w);
  }

  /** One date's pass: 0 on a holiday, 0 on an absence (both skip the
      addition, which adds the same), otherwise `calculate_daily_hours`. */
  method DayHours(emp: Employee, snap: Snapshot, d: Day) returns (r: Option<int>)
    ensures r == DayMinutes(emp, snap, d)
  {
    if d in HolidayDates(snap.holidays) {
      return Some(0);
    }
    var empAbsences := AbsencesOf(snap.absences, emp.id);
    var absent := exists i :: 0 <= i < |empAbsences| && empAbsences[i].startDate <= d <= empAbsences[i].endDate;
    if absent {
      return Some(0);
    }
    r := CalculateDailyHours(AssignmentsOf(snap.assignments, emp.id), TasksOf(snap.temporaryTasks, emp.id), d);
  }

  /** The sum of a day-to-minutes table over the given dates. */
  function SumDays(dates: seq<Day>, table: map<Day, int>): int
    requires forall i :: 0 <= i < |dates| ==> dates[i] in table
  {
    if dates == [] then 0 else table[dates[0]] + SumDays(dates[1..], table)
  }

  /** `weekly_total` is the sum of `daily_hours` over the week dates: the
      days the loop skips (holidays, absences) are exactly the days it
      records as zero. */
  lemma WeeklyTotalIsSumOfDays(w: EmployeeWeek, emp: Employee, snap: Snapshot, dates: seq<Day>)
    requires IsEmployeeWeek(w, emp, snap, dates)
    ensures w.weeklyTotal == SumDays(dates, w.dailyHours)
  {
    SumMatches(emp, snap, dates, w.dailyHours);
  }

  lemma {:induction false} SumMatches(emp: Employee, snap: Snapshot, dates: seq<Day>, table: map<Day, int>)
    requires forall i :: 0 <= i < |dates| ==> dates[i] in table && DayMinutes(emp, snap, dates[i]) == Some(table[dates[i]])
    ensures WeekMinutes(emp, snap, dates) == Some(SumDays(dates, table))
  {
    if dates != [] {
      SumMatches(emp, snap, dates[1..], table);
    }
  }

  /** The three cases of a recorded day: a holiday records zero whatever
      else holds, an absence records zero, and any other day records the
      summed minutes of the employee's own assignments and tasks. */
  lemma DailyHoursCases(w: EmployeeWeek, emp: Employee, snap: Snapshot, dates: seq<Day>, d: Day)
    requires IsEmployeeWeek(w, emp, snap, dates) && d in w.dailyHours
    ensures d in HolidayDates(snap.holidays) ==> w.dailyHours[d] == 0
    ensures IsAbsent(w.absences, d) ==> w.dailyHours[d] == 0
    ensures d !in HolidayDates(snap.holidays) && !IsAbsent(w.absences, d) ==>
              DailyMinutes(w.assignments, w.temporaryTasks, d) == Some(w.dailyHours[d])
  {
  }

  /** One element of `absent_items`: an assignment of an absent employee
      that is active on one of the week dates. */
  datatype AbsentItem = AbsentItem(assignment: Assignment, date: Day, originalEmployee: string)

  /** `item` is the entry the replacement loop adds for employee `emp`
      on day `d`: one of the employee's absences is in force that day, and
      the item's assignment is one of the employee's, active that day. */
  ghost predicate Replaces(item: AbsentItem, emp: Employee, snap: Snapshot, d: Day)
  {
    && IsAbsent(AbsencesOf(snap.absences, emp.id), d)
    && item.assignment in AssignmentsOf(snap.assignments, emp.id)
    && Covers(item.assignment, d)
    && item.date == d && item.originalEmployee == emp.name
  }

  /** The items one assignment list yields on day `d` for an employee named
      `name`: those active on `d`, in order. */
  function ActiveItems(assignments: seq<Assignment>, d: Day, name: string): seq<AbsentItem>
  {
    if assignments == [] then []
    else
      var n := |assignments| - 1;
      ActiveItems(assignments[..n], d, name)
        + (if Covers(assignments[n], d) then [AbsentItem(assignments[n], d, name)] else [])
  }

  /** The items one employee yields over the given dates. */
  function EmployeeAbsentItems(emp: Employee, snap: Snapshot, dates: seq<Day>): seq<AbsentItem>
  {
    if dates == [] then []
    else
      var n := |dates| - 1;
      EmployeeAbsentItems(emp, snap, dates[..n])
        + (if IsAbsent(AbsencesOf(snap.absences, emp.id), dates[n])
           then ActiveItems(AssignmentsOf(snap.assignments, emp.id), dates[n], emp.name)
           else [])
  }

  /** `absent_items`, employee by employee. */
  function AbsentItemsOf(employees: seq<Employee>, snap: Snapshot, dates: seq<Day>): seq<AbsentItem>
  {
    if employees == [] then []
    else
      var n := |employees| - 1;
      AbsentItemsOf(employees[..n], snap, dates) + EmployeeAbsentItems(employees[n], snap, dates)
  }

  /** The triple loop that fills `replacement_items`: employee by
      employee, the two inner levels being `EmployeeItems`. */
  method AbsentItems(employees: seq<Employee>, snap: Snapshot, dates: seq<Day>) returns (items: seq<AbsentItem>)
    ensures items == AbsentItemsOf(employees, snap, dates)
  {
    items := [];
    for i := 0 to |employees|
      invariant items == AbsentItemsOf(employees[..i], snap, dates)
    {
      assert employees[..i + 1][..i] == employees[..i];
      var found := EmployeeItems(employees[i], snap, dates);
      items := items + found;
    }
    assert employees[..|employees|] == employees;
  }

  /** The loop over the week dates for one employee: on each date one of
      the employee's absences covers, the employee's active assignments. */
  method EmployeeItems(emp: Employee, snap: Snapshot, dates: seq<Day>) returns (items: seq<AbsentItem>)
    ensures items == EmployeeAbsentItems(emp, snap, dates)
  {
    var empAbsences := AbsencesOf(snap.absences, emp.id);
    items := [];
    for j := 0 to |dates|
      invariant items == EmployeeAbsentItems(emp, snap, dates[..j])
    {
      var d := dates[j];
      assert dates[..j + 1][..j] == dates[..j];
      var absent := exists k :: 0 <= k < |empAbsences| && empAbsences[k].startDate <= d <= empAbsences[k].endDate;
      if absent {
        var empAssignments := AssignmentsOf(snap.assignments, emp.id);
        var active := ActiveAssignments(empAssignments, d, emp.name);
        items := items + active;
      } else {
        assert items == items + [];
      }
    }
    assert dates[..|dates|] == dates;
  }

  /** The innermost loop: the assignments whose date range covers `d`. */
  method ActiveAssignments(assignments: seq<Assignment>, d: Day, name: string) returns (items: seq<AbsentItem>)
    ensures items == ActiveItems(assignments, d, name)
  {
    items := [];
    for k := 0 to |assignments|
      invariant items == ActiveItems(assignments[..k], d, name)
    {
      assert assignments[..k + 1][..k] == assignments[..k];
      if Covers(assignments[k], d) {
        items := items + [AbsentItem(assignments[k], d, name)];
      } else {
        assert items == items + [];
      }
    }
    assert assignments[..|assignments|] == assignments;
  }

  /** An item is in the pool exactly when it names one of the employees, a
      week date on which one of that employee's absences is in force, and an
      assignment of that employee active on that date; holidays play no
      part. */
  lemma AbsentItemMember(employees: seq<Employee>, snap: Snapshot, dates: seq<Day>, item: AbsentItem)
    ensures item in AbsentItemsOf(employees, snap, dates) <==>
      exists i, j :: 0 <= i < |employees| && 0 <= j < |dates| && Replaces(item, employees[i], snap, dates[j])
  {
    if item in AbsentItemsOf(employees, snap, dates) {
      AbsentItemsSound(employees, snap, dates, item);
    }
    if exists i, j :: 0 <= i < |employees| && 0 <= j < |dates| && Replaces(item, employees[i], snap, dates[j]) {
      var i, j :| 0 <= i < |employees| && 0 <= j < |dates| && Replaces(item, employees[i], snap, dates[j]);
      AbsentItemsComplete(employees, snap, dates, item, i, j);
    }
  }

  /** The items of the last employee and of the employees before. */
  lemma AbsentItemsLast(employees: seq<Employee>, snap: Snapshot, dates: seq<Day>, item: AbsentItem)
    requires employees != []
    ensures var n := |employees| - 1;
      item in AbsentItemsOf(employees, snap, dates) <==>
        item in AbsentItemsOf(employees[..n], snap, dates) || item in EmployeeAbsentItems(employees[n], snap, dates)
  {
  }

  lemma {:induction false} AbsentItemsSound(employees: seq<Employee>, snap: Snapshot, dates: seq<Day>, item: AbsentItem)
    requires item in AbsentItemsOf(employees, snap, dates)
    ensures exists i, j :: 0 <= i < |employees| && 0 <= j < |dates| && Replaces(item, employees[i], snap, dates[j])
  {
    var n := |employees| - 1;
    AbsentItemsLast(employees, snap, dates, item);
    if item in EmployeeAbsentItems(employees[n], snap, dates) {
      EmployeeItemsSound(employees[n], snap, dates, item);
      var j :| 0 <= j < |dates| && Replaces(item, employees[n], snap, dates[j]);
    } else {
      AbsentItemsSound(employees[..n], snap, dates, item);
      var i, j :| 0 <= i < n && 0 <= j < |dates| && Replaces(item, employees[..n][i], snap, dates[j]);
      assert employees[..n][i] == employees[i];
    }
  }

  lemma {:induction false} AbsentItemsComplete(employees: seq<Employee>, snap: Snapshot, dates: seq<Day>,
                                               item: AbsentItem, i: nat, j: nat)
    requires i < |employees| && j < |dates| && Replaces(item, employees[i], snap, dates[j])
    ensures item in AbsentItemsOf(employees, snap, dates)
  {
    var n := |employees| - 1;
    AbsentItemsLast(employees, snap, dates, item);
    if i < n {
      assert employees[..n][i] == employees[i];
      AbsentItemsComplete(employees[..n], snap, dates, item, i, j);
    } else {
      assert i == n;
      EmployeeItemsComplete(employees[i], snap, dates, item, j);
    }
  }

  lemma {:induction false} ActiveItemsMember(assignments: seq<Assignment>, d: Day, name: string, item: AbsentItem)
    ensures item in ActiveItems(assignments, d, name) <==>
      item.assignment in assignments && Covers(item.assignment, d) && item.date == d && item.originalEmployee == name
  {
    if assignments != [] {
      var n := |assignments| - 1;
      ActiveItemsMember(assignments[..n], d, name, item);
      assert assignments == assignments[..n] + [assignments[n]];
    }
  }

  lemma EmployeeItemsMember(emp: Employee, snap: Snapshot, dates: seq<Day>, item: AbsentItem)
    ensures item in EmployeeAbsentItems(emp, snap, dates) <==>
      exists j :: 0 <= j < |dates| && Replaces(item, emp, snap, dates[j])
  {
    if item in EmployeeAbsentItems(emp, snap, dates) {
      EmployeeItemsSound(emp, snap, dates, item);
    }
    if exists j :: 0 <= j < |dates| && Replaces(item, emp, snap, dates[j]) {
      var j :| 0 <= j < |dates| && Replaces(item, emp, snap, dates[j]);
      EmployeeItemsComplete(emp, snap, dates, item, j);
    }
  }

  /** The items of the last date and of the dates before it. */
  lemma EmployeeItemsLast(emp: Employee, snap: Snapshot, dates: seq<Day>, item: AbsentItem)
    requires dates != []
    ensures var n := |dates| - 1;
      item in EmployeeAbsentItems(emp, snap, dates) <==>
        item in EmployeeAbsentItems(emp, snap, dates[..n]) || Replaces(item, emp, snap, dates[n])
  {
    var n := |dates| - 1;
    ActiveItemsMember(AssignmentsOf(snap.assignments, emp.id), dates[n], emp.name, item);
  }

  lemma {:induction false} EmployeeItemsSound(emp: Employee, snap: Snapshot, dates: seq<Day>, item: AbsentItem)
    requires item in EmployeeAbsentItems(emp, snap, dates)
    ensures exists j :: 0 <= j < |dates| && Replaces(item, emp, snap, dates[j])
  {
    var n := |dates| - 1;
    EmployeeItemsLast(emp, snap, dates, item);
    if Replaces(item, emp, snap, dates[n]) {
    } else {
      EmployeeItemsSound(emp, snap, dates[..n], item);
      var j :| 0 <= j < n && Replaces(item, emp, snap, dates[..n][j]);
      assert dates[..n][j] == dates[j];
    }
  }

  lemma {:induction false} EmployeeItemsComplete(emp: Employee, snap: Snapshot, dates: seq<Day>, item: AbsentItem, j: nat)
    requires j < |dates| && Replaces(item, emp, snap, dates[j])
    ensures item in EmployeeAbsentItems(emp, snap, dates)
  {
    var n := |dates| - 1;
    EmployeeItemsLast(emp, snap, dates, item);
    if j < n {
      assert dates[..n][j] == dates[j];
      EmployeeItemsComplete(emp, snap, dates[..n], item, j);
    }
  }

  /** Each copy of an assignment active on `d` gives one item, and nothing
      else gives that item. */
  lemma {:induction false} ActiveItemsCount(assignments: seq<Assignment>, d: Day, name: string, item: AbsentItem)
    ensures multiset(ActiveItems(assignments, d, name))[item] ==
      if item.date == d && item.originalEmployee == name && Covers(item.assignment, d)
      then multiset(assignments)[item.assignment] else 0
  {
    if assignments != [] {
      var n := |assignments| - 1;
      ActiveItemsCount(assignments[..n], d, name, item);
      assert assignments == assignments[..n] + [assignments[n]];
    }
  }

  /** `emp` gives `item`, its date aside: the employee is absent on the
      item's date, the item's assignment covers that date, and the item
      names the employee. */
  ghost predicate Yields(item: AbsentItem, emp: Employee, snap: Snapshot)
  {
    && IsAbsent(AbsencesOf(snap.absences, emp.id), item.date)
    && Covers(item.assignment, item.date)
    && item.originalEmployee == emp.name
  }

  /** Over distinct dates, one employee lists an item once per copy of its
      assignment among the employee's own, when the item's date is one of
      the dates and the employee gives it; otherwise not at all. */
  lemma {:induction false} EmployeeItemsCount(emp: Employee, snap: Snapshot, dates: seq<Day>, item: AbsentItem)
    requires StrictlyIncreasing(dates)
    ensures multiset(EmployeeAbsentItems(emp, snap, dates))[item] ==
      if item.date in dates && Yields(item, emp, snap)
      then multiset(AssignmentsOf(snap.assignments, emp.id))[item.assignment] else 0
  {
    if dates != [] {
      var n := |dates| - 1;
      assert StrictlyIncreasing(dates[..n]);
      EmployeeItemsCount(emp, snap, dates[..n], item);
      ActiveItemsCount(AssignmentsOf(snap.assignments, emp.id), dates[n], emp.name, item);
      assert dates == dates[..n] + [dates[n]];
      if item.date == dates[n] {
        forall k | 0 <= k < n
          ensures dates[..n][k] != item.date
        {
        }
      }
    }
  }

  /** How many of `employees` give `item` and own its assignment. */
  ghost function Owners(employees: seq<Employee>, snap: Snapshot, item: AbsentItem): nat
  {
    if employees == [] then 0
    else
      var n := |employees| - 1;
      Owners(employees[..n], snap, item)
        + if item.assignment.employeeId == Some(employees[n].id) && Yields(item, employees[n], snap) then 1 else 0
  }

  /** Over distinct dates, the pool lists an item, for a week date, once
      per owner giving it and per stored copy of its assignment; an item of
      another date is not listed. */
  lemma {:induction false} AbsentItemsCount(employees: seq<Employee>, snap: Snapshot, dates: seq<Day>, item: AbsentItem)
    requires StrictlyIncreasing(dates)
    ensures multiset(AbsentItemsOf(employees, snap, dates))[item] ==
      if item.date in dates then Owners(employees, snap, item) * multiset(snap.assignments)[item.assignment] else 0
  {
    if employees != [] {
      var n := |employees| - 1;
      var emp := employees[n];
      var m := multiset(snap.assignments)[item.assignment];
      var earlier := Owners(employees[..n], snap, item);
      var b := if item.assignment.employeeId == Some(emp.id) && Yields(item, emp, snap) then 1 else 0;
      var before := multiset(AbsentItemsOf(employees[..n], snap, dates))[item];
      var own := multiset(EmployeeAbsentItems(emp, snap, dates))[item];
      assert before == if item.date in dates then earlier * m else 0 by {
        AbsentItemsCount(employees[..n], snap, dates, item);
      }
      assert own == if item.date in dates then b * m else 0 by {
        EmployeeItemsCount(emp, snap, dates, item);
        FilterCount(snap.assignments, (a: Assignment) => a.employeeId == Some(emp.id), item.assignment);
      }
      assert multiset(AbsentItemsOf(employees, snap, dates))[item] == before + own by {
        assert AbsentItemsOf(employees, snap, dates) == AbsentItemsOf(employees[..n], snap, dates) + EmployeeAbsentItems(emp, snap, dates);
      }
      assert Owners(employees, snap, item) == earlier + b;
      CountStep(before, own, earlier, b, m, item.date in dates);
    }
  }

  /** The arithmetic of one step of `AbsentItemsCount`. */
  lemma CountStep(before: int, own: int, earlier: int, b: int, m: int, dated: bool)
    requires before == if dated then earlier * m else 0
    requires own == if dated then b * m else 0
    ensures before + own == if dated then (earlier + b) * m else 0
  {
  }

  /** No employee owns an assignment bound to another id. */
  lemma {:induction false} OwnersOtherIds(employees: seq<Employee>, snap: Snapshot, item: AbsentItem, id: string)
    requires item.assignment.employeeId == Some(id)
    requires forall i :: 0 <= i < |employees| ==> employees[i].id != id
    ensures Owners(employees, snap, item) == 0
  {
    if employees != [] {
      var n := |employees| - 1;
      OwnersOtherIds(employees[..n], snap, item, id);
    }
  }

  /** With distinct employee ids, at most one employee owns an item, so the
      pool lists each (employee, absent date, active assignment) once per
      stored copy of the assignment. */
  lemma {:induction false} OwnersAtMostOne(employees: seq<Employee>, snap: Snapshot, item: AbsentItem)
    requires forall i, j :: 0 <= i < j < |employees| ==> employees[i].id != employees[j].id
    ensures Owners(employees, snap, item) <= 1
  {
    if employees != [] {
      var n := |employees| - 1;
      OwnersAtMostOne(employees[..n], snap, item);
      if item.assignment.employeeId == Some(employees[n].id) {
        OwnersOtherIds(employees[..n], snap, item, employees[n].id);
      }
    }
  }

  /** The whole response of `get_schedule`. */
  datatype Schedule = Schedule(
    schedule: seq<EmployeeWeek>,
    unassignedAssignments: seq<Assignment>,
    unassignedTasks: seq<TemporaryTask>,
    absentItems: seq<AbsentItem>,
    weekDates: seq<Day>,
    holidays: set<Day>)

  /** `[a for a in assignments if not a.get('employee_id')]`. */
  function UnassignedAssignments(assignments: seq<Assignment>): seq<Assignment>
  {
    Filter(assignments, (a: Assignment) => !IsSet(a.employeeId))
  }

  /** `[t for t in temp_tasks if not t.get('employee_id')]`. */
  function UnassignedTasks(tasks: seq<TemporaryTask>): seq<TemporaryTask>
  {
    Filter(tasks, (t: TemporaryTask) => !IsSet(t.employeeId))
  }

  /** The unassigned pools hold exactly the records without an employee
      (a missing or empty id), every copy of them, in store order. */
  lemma UnassignedExactly(assignments: seq<Assignment>, tasks: seq<TemporaryTask>)
    ensures forall a :: a in UnassignedAssignments(assignments) <==> a in assignments && !IsSet(a.employeeId)
    ensures forall t :: t in UnassignedTasks(tasks) <==> t in tasks && !IsSet(t.employeeId)
    ensures forall a :: multiset(UnassignedAssignments(assignments))[a] == if !IsSet(a.employeeId) then multiset(assignments)[a] else 0
    ensures forall t :: multiset(UnassignedTasks(tasks))[t] == if !IsSet(t.employeeId) then multiset(tasks)[t] else 0
    ensures IsSubsequence(UnassignedAssignments(assignments), assignments)
    ensures IsSubsequence(UnassignedTasks(tasks), tasks)
  {
    FilterIsSubsequence(assignments, (a: Assignment) => !IsSet(a.employeeId));
    FilterIsSubsequence(tasks, (t: TemporaryTask) => !IsSet(t.employeeId));
    forall a
      ensures a in UnassignedAssignments(assignments) <==> a in assignments && !IsSet(a.employeeId)
      ensures multiset(UnassignedAssignments(assignments))[a] == if !IsSet(a.employeeId) then multiset(assignments)[a] else 0
    {
      FilterMember(assignments, (a: Assignment) => !IsSet(a.employeeId), a);
      FilterCount(assignments, (a: Assignment) => !IsSet(a.employeeId), a);
    }
    forall t
      ensures t in UnassignedTasks(tasks) <==> t in tasks && !IsSet(t.employeeId)
      ensures multiset(UnassignedTasks(tasks))[t] == if !IsSet(t.employeeId) then multiset(tasks)[t] else 0
    {
      FilterMember(tasks, (t: TemporaryTask) => !IsSet(t.employeeId), t);
      FilterCount(tasks, (t: TemporaryTask) => !IsSet(t.employeeId), t);
    }
  }

  /** The weeks built so far, one per each of the first `n` employees, in
      order. */
  ghost predicate WeeksOf(schedule: seq<EmployeeWeek>, emps: seq<Employee>, n: nat, snap: Snapshot, dates: seq<Day>)
  {
    && n <= |emps| && |schedule| == n
    && forall k :: 0 <= k < n ==> IsEmployeeWeek(schedule[k], emps[k], snap, dates)
  }

  /** Appending the next employee's week extends the weeks built so far. */
  lemma WeekNext(schedule: seq<EmployeeWeek>, emps: seq<Employee>, n: nat, w: EmployeeWeek,
                 snap: Snapshot, dates: seq<Day>)
    requires n < |emps| && WeeksOf(schedule, emps, n, snap, dates)
    requires IsEmployeeWeek(w, emps[n], snap, dates)
    ensures WeeksOf(schedule + [w], emps, n + 1, snap, dates)
  {
    var next := schedule + [w];
    forall k | 0 <= k < n + 1
      ensures IsEmployeeWeek(next[k], emps[k], snap, dates)
    {
      if k < n {
        assert next[k] == schedule[k];
      }
    }
  }

  /** `get_schedule`: the week dates, the per-employee loop, the unassigned
      pools and the replacement loop. It fails when some employee's counted
      day holds a time that does not parse. */
  method GetSchedule(snap: Snapshot, weekStart: Option<Day>, today: Day) returns (r: Option<Schedule>)
    ensures r.None? <==> exists i :: 0 <= i < |snap.employees|
                          && WeekMinutes(snap.employees[i], snap, WeekDatesOf(weekStart, today)).None?
    ensures r.Some? ==>
      var s := r.value;
      && s.weekDates == WeekDatesOf(weekStart, today)
      && |s.schedule| == |snap.employees|
      && (forall i :: 0 <= i < |s.schedule| ==> IsEmployeeWeek(s.schedule[i], snap.employees[i], snap, s.weekDates))
      && s.unassignedAssignments == UnassignedAssignments(snap.assignments)
      && s.unassignedTasks == UnassignedTasks(snap.temporaryTasks)
      && s.absentItems == AbsentItemsOf(snap.employees, snap, s.weekDates)
      && s.holidays == HolidayDates(snap.holidays)
  {
    var dates := WeekDates(weekStart, today);
    var schedule: seq<EmployeeWeek> := [];
    for i := 0 to |snap.employees|
      invariant WeeksOf(schedule, snap.employees, i, snap, dates)
    {
      var w := EmployeeWeekOf(snap.employees[i], snap, dates);
      if w.None? {
        return None;
      }
      WeekNext(schedule, snap.employees, i, w.value, snap, dates);
      schedule := schedule + [w.value];
    }
    var items := AbsentItems(snap.employees, snap, dates);
    return Some(Schedule(schedule, UnassignedAssignments(snap.assignments), UnassignedTasks(snap.temporaryTasks),
                         items, dates, HolidayDates(snap.holidays)));
  }
}
