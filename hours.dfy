/** The backend's hours arithmetic (server.py lines 178-199):
    `calculate_shift_duration` and `calculate_daily_hours`. Every time string
    goes through `time_to_minutes`, which can raise; a sum is `None` as soon
    as one of its terms is, because the raised `ValueError` ends the request.
    Overlapping items are added, never merged, and the day's weekday,
    absences and holidays play no part here. */
module Hours {
  import opened Wrappers
  import opened Calendar
  import opened Records
  import opened ServerTime
  import opened Text

  /** Addition that propagates a parse failure. */
  function Plus(a: Option<int>, b: Option<int>): (r: Option<int>)
    ensures r.Some? <==> a.Some? && b.Some?
    ensures r.Some? ==> r.value == a.value + b.value
  {
    if a.Some? && b.Some? then Some(a.value + b.value) else None
  }

  /** The sum of `f` over `xs`, `None` when any term is. */
  function Total<T>(xs: seq<T>, f: T -> Option<int>): Option<int>
  {
    if xs == [] then Some(0) else Plus(f(xs[0]), Total(xs[1..], f))
  }

  /** A sum over a concatenation is the sum of the two sums. */
  lemma {:induction false} TotalAppend<T>(xs: seq<T>, ys: seq<T>, f: T -> Option<int>)
    ensures Total(xs + ys, f) == Plus(Total(xs, f), Total(ys, f))
  {
    if xs != [] {
      assert (xs + ys)[0] == xs[0];
      assert (xs + ys)[1..] == xs[1..] + ys;
      TotalAppend(xs[1..], ys, f);
    } else {
      assert xs + ys == ys;
    }
  }

  /** Extending the summed prefix by one element adds that element's term. */
  lemma TotalStep<T>(xs: seq<T>, i: nat, f: T -> Option<int>)
    requires i < |xs|
    ensures Total(xs[..i + 1], f) == Plus(Total(xs[..i], f), f(xs[i]))
  {
    assert xs[..i + 1] == xs[..i] + [xs[i]];
    TotalAppend(xs[..i], [xs[i]], f);
  }

  /** A sum is the sum of all but the last term, plus the last term. */
  lemma TotalLast<T>(xs: seq<T>, f: T -> Option<int>)
    requires xs != []
    ensures Total(xs, f) == Plus(Total(xs[..|xs| - 1], f), f(xs[|xs| - 1]))
  {
    assert xs[..|xs|] == xs;
    TotalStep(xs, |xs| - 1, f);
  }

  /** A successful partial sum extended by a successful term. */
  lemma TotalExtend<T>(xs: seq<T>, i: nat, f: T -> Option<int>, sum: int, term: int)
    requires i < |xs| && Total(xs[..i], f) == Some(sum) && f(xs[i]) == Some(term)
    ensures Total(xs[..i + 1], f) == Some(sum + term)
  {
    TotalStep(xs, i, f);
  }

  /** A sum fails exactly when one of its terms fails. */
  lemma {:induction false} TotalFails<T>(xs: seq<T>, f: T -> Option<int>)
    ensures Total(xs, f).None? <==> exists i :: 0 <= i < |xs| && f(xs[i]).None?
  {
    if xs != [] {
      TotalFails(xs[1..], f);
      if f(xs[0]).Some? && Total(xs[1..], f).None? {
        var j :| 0 <= j < |xs[1..]| && f(xs[1..][j]).None?;
        assert f(xs[j + 1]).None?;
      }
      if exists i :: 0 <= i < |xs| && f(xs[i]).None? {
        var i :| 0 <= i < |xs| && f(xs[i]).None?;
        if i > 0 {
          assert f(xs[1..][i - 1]).None?;
        }
      }
    }
  }

  /** `block.get('hlp_before', 0)`: a missing buffer counts as zero. */
  function Hlp(buffer: Option<int>): int
  {
    if buffer.Some? then buffer.value else 0
  }

  /** One block: `(end - start) + hlp_before + hlp_after`. */
  function BlockMinutes(b: Block): (r: Option<int>)
    ensures r.Some? <==> TimeToMinutes(b.startTime).Some? && TimeToMinutes(b.endTime).Some?
    ensures r.Some? ==> r.value == TimeToMinutes(b.endTime).value - TimeToMinutes(b.startTime).value
                                   + Hlp(b.hlpBefore) + Hlp(b.hlpAfter)
  {
    var start := TimeToMinutes(b.startTime);
    var end := TimeToMinutes(b.endTime);
    if start.Some? && end.Some? then Some(end.value - start.value + Hlp(b.hlpBefore) + Hlp(b.hlpAfter))
    else None
  }

  /** What `calculate_shift_duration` returns for a shift: the sum over its
      blocks. */
  function ShiftMinutes(sh: Shift): Option<int>
  {
    Total(sh.blocks, BlockMinutes)
  }

  /** `calculate_shift_duration`: the `total +=` loop over the blocks, each
      block's term being `BlockMinutes`; it stops with the first block whose
      times do not parse. */
  method CalculateShiftDuration(sh: Shift) returns (r: Option<int>)
    ensures r == ShiftMinutes(sh)
  {
    var blocks := sh.blocks;
    var total := 0;
    for i := 0 to |blocks|
      invariant Total(blocks[..i], BlockMinutes) == Some(total)
    {
      var minutes := BlockMinutes(blocks[i]);
      if minutes.None? {
        FailsOn(blocks, i, BlockMinutes);
        return None;
      }
      TotalExtend(blocks, i, BlockMinutes, total, minutes.value);
      total := total + minutes.value;
    }
    assert blocks[..|blocks|] == blocks;
    return Some(total);
  }

  /** The minutes one assignment contributes on day `d`: all its shifts when
      its date range covers `d`, nothing otherwise. */
  function AssignmentMinutesOn(a: Assignment, d: Day): Option<int>
  {
    if Covers(a, d) then Total(a.shifts, ShiftMinutes) else Some(0)
  }

  /** The minutes one temporary task contributes on day `d`: its duration
      when it is dated `d`, with no buffer, nothing otherwise. */
  function TaskMinutesOn(t: TemporaryTask, d: Day): Option<int>
  {
    if t.date == d then TaskDuration(t) else Some(0)
  }

  /** A task's `end - start`, with no buffer. */
  function TaskDuration(t: TemporaryTask): (r: Option<int>)
    ensures r.Some? <==> TimeToMinutes(t.startTime).Some? && TimeToMinutes(t.endTime).Some?
    ensures r.Some? ==> r.value == TimeToMinutes(t.endTime).value - TimeToMinutes(t.startTime).value
  {
    var start := TimeToMinutes(t.startTime);
    var end := TimeToMinutes(t.endTime);
    if start.Some? && end.Some? then Some(end.value - start.value) else None
  }

  function AssignmentsMinutesOn(assignments: seq<Assignment>, d: Day): Option<int>
  {
    Total(assignments, a => AssignmentMinutesOn(a, d))
  }

  function TasksMinutesOn(tasks: seq<TemporaryTask>, d: Day): Option<int>
  {
    Total(tasks, t => TaskMinutesOn(t, d))
  }

  /** What `calculate_daily_hours` returns: the assignments' part, then the
      tasks' part, added. */
  function DailyMinutes(assignments: seq<Assignment>, tasks: seq<TemporaryTask>, d: Day): Option<int>
  {
    Plus(AssignmentsMinutesOn(assignments, d), TasksMinutesOn(tasks, d))
  }

  /** `calculate_daily_hours`: one running total, carried first through
      the loop over the assignments (`AddAssignments`, whose inner loop over
      the shifts is `AddShifts`), then through the loop over the tasks
      (`AddTasks`). */
  method CalculateDailyHours(assignments: seq<Assignment>, tasks: seq<TemporaryTask>, d: Day)
    returns (r: Option<int>)
    ensures r == DailyMinutes(assignments, tasks, d)
  {
    var total := 0;
    var afterAssignments := AddAssignments(assignments, d, total);
    if afterAssignments.None? {
      return None;
    }
    total := afterAssignments.value;
    r := AddTasks(tasks, d, total);
  }

  /** The loop over the assignments whose date range covers `d`, adding
      every shift of each to the running total `start`. */
  method AddAssignments(assignments: seq<Assignment>, d: Day, start: int) returns (r: Option<int>)
    ensures r == Plus(Some(start), AssignmentsMinutesOn(assignments, d))
  {
    var total := start;
    for i := 0 to |assignments|
      invariant Plus(Some(start), AssignmentsMinutesOn(assignments[..i], d)) == Some(total)
    {
      TotalStep(assignments, i, a => AssignmentMinutesOn(a, d));
      var a := assignments[i];
      if Covers(a, d) {
        var sum := AddShifts(a.shifts, total);
        if sum.None? {
          FailsOn(assignments, i, a => AssignmentMinutesOn(a, d));
          return None;
        }
        total := sum.value;
      }
    }
    assert assignments[..|assignments|] == assignments;
    return Some(total);
  }

  /** The inner `for shift in assignment.get('shifts', [])` loop: each
      shift's duration added to the running total `start`. */
  method AddShifts(shifts: seq<Shift>, start: int) returns (r: Option<int>)
    ensures r == Plus(Some(start), Total(shifts, ShiftMinutes))
  {
    var total := start;
    for j := 0 to |shifts|
      invariant Plus(Some(start), Total(shifts[..j], ShiftMinutes)) == Some(total)
    {
      TotalStep(shifts, j, ShiftMinutes);
      var m := CalculateShiftDuration(shifts[j]);
      if m.None? {
        FailsOn(shifts, j, ShiftMinutes);
        return None;
      }
      total := total + m.value;
    }
    assert shifts[..|shifts|] == shifts;
    return Some(total);
  }

  /** The loop over the tasks dated `d`, adding each one's duration to the
      running total `start`. */
  method AddTasks(tasks: seq<TemporaryTask>, d: Day, start: int) returns (r: Option<int>)
    ensures r == Plus(Some(start), TasksMinutesOn(tasks, d))
  {
    var total := start;
    for k := 0 to |tasks|
      invariant Plus(Some(start), TasksMinutesOn(tasks[..k], d)) == Some(total)
    {
      TotalStep(tasks, k, t => TaskMinutesOn(t, d));
      var t := tasks[k];
      if t.date == d {
        var minutes := TaskDuration(t);
        if minutes.None? {
          FailsOn(tasks, k, t => TaskMinutesOn(t, d));
          return None;
        }
        total := total + minutes.value;
      }
    }
    assert tasks[..|tasks|] == tasks;
    return Some(total);
  }

  /** A sum with a failing term fails. */
  lemma FailsOn<T>(xs: seq<T>, i: nat, f: T -> Option<int>)
    requires i < |xs| && f(xs[i]).None?
    ensures Total(xs, f).None?
  {
    TotalFails(xs, f);
  }

  /** Summing, not merging: the hours of two groups of records together are
      the hours of each group added, whatever their intervals. */
  lemma DailyMinutesAdditive(as1: seq<Assignment>, as2: seq<Assignment>,
                             ts1: seq<TemporaryTask>, ts2: seq<TemporaryTask>, d: Day)
    ensures DailyMinutes(as1 + as2, ts1 + ts2, d)
         == Plus(DailyMinutes(as1, ts1, d), DailyMinutes(as2, ts2, d))
  {
    TotalAppend(as1, as2, a => AssignmentMinutesOn(a, d));
    TotalAppend(ts1, ts2, t => TaskMinutesOn(t, d));
    PlusSwap(AssignmentsMinutesOn(as1, d), AssignmentsMinutesOn(as2, d),
             TasksMinutesOn(ts1, d), TasksMinutesOn(ts2, d));
  }

  /** Four partial sums can be added in either grouping. */
  lemma PlusSwap(a: Option<int>, b: Option<int>, c: Option<int>, e: Option<int>)
    ensures Plus(Plus(a, b), Plus(c, e)) == Plus(Plus(a, c), Plus(b, e))
  {
  }

  /** A task listed twice is counted twice, even though it overlaps itself
      completely. */
  lemma DuplicateTaskCountsTwice(t: TemporaryTask, m: int)
    requires TaskMinutesOn(t, t.date) == Some(m)
    ensures DailyMinutes([], [t, t], t.date) == Some(2 * m)
  {
    assert [t, t][1..] == [t];
    assert [t][1..] == [];
    assert TasksMinutesOn([t], t.date) == Plus(TaskMinutesOn(t, t.date), TasksMinutesOn([], t.date));
  }

  /** Records that do not concern day `d` (assignments whose range misses
      it, tasks dated elsewhere) contribute nothing, so adding them leaves
      the day's hours unchanged, even when their own times do not parse. */
  lemma {:induction false} UnrelatedRecordsIgnored(assignments: seq<Assignment>, tasks: seq<TemporaryTask>,
                                                  extraA: seq<Assignment>, extraT: seq<TemporaryTask>, d: Day)
    requires forall i :: 0 <= i < |extraA| ==> !Covers(extraA[i], d)
    requires forall i :: 0 <= i < |extraT| ==> extraT[i].date != d
    ensures DailyMinutes(assignments + extraA, tasks + extraT, d) == DailyMinutes(assignments, tasks, d)
  {
    DailyMinutesAdditive(assignments, extraA, tasks, extraT, d);
    NothingOn(extraA, extraT, d);
  }

  /** Assignments that do not cover `d` and tasks dated elsewhere add up to
      zero on `d`. */
  lemma {:induction false} NothingOn(extraA: seq<Assignment>, extraT: seq<TemporaryTask>, d: Day)
    requires forall i :: 0 <= i < |extraA| ==> !Covers(extraA[i], d)
    requires forall i :: 0 <= i < |extraT| ==> extraT[i].date != d
    ensures DailyMinutes(extraA, extraT, d) == Some(0)
    decreases |extraA| + |extraT|
  {
    if extraA != [] {
      NothingOn(extraA[1..], [], d);
    }
    if extraT != [] {
      NothingOn([], extraT[1..], d);
    }
  }

  /** A shift with no blocks lasts zero minutes. */
  lemma EmptyShift(id: string, name: string)
    ensures ShiftMinutes(Shift(id, name, [])) == Some(0)
  {
  }

  /** The two clock times of the worked example parse to their minute
      counts. */
  lemma StartClock(start: string)
    requires start == "07:30"
    ensures TimeToMinutes(start) == Some(450)
  {
    var hh, mm := Pad2(7), Pad2(30);
    assert hh == "07";
    assert mm == "30";
    PaddedFieldsParse(7, 30);
    assert hh + ":" + mm == start;
  }

  lemma EndClock(end: string)
    requires end == "08:15"
    ensures TimeToMinutes(end) == Some(495)
  {
    var hh, mm := Pad2(8), Pad2(15);
    assert hh == "08";
    assert mm == "15";
    PaddedFieldsParse(8, 15);
    assert hh + ":" + mm == end;
  }

  /** The worked example: a 07:30-08:15 block with 10 minutes of buffer
      before and 5 after lasts 60 minutes; the same block with both buffer
      keys missing lasts 45. */
  lemma BlockExample(b: Block)
    requires b.startTime == "07:30" && b.endTime == "08:15"
    ensures b.hlpBefore == Some(10) && b.hlpAfter == Some(5) ==> BlockMinutes(b) == Some(60)
    ensures b.hlpBefore == None && b.hlpAfter == None ==> BlockMinutes(b) == Some(45)
  {
    StartClock(b.startTime);
    EndClock(b.endTime);
    BlockOfTimes(b, 450, 495);
  }

  /** A block whose two times parse lasts their difference plus its
      buffers. */
  lemma BlockOfTimes(b: Block, start: int, end: int)
    requires TimeToMinutes(b.startTime) == Some(start) && TimeToMinutes(b.endTime) == Some(end)
    ensures BlockMinutes(b) == Some(end - start + Hlp(b.hlpBefore) + Hlp(b.hlpAfter))
  {
  }
}
