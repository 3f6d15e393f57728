/** The backend's conflict detector (server.py lines 565-630,
    `check_conflict`): the records of one employee whose time on a given
    date overlaps a proposed interval by more than five minutes. Assignment
    blocks count with their buffers widened around them; temporary tasks
    count as they are. The two store queries become filters over the
    in-memory collections. */
module ConflictCheck {
  import opened Wrappers
  import opened Lists
  import opened Calendar
  import opened Records
  import opened ServerTime
  import opened Hours

  /** The request body; every field may be missing (`None`). */
  datatype ConflictRequest = ConflictRequest(
    employeeId: Option<string>,
    date: Option<Day>,
    startTime: Option<string>,
    endTime: Option<string>,
    excludeId: Option<string>)

  /** One element of the `conflicts` list. */
  datatype Conflict =
    | AssignmentConflict(assignmentId: string, circuit: string, shift: string, blockTime: string, overlapMinutes: int)
    | TaskConflict(taskId: string, taskName: string, taskTime: string, overlapMinutes: int)

  /** The response: `{"conflict": False}` alone when the request is
      incomplete, otherwise the flag together with the list. */
  datatype ConflictResponse = ConflictResponse(conflict: bool, conflicts: Option<seq<Conflict>>)

  /** The guard `all([employee_id, date, start_time, end_time])`: each of
      the four is present and, for the strings, not empty. */
  predicate Complete(req: ConflictRequest)
  {
    IsSet(req.employeeId) && req.date.Some? && IsSet(req.startTime) && IsSet(req.endTime)
  }

  function Min(a: int, b: int): int { if a <= b then a else b }

  function Max(a: int, b: int): int { if a >= b then a else b }

  /** `min(new_end, end) - max(new_start, start)`: the length of the common
      part of two intervals, negative when they are apart. */
  function Overlap(newStart: int, newEnd: int, start: int, end: int): int
  {
    Min(newEnd, end) - Max(newStart, start)
  }

  /** The overlap does not depend on which interval is the proposed one. */
  lemma OverlapSymmetric(s1: int, e1: int, s2: int, e2: int)
    ensures Overlap(s1, e1, s2, e2) == Overlap(s2, e2, s1, e1)
  {
  }

  /** The overlap exceeds `t` exactly when each interval ends more than `t`
      minutes after the other one starts and each is longer than `t`. */
  lemma OverlapExceeds(s1: int, e1: int, s2: int, e2: int, t: int)
    ensures Overlap(s1, e1, s2, e2) > t <==> e1 - s2 > t && e2 - s1 > t && e1 - s1 > t && e2 - s2 > t
  {
  }

  /** Concatenation that propagates a parse failure. */
  function Cat<U>(a: Option<seq<U>>, b: Option<seq<U>>): (r: Option<seq<U>>)
    ensures r.Some? <==> a.Some? && b.Some?
    ensures r.Some? ==> r.value == a.value + b.value
    ensures b == Some([]) ==> r == a
  {
    if a.Some? && b.Some? then
      assert b.value == [] ==> a.value + b.value == a.value;
      Some(a.value + b.value)
    else None
  }

  /** The lists `f` yields for the elements of `xs`, concatenated in order;
      `None` when one of them is. */
  function Collect<T, U>(xs: seq<T>, f: T -> Option<seq<U>>): Option<seq<U>>
  {
    if xs == [] then Some([])
    else
      var n := |xs| - 1;
      Cat(Collect(xs[..n], f), f(xs[n]))
  }

  lemma CollectStep<T, U>(xs: seq<T>, i: nat, f: T -> Option<seq<U>>)
    requires i < |xs|
    ensures Collect(xs[..i + 1], f) == Cat(Collect(xs[..i], f), f(xs[i]))
  {
    assert xs[..i + 1][..i] == xs[..i];
  }

  /** A successful collection extended by a successful part. */
  lemma CollectExtend<T, U>(xs: seq<T>, i: nat, f: T -> Option<seq<U>>, acc: seq<U>, part: seq<U>)
    requires i < |xs| && Collect(xs[..i], f) == Some(acc) && f(xs[i]) == Some(part)
    ensures Collect(xs[..i + 1], f) == Some(acc + part)
  {
    CollectStep(xs, i, f);
  }

  /** The collection fails exactly when one of its parts fails. */
  lemma {:induction false} CollectFails<T, U>(xs: seq<T>, f: T -> Option<seq<U>>)
    ensures Collect(xs, f).None? <==> exists i :: 0 <= i < |xs| && f(xs[i]).None?
  {
    if xs != [] {
      var n := |xs| - 1;
      CollectFails(xs[..n], f);
      if Collect(xs[..n], f).None? {
        var i :| 0 <= i < n && f(xs[..n][i]).None?;
        assert xs[..n][i] == xs[i];
      }
      if exists i :: 0 <= i < |xs| && f(xs[i]).None? {
        var i :| 0 <= i < |xs| && f(xs[i]).None?;
        if i < n {
          assert f(xs[..n][i]).None?;
        }
      }
    }
  }

  lemma CollectFailsAt<T, U>(xs: seq<T>, i: nat, f: T -> Option<seq<U>>)
    requires i < |xs| && f(xs[i]).None?
    ensures Collect(xs, f).None?
  {
    CollectFails(xs, f);
  }

  /** A collected element comes from one of the parts, and every element of
      every part is collected. */
  lemma {:induction false} CollectMember<T, U>(xs: seq<T>, f: T -> Option<seq<U>>, y: U)
    requires Collect(xs, f).Some?
    ensures y in Collect(xs, f).value <==>
      exists i :: 0 <= i < |xs| && f(xs[i]).Some? && y in f(xs[i]).value
  {
    if xs != [] {
      var n := |xs| - 1;
      CollectMember(xs[..n], f, y);
      if y in Collect(xs[..n], f).value {
        var i :| 0 <= i < n && f(xs[..n][i]).Some? && y in f(xs[..n][i]).value;
        assert xs[..n][i] == xs[i];
      }
      if exists i :: 0 <= i < |xs| && f(xs[i]).Some? && y in f(xs[i]).value {
        var i :| 0 <= i < |xs| && f(xs[i]).Some? && y in f(xs[i]).value;
        if i < n {
          assert xs[..n][i] == xs[i];
        }
      }
    }
  }

  /** The block interval, widened by its buffers: `start - hlp_before` to
      `end + hlp_after`; `None` when a time does not parse. */
  function BufferedInterval(b: Block): Option<(int, int)>
  {
    var start := TimeToMinutes(b.startTime);
    var end := TimeToMinutes(b.endTime);
    if start.Some? && end.Some? then Some((start.value - Hlp(b.hlpBefore), end.value + Hlp(b.hlpAfter))) else None
  }

  /** The entry for one block of shift `sh` of assignment `a`: reported
      when the overlap is more than five minutes. */
  function BlockConflict(a: Assignment, sh: Shift, b: Block, newStart: int, newEnd: int): Option<seq<Conflict>>
  {
    var iv := BufferedInterval(b);
    if iv.None? then None
    else
      var overlap := Overlap(newStart, newEnd, iv.value.0, iv.value.1);
      Some(if overlap > 5
           then [AssignmentConflict(a.id, a.circuitNumber, sh.name, b.startTime + "-" + b.endTime, overlap)]
           else [])
  }

  function ShiftConflicts(a: Assignment, sh: Shift, newStart: int, newEnd: int): Option<seq<Conflict>>
  {
    Collect(sh.blocks, b => BlockConflict(a, sh, b, newStart, newEnd))
  }

  /** The entries of one assignment: none when it is the excluded record
      or does not cover the date, otherwise those of its blocks. */
  function AssignmentConflicts(a: Assignment, excludeId: Option<string>, d: Day, newStart: int, newEnd: int)
    : Option<seq<Conflict>>
  {
    if Some(a.id) == excludeId || !Covers(a, d) then Some([])
    else Collect(a.shifts, sh => ShiftConflicts(a, sh, newStart, newEnd))
  }

  function AssignmentsConflicts(assignments: seq<Assignment>, excludeId: Option<string>, d: Day,
                                newStart: int, newEnd: int): Option<seq<Conflict>>
  {
    Collect(assignments, a => AssignmentConflicts(a, excludeId, d, newStart, newEnd))
  }

  /** The entry for one temporary task, unbuffered. */
  function TaskConflictOf(t: TemporaryTask, excludeId: Option<string>, newStart: int, newEnd: int)
    : Option<seq<Conflict>>
  {
    if Some(t.id) == excludeId then Some([])
    else
      var start := TimeToMinutes(t.startTime);
      var end := TimeToMinutes(t.endTime);
      if start.None? || end.None? then None
      else
        var overlap := Overlap(newStart, newEnd, start.value, end.value);
        Some(if overlap > 5 then [TaskConflict(t.id, t.name, t.startTime + "-" + t.endTime, overlap)] else [])
  }

  function TasksConflicts(tasks: seq<TemporaryTask>, excludeId: Option<string>, newStart: int, newEnd: int)
    : Option<seq<Conflict>>
  {
    Collect(tasks, t => TaskConflictOf(t, excludeId, newStart, newEnd))
  }

  /** The query `{"employee_id": id}` on the assignments. */
  function EmployeeAssignments(assignments: seq<Assignment>, id: string): seq<Assignment>
  {
    Filter(assignments, (a: Assignment) => a.employeeId == Some(id))
  }

  /** The query `{"employee_id": id, "date": d}` on the temporary tasks. */
  function EmployeeTasksOn(tasks: seq<TemporaryTask>, id: string, d: Day): seq<TemporaryTask>
  {
    Filter(tasks, (t: TemporaryTask) => t.employeeId == Some(id) && t.date == d)
  }

  /** What the route answers for a complete request; `None` when a time
      does not parse. */
  function ResponseOf(req: ConflictRequest, assignments: seq<Assignment>, tasks: seq<TemporaryTask>)
    : Option<ConflictResponse>
    requires Complete(req)
  {
    var newStart := TimeToMinutes(req.startTime.value);
    var newEnd := TimeToMinutes(req.endTime.value);
    if newStart.None? || newEnd.None? then None
    else
      var id, d := req.employeeId.value, req.date.value;
      var found := Cat(AssignmentsConflicts(EmployeeAssignments(assignments, id), req.excludeId, d, newStart.value, newEnd.value),
                       TasksConflicts(EmployeeTasksOn(tasks, id, d), req.excludeId, newStart.value, newEnd.value));
      if found.None? then None
      else Some(ConflictResponse(|found.value| > 0, Some(found.value)))
  }

  /** `check_conflict`: the guard, then the triple loop over the employee's
      assignments, their shifts and their blocks, then the loop over the
      employee's tasks of that date, appending to one list. */
  method CheckConflict(req: ConflictRequest, assignments: seq<Assignment>, tasks: seq<TemporaryTask>)
    returns (r: Option<ConflictResponse>)
    ensures !Complete(req) ==> r == Some(ConflictResponse(false, None))
    ensures Complete(req) ==> r == ResponseOf(req, assignments, tasks)
  {
    if !Complete(req) {
      return Some(ConflictResponse(false, None));
    }
    var id, d, excludeId := req.employeeId.value, req.date.value, req.excludeId;
    var newStart := TimeToMinutes(req.startTime.value);
    var newEnd := TimeToMinutes(req.endTime.value);
    if newStart.None? || newEnd.None? {
      return None;
    }
    var ns, ne := newStart.value, newEnd.value;
    var fromAssignments := AssignmentsLoop(EmployeeAssignments(assignments, id), excludeId, d, ns, ne);
    if fromAssignments.None? {
      return None;
    }
    var fromTasks := TasksLoop(EmployeeTasksOn(tasks, id, d), excludeId, ns, ne);
    if fromTasks.None? {
      return None;
    }
    var conflicts := fromAssignments.value + fromTasks.value;
    return Some(ConflictResponse(|conflicts| > 0, Some(conflicts)));
  }

  /** The outer loop over the employee's assignments, skipping the excluded
      record and those whose range misses the date. */
  method AssignmentsLoop(mine: seq<Assignment>, excludeId: Option<string>, d: Day, ns: int, ne: int)
    returns (found: Option<seq<Conflict>>)
    ensures found == AssignmentsConflicts(mine, excludeId, d, ns, ne)
  {
    var conflicts: seq<Conflict> := [];
    for i := 0 to |mine|
      invariant AssignmentsConflicts(mine[..i], excludeId, d, ns, ne) == Some(conflicts)
    {
      var a := mine[i];
      CollectStep(mine, i, a => AssignmentConflicts(a, excludeId, d, ns, ne));
      if Some(a.id) == excludeId || !Covers(a, d) {
        continue;
      }
      var part := AssignmentBlocks(a, ns, ne);
      if part.None? {
        CollectFailsAt(mine, i, a => AssignmentConflicts(a, excludeId, d, ns, ne));
        return None;
      }
      conflicts := conflicts + part.value;
    }
    assert mine[..|mine|] == mine;
    return Some(conflicts);
  }

  /** The loop over the employee's tasks of the date, skipping the excluded
      record; tasks are not widened. */
  method TasksLoop(dayTasks: seq<TemporaryTask>, excludeId: Option<string>, ns: int, ne: int)
    returns (found: Option<seq<Conflict>>)
    ensures found == TasksConflicts(dayTasks, excludeId, ns, ne)
  {
    var conflicts: seq<Conflict> := [];
    for k := 0 to |dayTasks|
      invariant TasksConflicts(dayTasks[..k], excludeId, ns, ne) == Some(conflicts)
    {
      var t := dayTasks[k];
      var entry: seq<Conflict> := [];
      if Some(t.id) != excludeId {
        var start := TimeToMinutes(t.startTime);
        var end := TimeToMinutes(t.endTime);
        if start.None? || end.None? {
          CollectFailsAt(dayTasks, k, t => TaskConflictOf(t, excludeId, ns, ne));
          return None;
        }
        var overlap := Min(ne, end.value) - Max(ns, start.value);
        if overlap > 5 {
          entry := [TaskConflict(t.id, t.name, t.startTime + "-" + t.endTime, overlap)];
        }
      }
      CollectExtend(dayTasks, k, t => TaskConflictOf(t, excludeId, ns, ne), conflicts, entry);
      conflicts := conflicts + entry;
    }
    assert dayTasks[..|dayTasks|] == dayTasks;
    return Some(conflicts);
  }

  /** The middle loop for one assignment that is neither excluded nor out
      of range: every shift in order. */
  method AssignmentBlocks(a: Assignment, ns: int, ne: int) returns (found: Option<seq<Conflict>>)
    ensures found == Collect(a.shifts, sh => ShiftConflicts(a, sh, ns, ne))
  {
    var shifts := a.shifts;
    var all: seq<Conflict> := [];
    for j := 0 to |shifts|
      invariant Collect(shifts[..j], sh => ShiftConflicts(a, sh, ns, ne)) == Some(all)
    {
      CollectStep(shifts, j, sh => ShiftConflicts(a, sh, ns, ne));
      var part := ShiftBlocks(a, shifts[j], ns, ne);
      if part.None? {
        CollectFailsAt(shifts, j, sh => ShiftConflicts(a, sh, ns, ne));
        return None;
      }
      all := all + part.value;
    }
    assert shifts[..|shifts|] == shifts;
    return Some(all);
  }

  /** The innermost loop: every block of one shift, widened by its
      buffers, reported when it overlaps by more than five minutes. */
  method ShiftBlocks(a: Assignment, sh: Shift, ns: int, ne: int) returns (found: Option<seq<Conflict>>)
    ensures found == ShiftConflicts(a, sh, ns, ne)
  {
    var part: seq<Conflict> := [];
    for k := 0 to |sh.blocks|
      invariant Collect(sh.blocks[..k], b => BlockConflict(a, sh, b, ns, ne)) == Some(part)
    {
      var b := sh.blocks[k];
      var interval := BufferedInterval(b);
      if interval.None? {
        CollectFailsAt(sh.blocks, k, b => BlockConflict(a, sh, b, ns, ne));
        return None;
      }
      var (blockStart, blockEnd) := interval.value;
      var overlap := Min(ne, blockEnd) - Max(ns, blockStart);
      var entry: seq<Conflict> := [];
      if overlap > 5 {
        entry := [AssignmentConflict(a.id, a.circuitNumber, sh.name, b.startTime + "-" + b.endTime, overlap)];
      }
      CollectExtend(sh.blocks, k, b => BlockConflict(a, sh, b, ns, ne), part, entry);
      part := part + entry;
    }
    assert sh.blocks[..|sh.blocks|] == sh.blocks;
    return Some(part);
  }

  /** `c` is the entry reported for block `b` of shift `sh` of assignment
      `a`: the block's times parse and its widened interval overlaps the
      proposed one by more than five minutes. */
  ghost predicate BlockReported(c: Conflict, a: Assignment, sh: Shift, b: Block, ns: int, ne: int)
  {
    && BufferedInterval(b).Some?
    && var overlap := Overlap(ns, ne, BufferedInterval(b).value.0, BufferedInterval(b).value.1);
    && overlap > 5
    && c == AssignmentConflict(a.id, a.circuitNumber, sh.name, b.startTime + "-" + b.endTime, overlap)
  }

  /** `c` is the entry reported for task `t`: its times parse and its own
      interval overlaps the proposed one by more than five minutes. */
  ghost predicate TaskReported(c: Conflict, t: TemporaryTask, ns: int, ne: int)
  {
    && TimeToMinutes(t.startTime).Some? && TimeToMinutes(t.endTime).Some?
    && var overlap := Overlap(ns, ne, TimeToMinutes(t.startTime).value, TimeToMinutes(t.endTime).value);
    && overlap > 5
    && c == TaskConflict(t.id, t.name, t.startTime + "-" + t.endTime, overlap)
  }

  /** A block yields `c` exactly when `c` is the entry reported for it. */
  lemma BlockEntry(a: Assignment, sh: Shift, b: Block, ns: int, ne: int, c: Conflict)
    ensures (BlockConflict(a, sh, b, ns, ne).Some? && c in BlockConflict(a, sh, b, ns, ne).value)
            <==> BlockReported(c, a, sh, b, ns, ne)
  {
  }

  lemma ShiftMember(a: Assignment, sh: Shift, ns: int, ne: int, c: Conflict)
    requires ShiftConflicts(a, sh, ns, ne).Some?
    ensures c in ShiftConflicts(a, sh, ns, ne).value <==> exists b :: b in sh.blocks && BlockReported(c, a, sh, b, ns, ne)
  {
    if c in ShiftConflicts(a, sh, ns, ne).value {
      ShiftSound(a, sh, ns, ne, c);
    }
    if exists b :: b in sh.blocks && BlockReported(c, a, sh, b, ns, ne) {
      var b :| b in sh.blocks && BlockReported(c, a, sh, b, ns, ne);
      ShiftComplete(a, sh, ns, ne, b, c);
    }
  }

  /** An entry of a shift comes from one of its blocks. */
  lemma ShiftSound(a: Assignment, sh: Shift, ns: int, ne: int, c: Conflict)
    requires ShiftConflicts(a, sh, ns, ne).Some? && c in ShiftConflicts(a, sh, ns, ne).value
    ensures exists b :: b in sh.blocks && BlockReported(c, a, sh, b, ns, ne)
  {
    var f := b => BlockConflict(a, sh, b, ns, ne);
    CollectMember(sh.blocks, f, c);
    var i :| 0 <= i < |sh.blocks| && f(sh.blocks[i]).Some? && c in f(sh.blocks[i]).value;
    BlockEntry(a, sh, sh.blocks[i], ns, ne, c);
  }

  /** The entry of every block of a shift is reported. */
  lemma ShiftComplete(a: Assignment, sh: Shift, ns: int, ne: int, b: Block, c: Conflict)
    requires ShiftConflicts(a, sh, ns, ne).Some?
    requires b in sh.blocks && BlockReported(c, a, sh, b, ns, ne)
    ensures c in ShiftConflicts(a, sh, ns, ne).value
  {
    var f := b => BlockConflict(a, sh, b, ns, ne);
    var i :| 0 <= i < |sh.blocks| && sh.blocks[i] == b;
    BlockEntry(a, sh, b, ns, ne, c);
    CollectMember(sh.blocks, f, c);
  }

  lemma AssignmentMember(a: Assignment, excludeId: Option<string>, d: Day, ns: int, ne: int, c: Conflict)
    requires AssignmentConflicts(a, excludeId, d, ns, ne).Some?
    ensures c in AssignmentConflicts(a, excludeId, d, ns, ne).value <==>
      && Some(a.id) != excludeId && Covers(a, d)
      && exists sh, b :: sh in a.shifts && b in sh.blocks && BlockReported(c, a, sh, b, ns, ne)
  {
    if Some(a.id) != excludeId && Covers(a, d) {
      if c in AssignmentConflicts(a, excludeId, d, ns, ne).value {
        AssignmentSound(a, excludeId, d, ns, ne, c);
      }
      if exists sh, b :: sh in a.shifts && b in sh.blocks && BlockReported(c, a, sh, b, ns, ne) {
        var sh, b :| sh in a.shifts && b in sh.blocks && BlockReported(c, a, sh, b, ns, ne);
        AssignmentComplete(a, excludeId, d, ns, ne, sh, b, c);
      }
    }
  }

  /** An entry of an assignment comes from one of its blocks. */
  lemma AssignmentSound(a: Assignment, excludeId: Option<string>, d: Day, ns: int, ne: int, c: Conflict)
    requires Some(a.id) != excludeId && Covers(a, d)
    requires AssignmentConflicts(a, excludeId, d, ns, ne).Some?
    requires c in AssignmentConflicts(a, excludeId, d, ns, ne).value
    ensures exists sh, b :: sh in a.shifts && b in sh.blocks && BlockReported(c, a, sh, b, ns, ne)
  {
    var f := sh => ShiftConflicts(a, sh, ns, ne);
    CollectMember(a.shifts, f, c);
    var i :| 0 <= i < |a.shifts| && f(a.shifts[i]).Some? && c in f(a.shifts[i]).value;
    ShiftMember(a, a.shifts[i], ns, ne, c);
  }

  /** Every block entry of a counted assignment is reported. */
  lemma AssignmentComplete(a: Assignment, excludeId: Option<string>, d: Day, ns: int, ne: int,
                           sh: Shift, b: Block, c: Conflict)
    requires Some(a.id) != excludeId && Covers(a, d)
    requires AssignmentConflicts(a, excludeId, d, ns, ne).Some?
    requires sh in a.shifts && b in sh.blocks && BlockReported(c, a, sh, b, ns, ne)
    ensures c in AssignmentConflicts(a, excludeId, d, ns, ne).value
  {
    var f := sh => ShiftConflicts(a, sh, ns, ne);
    var i :| 0 <= i < |a.shifts| && a.shifts[i] == sh;
    CollectFails(a.shifts, f);
    ShiftMember(a, sh, ns, ne, c);
    CollectMember(a.shifts, f, c);
  }

  lemma AssignmentsMember(mine: seq<Assignment>, excludeId: Option<string>, d: Day, ns: int, ne: int, c: Conflict)
    requires AssignmentsConflicts(mine, excludeId, d, ns, ne).Some?
    ensures c in AssignmentsConflicts(mine, excludeId, d, ns, ne).value <==>
      exists a, sh, b :: && a in mine && Some(a.id) != excludeId && Covers(a, d)
                         && sh in a.shifts && b in sh.blocks && BlockReported(c, a, sh, b, ns, ne)
  {
    var f := a => AssignmentConflicts(a, excludeId, d, ns, ne);
    CollectMember(mine, f, c);
    CollectFails(mine, f);
    if c in AssignmentsConflicts(mine, excludeId, d, ns, ne).value {
      var i :| 0 <= i < |mine| && f(mine[i]).Some? && c in f(mine[i]).value;
      AssignmentMember(mine[i], excludeId, d, ns, ne, c);
    }
    if exists a, sh, b :: && a in mine && Some(a.id) != excludeId && Covers(a, d)
                          && sh in a.shifts && b in sh.blocks && BlockReported(c, a, sh, b, ns, ne) {
      var a, sh, b :| && a in mine && Some(a.id) != excludeId && Covers(a, d)
                      && sh in a.shifts && b in sh.blocks && BlockReported(c, a, sh, b, ns, ne);
      var i :| 0 <= i < |mine| && mine[i] == a;
      AssignmentMember(a, excludeId, d, ns, ne, c);
    }
  }

  /** A task yields `c` exactly when it is not the excluded record and `c`
      is the entry reported for it. */
  lemma TaskEntry(t: TemporaryTask, excludeId: Option<string>, ns: int, ne: int, c: Conflict)
    ensures (TaskConflictOf(t, excludeId, ns, ne).Some? && c in TaskConflictOf(t, excludeId, ns, ne).value)
            <==> Some(t.id) != excludeId && TaskReported(c, t, ns, ne)
  {
  }

  lemma TasksMember(dayTasks: seq<TemporaryTask>, excludeId: Option<string>, ns: int, ne: int, c: Conflict)
    requires TasksConflicts(dayTasks, excludeId, ns, ne).Some?
    ensures c in TasksConflicts(dayTasks, excludeId, ns, ne).value <==>
      exists t :: t in dayTasks && Some(t.id) != excludeId && TaskReported(c, t, ns, ne)
  {
    var f := t => TaskConflictOf(t, excludeId, ns, ne);
    CollectMember(dayTasks, f, c);
    if c in TasksConflicts(dayTasks, excludeId, ns, ne).value {
      var i :| 0 <= i < |dayTasks| && f(dayTasks[i]).Some? && c in f(dayTasks[i]).value;
      TaskEntry(dayTasks[i], excludeId, ns, ne, c);
    }
    if exists t :: t in dayTasks && Some(t.id) != excludeId && TaskReported(c, t, ns, ne) {
      var t :| t in dayTasks && Some(t.id) != excludeId && TaskReported(c, t, ns, ne);
      var i :| 0 <= i < |dayTasks| && dayTasks[i] == t;
      TaskEntry(t, excludeId, ns, ne, c);
    }
  }

  /** What a complete request reports: an entry is listed exactly when it
      comes from a block of one of the employee's assignments that is not
      the excluded record and covers the date, or from one of the
      employee's tasks of that date that is not the excluded record, and
      overlaps by more than five minutes; `conflict` says whether the list
      is non-empty. */
  lemma ConflictsExactly(req: ConflictRequest, assignments: seq<Assignment>, tasks: seq<TemporaryTask>, c: Conflict)
    requires Complete(req) && ResponseOf(req, assignments, tasks).Some?
    ensures var resp := ResponseOf(req, assignments, tasks).value;
      var id, d, excludeId := req.employeeId.value, req.date.value, req.excludeId;
      var ns, ne := TimeToMinutes(req.startTime.value).value, TimeToMinutes(req.endTime.value).value;
      && resp.conflicts.Some?
      && (resp.conflict <==> resp.conflicts.value != [])
      && (c in resp.conflicts.value <==>
           || (exists a, sh, b :: && a in assignments && a.employeeId == Some(id) && Some(a.id) != excludeId
                                  && Covers(a, d) && sh in a.shifts && b in sh.blocks
                                  && BlockReported(c, a, sh, b, ns, ne))
           || (exists t :: && t in tasks && t.employeeId == Some(id) && t.date == d && Some(t.id) != excludeId
                            && TaskReported(c, t, ns, ne)))
  {
    var id, d, excludeId := req.employeeId.value, req.date.value, req.excludeId;
    var ns, ne := TimeToMinutes(req.startTime.value).value, TimeToMinutes(req.endTime.value).value;
    var mine := EmployeeAssignments(assignments, id);
    var dayTasks := EmployeeTasksOn(tasks, id, d);
    AssignmentsMember(mine, excludeId, d, ns, ne, c);
    TasksMember(dayTasks, excludeId, ns, ne, c);
    forall a
      ensures a in mine <==> a in assignments && a.employeeId == Some(id)
    {
      FilterMember(assignments, (a: Assignment) => a.employeeId == Some(id), a);
    }
    forall t
      ensures t in dayTasks <==> t in tasks && t.employeeId == Some(id) && t.date == d
    {
      FilterMember(tasks, (t: TemporaryTask) => t.employeeId == Some(id) && t.date == d, t);
    }
  }

  /** The tolerance: a block whose times parse is reported exactly when its
      widened interval overlaps by more than five minutes, so an overlap of
      exactly five minutes goes unreported. */
  lemma BlockTolerance(a: Assignment, sh: Shift, b: Block, ns: int, ne: int, start: int, end: int)
    requires BufferedInterval(b) == Some((start, end))
    ensures BlockConflict(a, sh, b, ns, ne) == Some([]) <==> Overlap(ns, ne, start, end) <= 5
    ensures Overlap(ns, ne, start, end) == 5 ==> BlockConflict(a, sh, b, ns, ne) == Some([])
    ensures Overlap(ns, ne, start, end) == 6 ==> |BlockConflict(a, sh, b, ns, ne).value| == 1
  {
  }

  /** Two tasks against a proposed 08:00-09:00 (480-540): one from 08:55
      overlaps by five minutes and is not reported, one from 08:54 overlaps
      by six and is. */
  lemma TaskToleranceExample(t1: TemporaryTask, t2: TemporaryTask)
    requires TimeToMinutes(t1.startTime) == Some(535) && TimeToMinutes(t1.endTime) == Some(600)
    requires TimeToMinutes(t2.startTime) == Some(534) && TimeToMinutes(t2.endTime) == Some(600)
    ensures TaskConflictOf(t1, None, 480, 540) == Some([])
    ensures TaskConflictOf(t2, None, 480, 540) == Some([TaskConflict(t2.id, t2.name, t2.startTime + "-" + t2.endTime, 6)])
  {
  }
}
