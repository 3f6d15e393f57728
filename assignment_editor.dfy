/** The assignment editor of `frontend/src/pages/AssignmentsPage.js`: the
    5-minute time options, the browser's shift duration, the edits of the
    form's nested shifts and blocks, the search filter and the check made
    before saving. The edits build new records with spread, `map` and
    `filter` and never change their input, so they are functions here. */
module AssignmentEditor {
  import opened Wrappers
  import opened Lists
  import opened Text
  import opened Calendar
  import opened Records
  import opened ClientUtils
  import opened TimeGrid
  import Hours

  /** The `HH:MM` option at position `k`: hour `5 + k / 12`, minute
      `5 * (k % 12)`. */
  function OptionMark(k: nat): Mark
  {
    Mark(5 + k / 12, (k % 12) * 5)
  }

  /** The options list: one label per 5 minutes from 05:00 to 20:55. */
  function TimeOptions(): (options: seq<string>)
    ensures |options| == 192
  {
    seq(192, k requires 0 <= k < 192 => Label(OptionMark(k)))
  }

  /** `generateTimeOptions`: hours 5 to 20, minutes 0 to 55 by 5. */
  method GenerateTimeOptions() returns (options: seq<string>)
    ensures options == TimeOptions()
  {
    options := [];
    for h := 5 to 21
      invariant |options| == (h - 5) * 12
      invariant OptionsSoFar(options)
    {
      options := HourOptions(options, h);
    }
  }

  /** Every option so far is the one at its position. */
  predicate OptionsSoFar(options: seq<string>)
  {
    forall k :: 0 <= k < |options| ==> options[k] == Label(OptionMark(k))
  }

  /** The inner loop of `generateTimeOptions`: the twelve options of hour
      `h`, appended after the hours before it. */
  method HourOptions(before: seq<string>, h: int) returns (options: seq<string>)
    requires 5 <= h && |before| == (h - 5) * 12 && OptionsSoFar(before)
    ensures |options| == (h - 4) * 12 && OptionsSoFar(options)
  {
    options := before;
    var m := 0;
    ghost var j := 0;
    while m < 60
      invariant 0 <= j <= 12 && m == 5 * j
      invariant |options| == (h - 5) * 12 + j
      invariant OptionsSoFar(options)
    {
      OptionNext(options, h, j);
      options := options + [Label(Mark(h, m))];
      m := m + 5;
      j := j + 1;
    }
  }

  /** Minute `5 * j` of hour `h` is the option after the ones before it. */
  lemma OptionNext(options: seq<string>, h: int, j: nat)
    requires 5 <= h && j < 12 && |options| == (h - 5) * 12 + j && OptionsSoFar(options)
    ensures OptionsSoFar(options + [Label(Mark(h, 5 * j))])
  {
    DivUnique(|options|, 12, h - 5, j);
    assert OptionMark(|options|) == Mark(h, 5 * j);
    AppendPointwise(options, Label(Mark(h, 5 * j)), k => Label(OptionMark(k)));
  }

  /** The options are the `minutesToTime` labels of 05:00, 05:05, ...,
      20:55: each reads back as `300 + 5 * k` minutes, so they rise in
      5-minute steps with no repeat. */
  lemma TimeOptionsSpec(k: nat)
    requires k < 192
    ensures TimeOptions()[k] == MinutesToTime(Num(300 + 5 * k))
    ensures TimeToMinutes(TimeOptions()[k]) == Num(300 + 5 * k)
  {
    var mark := OptionMark(k);
    DivUnique(k, 12, k / 12, k % 12);
    assert MinutesOf(mark) == 300 + 5 * k;
    SlotLabel(mark);
    TimeRoundTrip(300 + 5 * k);
  }

  /** The first option is "05:00" and the last "20:55". */
  lemma TimeOptionsEnds()
    ensures TimeOptions()[0] == "05:00" && TimeOptions()[191] == "20:55"
  {
    assert OptionMark(191) == Mark(20, 55);
    FirstLastLabels(OptionMark(0), OptionMark(191));
  }

  lemma FirstLastLabels(first: Mark, last: Mark)
    requires first == Mark(5, 0) && last == Mark(20, 55)
    ensures Label(first) == "05:00" && Label(last) == "20:55"
  {
    assert Pad2(20) == "20" by {
      assert NatToString(20) == NatToString(2) + [DigitChar(0)];
    }
    assert Pad2(55) == "55" by {
      assert NatToString(55) == NatToString(5) + [DigitChar(5)];
    }
  }

  /** JavaScript subtraction and addition: `NaN` as soon as either side
      is. */
  function JsPlus(a: JsNumber, b: JsNumber): (r: JsNumber)
    ensures r.Num? <==> a.Num? && b.Num?
    ensures r.Num? ==> r.value == a.value + b.value
  {
    if a.Num? && b.Num? then Num(a.value + b.value) else NaN
  }

  function JsMinus(a: JsNumber, b: JsNumber): (r: JsNumber)
    ensures r.Num? <==> a.Num? && b.Num?
    ensures r.Num? ==> r.value == a.value - b.value
  {
    if a.Num? && b.Num? then Num(a.value - b.value) else NaN
  }

  /** One block in the browser: `(end - start) + (hlp_before || 0) +
      (hlp_after || 0)`, a missing buffer counting as zero. */
  function JsBlockMinutes(b: Block): JsNumber
  {
    var start := ClientUtils.TimeToMinutes(b.startTime);
    var end := ClientUtils.TimeToMinutes(b.endTime);
    JsPlus(JsPlus(JsMinus(end, start), Num(Hours.Hlp(b.hlpBefore))), Num(Hours.Hlp(b.hlpAfter)))
  }

  /** `total += f(x)` over `xs`, in order, from 0. */
  function JsTotal<T>(xs: seq<T>, f: T -> JsNumber): JsNumber
  {
    if xs == [] then Num(0)
    else JsPlus(JsTotal(xs[..|xs| - 1], f), f(xs[|xs| - 1]))
  }

  /** What `calculateShiftDuration` returns for a list of blocks. */
  function JsShiftTotal(blocks: seq<Block>): JsNumber
  {
    JsTotal(blocks, JsBlockMinutes)
  }

  /** `calculateShiftDuration`: the loop over the shift's blocks. */
  method CalculateShiftDuration(sh: Shift) returns (total: JsNumber)
    ensures total == JsShiftTotal(sh.blocks)
  {
    total := Num(0);
    for i := 0 to |sh.blocks|
      invariant total == JsShiftTotal(sh.blocks[..i])
    {
      var b := sh.blocks[i];
      var start := ClientUtils.TimeToMinutes(b.startTime);
      var end := ClientUtils.TimeToMinutes(b.endTime);
      assert sh.blocks[..i + 1][..i] == sh.blocks[..i];
      total := JsPlus(total, JsPlus(JsPlus(JsMinus(end, start), Num(Hours.Hlp(b.hlpBefore))), Num(Hours.Hlp(b.hlpAfter))));
    }
    assert sh.blocks[..|sh.blocks|] == sh.blocks;
  }

  /** A browser total is `NaN` exactly when one of its terms is. */
  lemma {:induction false} JsTotalNaN<T>(xs: seq<T>, f: T -> JsNumber)
    ensures JsTotal(xs, f).NaN? <==> exists i :: 0 <= i < |xs| && f(xs[i]).NaN?
  {
    if xs != [] {
      var front := xs[..|xs| - 1];
      JsTotalNaN(front, f);
      if exists i :: 0 <= i < |front| && f(front[i]).NaN? {
        var i :| 0 <= i < |front| && f(front[i]).NaN?;
        assert xs[i] == front[i];
      }
      if exists i :: 0 <= i < |xs| && f(xs[i]).NaN? {
        var i :| 0 <= i < |xs| && f(xs[i]).NaN?;
        if i < |front| {
          assert front[i] == xs[i];
        }
      }
    }
  }

  /** The form being edited. */
  datatype AssignmentForm = AssignmentForm(
    circuitNumber: string,
    employeeId: string,
    startDate: Day,
    endDate: Day,
    shifts: seq<Shift>)

  /** `addShift(type)`: a new shift named `type`, with the fresh id given by
      `uuidv4()` and no blocks, appended after the others. */
  function AddShift(form: AssignmentForm, newId: string, shiftType: string): AssignmentForm
  {
    form.(shifts := form.shifts + [Shift(newId, shiftType, [])])
  }

  /** `removeShift(shiftId)`: drop the shifts with that id. */
  function RemoveShift(form: AssignmentForm, shiftId: string): AssignmentForm
  {
    form.(shifts := Filter(form.shifts, (s: Shift) => s.id != shiftId))
  }

  /** The block `addBlock` creates: no school, grey, 07:00 to 08:00, no
      buffers. */
  function DefaultBlock(newId: string): Block
  {
    Block(newId, "", "", "#9E9E9E", "07:00", "08:00", Some(0), Some(0))
  }

  /** `addBlock(shiftId)`: the default block appended to the shifts with
      that id. */
  function AddBlock(form: AssignmentForm, shiftId: string, newId: string): AssignmentForm
  {
    var shifts := form.shifts;
    form.(shifts := seq(|shifts|, i requires 0 <= i < |shifts| =>
      if shifts[i].id == shiftId then shifts[i].(blocks := shifts[i].blocks + [DefaultBlock(newId)]) else shifts[i]))
  }

  /** The keys an `updates` object may carry; `None` is a key it leaves
      out. */
  datatype BlockUpdate = BlockUpdate(
    id: Option<string>,
    schoolId: Option<string>,
    schoolName: Option<string>,
    schoolColor: Option<string>,
    startTime: Option<string>,
    endTime: Option<string>,
    hlpBefore: Option<int>,
    hlpAfter: Option<int>)

  function Pick<T>(update: Option<T>, current: T): T
  {
    if update.Some? then update.value else current
  }

  /** `{ ...b, ...updates }`: every key present in `updates` wins. */
  function ApplyUpdate(b: Block, u: BlockUpdate): Block
  {
    Block(
      Pick(u.id, b.id),
      Pick(u.schoolId, b.schoolId),
      Pick(u.schoolName, b.schoolName),
      Pick(u.schoolColor, b.schoolColor),
      Pick(u.startTime, b.startTime),
      Pick(u.endTime, b.endTime),
      if u.hlpBefore.Some? then u.hlpBefore else b.hlpBefore,
      if u.hlpAfter.Some? then u.hlpAfter else b.hlpAfter)
  }

  /** `updateBlock(shiftId, blockId, updates)`: inside the shifts with that
      id, the blocks with that id get the updates. */
  function UpdateBlock(form: AssignmentForm, shiftId: string, blockId: string, u: BlockUpdate): AssignmentForm
  {
    var shifts := form.shifts;
    form.(shifts := seq(|shifts|, i requires 0 <= i < |shifts| =>
      if shifts[i].id == shiftId then shifts[i].(blocks := UpdateBlocks(shifts[i].blocks, blockId, u)) else shifts[i]))
  }

  /** The inner `blocks.map` of `updateBlock`. */
  function UpdateBlocks(blocks: seq<Block>, blockId: string, u: BlockUpdate): seq<Block>
  {
    seq(|blocks|, j requires 0 <= j < |blocks| => if blocks[j].id == blockId then ApplyUpdate(blocks[j], u) else blocks[j])
  }

  /** `removeBlock(shiftId, blockId)`: inside the shifts with that id, drop
      the blocks with that id. */
  function RemoveBlock(form: AssignmentForm, shiftId: string, blockId: string): AssignmentForm
  {
    var shifts := form.shifts;
    form.(shifts := seq(|shifts|, i requires 0 <= i < |shifts| =>
      if shifts[i].id == shiftId then shifts[i].(blocks := Filter(shifts[i].blocks, (b: Block) => b.id != blockId)) else shifts[i]))
  }

  /** No shift of the form has this id. */
  predicate FreshShiftId(form: AssignmentForm, id: string)
  {
    forall i :: 0 <= i < |form.shifts| ==> form.shifts[i].id != id
  }

  /** Adding a shift keeps the others in place and in order, appends one
      empty shift of the given type, and changes nothing else; its
      duration is zero. */
  lemma AddShiftSpec(form: AssignmentForm, newId: string, shiftType: string)
    ensures var r := AddShift(form, newId, shiftType);
      && |r.shifts| == |form.shifts| + 1
      && r.shifts[..|form.shifts|] == form.shifts
      && r.shifts[|form.shifts|] == Shift(newId, shiftType, [])
      && r.(shifts := form.shifts) == form
      && JsShiftTotal(r.shifts[|form.shifts|].blocks) == Num(0)
  {
    var r := AddShift(form, newId, shiftType);
    assert r.shifts[..|form.shifts|] == form.shifts;
  }

  /** Removing a shift keeps exactly the shifts with another id, every copy
      of them, in order; an id no shift has changes nothing; removing twice
      is removing once. */
  lemma RemoveShiftSpec(form: AssignmentForm, shiftId: string, s: Shift)
    ensures var r := RemoveShift(form, shiftId);
      && (s in r.shifts <==> s in form.shifts && s.id != shiftId)
      && multiset(r.shifts)[s] == (if s.id != shiftId then multiset(form.shifts)[s] else 0)
      && IsSubsequence(r.shifts, form.shifts)
      && r.(shifts := form.shifts) == form
      && (FreshShiftId(form, shiftId) ==> r == form)
      && RemoveShift(r, shiftId) == r
  {
    var p := (s: Shift) => s.id != shiftId;
    var r := RemoveShift(form, shiftId);
    FilterMember(form.shifts, p, s);
    FilterCount(form.shifts, p, s);
    FilterIsSubsequence(form.shifts, p);
    if FreshShiftId(form, shiftId) {
      FilterAll(form.shifts, p);
    }
    forall i | 0 <= i < |r.shifts|
      ensures p(r.shifts[i])
    {
      FilterMember(form.shifts, p, r.shifts[i]);
    }
    FilterAll(r.shifts, p);
  }

  /** Removing a freshly added shift gives the form back. */
  lemma RemoveShiftUndoesAdd(form: AssignmentForm, newId: string, shiftType: string)
    requires FreshShiftId(form, newId)
    ensures RemoveShift(AddShift(form, newId, shiftType), newId) == form
  {
    var p := (s: Shift) => s.id != newId;
    var shifts := form.shifts + [Shift(newId, shiftType, [])];
    FilterAppendOne(form.shifts, Shift(newId, shiftType, []), p);
    FilterAll(form.shifts, p);
  }

  /** Adding a block touches only the shifts with the given id: each keeps
      its id and name and gains the default block at the end; every other
      shift and field is unchanged. The default block lasts 60 minutes,
      both in the browser and in the backend. */
  lemma AddBlockSpec(form: AssignmentForm, shiftId: string, newId: string, i: nat)
    requires i < |form.shifts|
    ensures var r := AddBlock(form, shiftId, newId);
      && |r.shifts| == |form.shifts|
      && r.(shifts := form.shifts) == form
      && r.shifts[i].id == form.shifts[i].id && r.shifts[i].name == form.shifts[i].name
      && r.shifts[i].blocks == (if form.shifts[i].id == shiftId then form.shifts[i].blocks + [DefaultBlock(newId)] else form.shifts[i].blocks)
      && (form.shifts[i].id == shiftId ==>
            JsShiftTotal(r.shifts[i].blocks) == JsPlus(JsShiftTotal(form.shifts[i].blocks), Num(60)))
  {
    var blocks := form.shifts[i].blocks;
    assert (blocks + [DefaultBlock(newId)])[..|blocks|] == blocks;
    DefaultBlockMinutes(newId);
  }

  /** The default block lasts an hour, both in the browser and in the
      backend. */
  lemma DefaultBlockMinutes(newId: string)
    ensures JsBlockMinutes(DefaultBlock(newId)) == Num(60)
    ensures Hours.BlockMinutes(DefaultBlock(newId)) == Some(60)
  {
    var b := DefaultBlock(newId);
    DefaultClock(b.startTime, 7);
    DefaultClock(b.endTime, 8);
    Hours.BlockOfTimes(b, 420, 480);
    JsBlockOfTimes(b, 420, 480);
  }

  /** A block whose two times read as numbers lasts their difference plus
      its buffers. */
  lemma JsBlockOfTimes(b: Block, start: int, end: int)
    requires ClientUtils.TimeToMinutes(b.startTime) == Num(start) && ClientUtils.TimeToMinutes(b.endTime) == Num(end)
    ensures JsBlockMinutes(b) == Num(end - start + Hours.Hlp(b.hlpBefore) + Hours.Hlp(b.hlpAfter))
  {
  }

  /** The default block's times, "07:00" and "08:00", read as whole hours
      on both sides. */
  lemma DefaultClock(time: string, hour: int)
    requires (hour == 7 && time == "07:00") || (hour == 8 && time == "08:00")
    ensures ClientUtils.TimeToMinutes(time) == Num(hour * 60)
    ensures ServerTime.TimeToMinutes(time) == Some(hour * 60)
  {
    var hh, mm := Pad2(hour), Pad2(0);
    assert mm == "00";
    if hour == 7 {
      assert hh == "07";
    } else {
      assert hh == "08";
    }
    assert hh + ":" + mm == time;
    PaddedFieldsNumber(hour, 0);
    ServerTime.PaddedFieldsParse(hour, 0);
  }

  /** No block of the shift has this id. */
  predicate FreshBlockId(blocks: seq<Block>, id: string)
  {
    forall j :: 0 <= j < |blocks| ==> blocks[j].id != id
  }

  /** Updating a block changes, inside the shifts with the given id, only
      the blocks with the given id, each to its updated record; every other
      shift, block and field is unchanged. Applying the same update twice
      is applying it once, and an update without keys changes nothing. */
  lemma UpdateBlockSpec(form: AssignmentForm, shiftId: string, blockId: string, u: BlockUpdate, i: nat, j: nat)
    requires i < |form.shifts| && j < |form.shifts[i].blocks|
    ensures var r := UpdateBlock(form, shiftId, blockId, u);
      var b := form.shifts[i].blocks[j];
      && |r.shifts| == |form.shifts|
      && r.(shifts := form.shifts) == form
      && r.shifts[i].id == form.shifts[i].id && r.shifts[i].name == form.shifts[i].name
      && |r.shifts[i].blocks| == |form.shifts[i].blocks|
      && r.shifts[i].blocks[j] == (if form.shifts[i].id == shiftId && b.id == blockId then ApplyUpdate(b, u) else b)
  {
  }

  /** `{ ...b, ...updates }` applied twice is applied once. */
  lemma ApplyUpdateIdempotent(b: Block, u: BlockUpdate)
    ensures ApplyUpdate(ApplyUpdate(b, u), u) == ApplyUpdate(b, u)
    ensures u == BlockUpdate(None, None, None, None, None, None, None, None) ==> ApplyUpdate(b, u) == b
  {
  }

  /** Repeating an update leaves the form as the first one did. */
  lemma UpdateBlockIdempotent(form: AssignmentForm, shiftId: string, blockId: string, u: BlockUpdate)
    ensures var r := UpdateBlock(form, shiftId, blockId, u);
      UpdateBlock(r, shiftId, blockId, u) == r
  {
    var r := UpdateBlock(form, shiftId, blockId, u);
    var r2 := UpdateBlock(r, shiftId, blockId, u);
    forall i | 0 <= i < |r.shifts|
      ensures r2.shifts[i] == r.shifts[i]
    {
      if r.shifts[i].id == shiftId {
        var bs := r.shifts[i].blocks;
        forall j | 0 <= j < |bs|
          ensures UpdateBlocks(bs, blockId, u)[j] == bs[j]
        {
          ApplyUpdateIdempotent(form.shifts[i].blocks[j], u);
        }
      }
    }
  }

  /** Removing a block drops, inside the shifts with the given id, exactly
      the blocks with the given id, keeping the rest in order; an id no
      block there has changes nothing; every other shift and field is
      unchanged. */
  lemma RemoveBlockSpec(form: AssignmentForm, shiftId: string, blockId: string, i: nat, b: Block)
    requires i < |form.shifts|
    ensures var r := RemoveBlock(form, shiftId, blockId);
      var old_blocks := form.shifts[i].blocks;
      && |r.shifts| == |form.shifts|
      && r.(shifts := form.shifts) == form
      && r.shifts[i].id == form.shifts[i].id && r.shifts[i].name == form.shifts[i].name
      && (form.shifts[i].id != shiftId ==> r.shifts[i] == form.shifts[i])
      && (form.shifts[i].id == shiftId ==>
            && (b in r.shifts[i].blocks <==> b in old_blocks && b.id != blockId)
            && multiset(r.shifts[i].blocks)[b] == (if b.id != blockId then multiset(old_blocks)[b] else 0)
            && IsSubsequence(r.shifts[i].blocks, old_blocks)
            && (FreshBlockId(old_blocks, blockId) ==> r.shifts[i] == form.shifts[i]))
  {
    var p := (b: Block) => b.id != blockId;
    var old_blocks := form.shifts[i].blocks;
    FilterMember(old_blocks, p, b);
    FilterCount(old_blocks, p, b);
    FilterIsSubsequence(old_blocks, p);
    if FreshBlockId(old_blocks, blockId) {
      FilterAll(old_blocks, p);
    }
  }

  /** Removing a freshly added block gives the form back. */
  lemma RemoveBlockUndoesAdd(form: AssignmentForm, shiftId: string, newId: string)
    requires forall i :: 0 <= i < |form.shifts| && form.shifts[i].id == shiftId ==> FreshBlockId(form.shifts[i].blocks, newId)
    ensures RemoveBlock(AddBlock(form, shiftId, newId), shiftId, newId) == form
  {
    var p := (b: Block) => b.id != newId;
    var added := AddBlock(form, shiftId, newId);
    var r := RemoveBlock(added, shiftId, newId);
    forall i | 0 <= i < |form.shifts|
      ensures r.shifts[i] == form.shifts[i]
    {
      if form.shifts[i].id == shiftId {
        var blocks := form.shifts[i].blocks;
        FilterAppendOne(blocks, DefaultBlock(newId), p);
        FilterAll(blocks, p);
      }
    }
  }

  /** The search test: the circuit number, or the employee's name, contains
      the search text, ignoring case. A missing `employee_name` behaves as
      the empty name: it matches only the empty search, which every
      circuit number matches anyway. */
  predicate Matches(a: Assignment, search: string)
  {
    Contains(Lower(a.circuitNumber), Lower(search)) || Contains(Lower(a.employeeName), Lower(search))
  }

  /** `filteredAssignments`. */
  function FilteredAssignments(assignments: seq<Assignment>, search: string): seq<Assignment>
  {
    Filter(assignments, (a: Assignment) => Matches(a, search))
  }

  /** The filter keeps exactly the matching assignments, every copy of
      them, in their order;
      the empty search keeps them all; and the search ignores case. */
  lemma FilteredAssignmentsSpec(assignments: seq<Assignment>, search: string, a: Assignment)
    ensures a in FilteredAssignments(assignments, search) <==> a in assignments && Matches(a, search)
    ensures multiset(FilteredAssignments(assignments, search))[a] == if Matches(a, search) then multiset(assignments)[a] else 0
    ensures IsSubsequence(FilteredAssignments(assignments, search), assignments)
    ensures FilteredAssignments(assignments, "") == assignments
    ensures FilteredAssignments(assignments, Lower(search)) == FilteredAssignments(assignments, search)
  {
    var p := (a: Assignment) => Matches(a, search);
    FilterMember(assignments, p, a);
    FilterCount(assignments, p, a);
    FilterIsSubsequence(assignments, p);
    forall i | 0 <= i < |assignments|
      ensures Matches(assignments[i], "")
    {
      ContainsEmpty(Lower(assignments[i].circuitNumber));
    }
    FilterAll(assignments, (a: Assignment) => Matches(a, ""));
    LowerIdempotent(search);
    FilterCongruent(assignments, (a: Assignment) => Matches(a, Lower(search)), p);
  }

  /** What the submit handler does before calling the API. */
  datatype SubmitOutcome = Rejected(message: string) | Proceed

  /** The check at the top of `handleSubmit`: a circuit number that is
      empty after `trim()` stops the submission with an error toast. */
  function CheckSubmit(form: AssignmentForm): SubmitOutcome
  {
    if Trim(form.circuitNumber) == [] then Rejected("Le numéro de circuit est requis") else Proceed
  }

  /** The submission is stopped exactly when the circuit number is empty or
      all whitespace. */
  lemma CheckSubmitSpec(form: AssignmentForm)
    ensures CheckSubmit(form).Rejected? <==> forall i :: 0 <= i < |form.circuitNumber| ==> IsSpace(form.circuitNumber[i])
  {
    TrimSpec(form.circuitNumber);
  }
}
