/** The time slots of the schedule grid (`generateTimeSlots` in
    `frontend/src/lib/utils.js`): for every hour from the first to the last,
    a slot every `intervalMinutes` minutes, the last hour contributing only
    its `:00` slot. */
module TimeGrid {
  import opened Text
  import opened ClientUtils

  /** One slot of the grid: its `HH:MM` label and its minutes. */
  datatype Slot = Slot(time: string, minutes: int)

  /** A point of the grid: an hour and the minutes past it. */
  datatype Mark = Mark(hour: int, min: int)

  /** The minutes since midnight of a mark, `hour * 60 + min`. */
  function MinutesOf(m: Mark): int
  {
    m.hour * 60 + m.min
  }

  /** The `HH:MM` text of a mark, both fields through
      `toString().padStart(2, '0')`. */
  function Label(m: Mark): string
  {
    Pad2(m.hour) + ":" + Pad2(m.min)
  }

  /** The slot pushed for a mark. */
  function SlotOf(m: Mark): Slot
  {
    Slot(Label(m), MinutesOf(m))
  }

  /** The slots of a run of marks. */
  function Render(marks: seq<Mark>): (slots: seq<Slot>)
    ensures |slots| == |marks|
  {
    seq(|marks|, i requires 0 <= i < |marks| => SlotOf(marks[i]))
  }

  /** Rendering works mark by mark. */
  lemma RenderAppend(a: seq<Mark>, b: seq<Mark>)
    ensures Render(a + b) == Render(a) + Render(b)
  {
    forall i | 0 <= i < |a + b|
      ensures Render(a + b)[i] == (Render(a) + Render(b))[i]
    {
      if i < |a| {
        assert (a + b)[i] == a[i];
      } else {
        assert (a + b)[i] == b[i - |a|];
      }
    }
  }

  /** The marks of one hour from `min` on, every `interval` minutes, while
      below 60. */
  function HourMarks(hour: int, interval: int, min: int): seq<Mark>
    requires interval > 0
    decreases 60 - min
  {
    if min >= 60 then [] else [Mark(hour, min)] + HourMarks(hour, interval, min + interval)
  }

  /** One pass of the inner loop: the last hour breaks after its `:00`
      mark, the others give all their marks. */
  function RowMarks(hour: int, endHour: int, interval: int): seq<Mark>
    requires interval > 0
  {
    if hour == endHour then [Mark(hour, 0)] else HourMarks(hour, interval, 0)
  }

  /** The marks of the hours from `hour` to `endHour`, in order. */
  function GridMarks(hour: int, endHour: int, interval: int): seq<Mark>
    requires interval > 0
    decreases endHour - hour
  {
    if hour > endHour then [] else RowMarks(hour, endHour, interval) + GridMarks(hour + 1, endHour, interval)
  }

  /** The grid `generateTimeSlots` returns. */
  function TimeSlots(startHour: int, endHour: int, interval: int): seq<Slot>
    requires interval > 0
  {
    Render(GridMarks(startHour, endHour, interval))
  }

  /** `generateTimeSlots`. A non-positive interval never ends the inner
      loop, so the source needs a positive one. */
  method GenerateTimeSlots(startHour: int, endHour: int, intervalMinutes: int) returns (slots: seq<Slot>)
    requires intervalMinutes > 0
    ensures slots == TimeSlots(startHour, endHour, intervalMinutes)
  {
    slots := [];
    ghost var marks: seq<Mark> := [];
    var hour := startHour;
    while hour <= endHour
      invariant hour <= endHour + 1 || hour == startHour
      invariant marks + GridMarks(hour, endHour, intervalMinutes) == GridMarks(startHour, endHour, intervalMinutes)
      invariant slots == Render(marks)
      decreases endHour - hour
    {
      var row := HourLoop(hour, endHour, intervalMinutes);
      ghost var rowMarks := RowMarks(hour, endHour, intervalMinutes);
      GridStep(marks, hour, endHour, intervalMinutes, GridMarks(startHour, endHour, intervalMinutes));
      RenderAppend(marks, rowMarks);
      slots := slots + row;
      marks := marks + rowMarks;
      hour := hour + 1;
    }
    assert marks + [] == marks;
  }

  /** One pass of the outer loop moves the hour's marks from what is left
      to what is done. */
  lemma GridStep(done: seq<Mark>, hour: int, endHour: int, interval: int, all: seq<Mark>)
    requires interval > 0 && hour <= endHour
    requires done + GridMarks(hour, endHour, interval) == all
    ensures (done + RowMarks(hour, endHour, interval)) + GridMarks(hour + 1, endHour, interval) == all
  {
    var row, rest := RowMarks(hour, endHour, interval), GridMarks(hour + 1, endHour, interval);
    assert done + (row + rest) == (done + row) + rest;
  }

  /** The inner loop of `generateTimeSlots` for one hour. */
  method HourLoop(hour: int, endHour: int, interval: int) returns (row: seq<Slot>)
    requires interval > 0 && hour <= endHour
    ensures row == Render(RowMarks(hour, endHour, interval))
  {
    row := [];
    ghost var marks: seq<Mark> := [];
    var min := 0;
    while min < 60
      invariant 0 <= min
      invariant row == Render(marks)
      invariant RowSoFar(marks, hour, endHour, interval, min)
      decreases 60 - min
    {
      if hour == endHour && min > 0 {
        break;
      }
      RowStep(marks, hour, endHour, interval, min);
      RenderPush(marks, Mark(hour, min));
      row := row + [SlotOf(Mark(hour, min))];
      marks := marks + [Mark(hour, min)];
      min := min + interval;
    }
    RowDone(marks, hour, endHour, interval, min);
  }

  /** The marks of the inner loop so far, before minute `min`: for the
      last hour, its `:00` mark once that is past; for any other hour, the
      marks that, followed by those from `min` on, make the whole hour. */
  ghost predicate RowSoFar(marks: seq<Mark>, hour: int, endHour: int, interval: int, min: int)
    requires interval > 0
  {
    if hour == endHour then marks == (if min == 0 then [] else [Mark(hour, 0)])
    else marks + HourMarks(hour, interval, min) == HourMarks(hour, interval, 0)
  }

  /** One pass of the inner loop keeps `RowSoFar`. */
  lemma RowStep(marks: seq<Mark>, hour: int, endHour: int, interval: int, min: int)
    requires interval > 0 && 0 <= min < 60 && !(hour == endHour && min > 0)
    requires RowSoFar(marks, hour, endHour, interval, min)
    ensures RowSoFar(marks + [Mark(hour, min)], hour, endHour, interval, min + interval)
  {
    if hour != endHour {
      var rest := HourMarks(hour, interval, min + interval);
      assert marks + ([Mark(hour, min)] + rest) == (marks + [Mark(hour, min)]) + rest;
    }
  }

  /** When the inner loop stops, the marks are the row's. */
  lemma RowDone(marks: seq<Mark>, hour: int, endHour: int, interval: int, min: int)
    requires interval > 0 && 0 <= min
    requires RowSoFar(marks, hour, endHour, interval, min)
    requires hour == endHour ==> min > 0
    requires hour != endHour ==> min >= 60
    ensures marks == RowMarks(hour, endHour, interval)
  {
    if hour != endHour {
      assert marks + [] == marks;
    }
  }

  /** Rendering one more mark appends its slot. */
  lemma RenderPush(marks: seq<Mark>, m: Mark)
    ensures Render(marks + [m]) == Render(marks) + [SlotOf(m)]
  {
    RenderAppend(marks, [m]);
  }

  /** Mark minutes rise strictly along the run. */
  predicate AscendingMarks(marks: seq<Mark>)
  {
    forall i, j :: 0 <= i < j < |marks| ==> MinutesOf(marks[i]) < MinutesOf(marks[j])
  }

  /** Every mark lies in `[lo, hi)` minutes since midnight, with its
      minutes past the hour below 60. */
  predicate MarksWithin(marks: seq<Mark>, lo: int, hi: int)
  {
    forall i :: 0 <= i < |marks| ==> lo <= MinutesOf(marks[i]) < hi && 0 <= marks[i].min < 60
  }

  /** Two ascending runs, the first entirely below the second, make one. */
  lemma AscendingAppend(a: seq<Mark>, b: seq<Mark>, lo: int, bound: int, hi: int)
    requires AscendingMarks(a) && AscendingMarks(b)
    requires MarksWithin(a, lo, bound) && MarksWithin(b, bound, hi) && lo <= bound <= hi
    ensures AscendingMarks(a + b) && MarksWithin(a + b, lo, hi)
  {
    forall i, j | 0 <= i < j < |a + b|
      ensures MinutesOf((a + b)[i]) < MinutesOf((a + b)[j])
    {
      if j < |a| {
        assert (a + b)[i] == a[i] && (a + b)[j] == a[j];
      } else if i >= |a| {
        assert (a + b)[i] == b[i - |a|] && (a + b)[j] == b[j - |a|];
      } else {
        assert (a + b)[i] == a[i] && (a + b)[j] == b[j - |a|];
      }
    }
    forall i | 0 <= i < |a + b|
      ensures lo <= MinutesOf((a + b)[i]) < hi && 0 <= (a + b)[i].min < 60
    {
      if i >= |a| {
        assert (a + b)[i] == b[i - |a|];
      } else {
        assert (a + b)[i] == a[i];
      }
    }
  }

  /** An hour's marks rise within that hour. */
  lemma {:induction false} HourMarksAscending(hour: int, interval: int, min: int)
    requires interval > 0 && min >= 0
    ensures AscendingMarks(HourMarks(hour, interval, min))
    ensures MarksWithin(HourMarks(hour, interval, min), hour * 60 + min, hour * 60 + 60)
    decreases 60 - min
  {
    if min < 60 {
      HourMarksAscending(hour, interval, min + interval);
      AscendingAppend([Mark(hour, min)], HourMarks(hour, interval, min + interval),
        hour * 60 + min, hour * 60 + min + 1, hour * 60 + 60);
    }
  }

  /** The grid's marks rise strictly from `startHour:00` to at most
      `endHour:00`. */
  lemma {:induction false} GridMarksAscending(startHour: int, endHour: int, interval: int)
    requires interval > 0
    ensures AscendingMarks(GridMarks(startHour, endHour, interval))
    ensures MarksWithin(GridMarks(startHour, endHour, interval), startHour * 60, endHour * 60 + 1)
    decreases endHour - startHour
  {
    if startHour <= endHour {
      HourMarksAscending(startHour, interval, 0);
      GridMarksAscending(startHour + 1, endHour, interval);
      var row := RowMarks(startHour, endHour, interval);
      if startHour == endHour {
        assert GridMarks(startHour + 1, endHour, interval) == [];
        assert row + [] == row;
      } else {
        AscendingAppend(row, GridMarks(startHour + 1, endHour, interval), startHour * 60, startHour * 60 + 60, endHour * 60 + 1);
      }
    }
  }

  /** Some mark falls exactly `t` minutes after midnight. */
  ghost predicate HasMinute(marks: seq<Mark>, t: int)
  {
    exists i :: 0 <= i < |marks| && MinutesOf(marks[i]) == t
  }

  lemma HasMinuteAppend(a: seq<Mark>, b: seq<Mark>, t: int)
    ensures HasMinute(a + b, t) <==> HasMinute(a, t) || HasMinute(b, t)
  {
    if HasMinute(a + b, t) {
      var i :| 0 <= i < |a + b| && MinutesOf((a + b)[i]) == t;
      if i >= |a| {
        assert MinutesOf(b[i - |a|]) == t;
      }
    }
    if HasMinute(a, t) {
      var i :| 0 <= i < |a| && MinutesOf(a[i]) == t;
      assert (a + b)[i] == a[i];
    }
    if HasMinute(b, t) {
      var i :| 0 <= i < |b| && MinutesOf(b[i]) == t;
      assert (a + b)[|a| + i] == b[i];
    }
  }

  /** `x` is reached from 0 by steps of `step`: the values `min` takes in
      `for (min = 0; ...; min += step)`. */
  predicate Steps(x: int, step: int)
    requires step > 0
    decreases x
  {
    x == 0 || (x >= step && Steps(x - step, step))
  }

  lemma MulMonotone(d: int, a: int, b: int)
    requires d > 0 && a <= b
    ensures a * d <= b * d
  {
  }

  /** Euclidean division has one quotient and one remainder. */
  lemma DivUnique(x: int, d: int, q: int, r: int)
    requires d > 0 && 0 <= r < d && x == q * d + r
    ensures x / d == q && x % d == r
  {
    var q' := x / d;
    if q' > q {
      MulMonotone(d, q + 1, q');
    } else if q' < q {
      MulMonotone(d, q' + 1, q);
    }
  }

  /** The values reached by steps of `step` are its non-negative
      multiples. */
  lemma {:induction false} StepsMod(x: int, step: int)
    requires step > 0 && x >= 0
    ensures Steps(x, step) <==> x % step == 0
    decreases x
  {
    if x >= step {
      StepsMod(x - step, step);
      DivUnique(x - step, step, (x - step) / step, (x - step) % step);
      DivUnique(x, step, (x - step) / step + 1, (x - step) % step);
    } else if x > 0 {
      DivUnique(x, step, 0, x);
    } else {
      DivUnique(x, step, 0, 0);
    }
  }

  /** An hour's marks from `min` on are exactly the minutes from `min` to
      59 past the hour that `min` reaches by whole intervals. */
  lemma {:induction false} HourMarksMember(hour: int, interval: int, min: int, t: int)
    requires interval > 0 && min >= 0
    ensures HasMinute(HourMarks(hour, interval, min), t) <==>
      min <= t - hour * 60 < 60 && Steps(t - hour * 60 - min, interval)
    decreases 60 - min
  {
    if min < 60 {
      var rest := HourMarks(hour, interval, min + interval);
      HourMarksMember(hour, interval, min + interval, t);
      HasMinuteAppend([Mark(hour, min)], rest, t);
      assert HasMinute([Mark(hour, min)], t) <==> t == hour * 60 + min by {
        if t == hour * 60 + min {
          assert MinutesOf([Mark(hour, min)][0]) == t;
        }
      }
    }
  }

  /** The hour and the minutes past it, for a time within that hour. */
  lemma PastTheHour(hour: int, t: int)
    requires hour * 60 <= t < hour * 60 + 60
    ensures t / 60 == hour && t % 60 == t - hour * 60
  {
    DivUnique(t, 60, hour, t - hour * 60);
  }

  /** The grid's marks are exactly the times from `startHour:00` to
      `endHour:00` whose minutes past the hour are reached from `:00` by
      whole intervals. */
  lemma {:induction false} GridMarksMember(startHour: int, endHour: int, interval: int, t: int)
    requires interval > 0
    ensures HasMinute(GridMarks(startHour, endHour, interval), t) <==>
      startHour * 60 <= t <= endHour * 60 && Steps(t % 60, interval)
    decreases endHour - startHour
  {
    if startHour <= endHour {
      var row := RowMarks(startHour, endHour, interval);
      GridMarksMember(startHour + 1, endHour, interval, t);
      HasMinuteAppend(row, GridMarks(startHour + 1, endHour, interval), t);
      if startHour == endHour {
        assert HasMinute(row, t) <==> t == endHour * 60 by {
          if t == endHour * 60 {
            assert MinutesOf(row[0]) == t;
          }
        }
        if t == endHour * 60 {
          PastTheHour(endHour, t);
        }
      } else {
        HourMarksMember(startHour, interval, 0, t);
        if startHour * 60 <= t < startHour * 60 + 60 {
          PastTheHour(startHour, t);
        }
      }
    }
  }

  /** How many marks an hour holds from `min` on. */
  lemma {:induction false} HourMarksCount(hour: int, interval: int, min: int)
    requires interval > 0 && min >= 0
    ensures |HourMarks(hour, interval, min)| == if min >= 60 then 0 else (59 - min) / interval + 1
    decreases 60 - min
  {
    if min < 60 {
      HourMarksCount(hour, interval, min + interval);
      var x := 59 - min;
      if min + interval < 60 {
        DivUnique(x - interval, interval, (x - interval) / interval, (x - interval) % interval);
        DivUnique(x, interval, (x - interval) / interval + 1, (x - interval) % interval);
      } else {
        DivUnique(x, interval, 0, x);
      }
    }
  }

  lemma {:induction false} GridMarksCount(startHour: int, endHour: int, interval: int)
    requires interval > 0 && startHour <= endHour
    ensures |GridMarks(startHour, endHour, interval)| == (endHour - startHour) * (59 / interval + 1) + 1
    decreases endHour - startHour
  {
    if startHour < endHour {
      var n := 59 / interval + 1;
      HourMarksCount(startHour, interval, 0);
      GridMarksCount(startHour + 1, endHour, interval);
      assert (endHour - startHour) * n == (endHour - startHour - 1) * n + n;
    }
  }

  lemma {:induction false} GridMarksEnds(startHour: int, endHour: int, interval: int)
    requires interval > 0 && startHour <= endHour
    ensures var m := GridMarks(startHour, endHour, interval);
      |m| >= 1 && m[0] == Mark(startHour, 0) && m[|m| - 1] == Mark(endHour, 0)
    decreases endHour - startHour
  {
    if startHour < endHour {
      GridMarksEnds(startHour + 1, endHour, interval);
      var rest := GridMarks(startHour + 1, endHour, interval);
      var row := HourMarks(startHour, interval, 0);
      assert row[0] == Mark(startHour, 0);
      assert (row + rest)[|row + rest| - 1] == rest[|rest| - 1];
    }
  }

  /** The grid rises strictly, so no time appears twice, and every slot
      lies between `startHour:00` and `endHour:00`. */
  lemma SlotsAscending(startHour: int, endHour: int, interval: int)
    requires interval > 0
    ensures var s := TimeSlots(startHour, endHour, interval);
      && (forall i, j :: 0 <= i < j < |s| ==> s[i].minutes < s[j].minutes)
      && (forall i :: 0 <= i < |s| ==> startHour * 60 <= s[i].minutes <= endHour * 60)
  {
    GridMarksAscending(startHour, endHour, interval);
  }

  /** A time is on the grid exactly when it lies between `startHour:00` and
      `endHour:00` and its minutes past the hour are a multiple of the
      interval. */
  lemma SlotsMember(startHour: int, endHour: int, interval: int, t: int)
    requires interval > 0
    ensures (exists i :: 0 <= i < |TimeSlots(startHour, endHour, interval)| && TimeSlots(startHour, endHour, interval)[i].minutes == t)
      <==> startHour * 60 <= t <= endHour * 60 && (t % 60) % interval == 0
  {
    var marks := GridMarks(startHour, endHour, interval);
    var s := TimeSlots(startHour, endHour, interval);
    GridMarksMember(startHour, endHour, interval, t);
    StepsMod(t % 60, interval);
    if HasMinute(marks, t) {
      var i :| 0 <= i < |marks| && MinutesOf(marks[i]) == t;
      assert s[i].minutes == t;
    }
  }

  /** The grid's length: `59 / interval + 1` slots for every hour before
      the last, and one slot for the last; it starts with `startHour:00`
      and ends with `endHour:00`. */
  lemma SlotsCount(startHour: int, endHour: int, interval: int)
    requires interval > 0 && startHour <= endHour
    ensures var s := TimeSlots(startHour, endHour, interval);
      && |s| == (endHour - startHour) * (59 / interval + 1) + 1
      && s[0] == SlotOf(Mark(startHour, 0)) && s[|s| - 1] == SlotOf(Mark(endHour, 0))
  {
    GridMarksCount(startHour, endHour, interval);
    GridMarksEnds(startHour, endHour, interval);
  }

  /** A mark of a non-negative hour is labelled with `minutesToTime` of its
      minutes. */
  lemma SlotLabel(m: Mark)
    requires m.hour >= 0 && 0 <= m.min < 60
    ensures Label(m) == MinutesToTime(Num(MinutesOf(m)))
  {
    var t := MinutesOf(m);
    PastTheHour(m.hour, t);
    assert JsRem60(t) == m.min;
  }

  /** For a grid from a non-negative hour, every label is `minutesToTime`
      of the slot's minutes and reads back through `timeToMinutes` as those
      minutes. */
  lemma SlotsLabelled(startHour: int, endHour: int, interval: int)
    requires interval > 0 && startHour >= 0
    ensures var s := TimeSlots(startHour, endHour, interval);
      forall i :: 0 <= i < |s| ==>
        s[i].time == MinutesToTime(Num(s[i].minutes)) && TimeToMinutes(s[i].time) == Num(s[i].minutes)
  {
    var marks := GridMarks(startHour, endHour, interval);
    var s := TimeSlots(startHour, endHour, interval);
    GridMarksAscending(startHour, endHour, interval);
    forall i | 0 <= i < |s|
      ensures s[i].time == MinutesToTime(Num(s[i].minutes)) && TimeToMinutes(s[i].time) == Num(s[i].minutes)
    {
      SlotLabel(marks[i]);
      TimeRoundTrip(MinutesOf(marks[i]));
    }
  }

  /** With its default arguments (5, 20, 30) the grid runs from "05:00" to
      "20:00" in 31 half-hour slots. */
  lemma DefaultSlots(startHour: int, endHour: int, interval: int)
    requires startHour == 5 && endHour == 20 && interval == 30
    ensures var s := TimeSlots(startHour, endHour, interval);
      && |s| == 31
      && s[0] == Slot("05:00", 300)
      && s[30] == Slot("20:00", 1200)
  {
    SlotsCount(startHour, endHour, interval);
    assert 59 / interval == 1;
    DefaultLabels(Mark(startHour, 0), Mark(endHour, 0));
  }

  /** The labels of the first and last default slots. */
  lemma DefaultLabels(first: Mark, last: Mark)
    requires first == Mark(5, 0) && last == Mark(20, 0)
    ensures Label(first) == "05:00" && Label(last) == "20:00"
  {
    assert Pad2(5) == "05" && Pad2(0) == "00";
    assert Pad2(20) == "20" by {
      assert NatToString(20) == NatToString(2) + [DigitChar(0)];
    }
  }
}
