/** Dates as day ordinals. The program handles dates as zero-padded
    `YYYY-MM-DD` strings, parses them with `strptime` / `new Date(...)`,
    steps them by whole days and compares them lexicographically. This model
    stands for each date by its proleptic Gregorian ordinal (0001-01-01 is
    day 1, as Python's `date.toordinal()`), so that stepping is `+ 1` and,
    under the assumption that lexicographic order of zero-padded ISO strings
    is calendar order, string comparison is integer comparison. */
module Calendar {
  import opened Lists

  type Day = int

  /** Python's `date.weekday()`: Monday is 0, Sunday is 6 (day 1 is a
      Monday). */
  function Weekday(d: Day): (w: nat)
    ensures w < 7
  {
    (d + 6) % 7
  }

  /** JavaScript's `Date.getDay()`: Sunday is 0, Monday 1, Saturday 6. */
  function JsDay(d: Day): (w: nat)
    ensures w < 7
    ensures w == (Weekday(d) + 1) % 7
  {
    d % 7
  }

  /** Monday to Friday: the test `weekday() < 5` of the backend. */
  predicate IsWeekday(d: Day)
  {
    Weekday(d) < 5
  }

  /** Moving `k` days forward moves the weekday `k` places round the week. */
  lemma WeekdayAdd(d: Day, k: nat)
    ensures Weekday(d + k) == (Weekday(d) + k) % 7
  {
  }

  /** The weekdays from `lo` to `hi` inclusive, ascending: what the backend
      collects by stepping a date one day at a time and keeping those with
      `weekday() < 5`. */
  function WeekdaysIn(lo: Day, hi: Day): seq<Day>
    decreases hi - lo
  {
    if hi < lo then []
    else WeekdaysIn(lo, hi - 1) + (if IsWeekday(hi) then [hi] else [])
  }

  /** A day is in the range exactly when it lies between the bounds and is a
      weekday. */
  lemma {:induction false} WeekdaysInMember(lo: Day, hi: Day, d: Day)
    ensures d in WeekdaysIn(lo, hi) <==> lo <= d <= hi && IsWeekday(d)
    decreases hi - lo
  {
    if lo <= hi {
      WeekdaysInMember(lo, hi - 1, d);
    }
  }

  /** The range is ascending, so it also has no repeats. */
  lemma {:induction false} WeekdaysInIncreasing(lo: Day, hi: Day)
    ensures StrictlyIncreasing(WeekdaysIn(lo, hi))
    decreases hi - lo
  {
    if lo <= hi {
      WeekdaysInIncreasing(lo, hi - 1);
      var front := WeekdaysIn(lo, hi - 1);
      forall i | 0 <= i < |front|
        ensures front[i] < hi
      {
        WeekdaysInMember(lo, hi - 1, front[i]);
      }
    }
  }

  /** A range that starts on a weekday starts with that day. */
  lemma {:induction false} WeekdaysInFirst(lo: Day, hi: Day)
    requires lo <= hi && IsWeekday(lo)
    ensures |WeekdaysIn(lo, hi)| >= 1 && WeekdaysIn(lo, hi)[0] == lo
    decreases hi - lo
  {
    if lo < hi {
      WeekdaysInFirst(lo, hi - 1);
    }
  }

  /** Extending a range by one day adds one element exactly when that day is
      a weekday. */
  lemma WeekdaysInStep(lo: Day, hi: Day)
    requires lo <= hi
    ensures |WeekdaysIn(lo, hi)| == |WeekdaysIn(lo, hi - 1)| + (if IsWeekday(hi) then 1 else 0)
  {
  }

  /** Seven consecutive days hold exactly five weekdays, whatever the first
      day is. */
  lemma WeekdaysInSevenDays(start: Day)
    ensures |WeekdaysIn(start, start + 6)| == 5
  {
    assert WeekdaysIn(start, start - 1) == [];
    var first := Weekday(start);
    var seen := 0;
    for k := 0 to 7
      invariant seen == |WeekdaysIn(start, start + k - 1)|
      invariant seen == WeekdaysAmong(first, k)
    {
      WeekdaysInStep(start, start + k);
      WeekdayOffset(start, k);
      AmongStep(first, k);
      seen := seen + if IsWeekday(start + k) then 1 else 0;
    }
  }

  /** Within a week of `start`, a day is a weekday exactly when its place
      counted from Monday of `start`'s week falls in this week's Monday to
      Friday or the next week's. */
  lemma WeekdayOffset(start: Day, k: nat)
    requires k < 7
    ensures IsWeekday(start + k) <==> Weekday(start) + k < 5 || 7 <= Weekday(start) + k < 12
  {
    WeekdayAdd(start, k);
  }

  /** How many of the places `w` to `w + k - 1` of the repeating week
      (0 is Monday, 7 the next Monday) are weekdays, for `k` up to seven:
      the places that fall in this week's Monday to Friday plus those in
      the next week's. */
  function WeekdaysAmong(w: nat, k: nat): nat
  {
    CommonLength(w, w + k, 0, 5) + CommonLength(w, w + k, 7, 12)
  }

  /** One more place adds one exactly when it is a weekday place. */
  lemma AmongStep(w: nat, k: nat)
    ensures WeekdaysAmong(w, k + 1) == WeekdaysAmong(w, k) + if w + k < 5 || 7 <= w + k < 12 then 1 else 0
  {
  }

  /** The length of the intersection of the intervals `[a, b)` and `[c, d)`. */
  function CommonLength(a: int, b: int, c: int, d: int): nat
  {
    var lo := if a < c then c else a;
    var hi := if b < d then b else d;
    if lo < hi then hi - lo else 0
  }
}
