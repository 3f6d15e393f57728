/** The browser-side helpers of `frontend/src/lib/utils.js`: the lenient
    `timeToMinutes`, the two minute formatters, the Monday and week-date
    helpers, `isWeekend`, and the time slots of the schedule grid. Dates are
    day ordinals (see `Calendar`); JavaScript numbers are the integers the
    computations produce, or `NaN`. */
module ClientUtils {
  import opened Text
  import opened Lists
  import opened Calendar
  import ServerTime

  /** A JavaScript number as these helpers see it: an integer, or `NaN`. */
  datatype JsNumber = Num(value: int) | NaN

  /** `Number(s)` on a string: surrounding whitespace is skipped, an empty
      remainder is 0, an optionally signed run of digits is its value, and
      anything else is `NaN`. */
  function NumberOf(s: string): JsNumber
  {
    var t := Trim(s);
    if t == [] then Num(0)
    else
      var v := ParseSigned(t);
      if v.Some? then Num(v.value) else NaN
  }

  /** `h * 60 + m` on JavaScript numbers: `NaN` as soon as either is. */
  function HoursAndMinutes(h: JsNumber, m: JsNumber): JsNumber
  {
    if h.Num? && m.Num? then Num(h.value * 60 + m.value) else NaN
  }

  /** `timeToMinutes`: 0 for an empty string; otherwise the first two
      colon-separated fields through `Number`, a missing minutes field being
      `undefined` (so `NaN`) and any further field ignored. */
  function TimeToMinutes(s: string): JsNumber
  {
    if s == [] then Num(0) else MinutesOfFields(Split(s, ':'))
  }

  /** The destructuring `const [h, m] = parts.map(Number)`: a missing
      minutes field is `undefined`, which makes the sum `NaN`. */
  function MinutesOfFields(parts: seq<string>): JsNumber
    requires |parts| >= 1
  {
    var m := if |parts| >= 2 then NumberOf(parts[1]) else NaN;
    HoursAndMinutes(NumberOf(parts[0]), m)
  }

  /** JavaScript's `minutes % 60`: the remainder takes the sign of the
      dividend (truncating division), unlike Python's. */
  function JsRem60(a: int): (r: int)
    ensures a >= 0 ==> r == a % 60
    ensures a < 0 ==> -60 < r <= 0
    ensures (a - r) % 60 == 0
  {
    if a >= 0 then a % 60 else -((-a) % 60)
  }

  /** `minutesToTime`: `Math.floor(minutes / 60)` and `minutes % 60`, each
      through `toString().padStart(2, '0')`; `NaN` prints as "NaN". */
  function MinutesToTime(minutes: JsNumber): string
  {
    if minutes.NaN? then "NaN:NaN"
    else Pad2(minutes.value / 60) + ":" + Pad2(JsRem60(minutes.value))
  }

  /** `formatHoursMinutes`: written separately in the source, with the same
      arithmetic as `minutesToTime`. */
  function FormatHoursMinutes(totalMinutes: JsNumber): string
  {
    if totalMinutes.NaN? then "NaN:NaN"
    else
      var hours := totalMinutes.value / 60;
      var minutes := JsRem60(totalMinutes.value);
      Pad2(hours) + ":" + Pad2(minutes)
  }

  /** The two formatters agree on every input. */
  lemma FormatIsMinutesToTime(m: JsNumber)
    ensures FormatHoursMinutes(m) == MinutesToTime(m)
  {
  }

  /** A padded number is a colon-free field that `Number` reads back. */
  lemma Pad2Number(n: int)
    ensures ':' !in Pad2(n) && NumberOf(Pad2(n)) == Num(n)
  {
    Pad2Clean(n);
  }

  /** Padded hours and minutes joined by a colon read back as
      `h * 60 + r`. */
  lemma PaddedFieldsNumber(h: int, r: int)
    ensures TimeToMinutes(Pad2(h) + ":" + Pad2(r)) == Num(h * 60 + r)
  {
    var hh, mm := Pad2(h), Pad2(r);
    Pad2Number(h);
    Pad2Number(r);
    ServerTime.SplitTwoFields(hh, mm);
    FieldsNumber(hh, mm, h, r);
  }

  /** Two fields that `Number` reads as `h` and `m` give `h * 60 + m`. */
  lemma FieldsNumber(hh: string, mm: string, h: int, m: int)
    requires NumberOf(hh) == Num(h) && NumberOf(mm) == Num(m)
    ensures MinutesOfFields([hh, mm]) == Num(h * 60 + m)
  {
  }

  /** For a non-negative count, reading a formatted time back gives the
      count. */
  lemma TimeRoundTrip(m: nat)
    ensures TimeToMinutes(MinutesToTime(Num(m))) == Num(m)
  {
    var h, r := m / 60, m % 60;
    assert h * 60 + r == m;
    assert MinutesToTime(Num(m)) == Pad2(h) + ":" + Pad2(r);
    PaddedFieldsNumber(h, r);
  }

  /** For a negative count the round trip breaks: the remainder keeps the
      sign, so -30 minutes prints as "-1:-30", which reads back as -90. */
  lemma NegativeRoundTrip(m: int)
    requires m == -30
    ensures TimeToMinutes(MinutesToTime(Num(m))) == Num(-90)
  {
    var h, r := m / 60, JsRem60(m);
    assert h == -1 && r == -30;
    assert MinutesToTime(Num(m)) == Pad2(h) + ":" + Pad2(r);
    PaddedFieldsNumber(h, r);
  }

  /** `getMonday`: step back to the Monday of the date's week, a Sunday
      going back six days. */
  function GetMonday(d: Day): Day
  {
    var dayOfWeek := JsDay(d);
    var diff := if dayOfWeek == 0 then -6 else 1 - dayOfWeek;
    d + diff
  }

  /** The Monday is the start of the Monday-to-Sunday week holding the date
      (the backend's `today - weekday()`), at most six days back; every day
      of that week has the same Monday, so the Monday of a Monday is
      itself. */
  lemma GetMondaySpec(d: Day)
    ensures GetMonday(d) == d - Weekday(d)
    ensures Weekday(GetMonday(d)) == 0 && d - 6 <= GetMonday(d) <= d
    ensures forall e :: GetMonday(d) <= e <= GetMonday(d) + 6 ==> GetMonday(e) == GetMonday(d)
  {
    var mon := GetMonday(d);
    assert Weekday(mon) == 0;
    forall e | mon <= e <= mon + 6
      ensures GetMonday(e) == mon
    {
      SameMonday(mon, e);
    }
  }

  /** Every day of the week starting on Monday `mon` has `mon` as its
      Monday. */
  lemma SameMonday(mon: Day, e: Day)
    requires Weekday(mon) == 0 && mon <= e <= mon + 6
    ensures GetMonday(e) == mon
  {
    WeekdayAdd(mon, e - mon);
  }

  /** Applying `getMonday` twice is applying it once. */
  lemma GetMondayIdempotent(d: Day)
    ensures GetMonday(GetMonday(d)) == GetMonday(d)
  {
    GetMondaySpec(d);
  }

  /** `getWeekDates`: the Monday of the given date's week and the four
      days after it. They are exactly the weekdays of that Monday-to-Sunday
      week. */
  method GetWeekDates(start: Day) returns (dates: seq<Day>)
    ensures dates == WeekdaysIn(GetMonday(start), GetMonday(start) + 6)
  {
    var monday := GetMonday(start);
    dates := [];
    for i := 0 to 5
      invariant |dates| == i && forall k :: 0 <= k < i ==> dates[k] == monday + k
    {
      dates := dates + [monday + i];
    }
    GetMondaySpec(start);
    MondayWeek(monday);
  }

  /** The weekdays of a Monday-to-Sunday week are its first five days. */
  lemma MondayWeek(monday: Day)
    requires Weekday(monday) == 0
    ensures WeekdaysIn(monday, monday + 6) == [monday, monday + 1, monday + 2, monday + 3, monday + 4]
  {
    assert WeekdaysIn(monday, monday - 1) == [];
    var dates: seq<Day> := [];
    for i := 0 to 5
      invariant dates == WeekdaysIn(monday, monday + i - 1)
      invariant |dates| == i && forall k :: 0 <= k < i ==> dates[k] == monday + k
    {
      WeekdayAdd(monday, i);
      dates := dates + [monday + i];
    }
    WeekdayAdd(monday, 5);
    WeekdayAdd(monday, 6);
    assert WeekdaysIn(monday, monday + 6) == dates;
  }

  /** `isWeekend`: Sunday (0) or Saturday (6) in JavaScript's numbering. */
  predicate IsWeekend(d: Day)
  {
    JsDay(d) == 0 || JsDay(d) == 6
  }

  /** The frontend's weekend is exactly the backend's non-weekday. */
  lemma IsWeekendSpec(d: Day)
    ensures IsWeekend(d) <==> !IsWeekday(d)
  {
  }

  /** The week dates are the Monday and the four days after it, none of
      them a weekend day; the given date is among them exactly when it is
      not a weekend day. */
  lemma WeekDatesShape(start: Day)
    ensures var mon := GetMonday(start);
      var dates := WeekdaysIn(mon, mon + 6);
      && |dates| == 5
      && (forall i :: 0 <= i < 5 ==> dates[i] == mon + i && !IsWeekend(dates[i]))
      && (start in dates <==> !IsWeekend(start))
  {
    var mon := GetMonday(start);
    GetMondaySpec(start);
    MondayWeek(mon);
    var dates := WeekdaysIn(mon, mon + 6);
    forall i | 0 <= i < 5
      ensures !IsWeekend(dates[i])
    {
      WeekdayAdd(mon, i);
    }
    WeekdaysInMember(mon, mon + 6, start);
  }
}
