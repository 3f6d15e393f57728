/** The backend's time helpers (server.py lines 167-176 and 201-210):
    `time_to_minutes`, `minutes_to_time`, `is_weekend` and
    `format_hours_minutes`. */
module ServerTime {
  import opened Wrappers
  import opened Text
  import opened Calendar

  /** Python's `int(s)` on a string: surrounding whitespace is skipped, then
      an optional sign and at least one digit; anything else raises
      `ValueError`, modelled as `None`. */
  function ParseInt(s: string): Option<int>
  {
    ParseSigned(Trim(s))
  }

  /** `time_to_minutes`: `h, m = map(int, s.split(':'))` and then
      `h * 60 + m`. `None` is the `ValueError` raised when the string does not
      split into exactly two integers. */
  function TimeToMinutes(s: string): Option<int>
  {
    TimeOfFields(Split(s, ':'))
  }

  /** The unpacking `h, m = map(int, parts)`: exactly two fields, each an
      integer, combined as `h * 60 + m`. */
  function TimeOfFields(parts: seq<string>): Option<int>
  {
    if |parts| != 2 then None
    else
      var h, m := ParseInt(parts[0]), ParseInt(parts[1]);
      if h.Some? && m.Some? then Some(h.value * 60 + m.value) else None
  }

  /** `minutes_to_time`: Python's `//` and `%` by 60 (floor division, so the
      minutes field is in 0..59 even for a negative count), each padded to
      two digits. */
  function MinutesToTime(minutes: int): string
  {
    Pad2(minutes / 60) + ":" + Pad2(minutes % 60)
  }

  /** `format_hours_minutes`: written separately in the source, with the
      same arithmetic as `minutes_to_time`. */
  function FormatHoursMinutes(totalMinutes: int): string
  {
    var hours := totalMinutes / 60;
    var minutes := totalMinutes % 60;
    Pad2(hours) + ":" + Pad2(minutes)
  }

  /** The two formatters agree on every input. */
  lemma FormatIsMinutesToTime(m: int)
    ensures FormatHoursMinutes(m) == MinutesToTime(m)
  {
  }

  /** Two fields that parse to `h` and `m` give `h * 60 + m`. */
  lemma FieldsTime(hh: string, mm: string, h: int, m: int)
    requires ParseInt(hh) == Some(h) && ParseInt(mm) == Some(m)
    ensures TimeOfFields([hh, mm]) == Some(h * 60 + m)
  {
  }

  /** Two colon-free fields joined by a colon split back into those fields. */
  lemma SplitTwoFields(hh: string, mm: string)
    requires ':' !in hh && ':' !in mm
    ensures Split(hh + ":" + mm, ':') == [hh, mm]
  {
    SplitAt(hh, ':', mm);
    SplitWithout(mm, ':');
    assert hh + ":" + mm == hh + [':'] + mm;
  }

  /** A padded number has no colon and parses back to itself. */
  lemma Pad2Field(n: int)
    ensures ':' !in Pad2(n) && ParseInt(Pad2(n)) == Some(n)
  {
    Pad2Clean(n);
  }

  /** Parsing a formatted time gives back the minute count, for every
      integer, negative ones included. */
  lemma TimeRoundTrip(m: int)
    ensures TimeToMinutes(MinutesToTime(m)) == Some(m)
  {
    var h, r := m / 60, m % 60;
    assert h * 60 + r == m;
    assert MinutesToTime(m) == Pad2(h) + ":" + Pad2(r);
    PaddedFieldsParse(h, r);
  }

  /** Padded hours and minutes joined by a colon parse to `h * 60 + r`. */
  lemma PaddedFieldsParse(h: int, r: int)
    ensures TimeToMinutes(Pad2(h) + ":" + Pad2(r)) == Some(h * 60 + r)
  {
    var hh, mm := Pad2(h), Pad2(r);
    Pad2Field(h);
    Pad2Field(r);
    SplitTwoFields(hh, mm);
    FieldsTime(hh, mm, h, r);
  }

  /** The shape of a formatted non-negative duration: an hours field of at
      least two digits, a colon, and a two-digit minutes field below 60, the
      two fields together giving the count back. */
  lemma FormatShape(m: int)
    requires m >= 0
    ensures var s := FormatHoursMinutes(m);
      && |s| >= 5 && s[|s| - 3] == ':'
      && AllDigits(s[..|s| - 3]) && AllDigits(s[|s| - 2..])
      && DigitsValue(s[|s| - 2..]) < 60
      && DigitsValue(s[..|s| - 3]) * 60 + DigitsValue(s[|s| - 2..]) == m
  {
    var hh, mm := Pad2(m / 60), Pad2(m % 60);
    var s := FormatHoursMinutes(m);
    assert s == hh + ":" + mm;
    assert s[..|s| - 3] == hh;
    assert s[|s| - 2..] == mm;
  }

  /** `is_weekend`: `weekday() >= 5`, Saturday or Sunday. */
  predicate IsWeekend(d: Day)
  {
    Weekday(d) >= 5
  }

  /** A weekend day is exactly a day the schedule and the report skip,
      and the test repeats every seven days. */
  lemma WeekendSpec(d: Day)
    ensures IsWeekend(d) <==> !IsWeekday(d)
    ensures IsWeekend(d) <==> IsWeekend(d + 7)
  {
    WeekdayAdd(d, 7);
  }
}
