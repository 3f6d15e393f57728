/** Where the browser repeats a backend rule, how far the two agree. The
    browser's parser is the more lenient one: whatever the backend accepts,
    the browser reads the same way, but not the other way round. */
module Agreement {
  import opened Wrappers
  import opened Text
  import opened Calendar
  import opened Records
  import ServerTime
  import ClientUtils
  import Hours
  import WeekSchedule
  import AssignmentEditor

  /** A field Python's `int()` accepts, JavaScript's `Number()` reads as
      the same integer. */
  lemma NumberAgrees(s: string)
    requires ServerTime.ParseInt(s).Some?
    ensures ClientUtils.NumberOf(s) == ClientUtils.Num(ServerTime.ParseInt(s).value)
  {
  }

  /** A time the backend parses, the browser parses to the same minutes. */
  lemma TimeAgrees(s: string)
    requires ServerTime.TimeToMinutes(s).Some?
    ensures ClientUtils.TimeToMinutes(s) == ClientUtils.Num(ServerTime.TimeToMinutes(s).value)
  {
    if s != [] {
      var parts := Split(s, ':');
      NumberAgrees(parts[0]);
      NumberAgrees(parts[1]);
    }
  }

  /** The converse fails: the empty time is 0 minutes in the browser and an
      error in the backend. */
  lemma EmptyTimeDiffers()
    ensures ServerTime.TimeToMinutes("") == None
    ensures ClientUtils.TimeToMinutes("") == ClientUtils.Num(0)
  {
    assert Split("", ':') == [""];
    assert Trim("") == "";
  }

  /** One block the backend can time, the browser times the same. */
  lemma BlockAgrees(b: Block)
    requires Hours.BlockMinutes(b).Some?
    ensures AssignmentEditor.JsBlockMinutes(b) == ClientUtils.Num(Hours.BlockMinutes(b).value)
  {
    TimeAgrees(b.startTime);
    TimeAgrees(b.endTime);
  }

  /** The browser's `calculateShiftDuration` gives the backend's
      `calculate_shift_duration` whenever the backend gives a number. */
  lemma ShiftDurationAgrees(sh: Shift)
    requires Hours.ShiftMinutes(sh).Some?
    ensures AssignmentEditor.JsShiftTotal(sh.blocks) == ClientUtils.Num(Hours.ShiftMinutes(sh).value)
  {
    BlocksAgree(sh.blocks);
  }

  lemma {:induction false} BlocksAgree(blocks: seq<Block>)
    requires Hours.Total(blocks, Hours.BlockMinutes).Some?
    ensures AssignmentEditor.JsTotal(blocks, AssignmentEditor.JsBlockMinutes)
         == ClientUtils.Num(Hours.Total(blocks, Hours.BlockMinutes).value)
  {
    if blocks != [] {
      var front, last := blocks[..|blocks| - 1], blocks[|blocks| - 1];
      Hours.TotalLast(blocks, Hours.BlockMinutes);
      BlocksAgree(front);
      BlockAgrees(last);
    }
  }

  /** For a non-negative count both formatters print the same text. */
  lemma FormatAgrees(m: nat)
    ensures ClientUtils.MinutesToTime(ClientUtils.Num(m)) == ServerTime.MinutesToTime(m)
    ensures ClientUtils.FormatHoursMinutes(ClientUtils.Num(m)) == ServerTime.FormatHoursMinutes(m)
  {
  }

  /** For a negative count they part: Python's remainder is never negative,
      JavaScript's keeps the sign, so -30 minutes prints differently and
      only the backend's text reads back as -30. */
  lemma NegativeFormatDiffers()
    ensures ClientUtils.MinutesToTime(ClientUtils.Num(-30)) != ServerTime.MinutesToTime(-30)
    ensures ServerTime.TimeToMinutes(ServerTime.MinutesToTime(-30)) == Some(-30)
  {
    ServerTime.TimeRoundTrip(-30);
    assert ClientUtils.JsRem60(-30) == -30;
    ServerTime.PaddedFieldsParse(-1, -30);
  }

  /** Without a `week_start`, the backend's week dates are the browser's
      `getWeekDates` of the same day. */
  lemma WeekDatesAgree(today: Day)
    ensures WeekSchedule.WeekDatesOf(None, today) == WeekdaysIn(ClientUtils.GetMonday(today), ClientUtils.GetMonday(today) + 6)
  {
    ClientUtils.GetMondaySpec(today);
    ClientUtils.MondayWeek(ClientUtils.GetMonday(today));
  }

  /** Both weekend tests pick the same days. */
  lemma WeekendAgrees(d: Day)
    ensures ClientUtils.IsWeekend(d) <==> ServerTime.IsWeekend(d)
  {
  }
}
