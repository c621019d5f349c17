/**
 * The two time-string conversions of the solved cog
 * (tle/cogs/solved.py): convert_to_unix_time reads an "HHMM" wall-clock time
 * on a given date at the fixed offset UTC+6 and gives Unix seconds;
 * convert_to_12h_format rewrites "HHMM" as "hh:mm AM" / "hh:mm PM".
 *
 * Both parse with datetime.strptime and the directives %H%M, which CPython
 * turns into the regular expression (2[0-3]|[0-1]\d|\d)([0-5]\d|\d), tries
 * with re.match (first successful alternative, backtracking into the hour
 * only when no minute follows) and then rejects any characters left over.
 * That makes the parser lenient: "123" reads as 12:03 and "12" as 01:02.
 */
module ClockTime {
  import opened Wrappers
  import opened Text
  import opened Calendar

  datatype Clock = Clock(hour: nat, minute: nat)

  predicate ValidClock(c: Clock) { c.hour <= 23 && c.minute <= 59 }

  /** The ValueError of strptime, and the OverflowError of astimezone before year 1. */
  datatype TimeError = InvalidFormat | OutOfRange

  /** UTC+6, the offset the bot reads every time argument in. */
  const UtcOffsetSeconds: int := 6 * 3600

  /** datetime.min as Unix seconds: 0001-01-01 00:00 UTC. */
  const MinInstant: int := -62135596800

  /** A matched alternative of a regex group: its numeric value and how many characters it took. */
  datatype Token = Token(value: nat, width: nat)

  /** The alternatives of %H, 2[0-3]|[0-1]\d|\d, that match at the start of s, in the order they are tried. */
  function HourAlternatives(s: string): (alts: seq<Token>)
    ensures forall i :: 0 <= i < |alts| ==> 1 <= alts[i].width <= |s| && alts[i].value <= 23
  {
    (if |s| >= 2 && s[0] == '2' && '0' <= s[1] <= '3' then [Token(20 + DigitValue(s[1]), 2)] else [])
    + (if |s| >= 2 && (s[0] == '0' || s[0] == '1') && IsDigit(s[1])
       then [Token(10 * DigitValue(s[0]) + DigitValue(s[1]), 2)] else [])
    + (if |s| >= 1 && IsDigit(s[0]) then [Token(DigitValue(s[0]), 1)] else [])
  }

  /**
   * %M, [0-5]\d|\d, at the start of s. Nothing follows %M in the pattern, so
   * the first alternative that matches is the one kept.
   */
  function MinuteMatch(s: string): (r: Option<Token>)
    ensures r.Some? ==> 1 <= r.value.width <= |s| && r.value.value <= 59
  {
    if |s| >= 2 && '0' <= s[0] <= '5' && IsDigit(s[1]) then Some(Token(10 * DigitValue(s[0]) + DigitValue(s[1]), 2))
    else if |s| >= 1 && IsDigit(s[0]) then Some(Token(DigitValue(s[0]), 1))
    else None
  }

  /** re.match of %H%M: the first hour alternative after which a minute matches, and where the match ends. */
  function MatchHourMinute(s: string, alts: seq<Token>): (r: Option<(Clock, nat)>)
    requires forall i :: 0 <= i < |alts| ==> alts[i].width <= |s| && alts[i].value <= 23
    ensures r.Some? ==> ValidClock(r.value.0) && r.value.1 <= |s|
  {
    if alts == [] then None
    else match MinuteMatch(s[alts[0].width..])
      case Some(m) => Some((Clock(alts[0].value, m.value), alts[0].width + m.width))
      case None => MatchHourMinute(s, alts[1..])
  }

  /** datetime.strptime(s, "%H%M"): the match must end at the end of s. */
  function ParseHourMinute(s: string): (r: Option<Clock>)
    ensures r.Some? ==> ValidClock(r.value)
  {
    match MatchHourMinute(s, HourAlternatives(s))
    case Some((c, end)) => if end == |s| then Some(c) else None
    case None => None
  }

  /** A clock written the way the bot's users type it: four digits, HHMM. */
  function FormatHHMM(c: Clock): (s: string)
    requires ValidClock(c)
    ensures |s| == 4 && AllDigits(s)
  {
    Pad2(c.hour) + Pad2(c.minute)
  }

  /**
   * On four digits the parser is strict: it accepts exactly the strings whose
   * first pair is an hour up to 23 and whose second pair is a minute up to 59.
   */
  lemma ParseFourDigits(s: string)
    requires |s| == 4 && AllDigits(s)
    ensures var hh := 10 * DigitValue(s[0]) + DigitValue(s[1]);
            var mm := 10 * DigitValue(s[2]) + DigitValue(s[3]);
            ParseHourMinute(s) == if hh <= 23 && mm <= 59 then Some(Clock(hh, mm)) else None
  {
    var alts := HourAlternatives(s);
    if alts != [] && alts[0].width == 2 {
      assert s[2..][0] == s[2] && s[2..][1] == s[3];
    } else if alts != [] {
      assert s[1..][0] == s[1] && s[1..][1] == s[2];
    }
  }

  /** Writing a clock as HHMM and parsing it back gives the same clock. */
  lemma FormatHHMMRoundTrip(c: Clock)
    requires ValidClock(c)
    ensures ParseHourMinute(FormatHHMM(c)) == Some(c)
  {
    ParseFourDigits(FormatHHMM(c));
  }

  /** The leniency of strptime on short input, and two rejections. */
  lemma ParseHourMinuteShortInput()
    ensures ParseHourMinute("123") == Some(Clock(12, 3))
    ensures ParseHourMinute("12") == Some(Clock(1, 2))
    ensures ParseHourMinute("930") == Some(Clock(9, 30))
    ensures ParseHourMinute("2") == None
    ensures ParseHourMinute("12345") == None
  {
    assert "123"[2..] == "3";
    assert "12"[2..] == "" && "12"[1..] == "2";
    assert "930"[1..] == "30";
    assert "12345"[2..] == "345";
  }

  /** The hour as %I writes it: 12 for midnight and noon, otherwise the hour modulo 12. */
  function Hour12(h: nat): (r: nat)
    requires h <= 23
    ensures 1 <= r <= 12
    ensures r % 12 == h % 12
  {
    if h % 12 == 0 then 12 else h % 12
  }

  /** strftime("%I:%M %p") in the C locale. */
  function Format12(c: Clock): (s: string)
    requires ValidClock(c)
    ensures |s| == 8 && s[2] == ':' && s[5] == ' ' && s[7] == 'M'
  {
    Pad2(Hour12(c.hour)) + ":" + Pad2(c.minute) + " " + (if c.hour < 12 then "AM" else "PM")
  }

  /** convert_to_12h_format: parse with %H%M (ValueError on failure), print with %I:%M %p. */
  function ConvertTo12hFormat(timeStr: string): (r: Result<string, TimeError>)
    ensures r.Ok? <==> ParseHourMinute(timeStr).Some?
    ensures r.Err? ==> r.error == InvalidFormat
  {
    match ParseHourMinute(timeStr)
    case Some(c) => Ok(Format12(c))
    case None => Err(InvalidFormat)
  }

  /** Reads "hh:mm AM" or "hh:mm PM" back into a 24-hour clock. */
  function Parse12(s: string): Option<Clock>
  {
    if |s| == 8 && IsDigit(s[0]) && IsDigit(s[1]) && s[2] == ':' && IsDigit(s[3]) && IsDigit(s[4])
       && s[5] == ' ' && (s[6] == 'A' || s[6] == 'P') && s[7] == 'M'
    then
      var hh := 10 * DigitValue(s[0]) + DigitValue(s[1]);
      var mm := 10 * DigitValue(s[3]) + DigitValue(s[4]);
      if 1 <= hh <= 12 && mm <= 59 then Some(Clock(hh % 12 + (if s[6] == 'P' then 12 else 0), mm)) else None
    else None
  }

  /** The 12-hour rendering loses nothing: it reads back as the clock it came from. */
  lemma Format12RoundTrip(c: Clock)
    requires ValidClock(c)
    ensures Parse12(Format12(c)) == Some(c)
  {
    var s := Format12(c);
    assert s[..2] == Pad2(Hour12(c.hour)) && s[3..5] == Pad2(c.minute);
    assert s[0] == s[..2][0] && s[1] == s[..2][1] && s[3] == s[3..5][0] && s[4] == s[3..5][1];
  }

  /**
   * For four-digit input, hour 0 prints as 12 AM, hours 1 to 11 as themselves
   * AM, hour 12 as 12 PM and hours 13 to 23 as the hour less 12, PM; the
   * minutes are kept; anything outside 00-23 / 00-59 is a ValueError.
   */
  lemma ConvertTo12hFourDigits(s: string)
    requires |s| == 4 && AllDigits(s)
    ensures var hh := 10 * DigitValue(s[0]) + DigitValue(s[1]);
            var mm := 10 * DigitValue(s[2]) + DigitValue(s[3]);
            var r := ConvertTo12hFormat(s);
            (r.Ok? <==> hh <= 23 && mm <= 59)
            && (r.Ok? ==>
                  10 * DigitValue(r.value[0]) + DigitValue(r.value[1])
                    == (if hh == 0 then 12 else if hh <= 12 then hh else hh - 12)
                  && 10 * DigitValue(r.value[3]) + DigitValue(r.value[4]) == mm
                  && r.value[2..] == [':'] + s[2..] + [' '] + (if hh < 12 then "AM" else "PM"))
  {
    ParseFourDigits(s);
    var hh := 10 * DigitValue(s[0]) + DigitValue(s[1]);
    var mm := 10 * DigitValue(s[2]) + DigitValue(s[3]);
    if hh <= 23 && mm <= 59 {
      Format12OfDigits(s);
      assert ConvertTo12hFormat(s) == Ok(Format12(Clock(hh, mm)));
    }
  }

  /** The 12-hour rendering of the clock four digits spell. */
  lemma Format12OfDigits(s: string)
    requires |s| == 4 && AllDigits(s)
    requires 10 * DigitValue(s[0]) + DigitValue(s[1]) <= 23 && 10 * DigitValue(s[2]) + DigitValue(s[3]) <= 59
    ensures var hh := 10 * DigitValue(s[0]) + DigitValue(s[1]);
            var mm := 10 * DigitValue(s[2]) + DigitValue(s[3]);
            var r := Format12(Clock(hh, mm));
            10 * DigitValue(r[0]) + DigitValue(r[1]) == (if hh == 0 then 12 else if hh <= 12 then hh else hh - 12)
            && 10 * DigitValue(r[3]) + DigitValue(r[4]) == mm
            && r[2..] == [':'] + s[2..] + [' '] + (if hh < 12 then "AM" else "PM")
  {
    var hh := 10 * DigitValue(s[0]) + DigitValue(s[1]);
    Format12Layout(Clock(hh, 10 * DigitValue(s[2]) + DigitValue(s[3])));
    Hour12Cases(hh);
    assert s[2..][0] == s[2] && s[2..][1] == s[3];
    Pad2OfDigits(s[2..]);
  }

  /** %I as a case split on the 24-hour clock. */
  lemma Hour12Cases(h: nat)
    requires h <= 23
    ensures Hour12(h) == if h == 0 then 12 else if h <= 12 then h else h - 12
  {
  }

  /** Where the hour, the minutes and the half of the day sit in the 12-hour rendering. */
  lemma Format12Layout(c: Clock)
    requires ValidClock(c)
    ensures var r := Format12(c);
            10 * DigitValue(r[0]) + DigitValue(r[1]) == Hour12(c.hour)
            && 10 * DigitValue(r[3]) + DigitValue(r[4]) == c.minute
            && r[2..] == [':'] + Pad2(c.minute) + [' '] + (if c.hour < 12 then "AM" else "PM")
  {
    var r := Format12(c);
    var p := Pad2(Hour12(c.hour));
    var q := Pad2(c.minute);
    assert r[0] == p[0] && r[1] == p[1] && r[3] == q[0] && r[4] == q[1];
  }

  /** Midnight in the 12-hour format. */
  lemma ConvertTo12hMidnight()
    ensures ConvertTo12hFormat("0000") == Ok("12:00 AM")
  {
    ParseFourDigits("0000");
    assert ParseHourMinute("0000") == Some(Clock(0, 0));
    assert Pad2(12) == "12" && Pad2(0) == "00";
    assert Format12(Clock(0, 0)) == "12:00 AM";
  }

  /** An afternoon time in the 12-hour format. */
  lemma ConvertTo12hAfternoon()
    ensures ConvertTo12hFormat("1330") == Ok("01:30 PM")
  {
    ParseFourDigits("1330");
    assert ParseHourMinute("1330") == Some(Clock(13, 30));
    assert Pad2(1) == "01" && Pad2(30) == "30";
    assert Format12(Clock(13, 30)) == "01:30 PM";
  }

  /**
   * convert_to_unix_time(time_str) with today's date. The date and the time
   * are joined with a space that strptime reads as \s+, so white space before
   * the time is skipped. The wall-clock instant at UTC+6 is turned into UTC;
   * one before 0001-01-01 00:00 UTC cannot be represented (OverflowError).
   */
  function ConvertToUnixTime(timeStr: string, today: Date): Result<int, TimeError>
  {
    LocalToUnix(today, ParseHourMinute(StripLeadingSpace(timeStr)))
  }

  /** The parsed wall-clock time on the given date at UTC+6, as Unix seconds. */
  function LocalToUnix(today: Date, parsed: Option<Clock>): (r: Result<int, TimeError>)
    requires parsed.Some? ==> ValidClock(parsed.value)
    ensures !ValidDate(today) || parsed.None? ==> r == Err(InvalidFormat)
    ensures r.Ok? ==> r.value >= MinInstant
                      && (r.value + UtcOffsetSeconds) / 86400 == DaysFromCivil(today)
                      && (r.value + UtcOffsetSeconds) % 86400 == parsed.value.hour * 3600 + parsed.value.minute * 60
  {
    if !ValidDate(today) then Err(InvalidFormat)
    else match parsed
      case None => Err(InvalidFormat)
      case Some(c) =>
        var t := DaysFromCivil(today) * 86400 + c.hour * 3600 + c.minute * 60 - UtcOffsetSeconds;
        DaySplit(DaysFromCivil(today), c.hour * 3600 + c.minute * 60);
        if t < MinInstant then Err(OutOfRange) else Ok(t)
  }

  lemma DaySplit(days: int, secs: int)
    requires 0 <= secs < 86400
    ensures (days * 86400 + secs) / 86400 == days && (days * 86400 + secs) % 86400 == secs
  {
  }

  lemma MinInstantIsYearOne()
    ensures MinInstant == DaysFromCivil(Date(1, 1, 1)) * 86400
  {
  }

  /**
   * The arithmetic the conversion amounts to, on the input the command
   * documents: days since 1970-01-01 times 86400, plus the wall-clock seconds,
   * less six hours; out-of-range hours and minutes are a ValueError.
   */
  lemma ConvertToUnixTimeFourDigits(timeStr: string, today: Date)
    requires |timeStr| == 4 && AllDigits(timeStr) && ValidDate(today)
    ensures var hh := 10 * DigitValue(timeStr[0]) + DigitValue(timeStr[1]);
            var mm := 10 * DigitValue(timeStr[2]) + DigitValue(timeStr[3]);
            var t := DaysFromCivil(today) * 86400 + hh * 3600 + mm * 60 - 21600;
            ConvertToUnixTime(timeStr, today)
              == if hh > 23 || mm > 59 then Err(InvalidFormat)
                 else if t < MinInstant then Err(OutOfRange)
                 else Ok(t)
  {
    assert StripLeadingSpace(timeStr) == timeStr;
    ParseFourDigits(timeStr);
    assert ConvertToUnixTime(timeStr, today) == LocalToUnix(today, ParseHourMinute(timeStr));
  }

  /** The same time string on the next day is exactly one day later. */
  lemma ConvertToUnixTimeNextDay(timeStr: string, today: Date)
    requires ConvertToUnixTime(timeStr, today).Ok? && NextDay(today).year <= 9999
    ensures ConvertToUnixTime(timeStr, NextDay(today)) == Ok(ConvertToUnixTime(timeStr, today).value + 86400)
  {
    var parsed := ParseHourMinute(StripLeadingSpace(timeStr));
    assert ConvertToUnixTime(timeStr, today) == LocalToUnix(today, parsed);
    assert ConvertToUnixTime(timeStr, NextDay(today)) == LocalToUnix(NextDay(today), parsed);
    LocalToUnixNextDay(today, parsed);
  }

  lemma LocalToUnixNextDay(today: Date, parsed: Option<Clock>)
    requires parsed.Some? ==> ValidClock(parsed.value)
    requires LocalToUnix(today, parsed).Ok? && NextDay(today).year <= 9999
    ensures LocalToUnix(NextDay(today), parsed) == Ok(LocalToUnix(today, parsed).value + 86400)
  {
    var next := NextDay(today);
    assert ValidDate(next);
    DaysFromCivilNext(today);
    var secs := parsed.value.hour * 3600 + parsed.value.minute * 60;
    var t := DaysFromCivil(today) * 86400 + secs - UtcOffsetSeconds;
    assert LocalToUnix(today, parsed) == Ok(t);
    assert DaysFromCivil(next) * 86400 + secs - UtcOffsetSeconds == t + 86400;
  }

  lemma {:induction false} StripLeadingSpaceAppend(ws: string, s: string)
    requires forall i :: 0 <= i < |ws| ==> IsSpace(ws[i])
    ensures StripLeadingSpace(ws + s) == StripLeadingSpace(s)
  {
    if ws == [] {
      assert ws + s == s;
    } else {
      assert (ws + s)[1..] == ws[1..] + s;
      StripLeadingSpaceAppend(ws[1..], s);
    }
  }

  /**
   * White space before the time is skipped by convert_to_unix_time, whose
   * date-and-time format joins the two with a space that strptime reads as \s+.
   */
  lemma LeadingSpaceSkipped(ws: string, timeStr: string, today: Date)
    requires forall i :: 0 <= i < |ws| ==> IsSpace(ws[i])
    ensures ConvertToUnixTime(ws + timeStr, today) == ConvertToUnixTime(timeStr, today)
  {
    StripLeadingSpaceAppend(ws, timeStr);
  }

  /** The bare %H%M format of convert_to_12h_format rejects the same white space. */
  lemma LeadingSpaceRejected(ws: string, timeStr: string)
    requires ws != [] && IsSpace(ws[0])
    ensures ConvertTo12hFormat(ws + timeStr) == Err(InvalidFormat)
  {
    assert HourAlternatives(ws + timeStr) == [] by {
      assert (ws + timeStr)[0] == ws[0];
    }
  }

  /** The default start argument reads as 00:00. */
  lemma DefaultStart()
    ensures StripLeadingSpace("0000") == "0000" && ParseHourMinute("0000") == Some(Clock(0, 0))
  {
    var s := "0000";
    assert s[0] == '0' && s[1] == '0' && s[2] == '0' && s[3] == '0';
    assert !IsSpace(s[0]);
    assert AllDigits(s);
    ParseFourDigits(s);
    assert DigitValue('0') == 0;
  }

  /** The default end argument reads as 23:59. */
  lemma DefaultEnd()
    ensures StripLeadingSpace("2359") == "2359" && ParseHourMinute("2359") == Some(Clock(23, 59))
  {
    var s := "2359";
    assert s[0] == '2' && s[1] == '3' && s[2] == '5' && s[3] == '9';
    assert !IsSpace(s[0]);
    assert AllDigits(s);
    ParseFourDigits(s);
    assert DigitValue('2') == 2 && DigitValue('3') == 3 && DigitValue('5') == 5 && DigitValue('9') == 9;
  }

  /**
   * With the command's default arguments "0000" and "2359" the window ends at
   * 23:59:00, so the last 59 seconds of the local day fall outside it. On
   * every valid date but the first one both ends are representable.
   */
  lemma DefaultWindow(today: Date)
    requires ValidDate(today) && today != Date(1, 1, 1)
    ensures var start := ConvertToUnixTime("0000", today);
            var end := ConvertToUnixTime("2359", today);
            start.Ok? && end.Ok?
            && start.value == DaysFromCivil(today) * 86400 - UtcOffsetSeconds
            && end.value == start.value + 86400 - 60
  {
    DefaultStart();
    DefaultEnd();
    DaysFromCivilAfterFirstDay(today);
    MinInstantIsYearOne();
    var days := DaysFromCivil(today);
    assert LocalToUnix(today, Some(Clock(0, 0))) == Ok(days * 86400 - UtcOffsetSeconds);
    assert LocalToUnix(today, Some(Clock(23, 59))) == Ok(days * 86400 + 23 * 3600 + 59 * 60 - UtcOffsetSeconds);
  }

  /**
   * On 0001-01-01 local midnight at UTC+6 lies six hours before the earliest
   * representable instant: the default start fails with the OverflowError.
   */
  lemma DefaultStartFirstDay()
    ensures ConvertToUnixTime("0000", Date(1, 1, 1)) == Err(OutOfRange)
  {
    DefaultStart();
    MinInstantIsYearOne();
    assert ValidDate(Date(1, 1, 1));
  }
}
