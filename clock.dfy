/**
 * Wall-clock times in the 12-hour format '%I:%M %p' that the attendance
 * sheet uses ("09:00 AM"), parsed the way strptime does and held as
 * minutes since midnight (12 AM is 0, 12 PM is 720).
 */
module Clock {
  import opened Wrappers
  import opened Strings

  const MinutesPerDay := 1440

  /** The %I field: 1[0-2], 0[1-9] or [1-9]. */
  function HourField(f: string): (r: Option<nat>)
    ensures r.Some? ==> 1 <= r.value <= 12
  {
    if |f| == 1 && '1' <= f[0] <= '9' then Some(DigitValue(f[0]))
    else if |f| == 2 && f[0] == '1' && '0' <= f[1] <= '2' then Some(10 + DigitValue(f[1]))
    else if |f| == 2 && f[0] == '0' && '1' <= f[1] <= '9' then Some(DigitValue(f[1]))
    else None
  }

  /** The %M field: [0-5] followed by a digit, or a single digit. */
  function MinuteField(f: string): (r: Option<nat>)
    ensures r.Some? ==> r.value < 60
  {
    if |f| == 1 && IsDigit(f[0]) then Some(DigitValue(f[0]))
    else if |f| == 2 && '0' <= f[0] <= '5' && IsDigit(f[1]) then Some(10 * DigitValue(f[0]) + DigitValue(f[1]))
    else None
  }

  /** The %p field, matched without regard to case; true means PM. */
  function Meridiem(f: string): Option<bool>
  {
    if |f| == 2 && (f[1] == 'm' || f[1] == 'M') then
      if f[0] == 'a' || f[0] == 'A' then Some(false)
      else if f[0] == 'p' || f[0] == 'P' then Some(true)
      else None
    else None
  }

  /** strptime's conversion of a 12-hour clock: 12 AM is hour 0, 12 PM is hour 12. */
  function ToMinutes(hour: nat, minute: nat, pm: bool): (r: int)
    requires 1 <= hour <= 12 && minute < 60
    ensures 0 <= r < MinutesPerDay
    ensures r / 60 == (if pm then 12 else 0) + hour % 12 && r % 60 == minute
  {
    ((if pm then 12 else 0) + hour % 12) * 60 + minute
  }

  /**
   * pd.to_datetime(s, format='%I:%M %p', errors='coerce') as minutes since
   * midnight; None is the NaT that a failed parse is coerced to. The whole
   * string must match: the hour field ends at the first ':', the minute
   * field at the first whitespace, and after that whitespace only more
   * whitespace and the two letters of the meridiem may follow.
   */
  function ParseClock(s: string): (r: Option<int>)
    ensures r.Some? ==> 0 <= r.value < MinutesPerDay
  {
    var colon := IndexOf(s, ':');
    if colon.None? then None
    else
      var rest := s[colon.value + 1..];
      var space := IndexOfSpace(rest);
      if space.None? then None
      else
        var tail := rest[space.value..];
        if |tail| < 3 || !AllSpaces(tail[..|tail| - 2]) then None
        else Assemble(HourField(s[..colon.value]), MinuteField(rest[..space.value]), Meridiem(tail[|tail| - 2..]))
  }

  /** The time of day once all three fields have parsed. */
  function Assemble(hour: Option<nat>, minute: Option<nat>, pm: Option<bool>): Option<int>
    requires hour.Some? ==> 1 <= hour.value <= 12
    requires minute.Some? ==> minute.value < 60
  {
    if hour.Some? && minute.Some? && pm.Some? then Some(ToMinutes(hour.value, minute.value, pm.value))
    else None
  }

  function DigitChar(d: nat): (c: char)
    requires d < 10
    ensures IsDigit(c) && DigitValue(c) == d
  {
    ('0' as int + d) as char
  }

  /** Two-digit, zero-padded decimal. */
  function TwoDigits(n: nat): (s: string)
    requires n < 100
    ensures |s| == 2 && AllDigits(s)
  {
    [DigitChar(n / 10), DigitChar(n % 10)]
  }

  /** strftime('%I:%M %p') of a time of day: the canonical text of a clock value. */
  function FormatClock(m: int): (s: string)
    requires 0 <= m < MinutesPerDay
    ensures |s| == 8
  {
    var h := m / 60;
    var h12 := if h % 12 == 0 then 12 else h % 12;
    TwoDigits(h12) + ":" + TwoDigits(m % 60) + " " + (if h < 12 then "AM" else "PM")
  }

  /** A text laid out as two digits, ':', two digits, one space and two letters
      parses field by field. */
  lemma ParseLaidOut(hh: string, mm: string, ap: string)
    requires |hh| == 2 && AllDigits(hh) && |mm| == 2 && AllDigits(mm) && |ap| == 2
    ensures ParseClock(hh + ":" + mm + " " + ap) == Assemble(HourField(hh), MinuteField(mm), Meridiem(ap))
  {
    var s := hh + ":" + mm + " " + ap;
    assert s[..2] == hh;
    assert IndexOf(s, ':') == Some(2) by {
      assert s[2] == ':';
      assert ':' !in s[..2] by { assert IsDigit(hh[0]) && IsDigit(hh[1]); }
    }
    var rest := s[3..];
    assert rest == mm + " " + ap;
    assert IndexOfSpace(rest) == Some(2) by {
      assert rest[2] == ' ';
      assert IsDigit(rest[0]) && IsDigit(rest[1]);
    }
    assert rest[..2] == mm;
    var tail := rest[2..];
    assert tail == " " + ap;
    assert tail[..|tail| - 2] == " " && tail[|tail| - 2..] == ap;
  }

  lemma FormatSplit(m: int) returns (hh: string, mm: string, ap: string)
    requires 0 <= m < MinutesPerDay
    ensures FormatClock(m) == hh + ":" + mm + " " + ap
    ensures |hh| == 2 && AllDigits(hh) && |mm| == 2 && AllDigits(mm) && |ap| == 2
    ensures HourField(hh) == Some(if (m / 60) % 12 == 0 then 12 else (m / 60) % 12)
    ensures MinuteField(mm) == Some(m % 60)
    ensures Meridiem(ap) == Some(m / 60 >= 12)
  {
    var h := m / 60;
    var h12 := if h % 12 == 0 then 12 else h % 12;
    hh, mm, ap := TwoDigits(h12), TwoDigits(m % 60), if h < 12 then "AM" else "PM";
    assert DigitValue(hh[0]) == h12 / 10 && DigitValue(hh[1]) == h12 % 10;
    assert DigitValue(mm[0]) == (m % 60) / 10 && DigitValue(mm[1]) == (m % 60) % 10;
  }

  lemma TwelveHourClock(m: int)
    requires 0 <= m < MinutesPerDay
    ensures ToMinutes(if (m / 60) % 12 == 0 then 12 else (m / 60) % 12, m % 60, m / 60 >= 12) == m
  {
    var h := m / 60;
    var h12 := if h % 12 == 0 then 12 else h % 12;
    assert h12 % 12 == h % 12;
    assert (if h >= 12 then 12 else 0) + h % 12 == h;
  }

  /** Parsing undoes formatting: every time of day survives a round trip through its text. */
  lemma ParseFormatted(m: int)
    requires 0 <= m < MinutesPerDay
    ensures ParseClock(FormatClock(m)) == Some(m)
  {
    var hh, mm, ap := FormatSplit(m);
    ParseLaidOut(hh, mm, ap);
    var h := m / 60;
    var h12 := if h % 12 == 0 then 12 else h % 12;
    assert Assemble(HourField(hh), MinuteField(mm), Meridiem(ap)) == Some(ToMinutes(h12, m % 60, h >= 12));
    TwelveHourClock(m);
  }

  /** The scenario times: "09:00 AM" is minute 540, "05:30 PM" minute 1050 and
      "02:00 PM" minute 840, in both directions. */
  lemma ScenarioMorning()
    ensures FormatClock(540) == "09:00 AM" && ParseClock("09:00 AM") == Some(540)
  {
    var text := FormatClock(540);
    assert text == "09:00 AM";
    ParseFormatted(540);
    assert ParseClock(text) == Some(540);
  }

  lemma ScenarioEvening()
    ensures FormatClock(1050) == "05:30 PM" && ParseClock("05:30 PM") == Some(1050)
  {
    var text := FormatClock(1050);
    assert text == "05:30 PM";
    ParseFormatted(1050);
    assert ParseClock(text) == Some(1050);
  }

  lemma ScenarioAfternoon()
    ensures FormatClock(840) == "02:00 PM" && ParseClock("02:00 PM") == Some(840)
  {
    var text := FormatClock(840);
    assert text == "02:00 PM";
    ParseFormatted(840);
    assert ParseClock(text) == Some(840);
  }
}
