/**
 * The popup's countdown (extension/popup.js): reading the page's DD:HH:MM:SS text as an
 * offset in milliseconds, and the once-a-second display of the time left with its
 * under-ten-minutes highlight. The clock is a parameter: `diff` is the target time minus now.
 */
module Countdown {
  import opened Wrappers
  import opened Text
  import opened Js
  import Background

  const MsPerSecond: int := 1000
  const MsPerMinute: int := 60000       // 60 · 1000
  const MsPerHour: int := 3600000       // 60 · 60 · 1000
  const MsPerDay: int := 86400000       // 24 · 60 · 60 · 1000

  /** parseCountdown: null for a missing or empty text or one that does not split into four
      parts; otherwise the offset of ((d·24 + h)·60 + m)·60 + s seconds, in milliseconds,
      each part read as the number its digits form. */
  function ParseCountdown(text: Option<string>): (offset: Option<int>)
    ensures text.None? || text.value == "" ==> offset.None?
    ensures text.Some? && text.value != "" ==> (offset.Some? <==> Count(text.value, ':') == 3)
    ensures offset.Some? ==>
              var p := Split(text.value, ':');
              offset.value == (((DecimalValue(Digits(p[0])) * 24 + DecimalValue(Digits(p[1]))) * 60
                                + DecimalValue(Digits(p[2]))) * 60 + DecimalValue(Digits(p[3]))) * 1000
    ensures offset.Some? ==> offset.value >= 0
  {
    if text.None? || text.value == "" then None
    else
      var parts := Split(text.value, ':');
      if |parts| != 4 then None
      else
        var days, hours, minutes, seconds :=
          FieldValue(parts[0]), FieldValue(parts[1]), FieldValue(parts[2]), FieldValue(parts[3]);
        assert days * MsPerDay + hours * MsPerHour + minutes * MsPerMinute + seconds * MsPerSecond
               == (((days * 24 + hours) * 60 + minutes) * 60 + seconds) * 1000;
        Some(days * MsPerDay + hours * MsPerHour + minutes * MsPerMinute + seconds * MsPerSecond)
  }

  // ---------------------------------------------------------------------------------------
  // The display

  datatype Clock = Clock(days: int, hours: int, minutes: int, seconds: int)

  /** The four fields of a positive difference, as the tick computes them with Math.floor. */
  function Decompose(diff: int): (c: Clock)
    requires diff > 0
    ensures 0 <= c.days && 0 <= c.hours < 24 && 0 <= c.minutes < 60 && 0 <= c.seconds < 60
    ensures c.days * MsPerDay + c.hours * MsPerHour + c.minutes * MsPerMinute + c.seconds * MsPerSecond
            == diff - diff % MsPerSecond
  {
    var days := diff / 86400000;
    var hours := (diff % 86400000) / 3600000;
    var minutes := (diff % 3600000) / 60000;
    var seconds := (diff % 60000) / 1000;
    var r1, r2, r3 := diff % 86400000, diff % 3600000, diff % 60000;
    ModOfSum(diff, days * 24 + hours, r1 % 3600000, 3600000);
    ModOfSum(diff, (days * 24 + hours) * 60 + minutes, r2 % 60000, 60000);
    ModOfSum(diff, ((days * 24 + hours) * 60 + minutes) * 60 + seconds, r3 % 1000, 1000);
    Clock(days, hours, minutes, seconds)
  }

  /** A positive multiple of m is at least m. */
  lemma {:induction false} MulAtLeast(d: int, m: int)
    requires d >= 1 && m >= 0
    ensures d * m >= m
    decreases d
  {
    if d > 1 {
      MulAtLeast(d - 1, m);
      assert d * m == (d - 1) * m + m;
    }
  }

  /** A remainder is unique: q·m + r with 0 <= r < m leaves r modulo m. */
  lemma ModOfSum(x: int, q: int, r: int, m: int)
    requires m > 0 && 0 <= r < m && x == q * m + r
    ensures x % m == r
  {
    var k, t := x / m, x % m;
    var d := k - q;
    assert d * m == r - t;
    assert (-d) * m == t - r;
    if d >= 1 {
      MulAtLeast(d, m);
      assert false;
    }
    if d <= -1 {
      MulAtLeast(-d, m);
      assert false;
    }
  }

  /** String(n).padStart(2, '0') */
  function Pad2(s: string): (r: string)
    ensures |r| >= 2 && |r| == if |s| >= 2 then |s| else 2
    ensures r[|r| - |s|..] == s && forall i :: 0 <= i < |r| - |s| ==> r[i] == '0'
  {
    if |s| >= 2 then s else if |s| == 1 then "0" + s else "00"
  }

  predicate Natural(c: Clock) {
    c.days >= 0 && c.hours >= 0 && c.minutes >= 0 && c.seconds >= 0
  }

  /** The four padded fields of a clock. */
  function Fields(c: Clock): seq<string>
    requires Natural(c)
  {
    [Pad2(NatToString(c.days)), Pad2(NatToString(c.hours)), Pad2(NatToString(c.minutes)),
     Pad2(NatToString(c.seconds))]
  }

  /** The four padded fields joined by ':' split back into parts reading as the fields. */
  lemma SplitFields(c: Clock)
    requires Natural(c)
    ensures var p := Split(Join(Fields(c), ':'), ':');
            |p| == 4 && FieldValue(p[0]) == c.days && FieldValue(p[1]) == c.hours
            && FieldValue(p[2]) == c.minutes && FieldValue(p[3]) == c.seconds
    ensures Join(Fields(c), ':') != ""
  {
    var f := Fields(c);
    PaddedField(c.days);
    PaddedField(c.hours);
    PaddedField(c.minutes);
    PaddedField(c.seconds);
    assert ':' !in f[0] && ':' !in f[1] && ':' !in f[2] && ':' !in f[3];
    assert forall k :: 0 <= k < |f| ==> ':' !in f[k] by {
      forall k | 0 <= k < |f| ensures ':' !in f[k] {
        assert k == 0 || k == 1 || k == 2 || k == 3;
      }
    }
    SplitJoin(f, ':');
    var j := Join(f, ':');
    assert j == f[0] + [':'] + Join(f[1..], ':');
    assert |j| >= |f[0]| >= 2;
  }

  /** The display text of a clock: the four padded fields joined by ':'. Splitting it on ':'
      gives four parts that read back as the clock's fields. */
  function Format(c: Clock): (t: string)
    requires Natural(c)
    ensures t != ""
    ensures var p := Split(t, ':');
            |p| == 4 && FieldValue(p[0]) == c.days && FieldValue(p[1]) == c.hours
            && FieldValue(p[2]) == c.minutes && FieldValue(p[3]) == c.seconds
  {
    SplitFields(c);
    Join(Fields(c), ':')
  }

  /** What one tick of the countdown shows. */
  datatype Tick = Expired | Running(text: string, warning: bool)

  /** A tick: 00:00:00:00 once the target is reached, else the clock, highlighted when no day
      or hour is left and fewer than ten minutes are. */
  function CountdownTick(diff: int): (t: Tick)
    ensures diff <= 0 <==> t.Expired?
    ensures t.Running? ==> (t.warning <==> diff < 10 * MsPerMinute)
  {
    if diff <= 0 then Expired
    else
      var c := Decompose(diff);
      WarningWindow(diff);
      Running(Format(c), c.days == 0 && c.hours == 0 && c.minutes < 10)
  }

  /** The text the countdown element holds after a tick: the zero clock once expired, else
      four parts reading back as the days, hours, minutes and seconds left. */
  function Display(diff: int): (t: string)
    ensures t != ""
    ensures diff <= 0 ==> t == "00:00:00:00"
    ensures diff > 0 ==> t == Format(Decompose(diff))
  {
    match CountdownTick(diff)
    case Expired => "00:00:00:00"
    case Running(text, _) => text
  }

  /** The highlight condition on the fields is the same as fewer than ten minutes left. */
  lemma WarningWindow(diff: int)
    requires diff > 0
    ensures var c := Decompose(diff);
            (c.days == 0 && c.hours == 0 && c.minutes < 10) <==> diff < 10 * MsPerMinute
  {
    var c := Decompose(diff);
  }

  // ---------------------------------------------------------------------------------------
  // Round trip

  /** The digits of a padded number read back as the number. */
  lemma PaddedField(n: nat)
    ensures var p := Pad2(NatToString(n));
            AllDigits(p) && ':' !in p && FieldValue(p) == n
  {
    var s := NatToString(n);
    var p := Pad2(s);
    if |s| == 1 {
      LeadingZero(s);
      assert p == "0" + s;
    }
    assert AllDigits(p);
    DigitsOfDigits(p);
  }

  /** A text of four parts parses to the weighted sum of their values. */
  lemma ParseFour(t: string)
    requires t != "" && |Split(t, ':')| == 4
    ensures ParseCountdown(Some(t)).Some?
    ensures ParseCountdown(Some(t)).value
            == FieldValue(Split(t, ':')[0]) * MsPerDay + FieldValue(Split(t, ':')[1]) * MsPerHour
               + FieldValue(Split(t, ':')[2]) * MsPerMinute + FieldValue(Split(t, ':')[3]) * MsPerSecond
  {
  }

  /** A text whose four parts read as a clock's fields parses to the clock's weighted sum. */
  lemma ParseFields(t: string, c: Clock, ms: int)
    requires t != "" && |Split(t, ':')| == 4
    requires FieldValue(Split(t, ':')[0]) == c.days && FieldValue(Split(t, ':')[1]) == c.hours
    requires FieldValue(Split(t, ':')[2]) == c.minutes && FieldValue(Split(t, ':')[3]) == c.seconds
    requires ms == c.days * MsPerDay + c.hours * MsPerHour + c.minutes * MsPerMinute + c.seconds * MsPerSecond
    ensures ParseCountdown(Some(t)) == Some(ms)
  {
    ParseFour(t);
    var v := ParseCountdown(Some(t));
    assert v.Some?;
    assert v.value == ms;
  }

  /** Parsing a formatted clock gives its weighted sum in milliseconds. */
  lemma ParseFormat(c: Clock, ms: int)
    requires Natural(c)
    requires ms == c.days * MsPerDay + c.hours * MsPerHour + c.minutes * MsPerMinute + c.seconds * MsPerSecond
    ensures ParseCountdown(Some(Format(c))) == Some(ms)
  {
    ParseFields(Format(c), c, ms);
  }

  /** The text shown after expiry is the formatted zero clock. */
  lemma ZeroFormat()
    ensures Natural(Clock(0, 0, 0, 0)) && Format(Clock(0, 0, 0, 0)) == "00:00:00:00"
  {
    ZeroFields();
  }

  lemma ZeroFields()
    ensures Join(Fields(Clock(0, 0, 0, 0)), ':') == "00:00:00:00"
  {
    assert NatToString(0) == "0";
    assert Pad2("0") == "00";
    var f := Fields(Clock(0, 0, 0, 0));
    assert f == ["00", "00", "00", "00"];
    assert Join(f[3..], ':') == "00";
    assert Join(f[2..], ':') == "00:00";
    assert Join(f[1..], ':') == "00:00:00";
  }

  /** The expired display reads back as no time left. */
  lemma ZeroParse()
    ensures ParseCountdown(Some("00:00:00:00")) == Some(0)
  {
    ZeroFormat();
    ParseFormat(Clock(0, 0, 0, 0), 0);
  }

  /** Reading back what the countdown shows gives the time left rounded down to the second,
      for any number of days (padStart only ever adds zeros), and 0 after expiry. */
  lemma DisplayRoundTrip(diff: int)
    ensures ParseCountdown(Some(Display(diff))) == Some(if diff <= 0 then 0 else diff - diff % MsPerSecond)
  {
    if diff <= 0 {
      ZeroParse();
    } else {
      RunningParse(diff);
    }
  }

  /** A running display reads back as the time left rounded down to the second. */
  lemma RunningParse(diff: int)
    requires diff > 0
    ensures ParseCountdown(Some(Display(diff))) == Some(diff - diff % MsPerSecond)
  {
    var c := Decompose(diff);
    var ms := diff - diff % MsPerSecond;
    assert Natural(c);
    assert ms == c.days * MsPerDay + c.hours * MsPerHour + c.minutes * MsPerMinute + c.seconds * MsPerSecond;
    ParseFormat(c, ms);
    var t := Display(diff);
    assert t == Format(c);
    assert ParseCountdown(Some(t)) == Some(ms);
  }

  /** A text whose first three parts read as a clock's days, hours and minutes gives the
      service worker the clock's whole minutes. */
  lemma MinutesOfFields(t: string, c: Clock, m: int)
    requires |Split(t, ':')| == 4
    requires FieldValue(Split(t, ':')[0]) == c.days && FieldValue(Split(t, ':')[1]) == c.hours
    requires FieldValue(Split(t, ':')[2]) == c.minutes
    requires m == c.days * 1440 + c.hours * 60 + c.minutes
    ensures Background.EndingSoonMinutes(t) == Some(m)
  {
    var r := Background.EndingSoonMinutes(t);
    assert r.Some?;
    assert r.value == m;
  }

  /** The whole minutes of a positive difference are those of its clock. */
  lemma ClockMinutes(diff: int, c: Clock)
    requires diff > 0 && c == Decompose(diff)
    ensures diff / MsPerMinute == c.days * 1440 + c.hours * 60 + c.minutes
  {
    var m := c.days * 1440 + c.hours * 60 + c.minutes;
    assert diff == m * MsPerMinute + (c.seconds * MsPerSecond + diff % MsPerSecond);
    assert 0 <= c.seconds * MsPerSecond + diff % MsPerSecond < MsPerMinute;
  }

  /** The service worker reads the same text as days·1440 + hours·60 + minutes: the whole
      minutes left. */
  lemma DisplayMinutes(diff: int)
    requires diff > 0
    ensures Background.EndingSoonMinutes(Display(diff)) == Some(diff / MsPerMinute)
  {
    var c := Decompose(diff);
    assert Display(diff) == Format(c);
    ClockMinutes(diff, c);
    MinutesOfFields(Format(c), c, diff / MsPerMinute);
  }

  /** The popup highlights below ten minutes, the service worker alerts from one to ten whole
      minutes: on a displayed countdown the alert window is one to eleven minutes left. */
  lemma EndingWindowOfDisplay(diff: int)
    requires diff > 0
    ensures Background.InEndingWindow(Display(diff)) <==> MsPerMinute <= diff < 11 * MsPerMinute
  {
    DisplayMinutes(diff);
  }
}
