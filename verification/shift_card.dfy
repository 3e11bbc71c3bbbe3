/** The shift card: the length of a shift from its "HH:MM" start and end
    times, and the status badge. */
module ShiftCard {
  import opened Wrappers
  import opened Text
  import opened Duration

  /** `time.split(':').map(Number)` destructured into hours and minutes;
      None is NaN (a missing part or text that is not a digit run). */
  function ClockParts(time: string): (r: (Option<int>, Option<int>))
    ensures ':' !in time ==> r == (JsNumber(Some(time)), None)
  {
    var parts := Split(time, ':');
    assert ':' !in time ==> parts == [time] by {
      if ':' !in time { SplitNone(time, ':'); }
    }
    (JsNumber(Some(parts[0])), JsNumber(if |parts| >= 2 then Some(parts[1]) else None))
  }

  /** The hours are the text before the first colon and the minutes the text
      between it and the next one; whatever follows a second colon is ignored. */
  lemma ClockPartsOf(a: string, b: string, c: string)
    requires ':' !in a && ':' !in b
    ensures ClockParts(a + ":" + b) == (JsNumber(Some(a)), JsNumber(Some(b)))
    ensures ClockParts(a + ":" + b + ":" + c) == (JsNumber(Some(a)), JsNumber(Some(b)))
  {
    SplitAt(a, ':', b);
    SplitNone(b, ':');
    assert a + ":" + b == a + [':'] + b;
    SplitAt(a, ':', b + ":" + c);
    SplitAt(b, ':', c);
    assert a + ":" + b + ":" + c == a + [':'] + (b + [':'] + c);
  }

  /** Writing hours and minutes as "H:M" and reading them back gives them. */
  lemma ClockPartsRoundTrip(h: nat, m: nat)
    ensures ClockParts(ShowNat(h) + ":" + ShowNat(m)) == (Some(h), Some(m))
  {
    var hs, ms := ShowNat(h), ShowNat(m);
    assert forall k :: 0 <= k < |hs| ==> hs[k] != ':';
    assert forall k :: 0 <= k < |ms| ==> ms[k] != ':';
    ClockPartsOf(hs, ms, "");
    ParseShowNat(h);
    ParseShowNat(m);
  }

  /** `endInMinutes - startInMinutes`, None when either side is NaN. */
  function DurationMinutes(startTime: string, endTime: string): (r: Option<int>)
    ensures r.Some? <==> ClockParts(startTime).0.Some? && ClockParts(startTime).1.Some?
                         && ClockParts(endTime).0.Some? && ClockParts(endTime).1.Some?
  {
    var (sh, sm) := ClockParts(startTime);
    var (eh, em) := ClockParts(endTime);
    if sh.Some? && sm.Some? && eh.Some? && em.Some? then
      Some((eh.value * 60 + em.value) - (sh.value * 60 + sm.value))
    else None
  }

  /** For well-formed times the duration is the difference of the clock
      readings in minutes. */
  lemma DurationOfClockTimes(h1: nat, m1: nat, h2: nat, m2: nat)
    ensures DurationMinutes(ShowNat(h1) + ":" + ShowNat(m1), ShowNat(h2) + ":" + ShowNat(m2))
            == Some((h2 * 60 + m2) - (h1 * 60 + m1))
  {
    var s, e := ShowNat(h1) + ":" + ShowNat(m1), ShowNat(h2) + ":" + ShowNat(m2);
    ClockPartsRoundTrip(h1, m1);
    ClockPartsRoundTrip(h2, m2);
    DurationOfParts(s, e, h1, m1, h2, m2);
  }

  lemma DurationOfParts(s: string, e: string, h1: int, m1: int, h2: int, m2: int)
    requires ClockParts(s) == (Some(h1), Some(m1)) && ClockParts(e) == (Some(h2), Some(m2))
    ensures DurationMinutes(s, e) == Some((h2 * 60 + m2) - (h1 * 60 + m1))
  {
  }

  /** `getDuration`: "{h}h {m}m" when the JavaScript remainder is positive,
      "{h}h" otherwise, "NaNh" when a time does not parse. Hours are floored;
      minutes take the sign of the duration, so a shift ending before it
      starts prints only (negative) hours. */
  function DurationText(startTime: string, endTime: string): (r: string)
    ensures DurationMinutes(startTime, endTime).None? ==> r == "NaNh"
    ensures DurationMinutes(startTime, endTime).Some? ==>
              var d := DurationMinutes(startTime, endTime).value;
              && (d >= 0 && d % 60 == 0 ==> r == ShowNat(d / 60) + "h")
              && (d >= 0 && d % 60 != 0 ==> r == ShowNat(d / 60) + "h " + ShowNat(d % 60) + "m")
              && (d < 0 ==> r == ShowInt(d / 60) + "h")
  {
    match DurationMinutes(startTime, endTime)
    case None => "NaNh"
    case Some(d) =>
      var (hours, minutes) := HoursMinutes(d);
      if minutes > 0 then ShowInt(hours) + "h " + ShowInt(minutes) + "m"
      else ShowInt(hours) + "h"
  }

  /** A shift from 22:00 to 06:00 is shown as "-16h". */
  lemma OvernightShiftIsNegative()
    ensures DurationText(ShowNat(22) + ":" + ShowNat(0), ShowNat(6) + ":" + ShowNat(0)) == "-16h"
  {
    DurationOfClockTimes(22, 0, 6, 0);
    assert HoursMinutes(-960) == (-16, 0);
    assert ShowNat(16) == ShowNat(1) + [DigitChar(6)];
    assert ShowInt(-16) == "-16";
  }

  /** The value of a decimal digit. */
  function DigitValue(c: char): int { c as int - '0' as int }

  /** A zero-padded "HH:MM" with two digits on each side parses to its
      hours and minutes, a leading zero included. */
  lemma PaddedClockParts(t: string)
    requires |t| == 5 && t[2] == ':'
    requires IsDigit(t[0]) && IsDigit(t[1]) && IsDigit(t[3]) && IsDigit(t[4])
    ensures ClockParts(t) == (Some(DigitValue(t[0]) * 10 + DigitValue(t[1])), Some(DigitValue(t[3]) * 10 + DigitValue(t[4])))
  {
    var a, b := t[..2], t[3..];
    assert t == a + ":" + b;
    ClockPartsOf(a, b, "");
    TwoDigits(a);
    TwoDigits(b);
  }

  /** Two decimal digits read as a number, a leading zero included. */
  lemma TwoDigits(a: string)
    requires |a| == 2 && IsDigit(a[0]) && IsDigit(a[1])
    ensures JsNumber(Some(a)) == Some(DigitValue(a[0]) * 10 + DigitValue(a[1]))
  {
    assert a[..1] == [a[0]] && [a[0]][..0] == [];
    assert DigitsValue(a) == DigitsValue(a[..1]) * 10 + DigitValue(a[1]);
  }

  /** A shift from "09:00" to "17:30", zero-padded as the app stores times,
      is shown as "8h 30m". */
  lemma NineToHalfPastFive(start: string, end: string)
    requires start == "09:00" && end == "17:30"
    ensures DurationText(start, end) == "8h 30m"
  {
    PaddedClockParts(start);
    PaddedClockParts(end);
    DurationOfParts(start, end, 9, 0, 17, 30);
    EightAndAHalfHours(start, end);
  }

  /** 510 minutes are shown as "8h 30m". */
  lemma EightAndAHalfHours(start: string, end: string)
    requires DurationMinutes(start, end) == Some(510)
    ensures DurationText(start, end) == "8h 30m"
  {
    assert DurationText(start, end) == ShowNat(8) + "h " + ShowNat(30) + "m";
    assert ShowNat(8) == "8";
    assert ShowNat(30) == "30" by {
      assert ShowNat(30) == ShowNat(3) + [DigitChar(0)];
    }
  }

  datatype ShiftBadge = ScheduledBadge | CompletedBadge | MissedBadge

  /** `getStatusBadge`: 'completed' and 'missed' have their own badge; every
      other status falls back to the scheduled one. */
  function StatusBadge(status: string): (r: ShiftBadge)
    ensures r == CompletedBadge <==> status == "completed"
    ensures r == MissedBadge <==> status == "missed"
    ensures status != "completed" && status != "missed" ==> r == ScheduledBadge
  {
    if status == "completed" then CompletedBadge
    else if status == "missed" then MissedBadge
    else ScheduledBadge
  }
}
