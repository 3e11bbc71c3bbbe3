/** The break controls under the clock button: the running break's length as
    text, and which actions are on offer. */
module BreakControls {
  import opened Wrappers
  import opened Text
  import opened Duration
  import opened TimeEntries
  import ClockSection

  /** `formatDuration(hours)` for a break that has run `ms` milliseconds:
      whole minutes (`Math.floor(hours * 60)`), then "{h}h {m}m" when the
      floored hours are positive and "{m}m" otherwise. */
  function FormatDuration(ms: int): (r: string)
    ensures ms >= MsPerHour ==> r == ShowNat(ms / MsPerMinute / 60) + "h " + ShowNat(ms / MsPerMinute % 60) + "m"
    ensures 0 <= ms < MsPerHour ==> r == ShowNat(ms / MsPerMinute) + "m"
    ensures ms < 0 ==> r == ShowInt(JsRem(ms / MsPerMinute, 60)) + "m"
  {
    var minutes := ms / MsPerMinute;
    assert ms >= 0 ==> 0 <= minutes && (minutes / 60 > 0 <==> ms >= MsPerHour) by {
      if ms >= 0 { FormatDurationParts(ms); }
    }
    assert ms < 0 ==> minutes < 0;
    var (hrs, mins) := HoursMinutes(minutes);
    if hrs > 0 then ShowInt(hrs) + "h " + ShowInt(mins) + "m"
    else ShowInt(mins) + "m"
  }

  /** The hours part appears exactly from the first full hour on, and the
      parts always add back up to the whole minutes elapsed. */
  lemma FormatDurationParts(ms: int)
    requires ms >= 0
    ensures var minutes := ms / MsPerMinute;
            && (minutes / 60) * 60 + minutes % 60 == minutes
            && 0 <= minutes % 60 < 60
            && (minutes / 60 > 0 <==> ms >= MsPerHour)
  {
  }

  /** One hour on the dot reads "1h 0m". */
  lemma OneHourOnTheDot()
    ensures FormatDuration(MsPerHour) == "1h 0m"
  {
    assert MsPerHour / MsPerMinute == 60;
    assert HoursMinutes(60) == (1, 0);
  }

  datatype Control = StartBreakControl(kind: string) | EndBreakControl

  /** The buttons rendered: 'Resume Work' while on break, otherwise 'Paid
      Break' and 'Unpaid Break'. */
  function Controls(onBreak: bool): (r: set<Control>)
    ensures onBreak ==> r == {EndBreakControl}
    ensures !onBreak ==> EndBreakControl !in r
    ensures forall c :: c in r && c.StartBreakControl? ==> !onBreak && (c.kind == Paid || c.kind == Unpaid)
    ensures !onBreak ==> StartBreakControl(Paid) in r && StartBreakControl(Unpaid) in r
  {
    if onBreak then {EndBreakControl} else {StartBreakControl(Paid), StartBreakControl(Unpaid)}
  }

  /** Pressing any control the screen offers keeps the screen in agreement
      with the store: a break can only be started when none is open. */
  lemma OfferedControlsKeepAgreement(st: ClockSection.Screen, store: seq<TimeEntry>, c: Control, now: Instant)
    requires ClockSection.Agrees(st, store) && c in Controls(st.onBreak)
    ensures c.StartBreakControl? ==>
              var r := ClockSection.HandleStartBreak(st, store, c.kind, now);
              ClockSection.Agrees(r.0, r.1) && (st.current.Some? ==> r.0.onBreak)
    ensures c.EndBreakControl? ==>
              var r := ClockSection.HandleEndBreak(st, store, now);
              ClockSection.Agrees(r.0, r.1) && !r.0.onBreak
  {
    if c.StartBreakControl? {
      ClockSection.StartBreakAgrees(st, store, c.kind, now);
    } else {
      ClockSection.EndBreakAgrees(st, store, now);
    }
  }
}
