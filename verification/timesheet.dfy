/** The timesheet table: which entries a view shows, their total, overtime
    above 40 hours, the estimated pay at $18.50 an hour with time-and-a-half,
    and the day view's status card. Hours are hundredths of an hour; money is
    ten-thousandths of a dollar (hundredths of an hour times cents per hour),
    so no rounding happens before display. */
module Timesheet {
  import opened Wrappers
  import opened Seqs
  import opened Duration
  import opened TimeEntries

  datatype ViewMode = Week | Day

  /** The 40-hour overtime threshold, in hundredths of an hour. */
  const OvertimeThreshold: int := 4000
  /** $18.50 an hour, in cents. */
  const RateCents: int := 1850
  /** One and a half times the rate, in cents. */
  const OvertimeRateCents: int := RateCents * 3 / 2

  /** `entry.totalHours || 0`. */
  function HoursOf(e: TimeEntry): int {
    e.totalHours.GetOr(0)
  }

  /** `getTotalHours`: the sum of the entries' totals, absent totals counting 0. */
  function TotalHours(entries: seq<TimeEntry>): (r: int)
    ensures (forall k :: 0 <= k < |entries| ==> HoursOf(entries[k]) >= 0) ==> r >= 0
    ensures |entries| == 0 ==> r == 0
    ensures |entries| == 1 ==> r == entries[0].totalHours.GetOr(0)
    decreases |entries|
  {
    if |entries| == 0 then 0 else HoursOf(entries[0]) + TotalHours(entries[1..])
  }

  /** The total of two runs of entries is the sum of their totals. */
  lemma {:induction false} TotalHoursAppend(a: seq<TimeEntry>, b: seq<TimeEntry>)
    ensures TotalHours(a + b) == TotalHours(a) + TotalHours(b)
    decreases |a|
  {
    if |a| == 0 {
      assert a + b == b;
    } else {
      assert (a + b)[0] == a[0];
      assert (a + b)[1..] == a[1..] + b;
      TotalHoursAppend(a[1..], b);
    }
  }

  /** `getOvertimeHours(total, threshold)`: the hours above the threshold. */
  function OvertimeHours(total: int, threshold: int): (r: int)
    ensures r >= 0
    ensures r == 0 <==> total <= threshold
    ensures r > 0 ==> total - r == threshold
    ensures 0 <= threshold && 0 <= total ==> r <= total
  {
    if total - threshold > 0 then total - threshold else 0
  }

  /** `(total - ot) * 18.50 + ot * 18.50 * 1.5`, in ten-thousandths of a dollar. */
  function EstimatedPay(total: int, overtime: int): int {
    (total - overtime) * RateCents + overtime * OvertimeRateCents
  }

  /** Up to 40 hours the pay is the plain rate; above, the hours beyond 40
      earn time-and-a-half; and more hours never pay less. */
  lemma PayRules(total: int, more: int)
    requires total <= more
    ensures total <= OvertimeThreshold ==>
              EstimatedPay(total, OvertimeHours(total, OvertimeThreshold)) == RateCents * total
    ensures total > OvertimeThreshold ==>
              EstimatedPay(total, OvertimeHours(total, OvertimeThreshold))
              == RateCents * OvertimeThreshold + OvertimeRateCents * (total - OvertimeThreshold)
    ensures EstimatedPay(total, OvertimeHours(total, OvertimeThreshold))
            <= EstimatedPay(more, OvertimeHours(more, OvertimeThreshold))
  {
  }

  /** The worked example: 42.25 hours is 2.25 hours of overtime and $802.4375. */
  lemma WeekOf4225()
    ensures OvertimeHours(4225, OvertimeThreshold) == 225
    ensures EstimatedPay(4225, 225) == 8024375
  {
  }

  /** `toISOString().split('T')[0]`: the UTC calendar day of an instant, as a
      day count since the epoch (one ISO date per day count). */
  function UtcDay(t: Instant): int {
    t / MsPerDay
  }

  /** `getFilteredEntries` in day view at instant `now`: the entries clocked
      in on today's UTC date, in their original order. */
  function TodayEntries(entries: seq<TimeEntry>, now: Instant): (r: seq<TimeEntry>)
    ensures forall e :: e in r <==> e in entries && UtcDay(e.clockIn) == UtcDay(now)
    ensures forall e :: multiset(r)[e] == if UtcDay(e.clockIn) == UtcDay(now) then multiset(entries)[e] else 0
    ensures Subsequence(r, entries)
  {
    var p := (e: TimeEntry) => UtcDay(e.clockIn) == UtcDay(now);
    FilterKeepsOrder(entries, p);
    Filter(entries, p)
  }

  /** `filteredEntries.some(e => e.status === 'active')`. */
  function AnyActive(entries: seq<TimeEntry>): (r: bool)
    ensures r <==> exists i :: 0 <= i < |entries| && entries[i].status == Active
  {
    FindIndex(entries, IsActive).Some?
  }

  /** The summary cards of a view. `pay` is None in day view (no pay card);
      `dayActive` is None in week view (no status card). */
  datatype Summary = Summary(shown: seq<TimeEntry>, total: int, overtime: int, pay: Option<int>, dayActive: Option<bool>)

  /** The table at instant `now`. The week window is the predicate `inWeek`
      (the component computes it from local calendar dates). */
  function Summarize(mode: ViewMode, entries: seq<TimeEntry>, now: Instant, inWeek: TimeEntry -> bool): (r: Summary)
    ensures mode == Day ==> r.shown == TodayEntries(entries, now)
    ensures mode == Week ==> r.shown == Filter(entries, inWeek)
    ensures r.total == TotalHours(r.shown)
    ensures mode == Day ==> r.overtime == 0 && r.pay.None? && r.dayActive.Some?
    ensures mode == Day ==> (r.dayActive.value <==> exists i :: 0 <= i < |r.shown| && r.shown[i].status == Active)
    ensures mode == Week ==> r.dayActive.None? && r.overtime == OvertimeHours(r.total, OvertimeThreshold)
    ensures mode == Week ==> r.pay == Some(EstimatedPay(r.total, r.overtime))
  {
    match mode
    case Day =>
      var shown := TodayEntries(entries, now);
      Summary(shown, TotalHours(shown), 0, None, Some(AnyActive(shown)))
    case Week =>
      var shown := Filter(entries, inWeek);
      var total := TotalHours(shown);
      var ot := OvertimeHours(total, OvertimeThreshold);
      Summary(shown, total, ot, Some(EstimatedPay(total, ot)), None)
  }
}
