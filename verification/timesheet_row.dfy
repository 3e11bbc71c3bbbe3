/** One row of the timesheet table: clock-in and clock-out cells, the breaks
    cell, the total cell and the status badge. How a present instant is
    printed ('h:mm a' in local time) is the parameter `format`. */
module TimesheetRow {
  import opened Wrappers
  import opened Duration
  import opened TimeEntries

  datatype RowBadge = ActiveBadge | CompleteBadge

  /** The breaks cell: the recorded break total and "(n break[s])", or None for '--'. */
  datatype BreaksCell = BreaksCell(totalCenti: int, count: nat, noun: string)

  /** The total cell: hours, or the '0.0' placeholder for a falsy total. */
  datatype TotalCell = Hours(centi: int) | ZeroPlaceholder

  datatype Row = Row(clockIn: string, clockOut: string, breaks: Option<BreaksCell>, total: TotalCell, badge: RowBadge)

  /** `formatTime`: '--' for a missing timestamp. */
  function FormatTime(t: Option<Instant>, format: Instant -> string): string {
    match t
    case None => "--"
    case Some(v) => format(v)
  }

  /** `getStatusBadge`: only 'active' is Active. */
  function Badge(status: string): RowBadge {
    if status == Active then ActiveBadge else CompleteBadge
  }

  /** "break" for exactly one, "breaks" otherwise. */
  function BreakLabel(n: nat): string {
    "break" + (if n != 1 then "s" else "")
  }

  /** The row of an entry. */
  function Render(e: TimeEntry, format: Instant -> string): (r: Row)
    ensures r.clockIn == format(e.clockIn)
    ensures e.clockOut.None? ==> r.clockOut == "--"
    ensures e.clockOut.Some? ==> r.clockOut == format(e.clockOut.value)
    ensures r.breaks.None? <==> |e.breaks| == 0
    ensures r.breaks.Some? ==> r.breaks.value.count == |e.breaks| && r.breaks.value.totalCenti == TotalBreakCenti(e.breaks)
    ensures r.breaks.Some? ==> r.breaks.value.noun == (if |e.breaks| == 1 then "break" else "breaks")
    ensures r.total == ZeroPlaceholder <==> e.totalHours.None? || e.totalHours == Some(0)
    ensures r.total.Hours? ==> Some(r.total.centi) == e.totalHours
    ensures r.badge == ActiveBadge <==> e.status == Active
  {
    var n := |e.breaks|;
    Row(
      format(e.clockIn),
      FormatTime(e.clockOut, format),
      if n > 0 then Some(BreaksCell(TotalBreakCenti(e.breaks), n, BreakLabel(n))) else None,
      if e.totalHours.Some? && e.totalHours.value != 0 then Hours(e.totalHours.value) else ZeroPlaceholder,
      Badge(e.status))
  }

  /** An entry just clocked in shows '--' for clock-out, an Active badge and
      the '0.0' placeholder; once clocked out it shows its clock-out time and
      a Complete badge. */
  lemma RowThroughLifecycle(data: seq<TimeEntry>, draft: EntryDraft, newId: string, now: Instant, format: Instant -> string)
    requires draft.clockOut.None?
    ensures var (data1, e) := Create(data, draft, newId);
            var row := Render(e, format);
            row.clockOut == "--" && row.badge == ActiveBadge && row.total == ZeroPlaceholder
    ensures var (data1, e) := Create(data, draft, newId);
            var closed := CloseOut(e, now);
            var row := Render(closed, format);
            row.clockOut == format(now) && row.badge == CompleteBadge
  {
  }
}
