/** The time-entry service: an in-memory array of clock sessions, each with
    its breaks, and the transitions the clock screen drives (clock-in through
    `create`, `clockOut`, `startBreak`, `endBreak`). Each async call is one
    pure step from the old array to the new one; the instant the call would
    read from `new Date()` is the parameter `now`. */
module TimeEntries {
  import opened Wrappers
  import opened Seqs
  import opened Duration
  import Store

  const Active: string := "active"
  const Completed: string := "completed"
  const Unpaid: string := "unpaid"
  const Paid: string := "paid"
  const NotFound: string := "Time entry not found"

  /** A break inside a session. `kind` is the record's `type` ('paid' or
      'unpaid'); `endTime` is None while the break is open; `duration` is in
      hundredths of an hour and None when the property is absent. */
  datatype Break = Break(startTime: Instant, endTime: Option<Instant>, kind: string, duration: Option<int>)

  /** One clock session. `clockOut` is None while the session runs;
      `totalHours` is in hundredths of an hour and None when absent. */
  datatype TimeEntry = TimeEntry(
    id: Store.Id,
    employeeId: int,
    clockIn: Instant,
    clockOut: Option<Instant>,
    breaks: seq<Break>,
    totalHours: Option<int>,
    status: string)

  /** The object handed to `create`: everything but the fields it assigns. */
  datatype EntryDraft = EntryDraft(employeeId: int, clockIn: Instant, clockOut: Option<Instant>, breaks: seq<Break>)

  /** The object handed to `update`: a field is supplied when it is Some. */
  datatype EntryPatch = EntryPatch(
    id: Option<Store.Id>,
    employeeId: Option<int>,
    clockIn: Option<Instant>,
    clockOut: Option<Option<Instant>>,
    breaks: Option<seq<Break>>,
    totalHours: Option<Option<int>>,
    status: Option<string>)

  /** The state produced by a successful mutating call: new array, returned record. */
  type Step = (seq<TimeEntry>, TimeEntry)

  function IdOf(e: TimeEntry): Store.Id { e.id }

  predicate IsActive(e: TimeEntry) { e.status == Active }

  /** `!b.endTime`: the break has not been ended. */
  predicate IsOpen(b: Break) { b.endTime.None? }

  predicate HasOpenBreak(breaks: seq<Break>) {
    exists k :: 0 <= k < |breaks| && IsOpen(breaks[k])
  }

  /** The break discipline the screen maintains: an open break, if any, is the last one. */
  ghost predicate OpenOnlyLast(breaks: seq<Break>) {
    forall k :: 0 <= k < |breaks| && IsOpen(breaks[k]) ==> k == |breaks| - 1
  }

  /** `breaks.reduce((total, b) => total + (b.duration || 0), 0)`: the
      recorded break time in hundredths of an hour, an absent duration
      counting as 0. */
  function TotalBreakCenti(breaks: seq<Break>): (r: int)
    ensures (forall k :: 0 <= k < |breaks| ==> breaks[k].duration.GetOr(0) >= 0) ==> r >= 0
    ensures |breaks| == 0 ==> r == 0
    ensures |breaks| == 1 ==> r == breaks[0].duration.GetOr(0)
    decreases |breaks|
  {
    if |breaks| == 0 then 0
    else breaks[0].duration.GetOr(0) + TotalBreakCenti(breaks[1..])
  }

  /** One more break adds its duration, or nothing when it has none. */
  lemma {:induction false} TotalBreakCentiAppend(bs: seq<Break>, b: Break)
    ensures TotalBreakCenti(bs + [b]) == TotalBreakCenti(bs) + b.duration.GetOr(0)
    decreases |bs|
  {
    if |bs| == 0 {
      assert bs + [b] == [b];
    } else {
      assert (bs + [b])[0] == bs[0];
      assert (bs + [b])[1..] == bs[1..] + [b];
      TotalBreakCentiAppend(bs[1..], b);
    }
  }

  /** `getAll`: a copy of the whole array, in store order. */
  function GetAll(data: seq<TimeEntry>): seq<TimeEntry> {
    data
  }

  /** `getById`: the first entry with that id, or None for `null`. */
  function GetById(data: seq<TimeEntry>, id: Store.Id): (r: Option<TimeEntry>)
    ensures r.None? <==> forall j :: 0 <= j < |data| ==> data[j].id != id
    ensures r.Some? ==> r.value.id == id && exists i :: Store.FirstWithId(data, IdOf, id, i) && r.value == data[i]
  {
    Store.GetById(data, IdOf, id)
  }

  /** `create`: append the draft with a new id, `totalHours: 0` and
      `status: 'active'`. The id `Date.now().toString()` would produce is
      the parameter `newId`. */
  function Create(data: seq<TimeEntry>, draft: EntryDraft, newId: Store.Id): (r: Step)
    ensures |r.0| == |data| + 1 && r.0[..|data|] == data && r.0[|data|] == r.1
    ensures r.1.id == newId && r.1.totalHours == Some(0) && r.1.status == Active
    ensures r.1.employeeId == draft.employeeId && r.1.clockIn == draft.clockIn
    ensures r.1.clockOut == draft.clockOut && r.1.breaks == draft.breaks
  {
    var e := TimeEntry(newId, draft.employeeId, draft.clockIn, draft.clockOut, draft.breaks, Some(0), Active);
    (data + [e], e)
  }

  /** `{ ...entry, ...updates }`: supplied fields win, the rest are kept. */
  function Merge(e: TimeEntry, p: EntryPatch): (r: TimeEntry)
    ensures p.id.Some? ==> r.id == p.id.value
    ensures p.id.None? ==> r.id == e.id
    ensures p.employeeId.Some? ==> r.employeeId == p.employeeId.value
    ensures p.employeeId.None? ==> r.employeeId == e.employeeId
    ensures p.clockIn.Some? ==> r.clockIn == p.clockIn.value
    ensures p.clockIn.None? ==> r.clockIn == e.clockIn
    ensures p.clockOut.Some? ==> r.clockOut == p.clockOut.value
    ensures p.clockOut.None? ==> r.clockOut == e.clockOut
    ensures p.breaks.Some? ==> r.breaks == p.breaks.value
    ensures p.breaks.None? ==> r.breaks == e.breaks
    ensures p.totalHours.Some? ==> r.totalHours == p.totalHours.value
    ensures p.totalHours.None? ==> r.totalHours == e.totalHours
    ensures p.status.Some? ==> r.status == p.status.value
    ensures p.status.None? ==> r.status == e.status
  {
    TimeEntry(
      p.id.GetOr(e.id),
      p.employeeId.GetOr(e.employeeId),
      p.clockIn.GetOr(e.clockIn),
      p.clockOut.GetOr(e.clockOut),
      p.breaks.GetOr(e.breaks),
      p.totalHours.GetOr(e.totalHours),
      p.status.GetOr(e.status))
  }

  /** A patch supplying nothing. */
  const EmptyPatch: EntryPatch := EntryPatch(None, None, None, None, None, None, None)

  /** Merging an empty patch changes nothing; merging the same patch twice is merging it once. */
  lemma MergeLaws(e: TimeEntry, p: EntryPatch)
    ensures Merge(e, EmptyPatch) == e
    ensures Merge(Merge(e, p), p) == Merge(e, p)
  {
  }

  /** `update`: overwrite the supplied fields of the first entry with that id. */
  function Update(data: seq<TimeEntry>, id: Store.Id, patch: EntryPatch): (r: Result<Step>)
    ensures r.Err? <==> forall j :: 0 <= j < |data| ==> data[j].id != id
    ensures r.Err? ==> r.error == NotFound
    ensures r.Ok? ==> exists i :: Store.FirstWithId(data, IdOf, id, i)
                                && Store.ReplacedAt(data, r.value.0, i, r.value.1)
                                && r.value.1 == Merge(data[i], patch)
  {
    Store.Modify(data, IdOf, id, (e: TimeEntry) => Merge(e, patch), NotFound)
  }

  /** `delete`: splice out the first entry with that id. */
  function Delete(data: seq<TimeEntry>, id: Store.Id): (r: Result<seq<TimeEntry>>)
    ensures r.Err? <==> forall j :: 0 <= j < |data| ==> data[j].id != id
    ensures r.Err? ==> r.error == NotFound
    ensures r.Ok? ==> |r.value| == |data| - 1
    ensures r.Ok? ==> exists i :: Store.FirstWithId(data, IdOf, id, i) && Store.RemovedAt(data, r.value, i)
  {
    Store.Delete(data, IdOf, id, NotFound)
  }

  /** `getCurrentActive`: the first entry whose status is 'active', or None. */
  function GetCurrentActive(data: seq<TimeEntry>): (r: Option<TimeEntry>)
    ensures r.None? <==> forall j :: 0 <= j < |data| ==> data[j].status != Active
    ensures r.Some? ==> r.value.status == Active
    ensures r.Some? ==> exists i :: 0 <= i < |data| && data[i] == r.value && forall j :: 0 <= j < i ==> data[j].status != Active
  {
    var r := Find(data, IsActive);
    assert r.Some? ==> exists i :: IsFirst(data, IsActive, i) && r.value == data[i];
    r
  }

  /** The record `clockOut` writes: clock-out instant, elapsed time since
      clock-in rounded to hundredths of an hour (breaks are NOT subtracted),
      status 'completed'. */
  function CloseOut(e: TimeEntry, now: Instant): (r: TimeEntry)
    ensures r.status == Completed && r.clockOut == Some(now)
    ensures r.totalHours.Some?
    ensures -MsPerCentiHour / 2 < r.totalHours.value * MsPerCentiHour - (now - e.clockIn) <= MsPerCentiHour / 2
    ensures r.id == e.id && r.employeeId == e.employeeId && r.clockIn == e.clockIn && r.breaks == e.breaks
  {
    e.(clockOut := Some(now), totalHours := Some(RoundCentiHours(now - e.clockIn)), status := Completed)
  }

  /** `clockOut(id)` at instant `now`. Only a missing id fails: an entry that
      is already completed is closed again, and open breaks are left open. */
  function ClockOut(data: seq<TimeEntry>, id: Store.Id, now: Instant): (r: Result<Step>)
    ensures r.Err? <==> forall j :: 0 <= j < |data| ==> data[j].id != id
    ensures r.Err? ==> r.error == NotFound
    ensures r.Ok? ==> exists i :: Store.FirstWithId(data, IdOf, id, i)
                                && Store.ReplacedAt(data, r.value.0, i, r.value.1)
                                && r.value.1 == CloseOut(data[i], now)
  {
    Store.Modify(data, IdOf, id, (e: TimeEntry) => CloseOut(e, now), NotFound)
  }

  /** The break `startBreak` appends: open, zero duration, 'unpaid' unless a type is given. */
  function NewBreak(kind: Option<string>, now: Instant): (b: Break)
    ensures IsOpen(b) && b.startTime == now && b.duration == Some(0)
    ensures kind.None? ==> b.kind == Unpaid
    ensures kind.Some? ==> b.kind == kind.value
  {
    Break(now, None, kind.GetOr(Unpaid), Some(0))
  }

  /** `startBreak(entryId, breakType)` at `now`: push one open break. A break
      that is already open is not checked for. */
  function StartBreak(data: seq<TimeEntry>, id: Store.Id, kind: Option<string>, now: Instant): (r: Result<Step>)
    ensures r.Err? <==> forall j :: 0 <= j < |data| ==> data[j].id != id
    ensures r.Err? ==> r.error == NotFound
    ensures r.Ok? ==> exists i :: Store.FirstWithId(data, IdOf, id, i)
                                && Store.ReplacedAt(data, r.value.0, i, r.value.1)
                                && r.value.1 == data[i].(breaks := data[i].breaks + [NewBreak(kind, now)])
    ensures GetById(data, id).Some? ==>
              var s := GetById(data, id).value; r.Ok? && r.value.1 == s.(breaks := s.breaks + [NewBreak(kind, now)])
  {
    Store.Modify(data, IdOf, id, (e: TimeEntry) => e.(breaks := e.breaks + [NewBreak(kind, now)]), NotFound)
  }

  /** Ending a break: `endTime` is `now`, `duration` the elapsed time rounded
      to hundredths of an hour. */
  function Close(b: Break, now: Instant): (r: Break)
    ensures !IsOpen(r) && r.endTime == Some(now)
    ensures r.duration.Some?
    ensures -MsPerCentiHour / 2 < r.duration.value * MsPerCentiHour - (now - b.startTime) <= MsPerCentiHour / 2
    ensures r.startTime == b.startTime && r.kind == b.kind
  {
    b.(endTime := Some(now), duration := Some(RoundCentiHours(now - b.startTime)))
  }

  /** What `endBreak` does to the entry: close the first open break, if any. */
  function CloseFirstOpen(e: TimeEntry, now: Instant): (r: TimeEntry)
    ensures !HasOpenBreak(e.breaks) ==> r == e
    ensures forall k :: IsFirst(e.breaks, IsOpen, k) ==> r == e.(breaks := e.breaks[k := Close(e.breaks[k], now)])
  {
    match FindIndex(e.breaks, IsOpen)
    case None => e
    case Some(k) => e.(breaks := e.breaks[k := Close(e.breaks[k], now)])
  }

  /** `endBreak(entryId)` at `now`. With no open break the entry comes back
      unchanged and nothing is thrown; only a missing id fails. */
  function EndBreak(data: seq<TimeEntry>, id: Store.Id, now: Instant): (r: Result<Step>)
    ensures r.Err? <==> forall j :: 0 <= j < |data| ==> data[j].id != id
    ensures r.Err? ==> r.error == NotFound
    ensures r.Ok? ==> exists i :: Store.FirstWithId(data, IdOf, id, i)
                                && Store.ReplacedAt(data, r.value.0, i, r.value.1)
                                && r.value.1 == CloseFirstOpen(data[i], now)
    ensures GetById(data, id).Some? ==> r.Ok? && r.value.1 == CloseFirstOpen(GetById(data, id).value, now)
  {
    Store.Modify(data, IdOf, id, (e: TimeEntry) => CloseFirstOpen(e, now), NotFound)
  }

  /** Starting a break while none is open leaves exactly one open break, the last. */
  lemma StartBreakOpensLast(e: TimeEntry, kind: Option<string>, now: Instant)
    requires !HasOpenBreak(e.breaks)
    ensures var bs := e.breaks + [NewBreak(kind, now)]; HasOpenBreak(bs) && OpenOnlyLast(bs)
  {
    var bs := e.breaks + [NewBreak(kind, now)];
    assert IsOpen(bs[|bs| - 1]);
    assert forall k :: 0 <= k < |e.breaks| ==> bs[k] == e.breaks[k];
  }

  /** `startBreak` does not refuse a second break: starting one while a break
      is open leaves two open breaks. */
  lemma StartBreakWhileOnBreak(e: TimeEntry, kind: Option<string>, now: Instant)
    requires HasOpenBreak(e.breaks)
    ensures !OpenOnlyLast(e.breaks + [NewBreak(kind, now)])
  {
    var bs := e.breaks + [NewBreak(kind, now)];
    var k :| 0 <= k < |e.breaks| && IsOpen(e.breaks[k]);
    assert bs[k] == e.breaks[k];
  }

  /** When the open break (if any) is the last one, `endBreak` leaves no open
      break and keeps every earlier break as it was. */
  lemma {:induction false} EndBreakClosesAll(e: TimeEntry, now: Instant)
    requires OpenOnlyLast(e.breaks)
    ensures !HasOpenBreak(CloseFirstOpen(e, now).breaks)
    ensures |CloseFirstOpen(e, now).breaks| == |e.breaks|
    ensures forall k :: 0 <= k < |e.breaks| && !IsOpen(e.breaks[k]) ==> CloseFirstOpen(e, now).breaks[k] == e.breaks[k]
  {
    var r := CloseFirstOpen(e, now);
    match FindIndex(e.breaks, IsOpen)
    case None =>
    case Some(k) =>
      assert k == |e.breaks| - 1;
      assert r.breaks == e.breaks[k := Close(e.breaks[k], now)];
      assert forall j :: 0 <= j < |r.breaks| && j != k ==> r.breaks[j] == e.breaks[j];
  }

  /** A break started and ended at the same instant is closed with duration 0,
      and nothing else about the entry changes. */
  lemma StartThenEndSameInstant(data: seq<TimeEntry>, id: Store.Id, kind: Option<string>, now: Instant)
    requires GetById(data, id).Some?
    requires !HasOpenBreak(GetById(data, id).value.breaks)
    ensures StartBreak(data, id, kind, now).Ok?
    ensures EndBreak(StartBreak(data, id, kind, now).value.0, id, now).Ok?
    ensures var e := GetById(data, id).value;
            var e2 := EndBreak(StartBreak(data, id, kind, now).value.0, id, now).value.1;
            e2 == e.(breaks := e.breaks + [Break(now, Some(now), kind.GetOr(Unpaid), Some(0))])
  {
    var e := GetById(data, id).value;
    var i :| Store.FirstWithId(data, IdOf, id, i) && e == data[i];
    var s1 := StartBreak(data, id, kind, now).value;
    var i1 :| Store.FirstWithId(data, IdOf, id, i1) && Store.ReplacedAt(data, s1.0, i1, s1.1)
              && s1.1 == data[i1].(breaks := data[i1].breaks + [NewBreak(kind, now)]);
    FirstIsUnique(data, (x: TimeEntry) => IdOf(x) == id, i, i1);
    assert Store.FirstWithId(s1.0, IdOf, id, i);
    var s2 := EndBreak(s1.0, id, now).value;
    var i2 :| Store.FirstWithId(s1.0, IdOf, id, i2) && Store.ReplacedAt(s1.0, s2.0, i2, s2.1)
              && s2.1 == CloseFirstOpen(s1.0[i2], now);
    assert i2 == i;
    CloseJustStarted(e, kind, now);
  }

  /** Ending, at the instant it began, the one break just started closes it
      with duration 0. */
  lemma CloseJustStarted(e: TimeEntry, kind: Option<string>, now: Instant)
    requires !HasOpenBreak(e.breaks)
    ensures CloseFirstOpen(e.(breaks := e.breaks + [NewBreak(kind, now)]), now)
            == e.(breaks := e.breaks + [Break(now, Some(now), kind.GetOr(Unpaid), Some(0))])
  {
    var e1 := e.(breaks := e.breaks + [NewBreak(kind, now)]);
    var n := |e.breaks|;
    assert IsFirst(e1.breaks, IsOpen, n);
    RoundCentiHoursExact(0);
    assert e1.breaks[n := Close(e1.breaks[n], now)] == e.breaks + [Break(now, Some(now), kind.GetOr(Unpaid), Some(0))];
  }
}
