/** The clock screen: which entry it shows, whether it believes the employee
    is on break, the live "Today's Hours" figure, and the handlers behind the
    clock button and the break controls. A handler is a step from (screen,
    store) to (screen, store); a service error leaves both as they were. */
module ClockSection {
  import opened Wrappers
  import opened Seqs
  import opened Duration
  import opened TimeEntries
  import Store

  /** The component's state: `currentEntry`, `onBreak` and `breakDuration`
      (milliseconds here, hours in the component). */
  datatype Screen = Screen(current: Option<TimeEntry>, onBreak: bool, breakDuration: int)

  /** The state on mount, before the active entry is loaded. */
  const Initial: Screen := Screen(None, false, 0)

  /** The employee id the clock button records on clock-in. */
  const ClockInEmployee: int := 1

  function Max(a: int, b: int): int { if a >= b then a else b }

  /** `loadCurrentEntry` at instant `now`: show the first active entry and
      derive `onBreak` from its first open break. When there is no active
      entry the flags are left as they were. */
  function LoadCurrentEntry(st: Screen, store: seq<TimeEntry>, now: Instant): (r: Screen)
    ensures r.current == GetCurrentActive(store)
    ensures r.current.Some? ==> (r.onBreak <==> HasOpenBreak(r.current.value.breaks))
    ensures r.current.Some? && r.onBreak ==>
              exists k :: IsFirst(r.current.value.breaks, IsOpen, k) && r.breakDuration == now - r.current.value.breaks[k].startTime
    ensures r.current.None? ==> r.onBreak == st.onBreak && r.breakDuration == st.breakDuration
    ensures !r.onBreak ==> r.breakDuration == st.breakDuration
  {
    match GetCurrentActive(store)
    case None => st.(current := None)
    case Some(e) =>
      match FindIndex(e.breaks, IsOpen)
      case None => st.(current := Some(e), onBreak := false)
      case Some(k) => Screen(Some(e), true, now - e.breaks[k].startTime)
  }

  /** Every closed break carries a duration. */
  ghost predicate ClosedBreaksTimed(breaks: seq<Break>) {
    forall k :: 0 <= k < |breaks| && !IsOpen(breaks[k]) ==> breaks[k].duration.Some?
  }

  /** One break's share of the subtracted time at instant `now`: a closed
      break counts its stored duration, an open one the time since it
      started. None stands for NaN, which a closed break without a duration
      produces. */
  function BreakMs(b: Break, now: Instant): Option<int> {
    if !IsOpen(b) then (if b.duration.Some? then Some(b.duration.value * MsPerCentiHour) else None)
    else Some(now - b.startTime)
  }

  /** The break time `getTodayHours` subtracts, in milliseconds at instant
      `now`: the shares of all breaks, NaN as soon as one share is NaN. */
  function BreakMsAt(breaks: seq<Break>, now: Instant): (r: Option<int>)
    ensures r.Some? <==> ClosedBreaksTimed(breaks)
    decreases |breaks|
  {
    if |breaks| == 0 then Some(0)
    else
      var b := breaks[0];
      var here := BreakMs(b, now);
      var rest := BreakMsAt(breaks[1..], now);
      assert ClosedBreaksTimed(breaks) <==> (here.Some? && ClosedBreaksTimed(breaks[1..])) by {
        if ClosedBreaksTimed(breaks[1..]) && here.Some? {
          forall k | 0 <= k < |breaks| && !IsOpen(breaks[k])
            ensures breaks[k].duration.Some?
          {
            if k > 0 { assert breaks[k] == breaks[1..][k - 1]; }
          }
        }
      }
      if here.Some? && rest.Some? then Some(here.value + rest.value) else None
  }

  /** `reduce` adds the breaks from first to last: one more break adds its
      share to the total so far, and a NaN share makes the total NaN. */
  lemma {:induction false} BreakMsAtAppend(bs: seq<Break>, b: Break, now: Instant)
    ensures BreakMsAt(bs + [b], now) ==
              if BreakMsAt(bs, now).Some? && BreakMs(b, now).Some?
              then Some(BreakMsAt(bs, now).value + BreakMs(b, now).value) else None
    decreases |bs|
  {
    if |bs| == 0 {
      assert bs + [b] == [b];
      assert [b][1..] == [];
    } else {
      var s := bs + [b];
      assert s[0] == bs[0] && s[1..] == bs[1..] + [b];
      BreakMsAtAppend(bs[1..], b, now);
    }
  }

  /** `getTodayHours` at instant `now`, in milliseconds; None stands for NaN
      or `undefined`. */
  function TodayWorkedMs(current: Option<TimeEntry>, now: Instant): (r: Option<int>)
    ensures current.None? ==> r == Some(0)
    ensures current.Some? && current.value.status == Completed ==>
              (r.Some? <==> current.value.totalHours.Some?)
              && (r.Some? ==> r.value == current.value.totalHours.value * MsPerCentiHour)
    ensures current.Some? && current.value.status != Completed ==>
              (r.Some? <==> ClosedBreaksTimed(current.value.breaks))
              && (r.Some? ==> var net := (now - current.value.clockIn) - BreakMsAt(current.value.breaks, now).value;
                              r.value >= 0 && r.value >= net && (r.value == 0 || r.value == net))
  {
    match current
    case None => Some(0)
    case Some(e) =>
      if e.status == Completed then
        (match e.totalHours
         case None => None
         case Some(h) => Some(h * MsPerCentiHour))
      else
        match BreakMsAt(e.breaks, now)
        case None => None
        case Some(b) => Some(Max(0, (now - e.clockIn) - b))
  }

  /** Number of open breaks. */
  function OpenCount(breaks: seq<Break>): nat
    decreases |breaks|
  {
    if |breaks| == 0 then 0 else (if IsOpen(breaks[0]) then 1 else 0) + OpenCount(breaks[1..])
  }

  /** Between two instants the subtracted break time grows by the elapsed
      time once per open break, and not at all for closed breaks. */
  lemma {:induction false} BreakMsAdvance(breaks: seq<Break>, now1: Instant, now2: Instant)
    requires ClosedBreaksTimed(breaks)
    ensures BreakMsAt(breaks, now2).value - BreakMsAt(breaks, now1).value == OpenCount(breaks) * (now2 - now1)
    decreases |breaks|
  {
    if |breaks| > 0 {
      assert ClosedBreaksTimed(breaks[1..]) by {
        forall k | 0 <= k < |breaks[1..]| && !IsOpen(breaks[1..][k])
          ensures breaks[1..][k].duration.Some?
        {
          assert breaks[1..][k] == breaks[k + 1];
        }
      }
      BreakMsAdvance(breaks[1..], now1, now2);
      var c := OpenCount(breaks[1..]);
      assert (1 + c) * (now2 - now1) == (now2 - now1) + c * (now2 - now1);
    }
  }

  /** With a closed break history and no open break, every break lies in
      the past: the subtracted time is the recorded break total. */
  lemma {:induction false} ClosedBreakMs(breaks: seq<Break>, now: Instant)
    requires forall k :: 0 <= k < |breaks| ==> !IsOpen(breaks[k]) && breaks[k].duration.Some?
    ensures BreakMsAt(breaks, now) == Some(TotalBreakCenti(breaks) * MsPerCentiHour)
    decreases |breaks|
  {
    if |breaks| > 0 {
      var b, tail := breaks[0], breaks[1..];
      assert forall k :: 0 <= k < |tail| ==> tail[k] == breaks[k + 1];
      ClosedBreakMs(tail, now);
      var d, t := b.duration.value, TotalBreakCenti(tail);
      assert TotalBreakCenti(breaks) == d + t;
      CentiHoursAdd(d, t);
      ClosedHeadMs(breaks, now);
    }
  }

  /** One unfolding of `BreakMsAt` past a closed, timed first break. */
  lemma ClosedHeadMs(breaks: seq<Break>, now: Instant)
    requires |breaks| > 0 && !IsOpen(breaks[0]) && breaks[0].duration.Some?
    requires BreakMsAt(breaks[1..], now).Some?
    ensures BreakMsAt(breaks, now) == Some(breaks[0].duration.value * MsPerCentiHour + BreakMsAt(breaks[1..], now).value)
  {
  }

  /** An open break after closed, timed ones adds the time since it began
      to the recorded break total. */
  lemma {:induction false} BreakMsLastOpen(bs: seq<Break>, b: Break, now: Instant)
    requires forall k :: 0 <= k < |bs| ==> !IsOpen(bs[k]) && bs[k].duration.Some?
    requires IsOpen(b)
    ensures BreakMsAt(bs + [b], now) == Some(TotalBreakCenti(bs) * MsPerCentiHour + (now - b.startTime))
    decreases |bs|
  {
    if |bs| == 0 {
      assert bs + [b] == [b];
      assert [b][1..] == [];
    } else {
      var s, tail := bs + [b], bs[1..];
      assert s[0] == bs[0] && s[1..] == tail + [b];
      assert forall k :: 0 <= k < |tail| ==> tail[k] == bs[k + 1];
      BreakMsLastOpen(tail, b, now);
      var d, t := bs[0].duration.value, TotalBreakCenti(tail);
      ClosedHeadMs(s, now);
      assert BreakMsAt(s, now) == Some(d * MsPerCentiHour + (t * MsPerCentiHour + (now - b.startTime)));
      assert TotalBreakCenti(bs) == d + t;
      CentiHoursAdd(d, t);
    }
  }

  /** Starting a break does not move the live figure at that instant: the
      new break has run for no time yet. */
  lemma StartBreakKeepsLiveFigure(e: TimeEntry, kind: Option<string>, t0: Instant)
    requires e.status != Completed
    requires forall k :: 0 <= k < |e.breaks| ==> !IsOpen(e.breaks[k]) && e.breaks[k].duration.Some?
    ensures TodayWorkedMs(Some(e.(breaks := e.breaks + [NewBreak(kind, t0)])), t0) == TodayWorkedMs(Some(e), t0)
  {
    ClosedBreakMs(e.breaks, t0);
    BreakMsLastOpen(e.breaks, NewBreak(kind, t0), t0);
  }

  /** While working (no open break) the live figure never goes down. */
  lemma WorkingCounterAdvances(e: TimeEntry, now1: Instant, now2: Instant)
    requires e.status != Completed && ClosedBreaksTimed(e.breaks) && !HasOpenBreak(e.breaks)
    requires now1 <= now2
    ensures TodayWorkedMs(Some(e), now1).value <= TodayWorkedMs(Some(e), now2).value
  {
    BreakMsAdvance(e.breaks, now1, now2);
    NoOpenCountsZero(e.breaks);
  }

  /** While on a single break the live figure stands still. */
  lemma OnBreakCounterFrozen(e: TimeEntry, now1: Instant, now2: Instant)
    requires e.status != Completed && ClosedBreaksTimed(e.breaks) && OpenCount(e.breaks) == 1
    ensures TodayWorkedMs(Some(e), now1) == TodayWorkedMs(Some(e), now2)
  {
    BreakMsAdvance(e.breaks, now1, now2);
  }

  lemma {:induction false} NoOpenCountsZero(breaks: seq<Break>)
    requires !HasOpenBreak(breaks)
    ensures OpenCount(breaks) == 0
    decreases |breaks|
  {
    if |breaks| > 0 {
      assert !IsOpen(breaks[0]);
      assert !HasOpenBreak(breaks[1..]) by {
        forall k | 0 <= k < |breaks[1..]|
          ensures !IsOpen(breaks[1..][k])
        {
          assert breaks[1..][k] == breaks[k + 1];
        }
      }
      NoOpenCountsZero(breaks[1..]);
    }
  }

  /** `clockOut` does not subtract breaks: the total it stores is, to within
      rounding, the worked time shown live at that instant plus the recorded
      break time. */
  lemma ClockOutIgnoresBreaks(e: TimeEntry, now: Instant)
    requires e.status != Completed
    requires forall k :: 0 <= k < |e.breaks| ==> !IsOpen(e.breaks[k]) && e.breaks[k].duration.Some?
    requires now - e.clockIn >= TotalBreakCenti(e.breaks) * MsPerCentiHour
    ensures TodayWorkedMs(Some(e), now).Some?
    ensures var stored := CloseOut(e, now).totalHours.value * MsPerCentiHour;
            var live := TodayWorkedMs(Some(e), now).value;
            -MsPerCentiHour / 2 < stored - (live + TotalBreakCenti(e.breaks) * MsPerCentiHour) <= MsPerCentiHour / 2
  {
    ClosedBreakMs(e.breaks, now);
  }

  /** A day from 09:00 to 17:00 with an unpaid break from 12:00 to 12:30:
      the screen shows 7.5 hours while the stored total is 8.00. */
  lemma EightHourDayWithHalfHourBreak(id: Store.Id, nine: Instant)
    ensures var e := TimeEntry(id, 1, nine, None,
                               [Break(nine + 3 * MsPerHour, Some(nine + 3 * MsPerHour + 30 * MsPerMinute), Unpaid, Some(50))],
                               Some(0), Active);
            var five := nine + 8 * MsPerHour;
            TodayWorkedMs(Some(e), five) == Some(750 * MsPerCentiHour)
            && CloseOut(e, five).totalHours == Some(800)
  {
    var b := Break(nine + 3 * MsPerHour, Some(nine + 3 * MsPerHour + 30 * MsPerMinute), Unpaid, Some(50));
    var five := nine + 8 * MsPerHour;
    assert [b][1..] == [];
    assert BreakMsAt([b], five) == Some(50 * MsPerCentiHour);
    RoundCentiHoursExact(800);
  }

  /** `handleClockAction` at instant `now`; `newId` is the id `create` would
      draw from the clock. On break: nothing is called and nothing changes.
      Otherwise a shown entry is clocked out, or a new one is created with
      `clockIn = now` and no breaks. */
  function HandleClockAction(st: Screen, store: seq<TimeEntry>, now: Instant, newId: Store.Id): (r: (Screen, seq<TimeEntry>))
    ensures st.onBreak ==> r == (st, store)
    ensures !st.onBreak && st.current.None? ==>
              && r.0.current == Some(TimeEntry(newId, ClockInEmployee, now, None, [], Some(0), Active))
              && r.1 == store + [r.0.current.value]
    ensures !st.onBreak && st.current.Some? ==>
              var out := ClockOut(store, st.current.value.id, now);
              && (out.Err? ==> r == (st, store))
              && (out.Ok? ==> r.0.current.None? && r.1 == out.value.0)
    ensures r.0.onBreak == st.onBreak && r.0.breakDuration == st.breakDuration
  {
    if st.onBreak then (st, store)
    else match st.current
      case Some(e) =>
        (match ClockOut(store, e.id, now)
         case Err(_) => (st, store)
         case Ok((store', _)) => (st.(current := None), store'))
      case None =>
        var (store', e) := Create(store, EntryDraft(ClockInEmployee, now, None, []), newId);
        (st.(current := Some(e)), store')
  }

  /** `handleStartBreak(breakType)` at `now`: start a break on the shown entry
      and switch to the on-break view. */
  function HandleStartBreak(st: Screen, store: seq<TimeEntry>, kind: string, now: Instant): (r: (Screen, seq<TimeEntry>))
    ensures st.current.None? || GetById(store, st.current.value.id).None? ==> r == (st, store)
    ensures st.current.Some? && GetById(store, st.current.value.id).Some? ==>
              var s := GetById(store, st.current.value.id).value;
              && r.0 == Screen(Some(s.(breaks := s.breaks + [NewBreak(Some(kind), now)])), true, 0)
              && exists i :: Store.FirstWithId(store, IdOf, s.id, i) && Store.ReplacedAt(store, r.1, i, r.0.current.value)
  {
    match st.current
    case None => (st, store)
    case Some(e) =>
      match StartBreak(store, e.id, Some(kind), now)
      case Err(_) => (st, store)
      case Ok((store', e')) => (Screen(Some(e'), true, 0), store')
  }

  /** `handleEndBreak` at `now`: end the shown entry's break and switch back. */
  function HandleEndBreak(st: Screen, store: seq<TimeEntry>, now: Instant): (r: (Screen, seq<TimeEntry>))
    ensures st.current.None? || GetById(store, st.current.value.id).None? ==> r == (st, store)
    ensures st.current.Some? && GetById(store, st.current.value.id).Some? ==>
              var s := GetById(store, st.current.value.id).value;
              && r.0 == Screen(Some(CloseFirstOpen(s, now)), false, 0)
              && exists i :: Store.FirstWithId(store, IdOf, s.id, i) && Store.ReplacedAt(store, r.1, i, r.0.current.value)
  {
    match st.current
    case None => (st, store)
    case Some(e) =>
      match EndBreak(store, e.id, now)
      case Err(_) => (st, store)
      case Ok((store', e')) => (Screen(Some(e'), false, 0), store')
  }

  /** The "Breaks Today" card: the number of breaks of the shown entry, and
      the recorded break total for the subtitle (None for 'No breaks taken'). */
  function BreaksToday(current: Option<TimeEntry>): (r: (nat, Option<int>))
    ensures current.None? ==> r == (0, None)
    ensures current.Some? ==> r.0 == |current.value.breaks|
    ensures r.1.Some? <==> current.Some? && |current.value.breaks| > 0
    ensures r.1.Some? ==> r.1.value == TotalBreakCenti(current.value.breaks)
  {
    match current
    case None => (0, None)
    case Some(e) => (|e.breaks|, if |e.breaks| > 0 then Some(TotalBreakCenti(e.breaks)) else None)
  }

  /** The screen agrees with the store: ids are unique, the shown entry is
      the stored one, its breaks keep the open-break-last discipline, and
      `onBreak` holds exactly when it has an open break. */
  ghost predicate Agrees(st: Screen, store: seq<TimeEntry>) {
    && Store.UniqueIds(store, IdOf)
    && (st.onBreak <==> st.current.Some? && HasOpenBreak(st.current.value.breaks))
    && (st.current.Some? ==> GetById(store, st.current.value.id) == st.current && OpenOnlyLast(st.current.value.breaks))
  }

  /** Loading on mount establishes agreement with a store whose ids are
      unique and whose entries keep the open-break-last discipline. */
  lemma LoadAgrees(store: seq<TimeEntry>, now: Instant)
    requires Store.UniqueIds(store, IdOf)
    requires forall j :: 0 <= j < |store| ==> OpenOnlyLast(store[j].breaks)
    ensures Agrees(LoadCurrentEntry(Initial, store, now), store)
  {
    var r := LoadCurrentEntry(Initial, store, now);
    if r.current.Some? {
      var i :| 0 <= i < |store| && store[i] == r.current.value && forall j :: 0 <= j < i ==> store[j].status != Active;
      Store.GetByIdUnique(store, IdOf, i);
    }
  }

  /** The clock button keeps agreement, given a fresh id for a new entry. */
  lemma ClockActionAgrees(st: Screen, store: seq<TimeEntry>, now: Instant, newId: Store.Id)
    requires Agrees(st, store)
    requires forall j :: 0 <= j < |store| ==> store[j].id != newId
    ensures Agrees(HandleClockAction(st, store, now, newId).0, HandleClockAction(st, store, now, newId).1)
  {
    var r := HandleClockAction(st, store, now, newId);
    if !st.onBreak {
      match st.current
      case Some(e) =>
        var out := ClockOut(store, e.id, now);
        if out.Ok? {
          var i :| Store.FirstWithId(store, IdOf, e.id, i) && Store.ReplacedAt(store, out.value.0, i, out.value.1)
                    && out.value.1 == CloseOut(store[i], now);
          Store.ReplaceKeepsIds(store, out.value.0, IdOf, i, out.value.1);
        }
      case None =>
        Store.AppendFresh(store, IdOf, r.0.current.value);
    }
  }

  /** Starting a break from the not-on-break controls keeps agreement. */
  lemma StartBreakAgrees(st: Screen, store: seq<TimeEntry>, kind: string, now: Instant)
    requires Agrees(st, store) && !st.onBreak
    ensures Agrees(HandleStartBreak(st, store, kind, now).0, HandleStartBreak(st, store, kind, now).1)
  {
    if st.current.Some? {
      var e := st.current.value;
      var res := StartBreak(store, e.id, Some(kind), now);
      var i :| Store.FirstWithId(store, IdOf, e.id, i) && Store.ReplacedAt(store, res.value.0, i, res.value.1)
                && res.value.1 == store[i].(breaks := store[i].breaks + [NewBreak(Some(kind), now)]);
      var k :| Store.FirstWithId(store, IdOf, e.id, k) && e == store[k];
      assert k == i;
      StartBreakOpensLast(e, Some(kind), now);
      Store.ReplaceKeepsIds(store, res.value.0, IdOf, i, res.value.1);
    }
  }

  /** Ending the break keeps agreement: afterwards no break is open. */
  lemma EndBreakAgrees(st: Screen, store: seq<TimeEntry>, now: Instant)
    requires Agrees(st, store)
    ensures Agrees(HandleEndBreak(st, store, now).0, HandleEndBreak(st, store, now).1)
  {
    if st.current.Some? {
      var e := st.current.value;
      var res := EndBreak(store, e.id, now);
      var i :| Store.FirstWithId(store, IdOf, e.id, i) && Store.ReplacedAt(store, res.value.0, i, res.value.1)
                && res.value.1 == CloseFirstOpen(store[i], now);
      var k :| Store.FirstWithId(store, IdOf, e.id, k) && e == store[k];
      assert k == i;
      EndBreakClosesAll(e, now);
      var e' := res.value.1;
      assert OpenOnlyLast(e'.breaks);
      Store.ReplaceKeepsIds(store, res.value.0, IdOf, i, e');
    }
  }
}
