/** The shift service: an in-memory array of scheduled shifts. A shift's
    `date` is the instant `new Date(shift.date)` denotes. */
module Shifts {
  import opened Wrappers
  import opened Seqs
  import opened Duration
  import Store

  const Scheduled: string := "scheduled"
  const NotFound: string := "Shift not found"

  datatype Shift = Shift(id: Store.Id, date: Instant, startTime: string, endTime: string, department: string, status: string)

  /** The object handed to `create`. */
  datatype ShiftDraft = ShiftDraft(date: Instant, startTime: string, endTime: string, department: string)

  /** The object handed to `update`: a field is supplied when it is Some. */
  datatype ShiftPatch = ShiftPatch(
    id: Option<Store.Id>,
    date: Option<Instant>,
    startTime: Option<string>,
    endTime: Option<string>,
    department: Option<string>,
    status: Option<string>)

  function IdOf(s: Shift): Store.Id { s.id }

  function DateOf(s: Shift): int { s.date }

  /** `getAll`: a copy of the whole array, in store order. */
  function GetAll(data: seq<Shift>): seq<Shift> {
    data
  }

  /** `getById`: the first shift with that id, or None for `null`. */
  function GetById(data: seq<Shift>, id: Store.Id): (r: Option<Shift>)
    ensures r.None? <==> forall j :: 0 <= j < |data| ==> data[j].id != id
    ensures r.Some? ==> r.value.id == id && exists i :: Store.FirstWithId(data, IdOf, id, i) && r.value == data[i]
  {
    Store.GetById(data, IdOf, id)
  }

  /** `create`: append the draft with a new id and status 'scheduled'. */
  function Create(data: seq<Shift>, draft: ShiftDraft, newId: Store.Id): (r: (seq<Shift>, Shift))
    ensures |r.0| == |data| + 1 && r.0[..|data|] == data && r.0[|data|] == r.1
    ensures r.1.id == newId && r.1.status == Scheduled
    ensures r.1.date == draft.date && r.1.startTime == draft.startTime
    ensures r.1.endTime == draft.endTime && r.1.department == draft.department
  {
    var s := Shift(newId, draft.date, draft.startTime, draft.endTime, draft.department, Scheduled);
    (data + [s], s)
  }

  /** `{ ...shift, ...updates }`: supplied fields win, the rest are kept. */
  function Merge(s: Shift, p: ShiftPatch): (r: Shift)
    ensures p.id.Some? ==> r.id == p.id.value
    ensures p.id.None? ==> r.id == s.id
    ensures p.date.Some? ==> r.date == p.date.value
    ensures p.date.None? ==> r.date == s.date
    ensures p.startTime.Some? ==> r.startTime == p.startTime.value
    ensures p.startTime.None? ==> r.startTime == s.startTime
    ensures p.endTime.Some? ==> r.endTime == p.endTime.value
    ensures p.endTime.None? ==> r.endTime == s.endTime
    ensures p.department.Some? ==> r.department == p.department.value
    ensures p.department.None? ==> r.department == s.department
    ensures p.status.Some? ==> r.status == p.status.value
    ensures p.status.None? ==> r.status == s.status
  {
    Shift(
      p.id.GetOr(s.id),
      p.date.GetOr(s.date),
      p.startTime.GetOr(s.startTime),
      p.endTime.GetOr(s.endTime),
      p.department.GetOr(s.department),
      p.status.GetOr(s.status))
  }

  /** `update`: overwrite the supplied fields of the first shift with that id. */
  function Update(data: seq<Shift>, id: Store.Id, patch: ShiftPatch): (r: Result<(seq<Shift>, Shift)>)
    ensures r.Err? <==> forall j :: 0 <= j < |data| ==> data[j].id != id
    ensures r.Err? ==> r.error == NotFound
    ensures r.Ok? ==> exists i :: Store.FirstWithId(data, IdOf, id, i)
                                && Store.ReplacedAt(data, r.value.0, i, r.value.1)
                                && r.value.1 == Merge(data[i], patch)
  {
    Store.Modify(data, IdOf, id, (s: Shift) => Merge(s, patch), NotFound)
  }

  /** `delete`: splice out the first shift with that id. */
  function Delete(data: seq<Shift>, id: Store.Id): (r: Result<seq<Shift>>)
    ensures r.Err? <==> forall j :: 0 <= j < |data| ==> data[j].id != id
    ensures r.Err? ==> r.error == NotFound
    ensures r.Ok? ==> |r.value| == |data| - 1
    ensures r.Ok? ==> exists i :: Store.FirstWithId(data, IdOf, id, i) && Store.RemovedAt(data, r.value, i)
  {
    Store.Delete(data, IdOf, id, NotFound)
  }

  /** The shift has not started before `now` (`new Date(shift.date) >= today`). */
  predicate NotBefore(s: Shift, now: Instant) {
    s.date >= now
  }

  /** `getUpcoming` at instant `now`: every shift dated at or after `now`,
      each as often as it occurs, earliest first. */
  function GetUpcoming(data: seq<Shift>, now: Instant): (r: seq<Shift>)
    ensures forall s :: s in r <==> s in data && s.date >= now
    ensures forall s :: multiset(r)[s] == if s.date >= now then multiset(data)[s] else 0
    ensures SortedBy(r, DateOf)
  {
    var upcoming := Filter(data, (s: Shift) => NotBefore(s, now));
    var r := SortBy(upcoming, DateOf);
    assert forall s :: s in r <==> s in upcoming by {
      forall s ensures s in r <==> s in upcoming {
        assert s in r <==> multiset(r)[s] > 0;
        assert s in upcoming <==> multiset(upcoming)[s] > 0;
      }
    }
    r
  }

  /** Shifts on the same upcoming date come out in the order they are stored. */
  lemma UpcomingKeepsStoreOrder(data: seq<Shift>, now: Instant, d: int)
    requires d >= now
    ensures KeyRun(GetUpcoming(data, now), DateOf, d) == KeyRun(data, DateOf, d)
  {
    var p := (s: Shift) => NotBefore(s, now);
    SortByStable(Filter(data, p), DateOf, d);
    FilterKeyRun(data, p, DateOf, d);
  }
}
