/** The schedule calendar: the next three shifts, and the shift marked on a
    calendar day. */
module ShiftCalendar {
  import opened Wrappers
  import opened Seqs
  import opened Duration
  import opened Shifts

  /** How many upcoming shifts the panel lists. */
  const UpcomingCount: nat := 3

  /** `getUpcomingShifts` at instant `now`: the shifts not before `now`,
      earliest first, cut to three. */
  function GetUpcomingShifts(shifts: seq<Shift>, now: Instant): (r: seq<Shift>)
    ensures |r| <= UpcomingCount
    ensures forall i :: 0 <= i < |r| ==> r[i].date >= now && r[i] in shifts
    ensures SortedBy(r, DateOf)
    ensures r <= GetUpcoming(shifts, now)
    ensures |r| == UpcomingCount || |r| == |GetUpcoming(shifts, now)|
  {
    var all := GetUpcoming(shifts, now);
    var r := Take(all, UpcomingCount);
    PrefixFacts(all, |r|, now, shifts);
    r
  }

  /** A prefix of the upcoming list is sorted and drawn from the qualifying shifts. */
  lemma PrefixFacts(all: seq<Shift>, n: nat, now: Instant, shifts: seq<Shift>)
    requires n <= |all|
    requires SortedBy(all, DateOf)
    requires forall s :: s in all ==> s in shifts && s.date >= now
    ensures SortedBy(all[..n], DateOf)
    ensures forall i :: 0 <= i < n ==> all[..n][i].date >= now && all[..n][i] in shifts
  {
    forall i | 0 <= i < n
      ensures all[..n][i].date >= now && all[..n][i] in shifts
    {
      assert all[..n][i] == all[i] && all[i] in all;
    }
  }

  /** The three listed are the earliest: a qualifying shift left off the list
      is no earlier than any shift on it. */
  lemma UpcomingAreEarliest(shifts: seq<Shift>, now: Instant)
    ensures var r := GetUpcomingShifts(shifts, now);
            forall x :: x in shifts && x.date >= now && multiset(r)[x] < multiset(shifts)[x] ==>
                          forall i :: 0 <= i < |r| ==> r[i].date <= x.date
  {
    var all := GetUpcoming(shifts, now);
    var r := GetUpcomingShifts(shifts, now);
    var n := |r|;
    assert r == all[..n];
    forall x | x in shifts && x.date >= now && multiset(r)[x] < multiset(shifts)[x]
      ensures forall i :: 0 <= i < |r| ==> r[i].date <= x.date
    {
      assert multiset(all)[x] == multiset(shifts)[x];
      var j := LeftOverIsLater(all, n, x);
      SortedPrefixBelow(all, n, j);
    }
  }

  /** An element occurring more often in `all` than in its first `n` places
      occurs at some later place. */
  lemma LeftOverIsLater(all: seq<Shift>, n: nat, x: Shift) returns (j: nat)
    requires n <= |all| && multiset(all[..n])[x] < multiset(all)[x]
    ensures n <= j < |all| && all[j] == x
  {
    assert all == all[..n] + all[n..];
    assert multiset(all) == multiset(all[..n]) + multiset(all[n..]);
    assert x in all[n..];
    var k :| 0 <= k < |all[n..]| && all[n..][k] == x;
    j := n + k;
  }

  /** In a sorted list every place before `j` has an earlier or equal date. */
  lemma SortedPrefixBelow(all: seq<Shift>, n: nat, j: nat)
    requires SortedBy(all, DateOf) && n <= j < |all|
    ensures forall i :: 0 <= i < n ==> all[..n][i].date <= all[j].date
  {
    forall i | 0 <= i < n
      ensures all[..n][i].date <= all[j].date
    {
      assert all[..n][i] == all[i];
      assert DateOf(all[i]) <= DateOf(all[j]);
    }
  }

  /** `getShiftForDay(day)`: the first shift, in list order, on the same
      calendar day as `day`; `dayOf` is the local calendar day of an
      instant, as `isSameDay` compares them. */
  function GetShiftForDay(shifts: seq<Shift>, day: Instant, dayOf: Instant -> int): (r: Option<Shift>)
    ensures r.None? <==> forall j :: 0 <= j < |shifts| ==> dayOf(shifts[j].date) != dayOf(day)
    ensures r.Some? ==> exists i :: 0 <= i < |shifts| && shifts[i] == r.value && dayOf(r.value.date) == dayOf(day)
                                    && forall j :: 0 <= j < i ==> dayOf(shifts[j].date) != dayOf(day)
  {
    var p := (s: Shift) => dayOf(s.date) == dayOf(day);
    var r := Find(shifts, p);
    assert r.Some? ==> exists i :: IsFirst(shifts, p, i) && r.value == shifts[i];
    r
  }
}
