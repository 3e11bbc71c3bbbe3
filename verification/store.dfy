/** The in-memory record store behind each service: an array of records
    searched by `id` with `findIndex`, overwritten in place and spliced out.
    Every service (time entries, shifts, employees) instantiates it with
    its own record type and `Error` message. */
module Store {
  import opened Wrappers
  import opened Seqs

  /** Record identifiers are the strings `Date.now().toString()` produces. */
  type Id = string

  /** Some record carries `id`. */
  ghost predicate HasId<T>(data: seq<T>, idOf: T -> Id, id: Id) {
    exists j :: 0 <= j < |data| && idOf(data[j]) == id
  }

  /** Position `i` is the first record carrying `id` (what `findIndex` picks). */
  ghost predicate FirstWithId<T>(data: seq<T>, idOf: T -> Id, id: Id, i: int) {
    0 <= i < |data| && idOf(data[i]) == id && forall j :: 0 <= j < i ==> idOf(data[j]) != id
  }

  /** No two records share an id. */
  ghost predicate UniqueIds<T>(data: seq<T>, idOf: T -> Id) {
    forall i, j :: 0 <= i < |data| && 0 <= j < |data| && idOf(data[i]) == idOf(data[j]) ==> i == j
  }

  /** `data'` is `data` with position `i` replaced by `x` and nothing else changed. */
  ghost predicate ReplacedAt<T>(data: seq<T>, data': seq<T>, i: int, x: T) {
    && |data'| == |data|
    && 0 <= i < |data|
    && data'[i] == x
    && forall j :: 0 <= j < |data| && j != i ==> data'[j] == data[j]
  }

  /** `data'` is `data` with exactly position `i` removed. */
  ghost predicate RemovedAt<T>(data: seq<T>, data': seq<T>, i: int) {
    && 0 <= i < |data|
    && |data'| == |data| - 1
    && (forall j :: 0 <= j < i ==> data'[j] == data[j])
    && (forall j :: i <= j < |data'| ==> data'[j] == data[j + 1])
  }

  /** `data.findIndex(item => item.id === id)`, None for -1. */
  function IndexOf<T>(data: seq<T>, idOf: T -> Id, id: Id): (r: Option<nat>)
    ensures r.Some? ==> FirstWithId(data, idOf, id, r.value)
    ensures r.None? <==> !HasId(data, idOf, id)
  {
    var r := FindIndex(data, (x: T) => idOf(x) == id);
    assert r.None? ==> forall j :: 0 <= j < |data| ==> idOf(data[j]) != id;
    r
  }

  /** `getById`: the first record carrying `id`, or None for `null`. */
  function GetById<T>(data: seq<T>, idOf: T -> Id, id: Id): (r: Option<T>)
    ensures r.None? <==> !HasId(data, idOf, id)
    ensures r.Some? ==> exists i :: FirstWithId(data, idOf, id, i) && r.value == data[i]
  {
    match IndexOf(data, idOf, id)
    case None => None
    case Some(i) => Some(data[i])
  }

  /** With unique ids, the record `getById` finds at `i` is exactly `data[i]`. */
  lemma GetByIdUnique<T>(data: seq<T>, idOf: T -> Id, i: nat)
    requires UniqueIds(data, idOf) && i < |data|
    ensures GetById(data, idOf, idOf(data[i])) == Some(data[i])
  {
    var r := GetById(data, idOf, idOf(data[i]));
    var k :| FirstWithId(data, idOf, idOf(data[i]), k) && r.value == data[k];
  }

  /** The common shape of `update`, `clockOut`, `startBreak` and `endBreak`:
      locate the first record carrying `id`, throw `notFound` if there is
      none, otherwise overwrite it with `f` of itself and return the new record. */
  function Modify<T>(data: seq<T>, idOf: T -> Id, id: Id, f: T -> T, notFound: string): (r: Result<(seq<T>, T)>)
    ensures r.Err? <==> !HasId(data, idOf, id)
    ensures r.Err? ==> r.error == notFound
    ensures r.Ok? ==> exists i :: FirstWithId(data, idOf, id, i) && ReplacedAt(data, r.value.0, i, f(data[i])) && r.value.1 == f(data[i])
    ensures GetById(data, idOf, id).Some? ==> r.Ok? && r.value.1 == f(GetById(data, idOf, id).value)
  {
    match IndexOf(data, idOf, id)
    case None => Err(notFound)
    case Some(i) => Ok((data[i := f(data[i])], f(data[i])))
  }

  /** `delete`: splice out the first record carrying `id`, or throw `notFound`. */
  function Delete<T>(data: seq<T>, idOf: T -> Id, id: Id, notFound: string): (r: Result<seq<T>>)
    ensures r.Err? <==> !HasId(data, idOf, id)
    ensures r.Err? ==> r.error == notFound
    ensures r.Ok? ==> exists i :: FirstWithId(data, idOf, id, i) && RemovedAt(data, r.value, i)
  {
    match IndexOf(data, idOf, id)
    case None => Err(notFound)
    case Some(i) => Ok(RemoveAt(data, i))
  }

  /** Deleting one record of a store with unique ids removes exactly that id. */
  lemma {:induction false} DeleteRemovesId<T>(data: seq<T>, idOf: T -> Id, id: Id, notFound: string)
    requires UniqueIds(data, idOf) && HasId(data, idOf, id)
    ensures Delete(data, idOf, id, notFound).Ok?
    ensures !HasId(Delete(data, idOf, id, notFound).value, idOf, id)
    ensures UniqueIds(Delete(data, idOf, id, notFound).value, idOf)
  {
    var d := Delete(data, idOf, id, notFound).value;
    var i :| FirstWithId(data, idOf, id, i) && RemovedAt(data, d, i);
    forall j | 0 <= j < |d|
      ensures idOf(d[j]) != id
    {
      if j >= i {
        assert d[j] == data[j + 1];
      }
    }
    forall a, b | 0 <= a < |d| && 0 <= b < |d| && idOf(d[a]) == idOf(d[b])
      ensures a == b
    {
      var a' := if a < i then a else a + 1;
      var b' := if b < i then b else b + 1;
      assert d[a] == data[a'] && d[b] == data[b'];
    }
  }

  /** Appending a record with a fresh id keeps ids unique and makes it findable. */
  lemma AppendFresh<T>(data: seq<T>, idOf: T -> Id, x: T)
    requires UniqueIds(data, idOf) && !HasId(data, idOf, idOf(x))
    ensures UniqueIds(data + [x], idOf)
    ensures GetById(data + [x], idOf, idOf(x)) == Some(x)
  {
    var d := data + [x];
    assert d[|data|] == x;
    assert forall j :: 0 <= j < |data| ==> d[j] == data[j];
    GetByIdUnique(d, idOf, |data|);
  }

  /** Overwriting a record without changing its id keeps ids unique, and the
      new record is what `getById` then finds. */
  lemma ReplaceKeepsIds<T>(data: seq<T>, data': seq<T>, idOf: T -> Id, i: int, x: T)
    requires UniqueIds(data, idOf) && ReplacedAt(data, data', i, x) && idOf(x) == idOf(data[i])
    ensures UniqueIds(data', idOf)
    ensures forall id :: HasId(data', idOf, id) <==> HasId(data, idOf, id)
    ensures GetById(data', idOf, idOf(x)) == Some(x)
  {
    assert forall j :: 0 <= j < |data| ==> idOf(data'[j]) == idOf(data[j]);
    forall id | HasId(data, idOf, id)
      ensures HasId(data', idOf, id)
    {
      var j :| 0 <= j < |data| && idOf(data[j]) == id;
      assert idOf(data'[j]) == id;
    }
    GetByIdUnique(data', idOf, i);
  }
}
