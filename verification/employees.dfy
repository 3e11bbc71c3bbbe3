/** The employee service: an in-memory array of employee records. The only
    property the code reads is `id`; every other property is kept, uninterpreted,
    in `fields`. */
module Employees {
  import opened Wrappers
  import Store

  const NotFound: string := "Employee not found"

  /** An employee record. `fields` holds every property except `id`, which
      is the `id` field: a key "id" in `fields` would stand for nothing. */
  datatype Employee = Employee(id: Store.Id, fields: map<string, string>)

  /** The id is kept only in `id`, never among the other properties. */
  predicate IdOutsideFields(e: Employee) {
    "id" !in e.fields
  }

  /** The object handed to `update`: a new id if supplied, and the properties to overwrite. */
  datatype EmployeePatch = EmployeePatch(id: Option<Store.Id>, fields: map<string, string>)

  function IdOf(e: Employee): Store.Id { e.id }

  /** `getAll`: a copy of the whole array, in store order. */
  function GetAll(data: seq<Employee>): seq<Employee> {
    data
  }

  /** `getById`: the first employee with that id, or None for `null`. */
  function GetById(data: seq<Employee>, id: Store.Id): (r: Option<Employee>)
    ensures r.None? <==> forall j :: 0 <= j < |data| ==> data[j].id != id
    ensures r.Some? ==> r.value.id == id && exists i :: Store.FirstWithId(data, IdOf, id, i) && r.value == data[i]
  {
    Store.GetById(data, IdOf, id)
  }

  /** `getCurrent`: the first employee stands for the signed-in user. */
  function GetCurrent(data: seq<Employee>): (r: Option<Employee>)
    ensures r.None? <==> |data| == 0
    ensures r.Some? ==> r.value == data[0]
  {
    if |data| > 0 then Some(data[0]) else None
  }

  /** `create`: append the given properties under a new id. */
  function Create(data: seq<Employee>, fields: map<string, string>, newId: Store.Id): (r: (seq<Employee>, Employee))
    ensures |r.0| == |data| + 1 && r.0[..|data|] == data && r.0[|data|] == r.1
    ensures r.1.id == newId && r.1.fields == fields
    ensures "id" !in fields ==> IdOutsideFields(r.1)
  {
    var e := Employee(newId, fields);
    (data + [e], e)
  }

  /** `{ ...employee, ...updates }`: supplied properties win, the rest are kept. */
  function Merge(e: Employee, p: EmployeePatch): (r: Employee)
    ensures p.id.Some? ==> r.id == p.id.value
    ensures p.id.None? ==> r.id == e.id
    ensures r.fields.Keys == e.fields.Keys + p.fields.Keys
    ensures forall k :: k in p.fields ==> r.fields[k] == p.fields[k]
    ensures forall k :: k in e.fields && k !in p.fields ==> r.fields[k] == e.fields[k]
    ensures IdOutsideFields(e) && "id" !in p.fields ==> IdOutsideFields(r)
  {
    Employee(p.id.GetOr(e.id), e.fields + p.fields)
  }

  /** `update`: overwrite the supplied properties of the first employee with that id. */
  function Update(data: seq<Employee>, id: Store.Id, patch: EmployeePatch): (r: Result<(seq<Employee>, Employee)>)
    ensures r.Err? <==> forall j :: 0 <= j < |data| ==> data[j].id != id
    ensures r.Err? ==> r.error == NotFound
    ensures r.Ok? ==> exists i :: Store.FirstWithId(data, IdOf, id, i)
                                && Store.ReplacedAt(data, r.value.0, i, r.value.1)
                                && r.value.1 == Merge(data[i], patch)
  {
    Store.Modify(data, IdOf, id, (e: Employee) => Merge(e, patch), NotFound)
  }

  /** `delete`: splice out the first employee with that id. */
  function Delete(data: seq<Employee>, id: Store.Id): (r: Result<seq<Employee>>)
    ensures r.Err? <==> forall j :: 0 <= j < |data| ==> data[j].id != id
    ensures r.Err? ==> r.error == NotFound
    ensures r.Ok? ==> |r.value| == |data| - 1
    ensures r.Ok? ==> exists i :: Store.FirstWithId(data, IdOf, id, i) && Store.RemovedAt(data, r.value, i)
  {
    Store.Delete(data, IdOf, id, NotFound)
  }

  /** A newly created employee becomes the current user exactly when the
      store was empty; deleting the current user of a store with unique ids
      hands the role to the next record. */
  lemma CurrentUserRules(data: seq<Employee>, fields: map<string, string>, newId: Store.Id)
    ensures GetCurrent(Create(data, fields, newId).0) == Some(Create(data, fields, newId).1) <==> |data| == 0 || data[0] == Employee(newId, fields)
    ensures |data| > 0 && Store.UniqueIds(data, IdOf) ==>
              Delete(data, data[0].id).Ok? && GetCurrent(Delete(data, data[0].id).value) == (if |data| > 1 then Some(data[1]) else None)
  {
    if |data| > 0 && Store.UniqueIds(data, IdOf) {
      var d := Delete(data, data[0].id).value;
      var i :| Store.FirstWithId(data, IdOf, data[0].id, i) && Store.RemovedAt(data, d, i);
      assert i == 0;
    }
  }
}
