/** The `Location` entity and the query `LocationRepository` adds to the
    shared repository: lookup by name. */
module Locations {
  import opened Common
  import opened Table

  /** The columns of `tbl_locations` besides id, flags and creation time. */
  datatype LocationData = LocationData(name: string, capacity: int)

  /** The location columns of a `Partial<Location>`. */
  datatype LocationFields = LocationFields(name: Option<string>, capacity: Option<int>)

  /** Every supplied field has the supplied value. */
  predicate Matches(d: LocationData, p: LocationFields) {
    && (p.name.Some? ==> d.name == p.name.value)
    && (p.capacity.Some? ==> d.capacity == p.capacity.value)
  }

  /** The columns after `UPDATE ... SET` with the supplied fields. */
  function Merge(d: LocationData, p: LocationFields): (r: LocationData)
    ensures Matches(r, p)
    ensures Matches(d, p) ==> r == d
    ensures p.name.None? ==> r.name == d.name
    ensures p.capacity.None? ==> r.capacity == d.capacity
  {
    LocationData(p.name.GetOr(d.name), p.capacity.GetOr(d.capacity))
  }

  /** The `Partial<Location>` of an update. */
  function Changes(p: LocationFields, isActive: Option<bool>, deleted: Option<bool>): Patch<LocationData> {
    Patch((d: LocationData) => Merge(d, p), isActive, deleted)
  }

  /** The `Partial<Location>` of a `find({ where })` or `count({ where })`. */
  function Criterion(p: LocationFields, isActive: Option<bool>, deleted: Option<bool>): Criteria<LocationData> {
    Criteria((d: LocationData) => Matches(d, p), isActive, deleted)
  }

  /** `findByCriteria` and `count` with a partial location select exactly the rows
      that agree with every supplied column and flag. */
  lemma CriterionSelects(rows: seq<Row<LocationData>>, p: LocationFields, isActive: Option<bool>, deleted: Option<bool>)
    ensures forall x :: x in Matching(rows, Criterion(p, isActive, deleted)) <==>
              && x in rows
              && Matches(x.fields, p)
              && (isActive.Some? ==> x.isActive == isActive.value)
              && (deleted.Some? ==> x.deleted == deleted.value)
    ensures Count(rows, Some(Criterion(p, isActive, deleted))) == |Matching(rows, Criterion(p, isActive, deleted))|
  {
  }

  /** The `where: { name }` of `findByName`. */
  function NameIs(name: string): Row<LocationData> -> bool {
    (x: Row<LocationData>) => x.fields.name == name
  }

  /** `findByName(name)`: some location with that name, deleted or not, or
      null when there is none. */
  function FindByName(rows: seq<Row<LocationData>>, name: string): (r: Option<Row<LocationData>>)
    ensures r.Some? <==> exists i :: 0 <= i < |rows| && rows[i].fields.name == name
    ensures r.Some? ==> r.value in rows && r.value.fields.name == name
  {
    FindFirst(rows, NameIs(name))
  }

  /** Adding a location under a name no location has makes `findByName`
      find exactly that location. */
  lemma FindByNameAppended(rows: seq<Row<LocationData>>, x: Row<LocationData>)
    requires FindByName(rows, x.fields.name).None?
    ensures FindByName(rows + [x], x.fields.name) == Some(x)
  {
    FindFirstAppended(rows, x, NameIs(x.fields.name));
  }

  /** `update` does not check names: renaming one location to the name of
      another leaves two locations with that name. */
  lemma UpdateMayDuplicateName(rows: seq<Row<LocationData>>, i: int, j: int)
    requires UniqueIds(rows)
    requires 0 <= i < |rows| && 0 <= j < |rows| && i != j
    ensures var after := Updated(rows, rows[j].id, Changes(LocationFields(Some(rows[i].fields.name), None), None, None));
            && after[i].fields.name == rows[i].fields.name
            && after[j].fields.name == rows[i].fields.name
            && after[i].id != after[j].id
  {
  }
}
