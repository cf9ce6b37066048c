/** The part the three repositories share. `EventRepository`,
    `LocationRepository` and `EventLocationRepository` write their tables the
    same way (`create`, `update`, `delete`, `softDelete`, `activate`,
    `deactivate`) and select the same rows in `findAll`, `findById`,
    `findByCriteria` and `count`; this class is that shared part over any
    columns. It owns one table and the counter the database uses to hand out
    primary keys. The queries a repository adds, and the event repository's
    own `getPaginated`, live in the entity modules. */
module Repositories {
  import opened Common
  import opened Table

  class Repository<D(!new)> {
    /** Which table this is; it names the entity in "not found" errors. */
    const entity: Entity
    var rows: seq<Row<D>>
    var nextId: int

    ghost predicate Valid()
      reads this
    {
      Keyed(rows, nextId)
    }

    constructor (entity: Entity)
      ensures Valid()
      ensures this.entity == entity && rows == [] && nextId == 1
    {
      this.entity := entity;
      rows := [];
      nextId := 1;
    }

    /** `getPaginated(limit, offset)` of the location and event-location
        repositories: the page itself. The event repository wraps the page
        in a record; that is `Events.GetPaginated`. */
    function GetPaginated(limit: int, offset: int): (r: Result<seq<Row<D>>>)
      reads this
      ensures r.Err? <==> limit < 1 || offset < 0
      ensures r.Err? ==> r.error == InvalidPaginationParameters
      ensures r.Ok? ==> |r.value| == Min(limit, Max(0, |NotDeleted(rows)| - offset))
      ensures r.Ok? ==> forall i :: 0 <= i < |r.value| ==> r.value[i] == Listing(rows)[offset + i]
      ensures r.Ok? ==> NewestFirst(r.value)
      ensures r.Ok? ==> forall x :: x in r.value ==> x in rows && !x.deleted
    {
      Page(rows, limit, offset)
    }

    /** `findAll()`: every row, soft-deleted and inactive ones included. */
    function FindAll(): (r: seq<Row<D>>)
      reads this
      ensures |r| == |rows| && forall i :: 0 <= i < |r| ==> r[i] == rows[i]
      ensures forall x :: x in rows && x.deleted ==> x in r
    {
      rows
    }

    /** `findById(id)`: the row with that id whatever its flags, or "not found". */
    function FindById(id: int): (r: Result<Row<D>>)
      reads this
      ensures r.Ok? <==> exists i :: 0 <= i < |rows| && rows[i].id == id
      ensures r.Ok? ==> r.value in rows && r.value.id == id
      ensures r.Err? ==> r.error == NotFound(entity, id)
    {
      match Table.FindById(rows, id)
      case Some(row) => Ok(row)
      case None => Err(NotFound(entity, id))
    }

    /** `findByCriteria(criteria)`: the rows meeting the criteria, each once
        per occurrence in the table. */
    function FindByCriteria(c: Criteria<D>): (r: seq<Row<D>>)
      reads this
      ensures forall x :: x in r <==> x in rows && Holds(x, c)
      ensures forall x :: multiset(r)[x] == if Holds(x, c) then multiset(rows)[x] else 0
    {
      Matching(rows, c)
    }

    /** `count(criteria?)`: the number of rows meeting the criteria, or of
        all rows when none are given. */
    function Count(c: Option<Criteria<D>>): (n: nat)
      reads this
      ensures c.None? ==> n == |rows|
      ensures c.Some? ==> n == Tally(rows, Satisfies(c.value)) == |FindByCriteria(c.value)|
    {
      Table.Count(rows, c)
    }

    /** `findActive()` of the event and location repositories: the rows that
        are active and not deleted. The event-location repository has no
        such query. */
    function FindActive(): (r: seq<Row<D>>)
      reads this
      ensures forall x :: x in r <==> x in rows && Live(x)
      ensures forall x :: multiset(r)[x] == if Live(x) then multiset(rows)[x] else 0
    {
      Table.FindActive(rows)
    }

    /** `create(entity)` then `save`: inserts one row under the next id,
        stamped `now`; the flags take their column defaults (active, not
        deleted) unless the partial entity supplies them. */
    method Create(fields: D, isActive: Option<bool>, deleted: Option<bool>, now: int) returns (row: Row<D>)
      requires Valid()
      modifies this
      ensures Valid()
      ensures row == Row(old(nextId), fields, isActive.GetOr(true), deleted.GetOr(false), now)
      ensures rows == old(rows) + [row] && nextId == old(nextId) + 1
      ensures FindById(row.id) == Ok(row)
    {
      row := Row(nextId, fields, isActive.GetOr(true), deleted.GetOr(false), now);
      assert forall i :: 0 <= i < |rows| ==> rows[i].id < row.id;
      rows := rows + [row];
      nextId := nextId + 1;
      AscendingUnique(rows);
      FindByIdReturnsRow(rows, |rows| - 1);
    }

    /** `update(id, entity)`: writes the supplied columns into the row with
        that id (none if there is no such row), then reads the row back, which
        fails with "not found" when the id is absent. */
    method Update(id: int, patch: Patch<D>) returns (r: Result<Row<D>>)
      requires Valid()
      modifies this`rows
      ensures Valid()
      ensures rows == Updated(old(rows), id, patch)
      ensures r == FindById(id)
      ensures r.Err? <==> Table.FindById(old(rows), id).None?
      ensures r.Ok? ==> r.value == Apply(Table.FindById(old(rows), id).value, patch)
    {
      rows := Updated(rows, id, patch);
      FindByIdAfterUpdate(old(rows), id, patch, id);
      r := FindById(id);
    }

    /** `delete(id)`: removes the row with that id; returns how many rows went. */
    method Delete(id: int) returns (affected: nat)
      requires Valid()
      modifies this`rows
      ensures Valid()
      ensures rows == Removed(old(rows), id)
      ensures Table.FindById(rows, id).None?
      ensures affected == |old(rows)| - |rows|
    {
      var before := rows;
      RemovedKeyed(rows, nextId, id);
      rows := Removed(rows, id);
      affected := |before| - |rows|;
    }

    /** `softDelete(id)`: `update(id, { deleted: true })`, nothing read back. */
    method SoftDelete(id: int)
      requires Valid()
      modifies this`rows
      ensures Valid()
      ensures rows == Updated(old(rows), id, SoftDeletion())
    {
      rows := Updated(rows, id, SoftDeletion());
    }

    /** `activate(id)`: `update(id, { isActive: true })`. */
    method Activate(id: int)
      requires Valid()
      modifies this`rows
      ensures Valid()
      ensures rows == Updated(old(rows), id, Activation(true))
    {
      rows := Updated(rows, id, Activation(true));
    }

    /** `deactivate(id)`: `update(id, { isActive: false })`. */
    method Deactivate(id: int)
      requires Valid()
      modifies this`rows
      ensures Valid()
      ensures rows == Updated(old(rows), id, Activation(false))
    {
      rows := Updated(rows, id, Activation(false));
    }
  }
}
