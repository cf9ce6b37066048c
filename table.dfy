/** The rows of one table and the queries and single-statement updates the
    repositories run against it. A table is the sequence of its rows in
    primary-key order, which is also the order in which they were inserted.
    The database promises no order for an unordered `find()`; the model
    returns table order, and no contract depends on that choice. */
module Table {
  import opened Common

  /** A stored row: the columns every entity has, and the entity's own columns. */
  datatype Row<D> = Row(id: int, fields: D, isActive: bool, deleted: bool, createdAt: int)

  /** A `Partial<T>` handed to `update`: a change to the entity's own columns
      (the entity module writes it from the supplied fields) and, optionally,
      new values for the two flags. */
  datatype Patch<!D> = Patch(fields: D -> D, isActive: Option<bool>, deleted: Option<bool>)

  /** A `Partial<T>` handed to `find({ where })` or `count({ where })`. */
  datatype Criteria<!D> = Criteria(fields: D -> bool, isActive: Option<bool>, deleted: Option<bool>)

  /** The row as `UPDATE ... SET` leaves it. */
  function Apply<D(!new)>(r: Row<D>, p: Patch<D>): Row<D> {
    r.(fields := p.fields(r.fields),
       isActive := p.isActive.GetOr(r.isActive),
       deleted := p.deleted.GetOr(r.deleted))
  }

  /** The row satisfies the `WHERE` clause built from the criteria. */
  predicate Holds<D(!new)>(r: Row<D>, c: Criteria<D>) {
    && c.fields(r.fields)
    && (c.isActive.Some? ==> r.isActive == c.isActive.value)
    && (c.deleted.Some? ==> r.deleted == c.deleted.value)
  }

  /** `{ deleted: true }`, what `softDelete` writes. */
  function SoftDeletion<D(!new)>(): Patch<D> {
    Patch((d: D) => d, None, Some(true))
  }

  /** `{ isActive: true }` or `{ isActive: false }`, what `activate` and `deactivate` write. */
  function Activation<D(!new)>(active: bool): Patch<D> {
    Patch((d: D) => d, Some(active), None)
  }

  /** `{ deleted: false }`, the criteria of every default listing and count. */
  function Undeleted<D(!new)>(): Criteria<D> {
    Criteria((d: D) => true, None, Some(false))
  }

  /** `{ isActive: true, deleted: false }`, the criteria of `findActive`. */
  function LiveCriteria<D(!new)>(): Criteria<D> {
    Criteria((d: D) => true, Some(true), Some(false))
  }

  /** Active and not soft-deleted. */
  predicate Live<D(!new)>(r: Row<D>) {
    r.isActive && !r.deleted
  }

  /** No two rows share an id: the primary-key constraint. */
  ghost predicate UniqueIds<D(!new)>(rows: seq<Row<D>>) {
    forall i, j :: 0 <= i < j < |rows| ==> rows[i].id != rows[j].id
  }

  /** Ids strictly increase along the table. */
  ghost predicate Ascending<D(!new)>(rows: seq<Row<D>>) {
    forall i, j :: 0 <= i < j < |rows| ==> rows[i].id < rows[j].id
  }

  /** The table of a generated primary key: ids are positive, strictly
      increasing, and below the next id the sequence will hand out. */
  ghost predicate Keyed<D(!new)>(rows: seq<Row<D>>, nextId: int) {
    && nextId >= 1
    && Ascending(rows)
    && forall i :: 0 <= i < |rows| ==> 1 <= rows[i].id < nextId
  }

  lemma AscendingUnique<D(!new)>(rows: seq<Row<D>>)
    requires Ascending(rows)
    ensures UniqueIds(rows)
  {
  }

  function Min(a: int, b: int): int { if a <= b then a else b }

  function Max(a: int, b: int): int { if a >= b then a else b }

  // ---------------------------------------------------------------------------
  // Queries

  /** `findOne({ where })`: the first row in table order that satisfies `p`. */
  function FindFirst<D(!new)>(rows: seq<Row<D>>, p: Row<D> -> bool): (r: Option<Row<D>>)
    ensures r.Some? <==> exists i :: 0 <= i < |rows| && p(rows[i])
    ensures r.Some? ==> r.value in rows && p(r.value)
  {
    if rows == [] then None
    else if p(rows[0]) then Some(rows[0])
    else
      var r := FindFirst(rows[1..], p);
      assert forall i :: 1 <= i < |rows| ==> rows[i] == rows[1..][i - 1];
      r
  }

  /** `findOneBy({ id })`: deleted rows are found like any other. */
  function FindById<D(!new)>(rows: seq<Row<D>>, id: int): (r: Option<Row<D>>)
    ensures r.Some? <==> exists i :: 0 <= i < |rows| && rows[i].id == id
    ensures r.Some? ==> r.value in rows && r.value.id == id
  {
    FindFirst(rows, (x: Row<D>) => x.id == id)
  }

  /** `find({ where })` with a row predicate: the rows that satisfy it, in table order. */
  function Where<D(!new)>(rows: seq<Row<D>>, keep: Row<D> -> bool): (r: seq<Row<D>>)
    ensures |r| <= |rows|
    ensures forall x :: x in r <==> x in rows && keep(x)
    ensures forall x :: multiset(r)[x] == if keep(x) then multiset(rows)[x] else 0
  {
    if rows == [] then []
    else
      var rest := Where(rows[1..], keep);
      assert rows == [rows[0]] + rows[1..];
      if keep(rows[0]) then [rows[0]] + rest else rest
  }

  /** The number of rows that satisfy `keep`, counted one row at a time. */
  ghost function Tally<D(!new)>(rows: seq<Row<D>>, keep: Row<D> -> bool): nat {
    if rows == [] then 0
    else (if keep(rows[0]) then 1 else 0) + Tally(rows[1..], keep)
  }

  /** A filter keeps as many rows as satisfy its condition. */
  lemma {:induction false} WhereTally<D(!new)>(rows: seq<Row<D>>, keep: Row<D> -> bool)
    ensures |Where(rows, keep)| == Tally(rows, keep)
  {
    if rows != [] {
      WhereTally(rows[1..], keep);
    }
  }

  /** The `WHERE` clause of the criteria as a condition on rows. */
  function Satisfies<D(!new)>(c: Criteria<D>): Row<D> -> bool {
    (x: Row<D>) => Holds(x, c)
  }

  /** `find({ where: criteria })`: the rows that meet the criteria, each as
      often as the table holds it, and as many as meet them. */
  function Matching<D(!new)>(rows: seq<Row<D>>, c: Criteria<D>): (r: seq<Row<D>>)
    ensures forall x :: x in r <==> x in rows && Holds(x, c)
    ensures forall x :: multiset(r)[x] == if Holds(x, c) then multiset(rows)[x] else 0
    ensures |r| == Tally(rows, Satisfies(c))
  {
    WhereTally(rows, Satisfies(c));
    Where(rows, Satisfies(c))
  }

  /** `count({ where: criteria })`: the number of rows meeting the criteria;
      with no criteria every row is counted. */
  function Count<D(!new)>(rows: seq<Row<D>>, c: Option<Criteria<D>>): (n: nat)
    ensures c.None? ==> n == |rows|
    ensures c.Some? ==> n == Tally(rows, Satisfies(c.value))
    ensures n <= |rows|
  {
    match c
    case None => |rows|
    case Some(c) => |Matching(rows, c)|
  }

  /** The rows a default listing sees: those with `deleted = false`, each as
      often as the table holds it. */
  function NotDeleted<D(!new)>(rows: seq<Row<D>>): (r: seq<Row<D>>)
    ensures forall x :: x in r <==> x in rows && !x.deleted
    ensures forall x :: multiset(r)[x] == if !x.deleted then multiset(rows)[x] else 0
    ensures |r| == Tally(rows, Satisfies(Undeleted()))
  {
    Matching(rows, Undeleted())
  }

  /** `findActive`: the rows with `isActive = true` and `deleted = false`. */
  function FindActive<D(!new)>(rows: seq<Row<D>>): (r: seq<Row<D>>)
    ensures forall x :: x in r <==> x in rows && Live(x)
    ensures forall x :: multiset(r)[x] == if Live(x) then multiset(rows)[x] else 0
  {
    Matching(rows, LiveCriteria())
  }

  // ---------------------------------------------------------------------------
  // Ordering by `createdAt` descending

  ghost predicate NewestFirst<D(!new)>(s: seq<Row<D>>) {
    forall i, j :: 0 <= i < j < |s| ==> s[i].createdAt >= s[j].createdAt
  }

  /** Puts `x` before the first row that is not newer than it. */
  function InsertByAge<D(!new)>(x: Row<D>, s: seq<Row<D>>): (r: seq<Row<D>>)
    requires NewestFirst(s)
    ensures NewestFirst(r)
    ensures multiset(r) == multiset(s) + multiset{x}
  {
    if s == [] || x.createdAt >= s[0].createdAt then
      NewestFirstCons(x, s);
      [x] + s
    else
      var u := s[1..];
      assert NewestFirst(u) by {
        forall i, j | 0 <= i < j < |u| ensures u[i].createdAt >= u[j].createdAt {
          assert u[i] == s[i + 1] && u[j] == s[j + 1];
        }
      }
      var t := InsertByAge(x, u);
      assert s == [s[0]] + u;
      assert forall k :: 0 <= k < |u| ==> u[k] == s[k + 1];
      NoNewerThan(s[0], u, x, t);
      [s[0]] + t
  }

  /** A row no older than the head of a newest-first list may go in front of it. */
  lemma NewestFirstCons<D(!new)>(x: Row<D>, s: seq<Row<D>>)
    requires NewestFirst(s)
    requires s == [] || x.createdAt >= s[0].createdAt
    ensures NewestFirst([x] + s)
  {
    var r := [x] + s;
    forall i, j | 0 <= i < j < |r| ensures r[i].createdAt >= r[j].createdAt {
      assert r[j] == s[j - 1];
      if i > 0 {
        assert r[i] == s[i - 1];
      } else if j > 1 {
        assert s[0].createdAt >= s[j - 1].createdAt;
      }
    }
  }

  /** If `t` holds the rows of `u` and `x`, none of them newer than `y`, then
      `y` may stand in front of `t`. */
  lemma NoNewerThan<D(!new)>(y: Row<D>, u: seq<Row<D>>, x: Row<D>, t: seq<Row<D>>)
    requires NewestFirst(t)
    requires multiset(t) == multiset(u) + multiset{x}
    requires x.createdAt <= y.createdAt
    requires forall k :: 0 <= k < |u| ==> u[k].createdAt <= y.createdAt
    ensures NewestFirst([y] + t)
  {
    forall k | 0 <= k < |t| ensures t[k].createdAt <= y.createdAt {
      assert t[k] in multiset(t);
      if t[k] != x {
        assert t[k] in multiset(u);
        var j :| 0 <= j < |u| && u[j] == t[k];
      }
    }
  }

  /** The rows ordered by `createdAt` descending; rows created at the same
      instant keep their table order. */
  function ByAge<D(!new)>(s: seq<Row<D>>): (r: seq<Row<D>>)
    ensures NewestFirst(r)
    ensures multiset(r) == multiset(s)
  {
    if s == [] then []
    else
      assert s == [s[0]] + s[1..];
      InsertByAge(s[0], ByAge(s[1..]))
  }

  /** What `getPaginated` pages through: the rows with `deleted = false`, newest first. */
  function Listing<D(!new)>(rows: seq<Row<D>>): (r: seq<Row<D>>)
    ensures NewestFirst(r)
    ensures multiset(r) == multiset(NotDeleted(rows))
    ensures |r| == |NotDeleted(rows)|
    ensures forall x :: x in r <==> x in rows && !x.deleted
  {
    var r := ByAge(NotDeleted(rows));
    assert |multiset(r)| == |multiset(NotDeleted(rows))|;
    assert forall x :: x in r <==> x in multiset(NotDeleted(rows));
    r
  }

  /** `skip: offset, take: limit` on a list: the part from position
      `offset` on, at most `limit` long. */
  function Window<D(!new)>(s: seq<Row<D>>, limit: nat, offset: nat): (r: seq<Row<D>>)
    ensures |r| == Min(limit, Max(0, |s| - offset))
    ensures forall i :: 0 <= i < |r| ==> r[i] == s[offset + i]
    ensures forall x :: x in r ==> x in s
    ensures NewestFirst(s) ==> NewestFirst(r)
  {
    var lo := Min(offset, |s|);
    var hi := Min(offset + limit, |s|);
    var r := s[lo..hi];
    assert forall x :: x in r ==> x in s;
    r
  }

  /** `getPaginated(limit, offset)`: rejects a limit below one or a negative
      offset before reading; otherwise skips `offset` rows of the listing and
      takes at most `limit`. */
  function Page<D(!new)>(rows: seq<Row<D>>, limit: int, offset: int): (r: Result<seq<Row<D>>>)
    ensures r.Err? <==> limit < 1 || offset < 0
    ensures r.Err? ==> r.error == InvalidPaginationParameters
    ensures r.Ok? ==> |r.value| == Min(limit, Max(0, |NotDeleted(rows)| - offset))
    ensures r.Ok? ==> forall i :: 0 <= i < |r.value| ==> r.value[i] == Listing(rows)[offset + i]
    ensures r.Ok? ==> NewestFirst(r.value)
    ensures r.Ok? ==> forall x :: x in r.value ==> x in rows && !x.deleted
  {
    if limit < 1 || offset < 0 then Err(InvalidPaginationParameters)
    else Ok(Window(Listing(rows), limit, offset))
  }

  // ---------------------------------------------------------------------------
  // Single-statement writes

  /** `UPDATE ... SET patch WHERE id = :id`: every row with that id is
      patched, every other row is left as it was; no row is added or removed. */
  function Updated<D(!new)>(rows: seq<Row<D>>, id: int, p: Patch<D>): (r: seq<Row<D>>)
    ensures |r| == |rows|
  {
    seq(|rows|, i requires 0 <= i < |rows| => if rows[i].id == id then Apply(rows[i], p) else rows[i])
  }

  /** `DELETE ... WHERE id = :id`. */
  function Removed<D(!new)>(rows: seq<Row<D>>, id: int): (r: seq<Row<D>>)
    ensures forall x :: x in r <==> x in rows && x.id != id
  {
    Where(rows, (x: Row<D>) => x.id != id)
  }

  // ---------------------------------------------------------------------------
  // Lemmas

  /** In a table without duplicate ids, looking a row's id up returns that row. */
  lemma FindByIdReturnsRow<D(!new)>(rows: seq<Row<D>>, i: int)
    requires UniqueIds(rows)
    requires 0 <= i < |rows|
    ensures FindById(rows, rows[i].id) == Some(rows[i])
  {
    var r := FindById(rows, rows[i].id);
    var j :| 0 <= j < |rows| && rows[j] == r.value;
  }

  /** Appending a row that satisfies `p` to a table with no such row makes
      `findOne` return it. */
  lemma {:induction false} FindFirstAppended<D(!new)>(rows: seq<Row<D>>, x: Row<D>, p: Row<D> -> bool)
    requires forall i :: 0 <= i < |rows| ==> !p(rows[i])
    ensures FindFirst(rows + [x], p) == if p(x) then Some(x) else None
  {
    if rows != [] {
      assert (rows + [x])[1..] == rows[1..] + [x];
      FindFirstAppended(rows[1..], x, p);
    }
  }

  /** An update reaches exactly the row with the given id: looking up that id
      afterwards gives the patched row, looking up any other id gives what it
      gave before. */
  lemma {:induction false} FindByIdAfterUpdate<D(!new)>(rows: seq<Row<D>>, id: int, p: Patch<D>, k: int)
    ensures FindById(Updated(rows, id, p), k) ==
              if k == id && FindById(rows, k).Some? then Some(Apply(FindById(rows, k).value, p))
              else FindById(rows, k)
  {
    if rows != [] {
      assert Updated(rows, id, p)[1..] == Updated(rows[1..], id, p);
      FindByIdAfterUpdate(rows[1..], id, p, k);
    }
  }

  /** An update whose change to the entity's columns is idempotent is
      idempotent itself: running it twice leaves the table as running it once. */
  lemma UpdateTwice<D(!new)>(rows: seq<Row<D>>, id: int, p: Patch<D>)
    requires forall d :: p.fields(p.fields(d)) == p.fields(d)
    ensures Updated(Updated(rows, id, p), id, p) == Updated(rows, id, p)
  {
    var once := Updated(rows, id, p);
    forall i | 0 <= i < |rows|
      ensures Updated(once, id, p)[i] == once[i]
    {
      if rows[i].id == id {
        assert p.fields(p.fields(rows[i].fields)) == p.fields(rows[i].fields);
      }
    }
  }

  /** Soft delete: afterwards the row is still found by id, with `deleted`
      set and every other column as before, it is gone from the default
      listing, and no other row has changed. */
  lemma SoftDeleteEffect<D(!new)>(rows: seq<Row<D>>, id: int)
    ensures FindById(Updated(rows, id, SoftDeletion()), id) ==
              if FindById(rows, id).Some? then Some(FindById(rows, id).value.(deleted := true)) else None
    ensures forall x :: x in NotDeleted(Updated(rows, id, SoftDeletion())) ==> x.id != id
    ensures forall i :: 0 <= i < |rows| && rows[i].id != id ==> Updated(rows, id, SoftDeletion())[i] == rows[i]
    ensures Updated(Updated(rows, id, SoftDeletion()), id, SoftDeletion()) == Updated(rows, id, SoftDeletion())
  {
    FindByIdAfterUpdate(rows, id, SoftDeletion(), id);
    UpdateTwice(rows, id, SoftDeletion());
  }

  /** Activation: only `isActive` of the row with that id changes (in
      particular `deleted` does not), and doing it twice is doing it once. */
  lemma ActivationEffect<D(!new)>(rows: seq<Row<D>>, id: int, active: bool)
    ensures FindById(Updated(rows, id, Activation(active)), id) ==
              if FindById(rows, id).Some? then Some(FindById(rows, id).value.(isActive := active)) else None
    ensures forall i :: 0 <= i < |rows| ==>
              Updated(rows, id, Activation(active))[i] == if rows[i].id == id then rows[i].(isActive := active) else rows[i]
    ensures Updated(Updated(rows, id, Activation(active)), id, Activation(active)) == Updated(rows, id, Activation(active))
  {
    FindByIdAfterUpdate(rows, id, Activation(active), id);
    UpdateTwice(rows, id, Activation(active));
  }

  /** Putting a row with a smaller id in front of an ascending table keeps it ascending. */
  lemma AscendingCons<D(!new)>(x: Row<D>, s: seq<Row<D>>)
    requires Ascending(s)
    requires forall y :: y in s ==> x.id < y.id
    ensures Ascending([x] + s)
  {
    var r := [x] + s;
    forall i, j | 0 <= i < j < |r| ensures r[i].id < r[j].id {
      assert r[j] == s[j - 1];
      if i > 0 {
        assert r[i] == s[i - 1];
      }
    }
  }

  /** Keeping some rows of a table keeps its ids increasing. */
  lemma {:induction false} WhereAscending<D(!new)>(rows: seq<Row<D>>, keep: Row<D> -> bool)
    requires Ascending(rows)
    ensures Ascending(Where(rows, keep))
  {
    if rows != [] {
      var tail := rows[1..];
      WhereAscending(tail, keep);
      var rest := Where(tail, keep);
      if keep(rows[0]) {
        forall y | y in rest ensures rows[0].id < y.id {
          var j :| 0 <= j < |tail| && tail[j] == y;
          assert y == rows[j + 1];
        }
        AscendingCons(rows[0], rest);
      }
    }
  }

  /** A hard delete leaves a keyed table keyed, without the row. */
  lemma RemovedKeyed<D(!new)>(rows: seq<Row<D>>, nextId: int, id: int)
    requires Keyed(rows, nextId)
    ensures Keyed(Removed(rows, id), nextId)
    ensures FindById(Removed(rows, id), id).None?
  {
    WhereAscending(rows, (x: Row<D>) => x.id != id);
    var r := Removed(rows, id);
    forall i | 0 <= i < |r| ensures 1 <= r[i].id < nextId {
      assert r[i] in rows;
    }
  }
}
