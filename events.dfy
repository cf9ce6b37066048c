/** The `Event` entity and the queries `EventRepository` adds to the shared
    repository: lookup by name, by start date and by sale start, and a
    `getPaginated` that answers with a record rather than a bare page. */
module Events {
  import opened Common
  import opened Table

  /** The columns of `tbl_events` besides id, flags and creation time.
      Instants are whole numbers on one clock. */
  datatype EventData = EventData(
    name: string,
    description: string,
    startDate: int,
    endDate: int,
    saleStart: int,
    saleEnd: int)

  /** The event columns of a `Partial<Event>`: each one supplied or not. */
  datatype EventFields = EventFields(
    name: Option<string>,
    description: Option<string>,
    startDate: Option<int>,
    endDate: Option<int>,
    saleStart: Option<int>,
    saleEnd: Option<int>)

  /** Every supplied field has the supplied value. */
  predicate Matches(d: EventData, p: EventFields) {
    && (p.name.Some? ==> d.name == p.name.value)
    && (p.description.Some? ==> d.description == p.description.value)
    && (p.startDate.Some? ==> d.startDate == p.startDate.value)
    && (p.endDate.Some? ==> d.endDate == p.endDate.value)
    && (p.saleStart.Some? ==> d.saleStart == p.saleStart.value)
    && (p.saleEnd.Some? ==> d.saleEnd == p.saleEnd.value)
  }

  /** The columns after `UPDATE ... SET` with the supplied fields. */
  function Merge(d: EventData, p: EventFields): (r: EventData)
    ensures Matches(r, p)
    ensures Matches(d, p) ==> r == d
    ensures p.name.None? ==> r.name == d.name
    ensures p.description.None? ==> r.description == d.description
    ensures p.startDate.None? ==> r.startDate == d.startDate
    ensures p.endDate.None? ==> r.endDate == d.endDate
    ensures p.saleStart.None? ==> r.saleStart == d.saleStart
    ensures p.saleEnd.None? ==> r.saleEnd == d.saleEnd
  {
    EventData(
      p.name.GetOr(d.name),
      p.description.GetOr(d.description),
      p.startDate.GetOr(d.startDate),
      p.endDate.GetOr(d.endDate),
      p.saleStart.GetOr(d.saleStart),
      p.saleEnd.GetOr(d.saleEnd))
  }

  /** The `Partial<Event>` of an update. */
  function Changes(p: EventFields, isActive: Option<bool>, deleted: Option<bool>): Patch<EventData> {
    Patch((d: EventData) => Merge(d, p), isActive, deleted)
  }

  /** The `Partial<Event>` of a `find({ where })` or `count({ where })`. */
  function Criterion(p: EventFields, isActive: Option<bool>, deleted: Option<bool>): Criteria<EventData> {
    Criteria((d: EventData) => Matches(d, p), isActive, deleted)
  }

  /** `findByCriteria` and `count` with a partial event select exactly the rows
      that agree with every supplied column and flag. */
  lemma CriterionSelects(rows: seq<Row<EventData>>, p: EventFields, isActive: Option<bool>, deleted: Option<bool>)
    ensures forall x :: x in Matching(rows, Criterion(p, isActive, deleted)) <==>
              && x in rows
              && Matches(x.fields, p)
              && (isActive.Some? ==> x.isActive == isActive.value)
              && (deleted.Some? ==> x.deleted == deleted.value)
    ensures Count(rows, Some(Criterion(p, isActive, deleted))) == |Matching(rows, Criterion(p, isActive, deleted))|
  {
  }

  /** Updating an event twice with the same partial is updating it once. */
  lemma UpdateTwice(rows: seq<Row<EventData>>, id: int, p: EventFields, isActive: Option<bool>, deleted: Option<bool>)
    ensures Updated(Updated(rows, id, Changes(p, isActive, deleted)), id, Changes(p, isActive, deleted))
         == Updated(rows, id, Changes(p, isActive, deleted))
  {
    Table.UpdateTwice(rows, id, Changes(p, isActive, deleted));
  }

  /** The `where: { name }` of `findByName`. */
  function NameIs(name: string): Row<EventData> -> bool {
    (x: Row<EventData>) => x.fields.name == name
  }

  /** `findByName(name)`: some event with that name, whatever its flags, or
      null when there is none. */
  function FindByName(rows: seq<Row<EventData>>, name: string): (r: Option<Row<EventData>>)
    ensures r.Some? <==> exists i :: 0 <= i < |rows| && rows[i].fields.name == name
    ensures r.Some? ==> r.value in rows && r.value.fields.name == name
  {
    FindFirst(rows, NameIs(name))
  }

  /** Adding an event under a name no event has makes `findByName` find
      exactly that event. */
  lemma FindByNameAppended(rows: seq<Row<EventData>>, x: Row<EventData>)
    requires FindByName(rows, x.fields.name).None?
    ensures FindByName(rows + [x], x.fields.name) == Some(x)
  {
    FindFirstAppended(rows, x, NameIs(x.fields.name));
  }

  /** `update` does not check names: renaming one event to the name of
      another leaves two events with that name. */
  lemma UpdateMayDuplicateName(rows: seq<Row<EventData>>, i: int, j: int)
    requires UniqueIds(rows)
    requires 0 <= i < |rows| && 0 <= j < |rows| && i != j
    ensures var after := Updated(rows, rows[j].id,
              Changes(EventFields(Some(rows[i].fields.name), None, None, None, None, None), None, None));
            && after[i].fields.name == rows[i].fields.name
            && after[j].fields.name == rows[i].fields.name
            && after[i].id != after[j].id
  {
  }

  /** `findByStartDate(date)`: exact match on the start date. */
  function FindByStartDate(rows: seq<Row<EventData>>, date: int): (r: seq<Row<EventData>>)
    ensures forall x :: x in r <==> x in rows && x.fields.startDate == date
    ensures forall x :: multiset(r)[x] == if x.fields.startDate == date then multiset(rows)[x] else 0
  {
    Where(rows, (x: Row<EventData>) => x.fields.startDate == date)
  }

  /** `findBySaleStart(date)`: exact match on the sale start. */
  function FindBySaleStart(rows: seq<Row<EventData>>, date: int): (r: seq<Row<EventData>>)
    ensures forall x :: x in r <==> x in rows && x.fields.saleStart == date
    ensures forall x :: multiset(r)[x] == if x.fields.saleStart == date then multiset(rows)[x] else 0
  {
    Where(rows, (x: Row<EventData>) => x.fields.saleStart == date)
  }

  /** What `EventRepository.getPaginated` answers: the page under the key
      `locations`, and the number of events that are not deleted. */
  datatype EventsPage = EventsPage(locations: seq<Row<EventData>>, count: nat)

  /** `EventRepository.getPaginated(limit, offset)`. */
  function GetPaginated(rows: seq<Row<EventData>>, limit: int, offset: int): (r: Result<EventsPage>)
    ensures r.Err? <==> limit < 1 || offset < 0
    ensures r.Err? ==> r.error == InvalidPaginationParameters
    ensures r.Ok? ==> r.value.locations == Page(rows, limit, offset).value
    ensures r.Ok? ==> r.value.count == Count(rows, Some(Undeleted())) == |NotDeleted(rows)|
    ensures r.Ok? ==> |r.value.locations| <= limit && |r.value.locations| <= r.value.count
  {
    match Page(rows, limit, offset)
    case Err(e) => Err(e)
    case Ok(page) => Ok(EventsPage(page, Count(rows, Some(Undeleted()))))
  }
}
