/** The `EventLocation` entity (a priced offering of one event at one
    location), the queries `EventLocationRepository` adds to the shared
    repository, and `isAvailable`, the join that decides whether an offering
    can be bought now. */
module EventLocations {
  import opened Common
  import opened Table
  import opened Events
  import opened Locations

  /** The columns of `tbl_event_locations` besides id, flags and creation
      time. `price` is the decimal column, kept as a number no operation
      computes with; `eventId` and `locationId` are the two foreign keys. */
  datatype EventLocationData = EventLocationData(name: string, price: int, eventId: int, locationId: int)

  /** The offering columns of a `Partial<EventLocation>`. */
  datatype EventLocationFields = EventLocationFields(
    name: Option<string>,
    price: Option<int>,
    eventId: Option<int>,
    locationId: Option<int>)

  /** Every supplied field has the supplied value. */
  predicate Matches(d: EventLocationData, p: EventLocationFields) {
    && (p.name.Some? ==> d.name == p.name.value)
    && (p.price.Some? ==> d.price == p.price.value)
    && (p.eventId.Some? ==> d.eventId == p.eventId.value)
    && (p.locationId.Some? ==> d.locationId == p.locationId.value)
  }

  /** The columns after `UPDATE ... SET` with the supplied fields. */
  function Merge(d: EventLocationData, p: EventLocationFields): (r: EventLocationData)
    ensures Matches(r, p)
    ensures Matches(d, p) ==> r == d
    ensures p.name.None? ==> r.name == d.name
    ensures p.price.None? ==> r.price == d.price
    ensures p.eventId.None? ==> r.eventId == d.eventId
    ensures p.locationId.None? ==> r.locationId == d.locationId
  {
    EventLocationData(
      p.name.GetOr(d.name),
      p.price.GetOr(d.price),
      p.eventId.GetOr(d.eventId),
      p.locationId.GetOr(d.locationId))
  }

  /** The `Partial<EventLocation>` of an update. */
  function Changes(p: EventLocationFields, isActive: Option<bool>, deleted: Option<bool>): Patch<EventLocationData> {
    Patch((d: EventLocationData) => Merge(d, p), isActive, deleted)
  }

  /** The `Partial<EventLocation>` of a `find({ where })` or `count({ where })`. */
  function Criterion(p: EventLocationFields, isActive: Option<bool>, deleted: Option<bool>): Criteria<EventLocationData> {
    Criteria((d: EventLocationData) => Matches(d, p), isActive, deleted)
  }

  /** `findByCriteria` and `count` with a partial offering select exactly the rows
      that agree with every supplied column and flag. */
  lemma CriterionSelects(rows: seq<Row<EventLocationData>>, p: EventLocationFields, isActive: Option<bool>, deleted: Option<bool>)
    ensures forall x :: x in Matching(rows, Criterion(p, isActive, deleted)) <==>
              && x in rows
              && Matches(x.fields, p)
              && (isActive.Some? ==> x.isActive == isActive.value)
              && (deleted.Some? ==> x.deleted == deleted.value)
    ensures Count(rows, Some(Criterion(p, isActive, deleted))) == |Matching(rows, Criterion(p, isActive, deleted))|
  {
  }

  /** `findByEvent(eventId)`: every offering of the event, whatever its flags. */
  function FindByEvent(rows: seq<Row<EventLocationData>>, eventId: int): (r: seq<Row<EventLocationData>>)
    ensures forall x :: x in r <==> x in rows && x.fields.eventId == eventId
    ensures forall x :: multiset(r)[x] == if x.fields.eventId == eventId then multiset(rows)[x] else 0
  {
    Where(rows, (x: Row<EventLocationData>) => x.fields.eventId == eventId)
  }

  /** `findByLocation(locationId)`: every offering at the location, whatever its flags. */
  function FindByLocation(rows: seq<Row<EventLocationData>>, locationId: int): (r: seq<Row<EventLocationData>>)
    ensures forall x :: x in r <==> x in rows && x.fields.locationId == locationId
    ensures forall x :: multiset(r)[x] == if x.fields.locationId == locationId then multiset(rows)[x] else 0
  {
    Where(rows, (x: Row<EventLocationData>) => x.fields.locationId == locationId)
  }

  /** `findActiveByEvent(eventId)`: the event's offerings that are themselves
      active and not deleted; the event's own flags are not looked at. */
  function FindActiveByEvent(rows: seq<Row<EventLocationData>>, eventId: int): (r: seq<Row<EventLocationData>>)
    ensures forall x :: x in r <==> x in rows && x.fields.eventId == eventId && Live(x)
    ensures forall x :: multiset(r)[x] == if x.fields.eventId == eventId && Live(x) then multiset(rows)[x] else 0
  {
    Where(rows, (x: Row<EventLocationData>) => x.fields.eventId == eventId && x.isActive && !x.deleted)
  }

  // ---------------------------------------------------------------------------
  // Availability

  /** One row of the join: an offering with the event and the location it refers to. */
  datatype Offering = Offering(
    eventLocation: Row<EventLocationData>,
    event: Row<EventData>,
    location: Row<LocationData>)

  /** The sale window `[saleStart, saleEnd)`: open from its start, closed at its end. */
  predicate OnSale(e: Row<EventData>, now: int) {
    e.fields.saleStart <= now < e.fields.saleEnd
  }

  /** The `WHERE` clause of `isAvailable`, with the join's `ON` conditions:
      all three rows active and not deleted, the event on sale at `now`. */
  predicate Purchasable(o: Offering, now: int) {
    && o.event.id == o.eventLocation.fields.eventId
    && o.location.id == o.eventLocation.fields.locationId
    && o.eventLocation.isActive && !o.eventLocation.deleted
    && o.event.isActive && !o.event.deleted
    && o.location.isActive && !o.location.deleted
    && OnSale(o.event, now)
  }

  /** The join `isAvailable` runs, read relationally: some offering with the
      id, some event and some location make a purchasable row. */
  ghost predicate Joined(
    offerings: seq<Row<EventLocationData>>, events: seq<Row<EventData>>, locations: seq<Row<LocationData>>,
    id: int, now: int)
  {
    exists i, j, k :: 0 <= i < |offerings| && 0 <= j < |events| && 0 <= k < |locations|
      && offerings[i].id == id
      && Purchasable(Offering(offerings[i], events[j], locations[k]), now)
  }

  /** `isAvailable(id)`, evaluated at `now`: the offering with its event and
      location when the whole conjunction holds, otherwise the one error
      `getOneOrFail` throws, whichever conjunct failed. */
  function IsAvailable(
    offerings: seq<Row<EventLocationData>>, events: seq<Row<EventData>>, locations: seq<Row<LocationData>>,
    id: int, now: int): (r: Result<Offering>)
    ensures r.Ok? ==> r.value.eventLocation.id == id && Purchasable(r.value, now)
    ensures r.Ok? ==> r.value.eventLocation in offerings && r.value.event in events && r.value.location in locations
    ensures r.Err? ==> r.error == NoMatchingRow
  {
    match Table.FindById(offerings, id)
    case None => Err(NoMatchingRow)
    case Some(el) =>
      match (Table.FindById(events, el.fields.eventId), Table.FindById(locations, el.fields.locationId))
      case (Some(ev), Some(loc)) =>
        if Purchasable(Offering(el, ev, loc), now) then Ok(Offering(el, ev, loc)) else Err(NoMatchingRow)
      case _ => Err(NoMatchingRow)
  }

  /** With primary keys unique, `isAvailable` succeeds exactly when the join
      has a row for the id. */
  lemma AvailableIffJoined(
    offerings: seq<Row<EventLocationData>>, events: seq<Row<EventData>>, locations: seq<Row<LocationData>>,
    id: int, now: int)
    requires UniqueIds(offerings) && UniqueIds(events) && UniqueIds(locations)
    ensures IsAvailable(offerings, events, locations, id, now).Ok? <==> Joined(offerings, events, locations, id, now)
  {
    var r := IsAvailable(offerings, events, locations, id, now);
    if r.Ok? {
      var i :| 0 <= i < |offerings| && offerings[i] == r.value.eventLocation;
      var j :| 0 <= j < |events| && events[j] == r.value.event;
      var k :| 0 <= k < |locations| && locations[k] == r.value.location;
      assert Purchasable(Offering(offerings[i], events[j], locations[k]), now);
    }
    if Joined(offerings, events, locations, id, now) {
      var i, j, k :| 0 <= i < |offerings| && 0 <= j < |events| && 0 <= k < |locations|
        && offerings[i].id == id
        && Purchasable(Offering(offerings[i], events[j], locations[k]), now);
      FindByIdReturnsRow(offerings, i);
      FindByIdReturnsRow(events, j);
      FindByIdReturnsRow(locations, k);
    }
  }

  /** For an offering whose rows are all active and not deleted, availability
      is exactly the half-open sale window of its event: it opens at
      `saleStart` and is over at `saleEnd`. */
  lemma SaleWindow(
    offerings: seq<Row<EventLocationData>>, events: seq<Row<EventData>>, locations: seq<Row<LocationData>>,
    i: int, j: int, k: int, now: int)
    requires UniqueIds(offerings) && UniqueIds(events) && UniqueIds(locations)
    requires 0 <= i < |offerings| && 0 <= j < |events| && 0 <= k < |locations|
    requires events[j].id == offerings[i].fields.eventId && locations[k].id == offerings[i].fields.locationId
    requires Live(offerings[i]) && Live(events[j]) && Live(locations[k])
    ensures IsAvailable(offerings, events, locations, offerings[i].id, now).Ok? <==>
              events[j].fields.saleStart <= now < events[j].fields.saleEnd
    ensures events[j].fields.saleStart < events[j].fields.saleEnd ==>
              IsAvailable(offerings, events, locations, offerings[i].id, events[j].fields.saleStart).Ok?
    ensures IsAvailable(offerings, events, locations, offerings[i].id, events[j].fields.saleEnd).Err?
  {
    FindByIdReturnsRow(offerings, i);
    FindByIdReturnsRow(events, j);
    FindByIdReturnsRow(locations, k);
  }

  /** Deactivating the location of an offering makes the offering
      unavailable, whatever else holds. */
  lemma DeactivatedLocationBlocks(
    offerings: seq<Row<EventLocationData>>, events: seq<Row<EventData>>, locations: seq<Row<LocationData>>,
    id: int, now: int)
    requires Table.FindById(offerings, id).Some?
    ensures IsAvailable(offerings, events,
              Updated(locations, Table.FindById(offerings, id).value.fields.locationId, Activation(false)),
              id, now).Err?
  {

  }

  /** Soft-deleting the event of an offering makes the offering unavailable. */
  lemma DeletedEventBlocks(
    offerings: seq<Row<EventLocationData>>, events: seq<Row<EventData>>, locations: seq<Row<LocationData>>,
    id: int, now: int)
    requires Table.FindById(offerings, id).Some?
    ensures IsAvailable(offerings,
              Updated(events, Table.FindById(offerings, id).value.fields.eventId, SoftDeletion()),
              locations, id, now).Err?
  {

  }
}
