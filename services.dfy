/** `EventService` and `LocationService`: the layer between the HTTP
    controllers and the repositories. Creation refuses a name that is already
    taken; everything else hands over to the repository. */
module Services {
  import opened Common
  import opened Table
  import opened Events
  import opened Locations
  import opened Repositories
  import Pagination

  class EventService {
    const eventRepository: Repository<EventData>

    constructor (eventRepository: Repository<EventData>)
      ensures this.eventRepository == eventRepository
    {
      this.eventRepository := eventRepository;
    }

    /** `getEventByName(name)`: an event with the name, whatever its flags;
        none (not an error) when no event has it. */
    function GetEventByName(name: string): (r: Option<Row<EventData>>)
      reads eventRepository
      ensures r.None? <==> forall i :: 0 <= i < |eventRepository.rows| ==> eventRepository.rows[i].fields.name != name
      ensures r.Some? ==> r.value in eventRepository.rows && r.value.fields.name == name
    {
      Events.FindByName(eventRepository.rows, name)
    }

    /** `createEvent(data)`: fails with "already exists" and stores nothing
        when some event, even a deleted or inactive one, has the name;
        otherwise inserts the event active and not deleted, after which the
        name finds exactly it. */
    method CreateEvent(data: EventData, now: int) returns (r: Result<Row<EventData>>)
      requires eventRepository.Valid()
      modifies eventRepository
      ensures eventRepository.Valid()
      ensures Events.FindByName(old(eventRepository.rows), data.name).Some? ==>
                && r == Err(AlreadyExists(EventEntity, data.name))
                && eventRepository.rows == old(eventRepository.rows)
                && eventRepository.nextId == old(eventRepository.nextId)
      ensures Events.FindByName(old(eventRepository.rows), data.name).None? ==>
                && r.Ok?
                && r.value == Row(old(eventRepository.nextId), data, true, false, now)
                && eventRepository.rows == old(eventRepository.rows) + [r.value]
                && eventRepository.nextId == old(eventRepository.nextId) + 1
                && Events.FindByName(eventRepository.rows, data.name) == Some(r.value)
    {
      if Events.FindByName(eventRepository.rows, data.name).Some? {
        return Err(AlreadyExists(EventEntity, data.name));
      }
      var row := eventRepository.Create(data, None, None, now);
      Events.FindByNameAppended(old(eventRepository.rows), row);
      r := Ok(row);
    }

    /** `updateEvent(id, data)`: no name check; writes the supplied columns
        and flags and reads the event back, "not found" when the id is absent. */
    method UpdateEvent(id: int, p: EventFields, isActive: Option<bool>, deleted: Option<bool>)
      returns (r: Result<Row<EventData>>)
      requires eventRepository.Valid()
      modifies eventRepository`rows
      ensures eventRepository.Valid()
      ensures eventRepository.rows == Updated(old(eventRepository.rows), id, Events.Changes(p, isActive, deleted))
      ensures r.Err? <==> Table.FindById(old(eventRepository.rows), id).None?
      ensures r.Err? ==> r.error == NotFound(eventRepository.entity, id)
      ensures r.Ok? ==> var before := Table.FindById(old(eventRepository.rows), id).value;
                && r.value.id == id
                && r.value.fields == Events.Merge(before.fields, p)
                && r.value.isActive == isActive.GetOr(before.isActive)
                && r.value.deleted == deleted.GetOr(before.deleted)
                && r.value.createdAt == before.createdAt
    {
      r := eventRepository.Update(id, Events.Changes(p, isActive, deleted));
    }

    /** `deleteEvent(id)`: a soft delete; the event stays findable by id. */
    method DeleteEvent(id: int)
      requires eventRepository.Valid()
      modifies eventRepository`rows
      ensures eventRepository.Valid()
      ensures eventRepository.rows == Updated(old(eventRepository.rows), id, SoftDeletion())
      ensures Table.FindById(eventRepository.rows, id).Some? <==> Table.FindById(old(eventRepository.rows), id).Some?
      ensures forall x :: x in NotDeleted(eventRepository.rows) ==> x.id != id
    {
      SoftDeleteEffect(eventRepository.rows, id);
      eventRepository.SoftDelete(id);
    }

    /** `activateEvent(id)`. */
    method ActivateEvent(id: int)
      requires eventRepository.Valid()
      modifies eventRepository`rows
      ensures eventRepository.Valid()
      ensures eventRepository.rows == Updated(old(eventRepository.rows), id, Activation(true))
    {
      eventRepository.Activate(id);
    }

    /** `deactivateEvent(id)`. */
    method DeactivateEvent(id: int)
      requires eventRepository.Valid()
      modifies eventRepository`rows
      ensures eventRepository.Valid()
      ensures eventRepository.rows == Updated(old(eventRepository.rows), id, Activation(false))
    {
      eventRepository.Deactivate(id);
    }

    /** `getPaginated(page, itemsPerPage)`: the generic pager over the event
        repository, whose page is the `{ locations, count }` record. */
    function GetPaginated(page: int, itemsPerPage: int): (r: Result<Pagination.Paginated<EventsPage>>)
      reads eventRepository
      ensures r.Err? <==> itemsPerPage < 1 || page < 0
      ensures r.Err? ==> r.error == InvalidPaginationParameters
      ensures r.Ok? ==>
                && r.value.data.locations == Page(eventRepository.rows, itemsPerPage, page * itemsPerPage).value
                && r.value.data.count == |NotDeleted(eventRepository.rows)|
                && r.value.pagination == Pagination.Metadata(page, itemsPerPage, |NotDeleted(eventRepository.rows)|)
    {
      var rows := eventRepository.rows;
      var r := Pagination.GetPaginated((limit: int, offset: int) => Events.GetPaginated(rows, limit, offset),
                                       Table.Count(rows, Some(Undeleted())), page, itemsPerPage);
      if itemsPerPage >= 1 then
        Pagination.OffsetSign(page, itemsPerPage);
        r
      else
        r
    }
  }

  class LocationService {
    const locationRepository: Repository<LocationData>

    constructor (locationRepository: Repository<LocationData>)
      ensures this.locationRepository == locationRepository
    {
      this.locationRepository := locationRepository;
    }

    /** `getLocationByName(name)`: a location with the name, whatever its
        flags; none (not an error) when no location has it. */
    function GetLocationByName(name: string): (r: Option<Row<LocationData>>)
      reads locationRepository
      ensures r.None? <==> forall i :: 0 <= i < |locationRepository.rows| ==> locationRepository.rows[i].fields.name != name
      ensures r.Some? ==> r.value in locationRepository.rows && r.value.fields.name == name
    {
      Locations.FindByName(locationRepository.rows, name)
    }

    /** `createLocation(data)`: fails with "already exists" and stores nothing
        when some location, even a deleted or inactive one, has the name;
        otherwise inserts the location active and not deleted. */
    method CreateLocation(data: LocationData, now: int) returns (r: Result<Row<LocationData>>)
      requires locationRepository.Valid()
      modifies locationRepository
      ensures locationRepository.Valid()
      ensures Locations.FindByName(old(locationRepository.rows), data.name).Some? ==>
                && r == Err(AlreadyExists(LocationEntity, data.name))
                && locationRepository.rows == old(locationRepository.rows)
                && locationRepository.nextId == old(locationRepository.nextId)
      ensures Locations.FindByName(old(locationRepository.rows), data.name).None? ==>
                && r.Ok?
                && r.value == Row(old(locationRepository.nextId), data, true, false, now)
                && locationRepository.rows == old(locationRepository.rows) + [r.value]
                && locationRepository.nextId == old(locationRepository.nextId) + 1
                && Locations.FindByName(locationRepository.rows, data.name) == Some(r.value)
    {
      if Locations.FindByName(locationRepository.rows, data.name).Some? {
        return Err(AlreadyExists(LocationEntity, data.name));
      }
      var row := locationRepository.Create(data, None, None, now);
      Locations.FindByNameAppended(old(locationRepository.rows), row);
      r := Ok(row);
    }

    /** `updateLocation(id, data)`: no name check. */
    method UpdateLocation(id: int, p: LocationFields, isActive: Option<bool>, deleted: Option<bool>)
      returns (r: Result<Row<LocationData>>)
      requires locationRepository.Valid()
      modifies locationRepository`rows
      ensures locationRepository.Valid()
      ensures locationRepository.rows == Updated(old(locationRepository.rows), id, Locations.Changes(p, isActive, deleted))
      ensures r.Err? <==> Table.FindById(old(locationRepository.rows), id).None?
      ensures r.Err? ==> r.error == NotFound(locationRepository.entity, id)
      ensures r.Ok? ==> var before := Table.FindById(old(locationRepository.rows), id).value;
                && r.value.id == id
                && r.value.fields == Locations.Merge(before.fields, p)
                && r.value.isActive == isActive.GetOr(before.isActive)
                && r.value.deleted == deleted.GetOr(before.deleted)
                && r.value.createdAt == before.createdAt
    {
      r := locationRepository.Update(id, Locations.Changes(p, isActive, deleted));
    }

    /** `deleteLocation(id)`: a soft delete; the location stays findable by id. */
    method DeleteLocation(id: int)
      requires locationRepository.Valid()
      modifies locationRepository`rows
      ensures locationRepository.Valid()
      ensures locationRepository.rows == Updated(old(locationRepository.rows), id, SoftDeletion())
      ensures Table.FindById(locationRepository.rows, id).Some? <==> Table.FindById(old(locationRepository.rows), id).Some?
      ensures forall x :: x in NotDeleted(locationRepository.rows) ==> x.id != id
    {
      SoftDeleteEffect(locationRepository.rows, id);
      locationRepository.SoftDelete(id);
    }

    /** `activateLocation(id)`. */
    method ActivateLocation(id: int)
      requires locationRepository.Valid()
      modifies locationRepository`rows
      ensures locationRepository.Valid()
      ensures locationRepository.rows == Updated(old(locationRepository.rows), id, Activation(true))
    {
      locationRepository.Activate(id);
    }

    /** `deactivateLocation(id)`. */
    method DeactivateLocation(id: int)
      requires locationRepository.Valid()
      modifies locationRepository`rows
      ensures locationRepository.Valid()
      ensures locationRepository.rows == Updated(old(locationRepository.rows), id, Activation(false))
    {
      locationRepository.Deactivate(id);
    }

    /** `getPaginated(page, itemsPerPage)`: the generic pager over the
        location repository, whose page is a bare list. */
    function GetPaginated(page: int, itemsPerPage: int): (r: Result<Pagination.Paginated<seq<Row<LocationData>>>>)
      reads locationRepository
      ensures r.Err? <==> itemsPerPage < 1 || page < 0
      ensures r.Err? ==> r.error == InvalidPaginationParameters
      ensures r.Ok? ==>
                && r.value.data == Page(locationRepository.rows, itemsPerPage, page * itemsPerPage).value
                && r.value.pagination == Pagination.Metadata(page, itemsPerPage, |NotDeleted(locationRepository.rows)|)
    {
      var rows := locationRepository.rows;
      var r := Pagination.GetPaginated((limit: int, offset: int) => Page(rows, limit, offset),
                                       Table.Count(rows, Some(Undeleted())), page, itemsPerPage);
      if itemsPerPage >= 1 then
        Pagination.OffsetSign(page, itemsPerPage);
        r
      else
        r
    }
  }
}
