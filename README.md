# Soft-delete event store

A model of the storage and business core of an event-ticketing backend. The backend keeps three tables:

- events, each with a sale window;
- locations;
- event-locations: a priced offering of one event at one location.

Every row carries an `isActive` flag, a `deleted` flag (deletion is soft: the row stays in the table) and a creation stamp.

The model covers the following parts of the backend:

- the three repositories: create, update, soft delete, hard delete, activate and deactivate; lookups by id, by criteria and by name; counting; the validated, ordered and sliced `getPaginated`;
- the `isAvailable` join, which decides whether an offering can be bought now;
- the generic pager that turns a 0-based page into a limit and an offset and computes the page metadata;
- the event and location services, whose `create` refuses a name that is already taken.

Files and modules:

- `common.dfy` (`Common`): `Option`, `Result` and the errors the backend throws.
- `table.dfy` (`Table`): a table as a sequence of rows in primary-key order, the queries over it, the newest-first listing, the page slice, the single-row writes, and the lemmas about all of these.
- `repository.dfy` (`Repositories`): the `Repository<D>` class, holding the rows and the id counter. The three repository classes of the backend write their tables the same way (`create`, `update`, `delete`, `softDelete`, `activate`, `deactivate`) and select the same rows in `findAll`, `findById`, `findByCriteria` and `count`, so one generic class stands for that shared part. They are not identical: the event-location `findById` is a `findOne` that also loads the related event and location (the row found is the same), and only the event and location repositories have `findActive`. The class's `GetPaginated` is the bare page that the location and event-location repositories return. The event repository's `getPaginated` differs: it returns a `{ locations, count }` record, modelled as `Events.GetPaginated`. The queries each repository adds on its own (`findByName`, the date lookups, `findByEvent` and the rest, `isAvailable`) live in the entity modules.
- `pagination.dfy` (`Pagination`): the generic pager and its arithmetic.
- `events.dfy`, `locations.dfy`, `event_locations.dfy` (`Events`, `Locations`, `EventLocations`): the columns of each entity, partial updates and criteria, and the queries each repository adds. `EventLocations` also holds `isAvailable`.
- `services.dfy` (`Services`): `EventService` and `LocationService`.

Instants (creation stamps, sale windows, `NOW()`) are integers on one clock. `NOW()` is a parameter. A `Partial<Entity>` given to `update` is an `Option` per column. A `where` criteria object is a predicate on the columns together with optional flag values.

## Model

| member | source | states |
|---|---|---|
| Table.FindFirst | src/repository/events.repository.ts:91-93 | `findOne({ where })` finds a row exactly when some row satisfies the condition, and the row it finds is in the table and satisfies it |
| Table.FindById | src/repository/events.repository.ts:51-57 | a lookup by id succeeds iff some row has that id; the row found has the id, whatever its flags |
| Table.Where | src/repository/event_locations.repository.ts:82-105 | a filter keeps exactly the rows that satisfy its condition, each as often as the table has it, and never adds any |
| Table.WhereTally | src/repository/events.repository.ts:86-88 | a filter returns as many rows as the table has rows satisfying its condition, counted one by one |
| Table.Matching | src/repository/events.repository.ts:59-61 | `findByCriteria` returns exactly the rows that agree with every supplied column and flag, each as often as the table holds it, and as many as there are such rows |
| Table.Count | src/repository/events.repository.ts:86-88 | `count()` is the number of rows; `count(criteria)` is the number of rows meeting the criteria, counted one by one; never more than the table holds |
| Table.NotDeleted | src/repository/locations.repository.ts:27-29 | the default listing holds exactly the rows with `deleted = false`, each as often as the table does, and its length is the number of such rows |
| Table.FindActive | src/repository/events.repository.ts:103-106 | `findActive` returns exactly the rows that are active and not deleted, each as often as the table does |
| Table.InsertByAge | src/repository/locations.repository.ts:24-26 | inserting a row into a newest-first list keeps it newest first and adds exactly that row |
| Table.ByAge | src/repository/locations.repository.ts:24-26 | ordering by `createdAt` descending yields a newest-first permutation of its input |
| Table.Listing | src/repository/event_locations.repository.ts:25-30 | what is paged through is a newest-first permutation of the non-deleted rows |
| Table.Window | src/repository/locations.repository.ts:19-20 | `skip: offset, take: limit` returns `min(limit, max(0, n - offset))` items, the ones from position `offset` on, and keeps a newest-first order |
| Table.Page | src/repository/locations.repository.ts:13-31 | `getPaginated(limit, offset)` fails with "Invalid pagination parameters" iff `limit < 1` or `offset < 0`; otherwise it returns `min(limit, max(0, nonDeleted - offset))` rows, namely the listing from position `offset` on, newest first, none of them deleted |
| Table.Updated | src/repository/events.repository.ts:68-70 | an `UPDATE ... WHERE id` neither adds nor removes rows |
| Table.Removed | src/repository/events.repository.ts:74-76 | a hard delete keeps exactly the rows with another id |
| Table.FindByIdReturnsRow | src/repository/event_locations.repository.ts:38-47 | with unique primary keys, looking a row's id up returns that very row |
| Table.FindFirstAppended | src/repository/locations.repository.ts:49-52 | after appending a row to a table where no row satisfies a condition, `findOne` returns the new row if it satisfies the condition, and nothing otherwise |
| Table.FindByIdAfterUpdate | src/repository/events.repository.ts:68-72 | after an update, re-reading the updated id gives the old row with the partial applied (or "not found" if there was none); every other id reads as before |
| Table.UpdateTwice | src/repository/locations.repository.ts:54-58 | an update whose column change is idempotent is idempotent on the table |
| Table.SoftDeleteEffect | src/repository/event_locations.repository.ts:69-71 | soft delete sets only `deleted` of that row; the row stays findable by id, leaves the default listing, no other row changes, and doing it twice is doing it once |
| Table.ActivationEffect | src/repository/event_locations.repository.ts:126-132 | activate/deactivate set only `isActive` of that row (`deleted` is untouched), leave every other row as it was, and are idempotent |
| Table.WhereAscending | src/repository/events.repository.ts:74-76 | removing rows keeps the primary keys increasing |
| Table.RemovedKeyed | src/repository/events.repository.ts:74-76 | after a hard delete the table is still keyed below the id counter, and the id is no longer found |
| Repositories.Repository.constructor | src/repository/events.repository.ts:9-11 | the model's repository starts from an empty table that hands out id 1 first; the source wraps an existing table, which the model reaches by a sequence of creates |
| Repositories.Repository.GetPaginated | src/repository/locations.repository.ts:13-31 | the location and event-location `getPaginated`: fails with "Invalid pagination parameters" iff `limit < 1` or `offset < 0`; otherwise the listing of non-deleted rows, newest first, from position `offset` on: `min(limit, max(0, nonDeleted - offset))` rows |
| Repositories.Repository.FindAll | src/repository/locations.repository.ts:33-35 | `findAll` returns every row in table order, soft-deleted ones included |
| Repositories.Repository.FindById | src/repository/locations.repository.ts:37-43 | `findById` succeeds iff the id is present, soft-deleted rows included; otherwise it fails with "not found" for this entity |
| Repositories.Repository.FindByCriteria | src/repository/locations.repository.ts:45-47 | `findByCriteria` returns exactly the rows meeting the criteria, each as often as the table holds it |
| Repositories.Repository.Count | src/repository/locations.repository.ts:72-74 | `count()` is the number of rows; `count(criteria)` is the number of rows meeting the criteria, equal to the length of `findByCriteria` |
| Repositories.Repository.FindActive | src/repository/locations.repository.ts:81-84 | `findActive` of the event and location repositories returns exactly the rows that are active and not deleted, each once per occurrence in the table |
| Repositories.Repository.Create | src/repository/locations.repository.ts:49-52 | `create` appends one row under a fresh id stamped with the current time; `isActive` defaults to true and `deleted` to false; the new row is found by its id |
| Repositories.Repository.Update | src/repository/events.repository.ts:68-72 | `update` patches only the row with the id; it returns the re-read row with the supplied columns overwritten, and fails with "not found" iff the id is absent |
| Repositories.Repository.Delete | src/repository/locations.repository.ts:60-62 | `delete` removes the row with the id and reports how many rows went |
| Repositories.Repository.SoftDelete | src/repository/locations.repository.ts:64-66 | `softDelete` is the update `{ deleted: true }`, with no existence check |
| Repositories.Repository.Activate | src/repository/locations.repository.ts:86-88 | `activate` is the update `{ isActive: true }` |
| Repositories.Repository.Deactivate | src/repository/locations.repository.ts:90-92 | `deactivate` is the update `{ isActive: false }` |
| Pagination.CeilDiv | src/utils/getPaginated.ts:16 | `Math.ceil(total / itemsPerPage)` is the least page count that holds every row; it is 0 iff there are no rows |
| Pagination.GetPaginated | src/utils/getPaginated.ts:3-30 | the pager asks for `limit = itemsPerPage` and `offset = page * itemsPerPage`, fails exactly when that fetch fails and with its error, returns the fetched data unchanged, and attaches the metadata of the count |
| Pagination.Metadata | src/utils/getPaginated.ts:16-28 | `currentPage = page + 1`; `itemsPerPage` and `totalItems` are echoed; `totalPages` is 0 iff there are no rows and otherwise bounds them tightly; `hasNextPage` iff `(page + 1) * itemsPerPage < totalItems`; `hasPreviousPage` iff `page > 0` |
| Pagination.OffsetSign | src/utils/getPaginated.ts:8 | with a page size of at least one, the offset is negative iff the page is |
| Pagination.FirstOfThreePages | src/utils/getPaginated.ts:16-28 | 25 rows at 10 per page: page 0 is page 1 of 3, with a next page and no previous one |
| Events.Merge | src/repository/events.repository.ts:68-70 | an update overwrites exactly the supplied event columns and keeps the others |
| Events.CriterionSelects | src/repository/events.repository.ts:59-61 | `findByCriteria` with a partial event selects exactly the rows that agree with every supplied column and flag, and `count` with it is the number of those rows |
| Events.UpdateTwice | src/repository/events.repository.ts:68-72 | updating an event twice with the same partial is updating it once |
| Events.FindByName | src/repository/events.repository.ts:91-93 | `findByName` finds an event iff some event, deleted or not, has the name, and the one it finds has it |
| Events.FindByNameAppended | src/service/events.service.ts:41-47 | adding an event under an unused name makes `findByName` return that event |
| Events.UpdateMayDuplicateName | src/service/events.service.ts:50-53 | renaming one event to another's name succeeds and leaves two distinct events with the same name |
| Events.FindByStartDate | src/repository/events.repository.ts:95-97 | exactly the events whose start date equals the given one, each once per occurrence in the table |
| Events.FindBySaleStart | src/repository/events.repository.ts:99-101 | exactly the events whose sale start equals the given one, each once per occurrence in the table |
| Events.GetPaginated | src/repository/events.repository.ts:13-44 | fails iff `limit < 1` or `offset < 0`; otherwise `locations` is the page of non-deleted events newest first and `count` the number of all non-deleted events, independent of limit and offset |
| Locations.Merge | src/repository/locations.repository.ts:54-56 | an update overwrites exactly the supplied location columns and keeps the others |
| Locations.CriterionSelects | src/repository/locations.repository.ts:45-47 | `findByCriteria` with a partial location selects exactly the rows that agree with every supplied column and flag, and `count` with it is the number of those rows |
| Locations.FindByName | src/repository/locations.repository.ts:77-79 | `findByName` finds a location iff some location, deleted or not, has the name |
| Locations.FindByNameAppended | src/service/locations.service.ts:33-39 | adding a location under an unused name makes `findByName` return that location |
| Locations.UpdateMayDuplicateName | src/service/locations.service.ts:42-45 | renaming one location to another's name leaves two distinct locations with the same name |
| EventLocations.Merge | src/repository/event_locations.repository.ts:59-63 | an update overwrites exactly the supplied offering columns and keeps the others |
| EventLocations.CriterionSelects | src/repository/event_locations.repository.ts:50-52 | `findByCriteria` with a partial offering selects exactly the rows that agree with every supplied column and flag, and `count` with it is the number of those rows |
| EventLocations.FindByEvent | src/repository/event_locations.repository.ts:82-87 | exactly the offerings of the event, whatever their flags, each once per occurrence in the table |
| EventLocations.FindByLocation | src/repository/event_locations.repository.ts:89-94 | exactly the offerings at the location, whatever their flags, each once per occurrence in the table |
| EventLocations.FindActiveByEvent | src/repository/event_locations.repository.ts:96-105 | exactly the offerings of the event that are themselves active and not deleted, each once per occurrence in the table; the event's flags are not consulted |
| EventLocations.IsAvailable | src/repository/event_locations.repository.ts:108-124 | a success returns the offering with the requested id together with its event and location, all active and not deleted, with `saleStart <= now < saleEnd`; every failure is the same error |
| EventLocations.AvailableIffJoined | src/repository/event_locations.repository.ts:108-121 | with unique primary keys, `isAvailable` succeeds iff the join has a row for the id that satisfies all eight conditions |
| EventLocations.SaleWindow | src/repository/event_locations.repository.ts:118-119 | for live, linked rows, availability is exactly the half-open window: it succeeds at `saleStart` and fails at `saleEnd` |
| EventLocations.DeactivatedLocationBlocks | src/repository/event_locations.repository.ts:116 | deactivating an offering's location makes it unavailable |
| EventLocations.DeletedEventBlocks | src/repository/event_locations.repository.ts:115 | soft-deleting an offering's event makes it unavailable |
| Services.EventService.constructor | src/service/events.service.ts:11-13 | the service works on the repository it is given |
| Services.EventService.GetEventByName | src/service/events.service.ts:27-29 | none, not an error, iff no event has the name; otherwise an event with the name |
| Services.EventService.CreateEvent | src/service/events.service.ts:39-48 | if any event (deleted or inactive included) has the name, fails with "already exists" and leaves the store unchanged; otherwise inserts exactly one active, non-deleted event under the next id, advances the id counter by one, and returns the event, after which `findByName` returns it |
| Services.EventService.UpdateEvent | src/service/events.service.ts:50-53 | with no name check, overwrites the supplied columns and flags of that event; fails with "not found" iff the id is absent |
| Services.EventService.DeleteEvent | src/service/events.service.ts:55-57 | soft delete only: the event stays findable by id and leaves the default listing |
| Services.EventService.ActivateEvent | src/service/events.service.ts:63-65 | sets `isActive` of that event |
| Services.EventService.DeactivateEvent | src/service/events.service.ts:59-61 | clears `isActive` of that event |
| Services.EventService.GetPaginated | src/service/events.service.ts:67-71 | fails iff `itemsPerPage < 1` or `page < 0`; otherwise the data is the event repository's `{ locations, count }` record for that page and the metadata counts the non-deleted events |
| Services.LocationService.constructor | src/service/locations.service.ts:11-13 | the service works on the repository it is given |
| Services.LocationService.GetLocationByName | src/service/locations.service.ts:27-29 | none, not an error, iff no location has the name |
| Services.LocationService.CreateLocation | src/service/locations.service.ts:31-40 | if any location has the name, fails with "already exists" and leaves the store unchanged; otherwise inserts exactly one active, non-deleted location under the next id and advances the id counter by one, after which `findByName` returns it |
| Services.LocationService.UpdateLocation | src/service/locations.service.ts:42-45 | with no name check, overwrites the supplied columns and flags; fails with "not found" iff the id is absent |
| Services.LocationService.DeleteLocation | src/service/locations.service.ts:47-49 | soft delete only: the location stays findable by id |
| Services.LocationService.ActivateLocation | src/service/locations.service.ts:55-57 | sets `isActive` of that location |
| Services.LocationService.DeactivateLocation | src/service/locations.service.ts:51-53 | clears `isActive` of that location |
| Services.LocationService.GetPaginated | src/service/locations.service.ts:59-61 | fails iff `itemsPerPage < 1` or `page < 0`; otherwise the data is the repository's page and the metadata counts the non-deleted locations |

## Left out

- HTTP routes, controllers, server start-up and API documentation. They are wiring and error-to-status mapping, outside the storage core.
- The event-location service. Each of its methods hands straight to a repository method that is modelled.
- The service getters that only delegate: `getAll*`, `getActive*`, `get*ById`, `getEventsByStartDate` and `getEventsBySaleStart`. Each hands straight to a modelled repository query.
- DTO validation and the `plainToInstance` mapping. Both are library behaviour. A create receives the entity's columns with the flags left to their defaults.
- The database connection and its configuration (I/O).
- `restore`. It calls the ORM's restore on a delete-date column that no entity declares, so its effect on `deleted` cannot be read from the code.
- The columns the ORM stamps with the current time on every update, including `softDelete`, `activate` and `deactivate`. Every entity has such a column, `updatedAt`. `Event` also declares `startDate`, `endDate`, `saleStart` and `saleEnd` as update-date columns (src/infrastructure/entity/events.entity.ts:22-32), and the ORM stamps the first of them. The model leaves all of these unchanged on update. So `Table.SoftDeleteEffect` and `Table.ActivationEffect` (only `deleted` or only `isActive` changes) hold for events only under this abstraction.
- Foreign-key refusals. The database refuses the hard `delete` of an event or location that an offering still references; the model's `Repository.Delete` always removes the row.
- The order among rows with equal `createdAt`, and the order of unordered queries (`findAll`, `findByCriteria` and the other lookups). The database leaves both unspecified; the model returns table order, and no contract depends on it.
- Concurrency. The two reads that `Promise.all` issues are modelled as reads of the same state, and requests never interleave. In particular the service's name check and its insert are one step here, while in the backend a concurrent create can slip between them.
- A database-level uniqueness constraint on names. None is declared.
- Name comparison under the database collation. `findByName` and the services' name check compare names in the database, under the `name` column's collation. The source fixes no collation, and the usual MySQL defaults ignore case (and, in recent versions, accents). There, creating "concierto" is refused when "Concierto" exists. The model compares names exactly, so it accepts that create.
- `findActive` on the event-location repository. The source has no such query, only `findActiveByEvent`; `Repositories.Repository.FindActive` on offerings is not a source operation.
- How the event-location `findById` loads its related event and location. It selects the same row as the plain lookup, so only the attached relations are left out.
- Repositories.Repository.constructor: the source's constructor wraps an existing table, possibly non-empty. The model starts empty. Every method is proved for any valid table, and every valid table is reached by creates and deletes.
- The joined rows that `relations` attaches to query results. They do not change which rows are selected.
- The `price` decimal. It is kept as a whole number because no operation computes with it.
- Create with a caller-supplied id, and an update with an empty partial (which the ORM rejects). The model always hands out the next id and applies an empty partial as a no-op.
- Pagination.GetPaginated: requires that the fetch rejects a limit below one and a negative offset, as all three repositories do. The pager's own division by a zero or negative page size (`Infinity`, `NaN`) is therefore never reached and not modelled.
- Pagination.Metadata: defined only for a page size of at least one, for the same reason.
- Partial updates and criteria are functions on the entity's columns together with optional flag values. Updating `createdAt` or the id through a partial is not modelled.
