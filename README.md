# NASA mission control backend: a Dafny model

This project models the core of a small Express/Mongo backend. The backend
keeps launch records and a catalog of habitable exoplanets. The model covers
four pieces of it, with storage and HTTP abstracted away:

- **Pagination** (`query.dfy`, module `Query`). The `page` and `limit` query
  parameters become the `skip` and `limit` handed to the store. Both are read by
  magnitude. A missing, zero or `NaN` page is page 1. A missing, zero or `NaN`
  limit is 0, which means "no limit". `skip = (page - 1) * limit`.
- **Planet catalog** (`planets.dfy`, module `Planets`). A Kepler table row is
  habitable when it is `CONFIRMED`, its insolation lies strictly between 0.36
  and 1.11, and its radius lies strictly below 1.6. The loader reads the rows in
  stream order and appends each habitable row to a module-level list
  (`PlanetCatalog.habitablePlanets`). The list is never cleared or deduplicated.
- **Launch store** (`launches.dfy`, module `Launches`). The launches collection
  is a map from flight number to record, held in the class `LaunchStore`, whose
  invariant is that each record is stored under its own flight number. The model
  covers lookup and existence, listing in ascending flight-number order with
  skip/limit, the latest flight number (100 on an empty store), upsert, and
  scheduling. Scheduling checks the target against the planet names, then
  numbers the launch latest + 1 and stamps `customers`, `upcoming` and
  `success`. It also covers abort, an update that never inserts and reports
  whether exactly one record changed. The SpaceX document mapping flattens the
  payload customers in order. The download loop saves each mapped document.
- **Launch endpoints** (`launches_controller.dfy`, module `LaunchesController`).
  A request to add a launch gets 400 "Missing required launch property" when a
  required property is falsy. This check comes before the date check. It gets
  400 "Invalid launch date" when the date does not parse. Otherwise it gets 201
  with the whole request body echoed back, any extra properties included, its
  date replaced by the parsed one. A request
  to abort an unknown flight number gets 404 "Launch not found" and changes
  nothing. A known one gets 200 carrying the abort result.

`wrappers.dfy` holds the shared `Option` and `Result` types.

What is a parameter rather than modelled:

- The SpaceX download is the `docs` argument of `PopulateLaunches` and
  `LoadLaunchesData`.
- The planet store that scheduling consults is the `planetNames` set.
- `new Date(...)` is the `parseDate` function argument, where `None` is the
  invalid date.
- The CSV stream is an already-parsed `seq<Row>`.

Behaviour of the code worth noting:

- The loader appends to an in-memory list, so a second load appends the
  habitable rows again; nothing deduplicates them (`Planets.ReloadDuplicates`).
- Abort answers 200 with the boolean result even when nothing changed.
- The abort result is Mongo's `modifiedCount === 1`. A record that is already
  aborted is not modified, so a repeated abort reports `false`
  (`Launches.RepeatAbortReportsFalse`).
- `getLatestFlightNumber` returns the largest stored number even when it is
  below 100. The default applies only to an empty store.
- Nothing in these files writes the `planets` collection that
  `scheduleNewLaunch` queries (`server/src/models/launches.model.js:4`,
  126-128). The planet loader only pushes rows onto an in-memory list, and
  server startup runs only that loader. So `planetNames` is whatever the
  collection happens to hold, not the catalog's `habitablePlanets` list.

## Model

| member | source | states |
|---|---|---|
| Query.GetPagination | server/src/services/query.js:4-19 | skip and limit are non-negative; a missing, NaN or zero limit is 0 (no limit), a given one is its magnitude; a missing, NaN or zero page skips nothing; a given page is its magnitude and skips `(page - 1) * limit` |
| Query.PageFromSkip | server/src/services/query.js:12-14 | with a positive limit, skip is a whole number of pages and `skip / limit + 1` gives back the page asked for |
| Query.FirstPageSkipsNothing | server/src/services/query.js:12-14 | page 1, explicit (1 or -1) or defaulted, gives skip 0 |
| Query.NoLimitSkipsNothing | server/src/services/query.js:13-14 | without a limit the result is skip 0, limit 0 whatever the page |
| Query.NegativeIsMagnitude | server/src/services/query.js:12-13 | negative page and limit give the same pagination as their magnitudes |
| Query.Examples | server/src/services/query.js:11-20 | `{}` gives `{0, 0}`; page 2, limit 10 gives `{10, 10}`; page -3, limit 5 is page 3 |
| Planets.HabitableThresholds | server/src/models/planets.model.js:7-14 | a row is habitable exactly when its disposition is `CONFIRMED`, 0.36 < insolation < 1.11 and radius < 1.6; every bound is excluded |
| Planets.IsHabitablePlanet | server/src/models/planets.model.js:7-14 | the habitability rule: confirmed disposition, insolation strictly between the two bounds, radius strictly below the bound (its consequences are stated by `Planets.HabitableThresholds`) |
| Planets.HabitableRows | server/src/models/planets.model.js:31-38 | the kept rows are all habitable and no more than the input rows |
| Planets.HabitableRowsCount | server/src/models/planets.model.js:31-38 | each habitable row is kept as many times as it occurs in the stream; a row that is not habitable is never kept |
| Planets.KeptIffHabitable | server/src/models/planets.model.js:31-38 | a row is kept if and only if it occurs in the stream and is habitable |
| Planets.HabitableRowsAppend | server/src/models/planets.model.js:31-38 | filtering a stream in two pieces gives the two results concatenated, so stream order is kept |
| Planets.HabitableRowsIdempotent | server/src/models/planets.model.js:7-14 | filtering an already filtered list changes nothing |
| Planets.ReloadDuplicates | server/src/models/planets.model.js:5-38 | reading the same stream twice keeps every habitable row twice, so the list grows by twice the habitable count |
| Planets.PlanetCatalog.constructor | server/src/models/planets.model.js:5 | the list starts empty |
| Planets.PlanetCatalog.LoadPlanetsData | server/src/models/planets.model.js:16-49 | the list becomes its old contents followed by exactly the habitable rows of the stream, in stream order |
| Planets.PlanetCatalog.GetAllPlanets | server/src/models/planets.model.js:51-53 | returns the accumulated list unchanged |
| Launches.PayloadCustomers | server/src/models/launches.model.js:46-48 | a customer is in the flattened list if and only if some payload lists it |
| Launches.PayloadCustomersAppend | server/src/models/launches.model.js:46-48 | flattening keeps payload order: the customers of `a + b` are those of `a` followed by those of `b` |
| Launches.PayloadCustomersCount | server/src/models/launches.model.js:46-48 | the flattened list is as long as all payloads' customer lists together |
| Launches.LaunchFromDoc | server/src/models/launches.model.js:43-58 | the record takes flight number, name, rocket name, local date, `upcoming` and `success` from the document, has no target, and its customers are the payloads' customer lists flattened in payload order |
| Launches.SortedNumbers | server/src/models/launches.model.js:92 | the stored flight numbers, each once, strictly ascending |
| Launches.Ordered | server/src/models/launches.model.js:89-95 | one entry per stored record, ascending by flight number |
| Launches.OrderedHasRecord | server/src/models/launches.model.js:89-95 | every stored record appears in the ordered listing |
| Launches.OrderedRecordIsStored | server/src/models/launches.model.js:89-95 | every entry of the ordered listing is the record stored under its flight number |
| Launches.Window | server/src/models/launches.model.js:93-94 | entry `i` of the window is entry `skip + i` of the input; past the end it is empty; limit 0 keeps all the rest, otherwise at most `limit` entries |
| Launches.ListEverything | server/src/models/launches.model.js:89-95 | skip 0, limit 0 returns every stored record in ascending flight-number order |
| Launches.ListSecond | server/src/models/launches.model.js:89-95 | with two or more records, skip 1, limit 1 returns exactly the second record of the flight-number ordering |
| Launches.SecondHasOneBefore | server/src/models/launches.model.js:92 | in the ascending sort, the second record's flight number has exactly one smaller stored flight number, the first record's |
| Launches.LastIsLatest | server/src/models/launches.model.js:97-108 | the last record of the ascending ordering carries the latest flight number, the one the descending sort's first record gives |
| Launches.LatestFlightNumber | server/src/models/launches.model.js:97-108 | 100 on an empty store, otherwise a stored flight number no smaller than any other |
| Launches.ScheduledBecomesLatest | server/src/models/launches.model.js:135-144 | a launch numbered latest + 1 becomes the latest once saved, so the next one is numbered after it |
| Launches.AbortedStore | server/src/models/launches.model.js:147-161 | an abort never adds or removes a flight number |
| Launches.AbortModifiesIff | server/src/models/launches.model.js:151-161 | an abort modifies a record if and only if the record exists and is still upcoming or successful |
| Launches.AbortModifies | server/src/models/launches.model.js:161 | the abort result `modifiedCount === 1`: the record exists and aborting it changes it (characterised by `Launches.AbortModifiesIff`) |
| Launches.RepeatAbortReportsFalse | server/src/models/launches.model.js:151-161 | after an abort, aborting the same flight number again modifies nothing and reports false |
| Launches.AbortTouchesOnlyItsRecord | server/src/models/launches.model.js:151-159 | an abort leaves every other record as it was |
| Launches.SaveAllStoresEveryDoc | server/src/models/launches.model.js:42-61 | saving the documents keeps each record under its own number, adds exactly the documents' flight numbers and stores every one of them |
| Launches.SaveAll | server/src/models/launches.model.js:42-61 | the store after saving each mapped document in order, a later document replacing an earlier one with the same flight number |
| Launches.SaveAllStoresLastDoc | server/src/models/launches.model.js:42-61 | the record stored under a document's flight number is that document's mapped launch when no later document carries the same number |
| Launches.SaveAllKeepsUntouched | server/src/models/launches.model.js:42-61 | a stored record whose flight number no document carries keeps its value |
| Launches.Matches | server/src/models/launches.model.js:81-83 | the `findOne` filter: the empty filter matches every launch, a launch matches the filter of its own number, rocket and mission, and a filter naming another flight number matches nothing |
| Launches.LaunchStore.FindLaunch | server/src/models/launches.model.js:81-83 | returns a stored record that matches the filter, or nothing exactly when no stored record matches |
| Launches.LaunchStore.ExistsLaunchWithId | server/src/models/launches.model.js:85-87 | true if and only if a record with that flight number is stored |
| Launches.LaunchStore.GetAllLaunches | server/src/models/launches.model.js:89-95 | the records ascending by flight number, the first `skip` left out and at most `limit` returned (0 = all), each one a stored record |
| Launches.LaunchStore.GetLatestFlightNumber | server/src/models/launches.model.js:97-108 | 100 on an empty store, otherwise the largest stored flight number |
| Launches.LaunchStore.SaveLaunch | server/src/models/launches.model.js:113-121 | upsert: afterwards the record under that flight number is the given one, and every other record is as it was |
| Launches.LaunchStore.ScheduleNewLaunch | server/src/models/launches.model.js:123-145 | fails with "No matching planet found" and leaves the store unchanged exactly when the target is not a known planet; otherwise adds exactly one record, numbered latest + 1 and above every stored number, with the caller's fields except `customers = ["Zero to Mastery", "NASA"]`, `upcoming = true`, `success = true` |
| Launches.LaunchStore.AbortLaunchById | server/src/models/launches.model.js:147-162 | never inserts; sets `upcoming` and `success` to false on the matching record only; returns true if and only if that record existed and was changed |
| Launches.LaunchStore.PopulateLaunches | server/src/models/launches.model.js:42-61 | the store becomes the old store with every mapped document saved, in document order |
| Launches.LaunchStore.LoadLaunchesData | server/src/models/launches.model.js:66-79 | when the first SpaceX launch is already stored nothing changes; otherwise every document is saved |
| LaunchesController.HttpAddNewLaunch | server/src/routes/launches/launches.controller.js:13-47 | 400 "Missing required launch property" if and only if a required property is falsy; 400 "Invalid launch date" if and only if all are present and the date does not parse; 201 otherwise, echoing mission, rocket, target and every other property sent, with the parsed date |
| LaunchesController.MissingDateIsMissingProperty | server/src/routes/launches/launches.test.js:57-67 | a body without `launchDate` gets the missing-property error, never the date error |
| LaunchesController.UnparseableDateIsInvalid | server/src/routes/launches/launches.test.js:69-79 | a complete body whose date does not parse gets 400 "Invalid launch date" |
| LaunchesController.CompleteRequestIsCreated | server/src/routes/launches/launches.test.js:40-55 | a complete body with a valid date gets 201, keeping its other properties and carrying the parsed date |
| LaunchesController.HttpAbortLaunch | server/src/routes/launches/launches.controller.js:49-61 | an unknown flight number gets 404 "Launch not found" and nothing is aborted; a known one is aborted and gets 200 with whether the record changed |

## Left out

- The HTTP call to the SpaceX API and its status check (`populateLaunches` lines 13-40). The downloaded documents are a parameter.
- The Mongo connection lifecycle (`server/src/services/mongo.js`), server startup (`server/src/server.js`) and the Express middleware, CORS, logging and static fallback (`server/src/app.js`). These are framework plumbing.
- The Mongoose schema (`server/src/models/launches.mongo.js`) is used only as the field list of `Launch`. The planet schema (`planets.mongo`) is not part of this model: scheduling takes the set of known planet names.
- `httpGetAllPlanets` only forwards `getAllPlanets`. `httpGetAllLaunches` calls `getAllLaunches()` without skip or limit. Neither is modelled.
- CSV parsing, file streaming, the stream's `error` rejection and the `end` log line. Rows arrive already parsed.
- Numeric coercion of CSV fields. Insolation and radius are exact reals, so `NaN` and IEEE rounding are not modelled.
- Query parameters that are not whole numbers (`"2.5"`). A query number is an integer or `NaN`.
- JSON request properties that are not strings, the extra properties echoed by `HttpAddNewLaunch` included. Falsy is modelled as absent or the empty string.
- Non-numeric abort ids (`Number("abc")`). The flight number is an integer.
- Date parsing. It is a function argument.
- Concurrency. The read-max-then-insert race in `scheduleNewLaunch` is modelled as one atomic step. The controller's un-awaited calls are modelled as synchronous calls.
- LaunchesController.HttpAddNewLaunch: does not persist the launch. The controller calls `addNewLaunch`, which the launches model does not export. As written, that call throws a TypeError on `undefined`, so the source never sends the 201. The model describes the intended response: validation, then 201 with the echoed body.
- LaunchesController.HttpAbortLaunch: the controller does not await `existsLaunchWithId` or `abortLaunchById`. As written, the first returns a Promise, which is always truthy, so the 404 branch never runs; the 200 body is the serialised Promise rather than the boolean. The model describes the intended, awaited behaviour.
- Launches.LaunchStore.ScheduleNewLaunch: returns the scheduled launch. The source instead mutates its argument with `Object.assign`, and nothing else is modelled about that mutation.
- Launches.LaunchStore.SaveLaunch: replaces the whole record. It does not model Mongo's `$set` merge, which keeps stored fields that the update leaves out.
- Launches.LaunchStore.GetAllLaunches: returns whole records. The projection `{ __id: 0, __v: 0 }` (`server/src/models/launches.model.js:91`) is not modelled; since `__id` misspells `_id`, the source still returns `_id` and drops only `__v`.
- Launches.LaunchStore.PopulateLaunches: the source does not await each `saveLaunch` (`server/src/models/launches.model.js:60`), so `populateLaunches` and `loadLaunchesData` return once the upserts are sent, and two documents with the same flight number may be saved in either order. The model performs the saves one after the other, in document order and complete when the method returns, so a later document always wins.
- Launches.LaunchStore.FindLaunch: returns some matching record, not the first one in the collection's natural order.
- Launches.LaunchFromDoc: SpaceX's `success` is a boolean here. The API's `null` for launches that have not flown is not modelled.
- A launch without a target never matches a planet, whereas Mongo would drop the undefined `keplerName` from the query.
- The test file expects the date error with two trailing spaces (`server/src/routes/launches/launches.test.js:77`). The controller sends "Invalid launch date" without them. The model follows the controller.
