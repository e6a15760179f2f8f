# AernHome dashboard core, modelled in Dafny

AernHome is a small home-server dashboard. This project models the part of
its back end that decides what the dashboard shows:

- the two probe drivers, which turn what an HTTP request and a container
  lookup observed into a status (`up`, `down`, `degraded`, `unknown`), a
  response time and an error text;
- the per-service evaluation, which combines the two probes according to the
  service's `check_type` (`http`, `docker`, `both`);
- the two SQLite tables:
  - `services`, seeded from the built-in catalog by inserting every entry
    whose name is missing;
  - `health_checks`, where each verdict is appended and records older than
    7 days are pruned;
- the `/api/health` round:
  - every enabled service is evaluated and its verdict saved;
  - the service gets the `public_url` of the first catalog entry with its
    name;
  - it also gets a sparkline of up/down flags from the last 24 hours of
    checks, read before this round's saves;
- the 72 micro-season calendar:
  - the `(month, day)` lookup table built when the module loads. Entries
    that cross a month end are stored with sentinel days past the month's
    last day;
  - the lookup that returns a season's fields and readable start and end
    dates.

Modules follow the program's structure:

- `Base`: `Option`, and decimal rendering and parsing of integers.
- `Probes`: `check_http_health`, `check_docker_health`.
- `Registry`: catalog entries, the services table, seeding.
- `Evaluator`: `check_service_health`.
- `History`: the health_checks table, pruning, the sparkline query and grouping.
- `Storage`: a `Database` class holding both tables, with seeding and saving
  as methods that update it in place.
- `Summary`: `api_health`.
- `Seasons`: the micro-season table and lookup.

Things the program takes from its environment are parameters:

- What a probe would observe is a value: an `HttpOutcome` or a
  `DockerOutcome`. The container library being missing is the `Unavailable`
  outcome.
- The current time is an integer number of seconds. `ApiHealth` takes the
  time of its sparkline query and a `clock` giving the time of each save.
- Its `http` and `docker` parameters give what the probes of the i-th
  enabled service would observe.

Records are kept in insertion order. The model renders `ORDER BY checked_at
ASC` as a stable sort: rows with equal timestamps stay in insertion order.
This is a choice of the model, not a promise SQLite makes.

## Model

| member | source | states |
|---|---|---|
| Probes.CheckHttpHealth | app.py:194-214 | The status is up exactly for a 200 or 302 answer; every other outcome is down. The error is absent exactly when the status is up. Any answer carries its measured time. Other codes give "HTTP <code>". A timeout gives down with 5000 ms and "Timeout". A connection error gives down, no time, and "Connection refused". Any other exception gives its own text. |
| Probes.HttpErrorNamesCode | app.py:208 | Two unhealthy answers with the same error text had the same status code. The "HTTP <code>" text identifies the code. |
| Probes.CheckDockerHealth | app.py:217-236 | Up exactly for a container found in state "running". Unknown exactly when the container library is unavailable, with "Docker library not available". Any other state: down with "Container status: <state>". Not found: down with "Container not found". Any other exception: down with its text. The error is absent exactly when up. |
| Evaluator.CheckServiceHealth | app.py:239-269 | The verdict equals the per-mode reference `Evaluate`, and the probes asked equal `Consulted`. http: the HTTP verdict, the initial unknown verdict without a url, and the container is never asked. docker: the container's status and error, never a response time, and the endpoint is never asked. both without a url: unknown, and nothing is asked. both with the endpoint not up: the HTTP verdict verbatim, and the container is not asked. both with the endpoint up and no container: the HTTP verdict verbatim, and the container is not asked. both with the endpoint up and a container: the HTTP time, with up if the container is up, otherwise degraded with the container's error. Any other check_type: unknown. |
| Evaluator.EvaluateByMode | app.py:244-267 | The reference verdict per check mode, with the probes each mode asks: the cases listed for `CheckServiceHealth`, stated as one all-inputs lemma over `Evaluate` and `Consulted`. |
| Registry.InsertIfMissingValid | app.py:163-180 | One seeding step keeps the table's guarantees: ids increasing and below the next id, names unique. |
| Registry.SeededValid | app.py:136-146 | Seeding the whole catalog keeps ids increasing and below the next AUTOINCREMENT id, and names UNIQUE. |
| Registry.SeededKeepsRows | app.py:163-180 | Existing rows stay, unchanged, as a prefix of the seeded table. The next id never decreases. |
| Registry.SeededAddsOnlyMissing | app.py:164-180 | Every row seeding adds is built from a catalog entry whose name had no row before. |
| Registry.SeededCoversCatalog | app.py:163-180 | After seeding, every catalog name has a row. |
| Registry.SeededNoop | app.py:164-165 | When every catalog name already has a row, seeding changes nothing. |
| Registry.SeededIdempotent | app.py:162-180 | Seeding twice gives the same table as seeding once. |
| Registry.SeededNamesOnce | app.py:138 | On a valid table, every catalog name ends up in exactly one row. |
| Storage.Database.constructor | app.py:135-160 | Both tables start empty and valid. |
| Storage.Database.Seed | app.py:163-180 | The loop leaves the services table equal to `Seeded` of the old table and the catalog. It keeps both tables valid and leaves health_checks unchanged. |
| History.SavedContents | app.py:272-288 | The next id advances by one, and the new record is present. No record older than now minus 7 days remains. Every younger record is kept. Nothing but the new record is added. |
| History.SavedShape | app.py:276-286 | The saved rows are the old rows not older than the horizon, in order, followed by the new record. |
| History.SavedValid | app.py:151-159 | Saving keeps ids increasing and below the next id. The only record with the new id is the one just saved. |
| Storage.Database.SaveHealthCheck | app.py:272-288 | The insert followed by the prune leaves health_checks equal to `Saved` of the old table. It keeps services unchanged and both tables valid. |
| History.AtOrAfterMembers | app.py:285 | The kept rows are exactly the rows not earlier than the cutoff. |
| History.AtOrAfterIdsIncreasing | app.py:284-286 | Deleting rows keeps ids increasing. |
| History.AtOrAfterKeepsAll | app.py:560 | When no row is earlier than the cutoff, the filter keeps every row. |
| History.SortByTime | app.py:557-562 | The query result is in ascending time order and is a permutation of the selected rows. |
| History.InsertByTimeChronological | app.py:561 | Inserting a row into a time-ordered sequence keeps it time-ordered. |
| History.SortByTimeKeepsChronological | app.py:561 | Rows already in time order are returned unchanged. |
| History.ForServiceMembers | app.py:568-572 | The records kept are exactly those of the given service. |
| History.ForServiceChronological | app.py:566-572 | Selecting one service's records keeps them in time order. |
| History.ForServiceCount | app.py:566-572 | Each record occurs among one service's records as often as among all records if it belongs to that service, and otherwise not at all. |
| History.ForServicePermutation | app.py:566-572 | Selecting one service's records commutes with reordering. |
| History.ForServiceKeepsAll | app.py:569-570 | When every record belongs to the service, the selection keeps them all. |
| History.UpFlags | app.py:572 | There is one flag per record, true exactly when the record is up. |
| History.SparklineAppend | app.py:568-572 | One more query row extends its own service's sparkline by that row's flag and leaves every other sparkline unchanged. |
| History.SparklineOfWindow | app.py:556-572 | A service's sparkline has one flag per record of that service from the last 24 hours, oldest first: exactly those records, up-or-not. It is empty when the service has no such record. |
| History.SparklineExample | app.py:556-572 | Three checks of one service within 24 hours, up, down, up, give the sparkline true, false, true. |
| Summary.GroupSparklines | app.py:566-572 | The grouped map has a key exactly for each service id in the query rows. Every id, present or not, looks up (default `[]`) to that service's sparkline. |
| Summary.EnabledRowsMembers | app.py:553 | The rows returned are exactly the services whose enabled column is 1. |
| Summary.PublicUrlOf | app.py:586-591 | It is the public_url of the first catalog entry with the name, or None when no entry has it. |
| Summary.FindPublicUrl | app.py:586-591 | The search loop with its break returns `PublicUrlOf`. |
| Summary.RoundSummariesAt | app.py:574-606 | The answer has one summary per enabled service, in order; the i-th is built from the i-th service, its verdict, its catalog public url and its sparkline. |
| Summary.CheckAndSave | app.py:576-606 | One turn of the service loop. The element built holds the service's fields, its `Evaluate` verdict, the catalog's public url and the service's grouped sparkline, defaulting to `[]`. health_checks becomes `Saved` of the old table with that verdict. services is unchanged and both tables stay valid. |
| Summary.ApiHealth | app.py:545-608 | There is one result per enabled service, in table order. Each result holds the service's fields, its evaluated verdict, the catalog's public url, and its sparkline from the 24-hour window read before any save. health_checks ends as the old table with each result saved in turn. services is unchanged, and both tables stay valid. |
| Seasons.RealDate | app.py:724-733 | Within a month, a stored day is its own date, `(m, d)`. A sentinel day past the month's end becomes `((m % 12) + 1, d - days_in_month[m])`, at day 1 or later. For a real month, any day up to the length of that month and the next gives a real calendar date. |
| Seasons.InRangeIsImageOfRealDate | app.py:722-733 | The closed-form set of keys of a day range is exactly the set of dates `RealDate` gives for those days, in both directions. |
| Seasons.InRangeStep | app.py:722 | Taking one more day into the range adds exactly that day's date. |
| Seasons.CoveredKeysAreDates | app.py:723-733 | Every key of a well-formed entry is a real calendar date. |
| Seasons.SeasonTableStep | app.py:720-733 | Pointing the keys of one more entry at it extends the table: each key names the last entry so far that covers it. |
| Seasons.AddSeasonDays | app.py:722-733 | After the inner loop over one entry's stored days, the keys are the old keys plus exactly the real dates those days stand for. Those dates point at the entry; every other key keeps its old value. |
| Seasons.BuildSeasonTable | app.py:720-733 | A key is present exactly when some entry covers it. It names an entry that covers it and that no later entry covers, so later entries win. With well-formed entries, every key is a real date. |
| Seasons.MonthAbbr | app.py:756-757 | A month has an abbreviation exactly when it is 1 to 12. |
| Seasons.CurrentMicroSeason | app.py:736-782 | The error dict is returned exactly when the date is not in the table, with the text "No micro-season found for M/D". An entry with a real month always gives the season's fields, with total 72. The start and end labels name real months, the sentinel days moved into the next month. A month with no name is the KeyError path. |
| Seasons.LookupFindsCoveringSeason | app.py:720-751 | Over the built table, a date answers with the last entry that covers it. |
| Seasons.NoSeasonNamesDate | app.py:747-749 | Two "no season" answers with the same text were asked for the same month and day: the "No micro-season found for M/D" text identifies the date. |
| Seasons.LeapDayHasNoSeason | app.py:747-749 | With well-formed entries, February 29 is in no entry and gets the error dict. |
| Seasons.SampleSeasonsCovers | app.py:632-713 | The sample entries are well formed. The entry stored as December 32 to 35 covers each of January 1 to 4, and neither December 31 nor January 5. The one stored as March 31 to 35 covers April 4 but not April 5. |
| Seasons.SampleNewYear | app.py:705-706 | January 2 answers with season 66, labelled "Jan 1" to "Jan 4". |

## Left out

- The Flask routes other than `/api/health`, the HTML templates, the static pages, the legal pages and the podcast endpoints: presentation and I/O, outside the dashboard's core logic.
- `get_system_stats` and `/api/stats`: host introspection (disk usage, psutil, the Docker client), a JSON file read and float rounding, outside the health-check core.
- `/api/season` itself: it only reads the clock and calls the lookup. The lookup is modelled as `CurrentMicroSeason`.
- The network request, the container client, the wall clock and the measurement of elapsed time. They are parameters: `HttpOutcome`, `DockerOutcome`, `now` and `clock`. The truncation of the elapsed seconds to whole milliseconds is part of `elapsedMs`.
- SQLite itself:
  - connections, commits and concurrent requests. Two overlapping `/api/health` calls are not modelled;
  - the textual timestamp comparison: times are integer seconds, and `datetime('now', ...)` is `now` minus a constant;
  - `created_at`: never read by the core;
  - the foreign key from health_checks to services: SQLite does not enforce it by default, and the model does not either.
- History.Saved: the insert's `CURRENT_TIMESTAMP` and the prune's `datetime('now')` are read separately in the program. The model uses one `now` for both.
- Summary.EnabledRows: `SELECT * FROM services WHERE enabled = 1` has no `ORDER BY`, and SQLite does not promise an order. The model returns the rows in table order.
- History.SortByTime: SQLite leaves the order of rows with equal `checked_at` unspecified. The model keeps them in insertion order, which is one of the orders SQLite may return.
- The literal contents of `DEFAULT_SERVICES` and `_MICRO_SEASONS`: every operation is proved for any catalog and any calendar. `SampleSeasons` holds five of the 72 entries, among them three of the eleven entries that cross a month end.
- `print` after seeding and the creation of the data directory: I/O.
