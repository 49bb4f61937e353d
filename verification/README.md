# Services API: repository and handlers, modelled in Dafny

This project models the core of a small Go JSON API. The API keeps a table of
*services*, each with an id, a title, a description and a version. It offers
create, show, partial update (PATCH), delete and a paginated, searchable,
sortable listing. Two layers are modelled:

- **The repository** (`ServiceModel` in `internals/data/service.go`):
  - `ValidateService` checks the title and the description.
  - `Insert`, `Get`, `Update`, `Delete` and `GetAll` run one SQL statement
    each against the services table.
  - The table is a `map<int, Record>` together with its id sequence (`nextId`).
  - Each statement's meaning is a pure function (`InsertRow`, `UpdateRow`,
    `DeleteRow`, and `Ordered`/`Window`/`SelectPage` for the listing). The
    methods of the `ServiceModel` class apply these functions to its fields.
  - Insert and Update write the id and version the store returns back into
    the caller's `Service` object, as the Go code does through `Scan`.
  - `Update` is optimistic locking: a compare-and-swap on `(id, version)`.
    A row that is missing or whose version moved on gives `EditConflict`.
  - `GetAll` scans the result set row by row. Each row carries the
    `COUNT(*) OVER()` window count, so when the page is empty the total it
    reports stays 0, even though rows match, because the offset skips all of them.
- **The handlers** (`cmd/api/service.go`):
  - Each handler takes a request that is already decoded. An id parameter that
    did not parse is `None`, and so is a body that did not decode.
  - Each handler returns the sequence of responses it writes, as kinds (not
    found, conflict, validation failed with its error map, ok with a body).
  - The update handler is split into `BeginUpdate` (Get, decode, merge,
    validate) and `CommitUpdate` (Update, answer). This lets `RacingUpdates`
    interleave two requests and show that the second one gets `Conflict`.

Store failures (timeouts, lost connections) are a `fault: Option<string>`
argument of each store call. `Some(reason)` makes the call fail with
`OtherError(reason)` and leaves the table unchanged.

Three inputs are parameters:

- The full-text search (`to_tsvector … @@ plainto_tsquery`) is an opaque
  predicate `matches(title, query)`.
- The database collation of titles is an abstract strict total order `less`
  (`Collation`).
- The filter helpers, which are not part of this model (`ValidateFilters`,
  `sortColumn`, `sortOrder`, `limit`, `offset`), are the function values of a
  `FilterOps` record. `calculateMetadata` is a function argument with a generic
  result type.

The validator's source is not part of this model. Its `Check` is taken to
record a message under a field when the condition is false, unless that field
already holds a message: the first failure per field is kept.

Files: `errors.dfy` (Errors), `store.dfy` (Store), `ordering.dfy` (Ordering),
`listing.dfy` (Listing), `validation.dfy` (Validation), `service.dfy` (Data),
`handlers.dfy` (Api).

## Model

| member | source | states |
|---|---|---|
| Store.InsertRow | internals/data/service.go:39-54 | the new row gets a fresh id (at least 1, not yet in the table) and version 1; the table gains exactly that row and stays well formed |
| Store.UpdateRow | internals/data/service.go:100-131 | the UPDATE returns a version exactly when the row exists with the given version; the returned version is the old one + 1 and the row takes the new title and description; otherwise the table is unchanged |
| Store.DeleteRow | internals/data/service.go:141-165 | at most one row is affected, exactly one iff the id is stored; only that key goes and the other rows are unchanged |
| Store.UpdateRowKeepsWellFormed | internals/data/service.go:100-108 | an UPDATE keeps ids in range, keyed and with versions at least 1 |
| Store.NoLostUpdate | internals/data/service.go:100-131 | of two updates that both carry the version they read, the first succeeds with version + 1; the second matches no row and changes nothing, so the first one's values stay |
| Ordering.BeforeIsStrictTotalOrder | internals/data/service.go:177 | `ORDER BY col dir, id ASC` is irreflexive, transitive and total on rows with distinct ids, for every sort key |
| Ordering.TitleAloneIsNotTotal | internals/data/service.go:177 | for any two rows with equal titles, the title alone leaves them unordered; with the id tiebreaker the smaller id comes first in both directions |
| Ordering.InsertSorted | internals/data/service.go:177 | inserting a row into a listing adds exactly that row (multiset) |
| Ordering.SortRecords | internals/data/service.go:177 | sorting is a permutation of the rows (multiset) |
| Ordering.InsertSortedIsSorted | internals/data/service.go:177 | inserting a row with a new id into a sorted listing keeps it sorted |
| Ordering.SortRecordsIsSorted | internals/data/service.go:177 | rows with distinct ids come out strictly sorted under the key |
| Ordering.SortedIsUnique | internals/data/service.go:177 | two sorted arrangements of the same rows are equal: the order is deterministic |
| Listing.Matching | internals/data/service.go:176 | every row returned is stored, passes the WHERE clause and lies in the id range; ids strictly increase |
| Listing.MatchingIsComplete | internals/data/service.go:176 | every stored row in range that passes the WHERE clause is returned |
| Listing.OrderedHoldsMatchingRows | internals/data/service.go:172-177 | the listing holds exactly the stored rows that the WHERE clause keeps |
| Listing.OrderedIsSorted | internals/data/service.go:177 | the listing is strictly sorted under the sort key |
| Listing.OrderedIsUnique | internals/data/service.go:177 | any sorted arrangement of the matching rows equals the listing |
| Listing.MatchingCount | internals/data/service.go:173 | the scan returns as many rows as there are matching ids in the range |
| Listing.OrderedCount | internals/data/service.go:173 | `COUNT(*) OVER()` is the number of stored rows that the WHERE clause keeps |
| Listing.EmptyQueryMatchesAll | internals/data/service.go:176 | an empty search string (`$1 = ''`) keeps every row of the table |
| Listing.Window | internals/data/service.go:178 | `LIMIT/OFFSET` yields at most `limit` rows, exactly `min(limit, n - offset)` of them (0 past the end), and row i is row offset + i |
| Listing.SelectPage | internals/data/service.go:172-178 | the result set has at most `limit` rows, each a stored row the WHERE clause keeps, beside the number of stored rows the WHERE clause keeps; row i is row offset + i of the ordered listing |
| Listing.ConsecutivePages | internals/data/service.go:178 | two consecutive pages together are the page of both sizes: nothing is skipped or repeated |
| Listing.WindowIsSorted | internals/data/service.go:177-178 | a page of a sorted listing is sorted |
| Listing.ListingPage | internals/data/service.go:172-178 | a page has at most `limit` rows, all stored and matching, in sort order; the count is the number of matching rows; the page is empty iff the offset is past them or the limit is 0 |
| Validation.Recorded | internals/data/service.go:30-34 | a passing check leaves the errors alone; a failing one adds its key, keeping an earlier message for that key; other keys are untouched |
| Validation.RecordedIdempotent | internals/data/service.go:30-34 | repeating an identical check changes nothing |
| Validation.Validator.constructor | cmd/api/service.go:33 | a new validator has no errors |
| Validation.Validator.Check | internals/data/service.go:30-34 | the error map after a check is `Recorded` of the one before |
| Data.Utf8Width | internals/data/service.go:31 | a character takes 1 to 4 bytes, exactly 1 iff it is ASCII |
| Data.Utf8Length | internals/data/service.go:31 | Go's `len` of a string is between its character count and 4 times that, and equal to the count iff the string is ASCII |
| Data.ServiceViolations | internals/data/service.go:28-35 | only title and description can be flagged; each is flagged iff empty or over its byte limit (200 and 2000), with "must be provided" for the empty case and the limit message otherwise |
| Data.ServiceValidIff | internals/data/service.go:28-35 | a service validates iff both fields are non-empty and within their byte limits |
| Data.Service.constructor | internals/data/service.go:15-21 | the new service holds the given id, title, description and version |
| Data.ValidateService | internals/data/service.go:28-35 | the validator gains exactly `ServiceViolations` of the fields; earlier messages win |
| Data.ScanRows | internals/data/service.go:191-211 | the scan collects every row's service in order, and the total is the last row's count, or 0 when there are no rows |
| Data.ServiceModel.constructor | internals/data/service.go:23-26 | the model wraps a well-formed table and id sequence |
| Data.ServiceModel.Insert | internals/data/service.go:38-56 | on success the service gets a fresh id and version 1, and the table gains exactly that row; on a store failure nothing changes; the title and description are never changed |
| Data.ServiceModel.Get | internals/data/service.go:59-96 | ids below 1 are `RecordNotFound` before any store call; a store failure is passed on; a missing row is `RecordNotFound`; a stored row comes back as a new object with the stored values |
| Data.ServiceModel.Update | internals/data/service.go:100-132 | succeeds iff the row exists with the service's version; then the version is + 1 in both the row and the object, and the row holds the new fields; otherwise `EditConflict` and nothing changes |
| Data.ServiceModel.Delete | internals/data/service.go:135-167 | ids below 1 are `RecordNotFound`; otherwise the row is gone afterwards, and the result is success iff it was there before |
| Data.ServiceModel.GetAll | internals/data/service.go:170-219 | a store failure is passed on; otherwise the services are the requested page of the sorted matching rows, and the metadata is computed from the matching count (0 when the page is empty), the page and the page size |
| Data.InsertThenGet | internals/data/service.go:38-96 | Insert then Get on the id Insert wrote back: with no store failure the service reads back with the given title and description and version 1, under a fresh id, and the table gains exactly that row |
| Api.LookupFailure | cmd/api/service.go:68-76 | `RecordNotFound` gives 404 and every other error gives 500 |
| Api.UpdateFailure | cmd/api/service.go:140-149 | `EditConflict` gives 409 and every other error gives 500 |
| Api.Merged | cmd/api/service.go:121-127 | a patched field takes the new value, an absent one keeps the stored value; id and version are untouched |
| Api.MergeIdempotent | cmd/api/service.go:121-127 | applying a patch twice equals applying it once, and the empty patch changes nothing |
| Api.ListFilters | cmd/api/service.go:198-206 | absent parameters default to page 1, page size 20 and sort "id"; given ones are kept; the allow-list is id, title, -id, -title |
| Api.CreateService | cmd/api/service.go:13-55 | a bad body gives 400; invalid fields give 422 with the violations; a store failure writes 500 and then 201 with an unsaved record (id 0, not in the table); otherwise 201 with the stored row |
| Api.CreateServiceCorrected | cmd/api/service.go:13-55 | as above, but every request gets exactly one response, and a 201 always shows a row that is in the table |
| Api.ShowService | cmd/api/service.go:58-83 | a bad or non-positive id gives 404; a store failure gives 500; otherwise 200 with the stored row, or 404 |
| Api.BeginUpdate | cmd/api/service.go:85-138 | the checks run in the handler's order (id, Get, body, merge, validation); it either answers early or hands over the merged record |
| Api.CommitUpdate | cmd/api/service.go:139-155 | the Update answers 200 with the committed record and version + 1 iff the version still matches, otherwise 409; a store failure gives 500; the table changes only on success |
| Api.UpdateService | cmd/api/service.go:85-156 | one PATCH request: every early answer leaves the table unchanged; a successful one stores the merged record with version + 1 and returns it |
| Api.DeleteService | cmd/api/service.go:158-183 | a bad id gives 404; a store failure gives 500; otherwise the row is gone and the answer is 200 with "service successfully deleted" iff it existed, else 404 |
| Api.ListServices | cmd/api/service.go:187-225 | filter errors give 422; a store failure gives 500; otherwise 200 with the page that GetAll specifies |
| Api.RacingUpdates | cmd/api/service.go:94-149 | two PATCHes of one service that both read before either commits: the first gets 200 with version + 1, the second gets 409, and the first one's values stay |

## Left out

- HTTP itself is not modelled: status codes as numbers, JSON encoding and decoding, the `readIDParam`/`readJSON`/`readString`/`readInt` helpers, response headers (including the `Location` header of create) and failures of `writeJSON`. Requests arrive decoded, and responses are kinds.
- Api.ListServices: the validation errors that `readInt` records for a non-integer `page` or `page_size` are not modelled; the query parameters arrive as integers or absent.
- Routing, authentication, rate limiting and panic recovery (`cmd/api/routes.go`), and `NewModels` with the other models in `internals/data/models.go`, are not part of this model.
- `ValidateFilters`, `sortColumn`, `sortOrder`, `limit`, `offset` and `calculateMetadata` are not part of this model; they are supplied as function values, with no bodies invented for them.
- Validation.Validator.Check: the validator's source is not part of this model; the rule used is that the first failure per field is kept.
- Full-text search and title collation are opaque parameters (`matches`, `less`); only the id and title sort columns exist, as the allow-list permits.
- `created_at` is not modelled: it is neither compared nor returned by any rule here.
- Data.ServiceModel.Insert: a store failure leaves the table unchanged; a failure after the row was written (a failing `Scan` of `RETURNING`) is not modelled.
- Data.ServiceModel.Delete: a failing `RowsAffected` after the DELETE ran is modelled as a store failure that leaves the table unchanged.
- Data.ServiceModel.GetAll: failures of the query, of a row's `Scan` and of `rows.Err` are one `fault`, taken before any row is read; services come back as values, not pointers.
- Timeouts, the connection pool and concurrency other than the interleaving of two updates (`Api.RacingUpdates`) are not modelled; each statement is atomic.
- Integers are unbounded: the `int32` version and `int64` id never overflow here, and limit and offset are natural numbers.

## Findings

| source | as written | input that shows it | evidently intended | confidence | as-written member | corrected member |
|---|---|---|---|---|---|---|
| cmd/api/service.go:42-45 | after `Insert` fails, the handler writes a server error and does not return, so it goes on to write 201 with the record that was never stored (id 0, version 0) | a valid title and description with the store failing on the INSERT | return right after the server error response, as the other handlers do | high; not executed | Api.CreateService | Api.CreateServiceCorrected |
