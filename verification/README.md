# Rooms microservice: a verified model

This project models the parts of the rooms microservice where something can go wrong over time.

**The run-time guards of the HTTP middleware.** `RateLimiting` is the token bucket: a class that updates its
tokens and clock in place, a fold over call times that it is proved against, and theorems about whole runs (which
calls are accepted, in closed form over windows of calls; that no other policy within the same allowance is ever
ahead). `CircuitBreaking` is the circuit breaker: a class whose three fields are proved to be a function of the history
of calls, and bounds on how fast the guarded function can be made to fail.

**The room store.** `Database` is three tables with their primary keys, foreign keys and cascades, transactions by
snapshot and rollback, and statements any of which may fail. `RoomRepo` is the repository over it (replace-all
transactions, batch loading, the filtered listing), `RoomService` the service over that. `RoomView` says what the tables
*mean*: each room with the amenities a client gave it, free of child ids and of update times. Every service operation
that writes appends one event to a ghost log that says what it got done, also when it was cut short, and the meaning of the
tables is always the replay of that log. `ReadBack` says column by column what each operation leaves. The theorems
about runs (derived columns, recovery by retry, conservation of availability) are lemmas about replays and so hold of
every state the service can reach. `Refinement` connects the single committed writes to the meaning; `Coefficient` is
the recommendation coefficient and its algebra; `QueryBuilder` is the parameterised listing, and `Paging` says what its
missing tie-break leaves open.

Conventions. Identifiers are ranks in text order, so the empty string is 0 and a UUIDv7 source (sections 5.7 and 6.2 of
RFC 9562) issues ever larger ones. `float64` is `real`. The clock and the guarded function's behaviour are parameters or
nondeterministic. The ghost counters `faults` and `refusals` of the database count injected failures and constraint
refusals; contracts of the form "succeeds if and only if `faults` did not grow" say that nothing else can fail, and
"`refusals` is unchanged" that no key check ever turns the service away.

Where code and documentation disagree the model follows the code: a zero sum is replaced by 1.0 rather than bounded
below by it (`Coefficient.MatchesCommentIff` says exactly when the two agree; the table in the repository's own README
is a third formula); the children that `CreateRooms` returns are not the persisted ones (same content, other ids);
`total` is the length of the page; `filter.types` is never read; availability counts rows and ignores `quantity`; the
`hotelID` arguments of service `UpdateRoom` and `DeleteRoom` select nothing and are dropped.

## Model

| member | source | states |
|---|---|---|
| RateLimiting.RateLimiter.Allow | app/internal/handler/middleware.go:65-90 | an enabled call appends its time and decision to the history, which stays the replay of the bucket from the start; a disabled limiter accepts and changes nothing |
| RateLimiting.RateLimiter.constructor | app/internal/handler/middleware.go:54-62 | a limiter starts with a full bucket, the current time and no history |
| RateLimiting.RateLimiter.Take | app/internal/handler/middleware.go:73-89 | the statements under the mutex are one step of the bucket; `HistoryIsExact` says in plain arithmetic what a history of such steps accepts |
| RateLimiting.RunIsExact | app/internal/handler/middleware.go:65-90 | in every run a call is accepted if and only if every window of calls it closes has room for one more, and the stored tokens are the least room left in any window, within 0 and the burst |
| RateLimiting.RateLimiter.HistoryIsExact | app/internal/handler/middleware.go:43-90 | of the object's own times, decisions and tokens, with the arithmetic written out: a call is accepted exactly when burst + rate * seconds, less the calls accepted since, is at least 1 for every earlier call, itself included; no window accepts more than burst + rate * seconds; the tokens are the least such remainder, and the burst before any call |
| RateLimiting.RunConforms | app/internal/handler/middleware.go:77-89 | no window of calls i..j accepts more than burst + rate * (tj - ti) |
| RateLimiting.AcceptedIsCount | app/internal/handler/middleware.go:83-89 | the count of a window's acceptances is the size of the set of its accepted calls |
| RateLimiting.GreedyIsOptimal | app/internal/handler/middleware.go:83-89 | for any bounds on windows, accepting whenever every window has room is never behind other decisions within the bounds |
| RateLimiting.LimiterIsOptimal | app/internal/handler/middleware.go:77-89 | any other decisions that hold every window to burst + rate * seconds accept no more calls than the limiter on any prefix of any run |
| RateLimiting.OptimumIsUnique | app/internal/handler/middleware.go:77-89 | such decisions that keep up with the limiter on every prefix are the limiter's |
| RateLimiting.MoreGenerousAdmitsMore | app/internal/handler/middleware.go:54-90 | raising rate or burst never lowers the accepted count of any prefix of the same calls |
| CircuitBreaking.CircuitBreaker.Execute | app/internal/handler/middleware.go:127-162 | a call is rejected exactly when the circuit is open and at most the timeout has passed since the last failure; every outcome's effect on state, count and last failure, panics included; the three stay functions of the history |
| CircuitBreaking.CircuitBreaker.constructor | app/internal/handler/middleware.go:117-124 | a breaker starts closed with an empty history, for every limit and timeout |
| CircuitBreaking.CircuitBreaker.FieldsAreHistory | app/internal/handler/middleware.go:107-162 | of the object's own history: the count is the number of failures since the last success, the last failure is the end of the last failed execution, the state is closed exactly while the count is zero or below maxFailures, and half-open instead of open exactly after a panic |
| CircuitBreaking.NeverHalfOpenAtRest | app/internal/handler/middleware.go:135-161 | without panics the breaker between calls is open exactly when maxFailures calls have failed since the last success, or one if the limit is below one, else closed |
| CircuitBreaking.TrippedRunsLate | app/internal/handler/middleware.go:136-142 | once tripped, a call is run only more than the timeout after the last failure, even if a panic left the breaker half-open |
| CircuitBreaking.LoadBound | app/internal/handler/middleware.go:127-162 | in any stretch with no success, k > maxFailures failures take more than (k - maxFailures) * timeout from the first to the last, whatever was rejected or panicked between; a limit below one acts as one |
| CircuitBreaking.ExecutionBound | app/internal/handler/middleware.go:127-162 | in any stretch in which the guarded function neither succeeds nor panics, whatever happened before and after it, the same bound holds of executions |
| CircuitBreaking.ExecutionBoundIff | app/internal/handler/middleware.go:127-162 | for every limit and timeout, the bound holds of the executions of every such stretch with at most p panics exactly when p is 0 or the timeout is negative |
| CircuitBreaking.PanicsEscapeTheExecutionBound | app/internal/handler/middleware.go:136-145 | a concrete history in which a tripped breaker that a panic left half-open lets executions exceed that bound |
| Coefficient.CalculateCoef | app/internal/service/service.go:332-354 | the loops compute the coefficient of the two lists' contents |
| Coefficient.CoefFromSums | app/internal/service/service.go:332-354 | the coefficient is the product of the two running sums of multipliers, categories times their counts, a zero sum counting as 1.0 |
| Coefficient.IconsByWeight | app/internal/models/amenities.go:26-40 | which icons carry each multiplier, and that no other icon is known |
| Coefficient.TiersByWeight | app/internal/models/amenities.go:56-61 | which tier carries each multiplier |
| Coefficient.CoefOfReordering | app/internal/service/service.go:332-354 | the coefficient does not depend on the order of either list |
| Coefficient.CoefIsWholeHundredths | app/internal/models/amenities.go:26-61 | the coefficient is always a whole number of hundredths |
| Coefficient.CoefIsAtLeast | app/internal/service/service.go:339-353 | with nonnegative counts it is at least 0.8 |
| Coefficient.AddingAmenityNeverLowers | app/internal/service/service.go:333-341 | one more highlighted amenity, known or not, never lowers it |
| Coefficient.AddingCategoryLowersIff | app/internal/service/service.go:343-351 | one more category lowers it exactly when no earlier one weighs anything and it is basic with one amenity |
| Coefficient.MatchesCommentIff | app/internal/service/service.go:327-353 | the code gives the formula in its comment exactly when some icon is known and what weighs is not just one basic category of a single amenity |
| Coefficient.DepartsFromComment | app/internal/service/service.go:327-353 | inputs on each side of that condition where code and comment differ: empty lists, and any known icon with one basic category of a single amenity |
| Tables.CoefFitsColumn | app/sql/migrations/001_Rooms.up.sql:13 | the DECIMAL(10,4) column stores the computed coefficient exactly |
| Tables.Decimal4Properties | app/sql/migrations/001_Rooms.up.sql:13 | the column rounds to the nearest ten-thousandth |
| Tables.Decimal2Properties | app/sql/migrations/001_Rooms.up.sql:6 | a stored price is a whole number of cents, at most half a cent away, ties away from zero; storing it again changes nothing |
| Tables.ScanIsUnique | app/internal/repo/database_repo.go:356-360 | ORDER BY room_id, id leaves one way to list a set of child rows |
| Tables.ChildrenOfIsExact | app/internal/repo/database_repo.go:343-378 | a room's children are exactly its rows, each once, by ascending id |
| Tables.ScanSplitsByRoom | app/internal/repo/database_repo.go:356-376 | one ordered scan over many rooms holds, for each room asked for, exactly that room's own scan, and nothing for the others |
| Tables.ReplaceRowsIsExact | app/internal/repo/database_repo.go:324-337 | delete-then-insert leaves exactly the given rows for the room and every other room's rows as they were |
| Tables.ReplaceThenRead | app/internal/repo/database_repo.go:317-360 | rows with ascending ids read back in the order given; other rooms read back unchanged |
| Tables.InsertedRows | app/internal/repo/database_repo.go:60-73 | inserted rows are stored column by column, the price in cents, and all other rows stay |
| QueryBuilder.BuildConditions | app/internal/repo/database_repo.go:188-230 | for every row, the clauses with their arguments hold exactly if each of the eight optional bounds that is active holds; placeholders are $1, $2, ... in order, and the index is the next free one |
| QueryBuilder.BuildQuery | app/internal/repo/database_repo.go:180-242 | the query is conditions, ORDER BY, at most one LIMIT, at most one OFFSET, in this order; it selects exactly the rows that meet the filter, with its offset and limit; placeholders are $1, $2, ... in order, one for each of at most ten arguments |
| QueryBuilder.ExpressedClauses | app/internal/repo/database_repo.go:186-242 | clause by clause: conditions, ORDER BY, LIMIT, OFFSET, and placeholder i stands at the i-th clause that has one |
| QueryBuilder.ClauseInColumns | app/internal/repo/database_repo.go:191-230 | the comparison each kind of condition makes with its bound argument, by column |
| QueryBuilder.PageClausesMean | app/internal/repo/database_repo.go:234-242 | LIMIT and OFFSET give and skip as many rows as their bound arguments say |
| QueryBuilder.ExpressedMeaning | app/internal/repo/database_repo.go:188-244 | for every table, what a database may answer to the built query, which it must rank only because of the ORDER BY clause, are the pages of the filtered, ranked rows, and conversely |
| QueryBuilder.PageInColumns | app/internal/repo/database_repo.go:188-244 | a page, by columns: it is cut at the filter's offset and limit from the listing of exactly the stored rows within all eight bounds, each once, coefficient descending and then price ascending |
| QueryBuilder.NothingBetterIsLeftOff | app/internal/repo/database_repo.go:232-242 | a kept row off the page is not recommended above any row on it, unless it was skipped by the offset and then above them all |
| Paging.OrderByMattersIff | app/internal/repo/database_repo.go:232 | a query that means the filter but lacks the ORDER BY clause gives only answers the filter asks for exactly when all kept rows tie or the page is past their end |
| Paging.PagesTile | app/internal/repo/database_repo.go:232-242 | on every table, ties or not, pages at offsets 0, L, 2L, ... of one ranking are answers to the page requests, and laid end to end they are the ranking |
| Paging.PagesShowKeys | app/internal/repo/database_repo.go:232-242 | independent answers to the page requests laid end to end always have as many rows as the whole listing and its ranking keys at every position |
| Paging.PagesTileIff | app/internal/repo/database_repo.go:232-242 | for every page size, all admissible answers laid end to end equal all admissible answers to the unpaged request exactly when no two kept rows tie |
| Paging.PagesShowOnceIff | app/internal/repo/database_repo.go:232-242 | independent page requests always show every kept row exactly once if and only if no tie stands across a page break |
| Paging.TiedPagesMayRepeat | app/internal/repo/database_repo.go:232-242 | in any table, of any two kept rows that tie each may be the answer to two page requests running, with pages of one row |
| Paging.RanksAreUnique | app/internal/repo/database_repo.go:232 | ties or not, two rankings of the same rows have the same keys at every position |
| Paging.RankingIsUnique | app/internal/repo/database_repo.go:232 | without ties there is one ranking of the same rows |
| Database.Database.InsertHighlighted | app/sql/migrations/002_HighlightedAmenities.up.sql:6-7 | an insertion happens only with a new id and an existing room, and is refused only without them |
| Database.Database.DeleteRoomRow | app/sql/migrations/003_AmenityCategories.up.sql:7-8 | deleting a room deletes its rows in both child tables and no others |
| Database.RewrittenRow | app/internal/repo/database_repo.go:114-135 | the rewritten row column by column: all as given but the key, the hotel and the creation time; nothing else changes |
| RoomRepo.RoomRepo.CreateRooms | app/internal/repo/database_repo.go:49-75 | all rooms are inserted, each column as given up to the precision of price and coefficient, or none; it fails only by a fault or a duplicate id |
| RoomRepo.RoomRepo.GetRoomByID | app/internal/repo/database_repo.go:77-112 | returns the room with exactly its own children if it exists and nothing failed, and only then; says which error comes back otherwise |
| RoomRepo.RoomRepo.UpdateRoom | app/internal/repo/database_repo.go:114-135 | rewrites the matching row except its id, hotel and creation time; reports that none matches exactly when nothing failed and none does |
| RoomRepo.RoomRepo.GetRoomsByFilters | app/internal/repo/database_repo.go:180-258 | returns one page of the rows that meet the filter, coefficient descending and price ascending, each with its own children, and the length of the page as the total |
| RoomRepo.RoomRepo.Hydrate | app/internal/repo/database_repo.go:474-496 | fills the slice in place with what loading each room alone would give, or leaves it untouched |
| RoomRepo.RoomRepo.CheckAvailabilityByType | app/internal/repo/database_repo.go:287-297 | counts the rows whose hotel, type and name are the given ones |
| RoomRepo.RoomRepo.UpsertHighlightedAmenities | app/internal/repo/database_repo.go:317-339 | replaces the room's rows as a whole, or leaves all tables as they were, whichever statement failed; refused only if the list breaks a key |
| RoomRepo.RoomRepo.UpsertAmenityCategories | app/internal/repo/database_repo.go:384-406 | the same for categories |
| RoomRepo.RoomRepo.GetHighlightedAmenitiesByRooms | app/internal/repo/database_repo.go:343-378 | for any id list, duplicates allowed, each room gets exactly its own rows in id order |
| RoomRepo.RoomRepo.GetAmenityCategoriesByRooms | app/internal/repo/database_repo.go:410-445 | the same for categories |
| Refinement.ViewAfterHighlights | app/internal/repo/database_repo.go:317-339 | replacing a room's highlights changes that list of that room in the meaning and nothing else |
| Refinement.ViewAfterCategories | app/internal/repo/database_repo.go:384-406 | the same for categories |
| Refinement.ViewAfterInsert | app/internal/repo/database_repo.go:63-73 | inserting new rooms adds them without children and changes no other room |
| Refinement.ViewAfterDelete | app/internal/repo/database_repo.go:137-147 | deleting a room removes it from the meaning and nothing else |
| Refinement.ViewAfterQuantities | app/internal/repo/database_repo.go:301-311 | a quantity update sets the quantity of the rooms with that key and nothing else |
| Refinement.CopyFilled | app/internal/service/service.go:132-145 | giving the next copy both its lists advances an unfinished create by one copy |
| RoomService.RoomService.CreateRooms | app/internal/service/service.go:58-158 | succeeds exactly when no database call failed, is never refused by a key, returns as many rooms as asked for with every column and both lists as requested, and in every case logs how far it got: no room, or all rooms with the first k complete and the next at most half-way |
| RoomService.RoomService.PersistChildren | app/internal/service/service.go:131-145 | the copies get their children one after another and a failure stops at the copy it hits |
| RoomService.RoomService.CloneWithRoomId | app/internal/service/service.go:358-389 | a copy of the children with the same contents in the same order, the room's id, and new ascending ids |
| RoomService.RoomService.GetRoomByID | app/internal/service/service.go:161-168 | returns the stored row with the contents of its own children, exactly when it exists and no call failed |
| RoomService.RoomService.ListRooms | app/internal/service/service.go:286-293 | returns the repository's page unchanged, coefficient descending and price ascending |
| RoomService.RoomService.UpdateRoom | app/internal/service/service.go:171-270 | succeeds exactly when the room exists and no call failed, is never refused, and in every case logs the last write that was committed; returns what the store then means; reports not found exactly when the room is missing or reading it failed, and a failed update exactly when a later call failed |
| RoomView.PatchReachesTarget | app/internal/service/service.go:177-200 | a request for any choice of fields of a target gives the row these fields of the target and leaves all others, id, hotel, derived columns and times alone |
| RoomView.PatchIsByField | app/internal/service/service.go:177-200 | for any request, an absent field keeps the row's value whatever else is present, and a present one no longer depends on the row |
| RoomView.PatchIsUndone | app/internal/service/service.go:177-200 | such a request is undone by the one for the row's own values of the same fields |
| RoomService.RoomService.DeleteRoom | app/internal/service/service.go:273-282 | deletes the room exactly when it exists and no call failed; reports not found exactly when it is missing or reading it failed, and a failed deletion exactly when the later call failed |
| RoomService.RoomService.CheckAvailability | app/internal/service/service.go:306-313 | the count is that of the stored rows with this hotel, type and name, which is that of the replayed log, and the flag says whether it is positive |
| RoomService.RoomService.UpdateRoomQuantity | app/internal/service/service.go:317-323 | sets the quantity of exactly the rows with this hotel, type and name, and logs it, exactly when no call failed |
| RoomService.RoomService.StoredColumnsAgreeIff | app/internal/service/service.go:58-259 | from an empty store, each stored derived column of each stored room is that of its stored children exactly when the service's own log left it in step |
| RoomView.CreatedContents | app/internal/service/service.go:126-145 | after a create that added its rooms, the store is the old one and the copies, which `CreatedReadsBack` describes |
| ReadBack.CreatedReadsBack | app/internal/service/service.go:101-145 | every copy of a create, finished or cut short, by columns: id, hotel, creation time and all fields as requested, the price in cents and at most half a cent off, the coefficient exact; both lists in request order before `filled`, at `filled` at most the highlights, later none; earlier rooms unchanged |
| ReadBack.CreatedCountAddsUp | app/internal/service/service.go:79-118 | the stored count of a copy is zero without categories, and one more category adds exactly its own amenities |
| ReadBack.UpdatedReadsBack | app/internal/service/service.go:171-244 | an update that wrote its row, by columns: the named fields as requested, all others as they were; all other rooms unchanged |
| ReadBack.UpdatedLists | app/internal/service/service.go:202-259 | the lists an update leaves at each point it can stop, and the coefficient of the lists it was to leave |
| ReadBack.UpdatedCountAddsUp | app/internal/service/service.go:221-239 | the count an update writes is zero without categories, and one more category adds exactly its own amenities |
| ReadBack.OthersReadBack | app/internal/service/service.go:273-323 | a deletion takes its room only; a quantity update sets the quantity of the rooms with this hotel, type and name only |
| ReadBack.ViewReadsBack | app/internal/repo/database_repo.go:77-112 | a room means its row but for the time of its last change, and its children's contents by ascending id |
| ReadBack.EntryIsExact | app/internal/service/service.go:306-323 | a ledger entry counts exactly the rooms with the key that came, went, or changed key |
| RoomView.DerivedColumnsAgreeIff | app/internal/service/service.go:58-259 | over any run, failures included, each derived column of each room agrees with its children exactly when the last create or update that set it finished, or the lists it did not get to store would have changed nothing |
| RoomView.CutShortRunDisagrees | app/internal/service/service.go:241-259 | a concrete run, a create and then an update cut short, that leaves a room disagreeing |
| RoomView.CleanRunsAgree | app/internal/service/service.go:58-282 | in a run whose operations succeed or leave no trace, every room agrees with its children |
| RoomView.AgreesAfterUpdateIff | app/internal/service/service.go:202-245 | a successful update makes the coefficient agree whatever it found, and the count exactly when it brings categories or the count agreed |
| RoomView.CutShortUpdateAgreesIff | app/internal/service/service.go:241-259 | an update cut short after its row write, or after its highlights, leaves each derived column agreeing exactly when the new lists count, or weigh, what the lists stored by then do |
| RoomView.CopyAgreesIff | app/internal/service/service.go:126-145 | each derived column of copy i of an unfinished create agrees exactly when the copy got both lists, or the lists it missed would have counted, or weighed, nothing more |
| RoomView.RetryRecoversIff | app/internal/service/service.go:171-323 | however often an update was attempted, and whatever happened to other rooms and to quantities in between, repeating it ends where one success would have exactly when the request sets the quantity, or the last quantity update to name the room left the same quantity with its key patched from the first attempt on as with its old key throughout |
| RoomView.RetryRecovers | app/internal/service/service.go:171-270 | with quantity updates that failed, or requests that set the quantity or keep the key, it always does |
| RoomView.QuantityUnderOldNameIsLost | app/internal/service/service.go:171-323 | a run that is not recovered: a rename stops after its row write, the quantity is set under the old name, and the retry ends with the old quantity |
| RoomView.RetriedCreateIff | app/internal/service/service.go:126-145 | retrying a create ends with as many rows as one success exactly when the first attempt had added none |
| RoomView.UpdatesCompose | app/internal/service/service.go:177-259 | two successful updates are one update with the second's present fields over the first's, count and coefficient included |
| RoomView.AvailabilityIsConserved | app/internal/service/service.go:306-323 | over any run the count under a key is the old one plus inserted and moved-in rows, minus removed and moved-out rows; quantities play no part |

## Left out

- HTTP handlers, routing, header middleware and JSON decoding: plumbing over libraries; the model takes a create's quantity to be nonnegative, which the handler ensures.
- JWT validation, media upload, configuration, logging, the connection pool and the migration runner: libraries and I/O; a failed upload does not touch the store.
- The helper error mapping: the repository's database errors are one value.
- Float rounding, integer and column overflow, VARCHAR lengths, the microsecond precision of timestamps and nanosecond rounding of durations: arithmetic is exact and values fit.
- PostgreSQL isolation anomalies, commits with an unknown outcome and errors in the middle of reading rows: transactions are atomic and scans complete.
- Overlapping service operations: service `UpdateRoom` reads and writes without an enclosing transaction, so the claims about runs are for operations that do not overlap.
- Failure of the random source behind `uuid.NewV7`: the source is taken to issue ever larger identifiers, so the service's branches for its failure are absent.
- The text of the SQL statements: a query is the list of its clauses with their placeholder numbers, not the formatted string.
- `CreateRoom`, `ListRoomsByHotel` and the date-based `CheckAvailability` of the repository: they repeat the modelled insertion, hydration and ranking.
- Slices that the service fills by index are sequences appended in index order; `IdentifyHighlighted` and `IdentifyCategories` are the loops that create and update have in common.
- CircuitBreaking.LoadBound: bounds failures, not executions, when the guarded function may panic within the stretch; `CircuitBreaking.ExecutionBoundIff` says that executions have no such bound then.
- The value of `updated_at` after a rewrite: the clock's readings are arbitrary, so it is only said that the written reading is stored (`Database.RewrittenRow`).
