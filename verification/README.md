# Verified model of the apiary service

This project models the part of the apiary service that decides things: the quota on Free
users' apiaries under concurrent creates, the delete cascade over four stores that share no
transaction, the selection of the apiaries a Free user may edit, the listing query with its
paging, and the handling of attached media ids. `dafny verify dfyconfig.toml` checks it.

- `Seqs`, `Domain`, `Ordering`: sequence vocabulary, the entity with its errors and constants,
  and the total order `(created_at, id)` with sorting.
- `Table`: the apiaries table and the meaning of every SQL statement the repository runs on it.
- `QuotaProtocol`, `QuotaRefinement`, `QuotaBypass`, `QuotaProgress`: concurrent creates as a
  transition system over calls, locks and uncommitted rows, with a fault possible at every step;
  its safety, its refinement of one atomic create, what unlimited creates do to it, its progress
  and its exact yield.
- `Like`, `ListQuery`: ILIKE, the two statements a listing builds, their evaluation, and paging.
- `Writability`: the Free-plan selection as a rank, and how each write moves it.
- `Images`: deduplication and the ownership check that compares lengths.
- `Cascade`: deletions as scripts of calls under an arbitrary fault schedule.
- `Repository`, `Service`: the classes, with the loops and the early returns of the source,
  each method proved against the functions above.
- `ServiceSpec`, `ServiceRuns`: what a use case answers and leaves, and what all runs keep.

## Assumptions

- A statement sees the rows committed before it starts (PostgreSQL 16 manual, section 13.2.1);
  a transaction-level advisory lock lasts until commit or rollback (section 13.3.5); a write
  that conflicts with an uncommitted row on a unique index waits for that row's transaction.
  A single-statement write is one atomic step. The hash that turns a user into a lock key is
  arbitrary and may collide.
- A call that breaks may have taken effect in part (`Fault.Breaks`): a deletion in another
  service may have removed some of its targets, and the reply to a write or a commit may have
  been lost. Deleting what is already gone succeeds.
- The primary key is checked before the name index when a row is inserted.
- UUIDs are numbers, as PostgreSQL compares them bytewise; times are integers; coordinates are
  stored and never computed with. Generated ids and the clock are parameters.
- ILIKE folds case by a function of the database's locale, a parameter that leaves `%`, `_`
  and the backslash alone and makes no other character one of them.
- Media-service answers a lookup with each requested id the caller owns once, omitting the
  rest; `MediaService.Find` is one way to do so. Files are deleted for their owner only.
- Offsets are `(page - 1) * limit` with a page of at least 1 (`OffsetIs`); a listing
  of n rows has n / limit pages, rounded up (`PageCountCovers`).

## Where code and comments disagree

The model follows the code.

- The quota is not absolute: unlimited creates take no lock
  (internal/repository/postgres/apiary_repository.go:91), so they can come between the count
  and the insert of a limited one. `QuotaSafety` bounds the excess by their number, for every
  run; `ExcessIsReached` builds a run that reaches that bound from every state with one place
  left, and `BypassExceedsQuota` is a sample. The row that a Free create then reports writable
  (internal/application/apiary/service.go:88-93) is writable exactly when no older row came in,
  and always without such creates: `CreatedIsWritable`.
- The minimum search length is documented in characters (api/openapi.yaml:138) and checked in
  bytes (internal/repository/postgres/apiary_repository.go:208). `MinimumLengthInBytes` gives
  the terms on which the two differ; `ShortTermsSearched` has two of them.
- Deleting an apiary deletes its files, although nothing makes a file exclusive to one apiary
  (internal/application/apiary/service.go:362-366): another live apiary may be left listing a
  file that is gone. `FilesExistAfter` says exactly when an undisturbed request does that.
- Search is documented as matching the value in name and location; `%`, `_` and backslash in it
  act as pattern characters. `SearchIsContainment` shows it is containment exactly without them.
- The repository checks the limit before the name; the in-memory fake of the unit tests
  (internal/application/apiary/service_test.go:52) checks the name first. Its list for account
  deletion also omits soft-deleted rows, which the repository includes.

## Model

| member | source | states |
|---|---|---|
| QuotaProtocol.QuotaSafety | internal/repository/postgres/apiary_repository.go:90-132 | in every reachable state, with any number of calls, any hash, any faults and any other writes, a user's committed plus uncommitted live rows exceed the larger of limit and initial count by at most the run's unlimited creates for that user |
| QuotaProtocol.RunInv | internal/repository/postgres/apiary_repository.go:95-132 | every schedule keeps the key constraints, agreement of locks and transactions and fit of uncommitted rows; a cleared call's room shrinks by no more than the unlimited creates for its user |
| QuotaProtocol.LocksExclude | internal/repository/postgres/apiary_repository.go:103-106 | two transactions never hold one lock key |
| QuotaProtocol.CommittedBound | internal/repository/postgres/apiary_repository.go:108-130 | a bound on committed rows that lies above all limits grows by the unlimited creates alone |
| QuotaRefinement.Refinement | internal/repository/postgres/apiary_repository.go:90-132 | every run is explained by atomic limit-then-name-then-insert events at the count, the refused insert, the commit or the failing step; the limit an event checks is raised by at most the unlimited creates its user has had, so not at all without any |
| QuotaRefinement.StepRefines | internal/repository/postgres/apiary_repository.go:90-132 | each step is no event, or one event the atomic service could take just then |
| QuotaRefinement.RowIff | internal/repository/postgres/apiary_repository.go:97-131 | a call's row is in the table exactly when the call committed, or the row was there, and nothing has removed it since |
| QuotaRefinement.RefusedLeavesNoRow | internal/repository/postgres/apiary_repository.go:97-131 | a call answered with an error has left its row exactly when its commit's reply was lost and nothing has removed the row since; the error is then the upstream one |
| QuotaBypass.CreatedIsWritable | internal/application/apiary/service.go:88-93 | at the commit of a Free create the new id is writable exactly when no older live row of the user is there; without unlimited creates it is the whole writable set |
| QuotaBypass.ExcessIsReached | internal/repository/postgres/apiary_repository.go:90-132 | from every first state with one place left and an idle call, a run with n unlimited creates whose rows fit in turn ends n rows above the limit with the call successful |
| QuotaBypass.BypassExceedsQuota | internal/repository/postgres/apiary_repository.go:90-132 | a sample run that ends above the limit with the new row not writable |
| QuotaProgress.NeverStuck | internal/repository/postgres/apiary_repository.go:97-131 | while a call is unfinished some call can take a step without a fault |
| QuotaProgress.BlockedOnlyBy | internal/repository/postgres/apiary_repository.go:97-131 | a call waits only for a transaction holding its lock key or for an uncommitted row with its id or name; otherwise it can go on |
| QuotaProgress.OthersInterfere | internal/repository/postgres/apiary_repository.go:56-71 | deletions come at any time, edits and unlimited creates whenever no uncommitted row is in the way, each with its effect on the table |
| QuotaProgress.RunsAreShort | internal/repository/postgres/apiary_repository.go:95-132 | no schedule makes the calls take more than seven steps each |
| QuotaProgress.CanFinish | internal/repository/postgres/apiary_repository.go:95-132 | from every reachable state all calls can finish without a further fault |
| QuotaProgress.ExactYield | internal/repository/postgres/apiary_repository.go:108-130 | of n fault-free fresh creates exactly min(n, max(0, limit - initial)) succeed |
| Cascade.CascadeOutcome | internal/application/apiary/service.go:358-373 | every point of one cascade has the row gone only after everything else; success leaves the reference world; an error of another service leaves the row; calls run in order and none before the ones ahead succeeded |
| Cascade.CascadeCalls | internal/application/apiary/service.go:358-373 | one cascade succeeds exactly when its two to four calls work, files being called for only when there are any and reminders only when configured |
| Cascade.CascadeSafety | internal/application/apiary/service.go:333-346 | after every call of an account deletion, under any faults, removed rows left no hives, files or reminders, and nothing of others was touched |
| Cascade.DeleteOneSafety | internal/application/apiary/service.go:319-325 | the same for one apiary; success exactly when it is live and owned, undisturbed; NotFound changes nothing |
| Cascade.DeleteOneAnswer | internal/application/apiary/service.go:319-325 | NotFound exactly when the lookup works and no live owned row has the id; success exactly when there is one and the calls it needs work; otherwise upstream |
| Cascade.DeleteAllOutcome | internal/application/apiary/service.go:333-346 | a failure at position k leaves the first k apiaries of the oldest-first list gone and later ones untouched |
| Cascade.OldestFirst | internal/application/apiary/service.go:333-346 | at the end and after every call of an account deletion, whatever breaks, each row of the user that is gone is older than each one still there |
| Cascade.DeleteAllCalls | internal/application/apiary/service.go:333-346 | an account deletion succeeds exactly when its listing and every call its cascades need work |
| Cascade.BatchOutcome | internal/application/apiary/service.go:339-343 | the batch loop stops part-way in the apiary it counts as next, or completes |
| Cascade.RetryConverges | internal/application/apiary/service.go:333-346 | any failed attempts followed by a successful one end where one undisturbed deletion ends |
| Cascade.SweepAgrees | internal/repository/postgres/apiary_repository.go:371-374 | the one-statement sweep and a successful cascade leave the same table |
| Writability.WritableIffRank | internal/repository/postgres/apiary_repository.go:318-352 | an id is writable exactly when its live row has fewer than limit older live rows, or any number without a limit |
| Writability.WritableCount | internal/repository/postgres/apiary_repository.go:318-352 | exactly min(limit, live rows) ids are writable, each once |
| Writability.WritableOldestFirst | internal/repository/postgres/apiary_repository.go:318-352 | the k-th writable id is that of the live row with k older ones |
| Writability.DeletePromotesNext | internal/repository/postgres/apiary_repository.go:354-366 | deleting a writable row promotes exactly the next live row |
| Writability.DeleteOthersKeeps | internal/repository/postgres/apiary_repository.go:354-366 | deleting any other row changes no writable id |
| Writability.InsertDemotesAtMostOne | internal/repository/postgres/apiary_repository.go:56-71 | a new row enters when its rank allows and then demotes only the last of a full set |
| Writability.UpdateKeepsWritable | internal/repository/postgres/apiary_repository.go:281-300 | an update never changes who is writable |
| ServiceSpec.GetAgrees | internal/application/apiary/service.go:102-114 | whatever breaks, Get reports the rank's verdict or fails upstream, and undisturbed it does not fail |
| ServiceSpec.GetAnswer | internal/application/apiary/service.go:102-114 | NotFound exactly when the lookup works and no live owned row has the id; that row exactly when every call works; otherwise upstream |
| ServiceSpec.ListAgrees | internal/application/apiary/service.go:186-228 | so does every page of every search, order and filter |
| ServiceSpec.ListExact | internal/application/apiary/service.go:186-228 | a listing answers positions (page-1)*limit on, at most limit of them, of the owned live rows outside the hive ids that match the search, each once, newest first for "desc" and oldest first otherwise, with their number; exactly when its calls work |
| ServiceSpec.UpdateAgrees | internal/application/apiary/service.go:253-261 | a read-only refusal means a negative verdict, and a negative verdict means that refusal or an upstream failure |
| ServiceSpec.WritableApiaryIDAgrees | internal/application/apiary/service.go:123-140 | the named id, or the unrestricted answer, covers exactly the open rows, unless it fails upstream |
| ServiceSpec.WritableApiaryIDExact | internal/application/apiary/service.go:123-140 | unrestricted exactly off the Free plan; an id exactly for a Free caller with a live row, that of the oldest; exactly when its calls work |
| ServiceSpec.CreateSucceedsIff | internal/application/apiary/service.go:47-94 | whatever breaks, the exact condition of a successful create, down to the calls that have to work |
| ServiceSpec.CreateRefusal | internal/application/apiary/service.go:59-86 | whatever breaks, which refusal is given: limit before images before name, each exactly when the calls up to it work; anything else is upstream |
| ServiceSpec.CreateFlagTruthful | internal/application/apiary/service.go:88-93 | a created row reported writable is the whole writable set under Free |
| ServiceSpec.CreateExact | internal/application/apiary/service.go:65-94 | a created row has every field of the request, the submitted images once each in order, the caller, the id and both times, and is the one row added |
| ServiceSpec.CreateEffect | internal/application/apiary/service.go:47-94 | whatever breaks, that row is added exactly when every condition holds, the calls before the insert work and the insert takes effect, its reply possibly lost; otherwise nothing changes |
| ServiceSpec.UpdateExact | internal/application/apiary/service.go:263-290 | a successful update edits one row in place, field by field as asked, keeps id, owner and creation time, touches images only when asked, and leaves the row writable |
| ServiceSpec.UpdateEffect | internal/application/apiary/service.go:243-291 | the same for the edit of an update |
| ServiceSpec.UpdateRefusal | internal/application/apiary/service.go:243-291 | whatever breaks, which answer is given: ownership, write access, images, name, success, each exactly when the calls up to it work; anything else is upstream |
| ServiceSpec.CreateErrorLeavesTable | internal/application/apiary/service.go:81-86 | a failed create changes nothing unless the reply to the write was lost |
| ServiceSpec.UpdateErrorLeavesTable | internal/application/apiary/service.go:283-285 | the same for updates |
| ServiceRuns.RunsKeepGood | internal/application/apiary/service.go:65-86 | any run from a good table keeps unique ids, unique live names per user and duplicate-free image lists of at most five |
| ServiceRuns.RunsKeepIdentity | internal/repository/postgres/apiary_repository.go:281-300 | a row's owner and creation time never change |
| ServiceRuns.FilesExistAfter | internal/application/apiary/service.go:358-373 | no create, update or sweep leaves a live apiary listing a file that is gone, whatever breaks; undisturbed, no request does unless it deletes an apiary sharing one with another of its owner, and then it always does |
| Cascade.SharedFileGoes | internal/application/apiary/service.go:362-366 | a file another live apiary lists goes exactly when the deleted one lists it |
| ServiceRuns.OthersUntouched | internal/repository/postgres/apiary_repository.go:43-46 | a request leaves every other user's rows as they were |
| ServiceRuns.RequestsAreLocal | internal/repository/postgres/apiary_repository.go:43-46 | a writing request's reply and effect depend on the user's own rows alone |
| ServiceRuns.ReadsAreLocal | internal/repository/postgres/apiary_repository.go:43-46 | so do Get, List and WritableApiaryID |
| ListQuery.BuildListQueries | internal/repository/postgres/apiary_repository.go:174-221 | both statements are accepted with their arguments and select exactly the wanted rows of any table, ordered and cut as asked |
| ListQuery.PagesPartition | internal/repository/postgres/apiary_repository.go:218-246 | the pages together are the wanted rows in order, each once; later pages are empty |
| ListQuery.DescendingPage | internal/repository/postgres/apiary_repository.go:32-41 | a descending page is the mirrored ascending stretch reversed |
| ListQuery.PlainSearchWants | internal/repository/postgres/apiary_repository.go:208-215 | with a plain term long enough, a listing keeps the rows whose folded name or location contains the folded term |
| ListQuery.NullHidesEverything | internal/repository/postgres/apiary_repository.go:197-201 | an accepted statement that compares ids with a NULL list counts nothing and returns nothing on every table; an empty list rules nothing out |
| ListQuery.MinimumLengthInBytes | internal/repository/postgres/apiary_repository.go:208 | for every term, the byte test and the documented character minimum agree exactly unless the term is one character from U+0800 on or two of which one is not ASCII; then the short term is searched |
| ListQuery.ShortTermsSearched | internal/repository/postgres/apiary_repository.go:208 | two such terms |
| Ordering.DescendingReverses | internal/repository/postgres/apiary_repository.go:32-41 | descending order is the exact reverse of ascending |
| Ordering.SortUnique | internal/repository/postgres/apiary_repository.go:32-41 | over distinct ids the sorted permutation is unique |
| Ordering.SortIgnoresStorageOrder | internal/repository/postgres/apiary_repository.go:32-41 | storage order cannot be observed in a listing |
| Like.SearchIsContainment | internal/repository/postgres/apiary_repository.go:208-215 | searching is case-folded containment for every field exactly when the term has no pattern character |
| Images.DedupeImages | internal/application/apiary/service.go:297-308 | the same ids, each once, by strictly increasing first occurrence |
| Images.DedupeUnique | internal/application/apiary/service.go:297-308 | that promise determines the result |
| Images.DedupeIdempotent | internal/application/apiary/service.go:297-308 | deduplicating twice changes nothing |
| Images.DedupeConcat | internal/application/apiary/service.go:297-308 | of two lists joined, the first keeps its place and the rest of the second follows |
| Images.CountingIsExact | internal/platform/mediaclient/client.go:86-91 | comparing lengths accepts exactly the requests without repeats whose ids are all owned |
| Images.DedupedCountingIsExact | internal/platform/mediaclient/client.go:86-91 | after deduplication it accepts exactly when every submitted id is owned |
| Table.InsertExact | internal/repository/postgres/apiary_repository.go:56-71 | an insert is refused exactly when the table with the row would break a key, with the error of that key, and keeps the keys |
| Table.UpdateExact | internal/repository/postgres/apiary_repository.go:281-300 | an update finds its live row or reports NotFound, and is refused its name exactly when the rewritten table would break the name index |
| Table.HardDeleteExact | internal/repository/postgres/apiary_repository.go:354-366 | exactly the one row goes, NotFound exactly when there is none, and a second delete finds nothing |
| Table.SweepExact | internal/repository/postgres/apiary_repository.go:371-374 | none of the user's rows is left, every other user's are as they were, and a second sweep changes nothing |
| Repository.ApiaryRepository.Create | internal/repository/postgres/apiary_repository.go:56-71 | the table is unchanged or has the row at its end; success, and each refusal, exactly when the keys allow it; a refusal other than a lost reply changes nothing |
| Repository.ApiaryRepository.CountByUser | internal/repository/postgres/apiary_repository.go:74-85 | the number of the user's live rows |
| Repository.ApiaryRepository.CreateWithLimit | internal/repository/postgres/apiary_repository.go:90-149 | undisturbed, the atomic create the concurrent protocol refines |
| Repository.ApiaryRepository.GetByID | internal/repository/postgres/apiary_repository.go:151-171 | the user's live row with that id, or NotFound |
| Repository.ApiaryRepository.ListByUser | internal/repository/postgres/apiary_repository.go:173-247 | the asked page of the wanted rows, newest first for "desc" and oldest first otherwise, and their total number |
| Repository.ApiaryRepository.ListAllByUser | internal/repository/postgres/apiary_repository.go:252-279 | all of the user's rows, soft-deleted ones too, each as often as stored, sorted oldest first |
| Repository.ApiaryRepository.Update | internal/repository/postgres/apiary_repository.go:281-300 | no row but the live one named changes, none changes id, owner or age; NotFound and NameTaken exactly when the row is missing or the keys forbid it |
| Repository.ApiaryRepository.WritableIDs | internal/repository/postgres/apiary_repository.go:321-352 | the oldest live ids, all of them when the limit is not positive |
| Repository.ApiaryRepository.HardDelete | internal/repository/postgres/apiary_repository.go:354-366 | the rest of the table stays in order, at most the named row is gone, and it is gone on success; NotFound exactly when it was not there |
| Repository.ApiaryRepository.DeleteAllByUserHard | internal/repository/postgres/apiary_repository.go:371-374 | on success no row of the user is left; every other user's rows are the same sequence, whatever breaks |
| Service.MediaService.VerifyOwnership | internal/platform/mediaclient/client.go:62-94 | no error exactly when the ids do not repeat and are all owned |
| Service.MediaService.DeleteByIDs | internal/platform/mediaclient/client.go:99-120 | only listed files of the user go; after success the ownership check accepts exactly the requests it did without a deleted id, for others the same ones always; a retry completes what broke |
| Service.Service.IsWritable | internal/application/apiary/service.go:164-175 | membership in the writable ids |
| Service.Service.Get | internal/application/apiary/service.go:102-114 | the answer `ServiceSpec.Get` specifies |
| Service.Service.WritableApiaryID | internal/application/apiary/service.go:123-140 | the answer `ServiceSpec.WritableApiaryID` specifies: unrestricted off the Free plan, otherwise the oldest live row or none |
| Service.Service.List | internal/application/apiary/service.go:186-228 | the answer `ServiceSpec.List` specifies: the asked page of the asked rows in the asked order, and their number |
| Service.Service.Create | internal/application/apiary/service.go:47-94 | the answer, table and world `ServiceSpec.Create` and `ServiceRuns.Serve` specify; on success one row with the fields and images of the request is added |
| Service.Service.Update | internal/application/apiary/service.go:243-291 | the answer, table and world `ServiceSpec.Update` and `ServiceRuns.Serve` specify; on success one row is edited field by field as asked |
| Service.Service.DeleteCascade | internal/application/apiary/service.go:358-373 | the world, error and remaining faults of the cascade script |
| Service.Service.Delete | internal/application/apiary/service.go:319-325 | the lookup followed by the cascade, as `ServiceRuns.Serve` serves it |
| Service.Service.DeleteAllByUser | internal/application/apiary/service.go:333-346 | the listing followed by the batch of cascades, as `ServiceRuns.Serve` serves it; rows go from the oldest on |
| Service.Service.DeleteLocalByUser | internal/application/apiary/service.go:348-356 | the one-statement sweep, as `ServiceRuns.Serve` serves it |

## Left out

- HTTP handlers, routing, JSON, the mapping of errors to statuses, logging, health probes, configuration, `cmd/`, `ClearAllData`, token and session checks.
- Field validation of requests and the coordinate range checks of the table.
- The HTTP mechanics of the hive, media, subscription and notification clients; each is a store or a reply that may break.
- The repository running inside a caller's transaction (internal/repository/postgres/apiary_repository.go:134-148), which only tests use.
- Concurrent read-modify-write in Update: GetByID and UPDATE are separate statements, so its claims are for undisturbed sequences of requests. The same holds for the cascade and for requests running beside it.
- Differences between the count and the list statement of one listing when the table changes in between.
- SQL text: statements are built from condition values rather than from strings; scanning rows into structs is copying.
- Fairness: `NeverStuck` and `CanFinish` say that progress is possible, not that the scheduler grants it.
- FilesExistAfter: has no condition for disturbed deletions; one that breaks after its files are gone leaves its own row listing them, as `CascadeOutcome` says.
- Search terms that are not valid UTF-8.
- Rounding of timestamps to the database's precision, and the randomness of generated ids.
