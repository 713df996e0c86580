# Señas collection API: recording lifecycle, dashboard and assignments

This project is a Dafny model of the request handlers at the heart of the
sign-language video collection API. The model covers:

- Starting batch and single uploads against presigned object-storage URLs.
- Confirming uploads, which moves recordings from UPLOADING to PENDING and
  updates the contributor's streak and reputation.
- Deleting one recording, or a whole interrupted session.
- Listing a contributor's recordings: paginated, by explicit ids, or
  restoring a session.
- The dashboard's level, progress, next mission and top three.
- The role-filtered assignments list with its per-item progress tags.
- The one-time onboarding step and its input schema.
- The database connection string.

Each handler that changes the database is a sequential method over a
`Store.Database` object. Its fields are the recordings table (a map from id
to row, plus the order in which rows were created), the users table and the
read-only glossary. The object store and the uuid generator are separate
objects.

Read-only handlers are pure functions over a snapshot of the tables:

- the dashboard;
- the assignments list;
- the listing logic behind `getMyRecordings`.

The schema and the connection string are pure functions too.

An HTTP answer is a `Common.Result`. `Err(BadRequest)`, `Err(Forbidden)` and
`Err(NotFound)` stand for 400, 403 and 404. `Err(ServerError)` stands for an
exception handed to the error middleware.

The modules, in dependency order:

- `Common`: rows, statuses, outcome types, and the string helpers the
  handlers use (`split`, `trim`, template-literal numbers).
- `Catalog`: glossary items and the `(priority, slug)` order. Two proofs
  cover it: the order is a total preorder, and the sort is sorted and a
  permutation.
- `Storage`: storage keys, presigned URLs, the uuid source and the bucket.
- `Store`: the `Database` class and the table operations the handlers call.
- `Gamification`: the streak rule and the reward. The lemmas prove it
  against `Run`, an independent definition of a streak.
- `Recordings`: the recordings controller.
- `Dashboard`, `Assignments`, `Validation`, `Onboarding`, `ConnectionUrl`.

Behaviours of the code worth noting:

- **Dashboard missions.** The next mission and the top three are not
  filtered by visibility or status. The exclusion list is the literal
  `[-1]` when nothing was contributed.
- **Assignments list.** It does not drop items already contributed to. It
  tags them instead.
- **Listing by ids.** The `glossaryId` and `status` filters still apply
  alongside the id list.
- **Session cleanup.** A storage error for one id skips that row's database
  delete. The row stays, and it is not counted.
- **Confirmation count check.** The check compares the number of rows
  found with the length of the id list. A list that names a recording twice
  is therefore refused as well.

## Model

| member | source | states |
|---|---|---|
| Common.Split | src/controllers/recordingsController.js:218 | `ids.split(',')` yields at least one piece, and no piece contains a comma |
| Common.JoinSplit | src/controllers/recordingsController.js:218 | splitting loses nothing: joining the pieces with the separator gives the string back |
| Common.DropBlank | src/controllers/recordingsController.js:218 | the filter keeps exactly the pieces with a non-space character, and only pieces of the input |
| Common.NatToStringRoundTrip | src/controllers/recordingsController.js:66 | the decimal rendering used in `recording_${n}.webm` reads back as `n`, so distinct indices give distinct file names |
| Catalog.LexLeTotal | src/controllers/assignmentsController.js:36 | any two slugs are comparable in the ascending slug order |
| Catalog.LexLeTransitive | src/controllers/assignmentsController.js:36 | the slug order is transitive |
| Catalog.LexLeAntisymmetric | src/controllers/assignmentsController.js:36 | two slugs that are each ordered before the other are equal |
| Catalog.ItemLeTotal | src/controllers/assignmentsController.js:34-37 | the (priority, slug) order relates any two glossary items |
| Catalog.ItemLeTransitive | src/controllers/assignmentsController.js:34-37 | the (priority, slug) order is transitive |
| Catalog.SortItemsCorrect | src/controllers/assignmentsController.js:32-37 | the ordered listing is sorted by (priority, slug) and holds exactly the given items, each as often |
| Catalog.SortedHeadIsLeast | src/controllers/dashboardController.js:70-79 | the first item of the ordered listing precedes every candidate item |
| Catalog.FindById | src/controllers/recordingsController.js:34-37 | the primary-key lookup returns an item with that id, and returns none exactly when no item has it |
| Storage.KeyTagOfStorageKey | src/services/storageService.js:38-41 | the uuid can be read back from the key `raw/{user}/{slug}/{uuid}.{ext}` built from it |
| Storage.DistinctUuidsDistinctKeys | src/services/storageService.js:38-41 | keys built from distinct uuids are distinct, for any users and slugs |
| Storage.UuidSource.Next | src/services/storageService.js:39 | `uuidv4()` gives a name never issued before, with no `/` or `.`, and records it as issued |
| Storage.ObjectStore.DeleteObject | src/services/storageService.js:87-94 | deleting removes the key from the bucket (an absent key is fine); a failing backend call leaves the bucket unchanged and reports failure |
| Storage.GenerateStorageKey | src/services/storageService.js:38-41 | the key belongs to the user and slug, and its uuid is fresh and is now issued |
| Storage.GenerateSingleUploadUrls | src/services/storageService.js:103-109 | one fresh key with a PUT URL for the content type valid 900 s, and a GET URL for the same key valid 3600 s |
| Storage.GenerateBatchUploadUrls | src/services/storageService.js:119-129 | `count` targets (none for a non-positive count), each with a fresh key of the user and slug and a 900 s PUT URL; all keys pairwise distinct; exactly their uuids are newly issued |
| Store.NewestFirst | src/controllers/recordingsController.js:245 | the rows named by the creation order, the most recently created first |
| Store.RemoveId | src/controllers/recordingsController.js:456-458 | removing one id from the creation order keeps every other id and drops that one |
| Store.RemoveIdAppend | src/controllers/recordingsController.js:456-458 | removal works piecewise over a split of the order, so the remaining ids keep their relative creation order |
| Store.Without | src/controllers/recordingsController.js:494-515 | the creation order without a set of removed ids: exactly the other ids remain |
| Store.RemoveIdAfterWithout | src/controllers/recordingsController.js:503-511 | deleting one more row from the order after a set of deletions is the order without the enlarged set |
| Store.WithStatus | src/controllers/recordingsController.js:131-139 | `updateMany` sets the status of the caller's listed rows only; other rows and other columns are unchanged; no row appears or disappears |
| Store.Database.Rows | src/controllers/recordingsController.js:241-245 | the table's rows, one per stored recording, nothing else, newest first: `NewestFirst` of the creation order |
| Store.Database.AddRecording | src/controllers/recordingsController.js:61-71 | `recording.create` adds exactly one row under its fresh id, appends it to the creation order and keeps the table's invariants (unique keys, existing owners) |
| Store.Database.UpdateStatuses | src/controllers/recordingsController.js:131-139 | the table after `updateMany` is `WithStatus` of the old table; users and order untouched |
| Store.Database.UpdateUser | src/controllers/recordingsController.js:174-181 | `user.update` replaces one users row and nothing else |
| Store.Database.RemoveRecording | src/controllers/recordingsController.js:456-458 | `recording.delete` removes that row from the table and the creation order, nothing else |
| Gamification.StreakTracksConsecutiveDays | src/controllers/recordingsController.js:150-171 | for a clock that does not run backwards, the stored streak after a confirmation equals the number of consecutive contribution days ending today |
| Gamification.SameDayConfirmationsKeepStreak | src/controllers/recordingsController.js:161-163 | a second confirmation on the same day leaves the streak as it is |
| Gamification.FutureLastContributionResets | src/controllers/recordingsController.js:167-170 | a last contribution dated after today resets the streak to 1 |
| Gamification.ReputationAccumulates | src/controllers/recordingsController.js:179 | reputation is incremented by 10 per confirmed recording, never replaced |
| Recordings.InitializeUpload | src/controllers/recordingsController.js:11-92 | 400 without a non-zero assignment id and a count in 1..20; 404 for an unknown item; on error nothing changes. Otherwise `count` entries, `expiresIn` 900, and one new UPLOADING row per entry (`recording_{i+1}.webm`, the caller's key for the item's slug, its 15-minute PUT URL), appended to the creation order; old rows untouched |
| Recordings.CreateRows | src/controllers/recordingsController.js:59-79 | one UPLOADING row per upload target, each under a fresh id and numbered from 1, appended in order; the table grows by exactly these rows |
| Recordings.UploadSingle | src/controllers/recordingsController.js:355-414 | 400 without an assignment id, 404 for an unknown item, nothing changed on error; otherwise exactly one new UPLOADING row named `recording_{index+1}.webm` under a key of the caller and the item's slug, with a 900 s PUT URL and a 3600 s GET URL |
| Recordings.MatchCountMeansAllConfirmable | src/controllers/recordingsController.js:115-128 | the number of rows found equals the number of ids sent exactly when no id repeats and every id is an UPLOADING row of the caller |
| Recordings.ConfirmUpload | src/controllers/recordingsController.js:101-196 | 400 for a missing or empty list; 403, with nothing changed, unless every listed id is a distinct UPLOADING row of the caller. On success: exactly the listed rows become PENDING; the user's streak, last day and reputation are credited; the response reports the count, the new streak and 10 points per id |
| Recordings.SecondConfirmationRefused | src/controllers/recordingsController.js:115-121 | once a batch is PENDING, confirming it again is refused |
| Recordings.DeleteRecording | src/controllers/recordingsController.js:422-471 | 404 for an unknown id and 403 for another user's row, both with nothing changed; the owner's row is deleted whether or not the storage delete succeeded, and the object is gone unless that call failed |
| Recordings.RemoveOwned | src/controllers/recordingsController.js:503-511 | deletes the object when the row has a key, and the row (from the table and the creation order) only when that succeeded; a failed storage call changes nothing |
| Recordings.DeleteSessionEntry | src/controllers/recordingsController.js:494-515 | one loop turn deletes the id exactly when the cleanup may (not `temp-`, still present, the caller's row, storage delete ok or no key), with its object and its place in the creation order; otherwise nothing changes |
| Recordings.DeleteSession | src/controllers/recordingsController.js:479-529 | 400 without a list, nothing changed; otherwise exactly the removable listed rows are deleted together with their objects, the creation order loses exactly their ids and keeps the rest in order, and the count returned is their number |
| Recordings.SessionCleanupSparesOthers | src/controllers/recordingsController.js:503 | the cleanup never deletes another user's recording |
| Recordings.OrDefault | src/controllers/recordingsController.js:207-208 | `parseInt(x) \|\| d`: the parsed value unless it is missing or 0, then the default; never 0 for a non-zero default |
| Recordings.ListQueryFor | src/controllers/recordingsController.js:206-238 | the query is always restricted to the caller. The page is `parseInt(page) \|\| 1`; the limit is `parseInt(limit) \|\| 20` capped at 100, so never 0. The offset or the limit is negative exactly when listing without ids with a negative limit or page. An explicit status wins. A glossary filter with neither status nor ids selects UPLOADING. A non-empty id list turns pagination off and filters on the non-blank ids |
| Recordings.ListQueryDropsNothingButBlanks | src/controllers/recordingsController.js:217-222 | an id list with a non-blank piece does produce an id filter |
| Recordings.Select | src/controllers/recordingsController.js:241-242 | the rows returned are exactly the given rows that match the where clause |
| Recordings.SelectCounts | src/controllers/recordingsController.js:241-242 | each matching row is returned as often as it occurs, and no other row |
| Recordings.SelectAppend | src/controllers/recordingsController.js:241-245 | the filter works piecewise, so the matches keep the rows' newest-first order |
| Recordings.Page | src/controllers/recordingsController.js:243-244 | at most `take` rows; the `take` rows from offset `skip` when the hits reach that far; none past the end |
| Recordings.PagesTile | src/controllers/recordingsController.js:212-244 | consecutive pages concatenate to the larger page, with nothing lost or repeated, and a page as large as the hits is all of them |
| Recordings.RunQuery | src/controllers/recordingsController.js:240-253 | every row found matches the query; an error exactly when a given skip or take is negative; a paginated answer is the `Page` of the matches at that skip and take; without skip and take every match is returned |
| Recordings.ListingIsOwnRecordingsOnly | src/controllers/recordingsController.js:214 | a listing never shows another user's recording |
| Recordings.SessionRestoreListsUploading | src/controllers/recordingsController.js:225-238 | restoring a session by glossary id lists only that item's UPLOADING recordings of the caller |
| Recordings.IdListIgnoresPagination | src/controllers/recordingsController.js:243-244 | with an id list, every matching row is returned, regardless of page and limit |
| Recordings.WithPreviews | src/controllers/recordingsController.js:255-269 | when previews are on, each row gets a one-hour GET URL for its key unless signing it fails, which drops only that row's URL; rows and order are kept |
| Recordings.PageCount | src/controllers/recordingsController.js:279 | `Math.ceil(total / limit)`: the least page count that covers the total |
| Recordings.Respond | src/controllers/recordingsController.js:240-282 | the response to a built query: its rows with previews, an error exactly when the query fails, the query's page and total, and the pagination block of one page or of `limit`-sized pages |
| Recordings.ListingFailsOnlyOnNegativeParams | src/controllers/recordingsController.js:207-212 | the listing errs only for a request without ids whose limit or page is negative |
| Recordings.ListRecordings | src/controllers/recordingsController.js:204-287 | the rows listed are the query's result with previews attached; an error exactly when that query fails, which is when listing without ids with a negative limit or page. The response lists only the caller's rows. It reports the page, and the total of all matches. With ids: 1 page, limit = rows shown. Otherwise: the limit, at most that many rows, and the covering page count. Previews appear iff ids or a glossary filter was given and signing succeeded |
| Recordings.GetMyRecordings | src/controllers/recordingsController.js:204-287 | the handler answers `ListRecordings` over the table in newest-first order, changes nothing, and every listed row is a stored recording of the caller |
| Dashboard.CalculateLevel | src/controllers/dashboardController.js:6-10 | Maestro iff at least 50 points, Explorador iff 10 to 49, Iniciado iff below 10 |
| Dashboard.LevelMonotone | src/controllers/dashboardController.js:6-10 | more reputation never gives a lower level |
| Dashboard.Contributed | src/controllers/dashboardController.js:49-54 | an id is contributed iff some row for it is PENDING, PROCESSING or APPROVED |
| Dashboard.PendingCount | src/controllers/dashboardController.js:109-111 | the pending count never exceeds the number of rows |
| Dashboard.PendingCountCountsRows | src/controllers/dashboardController.js:108-111 | the count is the number of positions of the user's rows that are PENDING or PROCESSING |
| Dashboard.PendingCountAppend | src/controllers/dashboardController.js:109-111 | the pending count of two row lists together is the sum of their counts |
| Dashboard.PendingCountsRowsNotItems | src/controllers/dashboardController.js:108-111 | any number of takes of one word, all in review, count once each as pending, while the word counts once as contributed |
| Dashboard.Progress | src/controllers/dashboardController.js:64-66 | 0 for an empty glossary; otherwise the percentage rounded half up |
| Dashboard.ProgressBounded | src/controllers/dashboardController.js:64-66 | with no more contributed than existing items, progress is at most 100, exactly 100 when all are contributed, and 0 when none is |
| Dashboard.CatalogIds | src/controllers/dashboardController.js:45 | the glossary's ids are at most as many as its rows |
| Dashboard.ContributedNoMoreThanGlossary | src/controllers/dashboardController.js:45-66 | when every recording refers to an existing item, the contributed count is at most the glossary size and progress is at most 100 |
| Dashboard.PlaceholderExcludesNothing | src/controllers/dashboardController.js:73 | for positive ids, the `[-1]` placeholder excludes exactly what the contributed set does |
| Dashboard.Remaining | src/controllers/dashboardController.js:70-75 | the candidates are exactly the glossary items whose id is not excluded |
| Dashboard.NextMission | src/controllers/dashboardController.js:70-86 | none iff every item is excluded; otherwise a non-excluded item that precedes every other candidate in (priority, slug) order |
| Dashboard.PriorityAssignments | src/controllers/dashboardController.js:89-106 | as many as 3 candidates allow (all when fewer), taken from the candidates each at most as often as it occurs, sorted, and each preceding every candidate left out: the three least in (priority, slug) order. The list starts with the next mission |
| Dashboard.LeastOfSorted | src/controllers/dashboardController.js:89-99 | the first `k` of the (priority, slug) listing are sorted, drawn from the candidates, all of them when `k` is their number, and each precedes every candidate left out |
| Dashboard.PrefixLeast | src/controllers/dashboardController.js:89-106 | `take` on a sorted listing keeps a sorted part whose every element precedes every element left out |
| Dashboard.DisplayName | src/controllers/dashboardController.js:118 | `user.name \|\| 'Usuario'`: a missing or empty name shows as Usuario |
| Dashboard.MissionsOf | src/controllers/dashboardController.js:135-140 | one mission entry per item, in order |
| Dashboard.RowsOf | src/controllers/dashboardController.js:28-33 | exactly the user's own recordings, each as often as the table holds it |
| Dashboard.GetDashboardData | src/controllers/dashboardController.js:17-147 | 404 iff the user is missing. Otherwise the response has the user card (display name, streak, level, score). Totals are computed over the user's own rows. The next mission is `NextMission` of the contributed ids, none iff everything is excluded, and it is the first priority assignment. The assignments are the missions of `PriorityAssignments` of the contributed ids |
| Dashboard.UnsubmittedWordStaysOpen | src/controllers/dashboardController.js:47-53 | a word with only UPLOADING or REJECTED takes is not contributed, so there is a next mission and it precedes that word |
| Assignments.VisibleItems | src/controllers/assignmentsController.js:14-29 | an administrator sees the whole table. Anyone else sees exactly the ACTIVE items that are PUBLIC or list their role |
| Assignments.ListedItems | src/controllers/assignmentsController.js:32-37 | the listing is sorted by (priority, slug) and is a permutation of the visible items |
| Assignments.OwnStatuses | src/controllers/assignmentsController.js:38-47 | the statuses are exactly those of the caller's recordings of the item |
| Assignments.TabFor | src/controllers/assignmentsController.js:53-64 | `completed` iff an APPROVED take exists. Otherwise `pending` iff one is PENDING or PROCESSING. `available` iff every take is UPLOADING or REJECTED |
| Assignments.GetAssignments | src/controllers/assignmentsController.js:52-72 | one entry per listed item, in listing order, with that item's id, slug and category and the tab of the caller's takes of it |
| Assignments.ListsExactlyVisibleItems | src/controllers/assignmentsController.js:14-37 | an item is listed iff it is in the table and visible to the role |
| Assignments.AdminSeesEverything | src/controllers/assignmentsController.js:15-19 | an administrator gets one entry per glossary row |
| Assignments.OnlyOwnRecordingsMatter | src/controllers/assignmentsController.js:39-42 | another user's recording never changes the caller's list |
| Validation.ParseHearingStatus | src/utils/validation.js:7-10 | accepts exactly the four enum spellings and returns the member spelled so |
| Validation.OptionalField | src/utils/validation.js:12-13 | an absent key reads as missing; a present one reads as its string |
| Validation.ParseOnboarding | src/utils/validation.js:6-14 | succeeds iff the body satisfies the schema. Otherwise 400. The parsed data carries the body's hearing status, LSM variant, and the optional fields when present |
| Validation.ParseOnboardingBody | src/utils/validation.js:6-14 | every answer with a non-empty variant, sent as a body, parses back to itself |
| Validation.UnknownKeysStripped | src/utils/validation.js:6 | keys outside the schema change neither validity nor the parsed data |
| Validation.OnlyObjectsPass | src/utils/validation.js:6 | a body that is not an object is refused |
| Validation.EmptyVariantRefused | src/utils/validation.js:11 | an empty LSM variant is refused |
| Validation.NullAgeRangeRefused | src/utils/validation.js:12 | an explicit null age range is refused |
| Onboarding.Onboard | src/controllers/userController.js:15-48 | 403 once onboarding is completed; otherwise 400 iff the body is invalid. On success the validated fields are stored, absent optional fields keep their old value, the flag becomes true, and streak, reputation, name and role are unchanged |
| Onboarding.OnboardingIsOneShot | src/controllers/userController.js:16-21 | after a successful onboarding every later call is refused, whatever its body |
| Onboarding.RefusedBodyCanBeRetried | src/controllers/userController.js:24-33 | an invalid body does not use up the one-time step: a valid one later succeeds |
| Onboarding.OnboardingStoresTheAnswer | src/controllers/userController.js:35-48 | onboarding with the body for an answer stores that answer |
| Onboarding.CompleteOnboarding | src/controllers/userController.js:9-73 | the handler's outcome is `Onboard` of the caller's row; only on success is that row replaced, and no other table changes |
| ConnectionUrl.DatabaseUrl | src/lib/prisma.js:17-22 | the URL is the base, one separator, then the pool parameters. The separator is `&` iff the base already has a `?` |
| ConnectionUrl.PoolParamsJoinTheQuery | src/lib/prisma.js:19-21 | the result always has a query. The pool parameters are the whole query when the base had none, and one more `&`-parameter after the base's query otherwise |
| ConnectionUrl.UnsetVariable | src/lib/prisma.js:18 | an unset `DATABASE_URL` gives just `?connection_limit=3&pool_timeout=20` |

## Left out

- `debugStatus`: a diagnostics endpoint, outside the modelled core.
- Other components: authentication, routing, rate limiting, the other
  controllers and configuration. The handlers receive an authenticated user
  id whose users row exists, which is what the authentication middleware
  guarantees.
- Concurrency:
  - `Promise.all` in `initializeUpload` and `getMyRecordings` is modelled as
    sequential.
  - Concurrent requests, race conditions and transactions are not modelled.
- Time is whole day numbers, passed in as `today` and stored as the last
  contribution day. Time of day, time zones and the timestamp written to
  `lastContributionAt` are not modelled.
- Recordings.ListParams: query values arrive already parsed. A missing or
  non-numeric value is `None`, and a status string outside the enum is not
  modelled (Prisma would reject it).
- Recordings.InitializeUpload: `assignmentId` and `count` are integers and
  `contentType` is a string, defaulting to `video/webm` when absent. The
  request's JSON types are not modelled: a string count, a fractional count,
  a string id that Prisma rejects, or an explicit `null` content type (which
  bypasses the default). `metadata` is not stored.
- Recordings.UploadSingle: `index` is an integer, 0 when absent. A string
  index (`"2" + 1` names the file `recording_21.webm`) and a `null` index
  (named `recording_1.webm`) are not modelled, and neither is an explicit
  `null` content type.
- Recordings.ListRecordings: the `glossary` include (slug and category of
  each row's item) is not modelled.
- Recordings.RunQuery: a negative skip or take is reported as a server
  error. What Prisma does with a negative take (it reads backwards) is not
  modelled.
- Row order: the `createdAt` order is the order rows were created. Ties
  between equal timestamps are not modelled.
- Signing failures:
  - URL signing and object-store failures are parameters (a set of failing
    keys).
  - A failing `generateUploadUrl` in `initializeUpload` (inside
    `generateBatchUploadUrls`, before any row is created) or in `uploadSingle`
    (inside `generateSingleUploadUrls`, before its row is created) answers 500
    with no row created. That path is not modelled: signing always succeeds
    in these two handlers.
  - A `recording.create` failing part-way through `initializeUpload`'s
    `Promise.all` would leave the rows already created behind. Database
    failures are not modelled (next line).
- Failing database calls, which would make the handlers answer 500, are not
  modelled, except the negative-query case above.
- Common.IsSpace: `trim` removes spaces, tabs, line breaks, vertical tab and
  form feed. The other Unicode white space is not modelled.
- Catalog.LexLe: slugs are compared code point by code point. Database
  collation rules are not modelled.
- Math.round: floating-point effects are not modelled. The model rounds the
  exact rational percentage half up.
- `approvedGlossaryIds` in `getDashboardData`: computed and never used, so
  not modelled.
- The Prisma singleton, hot-reload cleanup and the signal and exit handlers
  in `prisma.js` are process lifecycle, not modelled. Only `getDatabaseUrl`
  is.
- `getUserProfile`: not in the core. The response's `select` of the updated
  user is the full row here.
- Storage.UuidSource: `uuidv4()` is taken to always give a never-issued
  value with no `/` or `.`. Random collisions are not modelled.
- Storage.SignedUrl: presigned URLs are opaque values that record the
  operation, key, content type and lifetime. The signature and the bucket
  name are not modelled.
- Request and response logging (`console.log`) is not modelled.
