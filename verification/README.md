# Verified model of Talonhound's session, search, linking and import logic

This project models, in Dafny, the parts of the Talonhound threat-intelligence platform whose
correctness depends on a whole history of steps and not on one branch, and proves what holds of them.

| part | model | proofs | in-place form |
|---|---|---|---|
| Bounded browser sessions and the auth-version gate | `Sessions.dfy` | `SessionProofs.dfy`, `SessionAnswers.dfy` | `SessionStore.dfy` |
| Deep-search worker, user cancels, retention sweep | `DeepSearch.dfy` | `DeepSearchProofs.dfy`, `DeepSearchAnswers.dfy` | `DeepSearchStore.dfy` |
| Linking a reported label to the catalog | `CatalogLinking.dfy` | `CatalogLinkingProofs.dfy`, `CatalogVerdicts.dfy` | `CatalogStore.dfy` |
| Feed import and first/last-seen merging | `ImportMerge.dfy` | `ImportMergeProofs.dfy`, `ImportFlat.dfy`, `ImportRepeat.dfy` | `ImportTable.dfy` |
| Keyset pagination of the API and the interactive search | `KeysetPaging.dfy` | `KeysetPagingProofs.dfy` | |
| CSV field splitter and custom feed parser | `CsvLine.dfy`, `FeedParser.dfy` | same files | same files |
| Audit redaction | `Redaction.dfy` | same file | same file |

Each stateful part has a step function on values. A run is any sequence of states linked by enabled
steps of any party in any order, and the main theorems quantify over all runs. Where the program
updates tables in place, a class with one method per operation is proved to perform exactly that step.
Choices the database is free to make (rows of equal rank, rows of a bounded DELETE, a lost answer) are
arguments of the steps, so the theorems hold for every choice.

`dafny verify dfyconfig.toml` checks everything.

## Assumptions

- SHA-256 is injective; session ids and secrets are fresh; the clock never goes back; the
  configuration is constant and within the ranges `backend/lib/sessionConfig.js` and
  `backend/lib/iocDeepSearch/deepSearchConfig.js` enforce.
- A transaction that locks its row with `FOR UPDATE` is one step.
- A cursor token is an inverse pair of encoder and decoder (base64url over JSON), and the encoding is
  never empty. The table does not change while a client follows its cursors.
- Advisory lock keys of different kinds and labels differ (no `hashtext` collision).
- A deep search has an empty spool while it is queued; SQLSTATE 57014 is raised only before a
  successful COMMIT; a transaction whose ROLLBACK fails belongs to a dead connection and leaves no effect.
- The match set a deep-search INSERT produces has no duplicate items; it is otherwise arbitrary.

## What the proofs found

- **Cursors lose microseconds.** `created_at` has microseconds, a cursor milliseconds. Rows within
  one millisecond of a page boundary can be skipped. `MicrosecondsLoseRows` gives such a table;
  `ApiPagingIsExactIff` and `SearchPagingIsExactIff` prove that paging is exact if and only if the row
  after each page lies below that page's cursor. Millisecond timestamps always satisfy it.
- **LIMIT 20 can hide a duplicate.** The check sorts by activity and name before it cuts off. It is
  certain to see an exact collision if and only if some exact row has fewer than 20 merely similar rows
  ahead of it (`CheckSeesExactCollision`). With 20 families that spell an alias differently and one that
  sorts behind them, a confirmed create adds a second "apt1" (`DuplicateGetsThrough`).
- **Only an analyst's link is final.** A link that ingestion made can be replaced or cleared when the
  source reports the row again, so a label can open again without a new row
  (`ReingestionReopensALabel`); `LinkIsKeptIff` and `StaysLinkedIff` say exactly when.
- **A repeated link is not always "already linked".** It is if and only if some row of the label stays
  visible with the chosen entity and no visible row points to another one (`RepeatedRequestAnswer`). A
  suppression override on the chosen entity breaks it (`SuppressedRepeatFails`).
- **A refused request may have written**, when the answer to its COMMIT is lost, and only then
  (`RefusedRequestChangesNothing`, `LostCommitHasWritten`).
- **A second import is not always quiet.** The update takes the row with the least created_at, without a
  tie-break, and all rows of one import tie. A repeat is sure to update nothing if and only if entries
  that will meet in a row agree on url, category and note, and stored rows of a key that tie already hold
  what its entry says (`SecondImportIsQuiet`). `TiedRowsSpoilTheRepeat` breaks it with a single entry,
  `ConflictingEntriesNeverSettle` with two that disagree, for every number of repetitions.
- **The full mode counts skipped entries twice.** Its four counters add up to the entries plus the skipped
  ones; they add up to the entries if and only if no duplicate says what its row already holds
  (`FullModeTotal`, `FullModeCountsTwice`).
- **The drain loop stops on a short batch.** It empties the spool if and only if the batch size is at
  most 200000 or the spool fits in one bounded DELETE (`Drain`). The configuration keeps it in range.

## Model

| member | source | states |
|---|---|---|
| SessionProofs.RunKeepsInv | backend/lib/authSessions.js:64-343 | Every state of every run: each row stores the hashes of its newest secret and of that secret's direct predecessor, the absolute bound is creation plus absoluteMs, the idle bound is last activity plus idleMs, all issued secrets are distinct. |
| SessionProofs.MintedTokenParses | backend/lib/authSessions.js:37-45 | Parsing a minted refresh token gives back its session id and secret. |
| SessionProofs.RefreshAcceptsNewestOrGracedPredecessor | backend/lib/authSessions.js:168-279 | In every run, a refresh rotates if and only if the session is live and entitled and the secret is the newest one issued; it is graced, leaving the whole state unchanged, if and only if the secret is the direct predecessor within the grace window; any other secret on a live session revokes it as reuse. |
| SessionProofs.NoSecretRotatesTwice | backend/lib/authSessions.js:168-279 | However calls interleave, one token produces at most one new refresh token. |
| SessionProofs.LastRotation | backend/lib/authSessions.js:253-263 | The stored rotation time is that of the event that rotated the predecessor away. |
| SessionProofs.GraceFollowsItsOwnRotation | backend/lib/authSessions.js:211-251 | Every graced refresh comes within refreshGraceMs of an earlier rotation by the very same token. |
| SessionProofs.IssuedOnlyGrows | backend/lib/authSessions.js:239-272 | The history of secrets issued to a session only grows at its end. |
| SessionProofs.DeadSessionIsNeverAccepted | backend/lib/authSessions.js:108-343 | Once a session is revoked, idle-expired, absolute-expired or removed, no later gate check, validation, heartbeat or refresh accepts it. |
| SessionProofs.OnlyDeadSessionsAreSwept | backend/lib/authSessions.js:324-343 | A row disappears only with its user or through cleanup, and cleanup takes only revoked or absolutely expired sessions, never a live one. |
| SessionProofs.FirstRevocationWins | backend/lib/authSessions.js:281-316 | The first revocation's time and reason stay for as long as the row exists. |
| SessionProofs.ClocksComeFromEvents | backend/lib/authSessions.js:75-92 | A row's creation time is that of its login event, its last activity that of its login or of a counted heartbeat. |
| SessionProofs.AcceptedOnlyWithinBounds | backend/lib/authSessions.js:108-279 | Whatever accepts a session (gate, validation, heartbeat, refresh) does so less than absoluteMs after its login and less than idleMs after its last counted activity. |
| SessionProofs.OnlyHeartbeatMovesIdleBound | backend/lib/authSessions.js:134-153 | The absolute bound never moves; the idle bound moves only by a heartbeat on a live session. |
| SessionProofs.CountedHeartbeatRenews | backend/lib/authSessions.js:134-153 | A heartbeat counts if and only if the session is live and the minimum interval has passed; the session is then live at a later time exactly while within the new idle bound and the old absolute one. |
| SessionProofs.HeartbeatWritesAreBounded | backend/lib/authSessions.js:134-153 | Over every run, heartbeat writes of a session times activityMinUpdateMs stay below absoluteMs. |
| SessionProofs.VersionsOnlyGrow | backend/lib/authVersion.js:14-25 | In every run a user's auth version never decreases. |
| SessionProofs.OlderTokenNeverPassesAgain | backend/lib/authVersion.js:94-113 | After a bump, the gate denies every token that claims an older version, for the rest of the run. |
| SessionProofs.EarlierSessionNeverRefreshesAgain | backend/lib/authSessions.js:227-237 | After a bump, no session issued before it ever refreshes again. |
| SessionProofs.RefreshedTokenPassesGate | backend/lib/authVersion.js:94-128 | The access token minted from a rotated or graced refresh passes the gate at that instant. |
| SessionAnswers.TokenParsesIff | backend/lib/authSessions.js:37-45 | A raw value parses to (id, secret) if and only if, trimmed, it is id, dot, secret, with both non-empty and no dot in the id. |
| SessionAnswers.HandedTokenIsNewest | backend/lib/authSessions.js:95-101 | In every run, the token that a login or a rotation hands out parses to its session and the newest secret in the store. |
| SessionAnswers.HandedTokenRotates | backend/lib/authSessions.js:253-272 | Presented at any later time before another rotation, that token rotates if and only if the session is live, the user active and the version unchanged. |
| SessionAnswers.RefusalsRevoke | backend/lib/authSessions.js:194-237 | Each refusal of a refresh has exactly its cause, in the order of the checks, and all but one for an earlier revocation revoke the session at that instant for that cause; no other session and no user changes. |
| SessionAnswers.UnknownTokenIsRefused | backend/lib/authSessions.js:171-191 | A token that does not parse or names no session of an existing user is refused and changes nothing, and only such a token is refused so. |
| SessionAnswers.ValidationAnswer | backend/lib/authSessions.js:108-126 | The read-only check answers valid exactly for a live session, with its user, and otherwise the first cause that applies. |
| SessionAnswers.RevocationAnswers | backend/lib/authSessions.js:291-316 | A revocation reports whether or how many sessions it was the first to end, and marks exactly those with its time and reason. |
| SessionAnswers.RevokedIsNeverAccepted | backend/lib/authSessions.js:291-316 | After a logout, or a logout of all sessions of its user, no check accepts the session in the rest of the run. |
| SessionAnswers.GatePassesIff | backend/lib/authVersion.js:57-132 | An examined request passes if and only if its token, its user (existing, active, same version) and, for an enforced cookie login, its live session all hold; each expiry answer has exactly its cause. |
| SessionAnswers.ExaminedIff | backend/lib/authVersion.js:57-78 | The gate examines exactly the API calls of a signed-in person by cookie or bearer, except the logout. |
| SessionAnswers.BumpAnswer | backend/lib/authVersion.js:14-25 | A bump adds one to that user's version alone and answers the new version, or null for a missing user. |
| SessionAnswers.SweptSessionsAreOld | backend/lib/authSessions.js:324-343 | Cleanup removes only sessions that were revoked or absolutely expired for longer than the retention days, and answers how many. |
| SessionAnswers.SweepIsComplete | backend/lib/authSessions.js:324-343 | A cleanup that deletes fewer rows than its batch size has left no such session; 0 means a batch of 1000. |
| SessionAnswers.SweepTakesLowestIds | backend/lib/authSessions.js:337-338 | In every run row ids are unique, and cleanup takes an old session only before those with greater ids. |
| SessionTables.SessionStore.CreateSession | backend/lib/authSessions.js:64-101 | The in-place login performs exactly the create step. |
| SessionTables.SessionStore.ValidateAccessSession | backend/lib/authSessions.js:108-126 | Valid if and only if the row exists and is live; nothing changes. |
| SessionTables.SessionStore.TouchActivity | backend/lib/authSessions.js:134-153 | The in-place heartbeat performs exactly the heartbeat step. |
| SessionTables.SessionStore.RotateRefresh | backend/lib/authSessions.js:168-279 | The in-place rotation, branch by branch, performs exactly the refresh step that the rows above are about, token included. |
| SessionTables.SessionStore.RevokeWithin | backend/lib/authSessions.js:281-288 | One row is revoked with its earlier time and reason kept; all others stay. |
| SessionTables.SessionStore.RevokeSession | backend/lib/authSessions.js:291-300 | Performs exactly the revoke step. |
| SessionTables.SessionStore.RevokeAllForUser | backend/lib/authSessions.js:306-316 | The loop over rows performs exactly the revoke-all step and its count. |
| SessionTables.SessionStore.CleanupSessions | backend/lib/authSessions.js:324-343 | Deletes a batch of terminal rows with the lowest ids, within the clamped batch size, and nothing else. |
| SessionTables.SessionStore.BumpAuthVersion | backend/lib/authVersion.js:14-25 | Performs exactly the bump step. |
| SessionTables.SessionStore.AuthVersionGate | backend/lib/authVersion.js:57-132 | Takes exactly the gate's decision; a pass of an enforced session implies a live row of that user. |
| DeepSearchProofs.RunKeepsInv | backend/ioc-deep-search-worker.js:72-329 | Every interleaving keeps the row, worker and sweep invariants, with at most one owning worker. |
| DeepSearchProofs.CompletedSearchIsExact | backend/ioc-deep-search-worker.js:154-201 | In every reachable state a completed, unexpired search has a spool equal to the committed match set, without duplicates, match_count equal to its size, and no cancel requested. |
| DeepSearchProofs.CancelledOrExpiredSpoolIsEmpty | backend/ioc-deep-search-worker.js:175-300 | In every reachable state a cancelled or expired search has an empty spool, whichever point settled it. |
| DeepSearchProofs.OnlyOneWorkerOwnsTheSearch | backend/lib/iocDeepSearch/deepSearchStore.js:158-172 | At most one worker ever gets past the claim: owners at any two times of a run are the same worker. |
| DeepSearchProofs.CancelBeatsCompletion | backend/lib/iocDeepSearch/deepSearchStore.js:180-223 | Once a cancel is recorded, the search is not completed in any later state. |
| DeepSearchProofs.SpoolSize | backend/lib/iocSearchDsl/searchPageSql.js:341-359 | The numbered spool has exactly one row per match. |
| DeepSearchProofs.UndisturbedJobCompletes | backend/ioc-deep-search-worker.js:72-212 | Left alone, a job can take all eight of its steps as a run, and ends completed with exactly the rows its query found. |
| DeepSearchProofs.CancelPointSettles | backend/ioc-deep-search-worker.js:94-224 | With a cancel pending, each check before COMMIT and the catch block lead to a cancelled row with an empty spool, and the lost completion race leads to the drain. |
| DeepSearchProofs.DrainedJobSettles | backend/ioc-deep-search-worker.js:190-200 | The short last batch of the worker's drain leads to a cancelled row with an empty spool. |
| DeepSearchAnswers.CancelIsRecorded | backend/lib/iocDeepSearch/deepSearchStore.js:211-223 | A cancel flags a queued or running search; the queued one is cancelled at once, the running one keeps running, any other is unchanged. |
| DeepSearchAnswers.CancelledSearchNeverCompletes | backend/lib/iocDeepSearch/deepSearchStore.js:180-223 | In every run, a search cancelled while queued or running is not completed in any later state. |
| DeepSearchAnswers.CheckAfterInsertDecides | backend/ioc-deep-search-worker.js:173-181 | A finished INSERT is discarded if and only if a cancel was signalled or shows on the row. |
| DeepSearchAnswers.CatchDecides | backend/ioc-deep-search-worker.js:213-228 | An error settles as cancelled if and only if it is SQLSTATE 57014 and the watcher had signalled or the row shows the request; otherwise the search ends failed. |
| DeepSearchAnswers.FailureEndsFailed | backend/ioc-deep-search-worker.js:216-228 | With no cancel requested, a timeout or any other error of the transaction ends in a failed search with an empty spool. |
| DeepSearchAnswers.LateErrorEndsFailed | backend/ioc-deep-search-worker.js:203-228 | An error after the COMMIT ends failed, even in announcing a completed search. |
| DeepSearchAnswers.RevalidationEndsFailed | backend/ioc-deep-search-worker.js:100-110 | A stored query that no longer parses ends in a failed search with an empty spool. |
| DeepSearchAnswers.OnlySettlingFails | backend/lib/iocDeepSearch/deepSearchStore.js:191-223 | A search turns failed only by the worker's settling, and cancelled only so or by a cancel while queued. |
| DeepSearchAnswers.CompletionStores | backend/lib/iocDeepSearch/deepSearchStore.js:180-189 | A search turns completed only from running without a cancel, by the worker that committed, with that count and the given expiry. |
| DeepSearchAnswers.CommitSpools | backend/ioc-deep-search-worker.js:164-183 | COMMIT replaces the deleted rows by the numbered matches; one without effect changes nothing. |
| DeepSearchAnswers.CompletionLeads | backend/ioc-deep-search-worker.js:187-201 | A refused completion leads to the drain with the row unchanged, a failed one to the catch block. |
| DeepSearchAnswers.OnlyCommitSpools | backend/ioc-deep-search-worker.js:154-183 | A row enters the spool only by a COMMIT that took effect, and is one of its matches. |
| DeepSearchAnswers.LoserDoesNothing | backend/ioc-deep-search-worker.js:72-82 | A worker that finds the search taken changes nothing. |
| DeepSearchAnswers.SpoolIsNumbered | backend/lib/iocSearchDsl/searchPageSql.js:341-359 | The spool holds match k at position k, from 1, and nothing else. |
| DeepSearchAnswers.ExpiresOnlyPastExpiry | backend/ioc-deep-search-worker.js:283-300 | In every run a search turns expired only when completed and past its expiry. |
| DeepSearchAnswers.RemovedOnlyWhenOver | backend/ioc-deep-search-worker.js:302-314 | In every run a row is removed only when expired, failed or cancelled, and leaves no spool. |
| DeepSearchAnswers.SweepEnds | backend/ioc-deep-search-worker.js:290-314 | A drained sweep turns a completed search expired without a count, and removes one that is over. |
| DeepSearchTables.DeepSearchStore.ClaimForProcessing | backend/lib/iocDeepSearch/deepSearchStore.js:158-172 | Wins if and only if the row was queued, and then it is running. |
| DeepSearchTables.DeepSearchStore.MarkCompleted | backend/lib/iocDeepSearch/deepSearchStore.js:180-189 | Completes if and only if the row was running with no cancel requested, and then holds the given count and expiry. |
| DeepSearchTables.DeepSearchStore.RequestCancel | backend/lib/iocDeepSearch/deepSearchStore.js:211-223 | A queued row is flagged and cancelled at once, a running one is flagged and stays running, any other stays; it answers whether it flagged one. |
| DeepSearchTables.DeepSearchStore.DeleteResultsBatch | backend/lib/iocDeepSearch/deepSearchStore.js:303-314 | Removes as many spool rows as the clamped batch size allows and returns their number. |
| DeepSearchTables.DeepSearchStore.MarkExpired | backend/lib/iocDeepSearch/deepSearchStore.js:316-325 | Expires if and only if the row was completed or expired. |
| DeepSearchTables.DeepSearchStore.DeleteMetadataRow | backend/lib/iocDeepSearch/deepSearchStore.js:344-352 | Deletes if and only if the row was expired, failed or cancelled. |
| DeepSearchTables.DeepSearchStore.Drain | backend/ioc-deep-search-worker.js:190-195 | Terminates for every positive batch size, and empties the spool if and only if the batch size is at most 200000 or the spool is. |
| DeepSearchTables.DeepSearchStore.ExpireCompleted | backend/ioc-deep-search-worker.js:277-300 | Expires if and only if the row is completed, past its expiry and no bulk job uses it; then the spool is empty. |
| CatalogLinkingProofs.RunKeepsLockInv | backend/lib/attributionCatalogLinking.js:657-666 | In every run, each lock is held by at most the request whose place says so, and no two requests share one. |
| CatalogLinkingProofs.SomeRequestCanStep | backend/lib/attributionCatalogLinking.js:657-666 | No deadlock: in every reachable state with an unfinished request, some request can step. |
| CatalogLinkingProofs.EveryRequestIsShort | backend/lib/attributionCatalogLinking.js:657-781 | In any run a request takes at most five steps, so with the above every request can be driven to its end. |
| CatalogLinkingProofs.CommitResolvesExactlyTheLabel | backend/lib/attributionCatalogLinking.js:748-775 | A commit resolves every unlinked row of exactly that (IOC, kind, label) to the chosen entity, as the analyst's link, and changes no other row. |
| CatalogLinkingProofs.AnalystLinkIsFinal | backend/lib/iocSourceAttributions.js:165-232 | In every run an analyst's link keeps its entity and its resolver, whatever the sources report again. |
| CatalogLinkingProofs.LinkIsKeptIff | backend/lib/iocSourceAttributions.js:223-232 | Over any stretch of a run a link is kept in every state if and only if no re-ingestion of an unpinned row reports another entity or none. |
| CatalogLinkingProofs.StaysLinkedIff | backend/lib/iocSourceAttributions.js:223-232 | A fully linked label stays so under a step if and only if the step does not add an unlinked row or clear an unpinned one. |
| CatalogLinkingProofs.ReingestionReopensALabel | backend/lib/iocSourceAttributions.js:223-232 | After a link, a source's own row is reported without an entity and the next link writes it; the analyst's row stays. |
| CatalogLinkingProofs.LaterRequestsChangeNothing | backend/lib/attributionCatalogLinking.js:678-775 | After a commit, until ingestion gives the label an unlinked row, no step of any link or create request for it changes the database. |
| CatalogLinkingProofs.RepeatedRequestAnswer | backend/lib/attributionCatalogLinking.js:685-709 | The repeat of a committed request answers already_linked with the same entity if and only if some row of the label shows it and none shows another. |
| CatalogLinkingProofs.SuppressedRepeatFails | backend/lib/attributionCatalogLinking.js:364-378 | With a suppression override on the chosen entity a link goes through and its repeat is told that the label does not exist. |
| CatalogLinkingProofs.CheckSeesExactCollision | backend/lib/attributionCatalogLinking.js:290-322 | The first 20 colliding rows by (active, name) are certain to hold an exact one if and only if some exact row has fewer than 20 merely similar rows ahead of it; rows of equal rank may come in any order. |
| CatalogLinkingProofs.LimitCanHideADuplicate | backend/lib/attributionCatalogLinking.js:723-733 | Otherwise some result of the ordered query lets a colliding, confirmed create proceed. |
| CatalogLinkingProofs.DuplicateGetsThrough | backend/lib/attributionCatalogLinking.js:290-322 | For every n of at least 20: n families with an alias spelled like "apt1" and one that sorts behind them with the alias itself; every result lets the create proceed, its slug is free, and disjoint keys become shared. |
| CatalogLinkingProofs.IdentityKeysStayDisjoint | backend/lib/attributionCatalogLinking.js:657-745 | Under any interleaving in which every check that meets an exact row has room for one, names and aliases of distinct entities of a kind stay disjoint, committed and pending ones alike. |
| CatalogLinkingProofs.SlugsStayUnique | backend/lib/attributionCatalogLinking.js:734-745 | Slugs stay unique per kind in every run, also against creates and edits of the admin page, which takes no lock. |
| CatalogLinkingProofs.LinkedIffCommitted | backend/lib/attributionCatalogLinking.js:748-793 | In every run a request has ended linked or created if and only if it committed and heard so; a lost answer ends as a database error. |
| CatalogLinkingProofs.RefusedRequestChangesNothing | backend/lib/attributionCatalogLinking.js:685-796 | In every run, no step of a request that is refused or already linked changes the catalog or the assertions, unless the refusal is the lost answer to its COMMIT. |
| CatalogLinkingProofs.LostCommitHasWritten | backend/lib/attributionCatalogLinking.js:781-796 | With a lost answer the request reports a database error and has written exactly its commit. |
| CatalogVerdicts.SuppressionScope | backend/lib/attributionCatalogLinking.js:364-378 | An override hides only rows of its IOC and kind, by label or by entity, and every further detail it names narrows it. |
| CatalogVerdicts.LabelVerdict | backend/lib/attributionCatalogLinking.js:668-709 | Unknown IOC, unknown label, already linked and linked elsewhere are answered exactly when the rows that count say so. |
| CatalogVerdicts.LinkVerdict | backend/lib/attributionCatalogLinking.js:713-721 | On an open label, a link proceeds if and only if the entity exists in the kind, is active and is not the unknown actor; each refusal has its cause. |
| CatalogVerdicts.CreateVerdict | backend/lib/attributionCatalogLinking.js:722-733 | On an open label, a create is a duplicate exactly when a returned row has its name, alias or slug, a potential duplicate exactly when rows are returned, none of them such, and the analyst did not confirm. |
| CatalogVerdicts.UnconfirmedCreateMetNothing | backend/lib/attributionCatalogLinking.js:290-322 | In every run, a create that did not confirm and got past its check had read a catalog with no entity of its kind that is the same or alike. |
| CatalogVerdicts.CheckOrder | backend/lib/attributionCatalogLinking.js:310-311 | The check returns active rows before inactive ones, each by name, at most 20 and all up to 20. |
| CatalogVerdicts.CommitWritesCatalog | backend/lib/attributionCatalogLinking.js:602-620 | A create adds its entity, active, under the new id; a link adds none; nothing else in the catalog changes. |
| CatalogVerdicts.ReportsAndWithdrawals | backend/lib/iocSourceAttributions.js:223-345 | A claim reported again is current, with its entity replaced unless pinned; a withdrawn one is not current and otherwise as it was. |
| CatalogTables.ValidateCreateInput | backend/lib/attributionCatalogLinking.js:335-362 | Accepts if and only if name, slug, aliases and description meet their limits, with aliases counted by distinct key; each refusal has its cause; accepted aliases are the first of each key, in order, and cover all keys given. |
| CatalogTables.DistinctAliases | backend/lib/attributionCatalogLinking.js:346-356 | The alias loop keeps the first alias of each key that is not the name's, in order, loses no key, and stops exactly at an overlong alias. |
| CatalogTables.CatalogStore.SummarizeLabel | backend/lib/attributionCatalogLinking.js:380-452 | The loops over rows and overrides find exactly the visible rows, the unlinked ones and the entities the others point to. |
| CatalogTables.CatalogStore.AnswerLinked | backend/lib/attributionCatalogLinking.js:685-709 | A fully linked label answers already_linked if and only if the catalog holds exactly one linked entity and it is the one requested. |
| CatalogTables.CatalogStore.FindCreateCollisions | backend/lib/attributionCatalogLinking.js:290-322 | Sorting, cutting off and splitting give a result of the ordered query, divided into its exact and its merely similar rows. |
| CatalogTables.CatalogStore.LinkUnlinkedRows | backend/lib/attributionCatalogLinking.js:748-775 | The loop of the UPDATE links exactly the unlinked rows of the label. |
| CatalogTables.CatalogStore.LinkSourceLabelToCatalog | backend/lib/attributionCatalogLinking.js:632-800 | Written out statement by statement, the transaction run alone ends as the verdicts above say: each refusal and repeat leaves the tables alone, an unconfirmed create goes through only when the check returned nothing, and an accepted one leaves the entity, active, and every unlinked row of the label with the analyst's link to it. |
| ImportMerge.MergeUrlhausFirstSeen | integration/importer.js:609-613 | The least of the times present, None if there is none, and the same as the SQL merge. |
| ImportMerge.MergeUrlhausLastSeen | integration/importer.js:615-619 | The greatest of the times present, None if there is none, and the same as GREATEST over COALESCE. |
| ImportMergeProofs.UpdatedMeansChanged | integration/importer.js:384-454 | "updated" is reported if and only if the table changed, "not_found" if and only if no row matches, and only the row the database picked can change. |
| ImportMergeProofs.MergedSays | integration/importer.js:397-424 | An updated row holds the observation's category and note, its URL where that is matched, the least first and greatest last time, and its old identity. |
| ImportMergeProofs.SelectionScope | integration/importer.js:410-414 | An update may go to exactly the rows of its observable, type and source, and of its URL where that is matched, NULL being ''. |
| ImportMergeProofs.SeenBoundsOverObservations | integration/importer.js:397-424 | Over any sequence of observations, each row's first_seen ends as the least and its last_seen as the greatest of the initial value and all non-null values of the observations that reached it. |
| ImportMergeProofs.SeenBoundsIgnoreOrder | integration/importer.js:397-424 | Permuting the observations that reach a row changes neither bound. |
| ImportMergeProofs.UrlhausOutcome | integration/importer.js:479-553 | Unless the fingerprint is known, the row ends with the entry's category and note in what they mean, the least first and greatest last time, the entry's fingerprint and its own identity. |
| ImportMergeProofs.UrlhausStatus | integration/importer.js:479-553 | Each status has exactly its cause (known fingerprint, new category or note, wider bounds, none of these) and the columns that it writes. |
| ImportMergeProofs.UrlhausReprocessingIsNoOp | integration/importer.js:479-553 | Processing the same URLhaus entry on a row again leaves the row alone and reports an unchanged fingerprint when there is one. |
| ImportMergeProofs.UrlhausRepeatIsNoOpIff | integration/importer.js:466-553 | In the table, row selection included, the repeat changes nothing if and only if it is taken to the same row, or to a tied one the entry would leave alone. |
| ImportMergeProofs.EveryEntryIsCountedOnce | integration/importer.js:1143-1336 | For every chunk size, inserted + updated + duplicate + skipped grows by exactly the number of entries in count_only mode; in full mode inserted + duplicate does. |
| ImportMergeProofs.ImportTouchesOnlyItsSources | integration/importer.js:1143-1361 | Old rows keep identity and seen times, and a row no entry addresses by observable and source is unchanged. |
| ImportMergeProofs.EveryObservableIsPresent | integration/importer.js:1187-1209 | After the import every entry's observable is in the table. |
| ImportMergeProofs.FreshRowsAreEntries | integration/importer.js:1187-1207 | The inserted rows are the rows of exactly those entries whose observable was absent. |
| ImportMergeProofs.NewRowSays | integration/importer.js:1166-1206 | An inserted row carries its entry's words, the call's type, and the import time as first and last seen. |
| ImportMergeProofs.DuplicatesKeepOrder | integration/importer.js:1216-1218 | The duplicates of a chunk are updated in the order of its entries. |
| ImportFlat.ImportIsFlat | integration/importer.js:1143-1336 | For every chunk size, the import comes to inserting all new rows first and then making all updates in order, counters included. |
| ImportFlat.ImportAsPredicted | integration/importer.js:1143-1336 | Every row ends with the payload of the last update aimed at it, or as stored or inserted, and every counter is that of the predicted endings, whatever the database picks among tied rows. |
| ImportFlat.FullModeTotal | integration/importer.js:1210-1213 | In full mode the four counters add up to the entries plus the skipped ones; they add up to the entries if and only if no duplicate says what its row holds at its turn. |
| ImportFlat.FullModeCountsTwice | integration/importer.js:1285-1288 | One stored row and one entry that says the same give a total of two. |
| ImportRepeat.ImportSettles | integration/importer.js:1216-1232 | Under the condition, the import leaves no row the database may pick for an entry different from it. |
| ImportRepeat.SecondImportOnlyUpdates | integration/importer.js:1187-1232 | A second import inserts nothing, and leaves the table as it is when it counts no update. |
| ImportRepeat.SecondImportIsQuiet | integration/importer.js:384-454 | A second import, with any chunk size, updates nothing whichever tied rows the database picks in either import, if and only if entries that will meet in a row agree and stored rows of a key that tie hold its entry's payload. |
| ImportRepeat.DistinctObservablesAreQuietIff | integration/importer.js:1216-1232 | For entries with distinct observables it is sure to be quiet if and only if each entry's stored key has one earliest row, or all of them hold its payload. |
| ImportRepeat.TiedRowsSpoilTheRepeat | integration/importer.js:410-416 | After one import of two entries for a new observable, a later single entry may be updated again by its repeat. |
| ImportRepeat.ConflictingEntriesNeverSettle | integration/importer.js:1216-1232 | Two differing entries of a key with one earliest stored row make every import update, whatever the row holds, and leave the key so, however often it is repeated. |
| ImportRepeat.ConflictingNotesExample | integration/importer.js:1216-1232 | One stored observable and two entries with different notes are such a case. |
| ImportTable.IocTable.FindEarliest | integration/importer.js:410-416 | The scan finds a matching row with the least created_at, the database's choice among tied ones, and none exactly when none matches. |
| ImportTable.IocTable.UpdateExistingBySourceIfChanged | integration/importer.js:384-454 | The search for the row and its conditional update give the specified table and status. |
| ImportTable.IocTable.UpdateUrlhaus | integration/importer.js:456-553 | Row selection, not_found, the fingerprint branch and the merges give exactly the row and status that UrlhausOutcome and UrlhausStatus describe. |
| ImportTable.IocTable.InsertMissing | integration/importer.js:1187-1214 | The chunk's INSERT appends exactly the absent entries and returns their number and observables. |
| ImportTable.IocTable.BatchInsertIocs | integration/importer.js:1143-1336 | The chunk loop with its counters computes the specified import. |
| KeysetPaging.Clamp | backend/lib/apiIocReadService.js:26-30 | The default when no number is given, otherwise the number moved to the nearest of 1 to 100. |
| KeysetPaging.CursorMovesOn | backend/lib/apiIocReadService.js:86-137 | Strictly fewer rows lie after the cursor of a served row than were left before, even with truncated times. |
| KeysetPagingProofs.RestOfSorted | backend/lib/apiIocReadService.js:86-137 | The rows after a cursor, sorted, are the sorted table with the rows not below the cursor dropped. |
| KeysetPagingProofs.NewestFirst | backend/lib/apiIocReadService.js:86-137 | The order is created_at and then id, both descending, with every row once. |
| KeysetPagingProofs.ApiPageIs | backend/lib/apiIocReadService.js:86-137 | A page holds the first rows below its position; has_more is true if and only if rows are left, and then the token decodes to the last row served. |
| KeysetPagingProofs.InvalidCursorIff | backend/lib/apiIocReadService.js:36-47 | A cursor is refused if and only if it is given and does not decode. |
| KeysetPagingProofs.ApiPagingTerminates | backend/lib/apiIocReadService.js:86-137 | A client following next_cursor makes at most one request more than there are rows. |
| KeysetPagingProofs.ApiPagingIsExactIff | backend/lib/apiIocReadService.js:26-137 | A full chain returns rows in strictly descending order; it returns the sorted table if and only if the row after each page lies below that page's cursor. |
| KeysetPagingProofs.ApiPagingReturnsEveryRowOnce | backend/lib/apiIocReadService.js:180-254 | With millisecond timestamps a full chain returns every matching row once, in (created_at, id) descending order, for any page sizes. |
| KeysetPagingProofs.MicrosecondsLoseRows | backend/lib/apiIocReadService.js:132-134 | Two rows within one millisecond and a page of one: a full chain does not return the table. |
| KeysetPagingProofs.MillisecondTimesHaveNoGaps | backend/lib/apiIocReadService.js:132-134 | Millisecond timestamps satisfy the boundary condition for all page sizes. |
| KeysetPagingProofs.SearchPagingTerminates | backend/server.js:4846-4987 | A search chain makes at most one request more than there are rows. |
| KeysetPagingProofs.SearchPageIs | backend/server.js:4846-4987 | A search page serves no more than the preview leaves; has_more is true if and only if rows and preview are left, and then the token carries the position and the rows seen; only the first page counts. |
| KeysetPagingProofs.SearchEdges | backend/server.js:4742-4753 | A used-up preview gives an empty last page, and a token that does not decode starts again. |
| KeysetPagingProofs.SearchPagingIsExactIff | backend/server.js:4846-4987 | A full chain serves at most previewLimit rows, none twice, and exactly the first min(previewLimit, n) if and only if the boundary condition holds up to the limit. |
| KeysetPagingProofs.SearchServesThePreview | backend/server.js:4738-4987 | With millisecond timestamps it serves exactly the first min(previewLimit, n) rows for any page sizes. |
| KeysetPagingProofs.ExactCountIff | backend/server.js:4896-4928 | The first page reports exact_count n exactly when n is at most previewLimit. |
| CsvLine.SplitCsvLine | backend/lib/customThreatFeedParser.js:21-45 | The character loop computes the scanner that `SplitUndoesEncoding` speaks of. |
| CsvLine.SplitUndoesEncoding | integration/importer.js:312-337 | Splitting any encoding by section 2 of RFC 4180 of a non-empty list of fields gives the list back, each field trimmed. |
| CsvLine.SplitCutsAtSeparators | backend/lib/customThreatFeedParser.js:21-45 | Any line, well-formed or not, is cut exactly at the commas with an even number of quotes before them. |
| CsvLine.SplitKeepsSolid | backend/lib/customThreatFeedParser.js:21-45 | From any line nothing but separators, quotes and blanks is dropped, and the order stays. |
| FeedParser.LinesMakeUpTheText | backend/lib/customThreatFeedParser.js:131-131 | No line holds a line break, and the lines joined again are the whole text with "\r\n" as "\n". |
| FeedParser.LinesAreUnique | backend/lib/customThreatFeedParser.js:168-168 | A text has only one such list of lines. |
| FeedParser.CommentIff | backend/lib/customThreatFeedParser.js:47-50 | A line is skipped exactly when it is blank or starts with #, // or ;. |
| FeedParser.TxtRowsAreDataLines | backend/lib/customThreatFeedParser.js:131-135 | The rows of a text feed are its data lines, trimmed, each once and in order. |
| FeedParser.CsvRowsAreDataLines | backend/lib/customThreatFeedParser.js:168-184 | The rows of a CSV feed are the data lines below the header that hold a value, each once and in order. |
| FeedParser.HeaderVerdict | backend/lib/customThreatFeedParser.js:155-177 | The first data line is a header exactly when a cell is named value, ioc or indicator, preferred in this order; type and confidence are the columns so named. |
| FeedParser.CsvRowIs | backend/lib/customThreatFeedParser.js:180-202 | Which cells a CSV row takes its value, type and confidence from, and when it is a row. |
| FeedParser.JudgeVerdict | backend/lib/customThreatFeedParser.js:136-150 | A row is valid exactly when its type resolves, a fixed type validates and the normalised value is not empty; each refusal has its cause. |
| FeedParser.RowsArePartitioned | backend/lib/customThreatFeedParser.js:127-207 | Every data row is either valid or invalid, and counted once. |
| FeedParser.ValidRowsKeepOrder | backend/lib/customThreatFeedParser.js:127-207 | The valid rows come from strictly increasing data rows, each with the verdict of its own row. |
| FeedParser.TxtPassesAgree | backend/lib/customThreatFeedParser.js:131-152 | The separate count of text rows keeps exactly the rows the loop judges, one for one and in order. |
| FeedParser.CsvPassesAgree | backend/lib/customThreatFeedParser.js:178-206 | The same for CSV: a line is counted if and only if the loop judges it. |
| FeedParser.SampleSize | backend/lib/customThreatFeedParser.js:122-125 | The invalid sample has length min(20, totalRows minus valid rows). |
| FeedParser.ParseTxtFeedContent | backend/lib/customThreatFeedParser.js:127-153 | Over the lines that make up the text: all valid rows in order, the first 20 invalid ones, and by the second pass the number of rows. |
| FeedParser.ParseCsvFeedContent | backend/lib/customThreatFeedParser.js:164-207 | The same for CSV, with header detection and column choice, over the lines that make up the text. |
| Redaction.RedactSensitive | backend/lib/auditRedaction.js:20-55 | The recursive method with its loops computes the redaction the lemmas speak of. |
| Redaction.RedactedIsClean | backend/lib/auditRedaction.js:20-55 | Every result is bounded in depth, width and string length, with every sensitive key masked. |
| Redaction.RedactFixesExactlyCleanValues | backend/lib/auditRedaction.js:20-55 | Redaction leaves a payload alone if and only if it is clean. |
| Redaction.RedactIsIdempotent | backend/lib/auditRedaction.js:20-55 | Redacting twice is redacting once. |
| Redaction.SensitiveIff | backend/lib/auditRedaction.js:1-1 | The masked keys are the eighteen names, in any mixture of cases, and no other. |
| Redaction.SecretsAreMasked | backend/lib/auditRedaction.js:45-47 | Under a sensitive key stands "[REDACTED]", whatever was there. |
| Redaction.ScalarsSurvive | backend/lib/auditRedaction.js:24-32 | Scalars stay, a string over 4000 characters keeps its first 4000 and the mark, a container at depth 8 becomes "[truncated]". |
| Redaction.SparedPathsSurvive | backend/lib/auditRedaction.js:36-53 | A path above depth 8, among the first 100 items and 80 entries, past no sensitive key, leads in the result to the redaction of what was there. |
| Redaction.OnlySparedPathsSurvive | backend/lib/auditRedaction.js:36-53 | Every path of the result is such a path of the payload, or ends in the mask. |

## Left out

- Sessions: user agent column, JWT signing, cookies, CSRF and Express routing; the gate is modelled as its decision on the decoded request.
- Deep search: the control flow of runDeepSearch is a program-counter machine and not one method, because its awaits interleave with other parties.
- Deep search: which rows the query matches, the snapshot cutoff, DSL parsing, SQL building and the grouped file-artifact path; the match set is any list without duplicates.
- Deep search: a bulk job that starts while a sweep drains; only the skip of a search with an active bulk job is modelled, in the in-place form.
- Catalog linking: the reads between the label lock and the first write are one step; row locks on assertions are not modelled beside the advisory locks, so ingestion may interleave more freely than in the program.
- Catalog linking: text normalisation and collation of names are abstracted to given keys, slugs, compact forms and sort positions.
- Catalog linking: candidate search, classification, cross-catalog matches, evidence lists and deletion of catalog entities.
- IdentityKeysStayDisjoint: excludes creates and edits through the admin page and the catalog seeds, which take no lock and check for duplicates only before they write.
- Import: confidence, classification, membership, evidence and index side effects and the abort signal.
- Import: ThreatFox and MalwareBazaar wrappers.
- Feed parser: the type-detection and validation rules are parameters; lines are split before fields, so a quoted field that spans lines is not modelled, as in the program.
- Redaction: dates, functions and big integers; string lengths are counted in characters.
- Threat Library jobs, enrichment, feed fetching, queue telemetry, health pages, access profiles and constants tables.
- Audit and log writes everywhere.
