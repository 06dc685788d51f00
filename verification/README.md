# Forumline, verified

A Dafny model of the parts of Forumline that carry state, concurrency or a translation, with proofs about every input,
every run or every interleaving. Verify it with `dafny verify dfyconfig.toml`.

Tables are maps or sets of rows and each SQL statement is one update of them. Clocks, generated ids, replies of remote
services and answers of lookups outside the modelled tables are inputs. Code that changes things step by step is a
class or a method with loops, proved equal to a specification function; the lemmas speak about that function. Code that
runs concurrently is a state machine whose runs are all its interleavings.

| file | what it models |
|---|---|
| `Wrappers.dfy`, `Basics.dfy` | shapes and small functions the other files share |
| `Like.dfy` | the pattern escaper of the directory search, the unescaped pattern of the thread search, and what LIKE with the backslash escape means (section 9.7.1 of the PostgreSQL documentation) |
| `SqlText.dfy`, `DynamicSql.dfy`, `ForumListing.dfy` | SQL built from the inputs that are present, an independent reader of the text, and the meaning of what is read |
| `CallTable.dfy`, `Calls.dfy` | the calls table statement by statement, and the call service with its signals |
| `Hub.dfy`, `HubSlices.dfy`, `HubFeeds.dfy`, `MultiClient.dfy` | the event hub: one feed at a time, the memory shared by a broadcast and later registrations and removals, feeds interleaved with registrations, and the fan-in of several subscriptions into one stream |
| `ForumTable.dfy`, `ForumHealth.dfy`, `ForumDiscovery.dfy`, `ForumQuota.dfy`, `ForumTags.dfy` | the forum directory: statements, health reports, discovery, quota, tags |
| `JetStream.dfy`, `JetStreamReader.dfy` | paging backwards through a message stream in uint64 arithmetic, and the unread count |
| `Mentions.dfy`, `Notifications.dfy` | what `@(\w+)` finds in a post and who is notified of it |
| `AuthCodes.dfy` | one-time authorization codes and their sweeper (sections 4.1.2 and 4.1.3 of RFC 6749) |
| `Import.dfy` | the additive import of a forum |
| `Push.dfy` | the bounded-parallel push to a user's devices |
| `ProfileCache.dfy` | the profile cache with a time to live, and its keys |

Where the code does not do what its documentation, its comments or its name promise, the model follows the code, and a
lemma says exactly when the promise is kept:

- Declining a call is answered with "declineed", because the answer is the action with "ed" appended
  (`Calls.RespondAnswerIsDocumented`).
- The store writes the status `cancelled`, which the OpenAPI enumeration of call statuses lacks, exactly when the caller
  ends a ringing call (`Calls.CancelledByTheCaller`, `Calls.EndAnswerIsDocumented`).
- Thread search does not escape its query, so it is a containment test exactly for queries without special characters
  (`Like.ThreadSearchExact`).
- The unread count includes messages that have been discarded (`JetStream.UnreadCountExact`).
- Tags are deduplicated before they are cut to 32 runes, so long tags can come out twice (`ForumTags.DistinctExactly`).
- A page cut short by its delivery is returned without an error and lacks its newest messages, and the next request asks
  before the oldest: they are never received (`JetStreamReader.ReaderPagesTileExactly`). A page on which nothing decodes
  looks like the end (`JetStreamReader.ReadsEverythingExactly`).
- Removing a subscriber shifts an array that a running broadcast may still be reading, so that the broadcast can visit one
  subscriber twice and skip another (`HubSlices.EveryVisitAgreesExactly`, `HubSlices.RemovalDuringBroadcast`).
- The guards of the calls service are reads separate from the writes, so concurrent requests can put one user into two
  calls (`CallTable.TwoInitiatesCanBothInsert`) or bring an ended call back (`CallTable.AcceptCanReviveAnEndedCall`); they
  do neither exactly when each guard still holds at its write (`CallTable.InterleavingIsSafeExactly`).
- Concurrent registrations overshoot the quota by as many as race, and no more (`ForumQuota.QuotaWithRaces`,
  `ForumQuota.QuotaBoundIsReached`).
- A discovery can fail to resolve although its manifest is good (`ForumDiscovery.DiscoveryFailsExactly`).
- Cache keys are joined with colons that are not escaped (`ProfileCache.UniqueKeysExactly`).

## Model

| member | source | states |
|---|---|---|
| Like.EscapedMatchIsContainment | services/forumline-api/store/forum.go:35-37 | for all strings, LIKE matches `%`, the escaped text, `%` exactly when the text is a contiguous part of the value |
| Like.ForumSearchIsContainment | services/forumline-api/store/forum.go:34-38 | for every fold that leaves the three special characters alone, the ILIKE filter of the directory search holds exactly if the search text occurs in the column value, case aside, and the pattern never ends in a lone escape |
| Like.ThreadSearchExact | packages/forum/service/thread.go:50-55 | the unescaped pattern of the thread search is a containment test for all titles if and only if the query has no backslash, percent sign or underscore |
| Like.ThreadSearchFindsContainment | packages/forum/service/thread.go:50-55 | without a backslash in the query, every title that contains it is found |
| SqlText.DecimalReadsBack | packages/forum/store/thread.go:129-131 | the digits written for a placeholder number read back as that number |
| SqlText.ListReadsBack | packages/forum/store/thread.go:108-114 | items joined by a separator read back as the same items, for any item syntax that ends before the separator |
| SqlText.UpdateReadsBack | packages/forum/store/thread.go:108-115 | the text of an UPDATE made from any nonempty list of clauses reads back as those assignments, that table and row `$1` |
| SqlText.AppendClause | packages/forum/service/thread.go:97-101 | a clause and its argument appended together keep the placeholders exactly $1..$n and add just that column to the effect |
| SqlText.BuiltStatementRuns | packages/forum/store/thread.go:107-118 | executing a built statement on any table changes just the row named by its first argument, and in it just the intended columns |
| DynamicSql.JoinClauses | packages/forum/store/thread.go:108-114 | the loop writes the clauses in order with a comma between neighbours |
| DynamicSql.UpdateThread | packages/forum/store/thread.go:107-118 | the statement text is the UPDATE of the given clauses |
| DynamicSql.AddFields | packages/forum/service/thread.go:97-120 | the optional blocks, for every combination of present and absent fields, build a statement whose effect is the present fields |
| DynamicSql.UpdateThreadFields | packages/forum/service/thread.go:84-123 | missing thread, foreign thread and success; on success the statement, run on any table, patches just the thread's row with just the present fields and the update time |
| DynamicSql.ThreadChangesAreTheInput | packages/forum/service/thread.go:93-120 | column by column, the patch is the input: each present field under its own column, absent ones untouched, nothing else |
| DynamicSql.UpdateProfilePartial | packages/forum/store/profile.go:83-94 | the statement text is the UPDATE of the given clauses |
| DynamicSql.UpsertProfile | packages/forum/service/profile.go:59-95 | foreign profile, full upsert and partial update; the partial statement patches just the user's row with just the present fields and the update time |
| DynamicSql.ProfileChangesAreTheInput | packages/forum/service/profile.go:68-92 | column by column, the patch is the input |
| ForumListing.SelectReadsBack | services/forumline-api/store/forum.go:29-56 | every SELECT of this shape reads back from its text as the same conditions, order and placeholders |
| ForumListing.PlanSelectsWanted | services/forumline-api/store/forum.go:34-44 | with the arguments supplied, a row passes all conditions exactly if it is approved, has a capability, mentions the search text in one of three columns and carries the tag, filters that are absent aside |
| ForumListing.PlanUsesItsArguments | services/forumline-api/store/forum.go:32-56 | for all four combinations of filters the placeholders used are exactly $1..$n |
| ForumListing.OrderMeans | services/forumline-api/store/forum.go:46-53 | the sort keys allow one row before another exactly if the order asked for does |
| ForumListing.PlanAnswersTheRequest | services/forumline-api/store/forum.go:28-58 | for all filters, orders, limits and offsets the possible answers to the statement, under the meaning of ORDER BY, LIMIT and OFFSET, are exactly the listings asked for: the wanted rows, each as often as it is there, newest first or by name or by members and then name, and of these the window from the offset on |
| ForumListing.AddFilters | services/forumline-api/store/forum.go:31-44 | the filter blocks write the conditions and arguments of the filters present |
| ForumListing.FinishQuery | services/forumline-api/store/forum.go:46-56 | the order, LIMIT and OFFSET are written with the next two placeholders |
| ForumListing.ListForums | services/forumline-api/store/forum.go:28-56 | the text built, read by an independent reader, and its arguments give exactly the listings asked for |
| JetStream.StartOfWindow | packages/backend/pubsub/jetstream.go:114-118 | the wrap-around of the window start is harmless: the test takes the true branch exactly when the true difference exceeds the first sequence number |
| JetStream.PageBounds | packages/backend/pubsub/jetstream.go:100-118 | the window is exactly the last `limit` retained entries below the bound, in uint64 arithmetic that may wrap |
| JetStream.GetMessages | packages/backend/pubsub/jetstream.go:89-148 | the messages are that page in order, cut where delivery ends, without payloads that do not decode |
| JetStream.EventsMoveForward | packages/backend/pubsub/jetstream.go:54-62 | publishing with discard-old and expiry move both ends of the stream forward and never change a retained payload |
| JetStream.PagesTile | packages/backend/pubsub/jetstream.go:100-118 | the windows, delivered whole, follow one another without gap or repeat when each is asked for before the first sequence of the one before, also when the stream is published to and discards in between; when they end, only discarded entries are missing |
| JetStream.PagingEnds | packages/backend/pubsub/jetstream.go:100-118 | a positive limit reaches an empty page after no more pages than there are retained messages |
| JetStreamReader.ReaderPagesTileExactly | packages/backend/pubsub/jetstream.go:130-148 | with a delivery that may end early at each request, any payloads that do not decode and a stream that changes in between, the pages received are one unbroken stretch of the messages, ending where those end, if and only if no page received lacks a message that decodes |
| JetStreamReader.ReaderPagesAreThePages | packages/backend/pubsub/jetstream.go:130-148 | when every payload decodes and every page is delivered whole, the reader's pages are the pages of the stream one for one, so reading ends only when all that is retained has been read |
| JetStreamReader.ReadsEverythingExactly | packages/backend/pubsub/jetstream.go:130-148 | on a stream that does not change and with pages delivered whole, reading stops short of some message if and only if one that decodes is followed, below the bound, by at least `limit` payloads in a row that do not |
| JetStream.GetUnreadCount | packages/backend/pubsub/jetstream.go:151-164 | the answer for a missing stream, an empty one, one read to its end and any other |
| JetStream.UnreadCountExact | packages/backend/pubsub/jetstream.go:160-163 | the answer is the number of retained messages after the last one read plus the discarded numbers after it; it is the former alone if and only if nothing is retained or nothing unread has been discarded |
| CallTable.AnyInterleavingKeeps | services/forumline-api/sqlcdb/call.sql.go:15-98 | statements of concurrent requests in any order never change the participants, never bring a call back to ringing, and leave every active call with a start time |
| CallTable.WriteIsSafeExactly | services/forumline-api/sqlcdb/call.sql.go:15-98 | from any table where nobody is in two calls, one statement keeps it so and brings no ended call back if and only if its guard holds at that moment: for an insert, different and free participants and a free conversation; for an accept, a call that has not ended |
| CallTable.InterleavingIsSafeExactly | services/forumline-api/service/call.go:41-51 | in every interleaving of the statements of concurrent requests, nobody is ever in two calls and no ended call comes back if and only if each statement's guard holds when it runs, not only when the program read it |
| Calls.CallService.InitiateCall | services/forumline-api/service/call.go:35-95 | guards, insert or its failure, profile lookup, signal and the push handed to the background, in that order, as one step |
| Calls.CallService.RespondToCall | services/forumline-api/service/call.go:103-133 | action check, guard, update or its failure, and signal to the caller |
| Calls.CallService.EndCall | services/forumline-api/store/call.go:62-100 | the status chosen, with or without a duration, a failed update answered like a missing call, and the signal to the other participant |
| Calls.CallService.CleanupStaleCalls | services/forumline-api/sqlcdb/call.sql.go:24-27 | ringing calls are missed, active ones completed |
| Calls.InitiateExactly | services/forumline-api/service/call.go:35-95 | on the table alone: a call starts if and only if its conversation and both parties are free, the row can be written and the profile read; the new row, the signal and the push go to the other member; which error otherwise, and what it leaves behind |
| Calls.InitiateElsewhere | services/forumline-api/sqlcdb/call.sql.go:139-145 | outside a conversation between exactly two, one of them the user, nothing happens |
| Calls.PushTitle | services/forumline-api/service/call.go:60-70 | the title names the caller by display name, by username if that is empty, and by neither without a profile |
| Calls.RespondExactly | services/forumline-api/service/call.go:103-133 | on the table alone: an answer succeeds if and only if the action is known, the call rings, the user is its callee and the row can be written; the row and signal then; which error otherwise, with nothing changed |
| Calls.EndExactly | services/forumline-api/store/call.go:62-100 | on the table alone: ending succeeds if and only if the call rings or runs, the user is one of the two and the row can be written; the row and signal then; nothing changed otherwise |
| Calls.CleanupExactly | services/forumline-api/sqlcdb/call.sql.go:24-27 | what becomes of every row |
| Calls.SecondsIsNearest | services/forumline-api/sqlcdb/call.sql.go:81-84 | a duration is the nearest whole number of seconds, halves away from zero |
| Calls.NobodyIsInTwoCalls | services/forumline-api/service/call.go:36-51 | in every reachable state each user is in at most one ringing or active call, each conversation has at most one, and caller and callee differ |
| Calls.StepMoves | services/forumline-api/store/call.go:62-110 | the only moves of a row are ringing to active, ringing to declined, missed or cancelled, and active to completed |
| Calls.CallsGoOnward | services/forumline-api/sqlcdb/call.sql.go:15-98 | between any two moments of a run a call moves forward only, keeps its start time, and never changes once ended |
| Calls.LifeOfACall | services/forumline-api/store/call.go:71-90 | in every run a call has a start time exactly if its callee accepted it, an end time exactly if it is over, and a duration, never negative, exactly if one of the two completed it |
| Calls.EveryCallIsTold | services/forumline-api/service/call.go:72-154 | with a working bus and profile lookup, the signals of every call over any run are its story by status, each sent to the participant who did not act |
| Calls.SignalsFollowTheProtocol | services/forumline-api/service/call.go:113-154 | they form a prefix of incoming-declined, incoming-ended or incoming-accepted-ended |
| Calls.RespondAnswerIsDocumented | services/forumline-api/service/call.go:97-133 | the answer is one of the two documented statuses exactly when the action is to accept |
| Calls.CancelledByTheCaller | services/forumline-api/store/call.go:71-78 | in every run a call has the undocumented status exactly if its caller ended it while it rang |
| Calls.EndAnswerIsDocumented | services/forumline-api/openapi.yaml:315-317 | ending a call answers, and stores, one of the enumerated statuses exactly unless the caller ends it while it rings |
| MultiClient.EveryInterleavingConserves | packages/backend/sse/hub.go:142-210 | over all interleavings of feeds, forwarders and writer: per subscription, written, failed, buffered, held and queued events in this order are the accepted ones in order, and those not yet taken by the writer are at most two full buffers and one |
| MultiClient.ArrivalsAreTheMatchingEvents | packages/backend/sse/hub.go:52-66 | over every run, what arrives at a subscription are, in order, exactly the visited events its filter accepts, and each of them is accepted or dropped |
| MultiClient.DroppedExactlyWhenFull | packages/backend/sse/hub.go:59-65 | over every run, the event of a visit arrives in its turn and is dropped if and only if 32 events were queued at that moment |
| MultiClient.StreamOfOneUser | services/forumline-api/handler/events.go:24-72 | on the three subscriptions of a user's stream nothing is lost, repeated or reordered on the way over all interleavings, and what arrives, each kind under its tag, are exactly the direct messages with a member that prints as the user id, the notifications whose user field, or null, prints as it, and the call signals that target it |
| MultiClient.CanBeDelivered | packages/backend/sse/hub.go:155-208 | while the writer serves, some receives, sends and writes always lead to a moment when everything accepted at a subscription has been written under its tag, in order |
| MultiClient.CanShutDown | services/forumline-api/handler/events.go:66-72 | whatever has happened, the writer can stop, Done be closed and every forwarder leave |
| MultiClient.AfterDoneForwardersFinish | packages/backend/sse/hub.go:155-171 | after Done every sequence of forwarder steps is bounded, and can be continued exactly until all forwarders have left, from either of their waits |
| Hub.Client.TrySend | packages/backend/sse/hub.go:60-64 | a send buffers or skips and never waits |
| Hub.EventHub.MatchesFilter | packages/backend/sse/hub.go:219-230 | true exactly if every expected field is present and prints as expected |
| Hub.EventHub.Register | packages/backend/sse/hub.go:70-74 | the client is added at the end of its channel |
| Hub.EventHub.Unregister | packages/backend/sse/hub.go:77-88 | the first occurrence of the client is removed from its channel |
| Hub.EventHub.Feed | packages/backend/sse/hub.go:36-67 | each visit of a matching client buffers one copy while there is room; an event that does not parse reaches nobody; only buffers of that channel change |
| Hub.OneCopyIfRoom | packages/backend/sse/hub.go:52-66 | a client registered once gets exactly one copy if its filter matches and its buffer has room, and none otherwise |
| Hub.RegisterMulti | packages/backend/sse/hub.go:142-174 | one fresh client of capacity 32 per entry, registered in order, and a forwarder started for each with the tag of its entry |
| Hub.UnregisterMulti | packages/backend/sse/hub.go:177-181 | each of the clients is unregistered |
| Hub.UnregisterMultiUndoesRegisterMulti | packages/backend/sse/hub.go:142-181 | for all registries and clients, what every channel had before is there again in the same order |
| HubSlices.StepKeepsValid | packages/backend/sse/hub.go:37-88 | with appends in place and removals shifting shared arrays, every header anybody holds shows only cells that were written |
| HubSlices.UnregisterRemovesFirst | packages/backend/sse/hub.go:77-88 | in memory, removal takes out the first occurrence and keeps the order of the others |
| HubSlices.RecipientsWereRegistered | packages/backend/sse/hub.go:36-88 | with removals interleaved anyhow, everyone a broadcast reaches was at some time registered on the channel |
| HubSlices.BroadcastVisitsItsSnapshot | packages/backend/sse/hub.go:36-74 | while only registrations interleave, whatever the capacities, a broadcast visits exactly its snapshot, in order and once each |
| HubSlices.EveryVisitAgreesExactly | packages/backend/sse/hub.go:36-88 | whatever registrations, removals and other visits follow the beginning of a broadcast, each of its visits reads the client of its snapshot if and only if its cell was not overwritten with another client in between |
| HubSlices.RemovalDuringBroadcast | packages/backend/sse/hub.go:77-88 | after one removal in its middle and nothing else, a broadcast still visits exactly its snapshot if and only if the removed client is the last or at most one visit is left; otherwise the last client is visited twice, and a neighbour is skipped if the removed one had been visited |
| HubFeeds.OneCopyEach | packages/backend/sse/hub.go:36-74 | while registrations and other broadcasts interleave, a finished broadcast has visited each client of its snapshot once, and the client has received exactly one copy if at that moment its filter accepted the event and its buffer had room, and none otherwise |
| HubFeeds.OneCopyPerVisit | packages/backend/sse/hub.go:52-66 | the same for each visit of a broadcast that has not finished |
| HubFeeds.OnlyAcceptedIsReceived | packages/backend/sse/hub.go:52-59 | over every run a client has received only events that its filter accepts |
| HubFeeds.NoCopyOutsideTheSnapshot | packages/backend/sse/hub.go:37-39 | nobody outside the snapshot receives a copy |
| HubFeeds.BuffersAreBounded | packages/backend/sse/hub.go:60-64 | no buffer ever holds more than its capacity |
| ForumTable.UpsertRespectsExistingRows | services/forumline-api/sqlcdb/forum.sql.go:461-470 | a discovery changes neither id, owner, approval nor failure count of any row, and no approved row at all |
| ForumHealth.ForumHandler.HandleUpdateHealth | services/forumline-api/handler/forum.go:262-304 | statement after statement the handler makes the step of the specification and gives its reply |
| ForumHealth.ForumHandler.HandleDelete | services/forumline-api/handler/forum.go:138-169 | the forum is deleted exactly if the user owns it |
| ForumHealth.ReportFailureEffect | services/forumline-api/handler/forum.go:285-303 | what a failure report does at every count: delist at three, remove an unowned forum at seven, and nothing to any other row |
| ForumHealth.HealthyReportEffect | services/forumline-api/store/forum.go:247-256 | on the table alone: a healthy report sets the failures to zero, lists a forum with an owner, changes no other row, and does nothing for an unknown domain |
| ForumHealth.DirectoryIsSound | services/forumline-api/handler/forum.go:275-303 | in every reachable directory an approved forum has an owner and fewer than three failures, and an unowned one fewer than seven |
| ForumHealth.FailuresCountTheStreak | services/forumline-api/store/forum.go:247-267 | in every run the counter equals the unhealthy reports since the last healthy one or the creation of the row, up to the largest 32-bit value |
| ForumHealth.DelistedRepliesCountLeavings | services/forumline-api/handler/forum.go:290-296 | over every run, "delisted" is replied as often as a health report takes an approved forum off the list |
| ForumDiscovery.ForumService.ResolveOrDiscoverForum | services/forumline-api/service/forum.go:30-57 | known domain, missing manifest and new forum, and that alone the last branch is never taken |
| ForumDiscovery.StatementsExactly | services/forumline-api/service/forum.go:31-56 | what each statement of a discovery does on its own: a known domain resolves at the first lookup, a new or unapproved row at the upsert, an approved one at the second lookup |
| ForumDiscovery.DiscoveryResolves | services/forumline-api/service/forum.go:30-57 | with the statements of discoveries, registrations and health reports interleaved and nothing deleted, no discovery fails to resolve, and an id returned is that of the unique row of the domain |
| ForumDiscovery.DiscoveriesLeaveRowsAlone | services/forumline-api/service/forum.go:30-57 | however many discoveries run through each other from any moment of a run on, no approved row changes, and no row its id, owner, approval or failure count |
| ForumDiscovery.DiscoveryFailsExactly | services/forumline-api/service/forum.go:45-55 | in every run, deletions by owners and automatic ones included, a discovery ends in the last branch if and only if its domain was deleted after its refused upsert and not inserted again before its second lookup |
| ForumDiscovery.DeleteCanMakeDiscoveryFail | services/forumline-api/service/forum.go:49-55 | for every domain such a run exists from the empty directory |
| ForumQuota.Registration.RegisterForum | services/forumline-api/service/registration.go:32-70 | success exactly if all checks pass, the new row, at most five forums afterwards, and which error otherwise |
| ForumQuota.OwnedAndPendingBounded | services/forumline-api/service/registration.go:45-61 | owned plus counted-but-not-inserted stays at most 4 + k when at most k registrations of an owner are in between |
| ForumQuota.QuotaWithRaces | services/forumline-api/service/registration.go:45-61 | so the owner never has more than 4 + k forums, and five when registrations do not overlap |
| ForumQuota.QuotaBoundIsReached | services/forumline-api/service/registration.go:45-61 | for every k from one on some run reaches 4 + k |
| ForumTags.NormalizeTags | services/forumline-api/service/forum.go:119-144 | the loop with its early exit keeps the tags that the specification keeps |
| ForumTags.KeptExactly | services/forumline-api/service/forum.go:119-144 | at most ten tags of one to 32 runes, all from the input, and below the cap none of the input lost |
| ForumTags.KeptInOrder | services/forumline-api/service/forum.go:125-139 | tags come out in the order of their first appearance |
| ForumTags.DistinctExactly | services/forumline-api/service/forum.go:126-135 | the tags are distinct if and only if no tag over 32 runes, reached before the cap, is cut to the same text as an earlier tag |
| Mentions.SearchFindsExactlyTheMentions | packages/forum/service/notification.go:28 | a leftmost, greedy, non-overlapping search gives exactly one match for each at sign directly followed by a word character, with the maximal run of word characters |
| Mentions.MentionsAreMatches | packages/forum/service/notification.go:28 | each of them is a match with the maximal run of word characters |
| Mentions.CaptureIsTheRest | packages/forum/service/notification.go:141 | the text before a match, an at sign, the capture and the text after it are the whole text |
| Mentions.CapturesExactly | packages/forum/service/notification.go:139-141 | the words captured are exactly the nonempty runs of word characters that stand directly after an at sign and are not followed by another |
| Mentions.EveryMentionIsFound | packages/forum/service/notification.go:139 | none is missed |
| Mentions.MentionsInOrder | packages/forum/service/notification.go:139-140 | they are disjoint and in the order of the text |
| Notifications.NotificationService.NotifyUser | packages/forum/service/notification.go:82-117 | an inserted row, and a push item exactly if the insert succeeded and the user has a forumline id |
| Notifications.NotificationService.GeneratePostNotifications | packages/forum/service/notification.go:62-158 | thread author, author replied to and mentions in this order, the first notice of each user, rows and push items accordingly |
| Notifications.FirstOfEachMeans | packages/forum/service/notification.go:76-152 | among any notices considered in order, each user but the post's author and nobody gets exactly one, and it is the first |
| Notifications.RecipientsExact | packages/forum/service/notification.go:119-152 | for every post the recipients are exactly thread author, author replied to and everyone whose name is a word directly after an at sign, less the post's author and the zero id, each once, for the first reason that applies in this order |
| Notifications.AttemptsInOrder | packages/forum/service/notification.go:119-152 | they are attempted in the order in which they are first concerned |
| Notifications.RowsAreExact | packages/forum/service/notification.go:82-88 | the rows are, in order, exactly the attempts whose insert succeeds |
| Notifications.BatchIsExact | packages/forum/service/notification.go:106-116 | the batch is, in order, exactly the inserted notices whose user has a forumline id |
| Notifications.ItemSays | packages/forum/service/notification.go:106-116 | kind, title, link and the first 200 bytes of the post, for each of the three reasons |
| AuthCodes.CodeStore.Store | services/forumline-id/main.go:82-86 | the code is entered |
| AuthCodes.CodeStore.Consume | services/forumline-id/main.go:88-102 | the answer, and that every attempt uses the code up |
| AuthCodes.CodeStore.Sweep | services/forumline-id/main.go:68-77 | in whatever order the codes are gone through, exactly the expired ones are removed |
| AuthCodes.RedemptionExact | services/forumline-id/main.go:82-102 | in every run with a clock that never goes back, an attempt yields an entry if and only if it was issued under that code, neither reissued nor presented since, not expired, and with its own redirect URI |
| AuthCodes.OnlyTheFirstAttempt | services/forumline-id/main.go:88-102 | with distinct codes no attempt succeeds after another attempt, successful or failed |
| AuthCodes.SweepsAreInvisible | services/forumline-id/main.go:63-80 | a store swept at arbitrary moments gives every attempt the same answer as one never swept |
| Import.ForumDatabase.Exec | packages/forum/import.go:49-53 | one insert that does nothing on a conflict and fails on a missing reference or a bad item |
| Import.ForumDatabase.Import | packages/forum/import.go:106-116 | the nested loops with their early exit make the run of the specification and name the step and row that failed |
| Import.ClashExactly | packages/forum/sqlc/schema.sql:5-111 | which two rows clash: the same id, or the same values of the unique constraint of their table |
| Import.RefersExactly | packages/forum/sqlc/schema.sql:28-111 | which row refers to which |
| Import.ImportOnlyAdds | packages/forum/import.go:40-43 | no row is changed or removed, every row added is an item that clashed with nothing there before, and keys stay unique and references satisfied |
| Import.RunAgain | packages/forum/import.go:40-43 | an import cut off at any row and run again comes to the rows and the outcome of an uninterrupted one; with nothing cut off, importing twice is importing once |
| Import.FreshRowsAllGoIn | packages/forum/import.go:106-114 | rows without clashes all go in if and only if each refers only to rows present by then |
| Import.SoundForumIsRestored | packages/forum/import.go:44-104 | a sound forum listed in the order of the steps, answers after the posts they answer, is restored exactly in an empty database |
| Push.AtMostTenInFlight | services/forumline-api/service/push.go:59-65 | under every schedule at most ten goroutines are between acquiring and releasing the semaphore, and at most one is in the mutex |
| Push.ResultIsExact | services/forumline-api/service/push.go:52-104 | when the call returns, the number returned is the number of replies in the 200s, and sent, stale and failed add up to the subscriptions |
| Push.StaleEndpointsExact | services/forumline-api/service/push.go:86-89 | the endpoints collected are exactly those that answered 404 or 410 |
| Push.DeletesExactlyTheStale | services/forumline-api/sqlcdb/push.sql.go:32-34 | of all subscriptions exactly that user's with those endpoints are deleted |
| Push.CallReturns | services/forumline-api/service/push.go:59-97 | no deadlock: until it returns the call can go on, and it takes at most seven steps a subscription and one more |
| ProfileCache.Key | packages/backend/valkey/client.go:41-50 | the key is the prefix and the parts joined by colons |
| ProfileCache.KeysTellProfilesApart | packages/backend/valkey/client.go:41-50 | with ids free of colons, keys are equal exactly if schema and id are |
| ProfileCache.UniqueKeysExactly | packages/backend/valkey/client.go:41-50 | among all schemas and ids, a key belongs to one profile only if and only if neither its schema nor its id contains a colon |
| ProfileCache.Cache.Get | packages/forum/profile_cache.go:32-62 | a hit changes nothing; a miss answers from the database and keeps the row if the cache can be written |
| ProfileCache.FoundExactly | packages/forum/profile_cache.go:32-62 | however lookups and changes interleave, a look finds a profile if and only if it was kept, not kept again since, and less than the time to live ago; and it is what the last change before its fetch had made it |
| ProfileCache.FoundProfileIsRecent | packages/forum/profile_cache.go:32-62 | so it was in the database less than the time to live ago, plus the time the fetching lookup took to keep it |

## Left out

- HTTP handlers that only translate errors to status codes, generated server code, metrics, rate limiting, the GraphQL proxy, identity, LiveKit, web-push encryption and file storage: foreign calls or wrappers around them.
- List queries, row-to-struct copies, the presence tracker, account deletion and database migrations: they would add easy members only.
- Calls.CallService.InitiateCall: a service method is one step and its guard reads succeed; what remains when statements interleave is in `CallTable`. The push is handed over in the answer; sending it is the `Push` module.
- Hub.EventHub.Feed: one feed at a time; feeds interleaved with registrations are in `HubFeeds`, for one channel.
- HubFeeds.OneCopyEach: removals are not interleaved; what they do to the visits of a broadcast is in `HubSlices`, without the buffers.
- HubSlices.RemovalDuringBroadcast: one removal and the visits of one broadcast only; `HubSlices.EveryVisitAgreesExactly` covers all other interleavings visit by visit.
- MultiClient.EveryInterleavingConserves: flushing to the network and cancelled requests appear only as the writer stopping or failing at any moment; which broadcasts visit a subscription, and when, is left open.
- ForumListing.PlanAnswersTheRequest: the order of rows is any the database accepts for the sort keys, collation and ties included; a negative LIMIT or OFFSET has no answer.
- Like.ForumSearchIsContainment: case folding is any function on characters that keeps the three special ones; Unicode case tables are not modelled.
- Like.ThreadSearchExact: the empty query, which the service answers with an empty list before searching, is covered as a pattern only.
- JetStream.GetMessages: the stream does not change while one page is read, and a limit is not negative; the stream configuration is taken to hold consecutive sequence numbers. Names of streams are not modelled, so neither is that the name sanitizer leaves zero bytes inside characters of more than one byte.
- JetStream.PagesTile: the windows as the stream has them; deliveries that end early and payloads that do not decode are in `JetStreamReader`.
- JetStreamReader.ReadsEverythingExactly: for a stream that does not change; on one that changes, only that nothing is skipped or repeated is settled.
- ForumHealth.FailuresCountTheStreak: requests run one at a time, and deletions and registrations are modelled as far as they touch the row.
- ForumQuota.Registration.RegisterForum: the domain and URL checks are inputs.
- ForumTags.NormalizeTags: trimming and lowering are one arbitrary function on strings of runes.
- Notifications.NotificationService.GeneratePostNotifications: lookups answer the same throughout a request and inserts fail or succeed by user; the text is taken as bytes, titles and links as given, and the event published for each row is not modelled.
- AuthCodes.CodeStore.Consume: the store's mutex makes each operation one step; the random generation of codes is an input, distinctness included.
- Import.ForumDatabase.Import: an item is a row or does not decode; of its columns only those in keys and references are told apart. Keys and references are those of packages/forum/sqlc/schema.sql.
- Push.DeletesExactlyTheStale: the deletion itself succeeds; subscriptions added or removed while the push runs are not modelled.
- ProfileCache.FoundExactly: ids are free of colons, as UUIDs are; `ProfileCache.UniqueKeysExactly` says what happens otherwise.
- ProfileCache.FoundProfileIsRecent: encoding and decoding of a cached profile are exact, one clock serves everybody, and the database is indexed by schema and id.
