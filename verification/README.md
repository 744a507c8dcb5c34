# Support desk: a verified model

The repository is a multi-tenant support-desk backend: tickets with priorities, statuses and
SLAs, a monitor that warns when an SLA runs out, ticket mail, and live chat. This project models
the parts of it that carry state or meaning and proves what they keep.

Each handler is one atomic step over a database that does not fail. Clocks, row ids, secret tokens,
nonces and the row that a query without an ORDER BY returns first are parameters, so the
theorems hold for every choice of them.

| file | models |
|---|---|
| `WhereTree.dfy`, `LikePattern.dfy` | the query compiler: a dict language, SQL predicates in three-valued logic, LIKE |
| `TenantTable.dfy` | the tenant and soft-delete scope, added by editing the caller's dict |
| `TicketStore.dfy`, `TicketDesk.dfy` | the ticket database as a state machine, and the handlers that drive it |
| `SlaClock.dfy`, `SlaAlerts.dfy`, `SlaMonitor.dfy`, `SlaHistory.dfy` | percentages and bands, the alert table, the polling pass, and polls interleaved with the handlers |
| `MessageVersions.dfy`, `MessagePaging.dfy` | the version log of ticket messages, and reading them page by page |
| `RedisKeys.dfy`, `ChatSessions.dfy` | the flat Redis key space and the chat session machine on top of it |
| `ReplyAddress.dfy`, `RecentReply.dfy` | the reply address codec and the quoted-reply cutter |
| `OrgCache.dfy`, `AccessLevels.dfy` | the organization cache with expiry, and team access levels |
| `Visitors.dfy`, `StableSort.dfy` | visitor filters and sorting |
| `Text.dfy`, `Tenants.dfy`, `IdSets.dfy`, `Wrappers.dfy` | strings, decimal numbers, organization ids, sets of ids, options and results |

A pure step function (`Apply`, `Run`) is the specification of each state machine; the classes'
methods are proved to be such steps, and the run theorems are about the steps.

## What the code does not do

These were found false of the code; each has the exact condition, a concrete input, or both.

- Deleting an SLA under a live ticket is possible. The deletion guard asks for tickets of the SLA's
  *priority*, which finds every user of the SLA only while each ticket's SLA is its priority's.
  Moving an SLA to another priority breaks that exactly when a live ticket uses it
  (`TicketStore.EditSlaKeepsInv`; `TicketStore.MovedSlaCanBeDeletedUnderItsTicket` is a trace).
- Editing a ticket with a bare `sla_id` checks neither the SLA's organization nor its priority. The
  payload types the field as text (src/modules/ticket/schemas/ticket_schemas.py:89) while the column
  is an integer, and the driver configured at docker-compose.yml:50, asyncpg, refuses text there:
  the edit then fails and the references stay. Where the database does take it, they break exactly
  when the SLA is not the organization's for the ticket's priority (`TicketStore.EditTicketKeepsInv`;
  `TicketStore.BareSlaEditDependsOnTheDriver` is the trace, with both outcomes).
- `contains`, `startswith` and `endswith` and their case-blind forms do what their names say exactly for
  text without `%`, `_` or a backslash, because the text is pasted into the LIKE pattern unescaped
  (`WhereTree.TextOperatorsMeanTheirNames`).
- A where-dict that is reused under another tenant keeps the first tenant's scope, unless it is empty
  or names its organization itself (`TenantTable.ReusedDictKeepsFirstTenant`;
  `TenantTable.ReuseUnderTwoTenants` is an input of each kind).
- Updating a row by id is not tenant-scoped: the row keeps its tenant exactly when that is the
  context's, and otherwise moves (`TenantTable.UpdateKeepsOnlyTheContextsRows`,
  `TenantTable.UpdateMovesAnotherTenantsRow`). The handlers modelled here look the row up under the
  tenant first. An update also overwrites an `updated_by_id` the caller passes, unless the caller
  passes a `created_by_id` (`TenantTable.Updated`).
- Cutting a reply twice is not cutting it once when the mail opens, blank lines aside, with a quotation
  that is indented (`RecentReply.CuttingTwice`, `RecentReply.IndentedQuoteSurvivesOnce`).
- Removing an access level may stamp another row of the member, even one deleted earlier
  (`AccessLevels.RemovalIsSureOnlyForASingleRow`, `AccessLevels.RemovalCanStampTheWrongRow`).
- A disconnect clears a sid from its last conversation's Redis set only
  (`ChatSessions.DisconnectLeavesEarlierSets`, `ChatSessions.EarlierSetKeepsADisconnectedSid`).
- Only one closed status row is left out of a monitor pass, for all organizations together, so
  tickets in other closed statuses are still polled (`SlaMonitor.ClosedTicketIsStillPolled`). Closed
  tickets are sure to be left out, whichever row the lookup returns, exactly when there are none or
  there is just one closed row with an organization and all of them are in it
  (`SlaMonitor.ClosedTicketsAreSurelySkipped`).
- The 90 band is computed but never alerted (`SlaAlerts.TableTellsTheClock`).
- The rows of one clock need not have rising levels. A 75 row comes after the 100 row exactly when,
  after a check past the due time and with no earlier check in the warning range (so with a 100 row
  and no 75 row yet), a check falls in the warning range: of a longer budget, or by a clock set back
  (`SlaAlerts.LevelsRiseUnlessWarnedLate`; `SlaHistory.LongerBudgetWarnsAfterBreach` is a run of the
  handlers). It cannot happen while budgets and tickets' priorities are left alone
  (`SlaHistory.QuietHistoryOnlyRises`).

## Model

| member | source | states |
|---|---|---|
| `WhereTree.ParseWhere` | src/common/models.py:325-393 | the compiled predicate is TRUE in three-valued logic exactly on the rows of which the plain reading of the dict holds, for every tree and every row with nulls; it fails exactly on an unknown column, an unsupported operator or an ordering with None, and names such a fault of the dict; there is no predicate exactly when the dict says nothing |
| `WhereTree.ParseEntry` | src/common/models.py:330-392 | the same for the expressions one key contributes |
| `WhereTree.ParseList` | src/common/models.py:331-345 | an OR or AND list drops its absent alternatives: some kept one is TRUE exactly when some present alternative holds, all are exactly when all alternatives hold |
| `WhereTree.ParseOps` | src/common/models.py:357-389 | an operator dict is the conjunction of its operators, and an empty one says nothing and needs no column |
| `WhereTree.AbsentAlternativeIsSkipped` | src/common/models.py:333-337 | an absent alternative is skipped in OR and AND instead of making the OR true, and an empty OR adds nothing |
| `WhereTree.ComparisonsOfNumbers` | src/common/models.py:378-387 | on numbers `lt`, `gt`, `lte`, `gte` and `ne` are <, >, <=, >= and != |
| `WhereTree.ComparisonsOfTexts` | src/common/models.py:378-387 | on texts they compare code points at the first difference, a proper prefix first |
| `WhereTree.ComparisonsWithNull` | src/common/models.py:378-387 | NULL satisfies no comparison, and `ne: None` asks for presence |
| `WhereTree.PlainKeysMeanEquality` | src/common/models.py:348-392 | a plain key is equality, None is NULL, and the insensitive mode compares letter by letter in either case |
| `WhereTree.JunctionsMeanTheirNames` | src/common/models.py:331-393 | OR of two alternatives that say something is their disjunction; AND, the keys of a dict and the operators of a key are conjunctions |
| `WhereTree.WhatIsAbsent` | src/common/models.py:326-345 | an empty dict, an empty operator dict and junctions of nothing else say nothing; every other entry says something |
| `WhereTree.WhatCompiles` | src/common/models.py:347-392 | an entry compiles exactly with a known column, a known operator and no ordering against None; an empty operator dict always does |
| `WhereTree.PartsCompile` | src/common/models.py:331-345 | a junction or a longer dict compiles exactly when its parts do |
| `WhereTree.TextOperatorsMeanTheirNames` | src/common/models.py:360-376 | each of the six text operators is a substring, prefix or suffix test on every cell, case-blind for all but `startswith` and `endswith`, if and only if the caller's text has no `%`, `_` or backslash |
| `LikePattern.LikeReads` | src/common/models.py:360-376 | `%` matches any run, `_` one character, a backslash makes the next character literal, any other matches itself |
| `LikePattern.ContainsMeansSubstring` | src/common/models.py:360-364 | the unescaped pattern means "is a substring" for all texts if and only if the caller's text has no `%`, `_` or backslash |
| `LikePattern.StartsWithMeansPrefix` | src/common/models.py:366-370 | likewise for prefixes |
| `LikePattern.EndsWithMeansSuffix` | src/common/models.py:372-376 | likewise for suffixes |
| `TenantTable.ScopeMeaning` | src/common/models.py:439-447 | each half of the scope applies exactly when the tree's own top-level keys leave it open, however its ORs are nested |
| `TenantTable.QueriesSeeOwnLiveRows` | src/common/models.py:428-447 | a query sees exactly the live rows of the context tenant that match the caller's tree |
| `TenantTable.MatchingKeepsOrder` | src/common/models.py:295-322 | the rows selected stand in table order, each as often as it is stored |
| `TenantTable.WindowSkipsThenTakes` | src/common/models.py:232-235 | the first `skip` rows are passed over and of the rest the first `limit` returned |
| `TenantTable.ReusedDictKeepsFirstTenant` | src/common/models.py:472-478 | a dict used again under a second tenant asks for what a fresh one would if and only if it is empty, names its organization itself, or the tenant is the same; any other still asks for the first tenant's rows |
| `TenantTable.ReuseUnderTwoTenants` | src/common/models.py:439-447 | with one row for each of two tenants, a reused dict that says something finds the first tenant's row and a reused empty one the second's |
| `TenantTable.Table.Query` | src/common/models.py:295-322 | compiling and running the predicate returns exactly the rows of which the tree holds, in table order |
| `TenantTable.Table.Filter` | src/common/models.py:428-447 | returns the stretch of those rows that skip and limit leave, under the scope, and leaves the scope in the caller's non-empty dict |
| `TenantTable.Table.FindOne` | src/common/models.py:464-478 | returns None exactly when `filter` would be empty, and otherwise one of its rows, with the same effect on the dict |
| `TenantTable.Table.SoftDelete` | src/common/models.py:514-525 | stamps exactly one row of the tenant that matches, deleted before or not, and changes nothing when there is none |
| `TenantTable.Table.Delete` | src/common/models.py:505-512 | removes exactly one row of the tenant that matches, deleted or not, or reports that there is none |
| `TenantTable.Updated` | src/common/models.py:490-499 | column by column: the acting user stamps `updated_by_id`, over whatever the caller passed, unless the caller sets `created_by_id`; other named columns take the caller's values; the organization becomes the context's unless named; the rest stays |
| `TenantTable.Table.Update` | src/common/models.py:490-499 | changes exactly one row with that id, whoever owns it and deleted or not, to its updated form; there is no such row when it reports none |
| `TenantTable.UpdateKeepsOnlyTheContextsRows` | src/common/models.py:490-499 | an update that names no organization leaves the row with its tenant if and only if that is the context's |
| `TenantTable.UpdateMovesAnotherTenantsRow` | src/common/models.py:490-499 | a concrete update after which the other tenant no longer sees its row and the context's tenant does |
| `TicketStore.StepKeepsInv` | src/modules/ticket/services/sla.py:129-197 | after any handler, every live ticket's status, priority and SLA exist, are its organization's and agree, if and only if the step is not one of the two overlooked edits in its harmful case |
| `TicketStore.EditSlaKeepsInv` | src/modules/ticket/services/sla.py:145-150 | editing an SLA keeps the invariant if and only if it does not move to another priority while a live ticket uses it |
| `TicketStore.EditTicketKeepsInv` | src/modules/ticket/services/ticket.py:316-342 | editing a ticket keeps it if and only if a bare `sla_id` that the database accepts names its organization's SLA for its priority |
| `TicketStore.DeleteSlaKeepsInv` | src/modules/ticket/services/sla.py:166-182 | the guard on the priority's live tickets protects every live user of the SLA |
| `TicketStore.DeletePriorityKeepsInv` | src/modules/ticket/services/priority.py:106-124 | deleting a priority and its SLAs by cascade leaves no live ticket without either |
| `TicketStore.DeleteStatusKeepsInv` | src/modules/ticket/services/status.py:75-93 | deleting a status leaves no live ticket without one |
| `TicketStore.AddPrioritiesKeepsInv` | src/modules/ticket/services/priority.py:40-70 | creating a list of priorities keeps the invariant wherever it stops |
| `TicketStore.AddStatusesKeepsInv` | src/modules/ticket/services/status.py:39-50 | creating a list of statuses keeps the invariant |
| `TicketStore.RunKeepsInv` | src/modules/ticket/services/ticket.py:48-94 | the invariant holds after every run of handlers of all tenants in which each of the two edits is harmless where it happens |
| `TicketStore.OrdinaryRunKeepsReferences` | src/modules/ticket/services/ticket.py:288-355 | from the empty database, after every run that never moves an SLA and never sets a bare `sla_id`, each live ticket's status, priority and SLA exist and are its organization's, and the SLA is its priority's with positive budgets |
| `TicketStore.MovedSlaCanBeDeletedUnderItsTicket` | src/modules/ticket/services/sla.py:145-182 | a concrete run after which a live ticket has lost its SLA |
| `TicketStore.BareSlaEditDependsOnTheDriver` | src/modules/ticket/services/ticket.py:316-342 | a concrete reachable edit with a bare `sla_id`: accepted, the ticket has another priority's SLA; refused, nothing changes |
| `TicketStore.OnlyConfirmationOpens` | src/modules/ticket/services/ticket.py:193-234 | a ticket's `opened_at` changes only from unset, only through a confirmation with its own token and organization, which sets that confirmation's time and an open status of the organization; no step changes a token, an organization, or revives a deleted ticket |
| `TicketStore.RunContinues` | src/modules/ticket/schemas/ticket_schemas.py:77-100 | the same across every run: rows stay, tokens stay, opening times stay once set |
| `TicketStore.SecondConfirmationChangesNothing` | src/modules/ticket/services/ticket.py:210-220 | confirming an opened ticket again, after any run, fails and changes nothing |
| `TicketDesk.Desk.CreateTicket` | src/modules/ticket/services/ticket.py:48-94 | succeeds exactly when the tenant has a pending status and an SLA for its own priority; the new row holds the payload with those references, unopened, and nothing else changes |
| `TicketDesk.Desk.EditTicket` | src/modules/ticket/services/ticket.py:288-342 | succeeds exactly when every reference in the payload passes its check; sets the row's given fields, a new priority bringing that priority's SLA over a bare one, and touches no other row; the invariant survives if and only if the edit is harmless |
| `TicketDesk.Desk.ConfirmTicket` | src/modules/ticket/services/ticket.py:193-234 | succeeds exactly for the tenant's unopened live ticket with that token when an open status exists; then sets that ticket's opening time and an open status, and nothing else |
| `TicketDesk.Desk.DeleteTicket` | src/modules/ticket/services/ticket.py:164-178 | soft-deletes exactly the visible ticket asked for; every other row stays as it was |
| `TicketDesk.Desk.RegisterSla` | src/modules/ticket/services/sla.py:41-64 | succeeds exactly when the budgets are positive, the priority is the tenant's and has no SLA yet, and the database takes the name; the new SLA is then the tenant's for that priority, and the invariant is kept |
| `TicketDesk.Desk.EditSla` | src/modules/ticket/services/sla.py:129-150 | succeeds exactly when the SLA is the tenant's, the payload says something valid, the priority slot is free and the database takes the name; then that row's given fields are set, its others and every other row are as before, and the invariant survives if and only if no live ticket's SLA is moved |
| `TicketDesk.Desk.DeleteSla` | src/modules/ticket/services/sla.py:166-182 | succeeds exactly when the tenant has no live ticket of the SLA's priority; removes that row alone and sets the references to it to NULL |
| `TicketDesk.Desk.CreatePriorities` | src/modules/ticket/services/priority.py:40-83 | keeps exactly the rows before the first that clashes in name, whatever the case, or in level, with all older rows as they were; succeeds exactly when none does, and keeps the invariant either way |
| `TicketDesk.Desk.EditPriority` | src/modules/ticket/services/priority.py:139-157 | succeeds exactly when the priority is the tenant's and the unique constraints allow it; sets the given fields of that row alone and keeps the invariant |
| `TicketDesk.Desk.DeletePriority` | src/modules/ticket/services/priority.py:106-124 | succeeds exactly when no live ticket of the tenant has the priority; removes it with its SLAs, sets the references to them to NULL and changes nothing else |
| `TicketDesk.Desk.CreateStatuses` | src/modules/ticket/services/status.py:39-50 | afterwards the tenant has a status of every given name, each new row is the first given under a name the tenant did not have, and nothing else has changed |
| `TicketDesk.Desk.EditStatus` | src/modules/ticket/services/status.py:106-124 | succeeds exactly when the status is the tenant's and the unique constraint allows it; sets the given fields of that row alone and keeps the invariant |
| `TicketDesk.Desk.DeleteStatus` | src/modules/ticket/services/status.py:75-93 | succeeds exactly when no live ticket of the tenant has the status; removes that row alone and sets the references to it to NULL |
| `SlaClock.ResponseAgreesWithResolution` | src/modules/ticket/services/sla.py:199-234 | both percentage functions agree for every positive budget, and each divides by zero exactly for a zero budget before (respectively up to) the opening |
| `SlaClock.PercentageAtLeast` | src/modules/ticket/services/sla.py:206-216 | reaching k percent, k from 1 to 100, is having spent k hundredths of the budget |
| `SlaClock.PercentageBeforeOpening` | src/modules/ticket/services/sla.py:206-216 | before the opening the percentage is negative and its fraction is cut off, not rounded down |
| `SlaClock.BandThresholds` | src/modules/ticket/services/sla.py:236-246 | 75 from three quarters of the budget, 90 from nine tenths, 100 exactly from the due time |
| `SlaClock.PercentageGrowsWithTime` | src/modules/ticket/services/sla.py:206-216 | never falls as the clock advances, also before opening |
| `SlaClock.PercentageShrinksWithBudget` | src/modules/ticket/services/sla.py:206-216 | never rises with a larger budget once opened |
| `SlaClock.PercentageGrowsWithBudgetBeforeOpening` | src/modules/ticket/services/sla.py:206-216 | before the opening the order reverses: a larger budget never gives a lower percentage |
| `SlaAlerts.AlertedExactlyWhenDue` | src/modules/ticket/services/sla.py:257-314 | a row for a level exists exactly when some check called for that level |
| `SlaAlerts.OneRowPerLevel` | src/modules/ticket/services/sla.py:294-312 | whatever the history of checks, no ticket has two rows of the same type and level |
| `SlaAlerts.LevelsRiseUnlessCalledLate` | src/modules/ticket/services/sla.py:257-314 | for every history of checks, the rows of one ticket and type have strictly increasing levels if and only if no check called for 75 after one called for 100 and before any called for 75 |
| `SlaAlerts.LevelsRiseUnlessWarnedLate` | src/modules/ticket/services/sla.py:257-314 | the same on budgets and times, for every history with positive budgets, whatever becomes of them: no check from three quarters up to nine tenths of its budget follows one past its due time with no such check before |
| `SlaAlerts.LevelsIncrease` | src/modules/ticket/services/sla.py:294-312 | with a clock that never goes back and budgets and opening times that do not change, the levels of a clock's rows rise |
| `SlaAlerts.TableTellsTheClock` | src/modules/ticket/services/sla.py:257-275 | whatever becomes of the budgets, as long as they are positive: a 100 row exists exactly when some check came at or after the due time it then had, a 75 row exactly when one fell from three quarters up to nine tenths of the budget it then had, and a 90 row never |
| `SlaMonitor.SoundStoreCanCheck` | src/tasks/sla_task.py:48-59 | from a sound store no visited ticket lacks an opening time or an SLA, and no percentage divides by zero |
| `SlaMonitor.ChecksReadTheStore` | src/tasks/sla_task.py:48-59 | a ticket's checks use the response and the resolution budget of its SLA, in that order, its opening time and the time of the poll |
| `SlaHistory.QuietStepKeepsGood` | src/modules/ticket/services/ticket.py:288-355 | any handler that resets no clock (creating, confirming, closing and deleting tickets included) keeps the logged checks of each live ticket in step with the clocks it still has |
| `SlaHistory.PollKeepsGood` | src/tasks/sla_task.py:48-64 | a pass over the fetched tickets extends a steady history to a steady one |
| `SlaHistory.QuietHistoryOnlyRises` | src/modules/ticket/services/sla.py:257-314 | from the empty database, for every interleaving of handlers that reset no clock with polls in order of time, the levels of every clock's rows rise |
| `SlaHistory.LongerBudgetWarnsAfterBreach` | src/modules/ticket/services/sla.py:129-150 | a concrete run from the empty database: confirm, poll at the due time, lengthen the response budget, poll in its warning range; the rows are 100 and then 75 |
| `SlaHistory.HistoryTellsTheClock` | src/modules/ticket/services/sla.py:257-314 | from the empty database, for every interleaving of all handlers with polls, harmful edits and stopped passes included: a 100 row exactly when some poll checked the clock at or after the due time it then had, a 75 row exactly when one did from three quarters up to nine tenths of the budget it then had, no 90 row, and rising levels if and only if it never warned late |
| `SlaHistory.OrdinaryHistoryChecksAll` | src/tasks/sla_task.py:35-64 | after every history of handlers that move no SLA and set no bare `sla_id`, interleaved with polls, the next pass checks every ticket it fetches |
| `SlaMonitor.Monitor.HandleWarning` | src/modules/ticket/services/sla.py:277-314 | adds one row and one broadcast unless the row exists |
| `SlaMonitor.Monitor.CheckBreach` | src/modules/ticket/services/sla.py:257-275 | the table and broadcasts follow the history of checks, one broadcast per row |
| `SlaMonitor.Monitor.Visit` | src/tasks/sla_task.py:48-64 | checks both clocks of each ticket in turn and stops only at one that cannot be checked |
| `SlaMonitor.Monitor.CheckSlaBreach` | src/tasks/sla_task.py:18-64 | with a closed status, a pass fetches exactly the live opened tickets whose status is set and is not the chosen closed row, each once, and extends the history of checks as the history's poll step does: by both clocks of those before the first it cannot check; from a sound store it reaches all |
| `SlaMonitor.ClosedTicketIsStillPolled` | src/modules/ticket/services/status.py:162-174 | a concrete run after which a ticket in a closed status is polled when another organization's closed row is chosen, and is not when its own is |
| `SlaMonitor.ClosedTicketsAreSurelySkipped` | src/tasks/sla_task.py:32-38 | no closed row the lookup may return lets a closed ticket be polled, if and only if there is no closed ticket, or only one closed row has an organization and no closed ticket's row lacks one |
| `MessageVersions.StepKeepsWellLogged` | src/modules/ticket/services/conversation.py:82-95 | each step keeps a message's log numbered from 1, in the message's own organization, ending in its current content |
| `MessageVersions.ScopedLookupSeesAll` | src/modules/ticket/services/conversation.py:273-275 | the tenant-scoped lookup of previous versions misses none |
| `MessageVersions.NextVersionFollowsTheHighest` | src/modules/ticket/services/conversation.py:82-95 | the next number is one above the tenant's highest for the message, or 1 |
| `MessageVersions.LogReplaysWritten` | src/modules/ticket/services/conversation.py:252-262 | over any run the log grows by exactly the texts written to the message, in order |
| `MessageVersions.VersionLogIsFaithful` | src/modules/ticket/services/conversation.py:49-95 | the versions are exactly 1..n with the original, if sent, and every edit; version n is the current content; an empty log is unedited mail |
| `MessageVersions.ContentIsLastText` | src/modules/ticket/services/conversation.py:49-117 | after any run a message reads as it was last written: as sent, as mailed, or as last edited |
| `MessageVersions.Conversation.SendMessage` | src/modules/ticket/services/conversation.py:32-62 | stores the message and its version 1 when ticket and sender are known, else changes nothing |
| `MessageVersions.Conversation.SaveMessageFromEmail` | src/modules/ticket/services/conversation.py:102-117 | stores the message with the mail's text and writes no version |
| `MessageVersions.Conversation.EditMessage` | src/modules/ticket/services/conversation.py:74-96 | succeeds exactly for the tenant's own message, replaces its content alone and appends the next version; else changes nothing |
| `MessagePaging.ThreadIsOrdered` | src/modules/ticket/services/conversation.py:226-231 | the query's reversed result is exactly the ticket's live messages below the cursor, each once, oldest first, however the rows are stored |
| `MessagePaging.ListMessagesListsThePage` | src/modules/ticket/services/conversation.py:185-213 | an unknown ticket is an error; else the newest `limit` messages of the thread below the cursor, and a cursor of zero is none |
| `MessagePaging.PageEndsTheThread` | src/modules/ticket/services/conversation.py:235-248 | a page is the newest stretch of the thread, and its first id as cursor leaves exactly the messages before it |
| `MessagePaging.WalkShowsTheThread` | src/modules/ticket/services/conversation.py:185-213 | following the cursor terminates, and the pages joined oldest first are exactly the live messages of the ticket below the first cursor, each once, in order of id and of creation |
| `RedisKeys.KeysNeverCollide` | src/websocket/utils/conversation_utils.py:3-45 | keys of different kinds never collide and each kind is injective in its id, the organization cache's included |
| `RedisKeys.KeyTexts` | src/websocket/utils/conversation_utils.py:3-45 | the text of each kind of key |
| `RedisKeys.OneKeyChanges` | src/services/redis_service.py:26-40 | writing or removing one key leaves all others |
| `ChatSessions.StepKeepsInv` | src/websocket/services/conversation_service.py:49-149 | every session step keeps rooms and Redis in agreement on connected sids, and recorded sids leading back to their owner |
| `ChatSessions.RoomsMatchRedis` | src/websocket/services/conversation_service.py:61-149 | after any run with fresh sids a connected customer is in a conversation's Redis set exactly when in its room, and any surplus member is a disconnected customer |
| `ChatSessions.ConnectRecords` | src/websocket/services/conversation_service.py:49-59 | a connection is recorded under both keys, for agents and customers, and changes nothing else |
| `ChatSessions.JoinAddsOneMembership` | src/websocket/services/conversation_service.py:61-89 | a join puts the customer's recorded sid into that conversation's Redis set, and into its room when connected; no other membership changes, and without a recorded sid or known rows nothing does |
| `ChatSessions.LeaveEndsOneMembership` | src/websocket/services/conversation_service.py:126-149 | a leave takes the sid out of the room and the set of the conversation it last joined; no other membership changes |
| `ChatSessions.LeaveUndoesJoin` | src/websocket/services/conversation_service.py:61-149 | after a join and a leave the sid is in neither, and every other membership is as before |
| `ChatSessions.DisconnectEndsMemberships` | src/websocket/chat_namespaces/base_chat_namespace.py:27-41 | a disconnect ends every room membership of the sid and one set membership, and forgets the connection |
| `ChatSessions.AgentStepsTouchLittle` | src/websocket/services/conversation_service.py:151-174 | an agent's leave removes one member from one set and its disconnect only the connection |
| `ChatSessions.DisconnectLeavesEarlierSets` | src/websocket/chat_namespaces/base_chat_namespace.py:27-37 | a disconnect leaves the sid in exactly the sets of conversations other than the last joined |
| `ChatSessions.EarlierSetKeepsADisconnectedSid` | src/websocket/chat_namespaces/base_chat_namespace.py:27-41 | connect, join, join, disconnect from the start: the sid stays in the first conversation's set |
| `ChatSessions.PutAgrees` | src/websocket/utils/conversation_utils.py:7-45 | one write to the flat store is one write to one typed map |
| `ChatSessions.ReadsOfAgreeingStore` | src/websocket/utils/conversation_utils.py:12-45 | what each read of the flat store returns in terms of the session state |
| `ChatSessions.RedisLookupsRoundTrip` | src/websocket/utils/conversation_utils.py:12-32 | a user's recorded sid, looked up again, names that user; likewise customers |
| `ChatSessions.ChatServer.JoinAgentGroup` | src/websocket/services/conversation_service.py:49-53 | the flat store keeps agreeing with the typed session state after the agent's step |
| `ChatSessions.ChatServer.ConnectCustomer` | src/websocket/services/conversation_service.py:56-59 | likewise for a connecting customer |
| `ChatSessions.ChatServer.CustomerJoinConversation` | src/websocket/services/conversation_service.py:61-89 | joins with the sid recorded for the customer, exactly when there is one and both rows exist |
| `ChatSessions.ChatServer.CustomerLeaveConversation` | src/websocket/services/conversation_service.py:126-149 | leaves the room and set of the conversation recorded for the sid |
| `ChatSessions.ChatServer.OnCustomerDisconnect` | src/websocket/chat_namespaces/base_chat_namespace.py:27-41 | leaves all rooms and the last conversation's set |
| `ChatSessions.ChatServer.AgentLeaveConversation` | src/websocket/services/conversation_service.py:151-174 | an agent's leave cannot take a customer's sid out of a set |
| `ReplyAddress.DecodeInvertsEncode` | src/modules/sendgrid/services.py:16-28 | decoding an encoded pair gives the pair back, for all integers and any nonce |
| `ReplyAddress.AddressText` | src/modules/sendgrid/services.py:16-19 | the form of an address: the tag, and the token of both ids with a colon between |
| `ReplyAddress.DecodingTestsInOrder` | src/modules/sendgrid/services.py:22-28 | decoding succeeds exactly on the tag and a token of two numbers with one colon between, organization first; otherwise the error names the first test that failed |
| `ReplyAddress.ReplyFindsItsTicket` | src/modules/ticket/services/conversation.py:107-108 | splitting the whole reply address and decoding gives the same organization and ticket |
| `ReplyAddress.TicketOfReads` | src/modules/ticket/services/conversation.py:107-108 | what is decoded is the text after the first `<` up to the next `@` or `<`; without a `<` it fails |
| `ReplyAddress.AddressesAreUnambiguous` | src/modules/sendgrid/services.py:16-19 | different tickets never share an address |
| `ReplyAddress.SuitableCipherExists` | src/modules/sendgrid/services.py:16-28 | what the address theorems ask of the cipher can be met |
| `RecentReply.GetRecentReply` | src/modules/sendgrid/services.py:31-48 | returns the trimmed longest run of leading lines without a quote marker |
| `RecentReply.OneLineMail` | src/modules/sendgrid/services.py:38-48 | a mail of one line comes back trimmed, unless it starts with `>`, holds `wrote:`, or starts with `On ` and holds `<`: then nothing does |
| `RecentReply.BreaksAndBlanks` | src/modules/sendgrid/services.py:35-48 | the characters that end a line and those that are stripped |
| `RecentReply.StripKeepsTheMiddle` | src/modules/sendgrid/services.py:48-48 | stripping leaves the part between the outer blanks, which neither begins nor ends with one |
| `RecentReply.LinesAppend` | src/modules/sendgrid/services.py:35-35 | how appending a newline and more text changes the list of lines, for every line break Python knows |
| `RecentReply.QuotationBelowIsCutOff` | src/modules/sendgrid/services.py:38-48 | a newline, a marker line and any further text appended to a mail never change the result |
| `RecentReply.CuttingTwice` | src/modules/sendgrid/services.py:31-48 | cutting again changes nothing if and only if the mail's first line that is not blank, before any marker line, is not an indented marker; when it is, the second cut removes everything |
| `OrgCache.StaleByAtMostTenMinutes` | src/services/cors_cache_service.py:12-34 | whatever the interleaving, a returned organization was the database's at some instant of the last 600 seconds, and None means there is none now or the identifier is empty |
| `OrgCache.EntryOutlivesChanges` | src/services/cors_cache_service.py:20-31 | until its expiry an entry is returned whatever happens to the database |
| `OrgCache.LookupIsRemembered` | src/services/cors_cache_service.py:26-32 | a lookup that reached the database fixes the answer for the next 600 seconds, whatever happens |
| `OrgCache.EntryExpires` | src/services/cors_cache_service.py:31-32 | an entry that is not renewed is gone after 600 seconds |
| `OrgCache.CorsCache.GetOrg` | src/services/cors_cache_service.py:12-34 | answers from the cache, then the database, and stores what it found there for 600 seconds; changes nothing else |
| `AccessLevels.RunKeepsInv` | src/modules/team/router.py:283-327 | through every run of bulk updates, member updates and removals, each organization has at most one live row per member and team and at most one live lead per team |
| `AccessLevels.OneMemberUpdate` | src/modules/team/router.py:292-325 | one member is accepted exactly when it is the organization's, no other member leads the team if LEAD is asked for, it has or can get a row and the level fits; its row for the team is then saved and no other row changes |
| `AccessLevels.BulkInTwoParts` | src/modules/team/router.py:292-327 | a bulk update of two lists is the second after the first, which is not tried when the first is refused |
| `AccessLevels.RefusedUpdateKeepsItsPrefix` | src/modules/team/router.py:292-325 | an update refused part-way is exactly the successful update of the members before the refused one |
| `AccessLevels.SuccessfulUpdateSetsEveryLevel` | src/modules/team/router.py:292-327 | an update that succeeds leaves every member it names with the level last asked for |
| `AccessLevels.RemovalIsSureOnlyForASingleRow` | src/modules/team/router.py:262-269 | removal is sure to end the level if and only if the member has no other row, live or deleted, in the organization |
| `AccessLevels.RemovalCanStampTheWrongRow` | src/modules/team/router.py:255-271 | a concrete run in which removing a level in one team stamps the member's row of another team |
| `AccessLevels.Levels.UpdateTeamMembersAccessLevel` | src/modules/team/router.py:283-327 | the loop, with its lookups, is the bulk step and reports refusal exactly when it stops early |
| `AccessLevels.Levels.UpdateMemberLevel` | src/modules/organizations/router.py:373-388 | succeeds exactly for a visible member and a known team: moves the member, sets its row for the new team to plain member or creates one, and changes nothing else |
| `AccessLevels.Levels.RemoveMemberAccessLevel` | src/modules/team/router.py:255-271 | stamps exactly one row of the member if there is any and the member is in the team, else nothing |
| `Visitors.FilterAndSortVisitors` | src/modules/visitor/services.py:43-109 | the result is the specified one; the caller's own list is sorted in place exactly when there are no filters; an unreadable date stops any sort |
| `Visitors.FiltersMeanTheirNames` | src/modules/visitor/services.py:53-72 | what each filter looks for; a registration is recent for two days, by the customer's first log row |
| `Visitors.WhoIsWanted` | src/modules/visitor/services.py:75-83 | "or" asks for some filter, "and" for all, any other mode for nobody, and no filters for everyone |
| `Visitors.FilteredKeepsOrder` | src/modules/visitor/services.py:75-83 | the wanted visitors stand in their order, each as often as listed |
| `Visitors.DateOfIsTheLast` | src/modules/visitor/services.py:87-91 | a customer's date is that of the last log row that has one |
| `Visitors.ResultIsStableSort` | src/modules/visitor/services.py:86-107 | for every list, filters and order, the result is a sorted rearrangement of exactly the wanted visitors with ties left in order |
| `Visitors.EachOrderMeansItsName` | src/modules/visitor/services.py:93-107 | of any two visitors in the result, the first is no later in the alphabet, no older, no newer or no less engaged, as the choice says |
| `Visitors.UndatedComeLast` | src/modules/visitor/services.py:97-105 | visitors with no creation date come last under both newest and oldest, up to the extreme date itself |
| `Text.CaseChangesLetters` | src/modules/team/router.py:294-294 | changing case moves ASCII letters by 32 places and leaves every other character |
| `Text.ParseIntReads` | src/modules/sendgrid/services.py:27-27 | a text is a number exactly when it is digits, perhaps after a minus sign; leading zeros change nothing |
| `StableSort.SortSorts` | src/modules/visitor/services.py:93-107 | the sort is a sorted rearrangement |
| `StableSort.SortIsStable` | src/modules/visitor/services.py:93-107 | the sort keeps ties in order |

## Left out

- WhereTree.ParseWhere: of several faults the one reported is not stated to be the first; string operators take text operands only; a comparison between values of different types, which the database rejects, is read as unknown; case folding is ASCII.
- TenantTable.Table.Query: joins, loading options and order_by are not part of it; rows come in table order.
- TenantTable.Table.Filter: the same; the ordered reading of messages is modelled separately.
- TicketDesk.Desk.CreateTicket: department, customer and assignee checks are one parameter; notes, attachments, logs and mail are left out.
- TicketDesk.Desk.EditTicket: whether the database takes the payload's text `sla_id` is the parameter `slaTextOk`; the other references, among them the text `created_by_id` and `updated_by_id`, are the parameter `othersOk`. Assignees are committed before the update and are left out.
- TicketDesk.Desk.RegisterSla: whether the database takes the name is the parameter `nameOk`: src/modules/ticket/models/sla.py:37 declares it unique over all tenants, and the migration that creates the table (migrations/versions/20250803_051346_ticket_sla_table_added.py:35-36) does not.
- TicketDesk.Desk.EditSla: the same parameter `nameOk`.
- AccessLevels.Levels.UpdateTeamMembersAccessLevel: upper-casing is ASCII, which gives the same answers about LEAD; a level over 20 characters is refused even where the excess is blanks, which PostgreSQL would cut off.
- ChatSessions.ChatServer.JoinAgentGroup: organization notification rooms, published events and online flags are not modelled; neither is an agent joining a conversation room, which nothing calls.
- MessageVersions.Conversation.SendMessage: an empty content is refused by the payload schema and is not modelled.
- The colours of priorities and statuses: columns nothing reads.
- Percentages use exact rational division; the source's floating point differs only for budgets beyond about 10^13 seconds.
- The ids in reply addresses are parsed from canonical decimals; Python's `int` also accepts blanks, underscores and a plus sign.
- A query without an ORDER BY is taken to return rows in any order, the same within one handler.
- Building the visitor log and counting visitors by location: plain loops, easy members.
- The user cache, the last-message attribute of conversations, invitations, role and permission listing, chat event fan-out, migrations and seeds.
- Interleaving at the await points inside one handler: check-then-write is not transactional, and several of the properties fail at that granularity.
