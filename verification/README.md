# TAP coordination model

TAP proxies an agent's HTTP requests and asks a human before risky ones. It runs as
any number of stateless proxy and bot instances that coordinate only through shared
Postgres rows, plus each process's own maps of waiting requests. This project models
that coordination and proves what holds for every interleaving of every instance.

The shape is the same throughout. A table is a map. Every SQL statement is one atomic
`Step` with its WHERE clause as a predicate and its effect as `Apply`; a lock-protected
block of a channel is one atomic event. A run is any sequence of steps, so a statement
about all runs is a statement about all interleavings. Beside each step function there
is a class whose methods update the rows in place, branch by branch like the store
methods, and whose `ensures` equate the new state with the step function. Store errors,
lost replies and failed best-effort prunes are explicit inputs.

| file | what it is about |
|---|---|
| `Options.dfy`, `Replies.dfy` | optional values, and how a database statement went |
| `Approvals.dfy` | `pending_approvals`: terminal statuses, the exclusive grant claim, the end-user gate |
| `OrderIndependence.dfy` | save, resolve and metadata writes in any order give the same rows, and exactly when |
| `ApprovalStore.dfy` | the store methods over `pending_approvals` |
| `AgentReflected.dfy` | the channel that saves a row and polls it to a deadline |
| `GrantMinting.dfy` | grant clicks on any surface: at most one grant per approval row |
| `Grants.dfy`, `GrantScope.dfy` | the grant table, the minting guardrails, what a derived scope covers |
| `GrantUse.dfy` | from a reviewed request to the requests its grant lets through |
| `MatrixThreshold.dfy` | N-of-M approval through the database |
| `TelegramWaiter.dfy` | the in-memory waiter, its one-shot channel and its threshold |
| `TelegramPersistence.dfy` | the waiter together with the stored row it also polls |
| `RelayLease.dfy` | single-holder relay leases |
| `McpTokens.dfy` | refresh-token families and single-use authorization codes |
| `DeviceLogin.dfy` | the device authorization flow |
| `RateCounter.dfy` | request counters with pruning |
| `IdentityMigration.dfy` | `admins` becomes `users` and `memberships` |
| `MigrationRuns.dfy` | the migration over every history of failing, interrupted and concurrent boots |
| `PolicyDiff.dfy` | the permissiveness diff against policy evaluation |
| `PoolerUrl.dfy`, `Timestamps.dfy`, `HtmlEscape.dfy` | URL rewrite, timestamp text order, HTML escaping |

Modelling decisions:

- Times are integers and the clock is a parameter of each step. `Timestamps.TextOrderIsTimeOrder`
  is why this is sound although the database compares texts. It rests on chrono's documented
  `to_rfc3339` output, on byte-wise text comparison in the database, and on the absence of leap seconds.
- Ids, codes and jtis that the code draws at random are fresh; where a theorem needs this it says so.
- Parsed URLs, policies and JSON documents are records; a parse failure is `None`.
- The approval statuses are the four that the code writes. The spellings `timeout` and `timed_out`
  are only ever read.
- Methods that issue several statements on one table take what other instances run in the gaps as a
  parameter; concurrent boots of the migration have a step system of their own.

What the proofs show about the code that is not obvious from it:

- A team approval recorded before an end-user-reserved save survives; after the save it is refused.
  This is the only order dependence of the set-up statements
  (`OrderIndependence.OrderIndependentIffNoReservedApproval`).
- The end-user gate lasts exactly as long as the row: a team approval leaves a transaction approved
  exactly when it finds no row, an approved row or an unreserved pending one (`Approvals.TeamApprovalIff`),
  so a purged row is open again (`Approvals.GateEndsWithTheRow`). The reservation belongs to the
  last save that named someone (`Approvals.ReservationIsTheLastSaved`).
- In the Matrix fallback a handler that has looked its row up and runs through leaves the transaction
  approved exactly when it then finds no row, an approved one, or an open one at whose threshold it
  arrives or whose increment or read-back is not answered (`MatrixThreshold.HandlerApprovesIff`). So a
  request that is denied or times out and is cleaned up between a handler's look-up and its increment
  ends approved (`MatrixThreshold.PurgedDecisionIsApproved`), as does one that is deleted there. With
  answered increments, and nobody else resolving or deleting, no interleaving approves early or loses
  the threshold; if others may deny, expire, reserve or delete, an early approval needs a moment
  without the row (`MatrixThreshold.ApprovedOnlyAtThresholdOrRemoved`).
- A Telegram approve press that finds no entry in memory is not counted against the posted threshold
  (`TelegramPersistence.UnheldPressApprovesIff`).
- A relay lease can be taken over while it runs exactly by a claim with a shorter ttl
  (`RelayLease.TakeoverInsideLeaseIff`).
- A consumed authorization code is accepted again exactly when a prune past its expiry ran since, and
  no exchange of it after that prune; expiry is checked by the caller (`ConsumedCodes.ConsumedAgainIffPruned`).
- A rate-limited call is told its exact ordinal exactly when no call of its window was pruned before
  (`RateCounter.CallReturnsOrdinalIff`); windows in order guarantee that.
- Policy evaluation consults the auto-approve list before the gated list, so the soundness of the
  diff needs no premise that the two are disjoint. `config.rs` documents no order between these two.
- Restricting "anyone may approve" to a list is reported as more permissive although it only narrows
  (`PolicyDiff.ApproverReportIsExact`). A newly listed "HEAD" is reported although it is never consulted
  (`PolicyDiff.HeadEntryIsIdle`).
- A grant minted for a root path covers nothing, and the scope of any other request covers exactly that
  request's host and path if and only if neither has a wildcard (`GrantScope.CoversExactlyIffNoWildcard`).
- The migration tolerates a failed repoint and drops the legacy column and table all the same. Over
  every history of boots, exactly the references are kept whose repoint was executed before any boot
  dropped their column or the table (`MigrationRuns.BootsKeepSessionIff`, `MigrationRuns.BootsKeepRefIff`,
  `MigrationRuns.InstancesKeepSessionIff`); the others are lost for good.

## Model

| member | source | states |
|---|---|---|
| `Approvals.RunIsPerRow` | crates/tap-core/src/store.rs:6271-6470 | A run over the whole table acts on each transaction's row independently of all others. |
| `Approvals.TerminalIsPermanent` | crates/tap-core/src/store.rs:6449-6459 | Once a row's status is not pending, no sequence of statements changes it while the row exists. |
| `Approvals.PendingRowSurvives` | crates/tap-core/src/store.rs:6767-6777 | Only an explicit delete removes a pending row; cleanup never does. |
| `Approvals.StatusChange` | crates/tap-core/src/store.rs:6434-6535 | A status changes only from pending, only by a resolve, claim or end-user resolve of that transaction, and to the status it carries. |
| `Approvals.ClaimWinsOncePerLifetime` | crates/tap-core/src/store.rs:6482-6503 | Two winning grant claims on one transaction are separated by a moment at which its row did not exist. |
| `Approvals.ClaimedRowStaysApproved` | crates/tap-core/src/store.rs:6482-6503 | After a winning claim the row is approved at every later point of its lifetime. |
| `Approvals.ReservationIsSticky` | crates/tap-core/src/store.rs:6280-6296 | No statement lifts an end-user reservation while the row exists. |
| `Approvals.EndUserGate` | crates/tap-core/src/store.rs:6511-6535 | A reserved pending row that is approved later in its lifetime was approved by an end-user resolve of the user it was reserved for. |
| `Approvals.EndUserGateOrRemoval` | crates/tap-core/src/store.rs:6511-6535 | Without assuming that the row stays: such an approval came from the end user, or there was a moment without the row. |
| `Approvals.ReservationStaysWith` | crates/tap-core/src/store.rs:6280-6296 | The reservation stays with one end user unless a save names another. |
| `Approvals.ReservationIsTheLastSaved` | crates/tap-core/src/store.rs:6280-6296 | While a row exists its reservation is the one named by the last save that named anyone. |
| `Approvals.TeamApprovalIff` | crates/tap-core/src/store.rs:6434-6470 | For every table: a team approval leaves the transaction approved exactly when it finds no row, an approved row, or an unreserved pending one. |
| `Approvals.GateEndsWithTheRow` | crates/tap-core/src/store.rs:6450-6452 | For every row: a cleanup followed by a team approval ends approved exactly when the row was purged or was open to the team anyway. |
| `Approvals.SaveMovesReservationIff` | crates/tap-core/src/store.rs:6280-6296 | A further save moves the reservation exactly when it names someone else, and never changes the status. |
| `OrderIndependence.ReflectsStep` | crates/tap-core/src/store.rs:6271-6306 | Each set-up statement keeps the row a function of the set of statements that ran. |
| `OrderIndependence.PermutationsAgree` | crates/tap-core/src/store.rs:6434-6470 | Any two permutations of a batch over any number of transactions, without reserved approvals, end in the same rows apart from `created_at`. |
| `OrderIndependence.ReservedApprovalIsOrdered` | crates/tap-core/src/store.rs:6449-6459 | Any batch that approves a reserved transaction has two orders that end in different rows. |
| `OrderIndependence.OrderIndependentIffNoReservedApproval` | crates/tap-core/src/store.rs:7144-7245 | A batch is order independent if and only if it approves no reserved transaction. |
| `ApprovalStore.PendingApprovalStore.SavePendingApprovalScoped` | crates/tap-core/src/store.rs:6271-6306 | Upsert: keeps a decided status and its resolver, keeps team and reservation when the save has none. |
| `ApprovalStore.PendingApprovalStore.ResolvePendingApproval` | crates/tap-core/src/store.rs:6434-6470 | Conditional upsert; the result says whether a row was inserted or updated. |
| `ApprovalStore.PendingApprovalStore.ClaimPendingApprovalForGrant` | crates/tap-core/src/store.rs:6482-6503 | True exactly when this call moved an unreserved row from pending to approved. |
| `ApprovalStore.PendingApprovalStore.ResolvePendingApprovalAsEndUser` | crates/tap-core/src/store.rs:6511-6535 | Updates exactly a pending row reserved for that end user. |
| `ApprovalStore.PendingApprovalStore.DeletePendingApproval` | crates/tap-core/src/store.rs:6626-6635 | Removes that row and nothing else. |
| `ApprovalStore.PendingApprovalStore.PurgePendingApprovals` | crates/tap-core/src/store.rs:6767-6777 | Removes exactly the expired decided rows and returns how many. |
| `ApprovalStore.PendingApprovalStore.CleanupExpiredRows` | crates/tap-core/src/store.rs:6767-6786 | Both purges with arbitrary statements between: expired decided approvals, and all expired asynchronous responses, with both counts. |
| `ApprovalStore.PendingApprovalStore.SetPendingApprovalChallenge` | crates/tap-core/src/store.rs:6874-6899 | Writes the challenge into a pending or new row and never into a decided one. |
| `ApprovalStore.PendingApprovalStore.TakePendingApprovalChallenge` | crates/tap-core/src/store.rs:6900-6935 | Returns the challenge of a live pending row and clears it in the same statement. |
| `ApprovalStore.PendingApprovalStore.SetPendingApprovalTelegramMessage` | crates/tap-core/src/store.rs:7144-7172 | Upserts the message columns only. |
| `ApprovalStore.PendingApprovalStore.SetPendingApprovalMatrixData` | crates/tap-core/src/store.rs:7213-7245 | Upserts the Matrix columns and the threshold only. |
| `ApprovalStore.PendingApprovalStore.IncrementPendingApprovalCount` | crates/tap-core/src/store.rs:7307-7346 | Increment and read-back as two statements with arbitrary statements between; a missing row is `None`. |
| `AgentReflected.DecisionAgreesWithTable` | crates/tap-proxy/src/agent_reflected_channel.rs:101-146 | A decision returned by the wait is terminal and is what the table holds at that moment, for every interleaving. |
| `AgentReflected.WaitEndsAtFirstReason` | crates/tap-proxy/src/agent_reflected_channel.rs:108-145 | For all ticks: the wait ends at the first one that reads the row as missing or decided or lies at or past the deadline, with the outcome that tick asks for and the expiry as its only own statement, and goes on exactly as long as there is none. |
| `AgentReflected.DeadlineIsKept` | crates/tap-proxy/src/agent_reflected_channel.rs:135-143 | A wait times out by its deadline only at a tick at or past it, and outlasts no such tick. |
| `AgentReflected.DeadlineLeavesDecidedRow` | crates/tap-proxy/src/agent_reflected_channel.rs:135-143 | A wait that ends at its deadline with an executed final resolve leaves a decided row. |
| `AgentReflected.NoDecisionAfterDeadline` | crates/tap-proxy/src/agent_reflected_channel.rs:135-143 | No later statement changes that row's status while it exists. |
| `AgentReflected.EndUserGateOverWholeRun` | crates/tap-proxy/src/agent_reflected_channel.rs:58-146 | From the first save to the return of the wait, whatever else ran: Approved on a request reserved for e implies an approving end-user resolve by e, or a moment without the row. |
| `AgentReflected.AgentReflectedChannel.SendApprovalRequest` | crates/tap-proxy/src/agent_reflected_channel.rs:58-98 | Saves the row with its ttl, team scope and reservation and returns its id, or passes the save's failure on. |
| `AgentReflected.AgentReflectedChannel.Poll` | crates/tap-proxy/src/agent_reflected_channel.rs:110-145 | One turn of the loop: missing exactly when the row was read and is not there, decided with the status read, deadline exactly when nothing was decided and the time has come. |
| `AgentReflected.AgentReflectedChannel.WaitForDecision` | crates/tap-proxy/src/agent_reflected_channel.rs:101-146 | The polling loop has the outcome and leaves the table that the wait function gives. |
| `GrantMinting.WinStep` | crates/tap-bot/src/telegram.rs:591-619 | A click becomes a winner only by its own claim, which finds the row pending and leaves it approved. |
| `GrantMinting.GrantsHaveOwnersStep` | crates/tap-bot/src/telegram.rs:465-497 | Every event keeps: each grant was minted by its own click, after that click's claim won. |
| `GrantMinting.WinnersAreSeparated` | crates/tap-bot/src/matrix.rs:160-193 | In every run, two clicks that both won on one transaction won in different lifetimes of its row. |
| `GrantMinting.OneGrantPerLifetime` | crates/tap-bot/src/matrix.rs:372-396 | In every run whatsoever, with removals and re-creations, the claims behind two grants of one transaction are separated by a moment without its row. |
| `GrantMinting.GrantedRowIsApproved` | crates/tap-bot/src/telegram.rs:465-497 | The row behind a grant was approved by that grant's claim and is approved, not denied or expired, for as long as it exists after it. |
| `GrantMinting.OneGrantPerApproval` | crates/tap-bot/src/matrix.rs:270-400 | In particular a row that is never removed yields at most one grant, and then it is approved. |
| `GrantMinting.ClickRunEnds` | crates/tap-bot/src/telegram.rs:465-497 | A click's own run of the step system claims only what it loaded and mints only what it claimed, whatever others run in between. |
| `GrantMinting.GrantSurface.HandleGrantClick` | crates/tap-bot/src/matrix.rs:273-396 | The handler as a program: its effect on the row is that run, a grant is stored exactly when the run mints, it is for the request whose details the row held when loaded, and its window opens at minting time. |
| `GrantUse.TracedStep` | crates/tap-bot/src/telegram.rs:485-497 | Every event keeps: a click's grant has the terms of the request its click loaded, and no statement on the grant table changes them. |
| `GrantUse.MintStores` | crates/tap-bot/src/telegram.rs:485-497 | A claimed click whose guardrails hold stores its grant. |
| `GrantUse.MintedWasReviewed` | crates/tap-bot/src/matrix.rs:305-396 | The click behind a grant loaded its request from a pending row and moved that row from pending to approved by its own claim. |
| `GrantUse.UseTracesToReview` | crates/tap-proxy/src/proxy.rs:2709-2752 | End to end: a request that a click's grant lets through has the team, credential, method and host, and without wildcards the path, of a request whose row the click's claim approved; the grant was minted less than 30 minutes before, and the row claimed is the row listed, unrevoked. |
| `Grants.UsesCountWins` | crates/tap-core/src/store.rs:5561-5577 | `uses` equals the number of successful claims since the grant was created and never exceeds the cap. |
| `Grants.TermsAreFixed` | crates/tap-core/src/store.rs:5492-5594 | While a grant exists its terms never change, uses only grow and revocation is never undone. |
| `Grants.GoneOnlyWithItsCredential` | crates/tap-core/src/store.rs:1342-1343 | A grant disappears only when its credential is deleted. |
| `Grants.KeysAlwaysHold` | crates/tap-core/src/store.rs:1342-1343 | In every run each grant's credential exists. |
| `Grants.DeadStaysDead` | crates/tap-core/src/store.rs:5561-5594 | After a grant was revoked, expired or used up at some time, a claim at that time or later wins only if the grant was deleted and the same id inserted again in between. |
| `Grants.LiveIffClaimWins` | crates/tap-core/src/store.rs:5533-5577 | A credential's grant is listed as live exactly when a claim at the same state and time succeeds. |
| `Grants.GrantStore.CreateApprovalGrant` | crates/tap-core/src/store.rs:5492-5513 | Stores the grant with zero uses and unrevoked; a taken id or an unknown credential fails and changes nothing. |
| `Grants.GrantStore.ClaimApprovalGrant` | crates/tap-core/src/store.rs:5561-5577 | True exactly when the grant was live, and then one use is consumed. |
| `Grants.GrantStore.RevokeApprovalGrant` | crates/tap-core/src/store.rs:5579-5594 | Revokes the team's own grant only. |
| `Grants.GrantStore.LiveGrantsForCredential` | crates/tap-core/src/store.rs:5533-5558 | Exactly the credential's grants that are unrevoked, unexpired and have uses left. |
| `Grants.GrantStore.RemoveCredential` | crates/tap-core/src/store.rs:3061-3069 | Deletes the credential and, by the cascade, exactly its grants. |
| `Grants.GrantStore.CreateGrantForRequest` | crates/tap-core/src/grants.rs:92-141 | Mints if and only if every guardrail holds; the grant is scoped to one method and one route, live, and within the maximum ttl; a refusal stores nothing. |
| `Grants.ScopeIs` | crates/tap-core/src/grants.rs:72-86 | Which targets have a scope, and that it is the host, below the root followed by the path. |
| `GrantScope.JoinSplit` | crates/tap-proxy/src/policy.rs:313-341 | Splitting a path into segments loses nothing. |
| `GrantScope.TrimTakesSlashes` | crates/tap-proxy/src/policy.rs:343-349 | Trimming takes away all slashes at the end and nothing else. |
| `GrantScope.LowerCaseIsEquality` | crates/tap-proxy/src/policy.rs:236-303 | Comparison up to ASCII case is equality on texts without upper-case letters. |
| `GrantScope.RuleIsPrefix` | crates/tap-proxy/src/policy.rs:305-341 | A standing rule for a path without `*` matches exactly the paths that start with its segments. |
| `GrantScope.RuleOnHost` | crates/tap-proxy/src/policy.rs:290-293 | A standing rule that names only a host matches exactly that host. |
| `GrantScope.RuleOnHostAndPath` | crates/tap-proxy/src/policy.rs:290-303 | A standing rule for a host and a path needs that host and a path that starts with its segments. |
| `GrantScope.PathOnlyGrant` | crates/tap-proxy/src/policy.rs:248-250 | A grant for a path alone covers exactly that path, on every host. |
| `GrantScope.StarNeedsAName` | crates/tap-proxy/src/policy.rs:327-340 | A `*` segment stands for exactly one non-empty segment. |
| `GrantScope.ExactMatchIsEquality` | crates/tap-proxy/src/policy.rs:313-349 | Exact segment matching without `*` is equality of paths up to trailing slashes. |
| `GrantScope.GrantIsNeverBroaderThanRule` | crates/tap-proxy/src/policy.rs:236-303 | Whatever a grant scope covers, a standing rule with the same pattern matches. |
| `GrantScope.DerivedScopeCovers` | crates/tap-core/src/grants.rs:72-86 | For every reviewed request: its scope covers one host and the paths that agree segment by segment, a `*` segment standing for any non-empty one; a root-path scope covers nothing. |
| `GrantScope.DerivedScopeCoversExactly` | crates/tap-proxy/src/policy.rs:236-262 | Without wildcards that is exactly the same host and path, up to trailing slashes. |
| `GrantScope.CoversExactlyIffNoWildcard` | crates/tap-proxy/src/policy.rs:236-262 | A scope below the root covers exactly its own host and path if and only if neither has a wildcard. |
| `GrantScope.StarMatchesAnotherPath` | crates/tap-proxy/src/policy.rs:313-341 | Every pattern with a `*` segment exactly matches some path other than its own. |
| `MatrixThreshold.TalliedStep` | crates/tap-bot/src/matrix.rs:597-678 | With answered increments and nobody else resolving or deleting, every event keeps the tally of count, hits and handlers, or is a cleanup of an approved row. |
| `MatrixThreshold.LastTallied` | crates/tap-bot/src/matrix.rs:556-678 | In every such run the tally holds until now, or until the posted row was removed, approved. |
| `MatrixThreshold.ApprovedOnlyAtThresholdOrRemoved` | crates/tap-bot/src/matrix.rs:597-678 | With answered increments and nobody else approving or re-counting, while others deny, expire, reserve, delete and clean up: an approval means increments of m different handlers hit the row, or there was a moment without it. |
| `MatrixThreshold.ApprovedOnlyAtThreshold` | crates/tap-bot/src/matrix.rs:597-678 | With nobody else resolving or deleting, cleanup included, the transaction is approved only after increments of m different handlers hit its row. |
| `MatrixThreshold.ThresholdIsNeverLost` | crates/tap-core/src/store.rs:7307-7346 | With nobody else resolving or deleting, once m admitted approving reactions have run to their end the row is approved, or was approved and then cleaned up, in every interleaving of the two-statement increments. |
| `MatrixThreshold.HandlerApprovesIff` | crates/tap-bot/src/matrix.rs:597-678 | From every state: a handler that has looked its row up and runs through leaves the transaction approved exactly when the row is gone or approved, or open with the threshold reached or the increment or read-back not answered. |
| `MatrixThreshold.ReactionApprovesIff` | crates/tap-bot/src/matrix.rs:556-678 | The same for a whole reaction with arbitrary statements of others in every gap and a resolve that may fail. |
| `MatrixThreshold.ApprovesBelowThresholdIffUnanswered` | crates/tap-bot/src/matrix.rs:597-606 | In particular, below the threshold of an open row: exactly when the increment or read-back was not answered. |
| `MatrixThreshold.FailedIncrementApproves` | crates/tap-bot/src/matrix.rs:600-606 | For every threshold, one reaction whose increment fails approves a fresh request at count zero. |
| `MatrixThreshold.RemovedRowIsApproved` | crates/tap-core/src/store.rs:7325-7345 | For every table and every way the row goes away between a handler's look-up and its increment: the handler inserts an approved row. |
| `MatrixThreshold.PurgedDecisionIsApproved` | crates/tap-core/src/store.rs:6767-6777 | So a request that is denied or timed out and then cleaned up there ends approved. |
| `MatrixThreshold.DeletionBypassesThreshold` | crates/tap-core/src/store.rs:6626-6635 | So does a request that is deleted there. |
| `MatrixThreshold.HandledIsARun` | crates/tap-bot/src/matrix.rs:556-678 | What a whole reaction does to its row, and how it ends, is a run of the event system the theorems are about. |
| `MatrixThreshold.AdmittedByTheList` | crates/tap-bot/src/matrix.rs:565-588 | In every run a handler that goes on, counts or resolves looked the request up while it was open, and its user was on the list the look-up read, unless that list was empty or the user unidentified. |
| `MatrixThreshold.UnlistedUserIsRefused` | crates/tap-bot/src/matrix.rs:565-588 | For every table and stored list: an identified user whom it leaves out is refused and nothing changes. |
| `MatrixThreshold.OnlyUnlistedUsersAreRefused` | crates/tap-bot/src/matrix.rs:565-588 | With a working look-up of an open request nobody else is refused. |
| `MatrixThreshold.SingleApprovalResolves` | crates/tap-bot/src/matrix.rs:597-678 | A request that needs one approval is resolved by the first admitted reaction without touching its count. |
| `MatrixThreshold.MatrixChannel.ApproveFromDatabase` | crates/tap-bot/src/matrix.rs:545-678 | The handler as a program, with failing statements and arbitrary statements in each gap: when it ignores, whom it refuses by the stored list, and the table it leaves. |
| `TelegramWaiter.OneDecisionPerRequest` | crates/tap-bot/src/telegram.rs:654-703 | In every run each registered request is sent at most one decision and its wait returns at most once, with what was sent to it. |
| `TelegramWaiter.ThresholdsOverRun` | crates/tap-bot/src/telegram.rs:109-173 | In every run entries keep their posted terms, counts never exceed accepted presses, and sent button approvals had enough of them. |
| `TelegramWaiter.ButtonApprovalMeetsThreshold` | crates/tap-bot/src/telegram.rs:109-224 | A wait that returns an approval which a button sent on its channel had at least the required accepted presses, all by allowed approvers. |
| `TelegramWaiter.CallbackRunsThrough` | crates/tap-bot/src/telegram.rs:109-224 | From every state, a press that runs through is refused by the approver list, counted as partial below the threshold, or sent once with the entry taken out. |
| `TelegramWaiter.WaitReturns` | crates/tap-bot/src/telegram.rs:1400-1440 | A wait ends with what was sent to it, what it read from the store, or at its deadline; the last two let go of the request. |
| `TelegramWaiter.ButtonIs` | crates/tap-bot/src/telegram.rs:95-108 | Which callback texts are an approve, deny or grant press. |
| `TelegramPersistence.AlwaysInOrder` | crates/tap-bot/src/telegram.rs:654-697 | In every run of presses, signals, persisted decisions, polls and other statements: every callback past the threshold block had enough accepted presses or found no entry, and every approved row has such a press or another statement behind it. |
| `TelegramPersistence.StoreApprovalHasReason` | crates/tap-bot/src/telegram.rs:736-765 | A wait that returns Approved from the store: another statement approved the row, or an approve press that had enough accepted presses or found no entry. |
| `TelegramPersistence.PollTells` | crates/tap-bot/src/telegram.rs:736-765 | Which row statuses end a poll, and as which decision. |
| `TelegramPersistence.UnheldPressApprovesIff` | crates/tap-bot/src/telegram.rs:152-173 | A press that finds no entry is never partial; its row ends approved exactly when it was missing, approved, or pending and unreserved. |
| `TelegramWaiter.TelegramChannel.RegisterPending` | crates/tap-bot/src/telegram.rs:67-83 | Creates the entry and its receiver. |
| `TelegramWaiter.TelegramChannel.ApplyRouting` | crates/tap-bot/src/telegram.rs:1284-1307 | Sets the approver list and the threshold where routing gives them. |
| `TelegramWaiter.TelegramChannel.CountApproval` | crates/tap-bot/src/telegram.rs:152-173 | The threshold block: counts once and tells whether the approval is still partial. |
| `TelegramWaiter.TelegramChannel.Signal` | crates/tap-bot/src/telegram.rs:654-675 | Takes the entry out and sends, at most once per entry. |
| `TelegramWaiter.TelegramChannel.CleanupPendingRequest` | crates/tap-bot/src/telegram.rs:700-703 | Forgets the request in both maps. |
| `TelegramWaiter.TelegramChannel.HandleCallback` | crates/tap-bot/src/telegram.rs:89-241 | Parses the press; malformed data and refused users change nothing, a grant press is handed on, a partial approval only counts, anything else sends once, then persists, and reports success exactly when a live waiter or the database took it. |
| `RelayLease.ForeignClaimIffNoLiveHolder` | crates/tap-core/src/store.rs:2643-2734 | Someone else's claim succeeds exactly when no live holder would be reported. |
| `RelayLease.LeaseIsKept` | crates/tap-core/src/store.rs:2643-2690 | Within the ttl of a successful claim or heartbeat, and without a release, the lease stays with its holder in every run. |
| `RelayLease.LeasesNeverOverlap` | crates/tap-core/src/store.rs:2643-2708 | When two holders refresh one session, the earlier one released it in between or its ttl had run out. |
| `RelayLease.TakeoverInsideLeaseIff` | crates/tap-core/src/store.rs:2643-2671 | For every lease: some claim with ttl b made within a seconds of the holder's last sign of life succeeds if and only if b < a. |
| `RelayLease.ImpatientClaimOverlaps` | crates/tap-core/src/store.rs:2643-2671 | For all ttls b < a there is a run in which two holders' leases overlap. |
| `RelayLease.RelayStore.ClaimRelaySession` | crates/tap-core/src/store.rs:2643-2671 | Takes or renews the lease exactly when it is free, stale or the caller's own. |
| `RelayLease.RelayStore.LiveRelayHolder` | crates/tap-core/src/store.rs:2711-2734 | The holder, exactly while its last sign of life is within the ttl. |
| `RelayLease.RelayStore.HeartbeatRelaySession` | crates/tap-core/src/store.rs:2674-2691 | Refreshes only the caller's own lease. |
| `RelayLease.RelayStore.ReleaseRelaySession` | crates/tap-core/src/store.rs:2694-2707 | Removes only the caller's own lease. |
| `TokenFamilies.WinnersFormOneChain` | crates/tap-core/src/mcp_tokens.rs:74-136 | Winning rotations form one chain from the recorded jti to `current_jti`, and each winner presented the chain's end. |
| `TokenFamilies.ChainIsDistinct` | crates/tap-core/src/mcp_tokens.rs:109-136 | With fresh jtis no jti occurs twice in the chain. |
| `TokenFamilies.JtiWinsOnce` | crates/tap-core/src/mcp_tokens.rs:109-136 | Two winning rotations of a family presented different tokens, across all instances. |
| `TokenFamilies.FamilyTermsAreFixed` | crates/tap-core/src/mcp_tokens.rs:74-178 | Owner and expiry never move and revocation is never undone. |
| `TokenFamilies.ActiveIffUnexpiredAndUnrevoked` | crates/tap-core/src/mcp_tokens.rs:139-157 | In every run a recorded family is active exactly before its recorded expiry and while its agent has not been revoked since. |
| `TokenFamilies.RotationWinsIff` | crates/tap-core/src/mcp_tokens.rs:109-136 | In every run a rotation wins exactly when it presents the end of the family's chain, before the recorded expiry, with the agent not revoked since. |
| `TokenFamilies.InactiveForGood` | crates/tap-core/src/mcp_tokens.rs:109-157 | Once inactive, a family stays inactive and nothing rotates it. |
| `TokenFamilies.RevokeHitsTheAgent` | crates/tap-core/src/mcp_tokens.rs:160-178 | Revocation deactivates exactly the families of that agent in that team. |
| `TokenFamilies.TokenFamilyStore.RecordFamily` | crates/tap-core/src/mcp_tokens.rs:74-106 | Records a new family; a taken id fails. |
| `TokenFamilies.TokenFamilyStore.RotateFamily` | crates/tap-core/src/mcp_tokens.rs:109-136 | Rotates exactly an active family whose current jti was presented. |
| `TokenFamilies.TokenFamilyStore.FamilyIsActive` | crates/tap-core/src/mcp_tokens.rs:139-157 | True exactly for a known, unrevoked, unexpired family. |
| `TokenFamilies.TokenFamilyStore.RevokeFamiliesForAgent` | crates/tap-core/src/mcp_tokens.rs:160-178 | Revokes the agent's unrevoked families and returns how many. |
| `ConsumedCodes.RecordedUntilExpiry` | crates/tap-core/src/mcp_tokens.rs:184-209 | A consumed code stays on record until a prune later than its expiry. |
| `ConsumedCodes.CodeIsSingleUse` | crates/tap-core/src/mcp_tokens.rs:184-209 | A second consumption of a code happens only after its expiry and after a prune past it. |
| `ConsumedCodes.ConsumedAgainIffPruned` | crates/tap-core/src/mcp_tokens.rs:184-209 | In every run, an exchange of a consumed code is accepted again exactly when a prune past its expiry ran since, with no exchange of the code after that prune. |
| `ConsumedCodes.ConsumedCodeStore.ConsumeCode` | crates/tap-core/src/mcp_tokens.rs:184-209 | True exactly for a code not on record, followed, after arbitrary statements of others, by a prune that may fail; a code in time stays on record. |
| `DeviceLogin.UserCodesStayUnique` | crates/tap-core/src/store.rs:4664-4693 | No run gives two devices one user code. |
| `DeviceLogin.ApprovalReachesOneDevice` | crates/tap-core/src/store.rs:4697-4723 | An approval binds one device only. |
| `DeviceLogin.HistoryOverRun` | crates/tap-core/src/store.rs:4664-4772 | A row's status, or its absence, determines how often it was approved and claimed and by whom. |
| `DeviceLogin.CodeIsClaimedOnce` | crates/tap-core/src/store.rs:4726-4772 | Per device code at most one approval binds and at most one claim wins, pruning included. |
| `DeviceLogin.ClaimReturnsApprover` | crates/tap-core/src/store.rs:4697-4762 | A winning claim returns the identity of an earlier approval made before expiry. |
| `DeviceLogin.ClaimIsGrantedIff` | crates/tap-core/src/store.rs:4726-4750 | In every run a claim is granted exactly when the code was approved and not claimed, before the expiry it was created with, with no prune past that expiry in between; it is granted the approver's identity. |
| `DeviceLogin.ApprovalBindsIff` | crates/tap-core/src/store.rs:4697-4723 | In every run an approval binds a code exactly when it names its user code, before its expiry, and the code was not approved or pruned before. |
| `DeviceLogin.DeviceStore.CreateDeviceAuthorization` | crates/tap-core/src/store.rs:4664-4693 | Prunes, which may fail, then, after arbitrary statements of others, inserts under both uniqueness constraints. |
| `DeviceLogin.DeviceStore.ApproveDeviceAuthorization` | crates/tap-core/src/store.rs:4697-4723 | Binds the approver to the live pending code, if there is one. |
| `DeviceLogin.DeviceStore.ClaimDeviceAuthorization` | crates/tap-core/src/store.rs:4726-4772 | Grants exactly a live approved code and marks it claimed; otherwise explains the miss from a second read. |
| `RateCounter.RowCountsSincePrune` | crates/tap-core/src/store.rs:2599-2631 | In every run a row counts exactly the increments since the last prune over it. |
| `RateCounter.CallReturnsOrdinal` | crates/tap-core/src/store.rs:2599-2631 | With windows in order, each call returns its exact ordinal in its window despite pruning. |
| `RateCounter.CallReturnsOrdinalIff` | crates/tap-core/src/store.rs:2599-2631 | In every run, a call returns its exact ordinal if and only if no prune past its window ran after one of the window's calls. |
| `RateCounter.LimitAdmitsExactly` | crates/tap-core/src/store.rs:2599-2631 | With a limit L, exactly the first L calls of a window see a value within it, over all instances together. |
| `RateCounter.OlderWindowRestarts` | crates/tap-core/src/store.rs:2618-2628 | For every agent and all windows w < v there is a run in which a call that falls back to w restarts at one. |
| `RateCounter.RateCounterStore.IncrementRateCounter` | crates/tap-core/src/store.rs:2599-2631 | Returns the incremented count and, after arbitrary statements of others, prunes older windows, or not when the prune fails. |
| `IdentityMigration.FindOldest` | crates/tap-core/src/store.rs:1487-1495 | Every email has a row that comes first by creation time and id. |
| `IdentityMigration.OneUserPerEmail` | crates/tap-core/src/store.rs:1480-1500 | Exactly the legacy emails have a user, one each: id, password hash, display name, Matrix id, Telegram id and both times are those of the row that comes first by creation time and id; verified if any of the person's rows was; user ids are distinct. |
| `IdentityMigration.MembershipsMirrorAdmins` | crates/tap-core/src/store.rs:1502-1510 | The memberships are exactly the legacy rows, each with its team, role and creation time under its person's user id. |
| `IdentityMigration.SessionsKeepTheirMeaning` | crates/tap-core/src/store.rs:1528-1535 | With any set of tolerated failures: every session resolves to exactly the email, team and role it had before if the session repoint took effect, and to nobody if it failed. |
| `IdentityMigration.RefsKeepTheirMeaning` | crates/tap-core/src/store.rs:1536-1559 | The same for the four other tables: a reference ends at its person's user, or at nobody exactly when its table's repoint failed. |
| `IdentityMigration.ApproversKeepTheirMeaning` | crates/tap-core/src/store.rs:1560-1564 | Every approver credential ends at its person's user, or keeps its old member id when the remap failed. |
| `IdentityMigration.MigratedIsFinal` | crates/tap-core/src/store.rs:1569-1589 | A finished boot's result is final: no later boot changes or repairs it. |
| `IdentityMigration.StatementIsSettled` | crates/tap-core/src/store.rs:1511-1527 | Where a boot stopped after statement k, re-running any of its first k statements changes nothing. |
| `IdentityMigration.RerunContinues` | crates/tap-core/src/store.rs:1461-1574 | A boot after an interruption at k redoes nothing and continues from k. |
| `IdentityMigration.InterruptionsDoNotMatter` | crates/tap-core/src/store.rs:1415-1425 | After any number of boots stopped between any statements, without failures, a full boot ends in the state of one uninterrupted boot. |
| `IdentityMigration.ConcurrentBootsAgree` | crates/tap-core/src/store.rs:1415-1425 | However the statements of any number of boots interleave and stop, without failures, the database is where the furthest boot alone would be. |
| `IdentityMigration.FirstFinishedBootDecides` | crates/tap-core/src/store.rs:1415-1425 | Without failures, once any boot has finished the migration is complete whatever the others still issue. |
| `MigrationRuns.HistoriesAgree` | crates/tap-core/src/store.rs:1461-1589 | With failures, stops and interleavings: the database depends only on which statements were executed in time. |
| `MigrationRuns.SessionKeptIffRepointedFirst` | crates/tap-core/src/store.rs:1528-1535 | After any history of executed statements a session keeps its meaning if the session repoint came before any column or table drop, and resolves to nobody otherwise. |
| `MigrationRuns.RefKeptIffRepointedFirst` | crates/tap-core/src/store.rs:1536-1559 | The same for each of the four other tables. |
| `MigrationRuns.BootsKeepSessionIff` | crates/tap-core/src/store.rs:1461-1589 | For any sequence of boots, each stopped anywhere with any tolerated failures: a session keeps its meaning if and only if some boot executed the repoint and no earlier boot executed the column drop or finished. |
| `MigrationRuns.BootsKeepRefIff` | crates/tap-core/src/store.rs:1536-1559 | The same per reference table. |
| `MigrationRuns.InstancesRunATrace` | crates/tap-core/src/store.rs:1415-1425 | Whatever instances interleave, stop and fail, the database is the result of a history in which both inserts precede what follows them. |
| `MigrationRuns.InstancesKeepSessionIff` | crates/tap-core/src/store.rs:1528-1535 | Concurrent, failing boots keep a session exactly when its repoint was executed before any drop. |
| `MigrationRuns.InstancesKeepRefIff` | crates/tap-core/src/store.rs:1536-1559 | The same per reference table. |
| `MigrationRuns.FinishedIsFinal` | crates/tap-core/src/store.rs:1581-1589 | Once some boot has dropped the admins table, nothing any boot issues changes the database. |
| `IdentityMigration.IdentityStore.BackfillIdentityFromAdmins` | crates/tap-core/src/store.rs:1461-1589 | The statement loop, stopped anywhere and passing over tolerated failures, leaves the state the boot function gives. |
| `PolicyDiff.MissingMembers` | crates/tap-core/src/policy_diff.rs:84-118 | An item is reported missing exactly when the new list has it and the old one lacks it. |
| `PolicyDiff.ReportedIff` | crates/tap-core/src/policy_diff.rs:79-159 | What is reported, kind by kind: for every pair of policies exactly the loosened items, flags and counts. |
| `PolicyDiff.GatedUrlIsNeverPassed` | crates/tap-proxy/src/policy.rs:113-127 | A matching gating pattern wins over everything that would let a request pass. |
| `PolicyDiff.AutoUrlPasses` | crates/tap-proxy/src/policy.rs:129-143 | Where none gates, a matching auto-approve pattern passes whatever the method. |
| `PolicyDiff.MethodsDecideTheRest` | crates/tap-proxy/src/policy.rs:145-185 | Where no pattern matches, exactly the listed methods pass, HEAD as GET. |
| `PolicyDiff.BaselineIsTheDefault` | crates/tap-core/src/policy_diff.rs:31-41 | The baseline of the diff decides like a gated team without a policy. |
| `PolicyDiff.PermissiveChanges` | crates/tap-core/src/policy_diff.rs:79-159 | The looping report equals the specified list of changes, against the default baseline when there was no policy. |
| `PolicyDiff.EmptyDiffIffSilent` | crates/tap-core/src/policy_diff.rs:79-159 | Nothing is reported exactly when every list, flag and count moved the safe way. |
| `PolicyDiff.EmptyDiffLoosensNothing` | crates/tap-proxy/src/policy.rs:71-185 | If nothing is reported, every request auto-approved under the new policy was auto-approved before, for every URL matcher and team default. |
| `PolicyDiff.EmptyDiffKeepsApprovalStrength` | crates/tap-core/src/policy_diff.rs:118-156 | If nothing is reported, passkey rule, approval count and approver set are no looser. |
| `PolicyDiff.EmptyDiffIsPreorder` | crates/tap-core/src/policy_diff.rs:79-159 | "Nothing reported" is reflexive and transitive. |
| `PolicyDiff.FlaggedMethodIsLooser` | crates/tap-core/src/policy_diff.rs:84-94 | A reported method, other than HEAD, really passes requests that were gated. |
| `PolicyDiff.HeadEntryIsIdle` | crates/tap-proxy/src/policy.rs:142-163 | A "HEAD" entry changes no decision, for every request and matcher, although adding it is reported. |
| `PolicyDiff.ApproverReportIsExact` | crates/tap-core/src/policy_diff.rs:138-156 | The approver part is silent exactly when the approver set does not grow, except that narrowing "anyone" is reported. |
| `PoolerUrl.LocationIsStable` | crates/tap-core/src/store.rs:445-480 | Changing plain characters of the port moves neither the host nor the port. |
| `PoolerUrl.OnlyThePortChanges` | crates/tap-core/src/store.rs:445-480 | The rewrite keeps the length and every character outside the port. |
| `PoolerUrl.NeverLeftOnTransactionPooler` | crates/tap-core/src/store.rs:445-480 | No result is a pooler host on port 6543, and rewriting twice is rewriting once. |
| `PoolerUrl.RewrittenIff` | crates/tap-core/src/store.rs:445-480 | For every URL assembled from scheme, optional userinfo, host, port and tail: the port becomes 5432 if it is 6543 and the host contains the pooler's name, and otherwise nothing changes. |
| `PoolerUrl.PoolerUrlIsRewritten` | crates/tap-core/src/store.rs:445-480 | In particular every pooler URL on 6543 is rewritten. |
| `Timestamps.FractionOrder` | crates/tap-core/src/store.rs:4731-4762 | Fractions of 0, 3, 6 or 9 digits followed by the offset compare like the nanoseconds they show. |
| `Timestamps.TextLayout` | crates/tap-core/src/store.rs:4731-4762 | The layout of a stored text, each field being its number in decimal. |
| `Timestamps.TextOrderIsCalendarOrder` | crates/tap-core/src/store.rs:5191-5207 | Text order is the order of year, month, day and time of day. |
| `Timestamps.CalendarOrderIsTimeOrder` | crates/tap-core/src/store.rs:5191-5207 | That order is the order of elapsed nanoseconds on the Gregorian calendar. |
| `Timestamps.TextOrderIsTimeOrder` | crates/tap-core/src/store.rs:4731-4762 | For all UTC instants of years 0000 to 9999, byte-wise order of the stored texts is chronological order, and equal texts are equal instants. |
| `HtmlEscape.EscapeIsSimultaneous` | crates/tap-bot/src/matrix.rs:1368-1373 | The four sequential replacements equal one per-character substitution. |
| `HtmlEscape.NoMarkupIsLeft` | crates/tap-bot/src/matrix.rs:1368-1373 | No escaped text contains '<', '>' or a double quote. |
| `HtmlEscape.UnescapeUndoesEscape` | crates/tap-bot/src/matrix.rs:1368-1373 | The reverse replacements in reverse order give back every string. |

## Left out

- HTTP calls, message texts and edits, toasts, sync and long-poll transport of Telegram and Matrix: no effect on decisions.
- Encryption, hashing, WebAuthn ceremonies, UUID generation, JSON and URL parsing: library behaviour. Pattern trimming and Unicode upper-casing are left to the parsed records.
- GrantUse.UseTracesToReview: a grant authored in the dashboard has no click behind it and is outside; the 30 minutes run from the minting, which follows the claim of the row.
- Agreement between waiter and database on the plain Telegram and Matrix resolutions: the code signals memory independently of the row there, so it is not claimed.
- The in-memory Matrix reaction path and its counter: it has the shape of the Telegram one.
- Liveness of waits: a wait over finitely many ticks may still be waiting, and nothing is assumed about scheduling.
- TelegramWaiter.TelegramChannel.HandleCallback: its own lock-protected blocks run undisturbed; interleaving at their boundaries is what the event system of that module covers. The grant press ends with being handed to its handler, which GrantMinting models.
- GrantMinting.OneGrantPerApproval: the click's identity, role, threshold and detail checks are one Boolean outcome of loading the request; who may mint is not modelled.
- Grants.LiveIffClaimWins: the live list is a set; its ordering by creation is not modelled.
- IdentityMigration.InterruptionsDoNotMatter: speaks of boots without tolerated failures; MigrationRuns covers those with them. Adding columns and swapping foreign-key constraints move no data and are left out. Nothing else writes the tables between boots.
- PolicyDiff.EmptyDiffLoosensNothing: URL patterns are compared as texts, as the diff does; two texts for one pattern count as different.
- Leap seconds in stored timestamps: chrono would print second 60, which is outside the modelled instants.
- Integer widths: counters and timestamps are unbounded here; 64-bit columns do not wrap in practice and the code does not check for it.
- Templates, channels, whitelists, push subscriptions, audit reads, invites and credential edits: plain reads and writes that would only add easy members.
- Email verification and password-reset consumption: separate SELECT and DELETE statements with no interleaving guarantee worth stating.
- `tap-cli`, the Telegram sidecar, the web dashboard and the MCP entry point: user interface and glue.
