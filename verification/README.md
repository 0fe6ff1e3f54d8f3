# Verification of Trivyal's hub and agent

Trivyal is a hub to which agents report Trivy scans and container misconfigurations over
WebSockets. This Dafny project models the parts of it that hold state and proves what they promise
over whole runs. `dafny verify dfyconfig.toml` checks everything.

## What is modelled

| file | part |
|---|---|
| `Registry.dfy`, `Protocol.dfy`, `ConnectionManager.dfy` | the connection registry, the monitor pass over it, the interleaved connection handlers with scan triggers, and the `ConnectionManager` object |
| `ProtocolHistory.dfy` | handlers, registry, statuses and last-seen times read off the sequence of steps |
| `SplitCommits.dfy`, `SerialCommits.dfy` | the same handlers and triggers with status commits that come later than the check or send before them, and the runs in which they do not |
| `RateLimit.dfy` | the per-IP limiter on failed authentications |
| `Heartbeat.dfy` | the heartbeat exchange as a timed automaton with both timeouts |
| `Store.dfy`, `Misconfigs.dfy` | ingestion of scan and misconfiguration results |
| `Lifecycle.dfy` | acceptance, revocation, status change and expiry, and runs mixing them with ingestion |
| `HubStore.dfy` | the same write paths as the loops and row updates the hub runs, against those specifications |
| `Columns.dfy`, `Leftovers.dfy` | what stored and rejected messages write, column by column |
| `RowHistory.dfy` | acceptances and statuses read off the sequence of events |
| `Jams.dfy` | how long a container rejects its scans |
| `History.dfy`, `Trend.dfy`, `DayCounts.dfy` | what the finding rows remember of past scans, the trend queries, and what a day's count counts |
| `Images.dfy`, `ImageColumns.dfy` | the image listing, and what it says in terms of the columns |
| `Agent.dfy`, `AgentClient.dfy`, `AgentHistory.dfy` | the agent's scan cycle, result cache and flush, and what they save, send and clear |
| `Freshness.dfy`, `Overlap.dfy` | the age of scans over timed runs; cycles that overlap a flush |
| `Migrations.dfy`, `Duplicates.dfy` | the row deletions of migrations 0003 and 0004 |
| `Common.dfy` | optional values and the two shapes of query |

Classes carry the fields the program updates in place (`ConnectionManager`, `HubStore`,
`AgentClient`, `Database`); each method is proved against a function of the old state, and the
results below are about those functions and their runs. Clock readings, payloads, the outcome of
each send and scan, the order of a directory listing and the events that run while a coroutine
awaits are parameters or universally quantified.

## Assumptions

- Hub coroutines interleave at these atomic blocks: `connect()` up to its first await, the ONLINE
  commit, one received message, the whole `finally` block, and the send of a scan trigger together
  with its SCANNING commit. Commits succeed and status writes reach the database.
  `SplitCommits.dfy` drops the last two blocks and says exactly what they are worth.
- The monotonic clock does not go back. Times are integers, a day is `t / 86400`, and a trend
  request reads the clock once.
- Inside one message every lookup sees the rows the session added before it (autoflush). When a
  message is rejected its session is not committed, but the handler's own last commit may take the
  half-done session along; `flushed` covers both.
- On the agent, Trivy echoes the image name, disk writes succeed, and, except in `Overlap.dfy`,
  cycles and flushes do not overlap. `re`'s `\w` and `str.upper()` are taken on ASCII.

## Where the code does not keep the promise as stated

- One ACTIVE row per CVE and package does not survive user moves, because the scan lookup sees
  ACTIVE rows only: accept, rescan, revoke leaves two, and so do two acceptances of one key that
  expire together (`Lifecycle.JamIsReachable`, `Lifecycle.SweepJamIsReachable`). Scans of the
  container that list such a key are rejected until one lists none, which is stored and mends them
  (`Jams.JamLastsUntilCleared`). Uniqueness survives exactly the runs of
  `Lifecycle.RunKeepsActiveUniqueIff`. Misconfigurations are looked up among all rows that are not
  FIXED and have no such run (`Lifecycle.EveryUiRunIsConsistent`).
- The API accepts any status and any number of acceptances; the ledger holds under the conditions
  of `Lifecycle.PatchKeepsLedgerIff` and `Lifecycle.AcceptKeepsLedgerIff`, which the buttons of the
  UI respect.
- Delivery per image holds exactly for fleets whose names do not share a cache file
  (`Agent.NothingLostIff`); per file it always holds without overlap, and with overlap exactly
  under `Overlap.OverlapKeepsIff`.
- The age limit plus the period is not a bound on the age of scans once a cycle takes more than two
  seconds: the cycle's own time counts as well (`Freshness.FreshnessBoundIff`).
- The trend counts rows, so a key dropped and listed again on one day counts more than once
  (`DayCounts.DayCountIsKeysIff`). Its first day may fall short (`Trend.FirstDayExactIff`).
- The limit on failures is a cap exactly when the attempts of an IP do not overlap (`RateLimit.CapUnderOverlapIff`).
- Sorting images by scan time fails exactly under `Images.LastScannedSortFailsIff`.
- The comments of both migrations say that the oldest row of a group is kept. The statement keeps
  the least id, and ids are random; the two agree exactly under `Migrations.KeepsOldestIff`.
- A misconfiguration message looks its container up by tag as well, but the unique key has no tag
  (`db/models.py:85`): a named container known under another tag is refused
  (`Misconfigs.RefusedIffOtherTag`), and an unnamed one becomes ambiguous for its scans for good
  (`Jams.UnnamedTagChangeJams`). Uniqueness is therefore stated per container row.

## Model

| member | source | states |
|---|---|---|
| `Protocol.ProtocolSafety` | hub/src/trivyal_hub/ws/manager.py:69-199 | After every run of interleaved handlers, messages, failed sends and scan triggers: `active[a]` is the latest registration of `a`, its handler has not finished, it has a last-seen time, and once past its ONLINE commit the agent is not OFFLINE; an agent without a live handler is unregistered and OFFLINE |
| `Protocol.EveryRunIsSafe` | hub/src/trivyal_hub/ws/manager.py:115-199 | The invariant behind it holds along every run, from any state that has it |
| `Protocol.RegistryStep` | hub/src/trivyal_hub/ws/manager.py:69-83 | Every single step keeps the registry on the latest live registration |
| `Protocol.LogStep` | hub/src/trivyal_hub/ws/manager.py:69-73 | Every socket registers at most once, and for its own agent |
| `Protocol.StatusStep` | hub/src/trivyal_hub/ws/manager.py:115-119 | Every single step keeps the agent status right: an active receiving socket is not OFFLINE, no handler means OFFLINE |
| `Protocol.ReceivingIsNotOffline` | hub/src/trivyal_hub/ws/manager.py:190-199 | No step, late cleanups and late scan results included, takes an agent with a receiving registered socket OFFLINE |
| `Protocol.LastHandlerWritesOffline` | hub/src/trivyal_hub/ws/manager.py:189-199 | The last handler to finish writes OFFLINE |
| `Protocol.SupersededNeverReturns` | hub/src/trivyal_hub/ws/manager.py:70-76 | A superseded socket never becomes the active one again, however the run continues |
| `Protocol.LateCleanupIsHarmless` | hub/src/trivyal_hub/ws/manager.py:78-83 | Its cleanup, or a failed send on it, removes nothing, and writes no status while a replacement is registered |
| `SplitCommits.SplitRunIsRightIff` | hub/src/trivyal_hub/ws/manager.py:190-199 | With finally blocks and triggers split, and their commits arbitrarily late, over all runs from start-up: the status is right throughout if and only if no OFFLINE commit comes after the ONLINE commit of a still registered socket that followed its check, and no SCANNING commit comes after the finish of the last handler that followed its send |
| `SplitCommits.StepIsRightIff` | hub/src/trivyal_hub/ws/manager.py:190-199 | The same for one step, from any state the invariant allows |
| `SplitCommits.FinishCommitIsRightIff` | hub/src/trivyal_hub/ws/manager.py:195-199 | A pending OFFLINE commit does harm exactly when a still registered socket went online since the check that decided it |
| `SplitCommits.TriggerCommitIsRightIff` | hub/src/trivyal_hub/api/v1/scans.py:53-62 | A pending SCANNING commit does harm exactly when the last handler of the agent has finished since the send |
| `SplitCommits.PromptCommitsAreInTime` | hub/src/trivyal_hub/ws/manager.py:190-199 | A commit directly after its check or send is never overtaken, so the atomic blocks suffice |
| `SplitCommits.RegistryNeedsNoAtomicity` | hub/src/trivyal_hub/ws/manager.py:69-83 | The registry holds the latest live registration in every split run |
| `SplitCommits.LateOfflineIsReachable` | hub/src/trivyal_hub/ws/manager.py:190-199 | A run to the first failure: connected, yet shown OFFLINE |
| `SplitCommits.LateScanningIsReachable` | hub/src/trivyal_hub/api/v1/scans.py:53-62 | A run to the second: nobody connected, yet shown SCANNING |
| `Protocol.StatusChangesOnlyBy` | hub/src/trivyal_hub/ws/manager.py:115-199 | Which steps may write ONLINE, SCANNING and OFFLINE for an agent, and under what circumstances |
| `ProtocolHistory.HandlerIsHistory` | hub/src/trivyal_hub/ws/manager.py:99-199 | Along every run a handler is accepted, registered, receiving or finished, and belongs to its agent, exactly when the sequence of steps says so: which step opened its socket, and which took it through its phases since |
| `ProtocolHistory.RegistryIsHistory` | hub/src/trivyal_hub/ws/manager.py:69-97 | Along every run a socket is registered for an agent if and only if some step registered it and none since has registered another socket of the agent, finished its handler or failed a send on it |
| `ProtocolHistory.StatusIsLastEffect` | hub/src/trivyal_hub/ws/manager.py:115-199 | Along every run the status of an agent is what the last effective step wrote: ONLINE an ONLINE commit or a handled scan result, SCANNING a trigger that reached it, OFFLINE the last finish; OFFLINE before any |
| `ProtocolHistory.ScanningIff` | hub/src/trivyal_hub/ws/manager.py:153-165 | A connected agent is SCANNING if and only if a trigger reached it after its last ONLINE commit and its last handled scan result, and ONLINE otherwise |
| `ProtocolHistory.LastSeenIsLastContact` | hub/src/trivyal_hub/ws/manager.py:73-134 | The last-seen time of a registered agent is the moment of its last registration or last message |
| `SerialCommits.SerialRunsAreAtomic` | hub/src/trivyal_hub/api/v1/scans.py:53-62 | Every run of the atomic protocol is a run of the split one in which each commit follows at once, with the same registry, handlers and statuses and nothing left to commit |
| `ConnectionManagement.ConnectionManager.constructor` | hub/src/trivyal_hub/ws/manager.py:25-29 | Starts without connections and failures |
| `ConnectionManagement.ConnectionManager.Connect` | hub/src/trivyal_hub/ws/manager.py:69-76 | The new socket replaces any old one before the old one is handed back to be closed |
| `ConnectionManagement.ConnectionManager.Disconnect` | hub/src/trivyal_hub/ws/manager.py:78-83 | Unregisters an agent only through its registered socket |
| `ConnectionManagement.ConnectionManager.SendScanTrigger` | hub/src/trivyal_hub/ws/manager.py:85-97 | False and no change for an unknown agent; a failed send unregisters the socket it used, never one registered while it was awaited |
| `ConnectionManagement.ConnectionManager.MonitorAgentsOnce` | hub/src/trivyal_hub/ws/manager.py:220-228 | With any events at each close: closes only sockets no longer registered or whose agent was silent past the timeout when the pass began, and every socket that was stale then and stayed silent |
| `Registry.MonitorClosesOnlySilent` | hub/src/trivyal_hub/ws/manager.py:222-228 | The soundness half, for any snapshot order and any interleaving |
| `Registry.MonitorClosesEverySilent` | hub/src/trivyal_hub/ws/manager.py:222-228 | The completeness half |
| `Registry.OldStampMeansUntouched` | hub/src/trivyal_hub/ws/manager.py:73-134 | A last-seen time older than the pass proves that the agent was neither heard nor moved during it |
| `ConnectionManagement.ConnectionManager.IsRateLimited` | hub/src/trivyal_hub/ws/manager.py:31-37 | Under a monotonic clock true exactly when at least the limit of all failures ever recorded for the IP lie in the window, although the list is pruned; the check joins the log of attempts |
| `ConnectionManagement.ConnectionManager.RecordAuthFailure` | hub/src/trivyal_hub/ws/manager.py:39-41 | The failure joins the log of its IP, and the logs of all others stay as they are |
| `RateLimit.LimitedIff` | hub/src/trivyal_hub/ws/manager.py:31-37 | The same over every sequence of checks and failures |
| `RateLimit.PrunedListAgreesWithLog` | hub/src/trivyal_hub/ws/manager.py:36-41 | After any events, pruning the kept list and pruning the whole log give the same entries |
| `RateLimit.CheckKeepsWindow` | hub/src/trivyal_hub/ws/manager.py:31-37 | A check leaves exactly the failures of the IP that lie in the window, in order |
| `RateLimit.NoWindowExceedsLimit` | hub/src/trivyal_hub/ws/manager.py:103-113 | If every recorded failure follows its own passed check without overlap, no window of that length, wherever it ends, holds more than the limit |
| `RateLimit.CapUnderOverlapIff` | hub/src/trivyal_hub/ws/manager.py:103-113 | With at most m attempts of an IP under way at once, limit + m - 1 is exactly the number of failures a window can hold, for every limit, m and window of at least 1; so the limit itself is a cap if and only if m is 1 |
| `RateLimit.OverlapBoundsWindow` | hub/src/trivyal_hub/ws/manager.py:103-113 | The upper half, over all runs |
| `RateLimit.AllFail` | hub/src/trivyal_hub/ws/manager.py:103-113 | The lower half: a run that reaches it |
| `Heartbeat.HeartbeatSafeIff` | agent/src/trivyal_agent/ws/client.py:136-143 | For every interval, delay bound and timeout: no run lets either side time out if and only if 2 * delay < interval and interval + delay < timeout |
| `Heartbeat.RunKeepsInv` | agent/src/trivyal_agent/ws/client.py:256-264 | Along every timed run something is under way that arrives before each timer fires |
| `Heartbeat.SlowHubTimesOut` | hub/src/trivyal_hub/ws/manager.py:126-133 | With interval + delay >= timeout a run in which the hub drops the agent |
| `Heartbeat.SlowLinkTimesOut` | agent/src/trivyal_agent/ws/client.py:136-143 | With 2 * delay >= interval a run in which the agent drops the hub |
| `Common.ScalarOneOrNone` | hub/src/trivyal_hub/core/aggregator.py:36-44 | No row, the one matching row, or an error exactly when several rows match |
| `Store.SplitTag` | hub/src/trivyal_hub/core/aggregator.py:25-29 | Splits at the last colon: the parts joined again give the name, and the tag holds no colon |
| `Store.ScanReconciles` | hub/src/trivyal_hub/core/aggregator.py:60-139 | A scan is stored if and only if its container lookup is unambiguous and no listed key has several ACTIVE rows there; then ACTIVE keys are exactly the listed keys, one row each, whatever duplicates the payload has; every other row is unchanged; severity counts match the payload and sum to its length |
| `Store.ScanDecidesRows` | hub/src/trivyal_hub/core/aggregator.py:70-137 | Every column of every finding row after a stored scan, from the payload alone: refreshed, FIXED or untouched; a new row is the first listing of its key; the last non-empty description wins |
| `Store.ScanRefreshesContainer` | hub/src/trivyal_hub/core/aggregator.py:36-57 | The container row carries the name, tag and time of the report, and its digest unless the report has none |
| `Store.ScanTouchesOnlyItsContainer` | hub/src/trivyal_hub/core/aggregator.py:45-57 | No other container, misconfiguration or acceptance changes, and every reference resolves |
| `Store.IngestUpserts` | hub/src/trivyal_hub/core/aggregator.py:98-121 | The upsert loop never fails on unambiguous keys, duplicates included, because each lookup sees the rows added before it |
| `Store.IngestIsExact` | hub/src/trivyal_hub/core/aggregator.py:98-121 | Which rows the upsert loop leaves, column by column |
| `Store.IngestFails` | hub/src/trivyal_hub/core/aggregator.py:103-113 | One ambiguous key anywhere in the payload stops the whole message |
| `Store.LeftoverIsConsistent` | hub/src/trivyal_hub/core/aggregator.py:45-121 | What a stopped message leaves in the session changes no status of an existing row and no other table, and its references resolve |
| `Store.TallyBySeverity` | hub/src/trivyal_hub/core/aggregator.py:64-69 | Each severity column counts the listed vulnerabilities of that severity |
| `Store.SeverityNamedIff` | hub/src/trivyal_hub/core/aggregator.py:66-68 | A name gives the severity whose name it spells, letter by letter in any case, and the default if and only if it spells none of the five |
| `Store.RatedIff` | hub/src/trivyal_hub/core/misconfig_aggregator.py:62-64 | The severity an entry gets, a missing name included: UNKNOWN for a vulnerability, MEDIUM for a misconfiguration |
| `Columns.ScanWritesColumns` | hub/src/trivyal_hub/core/aggregator.py:70-137 | In terms of the payload fields, defaults included: which rows a stored scan refreshes, fixes or leaves, and every column of a new row from the first entry about it, its severity from the name that entry spells |
| `Columns.ScanAddsIff` | hub/src/trivyal_hub/core/aggregator.py:98-121 | A row for a vulnerability and package is added if and only if the scan mentions them and the container had no ACTIVE row of them |
| `Columns.ScanPicksContainer` | hub/src/trivyal_hub/core/aggregator.py:36-57 | The scan goes to the row with its agent, image and name, and adds one if and only if there is none |
| `Leftovers.RejectedScanLeaves` | hub/src/trivyal_hub/core/aggregator.py:45-121 | A rejected scan changes nothing unless the closing connection commits; then it leaves its container, its scan row with all counts, and exactly the rows of the entries before the first ambiguous one |
| `HubStorage.HubStore.CollectFindings` | hub/src/trivyal_hub/core/aggregator.py:63-81 | The nested loops list every vulnerability of every block, in order, and count it under its severity |
| `HubStorage.HubStore.UpsertFinding` | hub/src/trivyal_hub/core/aggregator.py:103-121 | One lookup and its three outcomes |
| `HubStorage.HubStore.UpsertFindings` | hub/src/trivyal_hub/core/aggregator.py:98-121 | The loop: rows and listed keys, or the state in which it stopped |
| `HubStorage.HubStore.FixMissing` | hub/src/trivyal_hub/core/aggregator.py:124-137 | Exactly the ACTIVE rows of the container with an unlisted key become FIXED now |
| `HubStorage.HubStore.UpsertContainer` | hub/src/trivyal_hub/core/aggregator.py:36-57 | Finds or inserts the container and refreshes its scan columns |
| `HubStorage.HubStore.ProcessScanResult` | hub/src/trivyal_hub/core/aggregator.py:16-141 | The whole message: the new tables, or an error that changes nothing unless the closing connection commits the session |
| `Misconfigs.MisconfigReconciles` | hub/src/trivyal_hub/core/misconfig_aggregator.py:60-103 | A message is stored if and only if its container is accepted and no reported check has several live rows; then each old row has the stated fate, each reported check exactly one live row, and no container and check gains a second |
| `Misconfigs.MisconfigDecidesRows` | hub/src/trivyal_hub/core/misconfig_aggregator.py:34-91 | The container row it uses or adds, the first entry of a repeated check as the new row, and nothing else |
| `Columns.MisconfigWritesColumns` | hub/src/trivyal_hub/core/misconfig_aggregator.py:60-103 | In terms of the payload fields, defaults included: which rows a stored message refreshes, fixes or leaves, and every column of a new row |
| `Columns.MisconfigAddsIff` | hub/src/trivyal_hub/core/misconfig_aggregator.py:69-91 | A row for a check is added if and only if the message reports it and the container had no row of it that is not FIXED |
| `Columns.MisconfigPicksContainer` | hub/src/trivyal_hub/core/misconfig_aggregator.py:34-54 | The message goes to the row with its agent, image, tag and name, and adds one, never scanned, if and only if there is none |
| `Leftovers.RejectedResultLeaves` | hub/src/trivyal_hub/core/misconfig_aggregator.py:46-91 | A rejected message changes nothing unless the closing connection commits; then it leaves its container and the rows of the entries before the first ambiguous check |
| `Misconfigs.IngestInsertsFirst` | hub/src/trivyal_hub/core/misconfig_aggregator.py:60-91 | Repeated checks insert their first entry only |
| `Misconfigs.IngestFails` | hub/src/trivyal_hub/core/misconfig_aggregator.py:69-74 | One ambiguous check anywhere stops the whole message |
| `Misconfigs.RefusedIffOtherTag` | hub/src/trivyal_hub/core/misconfig_aggregator.py:36-54 | A message about a named container is refused if and only if the hub knows that container under another tag |
| `Misconfigs.TagChangeRefusedIff` | hub/src/trivyal_hub/core/misconfig_aggregator.py:36-54 | After any stored scan, a message of the same container under another tag finds no row, and is refused if and only if the container has a name |
| `Misconfigs.UnnamedTagChangeSplits` | hub/src/trivyal_hub/core/misconfig_aggregator.py:36-54 | Without a name it adds a second row of the container |
| `Jams.UnnamedTagChangeJams` | hub/src/trivyal_hub/core/misconfig_aggregator.py:36-54 | From then on, whatever messages, moves and sweeps follow, every scan of that container is rejected |
| `Jams.TwoRowsReject` | hub/src/trivyal_hub/core/aggregator.py:36-44 | As for any container with two rows: nothing the hub does ends it |
| `Lifecycle.TagChangeIsRefused` | hub/src/trivyal_hub/core/misconfig_aggregator.py:36-54 | A run from an empty hub to the refusal |
| `HubStorage.HubStore.UpsertMisconfigs` | hub/src/trivyal_hub/core/misconfig_aggregator.py:57-91 | The loop: rows and reported checks, or the state in which it stopped |
| `HubStorage.HubStore.FixMissingChecks` | hub/src/trivyal_hub/core/misconfig_aggregator.py:94-103 | Exactly the ACTIVE rows of the container with an unreported check become FIXED now |
| `HubStorage.HubStore.ProcessMisconfigResult` | hub/src/trivyal_hub/core/misconfig_aggregator.py:15-108 | The whole message, its container lookup by tag and the unique key included |
| `Lifecycle.EveryUiRunIsConsistent` | hub/src/trivyal_hub/api/v1/findings.py:147-235 | Over every run of messages, guarded user moves, revocations and sweeps from an empty hub: a finding or misconfiguration is ACCEPTED exactly while it has one acceptance row and otherwise has none, and the misconfiguration lookup is never ambiguous |
| `Lifecycle.RunKeepsInv` | ui/src/features/priorities/components/MisconfigDetailDialog.tsx:97 | The same along every guarded run from any consistent hub |
| `Lifecycle.ScanStep` | hub/src/trivyal_hub/core/aggregator.py:60-139 | Scans keep the acceptance ledger, live uniqueness and references, stored or rejected |
| `Lifecycle.MisconfigStep` | hub/src/trivyal_hub/core/misconfig_aggregator.py:60-103 | Misconfiguration messages keep them, repeated checks included |
| `Lifecycle.RevokeStep` | hub/src/trivyal_hub/api/v1/findings.py:220-235 | Revocation keeps them |
| `Lifecycle.SweepStep` | hub/src/trivyal_hub/core/acceptance_expiry.py:16-45 | The expiry sweep keeps them |
| `Lifecycle.SweepIsRevocations` | hub/src/trivyal_hub/core/acceptance_expiry.py:23-40 | The sweep is the same as revoking every expired acceptance through the API, in any order |
| `Lifecycle.SweepIsComplete` | hub/src/trivyal_hub/core/acceptance_expiry.py:23-40 | Afterwards exactly the unexpired acceptances are left, unchanged, and sweeping again up to that time changes nothing |
| `RowHistory.AcceptanceIsHistory` | hub/src/trivyal_hub/api/v1/findings.py:170-235 | Over any run of events whatsoever: an acceptance row exists, with its subject, reason and expiry, if and only if it was granted so and has been neither revoked nor swept after its expiry since |
| `RowHistory.StatusIsLastEffect` | hub/src/trivyal_hub/api/v1/findings.py:147-235 | Over any run of events whatsoever a finding or misconfiguration keeps its identity columns, and its status is what the last event with an effect on it wrote |
| `RowHistory.EveryEventHasEffect` | hub/src/trivyal_hub/core/acceptance_expiry.py:29-40 | The one-step form: acceptance gives ACCEPTED, a status change its status, revocation or expiry of one of its acceptances ACTIVE, a stored message of its container that no longer lists it FIXED if it was ACTIVE, and nothing else changes it |
| `Lifecycle.PatchKeepsLedgerIff` | hub/src/trivyal_hub/api/v1/findings.py:147-158 | The unguarded status change keeps the ledger right if and only if it neither enters nor leaves ACCEPTED |
| `Lifecycle.AcceptKeepsLedgerIff` | hub/src/trivyal_hub/api/v1/findings.py:170-187 | The unguarded acceptance keeps it right if and only if the subject is not ACCEPTED already |
| `Lifecycle.LiveStatusKeepsUniqueIff` | hub/src/trivyal_hub/api/v1/misconfigurations.py:129-140 | A status change of a misconfiguration keeps live rows unique if and only if it is to FIXED or the row has no live sibling |
| `Lifecycle.RunKeepsActiveUniqueIff` | ui/src/pages/FindingDetail.tsx:88-90 | Over every guarded run: at most one ACTIVE row per key and container holds throughout if and only if every revocation, reopening and sweep meets its condition in the state before it; then no scan with an unambiguous container is rejected |
| `Lifecycle.StepKeepsActiveUniqueIff` | hub/src/trivyal_hub/api/v1/findings.py:147-235 | The same for one message, move or sweep |
| `Lifecycle.ReactivateKeepsUniqueIff` | hub/src/trivyal_hub/api/v1/findings.py:231-233 | Reactivating one CVE row keeps ACTIVE rows unique if and only if its key has no other ACTIVE row on the container |
| `Lifecycle.SweepKeepsActiveUniqueIff` | hub/src/trivyal_hub/core/acceptance_expiry.py:23-40 | The sweep keeps them unique if and only if every key of a container has at most one row that is ACTIVE or about to expire |
| `Lifecycle.TwoExpiriesBreak` | hub/src/trivyal_hub/core/acceptance_expiry.py:29-40 | Two expired acceptances of one key break it, although neither row has an ACTIVE sibling |
| `Lifecycle.ActiveUniqueIffScansStored` | hub/src/trivyal_hub/core/aggregator.py:103-113 | A hub with distinct containers stores every possible scan if and only if no key has two ACTIVE rows |
| `Lifecycle.ScanKeepsActiveUnique` | hub/src/trivyal_hub/core/aggregator.py:103-121 | A stored scan never creates a second ACTIVE row of a key on any container |
| `Lifecycle.AcceptRescanRevokeJams` | hub/src/trivyal_hub/core/aggregator.py:110 | Accept, a scan listing the key, revoke: two ACTIVE rows, after which every scan of that container listing the key is rejected |
| `Lifecycle.JamIsReachable` | ui/src/pages/FindingDetail.tsx:88-90 | The guarded moves alone reach this from an empty hub, for any report with a vulnerability, and the next scan is rejected |
| `Lifecycle.SweepJamIsReachable` | hub/src/trivyal_hub/core/acceptance_expiry.py:29-40 | So do two acceptances that expire together, and the next scan is rejected |
| `Jams.JamLastsUntilCleared` | hub/src/trivyal_hub/core/aggregator.py:103-137 | Over any run of messages from any consistent hub: the keys with two ACTIVE rows on a container stay exactly the same until a scan of it lists none of them, which mends them all for good; so the container ends unambiguous if and only if it began so or such a scan has come |
| `Jams.JammedScanStoredIff` | hub/src/trivyal_hub/core/aggregator.py:103-113 | Until then a scan of the container is stored if and only if it lists none of those keys |
| `Jams.IngestKeepsTwins` | hub/src/trivyal_hub/core/aggregator.py:98-121 | Stopped or not, the upsert loop neither makes nor mends a pair of ACTIVE rows, on any container |
| `HubStorage.HubStore.ExpireStaleAcceptances` | hub/src/trivyal_hub/core/acceptance_expiry.py:16-45 | The loop, in whatever order the rows come, against the sweep, and the number it returns |
| `HubStorage.HubStore.UpdateStatus` | hub/src/trivyal_hub/api/v1/findings.py:147-160 | Sets the status, or reports not found and changes nothing |
| `HubStorage.HubStore.CreateAcceptance` | hub/src/trivyal_hub/api/v1/misconfigurations.py:152-170 | Adds one acceptance and marks the subject ACCEPTED, or reports not found |
| `HubStorage.HubStore.RevokeAcceptance` | hub/src/trivyal_hub/api/v1/misconfigurations.py:187-202 | Deletes the acceptance of this subject and reactivates it; refuses the acceptance of another subject |
| `History.IntervalsEncodeHistory` | hub/src/trivyal_hub/core/aggregator.py:97-137 | After any run of scan and misconfiguration messages in which the scans of one container come at increasing times: at every instant strictly between two scans of a container, or after its last, the rows selected by first_seen and last_seen are exactly the keys of the latest earlier scan, one row each; the log holds all scans of named containers |
| `History.NamedScanIsStored` | hub/src/trivyal_hub/core/misconfig_aggregator.py:34-54 | After any such run, in whatever order and at whatever times, the container lookup of a scan of a named container is unambiguous and the scan is stored |
| `History.TrendCountsHistory` | hub/src/trivyal_hub/api/v1/insights.py:179-183 | The keys the trend counts on a day for a container are exactly those listed by a scan of that day or by the scan in force when the day began |
| `DayCounts.DayCountIsKeysIff` | hub/src/trivyal_hub/api/v1/insights.py:179-183 | The trend counts rows: on a day and for a container as many as distinct keys if and only if no key was dropped by one scan and listed by a later one of that day |
| `DayCounts.CountedTwiceIff` | hub/src/trivyal_hub/api/v1/insights.py:179-183 | The same for one key: it has two counted rows exactly in that case |
| `DayCounts.RowsApart` | hub/src/trivyal_hub/core/aggregator.py:103-137 | Of two rows of a key on a container one was fixed before the other began |
| `History.ReplayKeepsInv` | hub/src/trivyal_hub/core/aggregator.py:97-139 | The picture of every earlier scan survives all later messages |
| `History.EarlierPictureStays` | hub/src/trivyal_hub/core/aggregator.py:134-136 | One scan disturbs neither the pictures of other containers nor its own earlier ones |
| `History.NewPicture` | hub/src/trivyal_hub/core/aggregator.py:99-136 | At its own time a scan leaves exactly the picture it listed |
| `Trend.DayRange` | hub/src/trivyal_hub/api/v1/insights.py:70-78 | window + 1 consecutive days ending today |
| `Trend.GetTrend` | hub/src/trivyal_hub/api/v1/insights.py:141-197 | One point per day; every severity count equals the count over the whole table on every day after the first, and never exceeds it on the first |
| `Trend.GetAgentsTrend` | hub/src/trivyal_hub/api/v1/insights.py:200-261 | The same per agent |
| `Trend.CountSeverities` | hub/src/trivyal_hub/api/v1/insights.py:178-192 | The inner loop counts four severities of the rows open on the day |
| `Trend.SeverityCountIsNumber` | hub/src/trivyal_hub/api/v1/insights.py:178-192 | The count of a severity on a day is the number of rows of that severity that were there by the end of the day and not resolved before its beginning |
| `Trend.AgentCountIsNumber` | hub/src/trivyal_hub/api/v1/insights.py:243-255 | The same for the rows of an agent |
| `Trend.FilterAccounts` | hub/src/trivyal_hub/api/v1/insights.py:150-159 | The whole-table count is the filtered count plus the open rows the prefilter drops |
| `Trend.NothingHiddenLater` | hub/src/trivyal_hub/api/v1/insights.py:154-157 | The prefilter drops no row that is open on a day after the first |
| `Trend.FirstDayExactIff` | hub/src/trivyal_hub/api/v1/insights.py:148-159 | The first day is exact if and only if no row of the bucket was resolved on that day before the window opened |
| `Images.CountsAreConserved` | hub/src/trivyal_hub/api/v1/images.py:29-119 | With or without the agent filter, totals and fixable counts summed over the groups are the active and fixable findings of the listed containers, and the dashboard counts when all are listed; the fixable filter does not change the latter |
| `Images.PagesConserve` | hub/src/trivyal_hub/api/v1/images.py:121-136 | In whatever order the results are sorted, the pages add up to those counts and hold every listed container once |
| `Images.ContainersArePartitioned` | hub/src/trivyal_hub/api/v1/images.py:35-54 | One group per image and tag, and every container in exactly one of them |
| `Images.ImageAddsUp` | hub/src/trivyal_hub/api/v1/images.py:100-118 | The severity breakdown of a group sums to its total, which bounds its fixable count; its scan time is the latest of its members |
| `ImageColumns.ListingByColumns` | hub/src/trivyal_hub/api/v1/images.py:36-119 | Every container has exactly one listed image with its name and tag; an image has exactly the containers with its name and tag, their number, agents, latest scan time and last digest, and its total, fixable and severity counts are the numbers of their findings |
| `ImageColumns.SharesImageIff` | hub/src/trivyal_hub/api/v1/images.py:38 | Two containers share an image if and only if name and tag agree |
| `ImageColumns.FilterKeepsFixable` | hub/src/trivyal_hub/api/v1/images.py:97-98 | The fixable filter removes exactly the images without a fixable finding and keeps the order |
| `Images.GroupSummarisesMembers` | hub/src/trivyal_hub/api/v1/images.py:37-54 | A group holds exactly its containers, each agent under its last name, the latest scan time and the last digest |
| `Images.RestrictKeepsCounts` | hub/src/trivyal_hub/api/v1/images.py:70-72 | The IN condition changes no count of a listed group |
| `Images.PagesCoverResults` | hub/src/trivyal_hub/api/v1/images.py:134-136 | Walking the pages visits the results once, in order |
| `Images.LastScannedSortFailsIff` | hub/src/trivyal_hub/api/v1/images.py:122-130 | Sorting by scan time fails, whatever pairs the sort compares, if and only if some container has been scanned and all containers of some image and tag have not |
| `Images.SortFailsIff` | hub/src/trivyal_hub/api/v1/images.py:122-130 | For any list of results: if and only if it holds a scanned and a never scanned group |
| `Images.GroupContainers` | hub/src/trivyal_hub/api/v1/images.py:36-54 | The grouping loop |
| `Images.InvertGroups` | hub/src/trivyal_hub/api/v1/images.py:75-78 | The inverse map from container to group |
| `Images.FiledIsKeyMap` | hub/src/trivyal_hub/api/v1/images.py:75-84 | It maps every container to its own image and tag, and nothing else |
| `Images.CountFindings` | hub/src/trivyal_hub/api/v1/images.py:80-90 | The counting loop agrees with counting each group separately; a group without findings counts zero |
| `Images.BuildResults` | hub/src/trivyal_hub/api/v1/images.py:93-119 | The results loop, with and without the fixable filter |
| `Images.ListImages` | hub/src/trivyal_hub/api/v1/images.py:29-119 | The endpoint up to its sort |
| `Agent.NothingLostIff` | agent/src/trivyal_agent/ws/client.py:205-252 | Over all runs of serial cycles, reconnects and flushes with arbitrary send failures and within a fleet of image names: every saved result has been delivered since, is still cached, or was replaced by a newer result of the same image, if and only if no two images of the fleet share a cache file |
| `Agent.AtLeastOncePerFile` | agent/src/trivyal_agent/core/cache.py:24-48 | For any image names: delivered since it was saved, still cached, or overwritten in its file by a newer result |
| `Agent.RunIsSound` | agent/src/trivyal_agent/core/cache.py:24-110 | In every run each cached entry is the last result saved into its file, and the last result of each file is delivered or cached |
| `Agent.FlushKeepsSound` | agent/src/trivyal_agent/ws/client.py:239-252 | A flush that fails for any subset of entries only removes entries it delivered |
| `AgentHistory.CycleSavesExactly` | agent/src/trivyal_agent/ws/client.py:177-211 | A cycle saves, under the name of the first container listed for an image, the report of every scan that succeeds of an image without a young cached result of its current digest, and nothing else |
| `AgentHistory.FlushSends` | agent/src/trivyal_agent/ws/client.py:239-252 | A flush sends exactly the listed entries that get through |
| `AgentHistory.FlushClears` | agent/src/trivyal_agent/ws/client.py:239-252 | It clears exactly those and alters no other entry |
| `Agent.SameFileIff` | agent/src/trivyal_agent/core/cache.py:16-21 | Two image names share a cache file if and only if their first 200 characters are as many and at each position equal or both other than letter, digit, dot and dash |
| `Agent.PlainFleetLosesNothing` | agent/src/trivyal_agent/core/cache.py:16-48 | Over a fleet whose names have at most 200 letters, digits, dots, dashes and underscores nothing is ever lost |
| `Agent.SlashAndUnderscoreCollide` | agent/src/trivyal_agent/core/cache.py:16-21 | A slash and an underscore anywhere in a name give the same file, so such a pair of images has the failing run |
| `Overlap.OverlapKeepsIff` | agent/src/trivyal_agent/ws/client.py:150-155 | With the saves of any number of cycles interleaved into a flush, over all runs: the newest result of every file stays delivered or cached throughout if and only if no entry is cleared after a newer undelivered result has landed in its file since the snapshot |
| `Overlap.StepKeepsIff` | agent/src/trivyal_agent/ws/client.py:239-252 | The same for one step |
| `Overlap.QuietFlush` | agent/src/trivyal_agent/ws/client.py:239-252 | A flush during which nothing is saved loses nothing |
| `Overlap.EntryHandledOnce` | agent/src/trivyal_agent/ws/client.py:239-252 | An entry is sent and cleared at most once per flush, whatever became of it |
| `Overlap.QuietFlushIsFlush` | agent/src/trivyal_agent/ws/client.py:239-252 | Its steps amount to the flush of the serial agent and handle exactly the entries they list |
| `Overlap.RescanIsLost` | agent/src/trivyal_agent/ws/client.py:241-250 | A run to the loss, for any image |
| `Freshness.FreshnessBoundIff` | agent/src/trivyal_agent/ws/client.py:177-213 | Over all timed runs with cycle starts at most `period` apart and results within `delay` of their cycle, whatever flushes clear, counting only scans finished by then: the greatest age of the newest scan of a running image, in whole seconds, is exactly limit + period + delay - 2 (a limit of zero days counting as one second), so a bound holds if and only if it is at least that |
| `Freshness.AgeBound` | agent/src/trivyal_agent/ws/client.py:177-213 | The upper half, at every instant after the first finished scan |
| `Freshness.WorstAgeIsReached` | agent/src/trivyal_agent/ws/client.py:187-213 | The lower half: a serial run and an instant of that age, for every setting |
| `Freshness.CycleLeavesScan` | agent/src/trivyal_agent/ws/client.py:187-213 | A cycle leaves a scan within the limit of its start, its own or the one it skipped for |
| `Freshness.SkippedImageIsFresh` | agent/src/trivyal_agent/ws/client.py:189-198 | A skipped image has a cached result with its current non-empty digest, younger than the age limit |
| `Freshness.SkippedWasScanned` | agent/src/trivyal_agent/core/cache.py:51-75 | That result is a scan of the image itself when no two images share a file |
| `Agent.FirstContainerWins` | agent/src/trivyal_agent/ws/client.py:177-185 | An image is represented by the first container listed for it |
| `AgentClientLoop.AgentClient.Deduplicate` | agent/src/trivyal_agent/ws/client.py:177-185 | The two maps and the name list agree with the deduplicated rows |
| `AgentClientLoop.AgentClient.SelectImages` | agent/src/trivyal_agent/ws/client.py:187-198 | Exactly the images that are new, changed, without digest or stale, in order |
| `AgentClientLoop.AgentClient.ScanImages` | agent/src/trivyal_agent/ws/client.py:205-211 | Each result is saved before it is sent |
| `AgentClientLoop.AgentClient.RunScanCycle` | agent/src/trivyal_agent/ws/client.py:164-213 | One cycle |
| `AgentClientLoop.AgentClient.FlushCache` | agent/src/trivyal_agent/ws/client.py:239-252 | One flush, in whatever order the directory lists its files |
| `Migrations.UpgradesCompose` | hub/src/trivyal_hub/db/migrations/versions/0003_unique_container_agent_image.py:26-58 | 0003 then 0004 leaves the same rows in all five tables as 0004 alone, from any database |
| `Migrations.UpgradeIsRestriction` | hub/src/trivyal_hub/db/migrations/versions/0004_container_identity_drop_tag.py:27-53 | The six ordered deletes remove a row exactly when its references end at a container that is not kept |
| `Duplicates.ContainerDeletedIff` | hub/src/trivyal_hub/db/migrations/versions/0004_container_identity_drop_tag.py:24 | A container is deleted if and only if a row with a lesser id has the same agent, image and name, and for 0003 the same tag; the others keep all columns |
| `Duplicates.ScanDeletedIff` | hub/src/trivyal_hub/db/migrations/versions/0004_container_identity_drop_tag.py:41 | A scan is deleted if and only if its container has such an elder, and no other scan changes |
| `Duplicates.FindingDeletedIff` | hub/src/trivyal_hub/db/migrations/versions/0004_container_identity_drop_tag.py:37-40 | The same for findings |
| `Duplicates.MisconfigDeletedIff` | hub/src/trivyal_hub/db/migrations/versions/0004_container_identity_drop_tag.py:50 | The same for misconfigurations |
| `Duplicates.AcceptanceDeletedIff` | hub/src/trivyal_hub/db/migrations/versions/0004_container_identity_drop_tag.py:29-49 | An acceptance is deleted if and only if its finding or its misconfiguration is |
| `Duplicates.ColumnsAreUnique` | hub/src/trivyal_hub/db/migrations/versions/0004_container_identity_drop_tag.py:53-60 | No two rows left agree on agent, image and name, and after 0003 none on these and the tag |
| `Migrations.UpgradeKeepsIntegrity` | hub/src/trivyal_hub/db/migrations/versions/0004_container_identity_drop_tag.py:27-53 | From a database without dangling references: none afterwards, exactly one container per group with NULLs equal, and no row of a kept container lost or changed |
| `Migrations.KeepComposes` | hub/src/trivyal_hub/db/migrations/versions/0004_container_identity_drop_tag.py:24 | The minimum of a coarse group survives the finer grouping and is still its minimum afterwards |
| `Migrations.GroupMinimum` | hub/src/trivyal_hub/db/migrations/versions/0003_unique_container_agent_image.py:26 | Every group has a kept row |
| `Migrations.KeepsOldestIff` | hub/src/trivyal_hub/db/migrations/versions/0004_container_identity_drop_tag.py:23-53 | A migration keeps the oldest row of every group if and only if no group holds a row older than its least-id row before it |
| `Migrations.BothKeepOldestIff` | hub/src/trivyal_hub/db/migrations/versions/0003_unique_container_agent_image.py:26-58 | 0003 followed by 0004 keeps the oldest rows if and only if 0004 alone would |
| `Migrations.OldestStepByStep` | hub/src/trivyal_hub/db/migrations/versions/0003_unique_container_agent_image.py:26-58 | Which is the case when each keeps the oldest of what it finds |
| `Migrations.LeastIdIsNotOldest` | hub/src/trivyal_hub/db/migrations/versions/0004_container_identity_drop_tag.py:23-24 | The condition is not always met |
| `Migrations.Database.UpgradeRows` | hub/src/trivyal_hub/db/migrations/versions/0003_unique_container_agent_image.py:29-58 | The statements in their order, each reading what its predecessors left |
| `Migrations.Database.UpgradeBoth` | hub/src/trivyal_hub/db/migrations/versions/0004_container_identity_drop_tag.py:27-53 | Both migrations on one database |

## Left out

- Protocol.ProtocolSafety: a finally block, and a trigger's send with its SCANNING commit, are one step each; `SplitCommits.SplitRunIsRightIff` covers the runs in which they are not.
- Images.ListImages: stops before `results.sort`; `Images.PagesConserve` covers every order and `Images.LastScannedSortFailsIff` the sort's one error, but not which order a sort key gives.
- Agent.RunIsSound: unreadable or corrupt cache files, old cache formats and failed disk writes are not modelled.
- Trend.GetTrend: the `scan_events` list of the response, a filtered and ordered query, is not modelled.
- Trend.GetAgentsTrend: the same list is not modelled.
- Agent.NothingLostIff: covers serial runs; overlapping ones are in `Overlap.OverlapKeepsIff`, per file and with the outcome of a result's own send known when it is saved.
- AgentClientLoop.AgentClient.RunScanCycle: sending misconfiguration results, which are never cached or repeated, is not modelled.
- Lifecycle.Accept: an acceptance refers to a finding or to a misconfiguration; rows with both references or neither, which no endpoint writes, occur only in `Migrations.dfy`.
- History.IntervalsEncodeHistory: covers runs of messages; user moves overwrite the status that the intervals need.
- Choosing the digest from `RepoDigests`: the report's digest is an input.
- Deletion of agents with its database cascades, agent registration and the authentication endpoints: single-row operations.
- SQL list, filter and page endpoints, dashboard summaries and top CVEs: plain queries.
- Step 3 of each migration and the downgrades: constraint definitions without row changes.
- Ed25519 challenges, token hashes and the machine fingerprint with its comparison at the hub: foreign cryptography and file access.
- WebSocket transport, Docker socket, Trivy process, cron schedule and health server: inputs and outcomes only.
- The misconfiguration rule table, backoff jitter, time zones, and the React UI beyond its button guards.
