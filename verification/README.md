# Mindweft: verified models of its stateful cores

Mindweft is a service that runs chat agents for many tenants. This project models the parts of it
that keep state, cache, transform or search, and proves what they promise. SQL tables are maps, one
SQL transaction is one atomic step, an `await` is a point where other parties may act, and JSON is
a recursive datatype whose objects keep their insertion order.

| part | files |
|---|---|
| Attachment stores: quotas, reference counts, expiry, statistics, key rotation; the SQLite store refines the in-memory one | `Attachment*.dfy`, `Sums.dfy` |
| Stored timestamps and their text order | `Timestamps.dfy`, `Texts.dfy` |
| Versioned tenant configurations, connection checks, optimistic credential replacement | `ConfigStore.dfy` |
| The caching execution resolver over that store | `ExecutionResolver.dfy` |
| The MCP connection manager and its generation number | `McpManager.dfy` |
| The deprovisioning work queue | `DeprovisioningQueue.dfy` |
| Catalog access and the lock-out check | `CatalogAccess.dfy` |
| Redacting and restoring secrets | `Redaction.dfy`, `Json.dfy` |
| Streamed responses: line framing and the event accumulator | `SseFraming.dfy`, `SseAccumulator.dfy` |
| Tool names, history pruning, reasoning-only continuation | `ToolNames.dfy`, `HistoryPruning.dfy`, `ResponsesContinuation.dfy` |
| Tenant slugs and the seed plan | `SeedSlugs.dfy`, `Decimal.dfy` |
| Image headers | `JpegScanner.dfy`, `ImageHeaders.dfy`, `Bytes.dfy` |
| Shared: options and results, finite sets | `Wrappers.dfy`, `Sets.dfy` |

Where the program changes state, a class has its fields and each method is proved equal to a step
function on values (`Step`, `Take`, `Apply`); the properties of runs are lemmas about those step
functions. Loops over local variables are methods proved equal to a recursive function, and the
lemmas say what that function means.

## Where the code differs from what one would expect

Each of these is stated by a lemma below; it, or the one beside it, says when the expected property
holds and when it fails.

- An in-memory `put` within the limits whose time-to-live is refused (less than 1, or beyond the
  calendar) raises only after it has written the record, so the three dictionaries fall out of step
  and the tenant's statistics raise until that record is deleted or put again. The SQLite store
  raises before its transaction.
- An in-memory `put` under an identifier that exists overwrites; the SQLite store raises.
- A forced re-check of a connected MCP server changes the registries built from a snapshot while it
  is pending, without changing the generation number that the resolvers trust.
- Deleting a configuration restarts its version at 1. A compare-and-set can then overwrite an update
  it never read, and a default configuration that is deleted and written again is served stale to
  the tenants that use the default, although deleting invalidates the deleted key.
- Restoring a redacted list with two items of one name gives both the secret of the last.
- The lock-out check looks at the first 500 users only. It never lets a lock-out through, but it
  refuses harmless calls when the only privileged user comes later.
- Changes of users are guarded by the rule that an active owner remains, which does not keep access:
  of two active owners the only one with an assignment can be suspended. The deprovisioning worker
  removes assignments without a check, which matters when the user is privileged again by then.
- A line end other than a newline inside a line, such as a raw U+2028 in a JSON string, splits the
  line for the reader of the complete body but not for the stream: the complete body loses the delta
  of such a line, or gains one from a piece of it. Line ends around the text of a line do no harm.
- The deprovisioning worker caps its retry delay at an hour, which it never reaches: the delay stops
  doubling at 2,048 seconds. A manual retry keeps the attempts, so an event that was given up is
  given up again at its next failure.
- A `response.reasoning_summary_part.added` event for an item whose `summary` is not a list raises
  `AttributeError`; the accumulator returns nothing there.

## Model

| member | source | states |
|---|---|---|
| `Timestamps.TextOrderIsChronological` | app/attachments.py:775-784 | lexicographic order of the stored ISO 8601 texts, with the optional six-digit fraction, is chronological order over all timestamps of years 1 to 9999 |
| `Timestamps.ParseIsoRoundTrip` | app/attachments.py:820-822 | reading a stored timestamp back gives the moment that was written |
| `Timestamps.IsoShape` | app/attachments.py:775-784 | the stored text has year, month, day, hour, minute, second and an optional fraction at the fixed places of the extended ISO 8601 format |
| `Timestamps.KnownYears` | app/attachments.py:871-876 | the calendar in which moments are counted is the Gregorian one: its year, leap year, century and 400-year cycle |
| `AttachmentMemory.InStepExactly` | app/attachments.py:220-265 | an operation keeps the three dictionaries on one key set exactly unless it puts a new key within its limits with a time-to-live that is refused |
| `AttachmentMemory.RefusedTtlBreaksStatistics` | app/attachments.py:249-264 | from any store in step, a put makes a tenant's statistics raise exactly when it is such a put of that tenant |
| `AttachmentMemory.StatisticsFailExactly` | app/attachments.py:337-375 | statistics raise exactly while some record of the tenant has no expiry |
| `AttachmentMemory.PartialEndsExactly` | app/attachments.py:306-395 | such a record stays, cleanup included, exactly until it is deleted, alone or with its thread, or its key is put successfully |
| `AttachmentMemory.InMemoryAttachmentStore.Put` | app/attachments.py:220-265 | the three dictionaries after a put, and its result, are those of the put step, including the partial write of a refused time-to-live |
| `AttachmentMemory.InMemoryAttachmentStore.DeleteKeys` | app/attachments.py:377-380 | deleting keys one at a time removes exactly those keys from all three dictionaries |
| `AttachmentMemory.InMemoryAttachmentStore.DeleteExpiredPending` | app/attachments.py:314-335 | cleanup removes exactly the expired pending keys and reports their count and bytes |
| `AttachmentMemory.InMemoryAttachmentStore.ReadStatistics` | app/attachments.py:337-375 | the one-pass loop with nine running variables computes the totals of each class and the oldest pending time |
| `AttachmentSqlite.SQLiteAttachmentStore.Put` | app/attachments.py:499-581 | the table after a put and its result: expiry first, then limits, then the unique identifier |
| `AttachmentSqlite.SQLiteAttachmentStore.UnmarkReferenced` | app/attachments.py:735-748 | unmarking saturates at zero and leaves the sticky -1 of legacy rows |
| `AttachmentSqlite.SQLiteAttachmentStore.ReadStatistics` | app/attachments.py:791-839 | counts per class by SQL aggregates, the oldest pending time by MIN over texts |
| `AttachmentSqlite.SQLiteAttachmentStore.RotateToActiveKey` | app/attachments.py:636-678 | the rotation loop rewrites every stale row and reports how many, or fails with the table unchanged |
| `AttachmentSqlite.OpenStore` | app/attachments.py:399-497 | a store opens exactly when its keys are well formed and consistent and the table passes the startup check |
| `AttachmentRefinement.PutAgreesExactly` | app/attachments.py:499-581 | a put gives the same result and keeps both stores alike exactly when, with an acceptable time-to-live, its identifier is new or it breaks a limit, and with another, it breaks none and the very record is already there, unreferenced |
| `AttachmentRefinement.StepAgrees` | app/attachments.py:499-858 | an operation gives the same result on both stores and keeps them alike exactly when it is not such a put and not a rotation without an active key |
| `AttachmentRefinement.RunsAgree` | app/attachments.py:499-858 | forward simulation over runs: alike stores answer every accepted run alike, rotations and reopenings under other keyrings included |
| `AttachmentRefinement.StoresAgreeFromEmpty` | app/attachments.py:213-395 | from empty stores, every run with new identifiers and acceptable times-to-live gives the same results on both, with any rotations and any reopenings, as long as a key version names one key |
| `AttachmentRefinement.RetiredKeysAreNotMissed` | app/attachments.py:475-497 | a rotated store opens with the active key alone and is used on with the same results |
| `AttachmentPolicies.RunKeepsQuota` | app/attachments.py:905-926 | with fixed limits, no run takes a store over its count and byte quotas per thread and tenant |
| `AttachmentPolicies.EveryStoreWithinQuota` | app/attachments.py:905-926 | with fixed limits that are not negative, every store reached from the empty one is within quota |
| `AttachmentPolicies.PutRefusedExactly` | app/attachments.py:905-926 | a put of a new key is refused with a limit exactly when the store with the record added would be over that limit in the record's thread or tenant and over none before it, and then nothing is written |
| `AttachmentPolicies.PutStores` | app/attachments.py:220-265 | a successful put answers with the upload's description, get returns the upload, and cleanup removes it exactly from its creation time plus its time-to-live on |
| `AttachmentPolicies.TtlRefusedExactly` | app/attachments.py:871-876 | which times-to-live are refused, and with which error |
| `AttachmentPolicies.RunKeepsRecord` | app/attachments.py:267-395 | over every run that neither puts nor removes its key, an attachment is returned as it was stored |
| `AttachmentPolicies.OperationOnRecord` | app/attachments.py:289-395 | for each operation: exactly which records it removes, which count every other has after it, and what it answers |
| `AttachmentPolicies.PutOnRecord` | app/attachments.py:220-265 | a put touches no other key, and a stored record starts unreferenced |
| `AttachmentPolicies.ClassesExactly` | app/attachments.py:337-375 | pending are the attachments that some cleanup would remove, referenced those with a reference, exempt the others |
| `AttachmentPolicies.StatisticsPartition` | app/attachments.py:337-375 | pending, referenced and exempt attachments partition the totals in count and bytes |
| `AttachmentPolicies.CleanupSelectsExactly` | app/attachments.py:317-335 | cleanup removes an attachment exactly if it is unreferenced and its expiry has passed, and leaves every other as it was |
| `AttachmentPolicies.CleanupReportsExactly` | app/attachments.py:317-335 | the reported count and bytes are exactly the drop in the store's totals |
| `AttachmentPolicies.LegacyStepExactly` | app/attachments.py:719-858 | one operation removes a legacy row exactly when it deletes the row or its thread; otherwise its count stays, or becomes -1 at its first mark |
| `AttachmentPolicies.CleanupSparesLegacyRows` | app/attachments.py:719-858 | over every run from any table, a legacy row is there until a delete of it or its thread, no cleanup selects it, and once marked its count is -1 for good |
| `AttachmentPolicies.MarkedAttachmentsSurvive` | app/attachments.py:289-312 | after any run, an attachment with more marks than unmarks since it was stored is never cleaned up nor deleted as unreferenced |
| `AttachmentPolicies.RotationKeepsPayloads` | app/attachments.py:609-678 | after rotation every row, legacy plaintext included, is on the active version, no other column changed, and the active key alone reads what could be read before |
| `AttachmentPolicies.RotationIsInvisible` | app/attachments.py:583-607 | every get returns the same bytes and metadata after rotation, with the other keys retired |
| `AttachmentPolicies.RotatedStoreReopens` | app/attachments.py:475-497 | reopening with only the active key passes the startup check, whichever row it samples, exactly when that row was readable before |
| `AttachmentPolicies.SecondRotationIsIdle` | app/attachments.py:636-678 | a second rotation rewrites nothing |
| `AttachmentPolicies.RotationFailsExactly` | app/attachments.py:636-678 | rotation fails exactly when there is no active key or some stale row cannot be decrypted |
| `AttachmentSqlPolicies.TableKeepsQuota` | app/attachments.py:905-926 | with fixed limits, no run of the SQLite store, reopenings included, takes any table over its quotas |
| `AttachmentSqlPolicies.EveryTableWithinQuota` | app/attachments.py:905-926 | with limits that are not negative, every table reached from the empty one is within quota |
| `AttachmentSqlPolicies.RowRefusedExactly` | app/attachments.py:499-581 | the SQLite store refuses a new identifier with an acceptable time-to-live exactly when the table with the row added would be over a limit, and reports the first |
| `AttachmentSqlPolicies.PutStoresRow` | app/attachments.py:499-607 | a successful put answers with the description, the next get decrypts the upload, and cleanup removes the row exactly from its creation time plus its time-to-live on |
| `AttachmentSqlPolicies.RowClassesExactly` | app/attachments.py:791-826 | the classes of the statistics query, told from what cleanup would remove; legacy rows are exempt |
| `AttachmentSqlPolicies.KeyringBuiltExactly` | app/attachments.py:411-429 | which keys the constructor accepts, and which keys the store then has |
| `AttachmentSqlPolicies.CountsFollowMarks` | app/attachments.py:719-748 | after any run from any table, the count of a row that is not a legacy row is its marks minus its unmarks, above the lowest point of that balance |
| `AttachmentSqlPolicies.NoNewLegacyRows` | app/attachments.py:719-748 | no run makes a row a legacy row |
| `AttachmentSqlPolicies.MarkedRowsSurvive` | app/attachments.py:719-790 | so a row with more marks than unmarks is never cleaned up nor deleted as unreferenced |
| `AttachmentSqlPolicies.EveryRotationSucceeds` | app/attachments.py:475-497 | as long as a version names one key, after any run from a readable table, rotations and reopenings included, every payload can be read, and a rotation fails exactly when there is no active key |
| `ConfigStore.RunIsLater` | app/admin_store.py:1553-1587 | on delete-free runs versions never fall, and an equal version means an equal payload |
| `ConfigStore.RunsExplainChecks` | app/admin_store.py:1600-1632 | in every run, deletes included, each stored check belongs to a stored configuration no older than it, and one of the current version was saved while the current payload was stored |
| `ConfigStore.ReturnedCheckIsCurrent` | app/admin_store.py:1589-1598 | a check returned for the current version was saved while the current payload was stored, deletes included |
| `ConfigStore.SavedCheckIsReturned` | app/admin_store.py:1589-1632 | a saved check is returned for its version, whatever else is written, until the row is deleted or another check of that server is saved |
| `ConfigStore.CheckSavedExactly` | app/admin_store.py:1600-1619 | a check is saved exactly under the version that is stored |
| `ConfigStore.SQLiteTenantConfigStore.ReplaceRawConfigIfVersion` | app/admin_store.py:1574-1587 | the row changes exactly when it exists at the expected version |
| `ConfigStore.SQLiteTenantConfigStore.DeleteConfig` | app/admin_store.py:1621-1632 | the row and the tenant's checks are removed |
| `ConfigStore.ReplaceCredential` | app/admin_api.py:3156-3193 | with other writers before each access: which outcome is reached when, and that a success overwrites exactly the payload it was derived from unless the row is deleted after the first version read |
| `ConfigStore.LostUpdateNeedsDelete` | app/admin_store.py:1574-1632 | over arbitrary writes, a compare-and-set overwrites an unread update only if the row was deleted in between |
| `ConfigStore.LostUpdateExactly` | app/admin_store.py:1553-1632 | over arbitrary writes, an unread update is lost exactly when the row was deleted, as many writes to it took effect since as the version that was read, and the last of them differs from what was read |
| `ConfigStore.RowAfterRun` | app/admin_store.py:1553-1632 | after any run the row is the last payload stored since the last delete, and its version counts the writes that took effect since then |
| `ConfigStore.DeleteDefeatsCompareAndSet` | app/admin_store.py:1574-1632 | a delete and rewrites lose an unread update exactly when there are as many rewrites as the version read and the last one differs, for all versions and payloads |
| `McpManager.GenerationDetectsChange` | app/mcp_manager.py:144-204 | over any interleaving at await points the generation never falls, and an equal one means every server is the same apart from a status that became retrying |
| `McpManager.SameGenerationSameServers` | app/mcp_manager.py:132-142 | two snapshots with equal generation list the same servers in the same order, with the same tools, client and configuration |
| `McpManager.KeptRegistryIsCurrentExactly` | app/execution.py:648-665 | keeping a registry on an equal generation keeps what would be built now exactly when no server it had tools from is being re-checked |
| `McpManager.ForcedRecheckHidesToolsExactly` | app/mcp_manager.py:155-168 | on the steps: exactly when no step forced a re-check of a server it had tools from |
| `McpManager.ForcedRecheckIsUndetected` | app/mcp_manager.py:155-167 | a forced re-check of a connected server removes its tools from new registries at an unchanged generation |
| `McpManager.QuietRegistry` | app/execution.py:648-665 | when connected servers are not force-checked, an equal generation means an equal registry |
| `McpManager.DelayAfterFailures` | app/mcp_manager.py:231-236 | after k failures since the last success the stored delay is min(initial * 2^(k-1), max), in every run |
| `McpManager.ClosedDelayNeedsCap` | app/mcp_manager.py:231-236 | below its condition on the cap the closed form already fails at the second delay |
| `McpManager.ContactedAfterFailure` | app/mcp_manager.py:155-168 | after a failure a refresh that is not forced contacts the server exactly from its retry time on, whatever happens to other servers meanwhile |
| `McpManager.RetryTimeInRuns` | app/mcp_manager.py:187-236 | in every run that time is the failure's plus the jittered delay, doubled with every failure since the last success up to the maximum |
| `McpManager.ConnectedIsLeftAlone` | app/mcp_manager.py:155-168 | a connected server is contacted again only by a forced refresh |
| `McpManager.ShownAfter` | app/mcp_manager.py:164-204 | what is shown of a server after an answer, after an error and while a refresh is pending; other servers stay as they are |
| `McpManager.GenerationsCount` | app/mcp_manager.py:171-204 | in every run the generations count the answers and errors that came in, of a server and of all |
| `McpManager.MCPServerManager.BeginRefresh` | app/mcp_manager.py:155-168 | which servers are contacted, and the pending state they get |
| `McpManager.MCPServerManager.FinishUnavailable` | app/mcp_manager.py:187-204 | an error doubles the delay, raises both generations and empties the server's tools |
| `McpManager.MCPServerManager.Snapshot` | app/mcp_manager.py:138-142 | the wanted servers in dictionary order, with the generation |
| `ExecutionResolver.FreshUnderWrites` | app/admin_store.py:1553-1587 | delete-free writes of others keep every cached context tied to its version's payload |
| `ExecutionResolver.ResolveKeepsFresh` | app/execution.py:550-618 | a call keeps the cache fresh whatever is written between its reads |
| `ExecutionResolver.HitIsCurrent` | app/execution.py:554-561 | a cache hit is built from the payload current at its version check |
| `ExecutionResolver.QuietCallIsEffective` | app/execution.py:550-646 | an undisturbed call falls back exactly when no configuration is in force, a context it returns is built from the one in force, tenant row first, then the default, and an admitted one is returned |
| `ExecutionResolver.EveryRunResolvesEffective` | app/execution.py:550-646 | after any delete-free history of concurrent calls, writes and invalidations, the same holds of an undisturbed call |
| `ExecutionResolver.EveryHitIsCurrent` | app/execution.py:550-561 | after any such history, a call that others write into and that hits the cache returns the payload current at its version check |
| `ExecutionResolver.ColdCallAnswersExactly` | app/execution.py:570-618 | an undisturbed call without a cached context of the state in force is refused exactly when the payload in force is not admitted, and otherwise builds its context from it; a refusal leaves nothing cached |
| `ExecutionResolver.OnlyAdmittedIsServed` | app/execution.py:550-618 | over any history under one admission, deletes and writes between the reads included, only admitted payloads are cached or returned |
| `ExecutionResolver.EveryRunAnswersExactly` | app/execution.py:550-646 | after any delete-free history under one admission, an undisturbed call falls back, is refused or resolves exactly as the configuration in force says |
| `ExecutionResolver.TwoPasses` | app/execution.py:550-618 | a configuration that vanishes between two reads is looked for once more, and then the call falls back |
| `ExecutionResolver.ServedStaleExactly` | app/execution.py:550-646 | after arbitrary writes, deletes included, and any invalidation of another key, a served tenant is served stale exactly when the key and version in force are as before but the payload is not |
| `ExecutionResolver.RecreatedDefaultIsServedStale` | app/execution.py:633-646 | a default configuration deleted and rewritten is served stale, despite its invalidation, exactly when it was rewritten as often as its version and last with another payload |
| `ExecutionResolver.DeleteThenInvalidateKeepsOwnFresh` | app/execution.py:633-636 | deletes of a tenant's row among any writes, followed by its invalidation, keep contexts built from own rows fresh |
| `ExecutionResolver.EveryCallCarriesCurrentTools` | app/execution.py:550-665 | over every run of calls, writes, deletes, invalidations and manager steps without forced re-checks of connected servers, a returned context has exactly the tools the manager would give at the call's snapshot |
| `ExecutionResolver.HitRegistryIsCurrent` | app/execution.py:648-665 | with forced re-checks, a hit has current tools exactly when the generation changed or none was forced on a server it has tools from |
| `ExecutionResolver.StoreBackedTenantExecutionResolver.EffectiveConfigState` | app/execution.py:638-646 | the tenant's row, or else the default's, with writes before each read |
| `ExecutionResolver.StoreBackedTenantExecutionResolver.ResolveTenant` | app/execution.py:550-618 | the two-pass loop changes the cache and answers as the resolve function does |
| `ExecutionResolver.StoreBackedTenantExecutionResolver.Forget` | app/execution.py:633-636 | invalidation removes the tenant's context and its version, and nothing else |
| `SseAccumulator.OrderListsStoredKeys` | app/llm.py:2554-2647 | after any stream that does not raise, `output_item_order` lists exactly the stored keys, each once |
| `SseAccumulator.TextsAreTheDeltas` | app/llm.py:2579-2585 | the collected texts are the stream's text deltas in order, and the final response is its last response object |
| `SseAccumulator.KeyIsFirstGiven` | app/llm.py:2716-2737 | which field gives the key of an event |
| `SseAccumulator.KeyTexts` | app/llm.py:2730-2737 | which values serve as keys, and as which texts |
| `SseAccumulator.CurrentIsLastReasoning` | app/llm.py:2586-2594 | which item is the current reasoning item after an event |
| `SseAccumulator.KeylessSummaryGoesToCurrent` | app/llm.py:2595-2633 | a summary event without a key goes to the current reasoning item |
| `SseAccumulator.RunProjects` | app/llm.py:2554-2647 | when events carry their own key, what is held under a key depends on that key's events alone, and keys are listed in order of introduction |
| `SseAccumulator.RunRaisesPerKey` | app/llm.py:2595-2604 | such a stream raises exactly when the events of some key raise on their own |
| `SseAccumulator.TakeRaisesExactly` | app/llm.py:2595-2601 | an event raises exactly when it adds a summary part to an item whose summary is not a list |
| `SseAccumulator.NonListSummaryRaises` | app/llm.py:2595-2601 | two events on which the program raises |
| `SseAccumulator.SummaryDeltasJoin` | app/llm.py:2604-2618 | a run of summary deltas appends the concatenation of their texts to the last summary part, however it is split |
| `SseAccumulator.SummaryPartIsBuilt` | app/llm.py:2595-2633 | a part added, its deltas and the part done leave one summary part, with all the deltas in its text unless the finished part has another |
| `SseAccumulator.PartDoneAlone` | app/llm.py:2622-2633 | a part that is done without having been added becomes a part of its own |
| `SseAccumulator.StreamOutput` | app/llm.py:2740-2756 | the rebuilt items are one per introduced key, each read off that key's own events: arguments are the last done text, or else the joined deltas |
| `SseAccumulator.SameProjectionsSameOutput` | app/llm.py:2554-2756 | streams with the same events per key and the same order of introduction give the same items, however they are interleaved |
| `SseAccumulator.SplitOfDeltasIsInvisible` | app/llm.py:2604-2756 | two streams that differ, key by key, only in how summary deltas and argument deltas are split give the same items |
| `SseAccumulator.SplitKeepsActions` | app/llm.py:2604-2618 | splitting a run of summary deltas in another way, anywhere among the events of a key, is such a difference |
| `SseAccumulator.Accumulate` | app/llm.py:2554-2647 | the loop over seven running variables computes the accumulated state, and stops where the program raises |
| `SseAccumulator.CollectOutput` | app/llm.py:2740-2756 | the output loop gives one item per listed key |
| `SseFraming.SplitExactly` | app/llm.py:1157-1158 | splitting on newline gives the only newline-free lines that join to the text |
| `SseFraming.ReadChunks` | app/llm.py:1150-1173 | however a body is cut into chunks, the reported deltas are those of all its fields but the last, which stays in the buffer |
| `SseFraming.DeltaOfLine` | app/llm.py:1159-1173 | what a line reports: the delta of an object of the delta type after the prefix `data:`, with only space around prefix and payload |
| `SseFraming.OtherLinesReportNothing` | app/llm.py:1160-1162 | a line with another start reports nothing |
| `SseFraming.LineEndsExactly` | app/llm.py:2563 | the code points at which the complete body is cut into lines |
| `SseFraming.BodyByField` | app/llm.py:2563-2574 | whatever line ends the body has, the deltas found in it are those found in its newline-separated fields, one after the other |
| `SseFraming.ReadersAgreeExactly` | app/llm.py:1155-1173 | for any body and any line ends, which `str.strip` strips, streaming and the complete body report the same deltas exactly when no field with a line end inside its stripped text reports one, whole or in pieces, unless there are both kinds |
| `SseFraming.LossAndGainCanCancel` | app/llm.py:2563-2574 | with both kinds the two can agree by chance: a field that loses a delta before one that gains it |
| `SseFraming.StreamedDeltasAreTheBodys` | app/llm.py:2563-2574 | so they agree when lines end with a newline, with or without a carriage return |
| `SseFraming.RawSeparatorHidesDelta` | app/llm.py:2563-2574 | an instance where they part: a raw U+2028 inside a data line splits it for the complete body only, so a streamed delta is missing there |
| `ToolNames.SanitizeExactly` | app/llm.py:3158-3160 | a sanitized name is valid, and a name is left alone exactly if it is valid without outer underscores |
| `ToolNames.SanitizeJoins` | app/llm.py:3158-3160 | what an invalid name becomes: its valid parts in order, joined by one underscore per run of other characters, without edges |
| `ToolNames.OnlyEdgesBecomeTool` | app/llm.py:3160 | a name without any valid part becomes `tool` |
| `ToolNames.FreeName` | app/llm.py:3147-3153 | the suffix loop ends and finds the base name if it is free, or else its first free number from 2 on |
| `ToolNames.BuildProviderToolNameMap` | app/llm.py:3143-3155 | the outer loop names every tool with the first name free of the names used before |
| `ToolNames.NamesAreValidAndDistinct` | app/llm.py:3143-3160 | every tool gets a non-empty name of letters, digits, `_` and `-`, and no two tools the same |
| `ToolNames.ValidNamesAreKept` | app/llm.py:3143-3160 | different tools with valid names and no outer underscores keep their names |
| `ToolNames.ResolveInternalToolName` | app/llm.py:3163-3167 | the lookup returns a tool of that provider name, or the name itself when there is none |
| `ToolNames.ResolveUndoesNaming` | app/llm.py:3163-3167 | in whatever order it walks the map, the lookup undoes the renaming of every tool |
| `ToolNames.NamesIgnoreOrder` | app/llm.py:3131-3132 | with the stable sort, the map does not depend on the order in which the tools are given |
| `HistoryPruning.PruneOrphanedToolMessages` | app/llm.py:2463-2499 | counting calls and results per id keeps exactly the messages that are matched |
| `HistoryPruning.PruneOrphanedIsGreatest` | app/llm.py:2463-2499 | the pruned history is the greatest subsequence in which every call id is complete or absent |
| `HistoryPruning.CompletePairsAreKept` | app/llm.py:2463-2499 | messages of complete ids and messages outside tool calls are kept, as often as they occur |
| `HistoryPruning.PruneOrphanedUnchanged` | app/llm.py:2463-2499 | pruning changes a history exactly when it has orphans, and pruning twice is pruning once |
| `HistoryPruning.PruneHistoricalToolMessages` | app/llm.py:2502-2519 | the Azure loop gives the pruned history of the two rows below |
| `HistoryPruning.AzureHistoryIsGreatest` | app/llm.py:2502-2546 | the pruned history is the greatest subsequence whose tool messages all have the id of the trailing pair of call and result, if there is one |
| `HistoryPruning.AzureKeepsTheRest` | app/llm.py:2502-2546 | every other message, and every message of that id, is kept as often as it occurs, and the pair stays at the end |
| `HistoryPruning.AzureHistoryIsSettled` | app/llm.py:2502-2546 | what is left for Azure has only the tool messages of the trailing pair, and pruning it again, for Azure or for orphans, changes nothing |
| `ResponsesContinuation.Dedupe` | app/llm.py:2383-2393 | the loop drops exactly the reasoning items whose id came before |
| `ResponsesContinuation.DedupeLosesNothing` | app/llm.py:2383-2393 | no reasoning item repeats afterwards, no reasoning id is lost, and every other item stays as often as it was |
| `ResponsesContinuation.DedupeByFields` | app/llm.py:2383-2393 | told from the fields: one item is left of those of type `reasoning` with the same text for an id, and all others are kept as often as they occur |
| `ResponsesContinuation.ContinuationExtends` | app/llm.py:1037-1039 | the old input is a prefix of the continued one, followed by the reasoning items with new ids |
| `ResponsesContinuation.Generate` | app/llm.py:978-1043 | at most retries + 1 requests; all but the last were answered by reasoning only, each input extends the one before, and the outcome is that of the last reply |
| `Redaction.RestoreUndoesRedact` | app/admin_api.py:4143-4166 | restoring a redacted value against an existing one gives it back if and only if the existing one holds its scalar secrets where they are looked up and no key reads as a marker |
| `Redaction.RearrangedRestores` | app/admin_api.py:4143-4166 | a redacted config with named list items reordered or removed is restored to the same reordering of the original |
| `Redaction.RoundTrip` | app/admin_api.py:4133-4166 | a config with scalar secrets, no marker keys and distinct names per list is restored exactly |
| `Redaction.SharedNameLosesSecret` | app/admin_api.py:4153-4164 | two items of one name both get the secret of the last |
| `Redaction.RedactIsIdempotent` | app/execution.py:2614-2642 | redacting twice is redacting once, marker fields included |
| `Redaction.SecretsAreHidden` | app/execution.py:2620-2642 | the redacted form does not depend on the secrets and header values |
| `Redaction.OnlySecretsAreHidden` | app/execution.py:2620-2642 | without marker keys, two values redact alike if and only if they differ in secrets and header values only |
| `Redaction.HiddenNamesExactly` | app/execution.py:2614-2642 | the hidden names are the spellings of five names, in any case and with either separator |
| `Redaction.TruthyExactly` | app/execution.py:2620-2642 | a secret counts as set unless it is one of Python's false values |
| `Redaction.SpelledSecretsAreMasked` | app/execution.py:2620-2642 | a secret that is set, however its name is spelled, and every header value are masked where they stand |
| `Redaction.MarkersTell` | app/execution.py:2620-2642 | the marker fields tell whether a secret is set and whether there are headers |
| `Redaction.RestoreLeavesOthers` | app/admin_api.py:4143-4166 | what a client sends without masks is stored as sent, whatever was there before |
| `Redaction.RedactSecrets` | app/execution.py:2620-2642 | the walk over a snapshot of the entries, in which an entry may meanwhile have become a marker, gives the redacted tree |
| `DeprovisioningQueue.ClaimTakesLeastDue` | app/admin_store.py:566-608 | a claim takes an event exactly when one is pending and due or stale, and then the least by due time, creation time and id, chronologically |
| `DeprovisioningQueue.RunsKeepInvariant` | app/admin_store.py:566-697 | in every run `claimed_at` is set exactly for processing rows, `completed_at` for completed ones, and attempts equals the number of claims |
| `DeprovisioningQueue.CompletedUnchanged` | app/admin_store.py:566-697 | no call changes a completed event |
| `DeprovisioningQueue.ClaimOfHeld` | app/admin_store.py:570-582 | a claim of an event whose earlier claim neither failed nor completed comes more than the lease after its last sign of life |
| `DeprovisioningQueue.ClaimsAreSeparated` | app/admin_store.py:566-681 | with a non-decreasing clock and one lease, two claims of an event have a failure between them, or the later is more than the lease after the last claim or heartbeat |
| `DeprovisioningQueue.EnqueuedIsDueExactly` | app/admin_store.py:566-589 | a new event is due from its time on, with nothing done yet |
| `DeprovisioningQueue.FailedIsDueExactly` | app/admin_store.py:648-681 | a failed event is due exactly from its retry time on, and never when it was given up |
| `DeprovisioningQueue.RetriedIsDueExactly` | app/admin_store.py:683-697 | a manual retry makes the tenant's waiting or given-up event due at once |
| `DeprovisioningQueue.WaitingStays` | app/admin_store.py:566-697 | a failed event stays as it is, whatever is called, until it is claimed or its own tenant retries it |
| `DeprovisioningQueue.DeadLetterStays` | app/admin_store.py:566-697 | an event that was given up is never due and never claimed, over any calls, until its own tenant retries it |
| `DeprovisioningQueue.ReportIsKept` | app/admin_store.py:625-681 | the row keeps what was reported of the work, with the error cut to 2,000 characters |
| `DeprovisioningQueue.WorkerRetriesExactly` | app/user_deprovisioning.py:112-124 | after a failure of the worker the event is due again from its delay later on, unless its attempts are used up |
| `DeprovisioningQueue.DelayDoubles` | app/user_deprovisioning.py:114 | the delay doubles from one second up to 2,048; the cap of an hour is never reached |
| `DeprovisioningQueue.GivenUpAfterMaximum` | app/user_deprovisioning.py:113 | in every run whose failures are the worker's, an event is given up only after as many claims as the maximum |
| `DeprovisioningQueue.SQLiteUserDeprovisioningQueue.Claim` | app/admin_store.py:566-608 | stale rows are released and the first due row is claimed, by text comparison of the columns |
| `DeprovisioningQueue.SQLiteUserDeprovisioningQueue.Heartbeat` | app/admin_store.py:610-623 | only a row in processing gets a new `claimed_at` |
| `DeprovisioningQueue.SQLiteUserDeprovisioningQueue.Complete` | app/admin_store.py:625-646 | only a row in processing is completed, and all its columns |
| `DeprovisioningQueue.SQLiteUserDeprovisioningQueue.Fail` | app/admin_store.py:648-681 | only a row in processing goes back to pending with its retry time, or to dead letter |
| `DeprovisioningQueue.SQLiteUserDeprovisioningQueue.Retry` | app/admin_store.py:683-697 | only the tenant's own pending or dead-letter row is made due at once |
| `CatalogAccess.AccessWithinCeiling` | app/admin_store.py:1159-1181 | access never exceeds the tenant ceiling, is definite under a fail-closed policy, and is empty for users who are not active |
| `CatalogAccess.NoPolicyNoRestriction` | app/admin_store.py:1162-1164 | without a policy nobody is restricted |
| `CatalogAccess.AssigningToUser` | app/admin_store.py:1159-1171 | under a policy, an assignment gives a user who is not inactive exactly its items within the ceiling, and changes nobody else's access |
| `CatalogAccess.AssigningToRole` | app/admin_store.py:1172-1178 | an assignment of a role does so for its active users without an own one, and changes nobody else's access |
| `CatalogAccess.Unassigning` | app/admin_store.py:1159-1181 | what is left when an assignment is removed, and that nobody else's access changes |
| `CatalogAccess.RequiringAssignment` | app/admin_store.py:1179-1181 | requiring assignments takes all access from exactly those without any |
| `CatalogAccess.ChangingTheCeiling` | app/admin_store.py:1169-1178 | a new ceiling cuts assigned access to it |
| `CatalogAccess.VersionsCount` | app/admin_store.py:1098-1132 | each write of a policy or an assignment counts its version up and leaves the others alone |
| `CatalogAccess.ValidateBreakGlass` | app/admin_api.py:4001-4043 | the loop passes exactly when some listed active owner or administrator is expected to keep an item |
| `CatalogAccess.WhatIfExactly` | app/admin_api.py:4001-4043 | what the check expects for a privileged user is that user's effective access after the write |
| `CatalogAccess.AllowedExactly` | app/admin_api.py:2752-2764 | a call passes the check exactly when a privileged user among the first 500 has access after its write |
| `CatalogAccess.RefusedExactly` | app/admin_api.py:2922-2985 | with at most 500 users, a valid call is refused exactly when its write would lock out every active owner and administrator |
| `CatalogAccess.RunsStayGuarded` | app/admin_api.py:2723-2985 | with the users fixed, no run of the endpoints leaves a fail-closed tenant without a privileged user who has access |
| `CatalogAccess.AcceptedExactly` | app/admin_api.py:2723-2985 | a call goes through exactly when what it names exists once, is configured and allowed, and the check passes; any other changes nothing |
| `CatalogAccess.ErrorExactly` | app/admin_api.py:2878-2920 | which error a call answers with |
| `CatalogAccess.RunsStayConfigured` | app/admin_api.py:2723-2985 | no run of the endpoints grants anybody an item that is not in the catalog |
| `CatalogAccess.OwnerRuleExactly` | app/admin_api.py:3666-3687 | an update is refused for the owner rule exactly when there is an active owner before it and would be none after it |
| `CatalogAccess.ActiveOwnerRemains` | app/admin_api.py:3666-3687 | the owner guard: a tenant with an active owner has one after every user call |
| `CatalogAccess.UpdateStaysGuardedExactly` | app/admin_api.py:1493-1508 | a user update that passes the owner guard leaves a fail-closed tenant guarded exactly when another privileged user has access, or the updated one still has |
| `CatalogAccess.SuspensionLocksOut` | app/admin_api.py:3556-3573 | the endpoints lead to a tenant of two owners in which suspending one passes the owner guard and locks the tenant |
| `CatalogAccess.StepStaysGuardedExactly` | app/admin_api.py:1478-1582 | from a guarded tenant, a catalog or user call leaves it guarded exactly when it is not an update that takes the last access |
| `CatalogAccess.MixedRunsStayGuarded` | app/admin_api.py:1478-1582 | runs that mix both kinds of endpoints stay guarded when no update takes the last access |
| `CatalogAccess.CleanupStaysGuardedExactly` | app/user_deprovisioning.py:58-66 | when the worker's unchecked removal of an assignment leaves the tenant guarded: always, if the user is not privileged by then |
| `CatalogAccess.LaterPageRefused` | app/admin_api.py:4010-4016 | with the only privileged user after the first 500, a harmless call is refused |
| `CatalogAccess.CatalogEndpoints.PutMcpServerCatalogPolicy` | app/admin_api.py:2723-2764 | errors in their order, the check, then the new policy |
| `CatalogAccess.CatalogEndpoints.PutMcpServerCatalogAssignment` | app/admin_api.py:2878-2937 | errors in their order, the check with the override, then the assignment |
| `CatalogAccess.CatalogEndpoints.DeleteMcpServerCatalogAssignment` | app/admin_api.py:2949-2977 | the check with the removal, then the delete |
| `SeedSlugs.SeedSlugIsSlug` | app/admin_api.py:3808-3814 | a derived slug matches the slug pattern, and a slug without double hyphens is its own |
| `SeedSlugs.SeedSlugJoins` | app/admin_api.py:3808-3814 | what a tenant id becomes: its runs of letters and digits in order, joined by single hyphens, cut to 63 characters without a hyphen at the cut |
| `SeedSlugs.OnlyOthersBecomeTenant` | app/admin_api.py:3812-3813 | an id without letters and digits becomes `tenant` |
| `SeedSlugs.CandidateInjective` | app/admin_api.py:3821-3823 | different suffixes give different candidates, however the base is cut |
| `SeedSlugs.CandidateIsSlug` | app/admin_api.py:3821-3823 | every candidate matches the slug pattern |
| `SeedSlugs.CandidateExactly` | app/admin_api.py:3821-3823 | a candidate is the base with its number, the base cut just enough to fit in 63 characters and without hyphens at the cut |
| `SeedSlugs.UniqueSlug` | app/admin_api.py:3817-3826 | the base, or the first free candidate; the search cannot fail with fewer than 9,998 slugs in use |
| `SeedSlugs.PlanSeeds` | app/admin_api.py:1054-1173 | under every conflict policy the planned slugs match the pattern, are pairwise distinct and not registered; which runs fail, on unknown or invalid overrides or on conflicts, and which tenants are left out, exactly |
| `JpegScanner.FindDimensions` | app/image_validation.py:84-113 | the nested loops over the offset end, never read outside the data, and compute the scan |
| `JpegScanner.WrittenDimensionsAreFound` | app/image_validation.py:84-113 | after SOI, any fill-padded standalone markers and non-frame, non-scan segments, and a frame header for (w, h), whatever follows, the scanner returns (w, h) |
| `JpegScanner.FoundExactly` | app/image_validation.py:84-113 | the scanner answers with dimensions if and only if the data are such a file with a frame header of those dimensions |
| `JpegScanner.MarkersAre` | app/image_validation.py:84-113 | the markers without a segment, and those of frame headers |
| `ImageHeaders.PngFoundExactly` | app/image_validation.py:67-75 | dimensions are found in PNG data if and only if it is the signature, an IHDR head with those dimensions and at least the rest of that chunk |
| `ImageHeaders.GifFoundExactly` | app/image_validation.py:78-81 | dimensions are found in GIF data if and only if it starts with a signature and a screen descriptor with those dimensions |
| `ImageHeaders.WebpExtendedFound` | app/image_validation.py:126-131 | the canvas size of an extended file is found |
| `ImageHeaders.WebpFoundExactly` | app/image_validation.py:116-145 | dimensions are found in WebP data if and only if it is a RIFF container whose first chunk is one of the three image forms with those dimensions, whatever follows in and after it |
| `ImageHeaders.WebpLossyFound` | app/image_validation.py:132-137 | the 14-bit dimensions of a lossy frame are found, its scale bits ignored |
| `ImageHeaders.WebpLosslessFound` | app/image_validation.py:138-144 | the packed 14-bit dimensions of a lossless frame are found |
| `ImageHeaders.JpegAcceptedExactly` | app/image_validation.py:27-52 | a JPEG file is let through exactly when its first frame header is within the limits |
| `ImageHeaders.AcceptedExactly` | app/image_validation.py:27-64 | any data of any type is let through exactly when the type has no parser or the data show, in its format, dimensions within the limits, which are answered; which error is answered otherwise |

## Left out

- Foreign code: AES-GCM is a parameter assumed to decrypt what it encrypted; `json.loads`, `str.isspace` and `str.lower` are parameters or restricted to what ASCII comparisons can see; HTTP, OAuth, FastAPI, SQLite itself, clocks and randomness are not part of this model.
- Aliasing: redaction rewrites a tree in place and the accumulator changes nested lists in place; both are modelled on values, with the object being walked as a local variable, so sharing between parts of one tree is not captured.
- Binary floating point: retry delays are reals, and the lease is subtracted exactly instead of through a floating-point timestamp.
- Timestamps are UTC with years 1 to 9999, as the stores write them; other offsets in stored text are not modelled.
- Usage normalisation and the choice between the final response, the text parts and the rebuilt items at the end of `_parse_responses_sse`.
- Configuration parsing, catalog policy errors and the fallback resolver: parameters of the resolver model that decide whether a context is built.
- `update_tenant_user` and `upsert_tenant_entitlements`, which read outside their lock; an enqueued deprovisioning event is modelled without the user row.
- The retries of `seed_tenants` after a late uniqueness conflict, and its paging through the registry.
- Listing order of users updated at the very same microsecond; the updated user is modelled as listed first.
- The tenant dimension of the catalog tables: one tenant's part is modelled, and the endpoints touch no other.
- `preview_mcp_server_catalog_access`, audit records, response models, PDF and WAV checks, and logging: they would add only easy members.
- Tool schemas: the stable sort and the name map are modelled on tool names, the only part they read.
- DeprovisioningQueue.ClaimsAreSeparated: says nothing about which worker finishes an event, because heartbeat, complete and fail name the event only.
- ConfigStore.RunIsLater: holds for runs without deletes of the tenant, because a delete restarts the version.
