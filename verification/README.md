# Transactions, validators, stores and audits of the KCD2 modding runtime, verified in Dafny

This project models the parts of the runtime in which a mistake would lose a player's files or make an audit
report something untrue, and proves what those parts are for. `dafny verify dfyconfig.toml` checks everything.

| files | what they model |
|---|---|
| `ModOrder`, `ModOrderProofs` | the byte-level editor of `mod_order.txt`: UTF-8, the two line splitters, the final verifier |
| `Deployment`, `DeploymentProofs` | install, rollback, automatic restoration and their receipts, with faults in the file operations and outside disturbances |
| `Lineage` | the candidate registry: cycle detection, parent bindings, shared labels |
| `ScopeReceipt`, `MeasuredReceipt` | scope receipts, and responses that report their own length |
| `ExactRefresh` | diffs of one provider's rows, their journal, and the transactions over the shared table |
| `PagedStore`, `PagedStoreProofs` | the JSON-lines artifact store and its byte cursors |
| `InventoryPreset`, `InventoryPresetProofs` | the bounded recursive walk over preset records, with probabilities and quantities |
| `TableMerge`, `TableAudit`, `ShadowMetrics` | the merge of table rows, the independent audit of its winners, and the metrics two modules must agree on |
| `ArchiveCache` | the content-addressed cache of archive members |
| `ParentDiff`, `ParentDiffProofs`, `ParentLedger` | masking of XML documents, authorised patches, and the ledger over whole archives |
| `Topology`, `TopologyProofs` | the explicit-stack traversal of a document, its locators and containment edges |
| `Wrappers` | `Option`, `Result`, file contents and what several modules need |

Code that changes things step by step is modelled by classes and loops, each proved against a function or a
predicate on values; the main results are then lemmas about those, or contracts over whole runs.

## Conventions

- SHA-256 is an injective digest: a free constructor, or the digested value itself.
- Case folding, path rules, the JSON and XML encodings, `findall` and the size bounds of trees are parameters, so
  every result holds for whichever functions they are. The paged store asks one thing of its encoding, that an
  encoded record holds no line feed, which follows from the escaping of control characters in section 7 of RFC 8259.
- Where the source sorts keys only to make its output stable, the model takes them in any order.
- A file operation may fail while the machine's fault budget lasts: it may raise, stop halfway through a tree, or,
  except for the atomic rewrite of the load order, write wrong bytes without raising. Safety is proved for every
  budget, success for a budget of zero, and never getting stuck for a budget of one.
- In a refreshed table, text is stored as UTF-8, in which SQLite and Python sort keys alike.

## Where the code does less than it seems

Each of these is stated exactly by a lemma or a contract, and those with a second name have an input as well.

- A load order can hold the mod behind a separator that only the text splitter knows, such as a vertical tab. The
  editor then refuses a file that its own loop has just edited (`EditMeaning`, `HiddenEntryTripsVerifier`).
- An install can succeed whose rollback is then refused for good, without any fault: when its receipt passes one MiB,
  the files of the folder it replaced or the native components have unsafe paths, a native component is registered with
  more than 16 GiB, or the mods folder had 4096 entries and none for the mod. `InstallThenRollback` has the exact
  condition; `UnreadableReceipt`, `OversizedComponent` and `FullFolder` have installs.
- A native component registered under a path that names nothing, such as a single dot, passes the preflight. Everything
  is installed and then put back, because the receipt cannot be written (`Install`, `NamelessComponent`).
- A rollback that fails on a passing fault and is undone leaves its recovery copy behind, and every later rollback of
  that receipt is refused (`Rollback`).
- A dry run compares rows by Python's equality, which takes 1, 1.0 and true for one value. It plans nothing for a row
  that changes only so, and its plan never commits (`PlanLeads`, `NumberTypeIsMissed`).
- A content digest may be written with the ligature U+FB00, which case-folds to two hexadecimal digits. A plan that
  writes such a row never commits; one that removes or replaces it commits and cannot be rolled back
  (`RefreshThenRollback`, `LigatureCannotReturn`).
- An exact refresh measures its report after the commit. A report that is too large is raised as an error although
  the rows have moved, and the journal is lost (`ExactRefresh.Database.Commit`, `MovedWithoutJournal`).
- The child winners of the table audit are not the effective children in general (`ChildWinnersAgree`,
  `RestatedChildIsCitedTwice`). Its attribute winners can disagree where a row repeats a name, as local names of
  namespaced attributes may (`AuditAgrees`, `RepeatedNamesDisagree`).
- The conflict validator accepts emitted shadow metrics exactly when the profile is unsupported or the candidate adds
  no key, although the comparison itself allows added keys (`EmittedMetricsAccepted`, `WhyRejected`).
- Nothing authenticates the manifest of a cache entry. One that adds up, over stored objects, but describes other
  members is served (`UndetectedEntries`, `ServedUnderWrongName`).
- A manifest nested too deep for the JSON parser, or a plain file in the place of the objects, makes a cached call
  raise an error that nobody catches. The entry is not set aside, and the next call raises again
  (`ArchiveCache.Cache.Read`, `TooDeepStays`, `PlainFileForObjects`).
- A healthy cache entry is set aside when a caller asks with bounds it does not meet; the read then fails like a
  direct one (`ArchiveCache.Cache.Read`).
- An element of a candidate that looks like the marker of a masked node can take that node's place outside the
  selection, and the patch is authorised (`AuthorizedStaysInside`, `ForgedMarkerIsAuthorized`).
- A patch selector that counts siblings finds other nodes once an earlier sibling is masked, and a change outside the
  selected nodes can be authorised (`CountingSelectorsAuthorizeTooMuch`). `AuthorizedMeans` speaks of selectors that
  masking does not disturb.
- A selector that finds fewer nodes in a masked document stops the comparison with an index error. Giving the same
  selector twice is enough (`AuthorizePatches`, `SelectorTwiceFails`).

## Model

| member | source | states |
|---|---|---|
| ModOrder.EnsureExactlyOneOrderEntry | runtime/src/kcd2_mod_build_deploy/atomic_deployment.py:1263-1293 | the loop over byte lines computes `Edit`: the first line naming the mod is kept, later ones dropped, or a line is appended with the last newline style; invalid UTF-8 and a failed final check are errors |
| ModOrder.KeepChunks | runtime/src/kcd2_mod_build_deploy/atomic_deployment.py:1273-1284 | the chunk loop keeps exactly the chunks of `KeepFirst`, and knows whether a line named the mod and which newline came last |
| ModOrderProofs.EditMeaning | runtime/src/kcd2_mod_build_deploy/atomic_deployment.py:1263-1307 | the edit succeeds exactly on valid UTF-8 with no entry hidden behind an exotic separator; then the BOM is kept, exactly one entry names the mod, and all other entries are kept in order |
| ModOrderProofs.EditedEntries | runtime/src/kcd2_mod_build_deploy/atomic_deployment.py:1275-1293 | the entries after an edit are those before without repeated mentions of the mod, or with the mod appended when nothing named it |
| ModOrderProofs.EditIdempotent | runtime/src/kcd2_mod_build_deploy/atomic_deployment.py:1263-1293 | editing an accepted result again changes nothing |
| ModOrderProofs.UnchangedWhenOne | runtime/src/kcd2_mod_build_deploy/atomic_deployment.py:1275-1293 | a file with exactly one line naming the mod comes back byte for byte |
| ModOrderProofs.EntriesConcat | runtime/src/kcd2_mod_build_deploy/atomic_deployment.py:1275-1284 | joining two texts joins their entries, also where dropping a line makes a CR meet an LF |
| ModOrderProofs.DecodesByLine | runtime/src/kcd2_mod_build_deploy/atomic_deployment.py:1268-1277 | a file is valid UTF-8 exactly when each of its lines is |
| ModOrderProofs.VerifierNeverTrips | runtime/src/kcd2_mod_build_deploy/atomic_deployment.py:1296-1307 | where no separator is exotic, every valid file is edited and the final verifier never refuses |
| ModOrderProofs.SplittersAgree | runtime/src/kcd2_mod_build_deploy/atomic_deployment.py:1273-1304 | the byte splitter and the text splitter find the same entries in text without exotic separators |
| ModOrderProofs.HiddenEntryTripsVerifier | runtime/src/kcd2_mod_build_deploy/atomic_deployment.py:1296-1307 | a concrete file on which the splitters disagree and the edit is refused |
| Deployment.Machine.Install | runtime/src/kcd2_mod_build_deploy/atomic_deployment.py:320-502 | all or nothing for any faults: without faults it succeeds exactly where the receipt can be written, and otherwise is undone; installed means source tree and edited order with a backup of the exact old state; undone means the exact old bytes; stuck only if restoring failed, with the backup intact; the two mutation-before-backup errors never occur; one fault never leaves it stuck, if the receipt can be written |
| Deployment.Machine.InstallSteps | runtime/src/kcd2_mod_build_deploy/atomic_deployment.py:381-470 | no flag marks a mutation before the backup is verified, unflagged state is unchanged, and a verified backup holds the exact old target and order |
| Deployment.Machine.BackUp | runtime/src/kcd2_mod_build_deploy/atomic_deployment.py:389-402 | a backup is verified only if both copies equal the originals |
| Deployment.Machine.SwapTarget | runtime/src/kcd2_mod_build_deploy/atomic_deployment.py:414-420 | whatever step fails, the target is gone or a part of the old or the new tree |
| Deployment.Machine.RestoreOriginal | runtime/src/kcd2_mod_build_deploy/atomic_deployment.py:1226-1260 | restoration that succeeds gives back the exact old target and order |
| Deployment.Machine.Preflight | runtime/src/kcd2_mod_build_deploy/atomic_deployment.py:820-936 | a plan is made only where the preconditions hold, and without faults always there; it is the edited order with the old target's digest |
| Deployment.Machine.Transact | runtime/src/kcd2_mod_build_deploy/atomic_deployment.py:385-502 | the steps, and on failure the restoration and the failure receipt |
| Deployment.Machine.CheckRollback | runtime/src/kcd2_mod_build_deploy/atomic_deployment.py:539-561 | a rollback passes its checks only if `Rollbackable`: readable receipt, a mods folder within its bound, no drift, intact backup, no earlier rollback |
| Deployment.Machine.RestoreSteps | runtime/src/kcd2_mod_build_deploy/atomic_deployment.py:581-620 | success means the backed-up target and order are in place |
| Deployment.Machine.Recover | runtime/src/kcd2_mod_build_deploy/atomic_deployment.py:621-637 | the recovery copy becomes the installed state again |
| Deployment.Machine.Rollback | runtime/src/kcd2_mod_build_deploy/atomic_deployment.py:505-637 | restores the exact bytes the receipt names, or refuses or undoes with target and order as they were; any drift, a damaged backup and a repetition are refused with nothing changed; each receipt completes at most once, and none after a rollback of it was undone |
| Deployment.Machine.ReversibleMeansReadable | runtime/src/kcd2_mod_build_deploy/atomic_deployment.py:1695-1858 | after the preflight an install is reversible exactly when its receipt is readable and the mods folder has room; that is, when the receipt fits one MiB, the old files and native components have safe paths, and no native component passes 16 GiB |
| Deployment.RestoresWhatWasFound | runtime/src/kcd2_mod_build_deploy/atomic_deployment.py:586-606 | the digests of a receipt pin both states of its install |
| Deployment.Machine.InstallThenRollback | runtime/src/kcd2_mod_build_deploy/atomic_deployment.py:320-637 | install then rollback is the identity on the target and the order; without faults the install succeeds exactly where its receipt can be written, and then the rollback exactly where `Reversible` holds of the candidate, the target, the order and the mods folder before the install |
| Deployment.Machine.Run | runtime/src/kcd2_mod_build_deploy/atomic_deployment.py:320-637 | over any run of installs, rollbacks and outside disturbances of the installed state and the backups: the completed steps chain from the first state to the last, an install leaves its candidate and the edited order, each receipt is taken back at most once, and taking back ends in exactly what the install had found |
| DeploymentProofs.UnreadableReceipt | runtime/src/kcd2_mod_build_deploy/atomic_deployment.py:1742-1769 | a concrete install, without faults or drift, whose rollback is refused because the folder it replaced held a file with a name that some file systems allow and no receipt may hold |
| DeploymentProofs.OversizedComponent | runtime/src/kcd2_mod_build_deploy/atomic_deployment.py:1787-1796 | the same on any platform, because a native component is registered with one byte more than 16 GiB |
| DeploymentProofs.FullFolder | runtime/src/kcd2_mod_build_deploy/atomic_deployment.py:1846-1858 | the same because the mods folder had 4096 other entries |
| DeploymentProofs.NamelessComponent | runtime/src/kcd2_mod_build_deploy/atomic_deployment.py:209-215 | a concrete candidate that is installed and then put back, because its receipt cannot be written |
| Lineage.CycleCheck.Visit | runtime/src/kcd2_mod_build_deploy/candidate_registry.py:474-484 | a visit either extends a topological order by everything it can reach or returns a concrete cycle |
| Lineage.CycleCheck.Validate | runtime/src/kcd2_mod_build_deploy/candidate_registry.py:470-486 | the whole depth-first search: an order of all candidates, or a cycle |
| Lineage.ValidateAcyclic | runtime/src/kcd2_mod_build_deploy/candidate_registry.py:470-486 | accepted if and only if the lineage graph has no cycle |
| Lineage.OrderMeansAcyclic | runtime/src/kcd2_mod_build_deploy/candidate_registry.py:470-486 | an order in which every edge points back excludes every cycle |
| Lineage.AddingKeepsAcyclic | runtime/src/kcd2_mod_build_deploy/candidate_registry.py:387-401 | a new record cannot close a cycle |
| Lineage.ParentsReachRoot | runtime/src/kcd2_mod_build_deploy/candidate_registry.py:440-467 | in a valid registry the chain of parents ends at a candidate without a parent |
| Lineage.Reachable | runtime/src/kcd2_mod_build_deploy/candidate_registry.py:503-520 | the worklist computes exactly the candidates connected by `variant_of` edges in either direction |
| Lineage.CheckLabel | runtime/src/kcd2_mod_build_deploy/candidate_registry.py:496-523 | one folded label is accepted exactly when its users agree |
| Lineage.ValidateAliases | runtime/src/kcd2_mod_build_deploy/candidate_registry.py:489-523 | accepted if and only if candidates sharing a label share one variant key and are connected |
| Lineage.Construct | runtime/src/kcd2_mod_build_deploy/candidate_registry.py:368-385 | which of the four errors is raised, exactly, or that the registry is valid |
| Lineage.Add | runtime/src/kcd2_mod_build_deploy/candidate_registry.py:387-401 | keeps validity, changes no record, is idempotent on an equal record, refuses a different one, and never reports a cycle |
| Lineage.Build | runtime/src/kcd2_mod_build_deploy/candidate_registry.py:387-401 | every registry reachable by additions is valid |
| ScopeReceipt.EmitIdempotent | runtime/src/kcd2_index_adapter/scope_guard.py:422-490 | judging the access that a receipt records gives the same receipt |
| ScopeReceipt.AcceptedIffInScope | runtime/src/kcd2_index_adapter/scope_guard.py:422-546 | a guard accepts its own receipt exactly when every root is within an allowed one and nothing was leaked, passed or left incomplete |
| MeasuredReceipt.LengthShape | runtime/src/kcd2_index_adapter/exact_inspection.py:568-588 | the real length of a response, as a function of the length it reports, is a base plus the digits plus at most ninety bytes for passing the limit |
| MeasuredReceipt.MeasureLoop | runtime/src/kcd2_index_adapter/exact_inspection.py:568-602 | the loop of eight rounds converges, in at most six, to the least fixpoint for every base and limit |
| MeasuredReceipt.FittingIsUnflagged | runtime/src/kcd2_index_adapter/exact_inspection.py:610-639 | a response whose own length fits is never measured as passing the limit |
| MeasuredReceipt.EmitMeasured | runtime/src/kcd2_index_adapter/exact_inspection.py:563-602 | the reported length is the length of the response that contains it, and the least such; the limit is flagged exactly when it is passed or was already |
| MeasuredReceipt.FitResponse | runtime/src/kcd2_index_adapter/exact_inspection.py:605-639 | the truncation loop ends with the first truncation that fits, with its true length, or fails exactly when even the empty response does not fit |
| ExactRefresh.ReadRowsAreStorable | runtime/src/kcd2_index_adapter/exact_refresh.py:268-302 | a row read from the table can be stored and read again exactly if its digest was written without the ligature |
| ExactRefresh.Operations | runtime/src/kcd2_index_adapter/exact_refresh.py:327-346 | the computed operations are a diff: one for each key whose rows are not equal in value, and none for others |
| ExactRefresh.InverseOperations | runtime/src/kcd2_index_adapter/exact_refresh.py:448-461 | the journal is the inverted operations in reverse order |
| ExactRefresh.DiffApplies | runtime/src/kcd2_index_adapter/exact_refresh.py:327-445 | a diff applied to `before` never fails, and gives `after` exactly if no two different rows are equal in value |
| ExactRefresh.InverseIsDiff | runtime/src/kcd2_index_adapter/exact_refresh.py:448-461 | the inverse operations are a diff from `after` to `before` |
| ExactRefresh.DiffRoundTrip | runtime/src/kcd2_index_adapter/exact_refresh.py:327-461 | wherever a diff leads, its inverse restores every row from there |
| ExactRefresh.OperationsFollowRows | runtime/src/kcd2_index_adapter/exact_refresh.py:415-445 | applying operations to the stored table and decoding is applying them to the decoded rows |
| ExactRefresh.OperationsKeepOthers | runtime/src/kcd2_index_adapter/exact_refresh.py:415-445 | no operation touches a stored row of another provider |
| ExactRefresh.PlanLeads | runtime/src/kcd2_index_adapter/exact_refresh.py:588-600 | the operations of a dry run lead to the desired rows exactly if no two different rows are equal in value and every row they write can be read back |
| ExactRefresh.Database.MakePlan | runtime/src/kcd2_index_adapter/exact_refresh.py:349-379 | a dry run gives a genuine plan for the rows as they are, or nothing where a row is malformed |
| ExactRefresh.NumberTypeIsMissed | runtime/src/kcd2_index_adapter/exact_refresh.py:343-346 | a concrete dry run that plans nothing for a number turned truth value, and the refusal of its plan on undrifted rows |
| ExactRefresh.LigatureCannotReturn | runtime/src/kcd2_index_adapter/exact_refresh.py:69-76 | a concrete removal that commits and whose journal is then refused |
| ExactRefresh.Database.Apply | runtime/src/kcd2_index_adapter/exact_refresh.py:588-600 | the loop applies the operations in order, or stops at the first that does not hit |
| ExactRefresh.Database.Transact | runtime/src/kcd2_index_adapter/exact_refresh.py:588-614 | every failure restores the table; success moves exactly one provider from the checked state to the required one |
| ExactRefresh.Database.Commit | runtime/src/kcd2_index_adapter/exact_refresh.py:539-643 | unchanged, or exactly the target provider moves to the requested rows; a genuine plan moves exactly when it is attainable and nothing drifted between the hashing passes; the journal is returned exactly when some length of the report fits the limit |
| ExactRefresh.Database.Report | runtime/src/kcd2_index_adapter/exact_refresh.py:515-536 | the measuring loop accepts a report exactly when it has a length within the limit |
| ExactRefresh.MovedWithoutJournal | runtime/src/kcd2_index_adapter/exact_refresh.py:610-643 | a family of requests that move a row and then fail for the size of their report |
| ExactRefresh.Database.Rollback | runtime/src/kcd2_index_adapter/exact_refresh.py:646-714 | accepted only from the journal's post-state, and then it restores the pre-state; a genuine journal is accepted exactly there, if what it writes back can be read |
| ExactRefresh.CommitJournalIsGenuine | runtime/src/kcd2_index_adapter/exact_refresh.py:620-643 | the journal that a genuine commit writes is genuine, and can be rolled back exactly if the replaced rows can be written back |
| ExactRefresh.RefreshThenRollback | runtime/src/kcd2_index_adapter/exact_refresh.py:539-714 | refresh then rollback gives the same decoded rows; without faults both are accepted exactly when the plan is attainable, the replaced rows can be written back, and the report fits |
| ExactRefresh.MoveExtends | runtime/src/kcd2_index_adapter/exact_refresh.py:588-714 | one more accepted transaction extends a history that explains the table |
| ExactRefresh.Run | runtime/src/kcd2_index_adapter/exact_refresh.py:539-714 | after any run by any providers, the committed transactions alone explain every provider's rows, and rows nobody moved are stored as they were |
| PagedStore.Store.WriteRecords | runtime/src/kcd2_index_adapter/response_normalizer.py:192-259 | success exactly within the bounds and without a damaged file under the same digest; then the file is the canonical lines; which error otherwise |
| PagedStore.Store.ReadPage | runtime/src/kcd2_index_adapter/response_normalizer.py:301-369 | cursor checks, then the page at that offset |
| PagedStore.Store.ReadRecords | runtime/src/kcd2_index_adapter/response_normalizer.py:318-369 | the page loop collects records until the next does not fit; the final envelope check never fires |
| PagedStore.Store.ReadVerified | runtime/src/kcd2_index_adapter/response_normalizer.py:371-391 | the whole file is verified against its digest before any record is given |
| PagedStore.Store.IterateRecords | runtime/src/kcd2_index_adapter/response_normalizer.py:371-391 | the verified stream of an artifact |
| PagedStoreProofs.PageOfWritten | runtime/src/kcd2_index_adapter/response_normalizer.py:301-369 | a page at a record boundary holds the records from there until the next would not fit, with the next boundary as cursor |
| PagedStoreProofs.CursorsAreBoundaries | runtime/src/kcd2_index_adapter/response_normalizer.py:293-299 | the offsets a written artifact accepts are exactly its record boundaries |
| PagedStoreProofs.ProgressIffAlone | runtime/src/kcd2_index_adapter/response_normalizer.py:349-356 | a page makes progress exactly when its first record fits alone |
| PagedStoreProofs.ExtentWithinLimit | runtime/src/kcd2_index_adapter/response_normalizer.py:340-369 | every page with records is within its limit |
| PagedStoreProofs.IterateWritten | runtime/src/kcd2_index_adapter/response_normalizer.py:371-391 | the verified stream of a written artifact is the written records |
| PagedStoreProofs.WriteThenPage | runtime/src/kcd2_index_adapter/response_normalizer.py:192-369 | following the cursors from the first page gives exactly the written records in order, or stops at a record that does not fit its page alone |
| InventoryPreset.Quantity | runtime/src/kcd2_index_adapter/inventory_presets.py:208-233 | every known quantity is an interval of non-negative numbers |
| InventoryPreset.Walker.Walk | runtime/src/kcd2_index_adapter/inventory_presets.py:416-582 | the recursive walk appends what the pure preorder emits, as far as the node limit leaves room, and flags exactly when a limit is met; it ends on every cyclic or shared graph |
| InventoryPreset.Walker.Capacity | runtime/src/kcd2_index_adapter/inventory_presets.py:377-383 | there is room exactly below the node limit, and running out is flagged |
| InventoryPreset.Walker.Offer | runtime/src/kcd2_index_adapter/inventory_presets.py:377-412 | an entry is appended with its edge exactly when there is room |
| InventoryPreset.FillInSteps | runtime/src/kcd2_index_adapter/inventory_presets.py:377-383 | truncating step by step is truncating the whole at once |
| InventoryPresetProofs.EmitIsTree | runtime/src/kcd2_index_adapter/inventory_presets.py:416-582 | every entry hangs below an earlier expanded node, with the probability, interval and bounds multiplied along its path |
| InventoryPresetProofs.EdgeCount | runtime/src/kcd2_index_adapter/inventory_presets.py:428-437 | there is one edge for every node and outcome but the root |
| InventoryPresetProofs.PathsDoNotRepeat | runtime/src/kcd2_index_adapter/inventory_presets.py:428-463 | a node's depth is the length of its root path and within the limit; no preset repeats on a path, and a repetition is exactly a cycle node |
| InventoryPresetProofs.CombineAdmits | runtime/src/kcd2_index_adapter/inventory_presets.py:251-256 | combined level bounds admit exactly the levels that both admit |
| InventoryPresetProofs.BoundsAlongPath | runtime/src/kcd2_index_adapter/inventory_presets.py:486-519 | the bounds a node carries admit a level exactly when every reference on its root path does |
| InventoryPresetProofs.ExcludedMeans | runtime/src/kcd2_index_adapter/inventory_presets.py:259-280 | an item is excluded exactly when its bounds are valid and jointly satisfiable, a level is given, and some bound rules it out |
| InventoryPresetProofs.ProbabilityConserved | runtime/src/kcd2_index_adapter/inventory_presets.py:294-303 | the known outcome probabilities below a visit and what it loses add up to exactly the probability entering it |
| InventoryPresetProofs.LostAtLeastZero | runtime/src/kcd2_index_adapter/inventory_presets.py:294-303 | what a visit loses is never negative |
| InventoryPresetProofs.NothingLost | runtime/src/kcd2_index_adapter/inventory_presets.py:465-560 | where every node expands into named, weighted children and no item is excluded, nothing is lost |
| InventoryPresetProofs.PrefixSum | runtime/src/kcd2_index_adapter/inventory_presets.py:535-564 | cutting the output off never raises the sum of known probabilities, and none is negative |
| InventoryPresetProofs.Resolve | runtime/src/kcd2_index_adapter/inventory_presets.py:334-586 | the whole resolution: a tree within the node limit, one edge fewer than entries, known probabilities between zero and one, and exactly one minus the loss when nothing is cut |
| TableMerge.PatchAttributes | runtime/src/kcd2_index_adapter/table_semantics.py:604-609 | the in-place loop overwrites mentioned values and appends new names |
| TableMerge.PatchedLookup | runtime/src/kcd2_index_adapter/table_semantics.py:604-609 | after a patch a name has the new value where there is one, else the old, also where names repeat |
| TableMerge.MergeRow | runtime/src/kcd2_index_adapter/table_semantics.py:584-631 | the branches for a further row: restatement, old table, new table and the five list behaviours, with the reason each raises |
| TableMerge.MergeEffectiveRecords | runtime/src/kcd2_index_adapter/table_semantics.py:550-633 | the single pass over dictionaries gives one record for each key, folded over the rows that count, charges each row its reason and collects all reasons |
| TableMerge.KeysInFirstSeenOrder | runtime/src/kcd2_index_adapter/table_semantics.py:571-573 | the result has exactly the keys of some row, each once, ordered by first row |
| TableAudit.MergedAttribute | runtime/src/kcd2_index_adapter/table_semantics.py:584-609 | an effective attribute has the value of the last counted row mentioning it that does not merely restate the record, or, in old tables, of the last such row |
| TableAudit.MergedNames | runtime/src/kcd2_index_adapter/table_semantics.py:584-609 | an effective record mentions a name exactly when the audit has a deciding row for it |
| TableAudit.UniqueNamesAgree | runtime/src/kcd2_index_adapter/portfolio_table_audit.py:247-254 | where no row repeats a name, the deciding row and the row that set the value agree |
| TableAudit.MergedProviders | runtime/src/kcd2_index_adapter/table_semantics.py:573-590 | the contributing providers are those of the counted rows in order |
| TableAudit.OldRecordResolved | runtime/src/kcd2_index_adapter/table_semantics.py:592-602 | an old table's record is resolved exactly when each row names everything the row before it names |
| TableAudit.MergedChildSource | runtime/src/kcd2_index_adapter/table_semantics.py:592-631 | where the effective children come from, for each list behaviour |
| TableAudit.GroupedRowsCount | runtime/src/kcd2_index_adapter/portfolio_table_audit.py:211-244 | grouping by key and then dropping repetitions of a provider keeps exactly the rows the merge counts |
| TableAudit.WinAttributes | runtime/src/kcd2_index_adapter/portfolio_table_audit.py:248-254 | each attribute's winner is the row that decides it |
| TableAudit.RecordAudits | runtime/src/kcd2_index_adapter/portfolio_table_audit.py:202-327 | one audit for each effective record, about the rows that the merge counts for it |
| TableAudit.AuditAgrees | runtime/src/kcd2_index_adapter/portfolio_table_audit.py:247-254 | the audit's attribute winners are always the effective attributes, and the providers agree; a winner supplies the effective value exactly where the row that set it has the same value (a condition on the merge's own record), and so always where no row repeats a name |
| TableAudit.RepeatedNamesDisagree | runtime/src/kcd2_index_adapter/table_semantics.py:585-587 | a concrete disagreement: two rows that repeat a name in swapped order |
| TableAudit.EveryRecordIsAudited | runtime/src/kcd2_index_adapter/portfolio_table_audit.py:202-327 | every effective record of a table has an audit, which matches it exactly under that condition |
| TableAudit.MergeAndAudit | runtime/src/kcd2_index_adapter/portfolio_table_audit.py:386-401 | merging a table and auditing the same rows gives one audit for each record, and they match where no row repeats a name |
| TableAudit.ChildWinnersAgree | runtime/src/kcd2_index_adapter/portfolio_table_audit.py:256-268 | the cited children are the effective children exactly under a stated condition, which always holds for replaced lists and for old tables that do not append |
| TableAudit.RestatedChildIsCitedTwice | runtime/src/kcd2_index_adapter/portfolio_table_audit.py:257-262 | a concrete disagreement: an appended child restated by a second provider is merged once and cited twice |
| ShadowMetrics.CountChanges | runtime/src/kcd2_index_adapter/table_semantics.py:993-1011 | the loop counts the keys that changed and the keys that are duplicated |
| ShadowMetrics.CompareTables | runtime/src/kcd2_index_adapter/table_semantics.py:993-1108 | the emitted metrics |
| ShadowMetrics.RoundSeparates | runtime/src/kcd2_index_adapter/conflict_classifier.py:623-625 | six places tell apart any two shares of at most twenty thousand records |
| ShadowMetrics.CountsPartition | runtime/src/kcd2_index_adapter/table_semantics.py:993-1011 | changed and duplicated keys together are the candidate's keys, or all keys when the file is replaced |
| ShadowMetrics.AcceptedIffNothingAdded | runtime/src/kcd2_index_adapter/conflict_classifier.py:608-654 | the validator, which sees counts only, accepts exactly when the candidate adds no key, and for a replaced file has the same keys |
| ShadowMetrics.WhyRejected | runtime/src/kcd2_index_adapter/conflict_classifier.py:611-625 | which of two errors an added key causes |
| ShadowMetrics.EmittedMetricsAccepted | runtime/src/kcd2_index_adapter/table_semantics.py:276-291 | for real profiles: accepted exactly when the profile is unsupported or no key is added |
| ArchiveCache.ReadArchive | runtime/src/kcd2_mod_build_deploy/archive_member_cache.py:169-201 | a direct read succeeds exactly when the members are canonical, distinct when folded, supported and within the bounds; then it gives the member map |
| ArchiveCache.LoadItems | runtime/src/kcd2_mod_build_deploy/archive_member_cache.py:135-163 | the ledger loop succeeds exactly when every item is good and its object intact |
| ArchiveCache.LoadEntry | runtime/src/kcd2_mod_build_deploy/archive_member_cache.py:109-166 | an entry loads exactly when its manifest is in order, its objects are intact and the archive it describes is readable under the bounds; it raises what nobody catches exactly when `Escapes` |
| ArchiveCache.BuildEntry | runtime/src/kcd2_mod_build_deploy/archive_member_cache.py:71-93 | populating writes the true ledger of the members with all objects |
| ArchiveCache.SameTotal | runtime/src/kcd2_mod_build_deploy/archive_member_cache.py:71-92 | two lists of the same members are equally long and large, whatever their order |
| ArchiveCache.LedgerLoads | runtime/src/kcd2_mod_build_deploy/archive_member_cache.py:109-166 | an entry with its true manifest loads exactly when its objects are intact and a direct read under the same bounds would succeed |
| ArchiveCache.UndetectedEntries | runtime/src/kcd2_mod_build_deploy/archive_member_cache.py:109-166 | exactly the entries whose damage goes undetected: the ledger adds up over stored objects and describes other members than the archive's |
| ArchiveCache.SoundIsFaithful | runtime/src/kcd2_mod_build_deploy/archive_member_cache.py:109-166 | an entry with its true or a broken manifest, and any objects, never gives anything but the archive's members |
| ArchiveCache.Cache.Read | runtime/src/kcd2_mod_build_deploy/archive_member_cache.py:29-106 | a hit gives what the entry's ledger says; where a link is in the way or loading raises what nobody catches, the call raises and nothing changes; otherwise the call succeeds exactly when the direct read does and the manifest fits, and the bad entry is set aside and rebuilt; without forged manifests the result is always the direct read's |
| ArchiveCache.Run | runtime/src/kcd2_mod_build_deploy/archive_member_cache.py:29-106 | over any run in which objects change in any way, manifests are lost or broken, and entries are removed or become files or links, every reading gives what the archive gives, unless something is in its way that an event has put there; each state of the cache follows from the one before |
| ArchiveCache.TooDeepStays | runtime/src/kcd2_mod_build_deploy/archive_member_cache.py:119-126 | a manifest nested too deep makes every call raise, under any bounds, and is never set aside |
| ArchiveCache.PlainFileForObjects | runtime/src/kcd2_mod_build_deploy/archive_member_cache.py:151-157 | a plain file in the place of the objects makes a call raise although the archive is readable |
| ArchiveCache.ServedUnderWrongName | runtime/src/kcd2_mod_build_deploy/archive_member_cache.py:116-166 | a manifest in which only one path was changed passes verification, and the member is served under the wrong name |
| ParentDiff.MaskOneMore | runtime/src/kcd2_mod_build_deploy/candidate_parent_diff.py:497-512 | masking a node in a masked tree is masking by one label more |
| ParentDiff.ResidualMeans | runtime/src/kcd2_mod_build_deploy/candidate_parent_diff.py:406-407 | the canonical forms of any two masked documents are equal exactly when the documents agree outside the masks, tails included, up to elements that forge a marker |
| ParentDiff.ForgeryIsOneSided | runtime/src/kcd2_mod_build_deploy/candidate_parent_diff.py:497-521 | documents agree outside the masks exactly when they do up to forgery and no node is masked in one of them only |
| ParentDiff.NoMarkerNoForgery | runtime/src/kcd2_mod_build_deploy/candidate_parent_diff.py:497-521 | without elements called like a marker outside the masked nodes there is no forgery |
| ParentDiff.LabelIsFirst | runtime/src/kcd2_mod_build_deploy/candidate_parent_diff.py:497-512 | an element that a selector gives more than once keeps the number of the first time |
| ParentDiff.ApplyPatch | runtime/src/kcd2_mod_build_deploy/candidate_parent_diff.py:387-405 | one patch compares its nodes and masks as many in both documents, or runs out of an index |
| ParentDiff.AuthorizePatches | runtime/src/kcd2_mod_build_deploy/candidate_parent_diff.py:374-418 | what is authorised, exactly, and when the loop fails with an index error |
| ParentDiffProofs.AuthorizedUpToForgery | runtime/src/kcd2_mod_build_deploy/candidate_parent_diff.py:374-418 | for any selectors and documents: authorised exactly when all selectors match, a selected node changed and the documents agree outside the masked nodes up to forgery |
| ParentDiffProofs.AuthorizedMeans | runtime/src/kcd2_mod_build_deploy/candidate_parent_diff.py:374-418 | with selectors that masking does not disturb, for all documents: no failure, and authorised exactly when all selectors match, a selected node changed and the documents agree outside the selected nodes up to forgery |
| ParentDiffProofs.AuthorizedStaysInside | runtime/src/kcd2_mod_build_deploy/candidate_parent_diff.py:374-418 | an authorised change stays inside the selected nodes exactly where no selected node is one-sided, and so wherever no element outside the selected nodes is called like a marker |
| ParentDiffProofs.ForgedMarkerIsAuthorized | runtime/src/kcd2_mod_build_deploy/candidate_parent_diff.py:398-407 | a concrete pair of documents in which a new unselected element, called like a marker, is authorised by one patch |
| ParentDiffProofs.AgreesAt | runtime/src/kcd2_mod_build_deploy/candidate_parent_diff.py:406-407 | agreement read at any one element outside the selected nodes |
| ParentDiffProofs.CountingSelectorsAuthorizeTooMuch | runtime/src/kcd2_mod_build_deploy/candidate_parent_diff.py:388-407 | a concrete pair of patches with sibling-counting selectors that authorises a change outside the selected nodes |
| ParentDiffProofs.SelectorTwiceFails | runtime/src/kcd2_mod_build_deploy/candidate_parent_diff.py:398-405 | a concrete member for which the same selector given twice runs out of nodes to mask |
| ParentLedger.ChangedMember | runtime/src/kcd2_mod_build_deploy/candidate_parent_diff.py:315-359 | the entries of a changed member are all declared exactly when a replacement or the patches cover it |
| ParentLedger.CompareMember | runtime/src/kcd2_mod_build_deploy/candidate_parent_diff.py:275-311 | one path's entries are all declared exactly when the path is covered |
| ParentLedger.CompareMembers | runtime/src/kcd2_mod_build_deploy/candidate_parent_diff.py:267-312 | every path of either archive is judged, or there is a failure, exactly when a selector runs out of nodes for some changed member |
| ParentLedger.Diff | runtime/src/kcd2_mod_build_deploy/candidate_parent_diff.py:178-216 | a verdict is missing exactly when a selector runs out of nodes for some changed member; otherwise PASS exactly when the clean parent equals the declared parent and every path is byte-identical or covered by a matching declaration |
| Topology.NumberChildren | runtime/src/kcd2_index_adapter/quest_topology.py:382-389 | the inner loop numbers children by tag |
| Topology.DrainChildren | runtime/src/kcd2_index_adapter/quest_topology.py:374-390 | popping the reversed children gives their subtrees in order |
| Topology.CollectElements | runtime/src/kcd2_index_adapter/quest_topology.py:369-391 | the explicit stack gives exactly the recursive preorder, and fails exactly on too many elements or an over-long locator |
| TopologyProofs.ParentsAreTrue | runtime/src/kcd2_index_adapter/quest_topology.py:376-391 | indices count up, every parent index is smaller, and the parent is the true one |
| TopologyProofs.PreorderDistinct | runtime/src/kcd2_index_adapter/quest_topology.py:382-389 | no two elements have the same list of steps |
| TopologyProofs.RenderInjective | runtime/src/kcd2_index_adapter/quest_topology.py:385-388 | different locators are different texts |
| TopologyProofs.LocatorsDistinct | runtime/src/kcd2_index_adapter/quest_topology.py:369-391 | all locators of a document are distinct texts |
| TopologyProofs.ContainmentEdges | runtime/src/kcd2_index_adapter/quest_topology.py:456-542 | exactly one containment edge, from its parent, for each node whose parent is a node, and no other |

## Left out

- Real file-system, SQLite, ZIP and XML libraries: trees, tables, archives and documents are values with the stated
  operations. `_atomic_write_bytes` is all or nothing, and a copy never outgrows the bounds its source meets. Faults
  that `except Exception` does not catch, such as an interrupt.
- Deployment.Machine.Preflight: the approval verifier, the deployment registry, the snapshot and package gates, the
  conflict report and the build attestations are taken as passed. The parts of a receipt that only quote them are
  absent.
- The checks that a receipt's paths lie in its own transaction folder: a transaction is found by its name.
- Deployment.Machine.Transact: the transaction folder under construction is a value that is stored when the steps
  end, so the model does not tell in what order its own files appear on disk.
- Python's recursion limit on very deep lineage chains and documents, where it only adds an error, and the bound on the
  number of registered candidates.
- `_canonical_path`, the shape checks of a returned receipt, and the access counters that no status depends on.
- Hashing of a provider's files: three observed values. The report of a dry run.
- The temporary file of an artifact and its replacement are one step; temporary files left by a crash.
- The normalizer's own shortening of responses, which repeats the truncation loop modelled for inspections.
- Entry points, provenance, health values and reason lists of inventory resolutions. Floats are reals there.
- Parsing of table rows and validation of profiles.
- The audit's list of duplicate rows, its upstream restorations, and project and digest citations: a winner is the
  winning row itself.
- The texts of semantic changes. Shadow ratios are reals rounded half to even, not floats.
- Concurrent writers of one cache entry, the checks of the cache root, and a digest that is not the archive's.
- ParentDiff.AuthorizePatches: trees are values with paths for element identity, so masking in place and the aliasing
  of the copied documents are not modelled.
- The wording and number of fragment entries in the diff ledger, external components, and the human report.
- Element attributes, node kinds, declared edges, ownership and the edge bound of topology documents. Node identifiers
  are the indices of the records; the source uses truncated digests of their locators.
- Status projections, provider classification, coverage and lifecycle summaries: simple folds with easy properties.
