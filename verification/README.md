# Penca read path in Dafny

Penca is a branchable, versioned table store. Writes go to append-only upsert and delete logs in a
hot tier, are persisted to cold segments, and are folded into snapshots; a read merges what each tier
holds. Most of that path consists of fast forms that must equal simple ones. This project models
them and proves the equalities.

| file | models |
|---|---|
| `Log.dfy` | the specification: replay of events in `(commit_seq_num, write_seq_num)` order, and the view it computes |
| `Resolve.dfy` | the resolver's five CTEs over log rows, with the open transaction's sentinel position |
| `MergeRead.dfy` | the two-arm merge query and the in-memory latest-wins union of tiers |
| `TieredRead.dfy` | hot, cold and snapshot under one fence; layered reads; the unfenced cold form the planner emits |
| `Fork.dfy` | the parent fold and clamped references of a forked branch, at the fork and below it |
| `Lifecycle.dfy` | Commit, Persist, Snapshot and Purge as a state machine over segments, cuts and stamped watermarks, and the planned read in its reachable states |
| `LifecycleRuns.dfy` | short runs that reach each way a planned read can go wrong |
| `ForkRuns.dfy` | forking a branch in any state of its lifecycle, and reads of the child while the parent runs on |
| `Numerals.dfy`, `Literals.dfy` | decimal renderings and parsers, typed literals, the lossless cast, SQL equality |
| `SeekRewrite.dfy`, `Scan.dfy` | filter-to-seek rewrite under three-valued logic, the request a scan sends, the server's key decoding |
| `SegmentIndex.dfy`, `SegmentRead.dfy`, `SeekRead.dfy`, `PersistScan.dfy` | index sidecars, the segment cache, seeked and intersected reads, the persist scan |
| `Digest.dfy` | canonical compaction of byte-view columns |
| `Stats.dfy` | segment statistics from write to fold |
| `Scheduler.dfy`, `Memo.dfy`, `Pagination.dfy` | window bookkeeping of the snapshot loop, build-scoped name resolution, the page-token protocol |

Replay is the yardstick throughout: `Log.ReplayIsView` ties it to a set-based view, and the resolver,
the tiered read, the fork fold and the lifecycle theorem are all stated against it.

Where SQL leaves a choice (which of several tied rows survives), the choice is a parameter, so a
theorem holds for every choice. The environment enters as parameters too: clock readings, failing
calls, eviction, reader interleaving, the identity hash, the digest's encoding and hash, the
engine's coercions, and the meaning of every expression the rewrite does not look into.

## Where the code and its description part

Each of these is a property that does not hold without a condition. The model keeps the code's
behaviour; a lemma gives the failing case and, except where noted, another gives the exact condition.

- The union of hot and cold rows compares `commit_micros`, not `commit_seq_num`. It is right exactly
  when no cold version of a row carries a later timestamp than the hot one
  (`MergeRead.UnionLatestExact`, `MergeRead.ClockStepServesStaleVersion`). Commit timestamps taken
  under the counter's lock give that (`MergeRead.ClockImpliesFenceMonotone`), unless the clock steps back.
- The plan types describe a cold band `(W_snap, W_persist]`; the planner sets no per-row lower bound.
  The band would serve the replay if the baseline were everything up to `W_snap`
  (`TieredRead.FencedReadIsReplay`). In every run without tied timestamps the read as planned is right
  exactly when the fetched rows its baseline already holds are current (`Lifecycle.EveryReadExact`).
- Persist copies every hot row up to its target, so segments overlap until Purge. A Persist between a
  Snapshot and its Purge leaves a segment that straddles the baseline, and a deleted row can come
  back (`LifecycleRuns.StraddlingSegmentResurrects`). Cuts and purge order matter only for this: from
  a baseline whose cut no segment crosses the planned read is the replay
  (`Lifecycle.CleanReadIsReplay`), and cutting at the persist watermark and purging before the next
  Persist keeps every cut clean (`Lifecycle.EveryReadIsReplay`).
- A snapshot's watermark is stamped from whole segments. It is the baseline's own extent exactly when
  no included segment reaches past the cut (`Lifecycle.StampExact`, `LifecycleRuns.StampPastCut`).
- A snapshot misses nothing up to its cut exactly when everything up to the cut was persisted before
  it (`Lifecycle.SnapshotHoldsCut`). A commit that carries the very timestamp the last Persist stopped
  at is in no later window, and a read loses it (`LifecycleRuns.TieIsLost`). Commits stamped later
  than the persist watermark, which a committer can check, are enough for every baseline of every run
  (`Lifecycle.WholeAlways`).
- A fork's copied segments are read without a lower bound too. At or above the fork the read is right
  exactly when the copied rows the baseline holds are current (`ForkRuns.ForkedReadExact`). Below it
  the parent's files are folded in under the copies, which must then all be current
  (`ForkRuns.BelowForkReadInRun`, `Fork.CopiedUpsertShadowsDelete`). The parent may have snapshotted
  since, so that its files start past the child's baseline: the copies fill that gap
  (`ForkRuns.PlanCovers`).
- The persist scan advertises `(commit_seq_num, write_seq_num)` order, on the grounds that different
  Persists write disjoint ranges. They do not when no Purge comes between them
  (`PersistScan.TwoRunsBreakOrder`, `PersistScan.RepersistedBreaksOrder`). The order holds exactly
  when each file ends, in the rows it keeps, where every later one begins (`PersistScan.StreamOrderExact`).
- With an entity filter, `effective_deletes` also names rows outside the filter that are live again
  (`Resolve.FilteredDeletesExact`, `Resolve.LiveOutsideFilterMisleads`, `Resolve.FilteredDeletesCanMislead`).
- `lossless_cast` names the only matching value of the column's type, except for a text column an
  engine compares with a number by parsing the column (`Literals.LosslessCastIsUnique`,
  `Literals.ParsedColumnIsAmbiguous`). A point filter then loses the row that spells the number
  another way, and only then (`SeekRewrite.PointSeekExact`, `SeekRewrite.ParsedKeyIsLost`).
- The same segment read can fail from the cache and succeed past it, exactly when the file fits the
  output schema but not the full one (`SegmentRead.PathsAgree`, `SegmentRead.PathsCanDiffer`).
- Compaction copies the bytes hidden under nulls, so equal rows give equal layouts exactly when the
  hidden bytes agree (`Digest.CompactCanonical`, `Digest.HiddenBytesShow`).
- Pruning bounds take the reader's decimal scale with the writer's digits
  (`Stats.LowSlotExact`, `Stats.HighSlotExact`).
- Folded bounds pass over segments without statistics (`Stats.UnwrittenSegmentEscapes`); they cover
  every segment that wrote its own (`Stats.FoldBounds`). This one has a sufficient condition only.

## Model

| member | source | states |
|---|---|---|
| Log.ReplayIsView | crates/penca-db/src/resolve.rs:123-189 | replaying a commit-ordered history, an upsert beating a delete at the same position, gives exactly the rows whose last event is an upsert, with its columns |
| Log.ViewSplit | crates/penca-core/src/plan.rs:31-52 | cutting a history anywhere in commit order and shadowing the older part row by row gives the whole history's view |
| Resolve.RowNumberIsDistinctOn | crates/penca-dl/src/dialect.rs:29-53 | the rows ranked one by any ROW_NUMBER assignment satisfy the DISTINCT ON specification |
| Resolve.LatestFormsAgree | crates/penca-dl/src/dialect.rs:29-53 | with one version per position, every execution of either latest-wins form keeps the same rows |
| Resolve.LatestUpsertWins | crates/penca-db/src/resolve.rs:143-188 | a row of latest_upserts passes the filter and follows every other selected event of its entity |
| Resolve.LatestUpsertsIsView | crates/penca-db/src/resolve.rs:123-188 | latest_upserts lists exactly the filtered live entities, each once |
| Resolve.ResolveIsReplay | crates/penca-db/src/resolve.rs:123-189 | for every store and every execution of the CTEs, the result is the replay of the writes of commits on the asked branch inside the asked time window, with the open transaction's own writes at the sentinel position, restricted to the row filter |
| Resolve.EffectiveDeletesMeaning | crates/penca-db/src/resolve.rs:184-188 | inside the filter effective_deletes is the entities whose last event is a delete; outside it, every entity ever deleted |
| Resolve.ResultsPartitionTouched | crates/penca-db/src/resolve.rs:123-188 | without a filter, latest_upserts and effective_deletes partition the touched entities |
| Resolve.FilteredDeletesExact | crates/penca-db/src/resolve.rs:184-188 | with a filter, effective_deletes is the deleted entities, no more and no fewer, if and only if no tombstoned entity outside it is live |
| Resolve.LiveOutsideFilterMisleads | crates/penca-db/src/resolve.rs:184-188 | every tombstoned, filtered-out, live entity is reported deleted, in every execution |
| Resolve.FilteredDeletesCanMislead | crates/penca-db/src/resolve.rs:184-188 | a concrete store with such an entity misleads in every execution |
| Resolve.ShadowCommutesWithRank | crates/penca-db/src/resolve.rs:153-188 | dropping shadowed upserts before ranking keeps the same rows as ranking first and dropping shadowed winners |
| Resolve.ExecutionExists | crates/penca-db/src/resolve.rs:123-189 | every store has an execution of the CTEs |
| Resolve.JoinsSelect | crates/penca-db/src/resolve.rs:94-121 | what the joins with the filtered transactions produce is exactly those writes, each at its commit's position |
| Resolve.OpenTxIsReplayThenOwnWrites | crates/penca-db/src/resolve.rs:108-121 | with the sentinel position above every commit, the result is the selected commits replayed, then the open transaction's writes in write order |
| Resolve.ServedRowsAreVisible | crates/penca-db/src/resolve.rs:94-121 | a served row was written by a commit on the asked branch inside the asked window, or by the open transaction, never by another uncommitted one |
| MergeRead.OneArmApplies | crates/penca-merge/src/sql.rs:210-228 | for every touched row exactly one of the two merge arms yields it |
| MergeRead.TwoArmResolves | crates/penca-sql/src/merge_resolution.rs:79-149 | the two-arm query yields every touched row once, carrying its last event |
| MergeRead.TombstoneColumns | crates/penca-merge/src/sql.rs:210-228 | a tombstone row carries the columns of its entity's last upsert, and none exactly when it was never upserted |
| MergeRead.BestPositions | crates/penca-merge/src/resolve.rs:420-445 | the scan records, per row, the first position of the largest timestamp |
| MergeRead.MarkKept | crates/penca-merge/src/resolve.rs:420-445 | the mask keeps exactly the recorded positions |
| MergeRead.DedupByRowUuid | crates/penca-merge/src/resolve.rs:420-445 | the in-place dedup equals keeping each row's first largest-timestamp version, in order |
| MergeRead.UnionLatestExact | crates/penca-merge/src/resolve.rs:221-237 | the union of two tiers carries each row's last event if and only if no cold version has a later timestamp than the hot one |
| MergeRead.UnionLatestResolves | crates/penca-merge/src/resolve.rs:221-237 | under that condition the union resolves the combined history |
| MergeRead.ClockImpliesFenceMonotone | crates/penca-storage-hot/src/tx.rs:107-137 | timestamps that never invert commit order give the condition for every fence |
| MergeRead.ClockStepServesStaleVersion | crates/penca-merge/src/resolve.rs:420-445 | for any older and newer version of a row across the fence, the newer stamped earlier, the union keeps the older |
| TieredRead.MergeServes | crates/penca-merge/src/lib.rs:591-630 | without a parent the merge serves the union's live rows over the snapshot rows it does not touch, filtered |
| TieredRead.MergeWithParentServes | crates/penca-merge/src/lib.rs:693-767 | with a parent the merge serves child over parent over baseline |
| TieredRead.TieredReadIsReplay | crates/penca-core/src/plan.rs:190-253 | hot above the fence, the cold rows up to it that the baseline lacks, and the untouched snapshot rows together serve the replay of the visible history, on every read axis, when no cold version is stamped later than the hot one |
| TieredRead.FencedReadIsReplay | crates/penca-core/src/plan.rs:31-52 | the plan types' contract: hot above W_persist, cold in (W_snap, W_persist] and a baseline of everything up to W_snap serve the replay |
| TieredRead.LayersDecide | crates/penca-merge/src/lib.rs:591-630 | a read layered by row equals the view of a history if and only if every row's topmost layer holds its current version |
| TieredRead.NamedReadRestricts | crates/penca-merge/src/sql.rs:51-112 | the whole merge over hot, cold and snapshot sources restricted to named rows serves exactly those rows of the unrestricted read |
| TieredRead.UnfencedReadExact | crates/penca-merge/src/sql.rs:135-194 | without a per-row lower bound the read is right if and only if the fetched rows the baseline already holds are current |
| TieredRead.UnfencedReadIsReplay | crates/penca-merge/src/sql.rs:135-194 | and then it is the replay under every residual |
| TieredRead.UnfencedReadAboveCommonCut | crates/penca-core/src/plan.rs:31-52 | if the fetch reaches back to one common position without a hole the unfenced read is the replay |
| Fork.ForkedReadIsReplay | crates/penca-core/src/plan.rs:255-276 | the fold's contract: hot over child-cold over the parent's band, capped at min(fork, as-of), over the parent's baseline serves the inherited history and then the child's |
| Fork.ClampedReadExact | crates/penca-api/src/query/meta_plan.rs:251-302 | a read at or above the fork, over the copied references alone and without a lower bound, is right if and only if the copied rows its baseline holds are current |
| Fork.ClampedReadIsReplay | crates/penca-core/src/plan.rs:81-99 | and then it is the replay of the inherited history and the child's, under every residual |
| Fork.BelowForkSources | crates/penca-api/src/query/meta_plan.rs:277-302 | below the fork hot is empty and the child's cold holds inherited rows only |
| Fork.BelowForkTopmostDecides | crates/penca-merge/src/lib.rs:784-825 | for any plan below the fork, whatever files the parent's own pick left, the read is right if and only if each row's topmost source holds its current version |
| Fork.BelowForkReadExact | crates/penca-api/src/query/meta_plan.rs:1132-1207 | where the copies hold what the parent's files and the baseline lack, the read below the fork is right if and only if every fetched copy is current and so is every parent row the baseline holds |
| Fork.BelowForkReadIsReplay | crates/penca-merge/src/lib.rs:693-767 | and then it is the replay of the inherited history, under every residual |
| Fork.CopiedUpsertShadowsDelete | crates/penca-storage-meta/src/fork_copy.rs:409-560 | a copied upsert segment that reaches back over the inherited baseline, beside a delete segment that does not reach past it, brings a deleted row back |
| ForkRuns.FlushReaches | crates/penca-api/src/write/mod.rs:797-818 | persisting up to the fork's timestamp leaves everything up to the fork position in cold, also when the watermark already stands there |
| ForkRuns.CopyGivesTiers | crates/penca-storage-meta/src/fork_copy.rs:409-640 | the copied segments, clamped to the fork and fetched by overlap, hold every row up to the fork the adopted baseline lacks and nothing past it, whatever else the shared files hold |
| ForkRuns.ChildFetchedExactly | crates/penca-api/src/query/meta_plan.rs:196-235 | the same for a child's references, judged on the whole file |
| ForkRuns.ForkedReadExact | crates/penca-api/src/query/meta_plan.rs:251-302 | for a fork taken in any state of any parent run without ties, whatever the child then commits and persists, its planned read at or above the fork is right if and only if the copied rows the adopted baseline holds are current |
| ForkRuns.PlanCovers | crates/penca-api/src/query/meta_plan.rs:1147-1174 | below the fork the plan leaves no hole, also when the parent has snapshotted since: the copies cover what the child's leg lacks, else the parent's files what the parent's leg lacks |
| ForkRuns.BelowForkReadInRun | crates/penca-merge/src/lib.rs:784-825 | for a fork in any state and a read in any later one of a parent run without ties, the planned read below the fork is right if and only if every fetched copy is current and so is every parent row the baseline holds |
| Lifecycle.PurgeKeeps | crates/penca-api/src/lifecycle/purge.rs:113-183 | purging up to a stamped watermark, even one past its snapshot's cut, keeps the tier invariant |
| Lifecycle.InvAlways | crates/penca-api/src/lifecycle/persist.rs:201-363 | in every run of commits, overlapping persists, snapshots at any cut and purges, cold holds a prefix of the log covering the purge mark and every stamped watermark, hot everything past the purge mark, and every baseline serves what was folded into it |
| Lifecycle.FetchedExactly | crates/penca-api/src/query/meta_plan.rs:196-235 | a segment is fetched if and only if it has a row past the baseline's cut and one the read sees |
| Lifecycle.SnapshotHoldsCut | crates/penca-api/src/lifecycle/snapshot_op.rs:205-345 | over a baseline that misses nothing, a snapshot is the replay of everything up to its cut if and only if everything up to the cut had been persisted |
| Lifecycle.StampExact | crates/penca-api/src/lifecycle/snapshot_op.rs:472-491 | that baseline is the replay of everything up to the stamped watermark if and only if no included segment reaches past the cut |
| Lifecycle.TopmostDecides | crates/penca-merge/src/lib.rs:591-630 | in every reachable state, ties included, the planned read is right if and only if each row's topmost source holds its current version |
| Lifecycle.WholeAlways | crates/penca-api/src/lifecycle/snapshot_op.rs:205-345 | in every run whose commits are stamped later than the persist watermark, whatever the order of persists, snapshots at any cut and purges, every baseline is the replay of everything up to its cut |
| Lifecycle.EveryReadExact | crates/penca-api/src/query/meta_plan.rs:196-235 | in every state of such a run, for every eligible baseline, the read planned under the fence max(Pu, W_snap) over the overlapping segments is right if and only if the straddling rows are current |
| Lifecycle.CleanReadIsReplay | crates/penca-api/src/query/meta_plan.rs:1604-1637 | in every state of such a run, from any eligible baseline whose cut no segment crosses, the planned read is the replay of the visible history, under every residual |
| Lifecycle.EveryReadIsReplay | crates/penca-api/src/query/meta_plan.rs:332-344 | if moreover snapshots cut at the persist watermark and each purge precedes the next persist, that holds of every eligible baseline in every state |
| LifecycleRuns.StraddlingSegmentResurrects | crates/penca-api/src/query/meta_plan.rs:214-235 | write, delete, persist, snapshot, write, persist: a state reached without ties whose latest planned read serves the deleted row |
| LifecycleRuns.StampPastCut | crates/penca-storage-meta/src/watermarks.rs:22-44 | a snapshot cut inside a persist run: a state reached without ties where the stamped watermark passes the baseline, a cold read bounded below by it loses a row and the planned read does not |
| LifecycleRuns.TieIsLost | crates/penca-api/src/lifecycle/snapshot_op.rs:205-270 | a commit stamped at the persist watermark: a reachable state whose latest planned read has lost it |
| Numerals.ParseShowInt | crates/penca-datafusion/src/pk_ids.rs:264-290 | reading back a rendered integer gives it |
| Numerals.ParseIntExact | crates/penca-format/src/index/mod.rs:160-237 | a text is read as an integer if and only if it is an optional sign and decimal digits, and the sign counts |
| Numerals.ParseShowDec | crates/penca-datafusion/src/pk_ids.rs:264-290 | reading back a rendered decimal at its scale gives it |
| Literals.LosslessCastIsUnique | crates/penca-datafusion/src/pk_ids.rs:264-290 | an accepted cast is the one value of the declared type SQL equates with the literal, unless a text column is compared by parsing it |
| Literals.ParsedColumnIsAmbiguous | crates/penca-datafusion/src/pk_ids.rs:264-290 | in that case every accepted literal also equals another stored spelling |
| Literals.LosslessCastExact | crates/penca-datafusion/src/pk_ids.rs:264-290 | the cast accepts a literal if and only if a value of the declared type denotes it, an equal number or its own spelling, and yields that value |
| Literals.ParseRescales | crates/penca-format/src/index/mod.rs:160-237 | reading a rendered decimal at another scale rescales it, rounding past the scale as the cast between decimals does |
| Literals.RoundMeaning | crates/penca-datafusion/src/pk_ids.rs:264-290 | that rounding takes the nearest multiple, a tie away from zero |
| SeekRewrite.ConjunctsHold | crates/penca-datafusion/src/pk_ids.rs:96 | all filters are TRUE exactly when all flattened conjuncts are |
| SeekRewrite.SplitUndoesChain | crates/penca-datafusion/src/pk_ids.rs:96 | flattening a chain of AND or OR gives back its parts in order |
| SeekRewrite.FindPkLiterals | crates/penca-datafusion/src/pk_ids.rs:137-188 | the loop returns the literals of the first deciding conjunct |
| SeekRewrite.PkLiteralsExact | crates/penca-datafusion/src/pk_ids.rs:137-207 | the extracted values are those of the first conjunct that lists any: one equality either way round or, for a single key column, an OR of equalities or a non-empty IN list; an IN list with a non-literal before it ends the search |
| SeekRewrite.BuildSeekBatch | crates/penca-datafusion/src/pk_ids.rs:87-128 | the loop returns the batch the filters determine, giving up at the first key column that is not pinned |
| SeekRewrite.SeekBatchExact | crates/penca-datafusion/src/pk_ids.rs:87-128 | a batch is built if and only if every key column has a declared non-float type and a deciding conjunct whose values all cast losslessly, and it holds just those values under those types |
| SeekRewrite.PkLiteralsHold | crates/penca-datafusion/src/pk_ids.rs:137-207 | on a row where every conjunct is TRUE, the key column equals one of the extracted literals |
| SeekRewrite.SeekNeverUnderReturns | crates/penca-datafusion/src/pk_ids.rs:87-128 | whenever a batch is built, every row on which all filters are TRUE has its key in it, unless the engine compares a text key with a number by parsing it |
| SeekRewrite.ParsedKeyIsLost | crates/penca-datafusion/src/pk_ids.rs:264-290 | a text key pinned to a number on such an engine: the row spelling the number another way satisfies the filter and its key is not in the batch |
| SeekRewrite.PointSeekExact | crates/penca-datafusion/src/pk_ids.rs:87-128 | a point filter on one key loses some row of the schema if and only if the engine parses the column |
| Scan.RowUuidsFromPk | crates/penca-api/src/pk_batch.rs:175-212 | a payload is accepted exactly when every non-empty batch is valid and some row remains, and then yields one identity per row in order, computed from the text of every key column of that row |
| Scan.ValidIsKeys | crates/penca-api/src/pk_batch.rs:35-72 | a batch is valid if and only if it has exactly the key columns in order, each of its declared type and without nulls |
| Scan.DisplaysTellApart | crates/penca-api/src/pk_batch.rs:113-126 | two key tuples of the same types have the same texts if and only if they are equal |
| Scan.ClientKeysAccepted | crates/penca-api/src/pk_batch.rs:35-72 | a client-built key batch is always accepted and yields, for every row the filters accept, the identity of the texts of all its key columns |
| Scan.BuildRequest | crates/penca-datafusion/src/table.rs:201-251 | the scan's loops send the key batch and the batch over the union of all fully bound indexes, and drop the filter exactly when each conjunct pins a column that was sent, else keep the translatable filters |
| Scan.TranslatableExact | crates/penca-datafusion/src/expr_to_sql.rs:53-97 | a filter is sent if and only if nothing inside it, at any depth, is an unlisted expression or uses an operator only one engine has |
| Scan.AcceptedIsWanted | crates/penca-datafusion/src/table.rs:192-271 | every row the filters accept passes the packed keys, the index seek and the pushed filter |
| Scan.PushdownIsExact | crates/penca-datafusion/src/table.rs:192-271 | re-applying the whole predicate to any answer that keeps the wanted rows gives exactly the filtered table, in order |
| SegmentIndex.BuildSegmentIndex | crates/penca-format/src/index/mod.rs:67-112 | the artifact lists every row once with its key, sorted nulls last; an error exactly for no column or unequal lengths |
| SegmentIndex.OrderMeaning | crates/penca-format/src/index/mod.rs:67-112 | the sort order: numbers of one type by value, text by its first differing character or by length, nulls after everything |
| SegmentIndex.KeyOrder | crates/penca-format/src/index/mod.rs:67-112 | keys compare by their first differing column |
| SegmentIndex.LowerBound | crates/penca-format/src/index/mod.rs:240-251 | the binary search splits the entries into those below the probe and the rest |
| SegmentIndex.EqualRun | crates/penca-format/src/index/mod.rs:252-257 | the run scan collects exactly the offsets of entries equal to the probe |
| SegmentIndex.SeekRowOffsets | crates/penca-format/src/index/mod.rs:160-265 | exactly the offsets whose leading key columns match some probe, increasing; an error exactly for ragged, empty, over-long or uncastable probes |
| SegmentIndex.IntersectSorted | crates/penca-dl/src/driver.rs:743-759 | the two-pointer merge returns the common elements in order |
| SegmentRead.ShapeThenNarrow | crates/penca-dl/src/driver.rs:276-278 | shaping to the full schema and narrowing equals narrowing directly |
| SegmentRead.TakeThenShape | crates/penca-dl/src/driver.rs:613-632 | taking rows before shaping equals shaping before taking |
| SegmentRead.ShapeMeaning | crates/penca-dl/src/driver.rs:276-278 | shaping succeeds if and only if each asked column is the file's first of that name and fits, or is nullable and missing, and then holds that column or nulls |
| SegmentRead.PathsAgree | crates/penca-dl/src/driver.rs:356-367 | the cached and the bypassing read agree if and only if the file fits the full schema or fits neither |
| SegmentRead.PathsCanDiffer | crates/penca-dl/src/driver.rs:244-269 | a file and schemas for which the two paths differ |
| SegmentRead.ReadUnshaped | crates/penca-dl/src/driver.rs:309-351 | whatever the cache holds, the read yields the native decode or its direct projection, and keeps the cache coherent |
| SegmentRead.ReadSegment | crates/penca-dl/src/driver.rs:356-367 | given that the file fits the full schema, any cache state gives the direct projection |
| SegmentRead.PathsAreDirect | crates/penca-dl/src/driver.rs:604-632 | selecting before shaping, after a projected read, or skipping the decode for an empty selection all give the selected rows of the direct projection |
| SegmentRead.NextKeepsInv | crates/penca-dl/src/driver.rs:222-351 | every step of every reader, and every eviction, keeps entries and held batches right |
| SegmentRead.ThreeTurnsFinish | crates/penca-dl/src/driver.rs:222-351 | whatever the cache holds at each of its turns a reader finishes in three, and one that missed on an admitted file leaves it cached |
| SegmentRead.InterleavedReadsAreDirect | crates/penca-dl/src/driver.rs:222-367 | in every interleaving of readers with their own schemas, inserts and evictions, every finished read, seeked or not, returned its rows of the direct projection |
| SeekRead.SeekEntryOffsets | crates/penca-dl/src/driver.rs:592-602 | a sidecar read through the cache selects exactly the rows whose key is among the probes |
| SeekRead.KeyTypesAre | crates/penca-dl/src/driver.rs:718-741 | the seek types are text for the identity shape and the reader's declared types for named columns, and none exactly when the reader lacks one |
| SeekRead.TakeMatchedRows | crates/penca-dl/src/driver.rs:613-632 | on every cache path the taken rows project to those rows of the direct read |
| SeekRead.IntersectEntries | crates/penca-dl/src/driver.rs:657-693 | the accumulator with its skips and early exits selects exactly the rows passing every typed entry, and restricts nothing exactly when every entry is skipped |
| SeekRead.ReadIntersectSeeked | crates/penca-dl/src/driver.rs:649-696 | the intersected read is the direct read of the selected rows, all of them when every entry is skipped |
| SeekRead.SeekThenResidual | crates/penca-dl/src/provider.rs:474-488 | if the residual implies every entry, seek then residual equals full scan then residual |
| SeekRead.ReadSeeked | crates/penca-dl/src/driver.rs:568-588 | one segment's seek returns what scanning it, keeping the rows whose own key columns match a probe, and projecting returns |
| SeekRead.SidecarIs | crates/penca-dl/src/provider.rs:457-472 | a seek reads the identity sidecar or the first one keyed by the index |
| SeekRead.SeekSnapshotPoint | crates/penca-dl/src/driver.rs:791-852 | declines exactly when a segment lacks the index's sidecar or the reader a key column; else the result holds, cell by cell and in order, the rows of every segment's filtered scan one after the other, in the output schema |
| SeekRead.ConcatOneAfterAnother | crates/penca-dl/src/driver.rs:817-849 | concatenation puts every row of every part at its place, and nothing else |
| SeekRead.BuiltSidecarIndexes | crates/penca-format/src/index/mod.rs:52-112 | what the writer stores is, for a reader with the same key types, an index of the segment's keys |
| SeekRead.BuildSidecar | crates/penca-api/src/lifecycle/snapshot_op.rs:1826-1901 | the sidecar built from a segment's columns by name indexes that segment's own key columns; an error exactly for no name or a missing column |
| SeekRead.ReaderAgrees | crates/penca-dl/src/driver.rs:718-741 | a reader whose schema has the key columns derives the types the writer used and sees the same keys |
| SeekRead.BuiltSegmentSeeks | crates/penca-dl/src/driver.rs:568-602 | a segment written that way meets what the seek relies on |
| PersistScan.WidenedSchema | crates/penca-dl/src/driver.rs:379-410 | the narrow read always carries the commit column a ceiling needs |
| PersistScan.CeilingThenProject | crates/penca-storage-cold/src/lib.rs:53-86 | clamping any schema between output and full, then projecting, emits exactly the file's rows whose commit position is at or below the ceiling, in order, with the output columns of the direct read |
| PersistScan.RowsBelowExact | crates/penca-storage-cold/src/lib.rs:53-86 | the kept rows are exactly those whose commit position is an integer at or below the ceiling, all rows without one |
| PersistScan.ScanSegment | crates/penca-dl/src/driver.rs:443-484 | hit, cached miss and bypass all emit exactly those rows |
| PersistScan.ScanPersist | crates/penca-dl/src/provider.rs:228-254 | the stream emits exactly the parts with rows, in plan order, and stops at the first unreadable file |
| PersistScan.StreamOrderExact | crates/penca-dl/src/provider.rs:139-157 | over sorted files, under every projection and any ceilings, the stream is in its advertised order if and only if each file ends, in the rows it keeps, where every later one begins |
| PersistScan.RepersistedBreaksOrder | crates/penca-api/src/lifecycle/persist.rs:283-305 | a file that starts over at an earlier one's first row, when that one spans two commits, breaks the order |
| PersistScan.TwoRunsBreakOrder | crates/penca-api/src/lifecycle/persist.rs:55-62 | persisting m commits and then n without a purge gives such a plan, for all 2 <= m <= n |
| Digest.LayOutReads | crates/penca-core/src/digest.rs:90-94 | every view of the rebuilt layout reads back its slot |
| Digest.LayOutPacks | crates/penca-core/src/digest.rs:90-94 | up to the block limit all values too long to inline lie end to end in one buffer |
| Digest.CompactKeepsRows | crates/penca-core/src/digest.rs:130-178 | compaction keeps the logical rows, their number and the nulls, zero-size fixed lists included |
| Digest.CompactCanonical | crates/penca-core/src/digest.rs:90-94 | two compacted columns are physically equal if and only if slots, hidden ones included, row lengths and nulls agree |
| Digest.SameRowsSameLayout | crates/penca-core/src/digest.rs:90-94 | columns of one type with the same rows, whose nulls hide nothing, compact to the same layout |
| Digest.HiddenBytesShow | crates/penca-core/src/digest.rs:130-158 | bytes under a null can make equal rows compact differently |
| Digest.SliceIsCanonical | crates/penca-core/src/digest.rs:160-178 | a slice whose own nulls hide nothing, whatever the rest of its parent holds, compacts to the layout of an array built from its rows alone |
| Digest.DigestOfSlice | crates/penca-core/src/digest.rs:61-116 | for any encoding and hash, a slice of a batch and an independently built equal batch have one digest |
| Stats.BestBounds | crates/penca-dl/src/stats.rs:275-470 | min and max exist exactly when a value does, occur in the column and bound it |
| Stats.NullCountIsCount | crates/penca-dl/src/stats.rs:275-470 | the null count is the number of null rows |
| Stats.ParsedBounds | crates/penca-dl/src/stats.rs:472-517 | the bounds and the row count survive encoding by name and parsing under any schema that keeps the column's type |
| Stats.BuildArray | crates/penca-dl/src/stats.rs:529-552 | a pruning array has exactly one slot per segment, null on mismatch; none exactly for unknown or unprunable columns |
| Stats.PrunedHasNoMatch | crates/penca-dl/src/stats.rs:855-861 | a segment holding a value equal to the literal is never pruned |
| Stats.OutsideIsPruned | crates/penca-dl/src/stats.rs:855-861 | a literal below the minimum or above the maximum is pruned |
| Stats.LowSlotExact | crates/penca-dl/src/stats.rs:757-775 | under another decimal scale the low slot stays a lower bound if and only if the scale is the same, or grew with a minimum at or above zero, or shrank with one at or below |
| Stats.HighSlotExact | crates/penca-dl/src/stats.rs:757-775 | the mirror condition for the high slot |
| Stats.FoldColumnStats | crates/penca-dl/src/stats.rs:953-1002 | the accumulator loop computes the folded bounds and null count |
| Stats.FoldBounds | crates/penca-dl/src/stats.rs:935-1030 | folded over any segments that wrote their statistics, the bounds cover every non-null value, are themselves values of some segment, and exist unless there is none |
| Stats.FoldNullsExact | crates/penca-dl/src/stats.rs:950-995 | where every file has the column the folded null count is the number of null rows in all of them |
| Stats.UnwrittenSegmentEscapes | crates/penca-dl/src/stats.rs:472-485 | a segment without statistics can hold values outside the folded bounds |
| Scheduler.ModifiedCovered | crates/penca-lifecycle-scheduler/src/snapshot_loop.rs:237-257 | over every run, each instant below the modified watermark lies in a listed window, also when the clock moves back |
| Scheduler.AgedTiles | crates/penca-lifecycle-scheduler/src/snapshot_loop.rs:276-303 | over every run the aged windows lie end to end from zero to the purge watermark, each ending at its own clock reading less the grace window |
| Scheduler.TilesPartition | crates/penca-lifecycle-scheduler/src/snapshot_loop.rs:60-73 | windows end to end are disjoint and cover exactly the instants below their end |
| Scheduler.PurgeNeverBack | crates/penca-lifecycle-scheduler/src/snapshot_loop.rs:276-303 | the purge watermark never moves back and its windows are only added to |
| Scheduler.PurgeWithinGrace | crates/penca-lifecycle-scheduler/src/snapshot_loop.rs:283-301 | the purge watermark never passes the largest clock reading less the grace window |
| Scheduler.VisitAdvances | crates/penca-lifecycle-scheduler/src/snapshot_loop.rs:237-303 | a visit that does not fail puts the modified watermark at the clock reading, raises the purge watermark to the reading less the grace window, and lists exactly the windows in between |
| Scheduler.WatermarksReached | crates/penca-lifecycle-scheduler/src/snapshot_loop.rs:237-303 | the same over every run of visits to one branch |
| Scheduler.FailureLeavesNoTrace | crates/penca-lifecycle-scheduler/src/snapshot_loop.rs:166-177 | a failed visit anywhere in a run, also one whose modified listing had succeeded, leaves the rest of the run's watermarks and aged windows as if it had not happened |
| Scheduler.SnapshotLoop.TickBranch | crates/penca-lifecycle-scheduler/src/snapshot_loop.rs:161-178 | a visit that does not fail puts its branch's modified watermark at the clock reading and moves the purge watermark up to the reading less the grace window; a failed one leaves both; other branches are left alone |
| Scheduler.SnapshotLoop.Tick | crates/penca-lifecycle-scheduler/src/snapshot_loop.rs:131-152 | a tick visits every branch of every catalog in order up to the first failing discovery, and nothing else |
| Scheduler.SnapshotLoop.RunTicks | crates/penca-lifecycle-scheduler/src/snapshot_loop.rs:113-127 | after any ticks every branch's modified watermark stands at the clock reading of its last visit that did not fail and is covered, and its aged windows tile up to the purge watermark, which has reached every such visit's reading less the grace window |
| Memo.BuildRight | crates/penca-datafusion/src/plan_resolution_memo.rs:93-117 | in a build whose names do not change every lookup gets the server's answer |
| Memo.AnsweredOnceStays | crates/penca-datafusion/src/plan_resolution_memo.rs:93-117 | once a lookup of a name was answered, every later one of it in the build gets the right answer, also when its own call would fail |
| Memo.FailedLookupLeavesNoTrace | crates/penca-datafusion/src/catalog.rs:131-139 | a failed call anywhere in a build changes no other lookup's outcome |
| Memo.TableAndExistAgree | crates/penca-datafusion/src/schema.rs:144-206 | table and a table_exist that did not fail agree anywhere in a build |
| Memo.ConnScope.ResolvedTable | crates/penca-datafusion/src/schema.rs:215-228 | the remembered answer or the live one, remembered when it is an answer; a call is made exactly when nothing is remembered |
| Memo.ConnScope.ResolveSchema | crates/penca-datafusion/src/catalog.rs:117-146 | the same for schemas, a failure reading as absent |
| Memo.ConnScope.RunBuild | crates/penca-datafusion/src/plan_resolution_memo.rs:171-186 | a build starts from an empty memo at one read point and leaves memo and pin cleared |
| Memo.ConnScope.RunBuilds | crates/penca-datafusion/src/plan_resolution_memo.rs:12-27 | over every sequence of builds with any DDL between them, each lookup gets the answer at its own build's read point |
| Pagination.TokenRoundTrip | crates/penca-api/src/pagination.rs:3-12 | every 64-bit offset survives encoding and decoding |
| Pagination.ServePage | crates/penca-api/src/pagination.rs:14-55 | a call at an offset returns exactly the next min(p, left) rows, p the requested size when positive and else the default, and a token exactly when more follows |
| Pagination.OddTokens | crates/penca-api/src/pagination.rs:3-55 | a token that is no 64-bit number serves the first page, a negative one is an error |
| Pagination.CallsForIsCeiling | crates/penca-lifecycle-scheduler/src/paginate.rs:11-32 | the number of calls is max(1, ceil(n / p)) |
| Pagination.PaginateAll | crates/penca-lifecycle-scheduler/src/paginate.rs:11-32 | the drain returns the list once each in order after exactly that many calls, and fails exactly when one of them does |
| Pagination.PaginateToExhaustion | crates/penca-datafusion/src/pagination.rs:18-45 | the error-tolerant drain returns a prefix: the pages before the first failure, else the whole list |

## Left out

- gRPC, Flight SQL, Postgres, object storage and Arrow IPC bytes: payloads are typed values.
- The query engine's planner, its pruning predicate and its filter operator: the filter applies the predicate, and pruning is modelled for `column = literal`.
- SQL text, quoting and identifier case: the model gives what the generated queries mean.
- Float columns and literals: excluded from seeks by the code, and their statistics are not modelled, so a float column counts as unprunable.
- Booleans, dates, times, timestamps and nested types as literal or key types: the cast model covers integers of any width, decimals and text.
- The casts, the sort and the view `gc` of the Arrow library are not part of the repository: they are modelled from their call sites and documented behaviour.
- Row filters on user columns inside the resolver: they act before ranking, so the theorems take no filter or one on the entity.
- How the server turns index tuples back into sidecar probes inside a merge: `Scan` takes tuple membership as the server's obligation, `SeekRead` proves the seek itself.
- Stats.FoldBounds: gives a sufficient condition, because whether a segment without statistics escapes depends on values the fold never sees.
- Scheduler.SnapshotLoop.Tick: does not model which tables a window lists or whether a single Purge or Snapshot call succeeds, since those errors are swallowed.
- Memo.ConnScope.RunBuilds: covers builds one after the other, which is what the connection protocol gives.
- 64-bit overflow of clock, grace window and sequence arithmetic: positions are unbounded integers, except the sentinel and page tokens.
- Snapshot carry-forward and table rewrites: a snapshot step always merges its window over the latest baseline, and a table's schema does not change during a lifecycle run.
- The planner's pick of the newest eligible baseline: the lifecycle theorems hold for any eligible one. Runs are of one table on one branch.
- Lifecycle.TopmostDecides: its condition goes row by row, because a commit lost to a tie is in no source and no metadata records it; the runs without ties have the condition on straddling rows.
- ForkRuns.ForkedReadExact: covers a child up to its own first snapshot and does not follow the child's later lifecycle.
- Forks of forks: the code reads one level of parent, and so does the model.
- Retention compaction, partition pruning, clustering, vacuum and transaction-log purging: other subsystems with their own contracts.
- Cache weights and eviction policy: an entry may vanish at any step.
