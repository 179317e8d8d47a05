# galera-doctor: a verified model

galera-doctor audits Galera clusters. Most of its checks look at one variable at a time. The
parts modelled here carry information across runs and across nodes, or rest on real arithmetic:

- the multi-run engine: the namespaced baseline, the counter deltas, the two independent diff
  engines (`audit/changes` and the watch log), one pass over all clusters, and the watch loop;
- the comparisons across nodes: drift, fingerprints, buckets of values;
- the verdicts with arithmetic behind them: auto-increment, quorum weights, writer shares, the
  gcache window;
- the ProxySQL comparison, as a statement about what can never influence it;
- two small awk programs: the inline Markdown pass and the planner that keeps issues in step
  with the backlog.

One module per component. Code that updates things in place is imperative here too: the state
file is the class `State.Store`, the loop is the class `Doctor.Engine`, the issue tracker is the
class `Backlog.Tracker`, and the sorts, `dedupe` and the renderers work on arrays. Each method is
proved against a specification function; the lemmas are about those functions.

| module | component |
|---|---|
| `Findings`, `Render` | findings, their order, the two ways of listing them |
| `State`, `Rates` | the baseline with its namespaces; counters that reset on restart |
| `Changes`, `Watch`, `Replay`, `Transcript`, `TwoEngines` | the two diff engines, what their output says and means |
| `Doctor`, `Baselines` | the audit's frame, one pass over all clusters, the watch loop; what the checks are given |
| `Cluster`, `Groups`, `Drift` | snapshots, fingerprint input, buckets, drift checks |
| `AutoIncrement`, `Quorum`, `Writers`, `Gcache` | verdicts with arithmetic |
| `ProxySQL` | the proxy's server list against the cluster |
| `Markdown`, `MarkupRules`, `Spans`, `Restore`, `LinkedCode` | the inline Markdown pass, what it replaces, and what it promises about code spans |
| `Backlog` | the issue planner and its execution |
| `Strings`, `Sorting` | byte-order comparison, decimal numerals, stable sorting |

## What is false of the code, and exactly when

Each of these is proved as an if-and-only-if (or with a concrete input), and the code is modelled
as it is.

- **One status per key.** The watch log replays to the current statuses if and only if no two
  findings of a tick share a key with different statuses (`Replay.ConsistencyNeededIff`); under
  the same condition, and only then, a tick that changes nothing prints nothing
  (`Replay.SilentIff`). The audit can emit BAD and WARN under one key
  (internal/audit/audit.go:2457-2472).
- **Tabs.** A finding that is gone is printed from a tab-separated record, so a key with a tab in
  it is not replayed. A tick's lines are faithful if and only if no key that disappears then holds
  a tab (`Replay.TickFaithfulIff`), and so is the log of a whole session, tick by tick
  (`Replay.WatchLogFaithfulIff`, `Doctor.SessionFaithfulIff`).
- **Slashes.** A cluster's baseline stays its own, whatever the clusters collect, if and only if no
  other cluster's name overlaps its name (`Doctor.IsolationIff`): neither name followed by a slash
  starts the other (`State.SeparateIff`). `State.SlashLeaks` is a cluster "a" that receives a node
  of "a/b". Nothing validates this (internal/config/config.go:90-110).
- **Restarts.** The comment in internal/state/state.go:220-221 says the uptime is compared with
  the interval; the code compares it with the previous uptime. A delta is trustworthy if and only
  if the current uptime exceeds the interval (`Rates.SinceTrustworthyIff`); otherwise a restart
  explains the same two readings (`Rates.UnseenRestart`).
- **Auto-increment OK.** The verdict compares offsets and the smallest step. Two id streams meet
  if and only if their offsets agree modulo the common divisor of their steps
  (`AutoIncrement.MeetIffCongruent`), so an OK is right exactly when no two do
  (`AutoIncrement.OkIffResiduesDiffer`). Offsets 1 and 3 collide under an OK on step 2
  (`AutoIncrement.OkCanCollide`) and on steps 4 and 6 (`AutoIncrement.OkCanCollideAcrossSteps`);
  a WARN on different steps can be a false alarm (`AutoIncrement.WarnCanBeDisjoint`). With one step
  and offsets in 1..step the verdict decides collision (`AutoIncrement.VerdictDecidesCollision`).
- **Fifty writers.** Above fifty nodes every share can fall under the 2% cut
  (`Writers.SomebodyWritesIff`).
- **The gcache window** is exact up to 9223372036 seconds and wraps above
  (`Gcache.NoWrapIff`); a wrapped window can be negative and warn (`Gcache.WrappedWindowWarns`),
  and the verdict is right in exactly the cases of `Gcache.VerdictRightIff`.
- **Five hundred issues.** The listing stops at 500, so an item gets a second issue if and only if
  all its issues are older than the newest 500 (`Backlog.SecondIssueIff`), and the planner
  converges in one step exactly under the condition of `Backlog.PlannerConvergesIff`.
- **Code in links.** A link prints its target before its text, so the spans keep their order if
  and only if no link holds code on both sides (`Restore.SpansInOrderIff`,
  `LinkedCode.CodeOnBothSidesSwaps`). Worse, the restore looks placeholder k up by its text, and a
  number k standing alone between two later placeholders reads the same. Every span comes back,
  and no marker is left in the page, if and only if no such number stands before placeholder k
  (`Restore.InlineRestoresIff`). A link with the span `a` as its text, and as its target the spans
  `b` and `c` with the number 1 between them, loses `b` and `c`, prints `a` inside the target and
  leaves raw markers (`LinkedCode.NumberBetweenSpansBreaks`).
- **Stars after blanks.** The comment in scripts/docs.sh:108-111 says that a star followed or preceded
  by a space is refused. The code refuses the opening star before a blank, and nothing else: a closing
  one may stand after a blank (`MarkupRules.OnePairOfStars`), and text is left alone exactly when no
  star matches (`MarkupRules.EmLeavesIff`).
- **Fingerprint input.** A row reads back unambiguously if and only if nothing after the name
  holds a bar (`Cluster.RowUnambiguousIff`). Newlines in rows: the bytes are equal if and only if
  the sorted rows break into the same lines (`Cluster.EncodingEqualIff`), and one column whose
  default runs on like the row of a second one collides with the two of them if and only if the two
  rows are in order (`Cluster.NewlineCollisionIff`).
- **Negative weights** let two nodes hold a majority each: exactly when the weights of all others
  sum to less than minus the difference of the two (`Quorum.TwoMajoritiesIff`,
  `Quorum.ReportNamesAtMostOneIff`).

## Model

| member | source | states |
|---|---|---|
| `Doctor.Audit` | internal/audit/audit.go:114-145 | An audit ends with the transitions against the scoped baseline, stores this run's verdicts, and reports the findings sorted worst first |
| `Doctor.ExchangeSort` | cmd/galera-doctor/main.go:437-450 | The exchange sort visits the clusters in the one ascending order, whatever order the map hands its keys out in |
| `Doctor.ExchangeMinimum` | cmd/galera-doctor/main.go:442-448 | The inner loop keeps the elements and puts the smallest remaining one in its final place |
| `Doctor.Engine.RunCluster` | cmd/galera-doctor/main.go:320-330 | A cluster is audited against its own view of the pass before; proxy findings are sorted in and are not stored |
| `Doctor.Engine.RunAll` | cmd/galera-doctor/main.go:293-333 | Every cluster of a pass sees the same previous baseline, and all states are merged into a fresh store |
| `Doctor.Engine.RunOnce` | cmd/galera-doctor/main.go:292-346 | The next pass is handed exactly the store this pass merged, nothing retained from before |
| `Doctor.Engine.FirstTick` | cmd/galera-doctor/main.go:404-413 | The first tick renders every report in full, in report order, and remembers its statuses |
| `Doctor.Engine.NextTick` | cmd/galera-doctor/main.go:414-418 | Later ticks print the transitions since the statuses of the tick before |
| `Doctor.Engine.WatchLoop` | cmd/galera-doctor/main.go:401-421 | For any number of ticks, the printed log is the log of the whole session, each tick against the one before |
| `Doctor.BaselineIsolation` | cmd/galera-doctor/main.go:292-346 | At every tick after the first, a cluster audited one tick earlier whose name overlaps no other receives exactly the nodes and findings its own audit stored then: never another cluster's, never older ones |
| `Doctor.StoredScopes` | internal/state/state.go:108-158 | What one pass stores for such a cluster scopes back to what its audit put in, however the other names overlap |
| `Doctor.IsolationIff` | internal/state/state.go:108-165 | Over everything the passes can collect and check, a cluster gets back exactly what it stored if and only if no other name overlaps its name |
| `Doctor.AbsentClusterStartsOver` | internal/state/state.go:134-158 | A cluster not audited one tick earlier receives an empty baseline, whatever older ticks stored |
| `Doctor.SessionFaithfulIff` | cmd/galera-doctor/main.go:401-421 | For a session of any length whose keys are consistent after the first tick, replaying the printed log onto the first statuses gives the statuses of every tick if and only if no key that disappears on the way holds a tab |
| `Doctor.ReportCarries` | internal/audit/audit.go:135-145 | With unique keys, sorting the findings after storing them does not change what was stored |
| `Doctor.ReportSummary` | internal/audit/audit.go:135-145 | The report contains the summary, its value is the number of moved keys, and the map it counted is the map stored for the next run: the summary never compares itself |
| `Doctor.SummaryCountsWatchLines` | internal/output/output.go:55-133 | End to end for one cluster without a proxy: the number of lines the watch loop prints is the value of the audit's own summary plus the OK findings that are new |
| `Baselines.ReportHolds` | cmd/galera-doctor/main.go:320-330 | The checks are given this pass's snapshots and the cluster's own view of what was stored before, and a report holds, as a multiset, exactly what they say, the count of moved keys, and the proxy's findings; it stores this run's nodes and the checks' statuses |
| `Baselines.SessionHolds` | cmd/galera-doctor/main.go:292-346 | At every tick of a session, every cluster of that tick has its report, made with the store of the tick before |
| `Baselines.ChecksSeeOwnBaseline` | cmd/galera-doctor/main.go:292-346 | At every tick after the first, the report of a cluster that was audited one tick earlier and whose name overlaps no other holds what the checks say of a baseline with exactly the nodes and findings its own audit stored then |
| `Baselines.TickDeltaTrue` | internal/state/state.go:195-226 | End to end over two ticks: a node read at both, without a restart between, gets as its delta from the baseline it is handed exactly the events that happened and the time that passed |
| `State.Local` | internal/state/state.go:160-165 | The inverse of namespacing: defined exactly for the keys under the cluster's prefix |
| `State.Qualified` | internal/state/state.go:112-123 | A namespaced key trims back to the key it was made from, except the empty key |
| `State.SeparateIff` | internal/state/state.go:136-165 | Two clusters never read each other's entries, in either direction, if and only if neither name followed by a slash starts the other |
| `State.SlashFreeSeparate` | internal/state/state.go:136-165 | Names without a slash are always separate |
| `State.NodesOfUnique` | internal/state/state.go:78-103 | With unique names, the state holds exactly the nodes that were read, each with its own values |
| `State.CountersAre` | internal/state/state.go:40-47 | The six counters that are kept |
| `State.NodeStateReads` | internal/state/state.go:78-103 | What is kept of a snapshot: its time or else the run's, the uptime or zero, the group's id, and exactly the counters that hold a number |
| `State.Prefixed` | internal/state/state.go:112-123 | Namespacing a map loses and invents no entry |
| `State.Unprefixed` | internal/state/state.go:146-156 | Scoping returns exactly the non-empty keys stored under the prefix, with their values |
| `State.Store.constructor` | cmd/galera-doctor/main.go:295 | A fresh store is empty, of the current version |
| `State.Store.FromSnapshots` | internal/state/state.go:78-103 | The state built from snapshots: readable nodes only, a missing time read as now, no findings yet |
| `State.Store.Merge` | internal/state/state.go:105-124 | Merging overlays the cluster's namespaced entries and leaves all others |
| `State.Store.Scope` | internal/state/state.go:126-158 | Scoping gives a new store with the one cluster's view, and nothing for no store |
| `State.ScopeReadsBack` | internal/state/state.go:105-158 | After any number of merges in any order, a cluster whose name overlaps no other scopes back to exactly what was merged for it |
| `State.ScopeUndisturbed` | internal/state/state.go:105-158 | Merging other clusters never changes a cluster's view |
| `State.LeakedNode` | internal/state/state.go:112-165 | A node whose stored key another cluster's prefix starts is read by that cluster too, after any merges |
| `State.EmptyScopes` | internal/state/state.go:134-158 | A store with nothing for a cluster scopes to the empty baseline |
| `State.SlashLeaks` | internal/state/state.go:136-165 | A cluster "a" receives a node stored by cluster "a/b" |
| `Rates.SinceWithoutRestart` | internal/state/state.go:195-226 | Between two readings of a server that did not restart, the difference is the true number of events and the true elapsed time |
| `Rates.SinceAnswersIff` | internal/state/state.go:195-226 | There is a delta if and only if the baseline is of version 2 and has the counter of the node, the counter did not go backwards, time passed, and no known uptime says restart |
| `Rates.SinceTrue` | internal/state/state.go:195-226 | Then, on a server that did not restart, it is the true number of events and the true time |
| `Rates.RateCovers` | internal/state/state.go:178-184 | A rate times the seconds of its interval is the delta; there is none over no time |
| `Rates.SinceExactWhenUptimeCovers` | internal/state/state.go:195-226 | When the current uptime exceeds the interval, an accepted delta proves there was no restart and is exact |
| `Rates.SinceExactWhenPreviousUptimeCovers` | internal/state/state.go:216-224 | The same when both uptimes are known and the previous one exceeds the interval, which is what the comparison in the code can guarantee |
| `Rates.SinceTrustworthyIff` | internal/state/state.go:220-224 | Every server history behind two accepted readings has that number of events if and only if the current uptime exceeds the interval |
| `Rates.UnseenRestart` | internal/state/state.go:220-224 | Otherwise some history with a restart explains the same readings with a different number of events |
| `Rates.DeltasTelescope` | internal/state/state.go:203-226 | Consecutive accepted deltas sum to last minus first, in value and in time; the value is never negative, the time always positive |
| `Rates.DeltasCompose` | internal/state/state.go:203-226 | Two accepted deltas compose into one that is accepted unless the uptimes at the ends contradict each other, and always when the middle uptime is known |
| `Changes.Carry` | internal/audit/audit.go:1842-1854 | The loop computes the status per key without the summary |
| `Changes.CarriedMeaning` | internal/audit/audit.go:1842-1854 | The stored map has a key for every finding but the summary and nothing else, and one finding's status under it; with consistent keys, every finding's |
| `Changes.CarriedIgnoresOrder` | internal/audit/audit.go:1842-1854 | With consistent keys the stored map does not depend on the order of the findings |
| `Changes.SummaryNotCarried` | internal/audit/audit.go:1772-1774 | Adding the summary to the findings does not change what is stored |
| `Changes.Place` | internal/audit/audit.go:1779-1790 | One reported key goes on the list its move names, or on none |
| `Changes.PlaceAll` | internal/audit/audit.go:1776-1791 | Whatever the map's order, the first loop places each reported key exactly once |
| `Changes.AppendGone` | internal/audit/audit.go:1792-1798 | The second loop completes the cleared list with the keys that are gone |
| `Changes.Transitions` | internal/audit/audit.go:1776-1798 | The four lists hold, without repetition, exactly the keys that got worse, appeared, cleared or improved |
| `Changes.MovesDisjoint` | internal/audit/audit.go:1776-1798 | No key is on two lists |
| `Changes.MovesCover` | internal/audit/audit.go:1776-1798 | Together the lists hold exactly the keys whose status moved, a missing key read as OK |
| `Changes.MovesMean` | internal/audit/audit.go:1776-1798 | Which list a key is on, from its two statuses: worse, new and not OK, cleared, or better without being OK |
| `Changes.SummarySays` | internal/audit/audit.go:1767-1840 | The one summary finding and its count, or none without findings in a version 2 baseline |
| `Changes.PartitionOfMoved` | internal/audit/audit.go:1833-1837 | The four lengths sum to the number of moved keys |
| `Changes.Compare` | internal/audit/audit.go:1767-1840 | The summary's value is the number of moved keys, and "nothing changed" is said if and only if no key moved; without a usable baseline there is no summary |
| `Watch.Statuses` | internal/output/output.go:136-150 | The remembered map: the last status under each namespaced key, without the summary |
| `Watch.CollectMoved` | internal/output/output.go:61-82 | Exactly the findings that are new or whose status differs, in report order, one line each |
| `Watch.CollectGone` | internal/output/output.go:91-99 | Whatever the map's order, the sorted records are those of the keys that are gone and were not OK |
| `Watch.SortLines` | internal/output/output.go:104-112 | Transitions are printed worst first, then by check, otherwise in report order |
| `Watch.Changed` | internal/output/output.go:55-134 | The lines printed and their number |
| `Transcript.MovedLinesSay` | internal/output/output.go:61-82 | For every line: it is printed if and only if a report holds the finding, the finding is not the summary, and the status given as the one before is what was remembered under "cluster/check@target", "new" if nothing was, and is not the present one |
| `Transcript.StatusesSay` | internal/output/output.go:136-150 | The remembered keys are those of the reported findings, each with the status of a finding under it |
| `Transcript.LastIsRemembered` | internal/output/output.go:136-150 | Of several findings under one key the last one's status is remembered |
| `Transcript.EntriesInOrder` | internal/output/output.go:62-82 | Findings are compared report by report |
| `Transcript.FindingsInOrder` | internal/output/output.go:62-82 | and within a report in its order |
| `Transcript.OneFinding` | internal/output/output.go:62-69 | The summary is the one finding that is not compared |
| `Transcript.GoneLinesSay` | internal/output/output.go:91-132 | For every line: it says a key is gone if and only if its key holds no tab and key, tab and status together are the record of a key that no report has any more and that was not OK |
| `Transcript.LinesInOrder` | internal/output/output.go:104-132 | Moved lines come first, worst first and then by check; gone ones by their record |
| `Transcript.TiesInReportOrder` | internal/output/output.go:104-112 | Lines of one severity and check keep the order of the reports |
| `Transcript.LogSaysBefore` | cmd/galera-doctor/main.go:401-421 | In a log that is faithful so far, each moved line gives as the status before what the replay of the log up to then says of its key; a new one is new to the replay, or reads OK there |
| `Replay.GoneLinesMeaning` | internal/output/output.go:91-132 | Every gone key without a tab has its line; a printed key is never one that has a tab; without tabs only gone keys are named |
| `Replay.TickFaithfulIff` | internal/output/output.go:55-150 | Replaying one tick's lines onto statuses that track the previous ones tracks the current ones if and only if no gone key has a tab |
| `Replay.ConsistencyNeededIff` | internal/output/output.go:62-82 | A tick's lines are faithful from every starting point if and only if its keys are consistent |
| `Replay.InconsistentUnfaithful` | internal/output/output.go:62-82 | With two statuses under one key, a tick with unchanged statuses prints lines, and replaying them loses the current status |
| `Replay.SilentIff` | internal/output/output.go:47-54 | Comparing a tick with its own statuses prints nothing if and only if its keys are consistent |
| `Replay.WatchLogFaithfulIff` | cmd/galera-doctor/main.go:401-421 | For any number of ticks, consistent after the first: folding the printed transitions onto the first statuses gives, after every tick, exactly the findings that are not OK, with every extra key OK, if and only if no key that disappears on the way holds a tab |
| `TwoEngines.StatusMapIsPrefixed` | internal/output/output.go:139-150 | For one cluster the watch map is the stored map, namespaced |
| `TwoEngines.MovesBothWays` | internal/audit/audit.go:1776-1798 | Moved or new keys plus gone keys number the moved keys plus the new OK keys |
| `TwoEngines.EnginesAgree` | internal/output/output.go:55-133 | With unique keys, the number of lines the watch engine prints is the total the audit's engine computes plus the number of newly appeared OK keys |
| `Findings.SortWorstFirst` | internal/finding/finding.go:77-91 | The array is replaced by the sorted form of what it held |
| `Findings.WorstFirstStable` | internal/finding/finding.go:77-91 | That form is a permutation, in order, and keeps tied findings in their old order |
| `Findings.SortedReads` | internal/finding/finding.go:77-91 | No finding stands before a worse one; at one level they go by check and then by target |
| `Findings.RanksOrder` | internal/finding/finding.go:29-37 | The ranks compare as OK, WARN, BAD, ERROR, an unknown status as OK |
| `Findings.FilteredReads` | internal/output/output.go:30-33 | The filter lets through exactly what is at least as bad as the threshold, and everything without one |
| `Findings.WorstFirstIgnoresInputOrder` | internal/finding/finding.go:77-91 | Findings distinct in severity, check and target sort to the same list from any permutation |
| `Findings.Worst` | internal/finding/finding.go:66-75 | The loop's accumulator is the worst status |
| `Findings.WorstIsMaximum` | internal/finding/finding.go:66-75 | It is one of the statuses present and none is more severe; OK for no findings |
| `Findings.SortedHeadIsWorst` | internal/finding/finding.go:66-91 | The first finding after sorting carries it |
| `Findings.FilterCommutesWithSort` | internal/output/output.go:181-191 | Filtering by severity before or after sorting gives the same list |
| `Render.ListPassing` | internal/output/output.go:30-33 | The findings at or above the threshold, in order |
| `Render.RenderText` | internal/output/output.go:19-45 | Sorts its argument in place, worst report first, then lists each report's passing findings |
| `Render.RenderFindings` | internal/output/output.go:178-195 | All passing findings of all reports, sorted |
| `Render.BlocksRead` | internal/output/output.go:19-45 | A block has its report's cluster, number of nodes and worst status, and lists what passes |
| `Render.ReportsInOrder` | internal/output/output.go:19-28 | No report is printed before a worse one; equally bad ones go by name |
| `Render.PassingReads` | internal/output/output.go:181-191 | Exactly the findings of some report that are at least as bad as the threshold |
| `Render.RenderingsAgree` | internal/output/output.go:181-191 | For one report, filter-after-sort and filter-before-sort list the same findings in the same order |
| `Cluster.Dedupe` | internal/cluster/cluster.go:346-358 | In place on sorted input: the kept prefix holds every non-empty string exactly once, ascending |
| `Cluster.Addresses` | internal/cluster/cluster.go:309-329 | Exactly the non-empty names the node is known by, its own and its aliases, each once, ascending |
| `Cluster.ValuesRead` | internal/cluster/cluster.go:165-195 | A number is read from the status alone; a boolean from the status or else the variables, from exactly the eight spellings, in any case |
| `Cluster.FingerprintInput` | internal/cluster/cluster.go:293-301 | Sorts the rows in place and produces their encoding |
| `Cluster.RowFields` | internal/cluster/cluster.go:303-307 | A row without bars in its values splits at the bars into name, ordinal, type, nullability, key and default, in this order |
| `Cluster.RowInjective` | internal/cluster/cluster.go:303-307 | Columns with no bar before the default have equal rows if and only if they are equal; the default may hold bars |
| `Cluster.RowUnambiguousIff` | internal/cluster/cluster.go:303-307 | No other column renders to a row if and only if nothing after its name holds a bar |
| `Cluster.EncodingDecidesRows` | internal/cluster/cluster.go:289-301 | The hashed bytes of rows without newlines are equal if and only if the rows are permutations of each other |
| `Cluster.EncodingEqualIff` | internal/cluster/cluster.go:293-301 | For any rows, newlines included: equal bytes if and only if the sorted rows break into the same lines |
| `Cluster.NewlineReadIff` | internal/cluster/cluster.go:293-301 | Rows share their bytes with some newline-free rows if and only if the lines they break into come out ascending, and then with one multiset of such rows only |
| `Cluster.NewlineCollisionIff` | internal/cluster/cluster.go:293-307 | One column whose default goes on, after a newline, like the row of a second gives the same bytes as the two columns if and only if the two rows are in order |
| `Cluster.EncodingDecidesColumns` | internal/cluster/cluster.go:289-307 | Two clean tables have equal bytes if and only if their multisets of columns are equal |
| `Groups.GroupBy` | internal/audit/audit.go:2973-2985 | The loop's buckets; a missing value is a bucket of its own |
| `Groups.NodesGrouped` | internal/audit/audit.go:2973-2985 | A node is in a bucket if and only if that is its value, a missing one read as "unknown" |
| `Groups.GroupedPartitions` | internal/audit/audit.go:2973-2985 | Each node is in exactly the bucket of its value, in order; no bucket is empty |
| `Groups.GroupedSizes` | internal/audit/audit.go:2973-2985 | The bucket sizes sum to the number of nodes |
| `Groups.MoreThanOneBucketIff` | internal/audit/audit.go:2973-2985 | There is more than one bucket if and only if two values differ |
| `Groups.DescribeGroups` | internal/audit/audit.go:2987-3001 | The description, for every order the map can be walked in |
| `Groups.DescribedBucket` | internal/audit/audit.go:2987-3001 | A bucket reads "value (node, node)", its nodes in order |
| `Groups.DescribedTwo` | internal/audit/audit.go:2987-3001 | Two read "bucket vs bucket", in the order of their values |
| `Groups.LongValueCut` | internal/audit/audit.go:3003-3010 | A value above twelve characters is cut there and gets an ellipsis |
| `Groups.DescriptionIgnoresNodeOrder` | internal/audit/audit.go:2973-3001 | It is the same string for every order of the nodes |
| `Drift.TableNames` | internal/audit/audit.go:564-574 | Every table some node has, each once, ascending |
| `Drift.GroupTable` | internal/audit/audit.go:578-585 | The nodes bucketed by fingerprint, "absent" for a node without the table |
| `Drift.BucketedReads` | internal/audit/audit.go:578-585 | A node stands under its fingerprint of the table, or under "absent" |
| `Drift.OneBucketIff` | internal/audit/audit.go:578-588 | More than one bucket if and only if two nodes read the table differently |
| `Drift.CheckTable` | internal/audit/audit.go:656-668 | One step of the loop: a table is listed, with its description, exactly when nodes differ |
| `Drift.CollectDrift` | internal/audit/audit.go:564-589 | The listed tables are exactly the differing ones, ascending, each with its own description |
| `Drift.NoDriftIffSame` | internal/audit/audit.go:560-588 | No table is listed if and only if all the maps are equal ("absent" is never a fingerprint) |
| `Drift.DriftIgnoresNodeOrder` | internal/audit/audit.go:564-588 | The listed tables do not depend on the order of the nodes |
| `Drift.SplitSys` | internal/audit/audit.go:549-559 | One WARN per node whose system tables were not read; the others are compared |
| `Drift.SysSplitReads` | internal/audit/audit.go:549-559 | A node is called unread if and only if it has no system tables, else compared; together they are all live nodes |
| `Drift.SysTableDrift` | internal/audit/audit.go:546-604 | The unread nodes, then the verdict on the others |
| `Drift.SplitApp` | internal/audit/audit.go:623-634 | One WARN per node whose application tables were not read; read and empty is not unread |
| `Drift.AppSplitReads` | internal/audit/audit.go:623-634 | A node is called unread if and only if its application tables are missing rather than none |
| `Drift.SchemaDrift` | internal/audit/audit.go:620-701 | The same for application tables; the tables named plus "more" number the differing ones |
| `Drift.VerdictDecidesEquality` | internal/audit/audit.go:546-701 | With two or more nodes compared, either check says OK if and only if all table-to-fingerprint maps are equal |
| `Drift.TooFewToCompare` | internal/audit/audit.go:560-563 | Fewer than two nodes get no verdict |
| `Drift.DriftReported` | internal/audit/audit.go:576-701 | Otherwise one BAD for exactly each differing table, or above five application tables a single BAD with their exact number |
| `Drift.SchemaFindingsBounded` | internal/audit/audit.go:606-701 | At most five findings beside one per unread node |
| `AutoIncrement.Split` | internal/audit/audit.go:959-971 | Which nodes set the values by hand and how many are managed; a node that does not say is neither |
| `AutoIncrement.Survey` | internal/audit/audit.go:982-1006 | The nodes per printed offset, and the smallest step reported |
| `AutoIncrement.Shared` | internal/audit/audit.go:1008-1015 | The shared offsets are those of more than one node; none exactly when every offset has one |
| `AutoIncrement.Check` | internal/audit/audit.go:958-1040 | The verdict, for every order of the maps |
| `AutoIncrement.VerdictSays` | internal/audit/audit.go:958-1040 | From the snapshots: BAD for two nodes set by hand at one offset; else WARN when the least step set by hand is below the number of all live nodes, managed ones included; else OK; nothing when no node says how it is set |
| `AutoIncrement.CollideIffCongruent` | internal/audit/audit.go:951-957 | Two id streams of one step meet if and only if their offsets are congruent modulo the step |
| `AutoIncrement.MeetIffCongruent` | internal/audit/audit.go:951-957 | Two id streams on any two steps meet if and only if their offsets agree modulo the greatest common divisor of the steps |
| `AutoIncrement.SomeMeetIff` | internal/audit/audit.go:951-957 | Among any nodes, some two streams meet if and only if some two offsets do |
| `AutoIncrement.BadMeansCollision` | internal/audit/audit.go:1018-1025 | BAD implies that two nodes generate a common id, whatever their steps |
| `AutoIncrement.WarnMeansCollision` | internal/audit/audit.go:1026-1034 | WARN with every live node on that step implies, by pigeonhole, that two nodes generate a common id |
| `AutoIncrement.VerdictDecidesCollision` | internal/audit/audit.go:1018-1039 | With one step and offsets in 1..step, the verdict is BAD if two streams meet and OK if none do |
| `AutoIncrement.OkIffResiduesDiffer` | internal/audit/audit.go:1035-1039 | On any steps, an OK is right if and only if no two offsets agree modulo the common divisor of their steps; every step has room for all nodes |
| `AutoIncrement.OkCanCollide` | internal/audit/audit.go:1035-1039 | Offsets 1 and 3 with step 2: OK, and a common id |
| `AutoIncrement.OkCanCollideAcrossSteps` | internal/audit/audit.go:1035-1039 | Offsets 1 and 3 on steps 4 and 6: OK, and both generate 9 |
| `AutoIncrement.WarnCanBeDisjoint` | internal/audit/audit.go:1026-1034 | Offsets 1, 2 and 4 on steps 2, 4 and 4: WARN, and no common id |
| `Quorum.Weigh` | internal/audit/audit.go:847-868 | The weights, their total, and one BAD per weight of zero |
| `Quorum.EqualWeights` | internal/audit/audit.go:869-880 | Equality of all weights, independent of the order the map is walked in |
| `Quorum.Check` | internal/audit/audit.go:844-917 | The verdict; a majority is searched for exactly when the weights differ |
| `Quorum.WeightsAre` | internal/audit/audit.go:847-859 | A node has a weight if and only if its provider options give a number for it, and it is that number |
| `Quorum.ZeroVotesAre` | internal/audit/audit.go:860-868 | BAD for exactly the nodes whose weight is zero |
| `Quorum.VerdictSays` | internal/audit/audit.go:869-915 | OK if and only if two or more weights are equal and positive, WARN if and only if two differ |
| `Quorum.TotalIsSum` | internal/audit/audit.go:847-859 | With unique names the running total is the sum of the weights it is compared with |
| `Quorum.NoCoalitionWithout` | internal/audit/audit.go:898-900 | With a majority node, no coalition without it reaches half the total |
| `Quorum.OneMajorityAtMost` | internal/audit/audit.go:898-900 | With weights not negative, two majority nodes are one node |
| `Quorum.NamedAtMostOnce` | internal/audit/audit.go:895-908 | The search names at most one node |
| `Quorum.TwoMajoritiesIff` | internal/audit/audit.go:898-900 | With any weights, two nodes hold a majority each if and only if all others sum to less than minus their difference |
| `Quorum.NamedAtMostOnceIff` | internal/audit/audit.go:895-908 | The search names at most one node if and only if no pair is undercut like that |
| `Quorum.ReportNamesAtMostOneIff` | internal/audit/audit.go:847-908 | On snapshots with unique names: the report names at most one node if and only if fewer than two weights are known, all are equal, or no pair is undercut |
| `Quorum.EqualWeightsHaveNoMajority` | internal/audit/audit.go:881-887 | Not searching among equal positive weights on two or more nodes loses nothing |
| `Quorum.NegativeWeightBreaksIt` | internal/audit/audit.go:847-908 | Three nodes with weights 1, 1 and -1: the report names two majorities |
| `Writers.GradedIff` | internal/audit/audit.go:2276-2289 | The verdict is graded if and only if every node measured now has a usable baseline |
| `Writers.Collect` | internal/audit/audit.go:2272-2290 | The shares, their total, and whether all are movements; the total is the sum of the shares |
| `Writers.SharesAre` | internal/audit/audit.go:2272-2290 | Every node measured now has its movement since the baseline as its share, or else the total it reports |
| `Writers.CountWriting` | internal/audit/audit.go:2311-2321 | How many nodes reach the 2% cut |
| `Writers.WritersAre` | internal/audit/audit.go:2311-2321 | They are those with at least two hundredths of the total |
| `Writers.Check` | internal/audit/audit.go:2267-2337 | The verdict, and the node it names: the first by share |
| `Writers.VerdictSays` | internal/audit/audit.go:2291-2336 | The branches: nobody measured, no baseline, no writes, one writer, several |
| `Writers.NamedHasMost` | internal/audit/audit.go:2291-2310 | The node named has the largest share |
| `Writers.GradedNonNegative` | internal/audit/audit.go:2280-2284 | Graded shares are never negative |
| `Writers.SomebodyWrites` | internal/audit/audit.go:2311-2321 | With up to fifty nodes and a positive total, at least one writer passes the cut |
| `Writers.SomebodyWritesIff` | internal/audit/audit.go:2311-2321 | Somebody always passes it if and only if there are at most fifty nodes |
| `Writers.SingleWriterShare` | internal/audit/audit.go:2322-2329 | A single-writer verdict on n nodes names one that originated at least 1 - 0.02(n-1) of all writesets |
| `Gcache.Check` | internal/audit/audit.go:2935-2971 | One finding per node with a usable size, graded exactly when there is a positive rate |
| `Gcache.RateIs` | internal/audit/audit.go:2935-2956 | A node has a rate if and only if its replicated bytes grew since the baseline |
| `Gcache.UngradedSays` | internal/audit/audit.go:2935-2955 | Without a rate the size is reported ungraded; without a usable size, nothing |
| `Gcache.FindingsAre` | internal/audit/audit.go:2935-2971 | Nothing else is reported than what is said of each node alone |
| `Gcache.SecondsBound` | internal/audit/audit.go:2956 | The graded seconds w satisfy w * rate <= size < (w + 1) * rate |
| `Gcache.SecondsMonotone` | internal/audit/audit.go:2956 | They grow with the size and shrink with the rate |
| `Gcache.NoWrapIff` | internal/audit/audit.go:2956 | The window in nanoseconds is right if and only if w is at most 9223372036 |
| `Gcache.VerdictRightIff` | internal/audit/audit.go:2956-2962 | The verdict is right if and only if w seconds fit, or 10^9 w reduced to int64 is not below the threshold; beyond int64 seconds, if and only if the threshold is not positive |
| `Gcache.WrappedWindowWarns` | internal/audit/audit.go:2956-2962 | One second more wraps to a negative window |
| `Gcache.WarnIffShort` | internal/audit/audit.go:2956-2968 | Up to that bound WARN holds if and only if w seconds is below the threshold, and the value is w |
| `ProxySQL.MonitorManaged` | internal/proxysql/proxysql.go:137-147 | True if and only if some hostgroup set names the hostgroup as its offline one |
| `ProxySQL.MonitorRunning` | internal/proxysql/proxysql.go:275-299 | A flag read as false, then each inactive set; an unread flag is not false |
| `ProxySQL.MonitorSays` | internal/proxysql/proxysql.go:275-299 | BAD for the flag if and only if it was read as false, and for exactly the sets with active = 0 |
| `ProxySQL.MatchServer` | internal/proxysql/proxysql.go:180-185 | True if and only if one of the node's names is the server's, ignoring case |
| `Strings.EqualFoldIff` | internal/proxysql/proxysql.go:180-185 | Ignoring case: as long, and the same letters one by one |
| `ProxySQL.CollectMatches` | internal/proxysql/proxysql.go:175-186 | The serving servers that answer to the node, each once, in order |
| `ProxySQL.Disagree` | internal/proxysql/proxysql.go:196-217 | One finding per matched server that contradicts the node |
| `ProxySQL.AuditNode` | internal/proxysql/proxysql.go:171-218 | A node's findings depend on the serving servers alone |
| `ProxySQL.NodeSays` | internal/proxysql/proxysql.go:171-218 | From the raw server list: nothing for an unread node, missing if no server outside the managed hostgroups has one of its names, else what contradicts its state |
| `ProxySQL.Bucket` | internal/proxysql/proxysql.go:222-225 | Each hostgroup with its servers in order |
| `ProxySQL.SortGroups` | internal/proxysql/proxysql.go:226-230 | The hostgroups once each, ascending |
| `ProxySQL.CountOnline` | internal/proxysql/proxysql.go:235-240 | Zero exactly when no server is ONLINE |
| `ProxySQL.DeadIff` | internal/proxysql/proxysql.go:231-241 | A hostgroup is dead among the serving servers exactly when it is not managed, not empty and has none ONLINE |
| `ProxySQL.CollectDead` | internal/proxysql/proxysql.go:222-249 | Exactly the serving hostgroups with servers and none ONLINE, ascending |
| `ProxySQL.ReportMappings` | internal/proxysql/proxysql.go:250-259 | One OK per hostgroup set |
| `ProxySQL.MappingsAre` | internal/proxysql/proxysql.go:250-259 | It names the writer, reader and offline hostgroup of the set |
| `ProxySQL.Audit` | internal/proxysql/proxysql.go:149-261 | The whole audit in terms of the serving servers |
| `ProxySQL.AuditSays` | internal/proxysql/proxysql.go:149-261 | Every finding and no other: about the monitor, a node, a hostgroup whose servers are all offline and which no set parks nodes in, or a mapping |
| `ProxySQL.ManagedNeverMatters` | internal/proxysql/proxysql.go:137-261 | Snapshots that differ only in what the managed hostgroups contain yield identical findings |
| `ProxySQL.ParkedServerInvisible` | internal/proxysql/proxysql.go:137-147 | A server parked in a managed hostgroup, anywhere in the list, changes no serving server |
| `ProxySQL.NodeGetsExactly` | internal/proxysql/proxysql.go:171-218 | A readable node gets exactly one `proxysql/missing` when nothing answers to it, else one disagreement per matched server with ONLINE differing from Synced |
| `Markdown.BoldDrops` | scripts/docs.sh:102-107 | Why the bold loop stops: a replacement removes exactly four stars |
| `Markdown.EmDrops` | scripts/docs.sh:112-117 | Why the emphasis loop stops: a replacement removes exactly two |
| `Markdown.EmPass` | scripts/docs.sh:112-117 | The emphasis loop ends with the fully replaced string |
| `Markdown.BoldPass` | scripts/docs.sh:102-107 | The bold loop does, and hands its result to emphasis |
| `Markdown.MarkupPass` | scripts/docs.sh:88-101 | The link loop, left to right |
| `MarkupRules.EmReplaces` | scripts/docs.sh:108-117 | Emphasis replaces the leftmost star that stands before neither a blank, a tab nor a star and has a closing one, leaves the text around it alone, and starts over |
| `MarkupRules.EmLeavesIff` | scripts/docs.sh:112-117 | The text is left as it is if and only if there is no such star |
| `MarkupRules.OnePairOfStars` | scripts/docs.sh:108-117 | With two stars in a text: they become emphasis unless the first stands before a blank or a tab, whatever the second stands after |
| `MarkupRules.LooseStarsAreContent` | scripts/docs.sh:108-113 | In particular if every star stands before a blank, a tab, a star or the end |
| `MarkupRules.BoldReplaces` | scripts/docs.sh:102-107 | Bold replaces the leftmost pair of double stars with something and no star between them |
| `MarkupRules.BoldLeaves` | scripts/docs.sh:102-107 | Without one, emphasis gets the text as it is |
| `MarkupRules.MarkupReplaces` | scripts/docs.sh:88-101 | The leftmost link: bold runs over what stands before it and over its text, its target becomes the reference, and what follows is a text of its own |
| `MarkupRules.MarkupLeaves` | scripts/docs.sh:88-101 | Without a link, bold gets the text as it is |
| `MarkupRules.HrefAbsolute` | scripts/docs.sh:45-52 | A target with a scheme, an anchor or a host is left alone |
| `MarkupRules.HrefRelative` | scripts/docs.sh:45-52 | A path up goes to the repository, a page to its rendering, and the anchor stays |
| `Markdown.HoldOut` | scripts/docs.sh:61-72 | The held-out text with its spans kept aside, in order |
| `Markdown.RestoreAll` | scripts/docs.sh:79-85 | The restore loop |
| `Markdown.InlinePass` | scripts/docs.sh:60-87 | The whole pass terminates with the specified string |
| `MarkupRules.PlainLinesStay` | scripts/docs.sh:60-87 | A line without a backtick in which nothing matches comes out as it is |
| `MarkupRules.LooseStarsStay` | scripts/docs.sh:60-117 | So does a line like "3 * 4 * 5" |
| `MarkupRules.CodeLinesShown` | scripts/docs.sh:60-87 | A line in which nothing matches outside its code: every second part is shown as code, the others as they are |
| `Spans.HeldOutIgnoresCode` | scripts/docs.sh:55-72 | What is inside a span is never read as markup: the text the passes see depends on the other parts alone |
| `Spans.HeldOutFacts` | scripts/docs.sh:61-72 | Holding out numbers the spans 1 to n, once each and in order, however many literal digits stand beside them |
| `Spans.EmKeeps` | scripts/docs.sh:112-117 | Emphasis keeps every placeholder, in order |
| `Spans.BoldKeeps` | scripts/docs.sh:102-107 | So does bold |
| `Spans.HrefKeeps` | scripts/docs.sh:45-52 | So does the rewriting of a link target |
| `Spans.MarkupKeepsEach` | scripts/docs.sh:88-101 | The markup passes lose, add and duplicate no placeholder, for every input |
| `Spans.MarkupOrderIff` | scripts/docs.sh:88-101 | They keep the order if and only if no link holds code on both sides |
| `Restore.RestoreFills` | scripts/docs.sh:79-85 | From any state of the loop: without a number that can be taken for a placeholder, all spans to come go to their places; with one, the result is no longer well-formed |
| `Restore.StageRight` | scripts/docs.sh:79-85 | Restoring span i replaces exactly placeholder i, unless the number i stands alone between two placeholders before it |
| `Restore.StageWrong` | scripts/docs.sh:79-85 | If it does, the span is written into the middle of another placeholder |
| `Restore.StaysUntame` | scripts/docs.sh:79-85 | No later restore mends that |
| `Restore.InlineRestoresIff` | scripts/docs.sh:55-87 | For every input without the marker: each span comes back verbatim, exactly once, in the place of its placeholder, if and only if no number is taken for a placeholder, and if and only if no marker is left in the output |
| `Restore.SpansInOrderIff` | scripts/docs.sh:55-101 | The spans keep their order if and only if no link holds code on both sides, and then the output is the text with every span verbatim, exactly once and in order |
| `LinkedCode.OneLinkOrdered` | scripts/docs.sh:91-99 | For a text that is one link: ordered if and only if its text or its target holds no code |
| `LinkedCode.CodeOnBothSidesSwaps` | scripts/docs.sh:91-99 | The output of a link with a span as its text and one as its target prints the second span before the first |
| `LinkedCode.NumberBetweenSpansBreaks` | scripts/docs.sh:79-99 | The exact output for a link with two spans and the number 1 between them in its target: both spans are lost, markers are left, and the text's span stands in the target |
| `Backlog.IdOfTitle` | scripts/backlog.sh:474-479 | The title made for an item reads back as its id |
| `Backlog.IdOfReads` | scripts/backlog.sh:474-479 | A title stands for an id if and only if it is the id, or starts with the id and a spaced dash |
| `Backlog.IdSpelled` | scripts/backlog.sh:474-479 | An id is "GD-" and one or more digits |
| `Backlog.ReadExisting` | scripts/backlog.sh:464-500 | Of the issues the listing shows, an id is represented by its oldest one |
| `Backlog.QuietDecision` | scripts/backlog.sh:503-520 | An item's lines are only OK or SKIP if and only if its issue has the item's title and state, or it is shipped and has none |
| `Backlog.SettleLines` | scripts/backlog.sh:503-520 | Executing the lines of an item with an issue leaves that issue with the item's title and state, and every other issue alone |
| `Backlog.PlanIssues` | scripts/backlog.sh:494-523 | The loop computes the plan |
| `Backlog.PlannedIff` | scripts/backlog.sh:494-523 | There is a line about an item if and only if the filter is empty or names its milestone |
| `Backlog.LinesSay` | scripts/backlog.sh:503-520 | Which of the six lines an item gets, from its status and its issue, the retitling first |
| `Backlog.WantedItemGets` | scripts/backlog.sh:494-638 | One round gives the oldest shown issue of such an item its title and state, and opens one for an open item without any |
| `Backlog.OneActionOneIssue` | scripts/backlog.sh:597-637 | An action touches only the issue it is about and there either the title or the state; only a creation adds an issue, only REOPEN opens one |
| `Backlog.Tracker.Sync` | scripts/backlog.sh:494-638 | Planning and then executing line by line |
| `Backlog.SyncDoes` | scripts/backlog.sh:494-638 | Executing the plan gives every handled item's issue its title and state, gives each open item an issue, and changes nothing else, for a tracker of any size |
| `Backlog.PlannerConvergesIff` | scripts/backlog.sh:464-638 | Planning again after executing the plan yields only OK and SKIP if and only if the plan opens at most 500 issues and no item, its own issue having dropped out of the listing, is left with an older state in sight |
| `Backlog.PlannerConverges` | scripts/backlog.sh:494-638 | In particular while the tracker stays within the 500 issues the listing shows |
| `Backlog.SyncIsSafe` | scripts/backlog.sh:494-638 | For a tracker of any size, an issue is closed or reopened only as a listed item of the filter says, no issue changes its id, and issues of unlisted or unknown items stay untouched |
| `Backlog.NoSecondIssue` | scripts/backlog.sh:494-638 | Every created issue belongs to a wanted open item, and no other issue that the listing shows or that is new has its id |
| `Backlog.SecondIssueIff` | scripts/backlog.sh:464-480 | An open item with an issue gets a second one if and only if all its issues are older than the newest 500 |

## Left out

- Collecting snapshots: SQL, drivers, timeouts, goroutines, DSNs. Snapshots and proxy snapshots are given data; a status or variable value is a cell with its text, its trimmed number and its boolean already read, so number parsing, trimming, `Bytes`, host-name extraction and provider-option splitting are not modelled.
- Reading and writing the state file and its JSON; flags, usage text and exit codes.
- The checks that look at one variable at a time: the audit takes them as a function parameter, so the results about runs hold for whatever those checks report.
- Message and hint prose, number formatting, and in `audit/changes` the text, sorting and four-item truncation of the lists; a finding keeps its check, target, status and value.
- The algorithm of the sort library: stable insertion sort stands for it, and its result is proved to be the only stable sorted permutation.
- SHA-256: only its input is modelled; a fingerprint is a string other than "absent".
- IEEE rounding: counters, weights, shares and rates are reals; times are integers of nanoseconds, without the saturation of time subtraction. Only the gcache window has its int64 bound.
- A float64 outside int64 converts in Go to an implementation-defined value; the model takes the smallest int64.
- Case folding beyond ASCII letters.
- `quorum/ignore-sb` and the other findings emitted before the weights.
- The `known` map of the ProxySQL audit, which nothing reads.
- Escaping, block-level Markdown and heading slugs.
- Issue bodies, labels, milestones and the GitHub client; an issue's number is its place in the order of creation, and pull requests take no numbers.
- Retention of other clusters' baselines when only one cluster is audited.
- In `Rates`, a server reports its uptime in whole seconds, as MySQL does.
