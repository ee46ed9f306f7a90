# Proofs about the stateful cores of OmniWatch

A Dafny model of the parts of OmniWatch whose correctness is not visible in one branch or one function body, with proofs for
all inputs, all runs and all interleavings. `dafny verify dfyconfig.toml` checks everything.

## What is modelled

**Leader election** (`LeaseStore`, `LeaseProtocol`). The in-memory lease store and the elector are classes; every method is
proved against a small function on one store slot. `LeaseProtocol` splits a tick into capture, read, write and report, for any
number of replicas and any interleaving, with a clock that may advance between any two steps. The main result is fenced
exclusivity: a replica whose leader flag is set and whose own last written term still runs is the holder in the store, so there
is at most one. It needs releases to happen while nobody holds a snapshot of a lease. A re-created lease starts again at version
1, so a stale snapshot can match it: with releases at any time, exclusivity holds exactly if no two replicas have leases that
last.

**Drift statistics** (`SquaredDeviations`, `Welford`, `Histogram`, `Adwin`, `Cusum`). One library on sums of squared deviations
serves Welford's recurrences and the bucket merge of ADWIN. The compressed ADWIN window is tied to the raw stream: its buckets
partition a suffix of the observations and carry exact counts, sums and squared deviations. Compression and the drift loop are
each equal to a declarative function of the raw segments. CUSUM equals its batch definition by suffix sums, also through the
infinities and NaN that a target deviation of zero produces.

**Causal graph** (`Filtering`, `Orders`, `LayeredGraph`, `FaultPaths`, `RootCauses`). Both edge indexes are projections of one
insertion log. The two separately written path enumerators are proved sound and complete, to agree, and to be independent of
insertion order; the ranking is characterised completely.

**Identity registries** (`FiniteSets`, `Slugs`, `Workspaces`, `Exporters`). Slug derivation and allocation, the workspace
registry, the exporter registry with its append-only mirror, and the reload that folds the mirror back, over runs of any number
of process generations.

**Importer admission** (`RateLimit`, `Recency`). The per-client window counter and the bounded last-seen map, each against the
whole history of requests.

**Anomaly sessions and auto-remediation** (`Sessions`, `Remediation`). Conservation of scores over all sessions of a key, and
at-most-once effects over all runs of messages, retries and environments.

## Where the code and its documentation disagree

The model follows the code in each of these places.

- `predictive/drift.py:74-75` says that a CUSUM alarm stays raised until the reset. It does, whatever follows, exactly when the
  slack is zero and the two sums together exceed twice the threshold (`Cusum.AlarmLastsExactly`). With a target deviation of
  zero it always does (`Cusum.MissedAlarmLasts`).
- `predictive/drift.py:184-185` says that compression preserves the window's total variance. A merge keeps the sum of the bucket
  variances exactly when the two means agree (`Histogram.MergeKeepsVarianceExactly`, `Histogram.CompressionLosesVariance`); what
  always holds is that each bucket carries the variance of its own observations.
- `identity/persistence.py:201-205` orders by write time, as ties of the creation time would resurrect stale state. The column holds whole seconds
  (`storage/clickhouse/migrations/004_identity_registries.py:58`), so ties remain, and an exporter deleted within the second of
  its registration may come back (`Exporters.TieResurrects`). The exact condition is `Exporters.ReloadRestoresExactly`.
- `causal/dag_traversal.py:116-119` merges the graph so that a root is not reported twice. Two relationships of different types
  between two nodes still repeat a path (`FaultPaths.ParallelEdgesRepeat`); how often is `FaultPaths.CopiesExactly`.
- Learned causality does not always outrank a dependency-only path (`causal/dag_traversal.py:46-53`). It does exactly if the
  causal path has at most 8 edges or the other at least 3 (`RootCauses.CausalOutranksExactly`).
- `importer/main.py:492` calls the limiter a token bucket with a maximum number of hits per window. Across two adjacent windows
  a client can get up to one less than twice that number into one window length, and for every window and limit some run does
  (`RateLimit.IntervalBound`, `RateLimit.IntervalBoundIsReached`). Below one the opening request of a window is still admitted.
  The limit is therefore kept in every interval exactly when it is one (`RateLimit.KeepsLimitExactly`).
- `orchestration/orchestrator.py:250-262` returns the result of the final attempt, success or failure. The dedup key is recorded
  before the effect (`orchestration/executor.py:133`), so after a failed effect the second attempt is a duplicate and reports
  success: with at least one retry configured every published result is a success (`Remediation.RetriesExactly`). When it hides a
  failure is stated exactly in `Remediation.SuccessHidesFailureExactly`, and when it hides that nothing was sent in
  `Remediation.ResultWithoutEffectExactly`. The exponential back-off (`orchestration/orchestrator.py:258-259`) therefore never
  gets beyond its first step (`Remediation.PausesExactly`).
- `orchestration/executor.py:238-249` describes the simulated backend as one that always succeeds. It fails when a good answer
  denies success (`Remediation.PerformExactly`).
- `predictive/session_tracker.py:188` with a resolution window of zero asks that the whole session be below the threshold, and
  with a negative window that all scores after the first few be (`Sessions.ResolvesExactly`).
- The dedup key is not injective when ids hold colons: every incident id with a colon collides with a shorter one
  (`Remediation.KeyCollides`).

## Model

| member | source | states |
|---|---|---|
| `LeaseStore.InMemoryLeaseBackend.Read` | common/leaderelection.py:131-141 | the stored lease of the key, or nothing |
| `LeaseStore.InMemoryLeaseBackend.Create` | common/leaderelection.py:143-155 | refused when the key has a lease; else stores it with version and counter 1; other keys stay |
| `LeaseStore.InMemoryLeaseBackend.Update` | common/leaderelection.py:157-172 | compare-and-swap: succeeds exactly on the expected version and then advances the counter; other keys stay |
| `LeaseStore.InMemoryLeaseBackend.Delete` | common/leaderelection.py:174-178 | removes the lease only for its holder and keeps the version counter |
| `LeaseStore.LeaderElector.Tick` | common/leaderelection.py:451-495 | a free lease is always won; a held one exactly if it is the own one or has run out by its duration, or by the own duration if it has none; after a win the slot holds this replica, now, its duration and the next version; after a loss it is unchanged |
| `LeaseStore.LeaderElector.Start` | common/leaderelection.py:365-388 | a replica leads from its start on if election is switched off or there is no lease store at all; otherwise only ticks make it leader |
| `LeaseStore.LeaderElector.Stop` | common/leaderelection.py:403-427 | releases the lease when this replica leads and is not abandoned, and drops the flag; with election switched off the flag and the store stay |
| `LeaseStore.LeaderElector.Abandon` | common/leaderelection.py:429-437 | drops the flag without touching the store |
| `LeaseProtocol.SplitTickIsTick` | common/leaderelection.py:451-495 | capture, read, write and report without interference are exactly one tick |
| `LeaseProtocol.WriteKeepsInv` | common/leaderelection.py:454-494 | a write after any interference keeps the invariant on slot, snapshots and running terms |
| `LeaseProtocol.LoserIsOutOfTerm` | common/leaderelection.py:157-163 | the fencing argument: a write that wins finds every other replica out of its term |
| `LeaseProtocol.StepKeepsInv` | common/leaderelection.py:451-500 | every step of every replica and of the clock keeps the invariant, a release when no snapshot is held |
| `LeaseProtocol.RunKeepsInv` | common/leaderelection.py:440-500 | the invariant holds in every reachable state of every interleaving |
| `LeaseProtocol.FencedExclusivity` | common/leaderelection.py:359-362 | in every reachable state at most one replica is an in-lease leader, and it is the stored holder with its own renew time |
| `LeaseProtocol.NoPrematureTakeover` | common/leaderelection.py:481-494 | the holder changes only once the stored term has run out; the lease vanishes only by its holder's release |
| `LeaseProtocol.StepTakesOverLate` | common/leaderelection.py:481-494 | the same for one step from any state that satisfies the invariant |
| `LeaseProtocol.ContestedTickMovesVersion` | common/leaderelection.py:468-494 | a tick that read a lease it may replace leaves a greater version than its snapshot, whether its write won or lost |
| `LeaseProtocol.UnquietReleaseBreaksFencing` | common/leaderelection.py:143-155 | any two replicas whose leases last have a run, with a release while a snapshot is held, that ends with both as in-lease leaders |
| `LeaseProtocol.AlwaysExclusiveExactly` | common/leaderelection.py:143-178 | with releases at any time, every run has at most one in-lease leader if and only if no two replicas have leases that last |
| `LeaseProtocol.RunKeepsPast` | common/leaderelection.py:454-494 | in every run, whatever is released, read clocks and written renew times lie in the past |
| `LeaseProtocol.RenewalIsRecent` | common/leaderelection.py:454-494 | with atomic ticks the stored lease was renewed less than the longest duration before any given tick, or since |
| `LeaseProtocol.StoredLeaseStaysFresh` | common/leaderelection.py:454-494 | if some replica ticked within the last gap seconds the stored renew time is younger than duration plus gap |
| `LeaseProtocol.RenewalWins` | common/leaderelection.py:468-480 | in every reachable state of every interleaving, the write of a replica whose own term is running wins and renews the lease |
| `LeaseProtocol.LeaderIsKept` | common/leaderelection.py:468-480 | a leader that never releases and writes only while its last term runs has the flag in every later state, through every interleaving |
| `LeaseProtocol.LeaseStays` | common/leaderelection.py:481-495 | after a winning tick the lease stays the winner's while it runs, whatever the others try |
| `LeaseProtocol.NextTickKeepsFlag` | common/leaderelection.py:451-495 | its next tick within the duration wins again |
| `LeaseProtocol.HolderKeepsFlag` | common/leaderelection.py:440-495 | over any run of ticks: a holder whose ticks are less than its duration apart has the flag after every one of them |
| `SquaredDeviations.AppendOne` | predictive/adaptive_thresholder.py:30-36 | Welford's recurrences for sum, mean and squared deviations agree with the batch formulas |
| `SquaredDeviations.MergeHalves` | predictive/drift.py:198-206 | the merge formula gives the exact squared deviations of two concatenated halves of equal size |
| `SquaredDeviations.AboutMean` | predictive/drift.py:202-205 | moving the centre away from the mean costs the count times the squared distance |
| `Welford.WelfordStats.Update` | predictive/adaptive_thresholder.py:30-36 | count, mean and m2 stay the length, mean and squared deviations of all values seen |
| `Welford.WelfordStats.Variance` | predictive/adaptive_thresholder.py:38-41 | never negative, and the population variance of the values from two on |
| `Welford.ValuesOfAppend` | predictive/adaptive_thresholder.py:80-88 | an observation extends its own key's values and no other's |
| `Welford.KeysAgree` | predictive/adaptive_thresholder.py:82 | two (entity, metric) pairs share statistics if and only if they are equal, or the longer entity continues the shorter one by the separator and the head of its metric, or overlaps the separator by one colon |
| `Welford.KeyInjective` | predictive/adaptive_thresholder.py:71 | no two pairs share statistics when entity ids hold no colon |
| `Welford.AdaptiveThresholder.Update` | predictive/adaptive_thresholder.py:80-90 | over any interleaving of keys every key's statistics describe exactly its own values |
| `Welford.AdaptiveThresholder.GetThreshold` | predictive/adaptive_thresholder.py:92-99 | nothing below two values of the key, else the batch mean plus k standard deviations |
| `Welford.ThresholdExactly` | predictive/adaptive_thresholder.py:92-99 | the distance of the threshold from the mean of the values, squared, is k squared times their population variance, and it lies above the mean for a positive k |
| `Histogram.MergedDescribes` | predictive/drift.py:195-206 | two buckets of equal size merge into one that describes their joined observations exactly |
| `Histogram.MergeKeepsVarianceExactly` | predictive/drift.py:182-206 | a merge keeps the sum of the bucket variances if and only if the two means agree |
| `Histogram.CompressionLosesVariance` | predictive/drift.py:182-206 | a compression that turns bucket variances of 0 and 0 into one of 1/2 |
| `Histogram.SpliceKeepsMeaning` | predictive/drift.py:207 | splicing in a merged bucket keeps every bucket's meaning and the order of the observations |
| `Histogram.SpliceKeepsTower` | predictive/drift.py:187-211 | splicing keeps sizes powers of two and non-increasing from oldest to newest |
| `Histogram.NoSizeCrowds` | predictive/drift.py:125 | in a compressed window no size occurs more than max_buckets times |
| `Histogram.CompressesOnlyCrowded` | predictive/drift.py:186-211 | compression leaves the window alone if and only if no size occurs too often |
| `Histogram.CompressesOldest` | predictive/drift.py:187-208 | otherwise it joins the two oldest buckets of the largest size that does |
| `Histogram.BucketCount` | predictive/drift.py:181-211 | a window of n observations has at most max_buckets * (floor(log2 n) + 1) buckets |
| `Histogram.CrowdedAt` | predictive/drift.py:190-195 | the scan finds the first size level that is over full |
| `Adwin.AdwinDriftDetector.Update` | predictive/drift.py:153-159 | from the minimum size on, no cut of the window has two means that differ, either way, by more than the bound, and the report is true exactly if the compressed window had such a cut; below it the report is false; true exactly when observations were dropped; the newest stays; the window is exactly the compressed, settled suffix of the stream |
| `Adwin.AdwinDriftDetector.WindowIsSmall` | predictive/drift.py:181-211 | in every reachable state no size occurs more than max_buckets times and there are at most max_buckets * (floor(log2 n) + 1) buckets |
| `Adwin.AdwinDriftDetector.Ingest` | predictive/drift.py:155-159 | compress after adding, and settle only when the window is long enough |
| `Adwin.AdwinDriftDetector.Report` | predictive/drift.py:143-159 | a retrain is needed exactly when some report since the reset was true |
| `Adwin.AdwinDriftDetector.Add` | predictive/drift.py:173-179 | the new observation joins the window; n and total stay exact; the buckets are the compressed ones |
| `Adwin.AdwinDriftDetector.Compress` | predictive/drift.py:181-211 | terminates with the declarative compression of the raw segments, in shape and with unchanged meaning |
| `Adwin.AdwinDriftDetector.MergeAt` | predictive/drift.py:196-208 | one splice of two neighbouring buckets of equal size |
| `Adwin.AdwinDriftDetector.CheckDrift` | predictive/drift.py:213-264 | terminates with the settled window, in which no cut drifts; true exactly when it shrank; never empties the window |
| `Adwin.AdwinDriftDetector.DropFirstDrift` | predictive/drift.py:223-263 | one pass drops up to the first drifting cut, or finds the window stable |
| `Adwin.AdwinDriftDetector.Prefixes` | predictive/drift.py:229-237 | the running sizes and totals are those of the raw prefixes |
| `Adwin.AdwinDriftDetector.FindCut` | predictive/drift.py:239-252 | the first cut whose parts have means further apart than the bound, if any |
| `Adwin.AdwinDriftDetector.DropThrough` | predictive/drift.py:253-260 | drops the oldest buckets and recomputes n and total exactly |
| `Adwin.AdwinDriftDetector.Reset` | predictive/drift.py:161-167 | an empty stream with no retrain signal |
| `Adwin.AdwinDriftDetector.Create` | predictive/drift.py:128-141 | refuses exactly the parameters that raise ValueError; with a max_buckets of at least 1 the detector is ready |
| `Adwin.LastBucketIsTooMany` | predictive/drift.py:190-197 | a max_buckets below 1 is exactly what makes a single bucket one too many with none to merge with, as after the first observation |
| `Adwin.CutFacts` | predictive/drift.py:242-252 | the test on prefix sums compares the means of the two raw parts of the window |
| `Adwin.FirstDriftIs` | predictive/drift.py:241-263 | the scan over the cuts finds the earliest drifting one |
| `Adwin.BoundExactly` | predictive/drift.py:244-251 | the square of the bound is half of 1/n0 + 1/n1 times the logarithm of 4 n / delta |
| `Adwin.StableExactly` | predictive/drift.py:239-252 | no drift is found exactly if at every cut both differences of the means are within the bound |
| `Adwin.SettledDropsEarliest` | predictive/drift.py:239-263 | everything up to the earliest drifting cut is dropped, again and again, and nothing without such a cut |
| `Adwin.AppendRefined` | predictive/drift.py:173-179 | appending a size-1 bucket keeps buckets, n and total exact |
| `Cusum.RecursionIsMaxSuffix` | predictive/drift.py:78-79 | one step of the recursion gives the greatest suffix sum of the longer stream |
| `Cusum.SuffixStep` | predictive/drift.py:77-79 | both sums stay the greatest suffix sums of the deviations, upwards and downwards |
| `Cusum.MissStep` | predictive/drift.py:63-68 | with a zero target deviation a sum is infinite exactly after a miss, through infinity minus infinity |
| `Cusum.CusumDetector.Update` | predictive/drift.py:71-80 | the alarm says exactly that some suffix drifted beyond the threshold, or, with zero target deviation, that some observation missed |
| `Cusum.CusumDetector.Create` | predictive/drift.py:42-58 | refuses exactly the parameters that raise ValueError |
| `Cusum.CusumDetector.Reset` | predictive/drift.py:82-85 | the detector of the empty stream |
| `Cusum.ShiftIsDetected` | predictive/drift.py:71-80 | a sustained deviation d above the slack alarms within floor(threshold/(d - slack)) + 1 observations, after any stream |
| `Cusum.AlarmLastsExactly` | predictive/drift.py:74-80 | the alarm is on after every continuation of the stream if and only if the slack is zero and the two sums together exceed twice the threshold |
| `Cusum.CusumDetector.AlarmStays` | predictive/drift.py:74-80 | the same for the detector's own sums, and with a zero target deviation an alarm lasts whatever follows |
| `Cusum.WideAlarmLasts` | predictive/drift.py:78-80 | without slack the two sums together never fall, so that beyond twice the threshold one of them stays above it |
| `Cusum.NarrowAlarmClears` | predictive/drift.py:78-80 | otherwise, without slack, some one observation clears the alarm |
| `Cusum.MissedAlarmLasts` | predictive/drift.py:63-80 | with a zero target deviation the alarm is on after every continuation exactly when some observation has missed |
| `Cusum.QuietAlarmLastsExactly` | predictive/drift.py:71-80 | observations on the target never clear an alarm if and only if the slack is zero |
| `LayeredGraph.AppendToLog` | causal/two_layer_graph.py:221-222 | an edge extends the out-list of its source, the in-list of its target and no other |
| `LayeredGraph.IndexAppend` | causal/two_layer_graph.py:201-222 | both indexes stay projections of one log, so each is the exact flip of the other |
| `LayeredGraph.TwoLayerGraph.AddNode` | causal/two_layer_graph.py:155-160 | the first type given to a node stays |
| `LayeredGraph.TwoLayerGraph.AddEdge` | causal/two_layer_graph.py:201-222 | one edge is logged and both ends are known |
| `LayeredGraph.TwoLayerGraph.LoadLayer1` | causal/two_layer_graph.py:142-170 | appends the relationships in order as Layer-1 edges and counts them |
| `LayeredGraph.TwoLayerGraph.SetLayer2` | causal/two_layer_graph.py:175-196 | appends the causal edges in order and counts them |
| `LayeredGraph.TwoLayerGraph.Merge` | causal/two_layer_graph.py:245-290 | a fresh graph whose log is the merged log, with the same nodes, depth and path order |
| `LayeredGraph.TwoLayerGraph.CopyKept` | causal/two_layer_graph.py:267-284 | adds exactly the edges the rule keeps, in order |
| `LayeredGraph.TwoLayerGraph.CausalSet` | causal/two_layer_graph.py:260-266 | the undirected causal pairs are those joined by some Layer-2 edge |
| `LayeredGraph.LoadFromTopology` | causal/two_layer_graph.py:385-395 | both layers loaded, then merged: the edges, and the type of every node, the first one given staying |
| `LayeredGraph.MergedContents` | causal/two_layer_graph.py:267-284 | merging keeps exactly the edges the rule keeps, with their multiplicities |
| `LayeredGraph.MergedMembers` | causal/two_layer_graph.py:267-284 | an edge is in the merged graph exactly if the rule yields it for some edge |
| `LayeredGraph.MergedExactly` | causal/two_layer_graph.py:245-290 | the merged edges in plain terms: all Layer-2 edges, and every other edge, as Layer 1, whose ends no Layer-2 edge joins in either direction |
| `LayeredGraph.TypesExactly` | causal/two_layer_graph.py:142-196 | which nodes a loaded topology has, and that the first type listed for a node is its type |
| `LayeredGraph.MergedCausal` | causal/two_layer_graph.py:260-266 | the causal pairs survive the merge |
| `LayeredGraph.MergedLayers` | causal/two_layer_graph.py:246-253 | a merged graph never has both layers on one unordered pair |
| `LayeredGraph.MergeIdempotent` | causal/dag_traversal.py:116-120 | merging twice keeps the same edges as merging once |
| `LayeredGraph.MergePermutes` | causal/two_layer_graph.py:245-290 | the merged edges do not depend on insertion order |
| `FaultPaths.EnumerationExact` | causal/dag_traversal.py:199-234 | the traversal collects a path if and only if it starts at the symptom, follows upstream edges, repeats no node, has at most max_depth nodes and ends at a root |
| `FaultPaths.HopExactly` | causal/two_layer_graph.py:307-325 | one step upstream is a dependency forwards or a cause backwards |
| `FaultPaths.RootExactly` | causal/two_layer_graph.py:307-325 | a root is a node that depends on nothing and that nothing causes |
| `FaultPaths.RootedExactly` | causal/dag_traversal.py:200-232 | the rooted paths of a symptom are its fault paths: simple, within the depth, one upstream edge per step, and ended at a root |
| `FaultPaths.TopologyExactly` | causal/two_layer_graph.py:142-196 | in a loaded and merged topology a search goes from y to x exactly if x causes y, or y depends on x and neither causes the other |
| `FaultPaths.WalkExact` | causal/dag_traversal.py:201-232 | the same for every prefix the recursion reaches |
| `FaultPaths.WalkAllExact` | causal/dag_traversal.py:216-232 | the loop over the hops collects exactly the rooted paths through unvisited neighbors |
| `FaultPaths.UpstreamMember` | causal/dag_traversal.py:152-161 | an edge leads upstream exactly if it is a dependency of the node or a cause of it |
| `FaultPaths.NodePathsUnique` | causal/dag_traversal.py:116-120 | without parallel edges every node path of the merged graph is collected once |
| `FaultPaths.CopiesExactly` | causal/dag_traversal.py:199-234 | every node path is collected exactly as often as it can be walked, the product of the numbers of edges between its consecutive nodes, and no other is collected |
| `FaultPaths.WalkCopies` | causal/dag_traversal.py:201-232 | the same for every prefix the recursion reaches |
| `FaultPaths.NodePathsUniqueExactly` | causal/dag_traversal.py:199-234 | each node path is collected once if and only if every hop of every rooted path is the only edge between its two nodes |
| `FaultPaths.ParallelEdgesRepeat` | causal/dag_traversal.py:116-120 | two relationships of different types between the same nodes survive the merge and their node path is collected twice |
| `FaultPaths.MergedUpstreamUnambiguous` | causal/two_layer_graph.py:260-284 | in the merged graph no two upstream edges of a node lead to the same neighbor |
| `FaultPaths.WalksAgree` | causal/two_layer_graph.py:342-354 | from any prefix the two enumerators find the same node paths with the same multiplicities |
| `FaultPaths.FaultAllPermutes` | causal/two_layer_graph.py:350-354 | the order in which hops are taken does not change the multiset of paths |
| `FaultPaths.UpstreamKeysInjective` | causal/dag_traversal.py:209-212 | the four-part sort key leaves no ties among the upstream edges of one node |
| `FaultPaths.SameUpstream` | causal/dag_traversal.py:209-212 | the sorted upstream edges do not depend on insertion order |
| `FaultPaths.WalkIgnoresOrder` | causal/dag_traversal.py:201-232 | nor does the list of raw paths |
| `FaultPaths.SortedNeighbors` | causal/two_layer_graph.py:350-351 | the three-part sort key leaves ties only between edges to the same neighbor, so the order of neighbors is determined |
| `FaultPaths.FaultWalkIgnoresOrder` | causal/two_layer_graph.py:342-354 | the list of fault paths does not depend on insertion order |
| `RootCauses.ScoreAntitone` | causal/dag_traversal.py:166-182 | a longer path of the same kind never scores higher |
| `RootCauses.ScoreExactly` | causal/dag_traversal.py:166-182 | the score of every length and kind as a number; from ten edges on it no longer changes |
| `RootCauses.ScoreRange` | causal/dag_traversal.py:166-182 | 0.20 without edges, between 0.33 and 0.85 with |
| `RootCauses.LongScores` | causal/dag_traversal.py:173-182 | depth alone never pushes a path below 0.51 or 0.33, and from ten edges on the score is that |
| `RootCauses.CausalOutranksExactly` | causal/dag_traversal.py:46-53 | a causal path of n edges outscores a dependency path of m edges if and only if n is at most 8 or m at least 3 |
| `RootCauses.AnswerExact` | causal/dag_traversal.py:243-262 | a candidate is in the answer if and only if it is that of a bounded simple path to a root that passes the confidence gate |
| `RootCauses.AnswerExplains` | causal/dag_traversal.py:242-264 | the candidates are exactly the explanations of fault paths, field by field: the root is the last node of the path and the services are exactly its nodes |
| `RootCauses.AnswerCounts` | causal/dag_traversal.py:242-264 | each path gives one candidate, as often as the traversal finds the path |
| `RootCauses.AnswerIsRanked` | causal/dag_traversal.py:263 | the answer is sorted by confidence descending, then root |
| `RootCauses.FirstIsBest` | causal/dag_traversal.py:276-277 | no admissible path scores higher than the first candidate |
| `RootCauses.AnswerIgnoresInsertionOrder` | causal/dag_traversal.py:187-264 | permuting the edge insertions leaves the whole answer unchanged |
| `RootCauses.DagTraversal.constructor` | causal/dag_traversal.py:108-139 | works on the merged view of the given graph; a missing depth falls back to the graph's, a missing confidence to the rules file and then to 0.3 |
| `RootCauses.DagTraversal.CollectFrom` | causal/dag_traversal.py:201-232 | the recursive loop collects exactly the specified walk |
| `RootCauses.DagTraversal.FindRootCauses` | causal/dag_traversal.py:187-264 | for a known symptom every fault path that passes the gate, each as often as it can be walked: root, its type, score, path in the configured direction, edges and the sorted services, ordered by score and root; nothing for an unknown symptom |
| `RootCauses.DagTraversal.Analyze` | causal/dag_traversal.py:269-281 | there is a finding exactly if some fault path passes the gate, and then it describes one that scores highest, taken from the first candidate; the candidates are the answer above |
| `RootCauses.DagTraversal.UpstreamEdges` | causal/dag_traversal.py:152-161 | read off the two indexes, these are the upstream edges of the node |
| `RootCauses.UpstreamNeighbors` | causal/two_layer_graph.py:307-325 | the graph's own version finds the same edges |
| `RootCauses.FaultPathsFrom` | causal/two_layer_graph.py:342-354 | the graph's own recursion collects exactly the specified paths |
| `RootCauses.GetFaultPaths` | causal/two_layer_graph.py:327-361 | for a known symptom exactly its fault paths in the configured direction, each as often as it can be walked, ordered by root and then by length; nothing for an unknown one |
| `RootCauses.FaultPathsCount` | causal/two_layer_graph.py:327-361 | how often a node path is returned: as often as the traversal walks it |
| `RootCauses.FaultPathsAreListed` | causal/two_layer_graph.py:327-361 | which paths are returned, how often, and in which order |
| `RootCauses.FaultPathsIgnoreInsertionOrder` | causal/two_layer_graph.py:328-361 | the output is deterministic: permuting the edge insertions leaves the whole list unchanged |
| `RootCauses.EnumeratorsAgree` | causal/two_layer_graph.py:327-361 | the reversed raw paths of the traversal and the fault paths are the same multiset |
| `RootCauses.TwiceMergedSamePaths` | causal/dag_traversal.py:116-120 | merging an already merged graph changes neither the paths nor their order |
| `Orders.SortIsCanonical` | causal/dag_traversal.py:263 | a sort whose key leaves no ties depends only on the multiset |
| `Orders.StrLeExactly` | causal/dag_traversal.py:265 | the order of names is dictionary order, by the first position where two names differ |
| `Slugs.AutoSlugCanonical` | identity/workspaces.py:53-57 | whatever the name, the derived slug meets the contract, has no double hyphen and none at an end |
| `Slugs.AutoSlugFixpoints` | identity/workspaces.py:53-57 | the derivation leaves a slug unchanged if and only if it is canonical, so it is idempotent |
| `Slugs.AutoSlugExactly` | identity/workspaces.py:53-57 | the slug is the runs of letters and digits of the name, in order, joined by single hyphens, cut after 63 characters and without a hyphen at the cut; "workspace" when there are none |
| `Slugs.WordsExactly` | identity/workspaces.py:55 | what those runs are: a text of letters and digits is one, and any other character separates two |
| `Slugs.DigitsExactly` | identity/workspaces.py:115 | the digits in a suffix are the decimal numeral of the counter, without leading zeros |
| `Slugs.CandidateExactly` | identity/workspaces.py:115-116 | a candidate is the longest beginning of the desired slug that leaves room for a hyphen and the numeral, then these |
| `Slugs.CandidateInjective` | identity/workspaces.py:113-117 | different counters give different candidates, however much is cut off |
| `Slugs.TakenCandidates` | identity/workspaces.py:112-118 | pigeonhole: that many taken candidates need that many reserved slugs |
| `Slugs.CandidateMeetsContract` | identity/workspaces.py:115-116 | a candidate of a legal slug is legal while its number leaves room for the first character |
| `Slugs.CandidateMeetsContractExactly` | identity/workspaces.py:113-117 | and only then: if and only if the number has at most 61 digits |
| `Slugs.FirstFreeMeetsContract` | identity/workspaces.py:112-118 | an allocated slug is legal |
| `Slugs.UniqueSlug` | identity/workspaces.py:112-118 | terminates; the desired slug if free, else the free candidate with the least number, at most the number of reserved slugs plus 2 |
| `Workspaces.CreateConsistent` | identity/workspaces.py:133-156 | creating keeps reserved slugs exact and unique, live names unique per user, and slugs legal |
| `Workspaces.ChangeConsistent` | identity/workspaces.py:175-200 | so does renaming to a free name, and tombstoning |
| `Workspaces.WorkspaceRegistry.Create` | identity/workspaces.py:120-156 | refused exactly when the user has a live workspace of that name, or the explicit slug is illegal; else one new record with its attributes under the desired slug, or under the free candidate with the least number; the registry stays consistent |
| `Workspaces.WorkspaceRegistry.ListMine` | identity/workspaces.py:158-165 | exactly the user's live workspaces, in the order of their creation |
| `Workspaces.WorkspaceRegistry.GetOwned` | identity/workspaces.py:167-173 | the workspace exactly if it is live and the user's own |
| `Workspaces.WorkspaceRegistry.Rename` | identity/workspaces.py:175-191 | changes only the name, and only without a collision among the user's live workspaces |
| `Workspaces.WorkspaceRegistry.Tombstone` | identity/workspaces.py:193-200 | marks the record; its slug stays reserved |
| `Exporters.LatestOfAppend` | identity/persistence.py:198-207 | an appended row comes first and hides the older rows of its key |
| `Exporters.NewestFirstIsReversed` | identity/persistence.py:201-206 | with increasing write times the query can only return the log backwards |
| `Exporters.RegisterMirrors` | identity/exporters.py:64-85 | registering under a free number keeps the mirror exact, also when the number was used before, and in whatever order a reload left the registry |
| `Exporters.DeleteMirrors` | identity/exporters.py:111-131 | deleting keeps the mirror exact, likewise |
| `Exporters.MirrorsExactly` | identity/persistence.py:198-207 | a mirrored registry lists an exporter, once, exactly if the last row of its key in the log is its own and no tombstone |
| `Exporters.UsedNumbers` | identity/exporters.py:71-73 | pigeonhole: the numbers below n are all used only if there are that many records |
| `Exporters.ExporterRegistry.Register` | identity/exporters.py:64-85 | refused exactly for names outside 1 to 64 characters; else the least unused positive number, appended and mirrored; also on a registry that a reload has filled |
| `Exporters.ExporterRegistry.FreeNumber` | identity/exporters.py:70-73 | terminates with the least unused positive number |
| `Exporters.ExporterRegistry.ListOwned` | identity/exporters.py:87-98 | the workspace's exporters when they are all the user's, else nothing |
| `Exporters.ExporterRegistry.GetOwned` | identity/exporters.py:100-109 | the exporter with the number, for its owner only |
| `Exporters.ExporterRegistry.Delete` | identity/exporters.py:111-131 | removes exactly the numbered exporter, owner only, and mirrors a tombstone |
| `Exporters.ExporterRegistry.Restore` | identity/exporters.py:59-62 | appends the row to its workspace |
| `Exporters.ExporterRegistry.Reload` | identity/persistence.py:269-286 | an empty registry and any result of the query: afterwards it holds exactly the exporters whose last row in the log is live, and is ready for every operation; in the order of the log, newest first, when its write times increase |
| `Exporters.ReloadRestoresExactly` | identity/persistence.py:198-207 | every result the query may return restores exactly the live exporters of every workspace if and only if, for each key, all rows with its greatest write time come to the same as its last row |
| `Exporters.QueryRestores` | identity/persistence.py:201-207 | if ties agree, every result of the query restores what the log says |
| `Exporters.KeyIncreasingSuffices` | identity/persistence.py:133-152 | ties agree when the write times of each key increase, whatever other keys share them |
| `Exporters.SameRestoreExactly` | identity/persistence.py:269-286 | two results restore the same exporters if and only if every key comes to the same in both |
| `Exporters.TieBreaks` | identity/persistence.py:201-206 | for any other tie there is a result of the query that does not restore the live exporters |
| `Exporters.TieResurrects` | identity/persistence.py:201-206 | an exporter registered and deleted within one second may come back |
| `Exporters.RestartConsistent` | identity/persistence.py:269-286 | a refilled registry has unique positive numbers and is mirrored by the same log |
| `Exporters.NextConsistent` | identity/exporters.py:59-131 | registering, deleting and restarting each keep numbers unique and the mirror exact |
| `Exporters.RunConsistent` | identity/exporters.py:59-131 | so they are in every state of every run over any number of process generations |
| `Exporters.RestartLosesNothing` | identity/persistence.py:198-207 | a restart at any point of any run restores exactly the live exporters |
| `RateLimit.RateLimiter.Limit` | importer/main.py:499-512 | admitted exactly when the bucket is new, its window is over or it has room; otherwise the wait is the least number of whole seconds beyond the rest of the window, or that rest plus a whole second; the request is counted; other clients' buckets stay |
| `RateLimit.DecideSpendsBudget` | importer/main.py:505-512 | every admission inside an interval costs one unit of what can still be admitted in it |
| `RateLimit.BudgetHolds` | importer/main.py:499-512 | over any run of any clients the admissions in the interval stay within the budget |
| `RateLimit.IntervalBound` | importer/main.py:499-512 | every half-open interval of one window length holds at most twice the limit less one admitted requests of a client and group |
| `RateLimit.IntervalBoundIsReached` | importer/main.py:499-512 | for every window and every limit of at least one, a run that admits twice the limit less one within one window length |
| `RateLimit.BurstAdmitted` | importer/main.py:509-511 | a burst that fits into the running bucket is admitted as a whole |
| `RateLimit.KeepsLimitExactly` | importer/main.py:492-512 | no run admits more than the limit in any interval of window length if and only if the limit is one |
| `RateLimit.WaitingHelps` | importer/main.py:509-512 | a refused client that stays away for the returned seconds is then admitted; a second less would do if and only if a whole number of seconds is left of the window |
| `RateLimit.SilenceHelps` | importer/main.py:499-512 | in a run, a refused client that stays silent for the returned seconds is then admitted, whatever the others do |
| `Recency.ActivityMap.RecordSeen` | importer/main.py:194-201 | after any history the kept keys have their last times and nothing newer is missing; when no two batches share a time they are exactly the most recently seen keys, up to the size of the map |
| `Recency.ActivityMap.GetActivity` | importer/main.py:204-215 | the points of one workspace, each once, newest first, with their times in the full history |
| `Recency.LastSeenExactly` | importer/main.py:194-201 | the time of a key is that of its last batch, for exactly the keys that have one |
| `Recency.TracksMostRecent` | importer/main.py:194-201 | keys older than all kept ones were evicted means exactly the most recent ones are kept |
| `Recency.RecordTracks` | importer/main.py:198 | recording a time no earlier than all others keeps the map at least as new as everything evicted |
| `Recency.EvictTracks` | importer/main.py:199-201 | so does evicting the oldest key |
| `Sessions.ResolvesExactly` | predictive/session_tracker.py:188-189 | what the resolution test means for every window: the documented rule when positive, and what it is otherwise |
| `Sessions.MaxIsMax` | predictive/session_tracker.py:167-168 | the peak bounds every score of the session and is one of them |
| `Sessions.Ledger.ScoreSound` | predictive/session_tracker.py:158-173 | accepting a score keeps, for every key, the resolved histories followed by the active one equal to the accepted scores |
| `Sessions.Ledger.ResolutionSound` | predictive/session_tracker.py:189-193 | so does resolving a session that satisfies the rule |
| `Sessions.AnomalySession.Observe` | predictive/session_tracker.py:164-171 | appends the score, keeps the peak the maximum and updates time and duration |
| `Sessions.AnomalySessionTracker.Start` | predictive/session_tracker.py:136-156 | continues the active session or opens a fresh one; the score is accepted once |
| `Sessions.AnomalySessionTracker.Update` | predictive/session_tracker.py:158-173 | adds a score to the active session, with its duration since the start; without one it is an error and nothing changes |
| `Sessions.AnomalySessionTracker.CheckResolution` | predictive/session_tracker.py:175-194 | true exactly when the history with the score satisfies the rule, and then the session moves to the resolved list; false leaves it active |
| `Sessions.AnomalySessionTracker.Retire` | predictive/session_tracker.py:190-192 | the session leaves the active map for the resolved list with its history |
| `Sessions.AnomalySessionTracker.GetSession` | predictive/session_tracker.py:196-198 | the active session of the key, showing exactly its scores since it started |
| `Sessions.AnomalySessionTracker.Invariant` | predictive/session_tracker.py:136-194 | in every reachable state: conservation per key, resolved sessions end in a full window below the threshold and are no longer active, the peak is the maximum |
| `Remediation.RegistryConsistent` | orchestration/action_library.py:103-240 | the actions flagged unsafe are exactly those that always need approval |
| `Remediation.KeysAgree` | orchestration/action_library.py:51-63 | two keys agree if and only if the actions and the joined ids do |
| `Remediation.KeyInjective` | orchestration/action_library.py:51-63 | the key is injective when no incident id, or no entity id, holds a colon |
| `Remediation.KeyCollides` | orchestration/action_library.py:51-63 | every incident id with a colon collides with a shorter one |
| `Remediation.ExecState.ExecuteSound` | orchestration/executor.py:113-134 | one call keeps: attempts have different keys, all recorded; effects are attempts; none needs approval |
| `Remediation.ExecState.AtMostOnce` | orchestration/executor.py:113-134 | the backend sees no remediation twice |
| `Remediation.ExecState.NeverGated` | orchestration/orchestrator.py:235-236 | it never sees one that needs approval |
| `Remediation.ExecState.SuppressesExactly` | orchestration/executor.py:125-134 | a call is suppressed exactly if the same remediation was attempted before, when incident ids hold no colon |
| `Remediation.ActionExecutor.Execute` | orchestration/executor.py:165-249 | records the call; dry run first, then dedup, then the key is recorded and the backend called |
| `Remediation.ExecState.ExecuteExactly` | orchestration/executor.py:165-249 | what a dry run, a repetition and a fresh call each report and record |
| `Remediation.PerformExactly` | orchestration/executor.py:204-249 | how far a report can be trusted: an HTTP call fails only by the backend's own denial; Kubernetes succeeds only if a supported action was sent and taken, or when switched off; success without anything sent happens exactly when the connection is refused, the call fails before it is sent, or Kubernetes is switched off |
| `Remediation.RetriesExactly` | orchestration/orchestrator.py:276-331 | no attempt with a negative limit, one with zero, else at most two, the second always a success |
| `Remediation.SuccessHidesFailureExactly` | orchestration/orchestrator.py:299-331 | a success is reported although the first attempt failed if and only if there is a retry, the call is no dry run, the key is fresh and the backend fails; a failure is reported exactly in the same case without a retry |
| `Remediation.HiddenFailureExists` | orchestration/executor.py:325-333 | a missing client library: nothing is sent, and success is reported |
| `Remediation.AttemptsSound` | orchestration/orchestrator.py:279-331 | at most max_retries + 1 calls, all for the same remediation, and at most one effect; earlier calls and effects stay |
| `Remediation.FirstIsFirst` | orchestration/orchestrator.py:143-161 | the candidate is the first action with that route, or there is none |
| `Remediation.AutoIsLicensed` | orchestration/orchestrator.py:235-239 | an executed action is registered, safe, allowed by policy, and the incident is P1, P2 or above 95 |
| `Remediation.RouteExactly` | orchestration/orchestrator.py:192-244 | an action runs by itself exactly if it is neither of the two gated ones, the policy allows it and the incident is P1, P2 or above 95; a human is asked exactly if it does not run and is gated or the policy asks for approval |
| `Remediation.HandleExactly` | orchestration/orchestrator.py:106-186 | a complete incident: the first licensed action in registry order is tried and its result published, never an approval requested; without one the first that may be asked for is stored for approval; else nothing happens |
| `Remediation.MissingKeys` | orchestration/orchestrator.py:250-371 | an incomplete incident: KeyError before anything runs, except that an approval needs neither confidence nor entity type |
| `Remediation.HandleSound` | orchestration/orchestrator.py:106-186 | one message keeps the executor sound, makes at most two calls and at most one effect, and none without a result |
| `Remediation.ResultExactly` | orchestration/orchestrator.py:163-177 | when a message has a result, when an approval; its success in terms of what is known before the call; a failed first attempt is never reported as carried out when there is a retry |
| `Remediation.ResultWithoutEffectExactly` | orchestration/orchestrator.py:276-331 | the target has reached the backend exactly if it had before or the first attempt was sent; when a success is published although it has not |
| `Remediation.PausesExactly` | orchestration/orchestrator.py:308-322 | the back-off sleeps at most once, for the base delay or the maximum, exactly when the first attempt fails and there is a retry |
| `Remediation.RunAtMostOnce` | orchestration/orchestrator.py:106-186 | over any run no remediation reaches the backend twice and none that needs approval; at most one effect and two calls per result |
| `Remediation.Orchestrator.HandleMessage` | orchestration/orchestrator.py:106-186 | the reply, the executor state and the delays slept are those that HandleExactly and MissingKeys describe; a result is published once and archived if there is an archiver, an approval stored once if there is a store, never both |
| `Remediation.Orchestrator.Candidates` | orchestration/orchestrator.py:139-161 | the loop finds the first auto and the first approval candidate |
| `Remediation.Orchestrator.HandleAuto` | orchestration/orchestrator.py:250-331 | a missing key raises before anything runs; else the specified attempts |

## Left out

- Clocks, randomness and collaborators are inputs: the lease clock, UUIDs, the policy client's answers, the backend's outcomes, write times.
- Floating-point rounding: reals throughout, with the infinities and NaN kept in `Cusum`; `RootCauses.Round3` rounds exactly, and no score lies half-way.
- Square root and logarithm are parameters with their defining laws, so nothing is said about how likely a false alarm is.
- LeaseProtocol.FencedExclusivity: assumes that releases happen while nobody holds a snapshot of a lease; `AlwaysExclusiveExactly` says when it can be dropped.
- The flag of a paused leader: plain uniqueness of `is_leader()` is not claimed, as it keeps its flag until its next tick.
- Lease versions are counters, not their decimal texts; Kubernetes leases, threads, clock skew and the gated runner are not part of this model.
- ADWIN's `_variance` field is not modelled, as the drift test never reads it.
- Adwin.AdwinDriftDetector.Update: assumes a bucket limit of at least 1, since below it the source raises IndexError on the first observation (`LastBucketIsTooMany`).
- Welford persistence (the JSON state file) and locking.
- LayeredGraph.TwoLayerGraph.AddEdge: edge properties are left out, as nothing in the search reads them.
- LayeredGraph.TwoLayerGraph.LoadLayer1: node properties, Neo4j identity and type extraction and the upper-casing of relationship types are left out.
- FaultPaths.NodePathsUnique: assumes no two edges share source, target and layer; `NodePathsUniqueExactly` has no such assumption.
- Name stripping and lower-casing are inputs of `Slugs.AutoSlug`; the regular expression's tolerance of a final newline is not modelled.
- Slugs.CandidateMeetsContract: legality is claimed while the counter has at most 61 digits; `CandidateMeetsContractExactly` shows that it ends there.
- Workspaces.WorkspaceRegistry.Create: assumes the generated id is fresh; the creation time and the reload of workspaces are left out.
- Exporters.RunConsistent: assumes that every mirror write succeeded, a degraded mirror being best effort in the source, and that ties agree at every restart, without which `TieBreaks` applies.
- Exporters.RestartLosesNothing: says nothing about the order of a workspace's list, which a reload may change.
- The mirrors of workspaces, importers and agents, and all of ClickHouse beyond the newest row per key.
- RateLimit.IntervalBound: requests are served one at a time by a clock that never runs backwards, as the lock and the monotonic clock provide.
- Recency.ActivityMap.RecordSeen: assumes clock readings that never decrease, as the wall clock of the source normally provides.
- Recency.ActivityMap.GetActivity: orders by time where the source orders by ISO text, which is the same for times in UTC; the order of equal times is left open.
- How timestamps are parsed: session durations are computed by an uninterpreted function of the two texts.
- Remediation.Orchestrator.HandleMessage: publishing, archiving and storing count as done when attempted, since they never raise; the texts of results are left out.
- The simulation and Kubernetes executors share one class, since they differ only in their back end; which one a call meets is an input. The calls to the HTTP and Kubernetes APIs are their outcomes.
- Exceptions raised by the policy client, and the later execution of an approved action.
- `get_actions` and `get_definition` of the action library, which would only add easy members.
