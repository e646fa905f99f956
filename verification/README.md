# Pheasant: models and proofs

Pheasant indexes repositories and documents into a knowledge graph and serves
it. This project models the parts of it whose correctness is not visible from
one function body, and proves what those parts promise:

- **ShortestPath.dfy** - the bidirectional breadth-first search that answers
  "how are these two nodes related?". It returns a path exactly when there is
  one of at most `max_depth` hops and, one hop before the two sides meet, they
  hold at most `max_visited` nodes; the path is always a shortest one, whatever
  order neighbours come in.
- **Sharding.dfy**, **Capacity.dfy** - the shard planner and the projection it
  must agree with. Largest-first packing is within 4/3 - 1/(3m) of every split
  into m shards; the automatic count is a lower bound on every split that fits.
- **Election.dfy**, **PromotionGate.dfy**, **GraphRefresh.dfy** - the fleet
  protocols as interleaved steps: leader election over a lease row, the
  hand-off of the sync gate from the election thread to the reconcile thread,
  and the publish / notify / refresh loop.
- **JobRecords.dfy**, **JobRegistry.dfy**, **BackgroundSync.dfy** - progress
  records and their phase accounting, the registry with eviction and lookup,
  and the check-and-claim that keeps two syncs off one source.
- **KeysetExport.dfy** - the paginated export, with the table changing between
  pages.
- **ConfigMerge.dfy**, **EnvFile.dfy**, **Release.dfy** - the layering algebra
  of the configuration, the .env merge down to its text, and release version
  selection for stable versions of Semantic Versioning 2.0.0 (clauses 2, 6-8
  and 11).
- **Options.dfy**, **Sequences.dfy** - the optional value, the concatenated
  lists and the ordered selections (`Picks`) the other modules share.

`dafny verify dfyconfig.toml` checks the whole project.

## Where the code and its documentation disagree

The model follows the code in each case.

- `plan_shards` says the automatic count keeps every shard under the budget
  (src/pheasant/sharding.py:115-118). It need not: `AutomaticCountCanOverflow`
  gives three sources for which the chosen count cannot hold them at all.
  `AutomaticCountExactness` says when the count is the documented one. A
  requested count is "exactly that many" (src/pheasant/sharding.py:115) exactly
  when it lies between one and the number of sources (`ShardCount`).
- The projection announces that `pheasant shard plan` proposes an n-way split
  (src/pheasant/capacity.py:229-235). The planner never cuts a source and rounds
  each one down: one source of 500,000 files is announced as three shards and
  planned as one (`AnnouncedSplitCanDiffer`). `PlannerAgreesExactly` says when the
  two agree, `ProjectionWithinOneShard` when they differ by at most one.
- The refresher logs "will retry" after a failed reload
  (src/pheasant/cli.py:769). The stamp is remembered before the reload
  (src/pheasant/cli.py:724-725), so the same publication is never tried again:
  `FailedReloadRun` is a run in which a later poll and an announced check both
  leave the old graph served, `FailedReloadIsNotRetried` says it of every run,
  and `NewStampIsNoticed` what ends it. A reload that loads an empty graph
  (src/pheasant/sync/engine.py:526-527) keeps the old one in the same way without
  raising, and is the same case here (`Misses`). A failed stamp read, which logs the same,
  is retried (`FailedReadIsRetried`). Two more ways to serve an old graph are
  a re-published earlier stamp (`RepeatedStampIsMissed`) and a publication
  between the engine's load and the refresher's construction
  (`LateStartRun`, `LateStartStaysBehind`). `CurrentExactly` and `AbreastExactly`
  are equivalences over every run of the model: it has no other way.
- "A job in any of these will never change again" (src/pheasant/jobs.py:52)
  holds for every operation but `finish`, which has no guard, and a reused id:
  `FinishedStatusKeptExactly` for one operation, `FinishedForGoodExactly` for
  every sequence of them, `FinishRewritesTerminal` at a concrete job.
- `finish` writes its status as the phase (src/pheasant/jobs.py:556) and
  `recompute` overwrites it at once whenever there is a source record:
  `FinishedPhase` says exactly when the status is what a reader sees,
  `SucceededButSaving` is a job that succeeded and is reported as saving.
- "The least-advanced running phase is the honest headline"
  (src/pheasant/jobs.py:293-294): the code takes the running record updated
  last (`HeadlineIsLeader`), so one saving source does make the job "saving"
  (`SavingBesideQueued`). For every order of the phases, `HonestExactly` says the
  comment holds exactly when the record updated last is a least advanced one,
  and `LastReporterNamesPhase` what that asks of an update beforehand.
- "How many completed jobs to keep" (src/pheasant/jobs.py:55) counts entries of
  the order list, and an id created twice takes two: `ReusedIdCostsAPlace` loses
  a finished job with the cap not reached. `CapKeptExactly` says when a create
  evicts no further than the cap, and `FreshIdsKeepCap` that it never does while
  no create reuses a held id.
- "An existing key with the same value is left alone"
  (src/pheasant/setup_wizard.py:2026): the code compares written lines, so an
  exported assignment of the same value loses its `export` and is reported
  (`ExportIsRewritten`); `UpdatedExactly` is the exact condition.
- One orchestrator at a time (src/pheasant/cli.py:245-255) depends on no stale
  claim taking the row from an indexer that is still demoting:
  `ExclusionExactlyWithoutSeizure` is an equivalence over every run, and
  `StaleClaimOverlap` is a run, heartbeat ages included, with two drainers
  started. Each host compares with its own clock, so skew alone does it too
  (`SkewedClaimOverlap`).
- Stopping the drainer first is meant to keep a demoted leader from beginning
  another queued source while its successor promotes
  (src/pheasant/cli.py:365-366). `stop()` joins the drainer thread for ten
  seconds (src/pheasant/cli.py:527) and a drain goes on claiming tasks
  (src/pheasant/sync/queue.py:822-867): `OrderlyHandoverOverlap` is a run with an
  orderly release and two drains, and `DrainExclusionExactly` says exactly which
  runs have none.
- The reconcile thread gives the sync gate back in its `finally`
  (src/pheasant/cli.py:340-342), but a thread that fails to start never gets
  there: `LostGateRun` is the run, `GateLostExactly` the condition.

## Model

| member | source | states |
|---|---|---|
| ShortestPath.Search | src/pheasant/api/app.py:889-949 | A path comes back exactly when a shortest one has at most max_depth hops and the two sides hold at most max_visited nodes one hop before they meet; it joins the two nodes along edges in either direction, repeats no node and no walk is shorter. A path found has two balls within the cap one hop before it is complete; a path missed within reach has two disjoint balls beyond the cap with depth to spare. Equal nodes give the one-node path |
| ShortestPath.SearchFrom | src/pheasant/api/app.py:918-949 | The same over a given adjacency, for every neighbour order, with the radii at which the search ended |
| ShortestPath.SearchLevel | src/pheasant/api/app.py:923-948 | One level gives up exactly when a frontier is empty or the two parent maps together exceed max_visited; otherwise it grows the side with the smaller frontier, the source's on a tie, and either keeps both sides complete and apart or ends with a shortest path |
| ShortestPath.SearchLevels | src/pheasant/api/app.py:923-949 | The depth loop ends with a shortest path, with an empty frontier, over the cap or with the depth used up, after as many levels as the radii add up to |
| ShortestPath.ConclusionIsExact | src/pheasant/api/app.py:923-949 | However the loop ended, there is an answer exactly when some shortest path is affordable |
| ShortestPath.ExpandLevel | src/pheasant/api/app.py:934-942 | Expanding a frontier reaches exactly the next ball and its layer, or stops at a node of both sides one hop further out |
| ShortestPath.ExpandNode | src/pheasant/api/app.py:936-942 | Every neighbour of one node is recorded once with a parent one rank lower |
| ShortestPath.GrowForward | src/pheasant/api/app.py:931-944 | Growing the source's side keeps the sides apart or yields a shortest path through the first meeting |
| ShortestPath.GrowBackward | src/pheasant/api/app.py:931-946 | The same for the target's side |
| ShortestPath.BuildAdjacency | src/pheasant/api/app.py:912-916 | A node is a neighbour exactly when an edge joins the two in either direction |
| ShortestPath.WalkBack | src/pheasant/api/app.py:957-967 | The walk up a ranked parent forest terminates at its root and lists the nodes on the way |
| ShortestPath.JoinPaths | src/pheasant/api/app.py:952-968 | The result is the climb to the source reversed, then the climb to the target |
| ShortestPath.JoinedPathIsWalk | src/pheasant/api/app.py:952-968 | The joined path is a walk from source to target whose hops are the two ranks added up |
| ShortestPath.FirstMeetingIsShortest | src/pheasant/api/app.py:939-941 | Returning at the first meeting already gives a shortest, simple path |
| ShortestPath.ShortWalkMeets | src/pheasant/api/app.py:923-949 | While the two balls are apart every walk is longer than their radii together |
| ShortestPath.BallExactly | src/pheasant/api/app.py:934-942 | The nodes seen after k levels are exactly those a walk of at most k hops reaches |
| ShortestPath.ExhaustedIsOutOfReach | src/pheasant/api/app.py:924-925 | An empty frontier on a side, or the depth used up, proves no walk within the limit exists |
| ShortestPath.ShortestIsSimple | src/pheasant/api/app.py:889-909 | A shortest walk repeats no node |
| ShortestPath.SmallGraphNeverCapped | src/pheasant/api/app.py:926-927 | With no more nodes than max_visited every shortest path within max_depth is affordable, so the answer is complete |
| Sharding.PlanShards | src/pheasant/sharding.py:107-167 | No plan exactly when no source has files; otherwise every source with files is in exactly one shard, the count is the clamped one, totals are right, one non-empty shard per index, over-budget warnings only; an automatic plan without warnings has the smallest count that fits |
| Sharding.UsableExactly | src/pheasant/sharding.py:121 | The planned sources are those of the list that have files, each as often as listed |
| Sharding.ShardCount | src/pheasant/sharding.py:125-129 | Between one and the number of sources; a request is honoured exactly when it is in that range |
| Sharding.ShardCountLeast | src/pheasant/sharding.py:125-129 | The count is the least that is enough: as many as the sources, as many as requested, or, left automatic, as many as hold the total |
| Sharding.PackSources | src/pheasant/sharding.py:135-138 | The in-place greedy loop computes the greedy packing |
| Sharding.PackIsGreedy | src/pheasant/sharding.py:136-138 | The next source goes to the end of the first of the lightest shards, whatever was packed before |
| Sharding.ShardsKeepOrder | src/pheasant/sharding.py:136-138 | Each shard lists its sources in the packing order |
| Sharding.FindLightest | src/pheasant/sharding.py:137 | The first of the lightest shards |
| Sharding.Report | src/pheasant/sharding.py:140-166 | Over-budget warnings in order, then the empty shards if any, and the occupied shards kept |
| Sharding.Lightest | src/pheasant/sharding.py:137 | No shard is lighter and every earlier one is heavier |
| Sharding.Biggest | src/pheasant/sharding.py:146 | The first of the sources with the most files |
| Sharding.PlanWithinFourThirds | src/pheasant/sharding.py:20-23 | For every source list and m, each shard is at most 4/3 - 1/(3m) of the heaviest shard of any split of whole sources into m shards |
| Sharding.LptBound | src/pheasant/sharding.py:131-138 | The same for any descending order, by induction over the placements |
| Sharding.PlacementBound | src/pheasant/sharding.py:136-138 | One placement on the lightest shard keeps the bound |
| Sharding.BigItemFits | src/pheasant/sharding.py:131-138 | A source above a third of the cap always finds a shard with room, by counting weights |
| Sharding.AnyOrderShape | src/pheasant/sharding.py:136-138 | Graham's argument: in any order a shard is below average but for its last source |
| Sharding.RoomForOneMoreFits | src/pheasant/sharding.py:115-118 | A condition on the inputs under which no shard is over budget |
| Sharding.AutomaticCountIsLowerBound | src/pheasant/sharding.py:125-129 | Every split of whole sources that fits the budget has at least as many shards as the automatic count |
| Sharding.AutomaticCountExactness | src/pheasant/sharding.py:114-118 | The automatic count is the smallest feasible one exactly when it is feasible, in particular when the plan itself fits |
| Sharding.AutomaticCountCanOverflow | src/pheasant/sharding.py:115-118 | Three sources of 100 files and a budget of 1050: two shards, and no two shards can hold them |
| Sharding.NoShardIsEmpty | src/pheasant/sharding.py:135-158 | The i-th shard is opened by the i-th largest source, so none is empty and the empty-shard warning is unreachable |
| Sharding.BinsArePartition | src/pheasant/sharding.py:121-138 | Each source of the given list with files is in exactly one shard, as often as listed, and shard totals sum to the corpus |
| Sharding.NoOverloadMeansFits | src/pheasant/sharding.py:140-152 | The over-budget warnings are silent exactly when every shard fits |
| Sharding.OverloadsExact | src/pheasant/sharding.py:141-152 | Each over-budget shard is reported with its own total and largest source, and no other |
| Sharding.OverloadsInOrder | src/pheasant/sharding.py:140-152 | Over-budget warnings come in the order of the shard numbers |
| Sharding.SortedIsOrdered | src/pheasant/sharding.py:134 | The order is by files descending then name, hence by nodes descending |
| Sharding.LexExactly | src/pheasant/sharding.py:134 | Names are compared by prefix or by the first character that differs |
| Sharding.CeilDivLeast | src/pheasant/sharding.py:127 | The ceiling is the least count covering the total |
| Capacity.PlannerWithinProjection | src/pheasant/capacity.py:211-229 | The planner's automatic count never exceeds the count projected from the total of files |
| Capacity.ProjectedShardsLeast | src/pheasant/capacity.py:211-229 | The projected count is the least, from one up, whose budgets hold 6.3 nodes for each file |
| Capacity.PlannerAgreesExactly | src/pheasant/capacity.py:229-235 | The planner's automatic count is the announced one exactly when that is one, or there are that many sources and one budget less does not hold their rounded node counts |
| Capacity.AnnouncedSplitCanDiffer | src/pheasant/capacity.py:229-235 | One source of 500,000 files: three shards announced, one planned |
| Capacity.ProjectionWithinOneShard | src/pheasant/capacity.py:211-229 | With no more sources than the budget has nodes, the projection is at most one above any count that holds the rounded total |
| Capacity.FloorsBelowFloorOfSum | src/pheasant/sharding.py:57-59 | Per-source node counts add up to at most the projection of the total |
| Capacity.FloorsAboveFloorOfSum | src/pheasant/sharding.py:57-59 | Rounding each source loses less than one node per source |
| Capacity.RecommendMemory | src/pheasant/capacity.py:166-178 | The ladder search returns the first size that covers, or whole GiB above the ladder |
| Capacity.RecommendationCovers | src/pheasant/capacity.py:169-171 | The limit always holds 1.5 times the projection, above the ladder too |
| Capacity.WholeGibCovers | src/pheasant/capacity.py:178 | Above the ladder the limit is the least whole number of GiB that is more than 1.5 times the projection |
| Capacity.RecommendationMonotone | src/pheasant/capacity.py:174-178 | A larger projection never gets a smaller limit |
| Election.ExclusionExactlyWithoutSeizure | src/pheasant/cli.py:245-255 | Over every interleaving at most one indexer is past the election exactly when no stale claim takes the row from one that has not finished demoting |
| Election.AtMostOneServing | src/pheasant/cli.py:351-356 | Without such a claim at most one indexer has called start() and not yet stop() on a watcher, scheduler or drainer, and it owns the row |
| Election.PromotionsAlternate | src/pheasant/cli.py:317-377 | In every run the promotions and demotions of one indexer strictly alternate |
| Election.LeaderStepsDown | src/pheasant/cli.py:396-409 | In every run a leader that finds its lease gone, or a stop requested, has demoted before it tries, waits, promotes, releases or is stopped again, and none of its services is up when it tries for the row again, releases it or has stopped |
| Election.LeaderIsFullyStaffed | src/pheasant/cli.py:317-356 | Between iterations an indexer that holds the lease leads, and a leader has every service it is configured with up |
| Election.LeaderKeepsServing | src/pheasant/cli.py:385-405 | A holder whose heartbeat is not lost and that is not told to stop keeps its lease, its leadership and all its services, and logs nothing |
| Election.StandbyTries | src/pheasant/cli.py:396-405 | An indexer without the lease tries for the row before it waits again |
| Election.StopIsHonoured | src/pheasant/cli.py:386-409 | Once the loop has seen a requested stop the indexer never tries, promotes or waits again |
| Election.ServicesStopBeforeRelease | src/pheasant/cli.py:406-409 | Only the holder frees the row, after stop() has returned for each of its services |
| Election.RowIsHeldExactly | src/pheasant/sync/locks.py:374-440 | In every run an indexer owns the row only while it believes it holds it, and has none once stopped, exactly when its heartbeat never gives up while the row is still its own |
| Election.HeartbeatDefersClaim | src/pheasant/sync/locks.py:318-353 | After a claim or heartbeat another indexer can claim only once its clock is more than 20 seconds past the time written, if nobody else wrote or freed the row |
| Election.CoherentStep | src/pheasant/cli.py:360-409 | Every statement of a supervisor keeps started services, leadership and program point consistent, exceptions in a promotion included |
| Election.ExclusiveStep | src/pheasant/sync/locks.py:318-353 | Every step without a seizure keeps the engaged indexer the row's owner |
| Election.SeizureBreaks | src/pheasant/sync/locks.py:338-352 | A stale claim on an engaged indexer's row puts two past the election |
| Election.StaleClaimOverlap | src/pheasant/sync/locks.py:318-353 | A run in which a heartbeat older than 20 seconds lets a second indexer claim, and both drain |
| Election.SkewedClaimOverlap | src/pheasant/sync/locks.py:313-353 | A run in which no time passes and a host whose clock is 21 seconds ahead claims a live row, and both drain |
| Election.DrainExclusionExactly | src/pheasant/cli.py:360-377 | Over every interleaving no indexer is past the election beside another that is past it or still draining, exactly when no stale claim hits an engaged indexer and nobody wins while another's drain is alive |
| Election.OrderlyHandoverOverlap | src/pheasant/cli.py:519-527 | A run without any stale claim in which the old leader stops, releases and still drains beside its successor |
| PromotionGate.ReconcileExcludesDrain | src/pheasant/cli.py:323-349 | In every interleaving startup reconciliation and a queue drain, or two drains, are never in progress together |
| PromotionGate.EveryAcquireReleasedOnce | src/pheasant/cli.py:330-349 | The n-th acquisition of the gate is released at most once, by its own reconcile thread, before the next; one is outstanding exactly while the promotion owns the gate or once a reconcile thread failed to start |
| PromotionGate.GateLostExactly | src/pheasant/cli.py:330-349 | The gate is held by nobody who could release it exactly when a reconcile thread failed to start, and then nothing drains or reconciles again |
| PromotionGate.LostGateRun | src/pheasant/cli.py:330-349 | A run of three steps that loses the gate |
| PromotionGate.PromotionsAccountedFor | src/pheasant/cli.py:323-325 | Every promotion took the gate, is waiting for it, or found the previous reconcile thread alive |
| PromotionGate.SkippedExactlyWhileAlive | src/pheasant/cli.py:323-325 | A promotion is skipped exactly when the previous reconcile thread is alive; otherwise it goes on to wait for the gate |
| PromotionGate.ReleasedAfterReconciling | src/pheasant/cli.py:332-342 | A release by a reconcile thread comes after that thread reconciled |
| PromotionGate.FreeGateServes | src/pheasant/cli.py:618-626 | The gate is free exactly when no promotion owns it, nothing drains and no reconcile thread ever failed to start, and it can be taken exactly when free |
| PromotionGate.GateCanBeReturned | src/pheasant/cli.py:330-349 | From every reachable state in which a promotion owns the gate its own steps alone give it back |
| PromotionGate.InvStep | src/pheasant/cli.py:618-626 | Every statement of the election, reconcile and drainer threads keeps the gate's invariant |
| GraphRefresh.CurrentExactly | src/pheasant/cli.py:712-727 | Over every run: a check that nothing was published since always leaves the latest graph served, exactly when the start was on time, no check met its remembered stamp again over another graph and no reload of the latest publication raised or found an empty graph |
| GraphRefresh.AbreastExactly | src/pheasant/cli.py:712-769 | Over every run: between checks the served graph is always as new as the last check saw, exactly when the start was on time, no repeated stamp was skipped and no reload raised or found an empty graph while behind |
| GraphRefresh.NotOlderExactly | src/pheasant/cli.py:721-725 | Over every run: the served graph is never older than the remembered stamp, exactly when it starts so and no reload raises or finds an empty graph while it is older |
| GraphRefresh.EveryAnnouncementIsChecked | src/pheasant/cli.py:754-759 | Back at the wait with the event clear, the store has been looked at after every announcement, and what was announced was seen unless that look raised |
| GraphRefresh.AnnouncedServedExactly | src/pheasant/cli.py:747-769 | Over every run: back at the wait with nothing pending, something at least as new as announced is always served, exactly when no check older than announced skips its stamp and no reload of one changes nothing |
| GraphRefresh.AnnouncedIsServed | src/pheasant/cli.py:747-759 | Back at the wait with the event clear, unless the last stamp read raised, something at least as new as the last announcement is served, in the runs `AbreastExactly` singles out |
| GraphRefresh.UndisturbedCheckIsCurrent | src/pheasant/cli.py:712-727 | With stamps that do not repeat, an undisturbed check ends with the newest publication itself loaded unless a reload of the latest one raised or found an empty graph |
| GraphRefresh.StuckUntilNewStamp | src/pheasant/cli.py:721-724 | A replica behind the stamp it remembers stays there through every poll and announcement until another stamp is published |
| GraphRefresh.FailedReloadIsNotRetried | src/pheasant/cli.py:747-769 | In every run a reload of the latest publication that raises or finds an empty graph is followed by none before another stamp is published |
| GraphRefresh.FailedReloadRun | src/pheasant/cli.py:747-769 | A run in which the reload raises and a later poll and an announced check leave the old graph served |
| GraphRefresh.FailedReadIsRetried | src/pheasant/cli.py:768-769 | A stamp read that raises is retried: the next check that reads finds the publication and reloads |
| GraphRefresh.NewStampIsNoticed | src/pheasant/cli.py:721-724 | The first check after a publication with another stamp starts a reload of it |
| GraphRefresh.PollCatchesUp | src/pheasant/cli.py:747-759 | From every reachable wait a poll alone, with nothing raised, ends at the wait having looked at the last publication, and has loaded it exactly when its stamp is not the remembered one |
| GraphRefresh.StopEndsRefresh | src/pheasant/cli.py:701-710 | After a stop, once the thread is back at the wait, it never looks at the store, reloads or changes what is served |
| GraphRefresh.LateStartStaysBehind | src/pheasant/cli.py:684-685 | A publication between the engine's load and the refresher's first stamp is missed until another stamp is published |
| GraphRefresh.LateStartRun | src/pheasant/cli.py:684-685 | A run without any failure in which a late start leaves a poll and an announced check without effect |
| GraphRefresh.InvStep | src/pheasant/cli.py:690-759 | Every step keeps the bookkeeping of stamps, checks and announcements |
| GraphRefresh.RepeatedStampIsMissed | src/pheasant/cli.py:721-725 | A run without failures in which re-publishing an earlier stamp leaves another graph served |
| JobRecords.ObserveConserves | src/pheasant/jobs.py:122-166 | An update keeps the banked phase times summing to the current phase start minus creation, for clock values in any order |
| JobRecords.ObserveLeaves | src/pheasant/jobs.py:122-166 | What an update leaves: given phase, counter and detail or the old ones, the total given, forgotten on a new phase or kept, the left phase charged with its time and no other |
| JobRecords.FinishConserves | src/pheasant/jobs.py:168-178 | Finishing keeps it too |
| JobRecords.FinishLeaves | src/pheasant/jobs.py:168-178 | What finishing leaves: the status, the counter raised to a known total, the running phase charged with its time |
| JobRecords.RenderedAddsUp | src/pheasant/jobs.py:209-237 | The phase times a reader sees sum to the age of a live record and the lifetime of a finished one |
| JobRecords.PhaseTimesExact | src/pheasant/jobs.py:209-237 | After any history of updates each phase shows exactly the time during which it was the reported phase |
| JobRecords.FinishFreezesTimes | src/pheasant/jobs.py:168-178 | The times of a finished record are for ever those of the moment it finished |
| JobRecords.ProgressGood | src/pheasant/jobs.py:504-531 | Progress keeps source names unique, every record conserved and the shown total that of the records |
| JobRecords.ProgressTouchesOne | src/pheasant/jobs.py:509-519 | An update about a real source removes the placeholder and leaves every other record alone |
| JobRecords.ProgressFolds | src/pheasant/jobs.py:504-531 | After an update the addressed record is its old self, or a new one, after that update; the others stay as they were, the placeholder apart; the rollup is that of the records |
| JobRecords.FortyOfHundred | src/pheasant/jobs.py:504-531 | 40 of 100 reported by the only source is what the record and the job show |
| JobRecords.FinishGood | src/pheasant/jobs.py:544-560 | Finishing a job keeps that and never changes whether a total is shown, or which |
| JobRecords.FinishJobExactly | src/pheasant/jobs.py:544-560 | Every unfinished record is finished with the status, the others stay, and the job counts its total when one is known |
| JobRecords.FinishSourceGood | src/pheasant/jobs.py:563-581 | Finishing one source keeps it and the total too |
| JobRecords.FinishSourceExactly | src/pheasant/jobs.py:563-581 | An unfinished record of the named source in an unfinished job ends with the status and the rollup is that of the records; no other record changes |
| JobRecords.DenominatorShownExactly | src/pheasant/jobs.py:144-153 | After an update a total is shown exactly when the addressed source brings a count, or has one and stays in its phase, and every other source has one, the placeholder apart once a real source reports |
| JobRecords.DenominatorIsSum | src/pheasant/jobs.py:278-299 | A total is shown exactly when every record has one, and is their sum |
| JobRecords.SumsConcat | src/pheasant/jobs.py:278-299 | Counters and totals add up over concatenation |
| JobRecords.SumsOfOne | src/pheasant/jobs.py:278-299 | One record contributes its own counter and total |
| JobRecords.FinishedPhase | src/pheasant/jobs.py:553-559 | A finished job reports its status as phase exactly when it had no record or its latest record was in a phase of that name |
| JobRecords.SucceededButSaving | src/pheasant/jobs.py:553-559 | A one-source sync that succeeds while saving is reported as saving |
| JobRecords.SavingBesideQueued | src/pheasant/jobs.py:290-296 | One source saving beside a queued one makes the job "saving" |
| JobRecords.Newest | src/pheasant/jobs.py:295 | The first of the records with the latest update |
| JobRecords.Headline | src/pheasant/jobs.py:290-296 | The headline record is a running one unless none runs, and the latest of its kind |
| JobRecords.HeadlineIsLeader | src/pheasant/jobs.py:290-296 | Exactly one record leads, the first of the latest running ones or of all when none runs, and it is the headline |
| JobRecords.RollupShows | src/pheasant/jobs.py:278-299 | The rollup shows the leading record's phase and detail, prefixed by its source when there are several, the summed counter and the total |
| JobRecords.SeededExactly | src/pheasant/jobs.py:463-474 | A new job has one fresh queued record for each distinct target and no other |
| JobRecords.HonestExactly | src/pheasant/jobs.py:293-296 | For every order of the phases, the phase shown is a least advanced running one exactly when the leading record is in such a phase |
| JobRecords.LastReporterNamesPhase | src/pheasant/jobs.py:509-531 | The running source that reported last names the job's phase, so the headline is honest after an update exactly when every source running beside it is at least as advanced as the phase reported |
| JobRegistry.LockedRegistry.constructor | src/pheasant/jobs.py:438-449 | An empty registry with its cap |
| JobRegistry.LockedRegistry.Create | src/pheasant/jobs.py:453-480 | Stores the seeded job under its id, appends to the order, evicts; a repeated id replaces and appends again |
| JobRegistry.LockedRegistry.EvictOldest | src/pheasant/jobs.py:816-829 | The eviction loop computes the sweep specification |
| JobRegistry.LockedRegistry.Progress | src/pheasant/jobs.py:482-534 | The addressed record observes the update and the rollup is recomputed; unknown and finished jobs are left alone |
| JobRegistry.LockedRegistry.Finish | src/pheasant/jobs.py:536-561 | Status set without a guard, active records finished, rollup recomputed, counter raised to a known total |
| JobRegistry.LockedRegistry.FinishSource | src/pheasant/jobs.py:563-581 | One active record of an active job is finished |
| JobRegistry.LockedRegistry.Clear | src/pheasant/jobs.py:743-757 | Finished selected jobs go, the order keeps held ids, the count is of the jobs that went (`ClearExactly` says which) |
| JobRegistry.LockedRegistry.FindActive | src/pheasant/jobs.py:628-634 | The backwards walk finds the newest unfinished job on a target |
| JobRegistry.RunGood | src/pheasant/jobs.py:430-436 | After any run of operations, repeated ids included, every held job is in the order list, every record is conserved and every shown total is that of the records |
| JobRegistry.ApplyGood | src/pheasant/jobs.py:453-581 | Every operation keeps that |
| JobRegistry.UpdatesReachTheirJob | src/pheasant/jobs.py:482-581 | Progress, finish and finish_source change the job they name, as the record rules say, and nothing else; an unknown id changes nothing |
| JobRegistry.CreateRespectsCap | src/pheasant/jobs.py:55-56 | After each create at most max_records jobs are held or no finished job is |
| JobRegistry.CreateDropsOldest | src/pheasant/jobs.py:816-829 | A create drops the oldest finished jobs, one for each order entry past the cap as far as they go, and no other job |
| JobRegistry.CreateKeepsOrder | src/pheasant/jobs.py:475-480 | The new id is listed last; the rest of the order stays but for first listings of evicted ids |
| JobRegistry.CreateHolds | src/pheasant/jobs.py:453-480 | A create holds a running job with queued records for its targets, and any other job it keeps is unchanged |
| JobRegistry.SweepDropsOldest | src/pheasant/jobs.py:816-829 | The sweep drops exactly the first finished jobs of the order, as many as it may |
| JobRegistry.FinishedByAge | src/pheasant/jobs.py:816-829 | The finished jobs are taken in the order their ids were first listed |
| JobRegistry.CapKeptExactly | src/pheasant/jobs.py:55-56 | In every reachable registry a create leaves the cap's worth of jobs exactly when no entry past the cap is a duplicate or leftover, or all finished jobs are past the cap anyway |
| JobRegistry.TidyExactly | src/pheasant/jobs.py:453-480 | Each held job stays listed exactly once, and nothing else listed, exactly when no create reuses the id of a held job |
| JobRegistry.FreshIdsKeepCap | src/pheasant/jobs.py:55-56 | Over every sequence of operations that reuses no held id, each create leaves the cap's worth of jobs |
| JobRegistry.ReusedIdCostsAPlace | src/pheasant/jobs.py:816-829 | With a cap of two, an id created twice and finished is dropped by the next create although two jobs would be held |
| JobRegistry.RunningJobsSurvive | src/pheasant/jobs.py:743-757 | No operation drops a running job, and one that does not name it leaves it unchanged |
| JobRegistry.FinishedJobsAreFrozen | src/pheasant/jobs.py:52-53 | A finished job is dropped or unchanged unless finished again or its id reused |
| JobRegistry.FinishedStatusKeptExactly | src/pheasant/jobs.py:52-53 | A finished job keeps its status under an operation exactly when that neither reuses its id nor finishes it as something else |
| JobRegistry.FinishedForGoodExactly | src/pheasant/jobs.py:52-53 | The same over every sequence of operations, through eviction and clearing |
| JobRegistry.FinishRewritesTerminal | src/pheasant/jobs.py:544-552 | Finishing a succeeded job as failed rewrites its status |
| JobRegistry.EvictGood | src/pheasant/jobs.py:816-829 | Eviction drops finished jobs only, keeps every held job listed and meets the cap or leaves no finished job |
| JobRegistry.SweepIsThorough | src/pheasant/jobs.py:816-829 | The sweep removes all it may or leaves no finished job in the order |
| JobRegistry.SweepKeepsOrder | src/pheasant/jobs.py:816-829 | What the sweep keeps is in the old order, and it leaves out only the first listing of each job it drops |
| JobRegistry.NothingRemovable | src/pheasant/jobs.py:816-829 | With no excess the sweep changes nothing |
| JobRegistry.ClearGood | src/pheasant/jobs.py:743-757 | Clearing drops finished jobs only and keeps held jobs listed |
| JobRegistry.ClearExactly | src/pheasant/jobs.py:743-757 | A clear removes exactly the held jobs that succeeded, failed or were cancelled and were selected, and leaves the others unchanged |
| JobRegistry.ClearKeepsOrder | src/pheasant/jobs.py:743-757 | The order is the old one without the entries of ids no longer held, and unchanged when nothing is removed |
| JobRegistry.ActiveForExact | src/pheasant/jobs.py:628-634 | A target is free exactly when no held unfinished job names it |
| JobRegistry.ActiveInIsNewest | src/pheasant/jobs.py:628-634 | The job found is the last one in the order that claims the target |
| BackgroundSync.NoSourceClaimedTwice | src/pheasant/api/app.py:2351-2369 | Over every interleaving of requests, finishes, clears and evictions two unfinished sync jobs never claim one source |
| BackgroundSync.InvStep | src/pheasant/api/app.py:2354-2362 | Every step keeps claims disjoint and names chosen under the lock unclaimed |
| BackgroundSync.UndisturbedRequest | src/pheasant/api/app.py:2354-2362 | From every reachable state with the lock free, a request that meets no other step claims exactly its free names, in order, and answers None exactly when there are none |
| BackgroundSync.CheckTakesFreeName | src/pheasant/api/app.py:2355-2358 | In every run a check chooses the next name exactly when no unfinished job claims it |
| BackgroundSync.LockHeldExactly | src/pheasant/api/app.py:2354 | In every run the lock is held exactly by the request that is checking |
| BackgroundSync.ForeignShrinks | src/pheasant/jobs.py:536-581 | What happens outside the lock never adds a sync claim |
| BackgroundSync.ClaimStaysDisjoint | src/pheasant/api/app.py:2355-2362 | Creating the job for the chosen names keeps claims disjoint |
| KeysetExport.StreamTable | src/pheasant/analytics.py:530-564 | With a table state per page: each page is the next page of the state read in its turn, full but for the last; keys strictly increase, every row comes from a state that was read; the stream ends exactly at a short page or an empty read, and a finished one has every key present throughout |
| KeysetExport.StableRowExportedOnce | src/pheasant/analytics.py:9-13 | A row no commit touched is exported exactly once as it was |
| KeysetExport.StreamQuietTable | src/pheasant/analytics.py:541-564 | On a fixed table the stream ends and its pages concatenate to the sorted table |
| KeysetExport.QuietExport | src/pheasant/analytics.py:541-564 | Enough pages always finish a fixed table, and a finished export is the table in key order |
| KeysetExport.SelectIsPage | src/pheasant/analytics.py:547-558 | A page is in order, beyond the cursor, and skips nothing up to its last key |
| KeysetExport.PageGroups | src/pheasant/analytics.py:567-615 | Node and edge pages concatenate to all rows in order, every page but the last has at least a batch, and each is a stretch of whole groups that is below the batch without its last one |
| ConfigMerge.DeepMerge | src/pheasant/config/loader.py:148-155 | The loop over the overlay's keys, in any order, computes the recursive merge |
| ConfigMerge.LoadLayered | src/pheasant/config/loader.py:86-102 | Defaults, profile, optional file and overrides are folded in that order |
| ConfigMerge.MergeReads | src/pheasant/config/loader.py:148-155 | Path by path a merge reads from the overlay unless it is silent there |
| ConfigMerge.MergeSections | src/pheasant/config/loader.py:148-155 | Sections, empty ones too, come from the overlay unless it is silent there |
| ConfigMerge.ReadsDetermine | src/pheasant/config/loader.py:148-155 | Two configurations with the same leaves and sections at every path are equal, so the readings settle the merge |
| ConfigMerge.LayeredReads | src/pheasant/config/loader.py:86-102 | Every path reads from the last layer that speaks about it; every leaf of the overrides survives |
| ConfigMerge.LayeredSections | src/pheasant/config/loader.py:86-102 | Sections come from the last layer that speaks about them |
| ConfigMerge.MergeIdempotent | src/pheasant/config/loader.py:148-155 | Applying an overlay twice is applying it once |
| ConfigMerge.AssociativeExactly | src/pheasant/config/loader.py:148-155 | Merging is associative exactly when no path has mappings outside and a leaf in the middle, unless the last layer covers the first there |
| ConfigMerge.WithinExactly | src/pheasant/config/loader.py:148-155 | A layer is absorbed exactly when the later one replaces everything it says |
| ConfigMerge.LayersRegroupExactly | src/pheasant/config/loader.py:91-101 | File and overrides may be merged first exactly when they regroup over the base |
| ConfigMerge.RegroupingCanFail | src/pheasant/config/loader.py:148-155 | A triple of layers for which grouping matters |
| EnvFile.MergeEnvFile | src/pheasant/setup_wizard.py:2021-2049 | The loops compute the merged text and the added and updated names |
| EnvFile.FindAssignments | src/pheasant/setup_wizard.py:2029-2034 | Each assigned name is mapped to a line that assigns it, and no later line does |
| EnvFile.SplitWoven | src/pheasant/setup_wizard.py:2029 | Splitting gives back the lines of every layout: any line breaks, a carriage return and line feed as one, the last line with or without its break |
| EnvFile.TextIsWoven | src/pheasant/setup_wizard.py:2029 | Every text has such a layout: the lines found and one break for each make up the text |
| EnvFile.MergeRefinesUpdate | src/pheasant/setup_wizard.py:2021-2049 | For a reader who takes the last occurrence, merging is map update |
| EnvFile.MergeRefinesExactly | src/pheasant/setup_wizard.py:2021-2049 | For every dictionary and file, merging is map update for a reader exactly when the names are valid and the values have no line break |
| EnvFile.MergeTwiceChangesNothing | src/pheasant/setup_wizard.py:2024-2028 | A second merge reports nothing and yields identical text |
| EnvFile.MergeKeepsUnrelatedLines | src/pheasant/setup_wizard.py:2024-2027 | Whatever lines and line breaks a file consists of, every line stays at its place unless it was the last one of an updated name or a blank line at the end |
| EnvFile.WrittenLayout | src/pheasant/setup_wizard.py:2048-2049 | The text written has every line ended by a line feed and no blank line last |
| EnvFile.ReportIsRight | src/pheasant/setup_wizard.py:2037-2047 | Added are exactly the given names the file lacked, updated only given names it had |
| EnvFile.ReportsInOrder | src/pheasant/setup_wizard.py:2037-2047 | Added and updated names are listed in the order given, and the appended lines are those of the added names |
| EnvFile.UpdatedExactly | src/pheasant/setup_wizard.py:2037-2042 | A given name is reported as updated exactly when the line that decided it differs from the one written |
| EnvFile.ExportIsRewritten | src/pheasant/setup_wizard.py:2026-2042 | For every valid name and value, an exported assignment of the same value reads the same, is rewritten without its export and is reported as updated |
| EnvFile.SequentialIsPerCharacter | src/pheasant/setup_wizard.py:2055 | The three replacements in sequence are the per-character escaper |
| EnvFile.QuoteRoundTrip | src/pheasant/setup_wizard.py:2052-2056 | Reading a quoted value gives it back |
| EnvFile.QuotedExactly | src/pheasant/setup_wizard.py:2052-2056 | A value is written as it is exactly when it is not empty and has no white space and none of the six special characters; any other is escaped between double quotes |
| EnvFile.QuoteInjective | src/pheasant/setup_wizard.py:2052-2056 | Distinct values are written differently, across both branches |
| EnvFile.LineNameComplete | src/pheasant/setup_wizard.py:2018 | Every reading the assignment expression allows is recognised with its name |
| EnvFile.LineNameSound | src/pheasant/setup_wizard.py:2018 | Nothing else is |
| EnvFile.RenderedReads | src/pheasant/setup_wizard.py:2040 | A written line is recognised under its name and reads back its value |
| EnvFile.RenderReadBack | src/pheasant/setup_wizard.py:2048-2049 | Writing lines and splitting the text again loses only blank lines at the end |
| Release.ReleaseOptions | scripts/release_version.py:146-153 | For every stable project version and tag set all three increments of the base are offered, the base being the project's or a published version and earlier than neither; otherwise it exits |
| Release.ReleaseBase | scripts/release_version.py:139-143 | The base is the project's or a published version and earlier than neither |
| Release.LatestPublished | scripts/release_version.py:130-132 | The maximum of the stable tags, none exactly when there is no stable tag |
| Release.CheckIncrement | scripts/sync_version.py:380-399 | Accepted exactly when the version is stable and above every published stable tag |
| Release.OptionsAreAccepted | scripts/release_version.py:146-153 | Every option offered passes the increment check |
| Release.PrintParses | scripts/sync_version.py:65-69 | Parsing a printed version gives it back, with or without the v |
| Release.DecimalNumeral | scripts/release_version.py:135-136 | Numbers are printed as their decimal digits without leading zeros |
| Release.ParseTagPrints | scripts/sync_version.py:23-27 | A version has exactly two published spellings |
| Release.BumpIsEarliest | scripts/sync_version.py:72-87 | An increment is the earliest version exceeding the old one in its part |
| Release.StrongestCoversAll | scripts/release_version.py:348-358 | The strongest increment is one of the requested ones and its version is at least each requested version |
| Release.StrongestNamed | scripts/release_version.py:348-358 | A requested "major" makes the strongest increment major, else "minor" minor, else "patch" patch, else there is none |
| Release.NoOptionBranchIsDead | scripts/release_version.py:168-177 | For whatever is offered over the base, the selection or the patch default is on offer and its version is above every published one |

## Left out

- Thread fields in src/pheasant/cli.py and the request threads of src/pheasant/api/app.py: modelled as values of a state machine whose steps are single statements, because interleavings are the point; update in place of those objects is not captured.
- Job and SourceProgress objects: held as values inside the registry's map; a `Job` handed out by `create` and mutated through another reference is not captured.
- RoomForOneMoreFits: sufficient only; when the greedy packing stays under budget has no simpler exact test than running it, so the necessary half stated is feasibility (`AutomaticCountExactness`).
- AnnouncedIsServed: gives the half a caller uses, by position where stamps do not repeat; the equivalence is `AnnouncedServedExactly`.
- Search: `graph.reading()` and the graph's own locking are not modelled; the edges are a sequence.
- Election: whole seconds, read in the same step as the statement that writes or compares them; a `stop()` whose join times out and is followed by another `start()` of the same service, a service whose `stop()` raises, and a release whose delete raises, are left out.
- PromotionGate: the watcher, scheduler and startup syncs that also take the gate count as its clients; what they do while holding it is not modelled.
- GraphRefresh: a replica on the row backend, which loads no graph of its own and is never behind.
- NoSourceClaimedTwice: finishes outside the lock carry a terminal status, as every caller passes; it concerns claimed targets only, since an all-sources job syncs every source.
- StreamTable: keys are integers standing for their order, NULL keys and the negative LIMIT that SQLite reads as no limit are left out.
- JobRecords: throughput samples, ETA, stall detection, failure tails and log lines, which only add counters and bounded lists.
- JobRegistry: `list`, `last_outcome_for`, `source_progress`, metrics, subscriptions and the shared snapshot files.
- Release: only ASCII digits, where the expressions accept any Unicode decimal digit; comment parsing, GitHub requests and the rewriting of version references.
- EnvFile: file modes and writing; the repeat-run and kept-lines results ask for valid names and values without line breaks, which `MergeRefinesExactly` shows to be the inputs the merge is for.
- Capacity: disk, vector and time projections, and the text of the memory limit.
- Floating point: node, memory and time arithmetic is exact.
- `parse_override_pairs`, YAML and schema validation of the configuration.
- HTTP routes, the CLI, indexing, search, memory, evaluation, tuning and the user interface.
