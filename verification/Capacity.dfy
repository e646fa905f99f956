/**
 * The capacity projection the planner must agree with
 * (src/pheasant/capacity.py): nodes, shards and a container size from a file
 * count.  Sizes are exact; memory is counted in halves of a GiB.
 */
module Capacity {
  import opened Options
  import opened Sequences
  import opened Sharding

  /** `int(files * NODES_PER_FILE)` after negative counts are clamped to zero. */
  function ProjectedNodes(files: int): nat {
    Max(0, files) * 63 / 10
  }

  function ProjectedShards(files: int, budget: int): nat {
    Max(1, CeilDiv(ProjectedNodes(files), Max(1, budget)))
  }

  /** The projected count is the least that holds the projected nodes, at 6.3 a file rounded down. */
  lemma ProjectedShardsLeast(files: int, budget: int, k: nat)
    requires k >= 1
    ensures ProjectedShards(files, budget) <= k
            <==> k * Max(1, budget) >= (if files > 0 then files * 63 / 10 else 0)
    ensures ProjectedShards(files, budget) >= 1
  {
    CeilDivLeast(ProjectedNodes(files), Max(1, budget), k);
  }

  /** Rounding each source down loses less than one node a source. */
  lemma {:induction false} FloorsAboveFloorOfSum(sources: seq<Usable>)
    ensures ProjectedNodes(Sum(Files, sources)) <= Load(sources) + |sources|
  {
    if sources != [] {
      var init, x := sources[..|sources| - 1], sources[|sources| - 1];
      FloorsAboveFloorOfSum(init);
      FloorSum(Sum(Files, init), x.files);
    }
  }

  /** So the two commands disagree by at most one region unless there are more sources than a region's nodes. */
  lemma ProjectionWithinOneShard(sources: seq<SourceSize>, budget: int, k: nat)
    requires k * Max(1, budget) >= Load(UsableOf(sources)) && |UsableOf(sources)| <= Max(1, budget) && k >= 1
    ensures ProjectedShards(Sum(Files, UsableOf(sources)), budget) <= k + 1
  {
    var usable := UsableOf(sources);
    FloorsAboveFloorOfSum(usable);
    OneMore(k, Max(1, budget));
    ProjectedShardsLeast(Sum(Files, usable), budget, k + 1);
  }

  lemma {:induction false} FloorsBelowFloorOfSum(sources: seq<Usable>)
    ensures Load(sources) <= ProjectedNodes(Sum(Files, sources))
  {
    if sources != [] {
      var init, x := sources[..|sources| - 1], sources[|sources| - 1];
      FloorsBelowFloorOfSum(init);
      FloorSum(Sum(Files, init), x.files);
    }
  }

  lemma FloorSum(a: nat, b: nat)
    ensures a * 63 / 10 + b * 63 / 10 <= (a + b) * 63 / 10 <= a * 63 / 10 + b * 63 / 10 + 1
  {
  }

  lemma CeilDivMonotone(a: nat, b: nat, size: nat)
    requires a <= b && size >= 1
    ensures CeilDiv(a, size) <= CeilDiv(b, size)
  {
    CeilDivLeast(b, size, CeilDiv(b, size));
    CeilDivLeast(a, size, CeilDiv(b, size));
  }

  /** `shard plan` never asks for more regions than `scan` announced for the same corpus. */
  lemma PlannerWithinProjection(sources: seq<SourceSize>, budget: int)
    requires UsableOf(sources) != []
    ensures ShardCount(UsableOf(sources), None, budget)
         <= ProjectedShards(Sum(Files, UsableOf(sources)), budget)
  {
    var usable := UsableOf(sources);
    FloorsBelowFloorOfSum(usable);
    CeilDivMonotone(Load(usable), ProjectedNodes(Sum(Files, usable)), Max(1, budget));
  }

  /**
   * The projection announces the split the planner will propose.  It does
   * exactly when there are that many sources and one shard fewer would not
   * hold the sources' own node counts.
   */
  lemma PlannerAgreesExactly(sources: seq<SourceSize>, budget: int)
    requires UsableOf(sources) != []
    ensures var usable := UsableOf(sources);
            var announced := ProjectedShards(Sum(Files, usable), budget);
            ShardCount(usable, None, budget) == announced
            <==> announced == 1 || (announced <= |usable| && (announced - 1) * Max(1, budget) < Load(usable))
  {
    var usable := UsableOf(sources);
    var announced := ProjectedShards(Sum(Files, usable), budget);
    PlannerWithinProjection(sources, budget);
    if announced > 1 {
      ShardCountLeast(usable, None, budget, announced - 1);
    }
  }

  /** One source of half a million files: three regions are announced at the default budget, one is planned. */
  lemma AnnouncedSplitCanDiffer(source: Usable)
    requires source.files == 500000
    ensures UsableOf([source]) == [source]
    ensures ProjectedShards(Sum(Files, [source]), 1500000) == 3 && ShardCount([source], None, 1500000) == 1
  {
    AllUsable([source]);
    assert Sum(Files, [source]) == Sum(Files, []) + Files(source);
  }

  // ------------------------------------------------------------ memory

  const GIB: nat := 1024 * 1024 * 1024

  /** The sizes an operator types, in half GiB: 0.5, 1, 2, 4, 6, 8, 12, 16, 24, 32, 48, 64. */
  const LADDER: seq<nat> := [1, 2, 4, 8, 12, 16, 24, 32, 48, 64, 96, 128]

  /** `halves / 2` GiB hold one and a half times `rss` bytes. */
  predicate Covers(halves: nat, rss: nat) {
    3 * rss <= halves * GIB
  }

  function WholeGib(rss: nat): nat {
    2 * (3 * rss / (2 * GIB) + 1)
  }

  /** The search over the ladder, and the rounded-up whole GiB above it. */
  method RecommendMemory(rss: nat) returns (halves: nat)
    ensures halves == Recommended(rss)
    ensures Covers(halves, rss)
    ensures halves in LADDER ==> forall j :: 0 <= j < |LADDER| && LADDER[j] < halves ==> !Covers(LADDER[j], rss)
    ensures halves !in LADDER ==> (forall j :: 0 <= j < |LADDER| ==> !Covers(LADDER[j], rss)) && halves == WholeGib(rss)
  {
    for i := 0 to |LADDER|
      invariant forall j :: 0 <= j < i ==> !Covers(LADDER[j], rss)
    {
      if Covers(LADDER[i], rss) {
        RecommendedIsFirst(rss, i);
        return LADDER[i];
      }
    }
    RecommendedAboveLadder(rss, 0);
    return WholeGib(rss);
  }

  function RecommendedFrom(rss: nat, i: nat): nat
    requires i <= |LADDER|
    decreases |LADDER| - i
  {
    if i == |LADDER| then WholeGib(rss)
    else if Covers(LADDER[i], rss) then LADDER[i]
    else RecommendedFrom(rss, i + 1)
  }

  function Recommended(rss: nat): nat {
    RecommendedFrom(rss, 0)
  }

  lemma {:induction false} RecommendedIsFirst(rss: nat, i: nat, from: nat := 0)
    requires from <= i < |LADDER| && Covers(LADDER[i], rss)
    requires forall j :: from <= j < i ==> !Covers(LADDER[j], rss)
    ensures RecommendedFrom(rss, from) == LADDER[i]
    decreases i - from
  {
    if from < i {
      RecommendedIsFirst(rss, i, from + 1);
    }
  }

  lemma {:induction false} RecommendedAboveLadder(rss: nat, from: nat)
    requires from <= |LADDER|
    requires forall j :: from <= j < |LADDER| ==> !Covers(LADDER[j], rss)
    ensures RecommendedFrom(rss, from) == WholeGib(rss)
    decreases |LADDER| - from
  {
    if from < |LADDER| {
      RecommendedAboveLadder(rss, from + 1);
    }
  }

  /** Above the ladder: the next whole GiB after one and a half times the projection, and no more. */
  lemma WholeGibCovers(rss: nat)
    ensures Covers(WholeGib(rss), rss) && WholeGib(rss) % 2 == 0
    ensures (WholeGib(rss) - 2) * GIB <= 3 * rss < WholeGib(rss) * GIB
  {
    var q := 3 * rss / (2 * GIB);
    assert 3 * rss < (q + 1) * (2 * GIB);
  }

  /** The limit always holds 1.5 times the projection, on the ladder and above it. */
  lemma {:induction false} RecommendationCovers(rss: nat, from: nat)
    requires from <= |LADDER|
    ensures Covers(RecommendedFrom(rss, from), rss)
    decreases |LADDER| - from
  {
    if from == |LADDER| {
      WholeGibCovers(rss);
    } else {
      RecommendationCovers(rss, from + 1);
    }
  }

  lemma {:induction false} RecommendationAtLeast(rss: nat, from: nat, floor: nat)
    requires from < |LADDER| && floor <= LADDER[from]
    ensures RecommendedFrom(rss, from) >= floor
    decreases |LADDER| - from
  {
    if !Covers(LADDER[from], rss) {
      if from + 1 == |LADDER| {
        assert 3 * rss / (2 * GIB) >= 64;
      } else {
        RecommendationAtLeast(rss, from + 1, floor);
      }
    }
  }

  /** A larger projection never gets a smaller limit, also across the end of the ladder. */
  lemma {:induction false} RecommendationMonotone(rss: nat, more: nat, from: nat)
    requires rss <= more && from <= |LADDER|
    ensures RecommendedFrom(rss, from) <= RecommendedFrom(more, from)
    decreases |LADDER| - from
  {
    if from < |LADDER| {
      if Covers(LADDER[from], rss) {
        RecommendationAtLeast(more, from, LADDER[from]);
      } else {
        RecommendationMonotone(rss, more, from + 1);
      }
    }
  }
}
