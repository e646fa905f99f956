/**
 * The job registry (src/pheasant/jobs.py): a dictionary of jobs and the order
 * list that eviction and lookup walk.  Job ids may repeat, so the order list
 * may hold an id twice, or an id whose job is gone.
 */
module JobRegistry {
  import opened Options
  import opened Sequences
  import opened JobRecords

  datatype Registry = Registry(jobs: map<string, Job>, order: seq<string>, maxRecords: int)

  function EmptyRegistry(maxRecords: int): Registry {
    Registry(map[], [], maxRecords)
  }

  predicate Finished(jobs: map<string, Job>, id: string) {
    id in jobs && !jobs[id].Active()
  }

  // ------------------------------------------------------------ eviction

  datatype Sweep = Sweep(keep: seq<string>, jobs: map<string, Job>)

  /** One pass over the order list dropping at most `removable` finished jobs, oldest first. */
  function SweepOrder(order: seq<string>, jobs: map<string, Job>, removable: int): Sweep {
    if order == [] then Sweep([], jobs)
    else if removable > 0 && Finished(jobs, order[0]) then SweepOrder(order[1..], jobs - {order[0]}, removable - 1)
    else
      var rest := SweepOrder(order[1..], jobs, removable);
      Sweep([order[0]] + rest.keep, rest.jobs)
  }

  function Evict(r: Registry): Registry {
    if |r.order| <= r.maxRecords then r else
      var s := SweepOrder(r.order, r.jobs, |r.order| - r.maxRecords);
      Registry(s.jobs, s.keep, r.maxRecords)
  }

  /** `kept` is `jobs` with some finished ones gone. */
  ghost predicate OnlyFinishedDropped(jobs: map<string, Job>, kept: map<string, Job>) {
    && kept.Keys <= jobs.Keys
    && (forall id :: id in kept ==> kept[id] == jobs[id])
    && (forall id :: id in jobs && id !in kept ==> Finished(jobs, id))
  }

  /** Every held job can be found by walking the order list. */
  ghost predicate Listed(jobs: map<string, Job>, order: seq<string>) {
    forall id :: id in jobs ==> id in order
  }

  lemma {:induction false} SweepDropsFinished(order: seq<string>, jobs: map<string, Job>, removable: int)
    ensures OnlyFinishedDropped(jobs, SweepOrder(order, jobs, removable).jobs)
    ensures forall id :: id in jobs && id !in SweepOrder(order, jobs, removable).jobs ==> id in order
  {
    if order != [] {
      if removable > 0 && Finished(jobs, order[0]) {
        SweepDropsFinished(order[1..], jobs - {order[0]}, removable - 1);
      } else {
        SweepDropsFinished(order[1..], jobs, removable);
      }
    }
  }

  lemma {:induction false} SweepKeepsListed(order: seq<string>, jobs: map<string, Job>, removable: int)
    ensures var s := SweepOrder(order, jobs, removable);
            forall id :: id in s.jobs && id in order ==> id in s.keep
  {
    if order != [] {
      if removable > 0 && Finished(jobs, order[0]) {
        SweepKeepsListed(order[1..], jobs - {order[0]}, removable - 1);
        SweepDropsFinished(order[1..], jobs - {order[0]}, removable - 1);
        var s := SweepOrder(order[1..], jobs - {order[0]}, removable - 1);
        assert forall id :: id in s.jobs.Keys ==> id in (jobs - {order[0]}).Keys;
        assert forall id :: id in order ==> id == order[0] || id in order[1..];
      } else {
        SweepKeepsListed(order[1..], jobs, removable);
        var rest := SweepOrder(order[1..], jobs, removable);
        var s := SweepOrder(order, jobs, removable);
        assert s == Sweep([order[0]] + rest.keep, rest.jobs);
        forall id | id in s.jobs && id in order
          ensures id in s.keep
        {
          if id == order[0] {
            assert s.keep[0] == id;
          } else {
            assert id in order[1..];
            assert id in rest.keep;
          }
        }
      }
    }
  }

  /** The pass either takes all it may, or leaves no finished job it could reach. */
  lemma {:induction false} SweepIsThorough(order: seq<string>, jobs: map<string, Job>, removable: nat)
    ensures var s := SweepOrder(order, jobs, removable);
            || |s.keep| == |order| - removable
            || forall id :: id in order ==> !Finished(s.jobs, id)
    ensures removable == 0 ==> |SweepOrder(order, jobs, removable).keep| == |order|
  {
    if order != [] {
      if removable > 0 && Finished(jobs, order[0]) {
        SweepIsThorough(order[1..], jobs - {order[0]}, removable - 1);
        SweepDropsFinished(order[1..], jobs - {order[0]}, removable - 1);
      } else {
        SweepIsThorough(order[1..], jobs, removable);
        SweepDropsFinished(order[1..], jobs, removable);
      }
    }
  }

  lemma {:induction false} ElementsCount(order: seq<string>)
    ensures |set id | id in order| <= |order|
  {
    if order != [] {
      var rest := order[1..];
      ElementsCount(rest);
      assert (set id | id in order) == (set id | id in rest) + {order[0]};
    }
  }

  lemma ListedCounts(jobs: map<string, Job>, order: seq<string>)
    requires Listed(jobs, order)
    ensures |jobs| <= |order|
  {
    ElementsCount(order);
    var listed := set id | id in order;
    assert jobs.Keys <= listed;
    assert listed == jobs.Keys + (listed - jobs.Keys);
    assert |jobs| == |jobs.Keys|;
  }

  // ------------------------------------------------------------ operations

  datatype Op =
    | Create(id: string, kind: string, targets: seq<string>, born: real)
    | Progress(id: string, source: Option<string>, update: Update, now: real, born: real)
    | Finish(id: string, status: string, now: real)
    | FinishSource(id: string, name: string, status: string, now: real)
    | Clear(only: Option<string>)

  function Updated(r: Registry, id: string, job: Job): Registry {
    r.(jobs := r.jobs[id := job])
  }

  function DropFinished(jobs: map<string, Job>, selected: seq<string>): map<string, Job> {
    map id | id in jobs && !(id in selected && !jobs[id].Active()) :: jobs[id]
  }

  lemma DropStep(jobs: map<string, Job>, selected: seq<string>, candidate: string)
    ensures var dropped := DropFinished(jobs, selected);
            DropFinished(jobs, selected + [candidate])
            == if Finished(dropped, candidate) then dropped - {candidate} else dropped
  {
    assert forall id :: id in selected + [candidate] <==> id in selected || id == candidate;
  }

  function FilterHeld(order: seq<string>, jobs: map<string, Job>): seq<string> {
    if order == [] then [] else (if order[0] in jobs then [order[0]] else []) + FilterHeld(order[1..], jobs)
  }

  function Cleared(r: Registry, only: Option<string>): Registry {
    var jobs := DropFinished(r.jobs, if only.Some? then [only.value] else r.order);
    if jobs == r.jobs then r else r.(jobs := jobs, order := FilterHeld(r.order, jobs))
  }

  function Apply(r: Registry, op: Op): Registry {
    match op
    case Create(id, kind, targets, born) =>
      Evict(r.(jobs := r.jobs[id := NewJob(id, kind, targets, born)], order := r.order + [id]))
    case Progress(id, source, update, now, born) =>
      if id in r.jobs then Updated(r, id, ProgressJob(r.jobs[id], source, update, now, born)) else r
    case Finish(id, status, now) =>
      if id in r.jobs then Updated(r, id, FinishJob(r.jobs[id], status, now)) else r
    case FinishSource(id, name, status, now) =>
      if id in r.jobs then Updated(r, id, FinishSourceJob(r.jobs[id], name, status, now)) else r
    case Clear(only) => Cleared(r, only)
  }

  function Run(r: Registry, ops: seq<Op>): Registry {
    if ops == [] then r else Apply(Run(r, ops[..|ops| - 1]), ops[|ops| - 1])
  }

  // ------------------------------------------------------------ invariants

  ghost predicate Good(r: Registry) {
    && Listed(r.jobs, r.order)
    && forall id :: id in r.jobs ==> r.jobs[id].id == id && GoodJob(r.jobs[id])
  }

  lemma {:induction false} FilterKeepsListed(order: seq<string>, jobs: map<string, Job>)
    ensures forall id :: id in order && id in jobs <==> id in FilterHeld(order, jobs)
  {
    if order != [] {
      FilterKeepsListed(order[1..], jobs);
    }
  }

  lemma EvictGood(r: Registry)
    requires Good(r)
    ensures Good(Evict(r))
    ensures OnlyFinishedDropped(r.jobs, Evict(r).jobs)
    ensures |Evict(r).jobs| <= r.maxRecords || forall id :: id in Evict(r).jobs ==> Evict(r).jobs[id].Active()
  {
    if |r.order| <= r.maxRecords {
      ListedCounts(r.jobs, r.order);
    } else {
      var removable := |r.order| - r.maxRecords;
      var s := SweepOrder(r.order, r.jobs, removable);
      SweepDropsFinished(r.order, r.jobs, removable);
      SweepKeepsListed(r.order, r.jobs, removable);
      SweepIsThorough(r.order, r.jobs, removable);
      ListedCounts(s.jobs, s.keep);
    }
  }

  lemma ClearGood(r: Registry, only: Option<string>)
    requires Good(r)
    ensures Good(Cleared(r, only))
    ensures OnlyFinishedDropped(r.jobs, Cleared(r, only).jobs)
  {
    FilterKeepsListed(r.order, Cleared(r, only).jobs);
  }

  lemma UpdatedGood(r: Registry, id: string, job: Job)
    requires Good(r) && id in r.jobs && job.id == id && GoodJob(job)
    ensures Good(Updated(r, id, job))
  {
  }

  lemma CreateGood(r: Registry, op: Op)
    requires Good(r) && op.Create?
    ensures Good(Apply(r, op))
    ensures OnlyFinishedDropped(r.jobs[op.id := NewJob(op.id, op.kind, op.targets, op.born)], Apply(r, op).jobs)
    ensures |Apply(r, op).jobs| <= r.maxRecords || forall id :: id in Apply(r, op).jobs ==> Apply(r, op).jobs[id].Active()
  {
    NewJobGood(op.id, op.kind, op.targets, op.born);
    var job := NewJob(op.id, op.kind, op.targets, op.born);
    var more := r.(jobs := r.jobs[op.id := job], order := r.order + [op.id]);
    assert Good(more);
    EvictGood(more);
  }

  lemma ApplyGood(r: Registry, op: Op)
    requires Good(r)
    ensures Good(Apply(r, op))
  {
    match op {
      case Create(_, _, _, _) =>
        CreateGood(r, op);
      case Progress(id, source, update, now, born) =>
        if id in r.jobs {
          ProgressGood(r.jobs[id], source, update, now, born);
          UpdatedGood(r, id, ProgressJob(r.jobs[id], source, update, now, born));
        }
      case Finish(id, status, now) =>
        if id in r.jobs {
          FinishGood(r.jobs[id], status, now);
          UpdatedGood(r, id, FinishJob(r.jobs[id], status, now));
        }
      case FinishSource(id, name, status, now) =>
        if id in r.jobs {
          FinishSourceGood(r.jobs[id], name, status, now);
          UpdatedGood(r, id, FinishSourceJob(r.jobs[id], name, status, now));
        }
      case Clear(only) =>
        ClearGood(r, only);
    }
  }

  /** After any run, repeated ids included: every job is listed and every second of every record accounted for. */
  lemma {:induction false} RunGood(maxRecords: int, ops: seq<Op>)
    ensures Good(Run(EmptyRegistry(maxRecords), ops))
  {
    if ops != [] {
      RunGood(maxRecords, ops[..|ops| - 1]);
      ApplyGood(Run(EmptyRegistry(maxRecords), ops[..|ops| - 1]), ops[|ops| - 1]);
    }
  }

  /** After a create, the cap holds or only unfinished jobs are left to exceed it. */
  lemma CreateRespectsCap(maxRecords: int, ops: seq<Op>, op: Op)
    requires op.Create?
    ensures var r := Apply(Run(EmptyRegistry(maxRecords), ops), op);
            |r.jobs| <= maxRecords || forall id :: id in r.jobs ==> r.jobs[id].Active()
  {
    RunGood(maxRecords, ops);
    RunKeepsCap(maxRecords, ops);
    var r := Run(EmptyRegistry(maxRecords), ops);
    CreateGood(r, op);
  }

  lemma {:induction false} RunKeepsCap(maxRecords: int, ops: seq<Op>)
    ensures Run(EmptyRegistry(maxRecords), ops).maxRecords == maxRecords
  {
    if ops != [] {
      RunKeepsCap(maxRecords, ops[..|ops| - 1]);
    }
  }

  lemma CreateDropsFinished(r: Registry, op: Op)
    requires Good(r) && op.Create?
    ensures OnlyFinishedDropped(r.jobs[op.id := NewJob(op.id, op.kind, op.targets, op.born)], Apply(r, op).jobs)
    ensures op.id in Apply(r, op).jobs && Apply(r, op).jobs[op.id].status == "running"
  {
    CreateGood(r, op);
  }

  /** Is this operation about the job of this id? */
  predicate Names(op: Op, id: string) {
    !op.Clear? && op.id == id
  }

  /** An operation on one job that is neither a create nor a clear leaves every other as it is. */
  lemma UpdatesTouchOne(r: Registry, op: Op, id: string)
    requires !op.Create? && !op.Clear? && id in r.jobs
    ensures id in Apply(r, op).jobs
    ensures op.id != id ==> Apply(r, op).jobs[id] == r.jobs[id]
  {
  }

  /** An update reaches the job it names and nothing else; one about an unknown job is ignored. */
  lemma UpdatesReachTheirJob(r: Registry, op: Op)
    requires !op.Create? && !op.Clear?
    ensures var done := Apply(r, op);
            && done.order == r.order && done.jobs.Keys == r.jobs.Keys
            && (op.id !in r.jobs ==> done == r)
            && (op.id in r.jobs ==>
                  && done.jobs == r.jobs[op.id := done.jobs[op.id]]
                  && (op.Progress? ==> done.jobs[op.id] == ProgressJob(r.jobs[op.id], op.source, op.update, op.now, op.born))
                  && (op.Finish? ==> done.jobs[op.id] == FinishJob(r.jobs[op.id], op.status, op.now))
                  && (op.FinishSource? ==> done.jobs[op.id] == FinishSourceJob(r.jobs[op.id], op.name, op.status, op.now)))
  {
  }

  /** A create leaves the new job held and running with its targets queued, and brings no other job in. */
  lemma CreateHolds(r: Registry, op: Op, id: string)
    requires Good(r) && op.Create?
    ensures var done := Apply(r, op);
            && op.id in done.jobs
            && done.jobs[op.id] == Job(op.id, op.kind, op.targets, "running", Rollup("starting", 0, None, ""), Seeded(op.targets, op.born))
            && (id != op.id && id in done.jobs ==> id in r.jobs && done.jobs[id] == r.jobs[id])
  {
    CreateDropsFinished(r, op);
  }

  lemma RunningKept(jobs: map<string, Job>, kept: map<string, Job>, id: string)
    requires OnlyFinishedDropped(jobs, kept) && id in jobs && jobs[id].Active()
    ensures id in kept && kept[id] == jobs[id]
  {
  }

  /** No operation loses a running job, and one that does not name it leaves it as it is. */
  lemma RunningJobsSurvive(r: Registry, op: Op, id: string)
    requires Good(r) && id in r.jobs && r.jobs[id].Active()
    ensures id in Apply(r, op).jobs
    ensures !Names(op, id) ==> Apply(r, op).jobs[id] == r.jobs[id]
  {
    if op.Create? {
      CreateDropsFinished(r, op);
      if op.id != id {
        RunningKept(r.jobs[op.id := NewJob(op.id, op.kind, op.targets, op.born)], Apply(r, op).jobs, id);
      }
    } else if op.Clear? {
      ClearGood(r, op.only);
      RunningKept(r.jobs, Apply(r, op).jobs, id);
    } else {
      UpdatesTouchOne(r, op, id);
    }
  }

  /** A finished job is dropped or left exactly as it is, unless it is finished again or its id reused. */
  lemma FinishedJobsAreFrozen(r: Registry, op: Op, id: string)
    requires Good(r) && Finished(r.jobs, id)
    requires !(op.Create? && op.id == id) && !(op.Finish? && op.id == id)
    ensures id in Apply(r, op).jobs ==> Apply(r, op).jobs[id] == r.jobs[id]
  {
    if op.Create? {
      CreateDropsFinished(r, op);
    }
  }

  /** Only a create brings an id into the registry. */
  lemma AbsentStaysAbsent(r: Registry, op: Op, id: string)
    requires Good(r) && id !in r.jobs && !(op.Create? && op.id == id)
    ensures id !in Apply(r, op).jobs
  {
    if op.Create? {
      CreateDropsFinished(r, op);
    }
  }

  /** The operations that give a finished job another status: reusing its id, or finishing a held one as something else. */
  predicate Reopens(r: Registry, op: Op, id: string, status: string) {
    (op.Create? && op.id == id) || (op.Finish? && op.id == id && id in r.jobs && op.status != status)
  }

  predicate Kept(r: Registry, id: string, status: string) {
    id in r.jobs ==> r.jobs[id].status == status
  }

  /** "Will never change again", exactly: a finished job keeps its status unless one of those two is applied. */
  lemma FinishedStatusKeptExactly(r: Registry, op: Op, id: string, status: string)
    requires Good(r) && Terminal(status) && Kept(r, id, status)
    ensures Kept(Apply(r, op), id, status) <==> !Reopens(r, op, id, status)
  {
    if op.Create? && op.id == id {
      CreateDropsFinished(r, op);
    } else if id !in r.jobs {
      AbsentStaysAbsent(r, op, id);
    } else if op.Finish? && op.id == id {
      assert Apply(r, op).jobs[id].status == op.status;
    } else {
      FinishedJobsAreFrozen(r, op, id);
    }
  }

  /** The registries a sequence of operations goes through. */
  ghost predicate IsTrace(run: seq<Registry>, ops: seq<Op>) {
    && |run| == |ops| + 1
    && forall k :: 0 <= k < |ops| ==> run[k + 1] == Apply(run[k], ops[k])
  }

  lemma {:induction false} TraceGood(run: seq<Registry>, ops: seq<Op>, k: nat)
    requires IsTrace(run, ops) && k < |run| && Good(run[0])
    ensures Good(run[k])
  {
    if k > 0 {
      TraceGood(run, ops, k - 1);
      ApplyGood(run[k - 1], ops[k - 1]);
      assert run[k - 1 + 1] == Apply(run[k - 1], ops[k - 1]);
    }
  }

  lemma {:induction false} KeptPrefix(run: seq<Registry>, ops: seq<Op>, id: string, status: string, n: nat)
    requires IsTrace(run, ops) && Good(run[0]) && Terminal(status) && Kept(run[0], id, status) && n <= |ops|
    ensures (forall k :: 0 <= k <= n ==> Kept(run[k], id, status))
            <==> (forall k :: 0 <= k < n ==> !Reopens(run[k], ops[k], id, status))
  {
    if n > 0 {
      KeptPrefix(run, ops, id, status, n - 1);
      if Kept(run[n - 1], id, status) {
        TraceGood(run, ops, n - 1);
        FinishedStatusKeptExactly(run[n - 1], ops[n - 1], id, status);
        assert run[n - 1 + 1] == Apply(run[n - 1], ops[n - 1]);
      }
    }
  }

  /** The same over every sequence of operations after the job has finished, eviction and clearing included. */
  lemma FinishedForGoodExactly(run: seq<Registry>, ops: seq<Op>, id: string)
    requires IsTrace(run, ops) && Good(run[0]) && Finished(run[0].jobs, id)
    ensures var status := run[0].jobs[id].status;
            (forall k :: 0 <= k < |run| ==> Kept(run[k], id, status))
            <==> (forall k :: 0 <= k < |ops| ==> !Reopens(run[k], ops[k], id, status))
  {
    KeptPrefix(run, ops, id, run[0].jobs[id].status, |ops|);
  }

  // ------------------------------------------------------------ clearing

  /** A clear takes exactly the finished jobs it is asked for, all of them or the one named, and changes no other. */
  lemma ClearExactly(r: Registry, only: Option<string>, id: string)
    requires Good(r)
    ensures var cleared := Apply(r, Clear(only));
            && (id in cleared.jobs <==>
                  && id in r.jobs
                  && !(r.jobs[id].status in {"succeeded", "failed", "cancelled"} && (only.None? || only.value == id)))
            && (id in cleared.jobs ==> cleared.jobs[id] == r.jobs[id])
  {
    assert only.Some? ==> (id in [only.value] <==> id == only.value);
  }

  /** Filtering keeps the held entries where they stood relative to each other. */
  lemma {:induction false} FilterPicks(order: seq<string>, jobs: map<string, Job>) returns (picked: seq<nat>)
    ensures Picks(picked, order, FilterHeld(order, jobs))
    ensures forall i :: 0 <= i < |order| ==> (i in picked <==> order[i] in jobs)
  {
    picked := [];
    if order != [] {
      var rest := FilterPicks(order[1..], jobs);
      picked := ShiftPicks(rest, order, FilterHeld(order[1..], jobs), order[0] in jobs);
    }
  }

  /** The order a clear leaves: untouched if nothing was removed, else the entries whose jobs are still held, in the same order. */
  lemma ClearKeepsOrder(r: Registry, only: Option<string>) returns (picked: seq<nat>)
    ensures var cleared := Apply(r, Clear(only));
            && Picks(picked, r.order, cleared.order)
            && (cleared.jobs == r.jobs ==> cleared.order == r.order)
            && (cleared.jobs != r.jobs ==> forall i :: 0 <= i < |r.order| ==> (i in picked <==> r.order[i] in cleared.jobs))
  {
    var cleared := Apply(r, Clear(only));
    if cleared.jobs == r.jobs {
      picked := seq(|r.order|, i => i);
    } else {
      picked := FilterPicks(r.order, cleared.jobs);
    }
  }

  lemma {:induction false} NothingRemovable(order: seq<string>, jobs: map<string, Job>, removable: int)
    requires removable <= 0
    ensures SweepOrder(order, jobs, removable) == Sweep(order, jobs)
  {
    if order != [] {
      NothingRemovable(order[1..], jobs, removable);
    }
  }

  /** Every entry left out is the first listing of a job that was dropped. */
  ghost predicate FirstListings(order: seq<string>, jobs: map<string, Job>, kept: map<string, Job>, picked: seq<nat>) {
    forall i :: 0 <= i < |order| && i !in picked ==> order[i] in jobs && order[i] !in kept && order[i] !in order[..i]
  }

  lemma FirstListingsStep(order: seq<string>, jobs: map<string, Job>, kept: map<string, Job>, less: map<string, Job>,
                          rest: seq<nat>, picked: seq<nat>)
    requires order != [] && FirstListings(order[1..], less, kept, rest)
    requires forall i :: 0 < i < |order| ==> (i in picked <==> i - 1 in rest)
    requires if 0 in picked then less == jobs && (order[0] in jobs ==> order[0] in kept)
             else order[0] in jobs && order[0] !in kept && less == jobs - {order[0]}
    ensures FirstListings(order, jobs, kept, picked)
  {
    forall i | 0 < i < |order| && i !in picked
      ensures order[i] in jobs && order[i] !in kept && order[i] !in order[..i]
    {
      assert order[1..][i - 1] == order[i];
      assert order[..i] == [order[0]] + order[1..][..i - 1];
    }
    assert order[..0] == [];
  }

  /** What the sweep takes out of the order: of each job it drops the first listing, and nothing else moves. */
  lemma {:induction false} SweepKeepsOrder(order: seq<string>, jobs: map<string, Job>, removable: int) returns (picked: seq<nat>)
    ensures Picks(picked, order, SweepOrder(order, jobs, removable).keep)
    ensures FirstListings(order, jobs, SweepOrder(order, jobs, removable).jobs, picked)
  {
    picked := [];
    if order != [] {
      var drops := removable > 0 && Finished(jobs, order[0]);
      var less := if drops then jobs - {order[0]} else jobs;
      var left := if drops then removable - 1 else removable;
      var rest := SweepKeepsOrder(order[1..], less, left);
      var s := SweepOrder(order[1..], less, left);
      picked := ShiftPicks(rest, order, s.keep, !drops);
      SweepDropsFinished(order[1..], less, left);
      if removable <= 0 {
        NothingRemovable(order[1..], jobs, removable);
      }
      FirstListingsStep(order, jobs, s.jobs, less, rest, picked);
    }
  }

  /** A create appends its id and takes out one listing, the oldest, of each job it evicts. */
  lemma CreateKeepsOrder(r: Registry, op: Op) returns (picked: seq<nat>)
    requires op.Create?
    ensures var listed, done := r.order + [op.id], Apply(r, op);
            && Picks(picked, listed, done.order)
            && forall i :: 0 <= i < |listed| && i !in picked ==> listed[i] !in done.jobs && listed[i] !in listed[..i]
  {
    var more := r.(jobs := r.jobs[op.id := NewJob(op.id, op.kind, op.targets, op.born)], order := r.order + [op.id]);
    if |more.order| <= more.maxRecords {
      picked := seq(|more.order|, i => i);
    } else {
      picked := SweepKeepsOrder(more.order, more.jobs, |more.order| - more.maxRecords);
    }
  }

  // ------------------------------------------------------------ what is kept

  function Min(a: int, b: int): int { if a <= b then a else b }
  function Max(a: int, b: int): int { if a >= b then a else b }

  /** The finished jobs, each once, in the order their ids were first listed. */
  function FinishedInOrder(order: seq<string>, jobs: map<string, Job>): (ids: seq<string>)
    ensures forall id :: id in ids <==> id in order && Finished(jobs, id)
  {
    if order == [] then [] else
      assert forall id :: id in order <==> id == order[0] || id in order[1..];
      if Finished(jobs, order[0]) then
        var rest := FinishedInOrder(order[1..], jobs - {order[0]});
        assert forall id :: id in [order[0]] + rest <==> id == order[0] || id in rest;
        assert forall id :: Finished(jobs - {order[0]}, id) <==> id != order[0] && Finished(jobs, id);
        [order[0]] + rest
      else FinishedInOrder(order[1..], jobs)
  }

  function FirstAt(order: seq<string>, id: string): (i: nat)
    requires id in order
    ensures i < |order| && order[i] == id && id !in order[..i]
  {
    if order[0] == id then
      assert order[..0] == [];
      0
    else
      var i := 1 + FirstAt(order[1..], id);
      assert order[..i] == [order[0]] + order[1..][..i - 1];
      i
  }

  /** Oldest first, by where each id was first listed. */
  ghost predicate ByAge(order: seq<string>, ids: seq<string>) {
    && (forall id :: id in ids ==> id in order)
    && (forall i, j :: 0 <= i < j < |ids| ==> FirstAt(order, ids[i]) < FirstAt(order, ids[j]))
  }

  lemma FirstAtTail(order: seq<string>, id: string)
    requires id in order && order[0] != id
    ensures id in order[1..] && FirstAt(order, id) == 1 + FirstAt(order[1..], id)
  {
  }

  lemma LaterByAge(order: seq<string>, ids: seq<string>)
    requires order != [] && order[0] !in ids && ByAge(order[1..], ids)
    ensures ByAge(order, ids)
  {
    assert forall id :: id in ids ==> id in order[1..] && id in order;
    forall i, j | 0 <= i < j < |ids|
      ensures FirstAt(order, ids[i]) < FirstAt(order, ids[j])
    {
      assert ids[i] in ids && ids[j] in ids;
      FirstAtTail(order, ids[i]);
      FirstAtTail(order, ids[j]);
    }
  }

  lemma HeadByAge(order: seq<string>, ids: seq<string>)
    requires order != [] && order[0] !in ids && ByAge(order, ids)
    ensures ByAge(order, [order[0]] + ids)
  {
    var all := [order[0]] + ids;
    forall i, j | 0 <= i < j < |all|
      ensures FirstAt(order, all[i]) < FirstAt(order, all[j])
    {
      assert all[j] == ids[j - 1] && ids[j - 1] in ids;
      assert i > 0 ==> all[i] == ids[i - 1];
    }
  }

  lemma {:induction false} FinishedByAge(order: seq<string>, jobs: map<string, Job>)
    ensures ByAge(order, FinishedInOrder(order, jobs))
  {
    if order != [] {
      var less := if Finished(jobs, order[0]) then jobs - {order[0]} else jobs;
      var rest := FinishedInOrder(order[1..], less);
      FinishedByAge(order[1..], less);
      assert order[0] !in rest;
      LaterByAge(order, rest);
      HeadByAge(order, rest);
    }
  }

  lemma FinishedDistinct(order: seq<string>, jobs: map<string, Job>)
    ensures Distinct(FinishedInOrder(order, jobs))
  {
    FinishedByAge(order, jobs);
  }

  ghost predicate Distinct(ids: seq<string>) {
    forall i, j :: 0 <= i < j < |ids| ==> ids[i] != ids[j]
  }

  function Elements(ids: seq<string>): set<string> {
    set id | id in ids
  }

  /** The sweep drops the oldest finished jobs, as many as it may, and nothing else. */
  lemma {:induction false} SweepDropsOldest(order: seq<string>, jobs: map<string, Job>, removable: nat)
    ensures var oldest := FinishedInOrder(order, jobs);
            var s := SweepOrder(order, jobs, removable);
            && s.jobs == jobs - Elements(oldest[..Min(removable, |oldest|)])
            && |order| - |s.keep| == Min(removable, |oldest|)
  {
    if order != [] {
      if removable > 0 && Finished(jobs, order[0]) {
        var less := jobs - {order[0]};
        SweepDropsOldest(order[1..], less, removable - 1);
        var rest := FinishedInOrder(order[1..], less);
        var n := Min(removable - 1, |rest|);
        assert ([order[0]] + rest)[..n + 1] == [order[0]] + rest[..n];
        assert Elements([order[0]] + rest[..n]) == {order[0]} + Elements(rest[..n]);
        assert less - Elements(rest[..n]) == jobs - ({order[0]} + Elements(rest[..n]));
      } else {
        SweepDropsOldest(order[1..], jobs, removable);
        assert removable == 0 ==> FinishedInOrder(order, jobs)[..0] == [] == FinishedInOrder(order[1..], jobs)[..0];
      }
    }
  }

  lemma {:induction false} DistinctCount(ids: seq<string>)
    requires Distinct(ids)
    ensures |Elements(ids)| == |ids|
  {
    if ids != [] {
      var n := |ids| - 1;
      DistinctCount(ids[..n]);
      assert Elements(ids) == Elements(ids[..n]) + {ids[n]};
    }
  }

  lemma DroppedCount(jobs: map<string, Job>, ids: seq<string>)
    requires Distinct(ids) && forall id :: id in ids ==> id in jobs
    ensures |jobs - Elements(ids)| == |jobs| - |ids|
  {
    DistinctCount(ids);
    assert (jobs - Elements(ids)).Keys == jobs.Keys - Elements(ids);
    assert Elements(ids) <= jobs.Keys;
    assert |jobs.Keys - Elements(ids)| == |jobs.Keys| - |Elements(ids)|;
    assert |jobs.Keys| == |jobs| && |(jobs - Elements(ids)).Keys| == |jobs - Elements(ids)|;
  }

  /** The registry as a create leaves it before eviction. */
  function Added(r: Registry, op: Op): Registry
    requires op.Create?
  {
    r.(jobs := r.jobs[op.id := NewJob(op.id, op.kind, op.targets, op.born)], order := r.order + [op.id])
  }

  /** How many order entries are past the cap. */
  function Excess(r: Registry): nat {
    Max(0, |r.order| - r.maxRecords)
  }

  lemma EvictDropsOldest(r: Registry)
    ensures var oldest := FinishedInOrder(r.order, r.jobs);
            var n := Min(Excess(r), |oldest|);
            && Evict(r).jobs == r.jobs - Elements(oldest[..n])
            && |Evict(r).order| == |r.order| - n
  {
    if |r.order| <= r.maxRecords {
      assert FinishedInOrder(r.order, r.jobs)[..0] == [];
      assert r.jobs - Elements([]) == r.jobs;
    } else {
      SweepDropsOldest(r.order, r.jobs, Excess(r));
    }
  }

  lemma OldestCount(r: Registry, n: nat)
    requires n <= |FinishedInOrder(r.order, r.jobs)|
    ensures |r.jobs - Elements(FinishedInOrder(r.order, r.jobs)[..n])| == |r.jobs| - n
  {
    var oldest := FinishedInOrder(r.order, r.jobs);
    FinishedDistinct(r.order, r.jobs);
    assert forall id :: id in oldest[..n] ==> id in oldest;
    DroppedCount(r.jobs, oldest[..n]);
  }

  /** A create drops the oldest finished jobs, one for each order entry past the cap as far as they go, and no other job. */
  lemma CreateDropsOldest(r: Registry, op: Op)
    requires op.Create?
    ensures var more := Added(r, op);
            var oldest := FinishedInOrder(more.order, more.jobs);
            var n := Min(Excess(more), |oldest|);
            && Apply(r, op).jobs == more.jobs - Elements(oldest[..n])
            && |Apply(r, op).jobs| == |more.jobs| - n
            && |Apply(r, op).order| == |more.order| - n
  {
    assert Apply(r, op) == Evict(Added(r, op));
    var more := Added(r, op);
    EvictDropsOldest(more);
    OldestCount(more, Min(Excess(more), |FinishedInOrder(more.order, more.jobs)|));
  }

  lemma FinishedCount(r: Registry)
    requires Listed(r.jobs, r.order)
    ensures |FinishedInOrder(r.order, r.jobs)| == |set id | id in r.jobs && Finished(r.jobs, id)|
  {
    var oldest := FinishedInOrder(r.order, r.jobs);
    FinishedDistinct(r.order, r.jobs);
    DistinctCount(oldest);
    assert Elements(oldest) == set id | id in r.jobs && Finished(r.jobs, id);
  }

  /**
   * "How many completed jobs to keep", exactly: a create evicts no further than
   * the cap if and only if no order entry past the cap is a duplicate or a
   * leftover, or so few jobs are finished that all of them are past it anyway.
   */
  lemma CapKeptExactly(r: Registry, op: Op)
    requires Good(r) && op.Create?
    ensures var more := Added(r, op);
            |Apply(r, op).jobs| >= Min(r.maxRecords, |more.jobs|)
            <==> || |more.order| <= Max(r.maxRecords, |more.jobs|)
                 || |set id | id in more.jobs && Finished(more.jobs, id)| <= Max(0, |more.jobs| - r.maxRecords)
  {
    var more := Added(r, op);
    assert Listed(more.jobs, more.order);
    FinishedCount(more);
    CreateDropsOldest(r, op);
    ListedCounts(more.jobs, more.order);
  }

  /** Every held job is listed once and nothing else is listed. */
  ghost predicate Tidy(r: Registry) {
    forall id :: multiset(r.order)[id] == if id in r.jobs then 1 else 0
  }

  /** The sweep takes one listing of each job it drops. */
  lemma {:induction false} SweepUnlistsOnce(order: seq<string>, jobs: map<string, Job>, removable: int, id: string)
    ensures var s := SweepOrder(order, jobs, removable);
            multiset(s.keep)[id] + (if id in jobs && id !in s.jobs then 1 else 0) == multiset(order)[id]
  {
    if order != [] {
      assert order == [order[0]] + order[1..];
      if removable > 0 && Finished(jobs, order[0]) {
        SweepUnlistsOnce(order[1..], jobs - {order[0]}, removable - 1, id);
        SweepDropsFinished(order[1..], jobs - {order[0]}, removable - 1);
      } else {
        SweepUnlistsOnce(order[1..], jobs, removable, id);
      }
    }
  }

  lemma {:induction false} FilterCounts(order: seq<string>, jobs: map<string, Job>, id: string)
    ensures multiset(FilterHeld(order, jobs))[id] == if id in jobs then multiset(order)[id] else 0
  {
    if order != [] {
      assert order == [order[0]] + order[1..];
      FilterCounts(order[1..], jobs, id);
    }
  }

  lemma EvictUnlistsOnce(r: Registry, id: string)
    ensures multiset(Evict(r).order)[id] + (if id in r.jobs && id !in Evict(r).jobs then 1 else 0) == multiset(r.order)[id]
  {
    SweepUnlistsOnce(r.order, r.jobs, |r.order| - r.maxRecords, id);
  }

  /** A tidy registry stays so exactly when no create reuses the id of a held job. */
  lemma TidyExactly(r: Registry, op: Op)
    requires Good(r) && Tidy(r)
    ensures Tidy(Apply(r, op)) <==> !(op.Create? && op.id in r.jobs)
  {
    if op.Create? {
      CreateTidy(r, op);
    } else if op.Clear? {
      ClearTidy(r, op.only);
    } else {
      UpdateTidy(r, op);
    }
  }

  lemma ClearTidy(r: Registry, only: Option<string>)
    requires Tidy(r)
    ensures Tidy(Cleared(r, only))
  {
    var r' := Cleared(r, only);
    forall id
      ensures multiset(r'.order)[id] == if id in r'.jobs then 1 else 0
    {
      FilterCounts(r.order, r'.jobs, id);
    }
  }

  lemma UpdateTidy(r: Registry, op: Op)
    requires Tidy(r) && !op.Create? && !op.Clear?
    ensures Tidy(Apply(r, op))
  {
    assert Apply(r, op).order == r.order && Apply(r, op).jobs.Keys == r.jobs.Keys;
  }

  lemma CreateTidy(r: Registry, op: Op)
    requires Good(r) && Tidy(r) && op.Create?
    ensures Tidy(Apply(r, op)) <==> op.id !in r.jobs
  {
    var more := Added(r, op);
    CreateDropsFinished(r, op);
    forall id
      ensures multiset(Apply(r, op).order)[id] + (if id in more.jobs && id !in Apply(r, op).jobs then 1 else 0)
              == multiset(r.order)[id] + if id == op.id then 1 else 0
    {
      EvictUnlistsOnce(more, id);
    }
    assert multiset(Apply(r, op).order)[op.id] == multiset(r.order)[op.id] + 1;
  }

  lemma {:induction false} TidyCounts(order: seq<string>, jobs: map<string, Job>)
    requires forall id :: multiset(order)[id] == if id in jobs then 1 else 0
    ensures |order| == |jobs|
  {
    if order == [] {
      assert forall id :: id in jobs ==> multiset(order)[id] == 1;
      assert jobs == map[];
    } else {
      assert order == [order[0]] + order[1..];
      var less := jobs - {order[0]};
      forall id
        ensures multiset(order[1..])[id] == if id in less then 1 else 0
      {
        assert multiset(order)[id] == multiset(order[1..])[id] + if id == order[0] then 1 else 0;
      }
      TidyCounts(order[1..], less);
      assert order[0] in order && order[0] in jobs;
      assert jobs == less[order[0] := jobs[order[0]]];
    }
  }

  /** Over every sequence of operations: as long as no create reuses a held id, each create keeps the cap's worth of jobs. */
  lemma {:induction false} FreshIdsKeepCap(run: seq<Registry>, ops: seq<Op>, n: nat)
    requires IsTrace(run, ops) && Good(run[0]) && Tidy(run[0]) && n < |ops|
    requires forall k :: 0 <= k <= n ==> !(ops[k].Create? && ops[k].id in run[k].jobs)
    ensures Tidy(run[n]) && Tidy(run[n + 1])
    ensures ops[n].Create? ==> |run[n + 1].jobs| >= Min(run[n].maxRecords, |Added(run[n], ops[n]).jobs|)
  {
    if n > 0 {
      FreshIdsKeepCap(run, ops, n - 1);
    }
    TraceGood(run, ops, n);
    assert run[n + 1] == Apply(run[n], ops[n]);
    TidyExactly(run[n], ops[n]);
    if ops[n].Create? {
      TidyCounts(run[n].order, run[n].jobs);
      assert ops[n].id !in run[n].jobs;
      CapKeptExactly(run[n], ops[n]);
    }
  }

  /** A reused id takes two places: with a cap of two, `b` drops the finished `a` although only two jobs would be held. */
  lemma ReusedIdCostsAPlace(now: real)
    ensures var once := Apply(EmptyRegistry(2), Create("a", "sync", [], now));
            var twice := Apply(once, Create("a", "sync", [], now));
            var done := Apply(twice, Finish("a", "succeeded", now));
            var last := Apply(done, Create("b", "sync", [], now));
            && Finished(done.jobs, "a") && |Added(done, Create("b", "sync", [], now)).jobs| == 2
            && last.jobs.Keys == {"b"} && last.order == ["a", "b"]
  {
    var a := NewJob("a", "sync", [], now);
    CreateAgain(a, now);
    var f := FinishJob(a, "succeeded", now);
    CreateAfter(f, now);
  }

  lemma CreateAgain(a: Job, now: real)
    requires a == NewJob("a", "sync", [], now)
    ensures var twice := Apply(Apply(EmptyRegistry(2), Create("a", "sync", [], now)), Create("a", "sync", [], now));
            && twice == Registry(map["a" := a], ["a", "a"], 2)
            && Apply(twice, Finish("a", "succeeded", now)) == Registry(map["a" := FinishJob(a, "succeeded", now)], ["a", "a"], 2)
  {
    var once := Apply(EmptyRegistry(2), Create("a", "sync", [], now));
    assert once == Registry(map["a" := a], ["a"], 2);
  }

  lemma CreateAfter(f: Job, now: real)
    requires !f.Active()
    ensures var done := Registry(map["a" := f], ["a", "a"], 2);
            var op := Create("b", "sync", [], now);
            && |Added(done, op).jobs| == 2
            && Apply(done, op) == Registry(map["b" := NewJob("b", "sync", [], now)], ["a", "b"], 2)
  {
    var b := NewJob("b", "sync", [], now);
    assert map["a" := f]["b" := b] == map["a" := f, "b" := b] && ["a", "a"] + ["b"] == ["a", "a", "b"];
    GhostSweep(f, b);
  }

  /** The sweep over `a`, `a`, `b` with one entry past the cap. */
  lemma GhostSweep(a: Job, b: Job)
    requires !a.Active() && b.Active()
    ensures SweepOrder(["a", "a", "b"], map["a" := a, "b" := b], 1) == Sweep(["a", "b"], map["b" := b])
    ensures |map["a" := a, "b" := b]| == 2
  {
    var jobs := map["a" := a, "b" := b];
    assert jobs - {"a"} == map["b" := b];
    assert ["a", "a", "b"][1..] == ["a", "b"] && ["a", "b"][1..] == ["b"] && ["b"][1..] == [];
    var left := map["b" := b];
    assert SweepOrder([], left, 0) == Sweep([], left);
    assert SweepOrder(["b"], left, 0) == Sweep(["b"], left);
    assert SweepOrder(["a", "b"], left, 0) == Sweep(["a", "b"], left);
    assert jobs.Keys == {"a", "b"};
  }

  /** "Will never change again" fails for `finish`, which has no terminal guard. */
  lemma FinishRewritesTerminal(id: string, now: real)
    ensures var done := Apply(Apply(EmptyRegistry(200), Create(id, "sync", [], now)), Finish(id, "succeeded", now));
            && Finished(done.jobs, id)
            && id in Apply(done, Finish(id, "failed", now)).jobs
            && Apply(done, Finish(id, "failed", now)).jobs[id].status == "failed" != done.jobs[id].status
  {
    var created := Apply(EmptyRegistry(200), Create(id, "sync", [], now));
    assert created.jobs == map[id := NewJob(id, "sync", [], now)];
  }

  // ------------------------------------------------------------ lookup

  predicate Claims(jobs: map<string, Job>, id: string, target: string) {
    id in jobs && jobs[id].Active() && target in jobs[id].targets
  }

  /** The newest unfinished job on a target, walking the order list backwards. */
  function ActiveIn(jobs: map<string, Job>, order: seq<string>, target: string): Option<Job> {
    if order == [] then None
    else if Claims(jobs, order[|order| - 1], target) then Some(jobs[order[|order| - 1]])
    else ActiveIn(jobs, order[..|order| - 1], target)
  }

  function ActiveFor(r: Registry, target: string): Option<Job> {
    ActiveIn(r.jobs, r.order, target)
  }

  lemma {:induction false} ActiveInExact(jobs: map<string, Job>, order: seq<string>, target: string)
    ensures ActiveIn(jobs, order, target).None? <==> forall id :: id in order ==> !Claims(jobs, id, target)
  {
    if order != [] {
      var n := |order| - 1;
      assert forall id :: id in order <==> id in order[..n] || id == order[n];
      if !Claims(jobs, order[n], target) {
        ActiveInExact(jobs, order[..n], target);
      }
    }
  }

  /** The job found is the newest one: no later entry of the order list claims the target. */
  lemma {:induction false} ActiveInIsNewest(jobs: map<string, Job>, order: seq<string>, target: string) returns (i: nat)
    requires ActiveIn(jobs, order, target).Some?
    ensures i < |order| && Claims(jobs, order[i], target) && ActiveIn(jobs, order, target).value == jobs[order[i]]
    ensures forall id :: id in order[i + 1..] ==> !Claims(jobs, id, target)
  {
    var n := |order| - 1;
    if Claims(jobs, order[n], target) {
      i := n;
      assert order[n + 1..] == [];
    } else {
      i := ActiveInIsNewest(jobs, order[..n], target);
      assert order[i + 1..] == order[..n][i + 1..] + [order[n]];
    }
  }

  /** In every reachable registry a target is free exactly when no held unfinished job names it. */
  lemma ActiveForExact(r: Registry, target: string)
    requires Good(r)
    ensures ActiveFor(r, target).None? <==> forall id :: id in r.jobs ==> !Claims(r.jobs, id, target)
  {
    ActiveInExact(r.jobs, r.order, target);
  }

  // ------------------------------------------------------------ the object

  /** The registry object; each method is one critical section under its lock. */
  class LockedRegistry {
    var jobs: map<string, Job>
    var order: seq<string>
    const maxRecords: int

    function State(): Registry
      reads this
    {
      Registry(jobs, order, maxRecords)
    }

    constructor (maxRecords: int)
      ensures State() == EmptyRegistry(maxRecords)
    {
      this.maxRecords := maxRecords;
      jobs, order := map[], [];
    }

    method Create(id: string, kind: string, targets: seq<string>, born: real) returns (job: Job)
      modifies this
      ensures State() == Apply(old(State()), Op.Create(id, kind, targets, born))
      ensures job == NewJob(id, kind, targets, born)
    {
      var records: seq<Record> := [];
      for i := 0 to |targets|
        invariant records == Seeded(targets[..i], born)
      {
        assert targets[..i + 1][..i] == targets[..i];
        if IndexOf(records, targets[i]) == |records| {
          records := records + [NewRecord(targets[i], born)];
        }
      }
      assert targets[..|targets|] == targets;
      job := Job(id, kind, targets, "running", Rollup("starting", 0, None, ""), records);
      jobs := jobs[id := job];
      order := order + [id];
      EvictOldest();
    }

    method EvictOldest()
      modifies this
      ensures State() == Evict(old(State()))
    {
      if |order| <= maxRecords {
        return;
      }
      var keep: seq<string> := [];
      var removable := |order| - maxRecords;
      ghost var whole := SweepOrder(order, jobs, removable);
      var i := 0;
      while i < |order|
        invariant 0 <= i <= |order| && order == old(order)
        invariant var rest := SweepOrder(order[i..], jobs, removable);
                  whole == Sweep(keep + rest.keep, rest.jobs)
      {
        var id := order[i];
        assert order[i..][1..] == order[i + 1..];
        if removable > 0 && id in jobs && Terminal(jobs[id].status) {
          jobs := jobs - {id};
          removable := removable - 1;
        } else {
          keep := keep + [id];
        }
        i := i + 1;
      }
      order := keep;
    }

    method Progress(id: string, source: Option<string>, update: Update, now: real, born: real)
      modifies this`jobs
      ensures State() == Apply(old(State()), Op.Progress(id, source, update, now, born))
    {
      if id !in jobs || Terminal(jobs[id].status) {
        assert id in jobs ==> jobs[id := jobs[id]] == jobs;
        return;
      }
      var job := FoldUpdate(jobs[id], source, update, now, born);
      jobs := jobs[id := job];
    }

    /** The body of the critical section, for a job that is still running. */
    static method FoldUpdate(job: Job, source: Option<string>, update: Update, now: real, born: real) returns (updated: Job)
      requires job.Active()
      ensures updated == ProgressJob(job, source, update, now, born)
    {
      var name, records := "*", job.sources;
      if source.None? {
        if |records| == 1 {
          name := records[0].source;
        }
      } else {
        name := source.value;
        if name != "*" {
          records := Without(records, "*");
        }
      }
      assert (name, records) == Addressed(job, source);
      ghost var kept := records;
      if IndexOf(records, name) == |records| {
        records := records + [NewRecord(name, born)];
      }
      var i := IndexOf(records, name);
      if i < |records| {
        records := records[i := Observe(records[i], update, now)];
      }
      assert records == Observed(kept, name, update, now, born);
      updated := job.(sources := records, progress := Recompute(job.progress, records));
    }

    method Finish(id: string, status: string, now: real)
      modifies this`jobs
      ensures State() == Apply(old(State()), Op.Finish(id, status, now))
    {
      if id !in jobs {
        return;
      }
      var job := jobs[id].(status := status);
      var records := job.sources;
      for i := 0 to |records|
        invariant |records| == |job.sources|
        invariant forall j :: i <= j < |records| ==> records[j] == job.sources[j]
        invariant forall j :: 0 <= j < i ==> records[j] == FinishActive(job.sources, status, now)[j]
      {
        if records[i].Active() {
          records := records[i := FinishRecord(records[i], status, now)];
        }
      }
      assert records == FinishActive(job.sources, status, now);
      var progress := Recompute(job.progress.(phase := status), records);
      if Known(progress.total) {
        progress := progress.(current := progress.total.value);
      }
      job := job.(sources := records, progress := progress);
      assert job == FinishJob(jobs[id], status, now);
      jobs := jobs[id := job];
    }

    method FinishSource(id: string, name: string, status: string, now: real)
      modifies this`jobs
      ensures State() == Apply(old(State()), Op.FinishSource(id, name, status, now))
    {
      if id !in jobs || Terminal(jobs[id].status) {
        assert id in jobs ==> jobs[id := jobs[id]] == jobs;
        return;
      }
      var job := jobs[id];
      var i := IndexOf(job.sources, name);
      if i == |job.sources| || !job.sources[i].Active() {
        assert jobs[id := job] == jobs;
        return;
      }
      var records := job.sources[i := FinishRecord(job.sources[i], status, now)];
      jobs := jobs[id := job.(sources := records, progress := Recompute(job.progress, records))];
    }

    /** Remove finished notifications; the count is of distinct ids. */
    method Clear(only: Option<string>) returns (removed: nat)
      modifies this
      ensures State() == Apply(old(State()), Op.Clear(only))
      ensures removed == |old(jobs)| - |jobs|
    {
      var selected := if only.Some? then [only.value] else order;
      var removedIds := DropSelected(selected);
      if removedIds != {} {
        order := FilterHeld(order, jobs);
      }
      removed := |removedIds|;
    }

    method DropSelected(selected: seq<string>) returns (removedIds: set<string>)
      modifies this`jobs
      ensures jobs == DropFinished(old(jobs), selected)
      ensures removedIds == {} <==> jobs == old(jobs)
      ensures |removedIds| == |old(jobs)| - |jobs|
    {
      ghost var before := jobs;
      removedIds := {};
      assert DropFinished(before, selected[..0]) == before;
      for i := 0 to |selected|
        invariant jobs == DropFinished(before, selected[..i])
        invariant removedIds !! jobs.Keys && removedIds + jobs.Keys == before.Keys
      {
        var candidate := selected[i];
        assert selected[..i + 1] == selected[..i] + [candidate];
        DropStep(before, selected[..i], candidate);
        if candidate in jobs && Terminal(jobs[candidate].status) {
          jobs := jobs - {candidate};
          removedIds := removedIds + {candidate};
        }
      }
      assert selected[..|selected|] == selected;
      if removedIds == {} {
        assert jobs.Keys == before.Keys;
        assert jobs == before;
      }
      assert |removedIds + jobs.Keys| == |removedIds| + |jobs.Keys|;
    }

    method FindActive(target: string) returns (job: Option<Job>)
      ensures job == ActiveFor(State(), target)
    {
      assert order[..|order|] == order;
      var i := |order|;
      while i > 0
        invariant 0 <= i <= |order|
        invariant ActiveFor(State(), target) == ActiveIn(jobs, order[..i], target)
      {
        assert order[..i][..i - 1] == order[..i - 1];
        i := i - 1;
        var id := order[i];
        if id in jobs && !Terminal(jobs[id].status) && target in jobs[id].targets {
          return Some(jobs[id]);
        }
      }
      return None;
    }
  }
}
