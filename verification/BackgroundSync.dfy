/**
 * Starting background syncs (src/pheasant/api/app.py): request threads check
 * which sources are free and claim them in one critical section, while sync
 * threads, other job kinds and the UI keep changing the registry without that
 * lock.  Every statement is a step, so the registry may change between the
 * check of one name and the next.
 */
module BackgroundSync {
  import opened Options
  import opened Sequences
  import opened JobRecords
  import opened JobRegistry

  datatype Request =
    | Blocked(names: seq<string>)                          // waiting for sync_lock
    | Checking(left: seq<string>, chosen: seq<string>)     // holding it, names still to check
    | Answered(job: Option<string>)

  datatype App = App(registry: Registry, lock: Option<nat>, requests: map<nat, Request>)

  datatype Action =
    | Arrive(t: nat, names: seq<string>)
    | Enter(t: nat)
    | CheckNext(t: nat)
    | Claim(t: nat, id: string, born: real)
    | Other(op: Op)

  /** What the rest of the process does to this registry: any operation but claiming a sync or un-finishing a job. */
  predicate Foreign(op: Op) {
    && (op.Create? ==> op.kind != "sync")
    && (op.Finish? ==> Terminal(op.status))
  }

  function Step(s: App, a: Action): Option<App> {
    match a
    case Arrive(t, names) =>
      if t in s.requests then None else Some(s.(requests := s.requests[t := Blocked(names)]))
    case Enter(t) =>
      if t in s.requests && s.requests[t].Blocked? && s.lock.None?
      then Some(s.(lock := Some(t), requests := s.requests[t := Checking(s.requests[t].names, [])]))
      else None
    case CheckNext(t) =>
      if t in s.requests && s.requests[t].Checking? && s.requests[t].left != [] then
        var Checking(left, chosen) := s.requests[t];
        var free := ActiveFor(s.registry, left[0]).None?;
        Some(s.(requests := s.requests[t := Checking(left[1..], if free then chosen + [left[0]] else chosen)]))
      else None
    case Claim(t, id, born) =>
      if t in s.requests && s.requests[t].Checking? && s.requests[t].left == [] then
        var chosen := s.requests[t].chosen;
        if chosen == [] then Some(s.(lock := None, requests := s.requests[t := Answered(None)]))
        else Some(App(Apply(s.registry, Create(id, "sync", chosen, born)), None, s.requests[t := Answered(Some(id))]))
      else None
    case Other(op) =>
      if Foreign(op) then Some(s.(registry := Apply(s.registry, op))) else None
  }

  ghost predicate Init(s: App) {
    s == App(EmptyRegistry(s.registry.maxRecords), None, map[])
  }

  ghost predicate IsRun(run: seq<App>, did: seq<Action>) {
    && |run| == |did| + 1
    && Init(run[0])
    && forall k :: 0 <= k < |did| ==> Step(run[k], did[k]) == Some(run[k + 1])
  }

  ghost predicate Syncing(r: Registry, id: string) {
    id in r.jobs && r.jobs[id].Active() && r.jobs[id].kind == "sync"
  }

  ghost predicate DisjointClaims(r: Registry) {
    forall i, j, name :: Syncing(r, i) && Syncing(r, j) && name in r.jobs[i].targets && name in r.jobs[j].targets ==> i == j
  }

  ghost predicate Unclaimed(r: Registry, names: seq<string>) {
    forall id, name :: Syncing(r, id) && name in names ==> name !in r.jobs[id].targets
  }

  /** Nothing in `r'` is syncing that was not syncing the same sources in `r`. */
  ghost predicate Shrinks(r: Registry, r': Registry) {
    forall id :: Syncing(r', id) ==> Syncing(r, id) && r'.jobs[id].targets == r.jobs[id].targets
  }

  lemma ForeignShrinks(r: Registry, op: Op)
    requires Good(r) && Foreign(op)
    ensures Shrinks(r, Apply(r, op))
  {
    match op {
      case Create(_, _, _, _) =>
        CreateGood(r, op);
      case Progress(id, source, update, now, born) =>
      case Finish(id, status, now) =>
      case FinishSource(id, name, status, now) =>
      case Clear(only) =>
        ClearGood(r, only);
    }
  }

  lemma ClaimStaysDisjoint(r: Registry, id: string, chosen: seq<string>, born: real)
    requires Good(r) && DisjointClaims(r) && Unclaimed(r, chosen)
    ensures DisjointClaims(Apply(r, Create(id, "sync", chosen, born)))
  {
    var added := r.(jobs := r.jobs[id := NewJob(id, "sync", chosen, born)], order := r.order + [id]);
    CreateGood(r, Create(id, "sync", chosen, born));
    assert DisjointClaims(added);
    assert Shrinks(added, Evict(added));
  }

  ghost predicate Inv(s: App) {
    && Good(s.registry)
    && DisjointClaims(s.registry)
    && (forall t :: t in s.requests && s.requests[t].Checking? ==>
          s.lock == Some(t) && Unclaimed(s.registry, s.requests[t].chosen))
  }

  lemma InvStep(s: App, a: Action)
    requires Inv(s) && Step(s, a).Some?
    ensures Inv(Step(s, a).value)
  {
    var s' := Step(s, a).value;
    match a {
      case Arrive(t, names) =>
      case Enter(t) =>
      case CheckNext(t) =>
        ActiveForExact(s.registry, s.requests[t].left[0]);
      case Claim(t, id, born) =>
        var chosen := s.requests[t].chosen;
        if chosen != [] {
          ClaimStaysDisjoint(s.registry, id, chosen, born);
          ApplyGood(s.registry, Create(id, "sync", chosen, born));
        }
      case Other(op) =>
        ForeignShrinks(s.registry, op);
        ApplyGood(s.registry, op);
    }
  }

  lemma {:induction false} RunInv(run: seq<App>, did: seq<Action>, k: nat)
    requires IsRun(run, did) && k < |run|
    ensures Inv(run[k])
  {
    if k > 0 {
      RunInv(run, did, k - 1);
      assert Step(run[k - 1], did[k - 1]) == Some(run[k - 1 + 1]);
      InvStep(run[k - 1], did[k - 1]);
    }
  }

  /** Over every interleaving, no two unfinished sync jobs ever claim the same source. */
  lemma NoSourceClaimedTwice(run: seq<App>, did: seq<Action>, k: nat, i: string, j: string, name: string)
    requires IsRun(run, did) && k < |run|
    requires Syncing(run[k].registry, i) && Syncing(run[k].registry, j)
    requires name in run[k].registry.jobs[i].targets && name in run[k].registry.jobs[j].targets
    ensures i == j
  {
    RunInv(run, did, k);
  }

  // ------------------------------------------------------------ what a request gets

  /** No held unfinished job, of any kind, names the source. */
  ghost predicate FreeIn(r: Registry, name: string) {
    forall id :: id in r.jobs ==> !(r.jobs[id].Active() && name in r.jobs[id].targets)
  }

  lemma FreeExactly(r: Registry, name: string)
    requires Good(r)
    ensures ActiveFor(r, name).None? <==> FreeIn(r, name)
  {
    ActiveForExact(r, name);
  }

  /** Whatever else happens in between: a check takes the name exactly when nothing unfinished names it at that moment. */
  lemma CheckTakesFreeName(run: seq<App>, did: seq<Action>, n: nat)
    requires IsRun(run, did) && n < |did| && did[n].CheckNext?
    ensures var t := did[n].t;
            && t in run[n].requests && run[n].requests[t].Checking? && run[n].requests[t].left != []
            && var Checking(left, chosen) := run[n].requests[t];
               && t in run[n + 1].requests && run[n + 1].registry == run[n].registry
               && run[n + 1].requests[t] == Checking(left[1..], if FreeIn(run[n].registry, left[0]) then chosen + [left[0]] else chosen)
  {
    RunInv(run, did, n);
    assert Step(run[n], did[n]) == Some(run[n + 1]);
    FreeExactly(run[n].registry, run[n].requests[did[n].t].left[0]);
  }

  /** The lock is held by the request that is checking, and by nobody otherwise. */
  lemma {:induction false} LockHeldExactly(run: seq<App>, did: seq<Action>, k: nat, t: nat)
    requires IsRun(run, did) && k < |run|
    ensures run[k].lock == Some(t) <==> t in run[k].requests && run[k].requests[t].Checking?
  {
    RunInv(run, did, k);
    if k > 0 {
      LockHeldExactly(run, did, k - 1, t);
      RunInv(run, did, k - 1);
      assert Step(run[k - 1], did[k - 1]) == Some(run[k - 1 + 1]);
    }
  }

  /** Several steps in a row. */
  function Steps(s: App, acts: seq<Action>): Option<App>
    decreases acts
  {
    if acts == [] then Some(s)
    else if Step(s, acts[0]).None? then None
    else Steps(Step(s, acts[0]).value, acts[1..])
  }

  function Checks(t: nat, n: nat): (acts: seq<Action>)
    ensures |acts| == n && forall i :: 0 <= i < n ==> acts[i] == CheckNext(t)
  {
    seq(n, i => CheckNext(t))
  }

  lemma {:induction false} StepsConcat(s: App, first: seq<Action>, more: seq<Action>)
    requires Steps(s, first).Some?
    ensures Steps(s, first + more) == Steps(Steps(s, first).value, more)
    decreases first
  {
    if first == [] {
      assert first + more == more;
    } else {
      assert (first + more)[1..] == first[1..] + more;
      StepsConcat(Step(s, first[0]).value, first[1..], more);
    }
  }

  /** The names that are free, in the order they were asked for. */
  ghost function FreeOf(r: Registry, names: seq<string>): seq<string> {
    if names == [] then [] else (if FreeIn(r, names[0]) then [names[0]] else []) + FreeOf(r, names[1..])
  }

  lemma {:induction false} FreeOfPicks(r: Registry, names: seq<string>) returns (picked: seq<nat>)
    ensures Picks(picked, names, FreeOf(r, names))
    ensures forall i :: 0 <= i < |names| ==> (i in picked <==> FreeIn(r, names[i]))
  {
    picked := [];
    if names != [] {
      var rest := FreeOfPicks(r, names[1..]);
      picked := ShiftPicks(rest, names, FreeOf(r, names[1..]), FreeIn(r, names[0]));
    }
  }

  ghost function Taken(r: Registry, name: string, chosen: seq<string>): seq<string> {
    if FreeIn(r, name) then chosen + [name] else chosen
  }

  lemma OneCheck(s: App, t: nat, left: seq<string>, chosen: seq<string>)
    requires t in s.requests && s.requests[t] == Checking(left, chosen) && left != []
    requires ActiveFor(s.registry, left[0]).None? <==> FreeIn(s.registry, left[0])
    ensures Step(s, CheckNext(t)) == Some(s.(requests := s.requests[t := Checking(left[1..], Taken(s.registry, left[0], chosen))]))
  {
  }

  lemma TakenThenRest(r: Registry, left: seq<string>, chosen: seq<string>)
    requires left != []
    ensures Taken(r, left[0], chosen) + FreeOf(r, left[1..]) == chosen + FreeOf(r, left)
  {
  }

  /** The comprehension over the names, with nothing in between. */
  lemma {:induction false} ChecksInARow(s: App, t: nat, left: seq<string>, chosen: seq<string>)
    requires Good(s.registry) && t in s.requests && s.requests[t] == Checking(left, chosen)
    ensures Steps(s, Checks(t, |left|)) == Some(s.(requests := s.requests[t := Checking([], chosen + FreeOf(s.registry, left))]))
    decreases left
  {
    if left == [] {
      assert chosen + FreeOf(s.registry, left) == chosen && Checks(t, 0) == [];
      assert s.requests[t := Checking([], chosen)] == s.requests;
    } else {
      var taken := Taken(s.registry, left[0], chosen);
      var next := s.(requests := s.requests[t := Checking(left[1..], taken)]);
      FreeExactly(s.registry, left[0]);
      OneCheck(s, t, left, chosen);
      TakenThenRest(s.registry, left, chosen);
      ChecksInARow(next, t, left[1..], taken);
      assert Checks(t, |left|)[1..] == Checks(t, |left| - 1);
      var last := Checking([], chosen + FreeOf(s.registry, left));
      assert next.requests[t := last] == s.requests[t := last];
    }
  }

  /** The critical section up to the claim, with nothing in between. */
  lemma EntersAndChecks(s: App, t: nat)
    requires Good(s.registry) && s.lock.None? && t in s.requests && s.requests[t].Blocked?
    ensures var names := s.requests[t].names;
            Steps(s, [Enter(t)] + Checks(t, |names|))
            == Some(App(s.registry, Some(t), s.requests[t := Checking([], FreeOf(s.registry, names))]))
  {
    var names := s.requests[t].names;
    var entered := s.(lock := Some(t), requests := s.requests[t := Checking(names, [])]);
    ChecksInARow(entered, t, names, []);
    assert [] + FreeOf(s.registry, names) == FreeOf(s.registry, names);
    var acts := [Enter(t)] + Checks(t, |names|);
    assert acts[1..] == Checks(t, |names|) && acts[0] == Enter(t);
    assert entered.requests[t := Checking([], FreeOf(s.registry, names))] == s.requests[t := Checking([], FreeOf(s.registry, names))];
  }

  lemma OneStep(s: App, a: Action)
    ensures Steps(s, [a]) == Step(s, a)
  {
    assert [a][1..] == [];
  }

  /** What the claim makes of the chosen names. */
  lemma ClaimOutcome(s: App, t: nat, free: seq<string>, id: string, born: real)
    requires Good(s.registry) && t in s.requests && s.requests[t] == Checking([], free)
    ensures Step(s, Claim(t, id, born)).Some?
    ensures var done := Step(s, Claim(t, id, born)).value;
            && done.lock.None? && t in done.requests
            && (if free == [] then done.requests[t] == Answered(None) && done.registry == s.registry
                else && done.requests[t] == Answered(Some(id)) && id in done.registry.jobs
                     && done.registry.jobs[id].kind == "sync" && done.registry.jobs[id].Active()
                     && done.registry.jobs[id].targets == free)
  {
    if free != [] {
      CreateHolds(s.registry, Create(id, "sync", free, born), id);
    }
  }

  /**
   * A request that meets no other step: it can always go through, it claims
   * exactly its free names in the order it asked for them, as one running sync
   * job, and it answers with no job exactly when none is free.
   */
  lemma UndisturbedRequest(run: seq<App>, did: seq<Action>, k: nat, t: nat, id: string, born: real)
    returns (done: App, picked: seq<nat>)
    requires IsRun(run, did) && k < |run| && run[k].lock.None?
    requires t in run[k].requests && run[k].requests[t].Blocked?
    ensures var names := run[k].requests[t].names;
            && Steps(run[k], [Enter(t)] + Checks(t, |names|) + [Claim(t, id, born)]) == Some(done)
            && (forall i :: 0 <= i < |picked| ==> picked[i] < |names|)
            && (forall i :: 0 <= i < |names| ==> (i in picked <==> FreeIn(run[k].registry, names[i])))
            && done.lock.None? && t in done.requests
            && (if picked == [] then done.requests[t] == Answered(None) && done.registry == run[k].registry
                else && done.requests[t] == Answered(Some(id)) && id in done.registry.jobs
                     && done.registry.jobs[id].kind == "sync" && done.registry.jobs[id].Active()
                     && Picks(picked, names, done.registry.jobs[id].targets))
  {
    RunInv(run, did, k);
    var s, names := run[k], run[k].requests[t].names;
    var free := FreeOf(s.registry, names);
    picked := FreeOfPicks(s.registry, names);
    EntersAndChecks(s, t);
    var checked := App(s.registry, Some(t), s.requests[t := Checking([], free)]);
    StepsConcat(s, [Enter(t)] + Checks(t, |names|), [Claim(t, id, born)]);
    OneStep(checked, Claim(t, id, born));
    ClaimOutcome(checked, t, free, id, born);
    done := Step(checked, Claim(t, id, born)).value;
  }
}
