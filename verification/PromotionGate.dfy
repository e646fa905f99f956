/**
 * The hand-off of the sync gate inside one indexer process
 * (src/pheasant/cli.py): the election thread acquires it before it spawns the
 * reconcile thread, the reconcile thread releases it, and queue drainers take
 * it around every drain.  Old drainer threads may linger after a demotion, so
 * any number of gate clients can exist.
 */
module PromotionGate {

  import opened Options

  datatype Holder = Free | Promotion | Client(id: nat)

  datatype Election =
    | Away                 // not inside _promote's gate section
    | Blocked              // in promotion_lock.acquire()
    | Holding(n: nat)      // acquired for the n-th time, the reconcile thread not started yet

  datatype Reconcile =
    | Absent               // never started
    | Running(n: nat)      // inside on_promote(), the n-th promotion to reconcile
    | Finishing(n: nat)    // in the finally block, gate not yet released
    | Exiting              // released, thread still alive
    | Dead

  datatype ClientPc = Idle | Draining

  datatype GateEvent = Acquired(n: nat) | Released(n: nat)

  datatype Process = Process(
    gate: Holder,
    election: Election,
    reconcile: Reconcile,
    clients: map<nat, ClientPc>,
    promotions: nat,           // calls of _promote so far
    skipped: nat,              // ... that found the previous reconcile thread alive
    log: seq<GateEvent>        // what promotions did to the gate
  )

  datatype Action =
    | Promote                  // _promote reaches the alive test
    | AcquireGate | Spawn      // election thread
    | SpawnRaises              // Thread.start() raises after the acquire; a restarted supervisor may promote again
    | Reconciled | ReleaseGate | ThreadDies   // reconcile thread
    | ClientStarts(id: nat) | ClientAcquires(id: nat) | ClientReleases(id: nat) | ClientExits(id: nat)

  predicate Alive(r: Reconcile) {
    r.Running? || r.Finishing? || r.Exiting?
  }

  /** The number the next acquisition gets. */
  function Turn(log: seq<GateEvent>): nat {
    (|log| + 1) / 2
  }

  /** One statement of one thread, where it is enabled. */
  function Step(p: Process, a: Action): Option<Process> {
    match a
    case Promote =>
      if !p.election.Away? then None
      else if Alive(p.reconcile) then Some(p.(promotions := p.promotions + 1, skipped := p.skipped + 1))
      else Some(p.(promotions := p.promotions + 1, election := Blocked))
    case AcquireGate =>
      if p.election.Blocked? && p.gate.Free?
      then Some(p.(gate := Promotion, election := Holding(Turn(p.log)), log := p.log + [Acquired(Turn(p.log))]))
      else None
    case Spawn =>
      if p.election.Holding? then Some(p.(election := Away, reconcile := Running(p.election.n))) else None
    case SpawnRaises =>
      if p.election.Holding? then Some(p.(election := Away, reconcile := Dead)) else None
    case Reconciled =>
      if p.reconcile.Running? then Some(p.(reconcile := Finishing(p.reconcile.n))) else None
    case ReleaseGate =>
      if p.reconcile.Finishing?
      then Some(p.(gate := Free, reconcile := Exiting, log := p.log + [Released(p.reconcile.n)]))
      else None
    case ThreadDies => if p.reconcile.Exiting? then Some(p.(reconcile := Dead)) else None
    case ClientStarts(id) => if id !in p.clients then Some(p.(clients := p.clients[id := Idle])) else None
    case ClientAcquires(id) =>
      if id in p.clients && p.clients[id].Idle? && p.gate.Free?
      then Some(p.(gate := Client(id), clients := p.clients[id := Draining]))
      else None
    case ClientReleases(id) =>
      if id in p.clients && p.clients[id].Draining?
      then Some(p.(gate := Free, clients := p.clients[id := Idle]))
      else None
    case ClientExits(id) =>
      if id in p.clients && p.clients[id].Idle? then Some(p.(clients := p.clients - {id})) else None
  }

  ghost predicate Init(p: Process) {
    p == Process(Free, Away, Absent, map[], 0, 0, [])
  }

  ghost predicate IsRun(run: seq<Process>, did: seq<Action>) {
    && |run| == |did| + 1
    && Init(run[0])
    && forall k :: 0 <= k < |did| ==> Step(run[k], did[k]) == Some(run[k + 1])
  }

  /** Acquired(0), Released(0), Acquired(1), Released(1), ... */
  ghost predicate Paired(log: seq<GateEvent>) {
    forall k :: 0 <= k < |log| ==> log[k] == if k % 2 == 0 then Acquired(k / 2) else Released(k / 2)
  }

  ghost predicate PromotionOwns(p: Process) {
    p.election.Holding? || p.reconcile.Running? || p.reconcile.Finishing?
  }

  /** Taken for a promotion with no thread left to give it back. */
  ghost predicate Lost(p: Process) {
    p.gate.Promotion? && !PromotionOwns(p)
  }

  ghost predicate Inv(p: Process) {
    && (PromotionOwns(p) ==> p.gate.Promotion?)
    && (forall id :: id in p.clients && p.clients[id].Draining? ==> p.gate == Client(id))
    && (p.gate.Client? ==> p.gate.id in p.clients && p.clients[p.gate.id].Draining?)
    && (!p.election.Away? ==> !Alive(p.reconcile))
    && Paired(p.log) && (|p.log| % 2 == 1 <==> p.gate.Promotion?)
    && (p.election.Holding? ==> p.election.n == |p.log| / 2)
    && (p.reconcile.Running? || p.reconcile.Finishing? ==> p.reconcile.n == |p.log| / 2)
    && p.promotions == p.skipped + Turn(p.log) + (if p.election.Blocked? then 1 else 0)
  }

  lemma InvStep(p: Process, a: Action)
    requires Inv(p) && Step(p, a).Some?
    ensures Inv(Step(p, a).value)
  {
  }

  lemma {:induction false} RunInv(run: seq<Process>, did: seq<Action>, k: nat)
    requires IsRun(run, did) && k < |run|
    ensures Inv(run[k])
  {
    if k > 0 {
      RunInv(run, did, k - 1);
      assert Step(run[k - 1], did[k - 1]) == Some(run[k - 1 + 1]);
      InvStep(run[k - 1], did[k - 1]);
    }
  }

  ghost predicate IsDraining(p: Process, id: nat) {
    id in p.clients && p.clients[id].Draining?
  }

  lemma LostStep(p: Process, a: Action)
    requires Inv(p) && Step(p, a).Some?
    ensures Lost(Step(p, a).value) <==> Lost(p) || a.SpawnRaises?
  {
  }

  /**
   * The gate is lost exactly when a reconcile thread once failed to start,
   * and from then on nobody drains or reconciles again.
   */
  lemma {:induction false} GateLostExactly(run: seq<Process>, did: seq<Action>, k: nat)
    requires IsRun(run, did) && k < |run|
    ensures Lost(run[k]) <==> exists j :: 0 <= j < k && did[j].SpawnRaises?
    ensures Lost(run[k]) ==> !run[k].reconcile.Running? && forall id :: !IsDraining(run[k], id)
  {
    RunInv(run, did, k);
    if k > 0 {
      GateLostExactly(run, did, k - 1);
      RunInv(run, did, k - 1);
      assert Step(run[k - 1], did[k - 1]) == Some(run[k - 1 + 1]);
      LostStep(run[k - 1], did[k - 1]);
    }
  }

  /** It does happen: the first promotion takes the gate and its thread fails to start. */
  lemma LostGateRun() returns (run: seq<Process>, did: seq<Action>)
    ensures IsRun(run, did) && did == [Promote, AcquireGate, SpawnRaises]
    ensures Lost(run[|run| - 1])
  {
    var idle := Process(Free, Away, Absent, map[], 0, 0, []);
    var blocked := idle.(promotions := 1, election := Blocked);
    var holding := blocked.(gate := Promotion, election := Holding(0), log := [Acquired(0)]);
    run := [idle, blocked, holding, holding.(election := Away, reconcile := Dead)];
    did := [Promote, AcquireGate, SpawnRaises];
    assert Step(run[0], did[0]) == Some(run[1]);
    assert blocked.log + [Acquired(0)] == [Acquired(0)];
    assert Step(run[1], did[1]) == Some(run[2]);
    assert Step(run[2], did[2]) == Some(run[3]);
  }

  /** Startup reconciliation and a queue drain are never in progress together, nor are two drains. */
  lemma ReconcileExcludesDrain(run: seq<Process>, did: seq<Action>, k: nat)
    requires IsRun(run, did) && k < |run|
    ensures PromotionOwns(run[k]) ==> forall id :: id in run[k].clients ==> run[k].clients[id].Idle?
    ensures forall i, j :: IsDraining(run[k], i) && IsDraining(run[k], j) ==> i == j
  {
    RunInv(run, did, k);
  }

  lemma PairedMembers(log: seq<GateEvent>, n: nat)
    requires Paired(log)
    ensures Acquired(n) in log <==> 2 * n < |log|
    ensures Released(n) in log <==> 2 * n + 1 < |log|
  {
    assert 2 * n < |log| ==> log[2 * n] == Acquired(n);
    assert 2 * n + 1 < |log| ==> log[2 * n + 1] == Released(n);
  }

  /**
   * The n-th acquisition is released at most once, by the reconcile thread it
   * was taken for and before the next one; one is outstanding exactly while
   * the promotion owns the gate, or for ever after a thread failed to start.
   */
  lemma EveryAcquireReleasedOnce(run: seq<Process>, did: seq<Action>, k: nat, n: nat)
    requires IsRun(run, did) && k < |run|
    ensures Paired(run[k].log)
    ensures Released(n) in run[k].log ==> Acquired(n) in run[k].log
    ensures Acquired(n) in run[k].log && Released(n) !in run[k].log
       <==> n == |run[k].log| / 2 && (PromotionOwns(run[k]) || exists j :: 0 <= j < k && did[j].SpawnRaises?)
  {
    RunInv(run, did, k);
    GateLostExactly(run, did, k);
    PairedMembers(run[k].log, n);
  }

  /** A promotion reconciles unless it finds the previous reconcile thread alive; every other one takes the gate. */
  lemma PromotionsAccountedFor(run: seq<Process>, did: seq<Action>, k: nat)
    requires IsRun(run, did) && k < |run|
    ensures var p := run[k];
            p.promotions == p.skipped + (|p.log| + 1) / 2 + (if p.election.Blocked? then 1 else 0)
  {
    RunInv(run, did, k);
  }

  /** A promotion is skipped exactly when the previous reconcile thread is still alive; otherwise it queues for the gate. */
  lemma SkippedExactlyWhileAlive(run: seq<Process>, did: seq<Action>, n: nat)
    requires IsRun(run, did) && n < |did| && did[n].Promote?
    ensures var r := run[n].reconcile;
            if r.Running? || r.Finishing? || r.Exiting?
            then run[n + 1].skipped == run[n].skipped + 1 && run[n + 1].election.Away?
            else run[n + 1].skipped == run[n].skipped && run[n + 1].election.Blocked?
  {
    assert Step(run[n], did[n]) == Some(run[n + 1]);
  }

  /** A reconciliation was in progress at some earlier point of the run. */
  ghost predicate WasReconciling(run: seq<Process>, k: nat, n: nat) {
    exists m :: 0 <= m <= k && m < |run| && run[m].reconcile == Running(n)
  }

  lemma ReconciledGrows(run: seq<Process>, k: nat, n: nat)
    requires k + 1 < |run| && (WasReconciling(run, k, n) || run[k + 1].reconcile == Running(n))
    ensures WasReconciling(run, k + 1, n)
  {
    if WasReconciling(run, k, n) {
      var m :| 0 <= m <= k && m < |run| && run[m].reconcile == Running(n);
      assert 0 <= m <= k + 1 && m < |run| && run[m].reconcile == Running(n);
    } else {
      assert 0 <= k + 1 <= k + 1 && run[k + 1].reconcile == Running(n);
    }
  }

  lemma {:induction false} ReconciledBefore(run: seq<Process>, did: seq<Action>, k: nat, n: nat)
    requires IsRun(run, did) && k < |run|
    ensures run[k].reconcile == Running(n) || run[k].reconcile == Finishing(n) || Released(n) in run[k].log ==> WasReconciling(run, k, n)
  {
    if k > 0 {
      ReconciledBefore(run, did, k - 1, n);
      assert Step(run[k - 1], did[k - 1]) == Some(run[k - 1 + 1]);
      if WasReconciling(run, k - 1, n) || run[k].reconcile == Running(n) {
        ReconciledGrows(run, k - 1, n);
      }
    }
  }

  /** The gate is given back only after the reconciliation it was taken for has run. */
  lemma ReleasedAfterReconciling(run: seq<Process>, did: seq<Action>, k: nat, n: nat)
    requires IsRun(run, did) && k < |run| && Released(n) in run[k].log
    ensures exists m :: 0 <= m < k && run[m].reconcile == Running(n)
  {
    ReconciledBefore(run, did, k, n);
    var m :| 0 <= m <= k && m < |run| && run[m].reconcile == Running(n);
    if m == k {
      RunInv(run, did, k);
      PairedMembers(run[k].log, n);
    }
  }

  /** The gate is free exactly when nobody reconciles or drains and it is not lost, and then whoever waits for it gets it. */
  lemma FreeGateServes(run: seq<Process>, did: seq<Action>, k: nat)
    requires IsRun(run, did) && k < |run|
    ensures run[k].gate.Free? <==>
              && !PromotionOwns(run[k]) && (forall id :: !IsDraining(run[k], id))
              && (forall j :: 0 <= j < k ==> !did[j].SpawnRaises?)
    ensures run[k].election.Blocked? ==> (Step(run[k], AcquireGate).Some? <==> run[k].gate.Free?)
    ensures forall id :: id in run[k].clients && run[k].clients[id].Idle? ==>
              (Step(run[k], ClientAcquires(id)).Some? <==> run[k].gate.Free?)
  {
    RunInv(run, did, k);
    GateLostExactly(run, did, k);
    if run[k].gate.Client? {
      assert IsDraining(run[k], run[k].gate.id);
    }
  }

  /** The steps the promotion itself has left: start its thread, reconcile, give the gate back. */
  function Left(p: Process): seq<Action> {
    if p.election.Holding? then [Spawn, Reconciled, ReleaseGate]
    else if p.reconcile.Running? then [Reconciled, ReleaseGate]
    else if p.reconcile.Finishing? then [ReleaseGate]
    else []
  }

  lemma NextOfPromotion(p: Process)
    requires Inv(p) && PromotionOwns(p)
    ensures Left(p) != [] && Step(p, Left(p)[0]).Some?
    ensures var q := Step(p, Left(p)[0]).value;
            && Inv(q) && Left(q) == Left(p)[1..]
            && (|Left(p)| > 1 ==> q.log == p.log && PromotionOwns(q))
            && (|Left(p)| == 1 ==> q.gate.Free? && q.log == p.log + [Released(|p.log| / 2)])
  {
    InvStep(p, Left(p)[0]);
  }

  lemma {:induction false} ReturnFrom(p: Process) returns (path: seq<Process>)
    requires Inv(p) && PromotionOwns(p)
    ensures Returns(p, path)
    decreases |Left(p)|
  {
    NextOfPromotion(p);
    var q := Step(p, Left(p)[0]).value;
    if |Left(p)| == 1 {
      path := [p, q];
    } else {
      var rest := ReturnFrom(q);
      path := [p] + rest;
      forall j | 0 <= j < |Left(p)|
        ensures Step(path[j], Left(p)[j]) == Some(path[j + 1])
      {
        if j > 0 {
          assert Left(p)[j] == Left(q)[j - 1] && path[j] == rest[j - 1];
        }
      }
    }
  }

  /** The promotion's own steps lead from `p` along `path` to a free gate, the outstanding acquisition released. */
  ghost predicate Returns(p: Process, path: seq<Process>) {
    var left := Left(p);
    && 1 <= |left| == |path| - 1 && path[0] == p
    && (forall j :: 0 <= j < |left| ==> Step(path[j], left[j]) == Some(path[j + 1]))
    && path[|left|].gate.Free? && path[|left|].log == p.log + [Released(|p.log| / 2)]
  }

  /** No deadlock: from wherever a promotion has the gate, its own threads can always go on and give it back. */
  lemma GateCanBeReturned(run: seq<Process>, did: seq<Action>, k: nat) returns (path: seq<Process>)
    requires IsRun(run, did) && k < |run| && PromotionOwns(run[k])
    ensures Returns(run[k], path)
  {
    RunInv(run, did, k);
    path := ReturnFrom(run[k]);
  }
}
