/**
 * Leader election among indexers (src/pheasant/cli.py, the orchestration
 * supervisor) over the lease row of src/pheasant/sync/locks.py.  Each indexer
 * is its election thread's program counter and the fields that thread updates;
 * a step is one statement of one thread, so a run is any interleaving.
 */
module Election {

  import opened Options

  datatype Service = Watcher | Scheduler | Drainer

  datatype Event = Promoted | Demoted

  datatype Pc =
    | Stopped            // no election thread
    | Top                // about to test the stop event
    | Demote(done: nat)  // inside _demote, `done` of its statements executed
    | Acquire            // about to try the lease
    | Promote(done: nat) // inside _promote
    | Waiting            // in _stop.wait(poll_interval)
    | Releasing          // the finally block, about to release the lease

  datatype Indexer = Indexer(
    owned: set<Service>,   // what this role's policy gives the supervisor
    pc: Pc,
    closing: bool,         // the demotion in progress is the one in `finally`
    stopRequested: bool,
    leader: bool,
    held: bool,            // the lease object's own belief
    up: set<Service>,      // start() called and stop() not yet
    draining: bool,        // a drainer thread is alive; stop() joins it for ten seconds only
    log: seq<Event>,       // promotions and demotions so far
    clock: int             // this host's own clock in seconds, which need not agree with another's
  )

  /** The lease row: who claimed it and when, by its owner's clock, its heartbeat was last written. */
  datatype Row = Row(owner: nat, beat: int)

  /** The fleet: the lease row and every indexer. */
  datatype Fleet = Fleet(row: Option<Row>, nodes: seq<Indexer>)

  predicate Owns(f: Fleet, i: nat) {
    f.row.Some? && f.row.value.owner == i
  }

  const STALE_AFTER: nat := 20

  /** The WHERE clause of the claim: the row is free, already ours, or its heartbeat has aged out by our clock. */
  predicate Claimable(f: Fleet, i: nat)
    requires i < |f.nodes|
  {
    f.row.None? || f.row.value.owner == i || f.row.value.beat + STALE_AFTER < f.nodes[i].clock
  }

  datatype Action =
    | Start
    | RequestStop
    | Advance              // the next statement of the election thread
    | WinLease             // try_acquire returned True
    | LoseElection         // try_acquire returned False or raised
    | PromotionRaises      // a service's start() raised
    | HeartbeatLost        // the heartbeat thread cleared `held`
    | Beat                 // the heartbeat thread refreshed its row
    | Tick(seconds: int)   // this host's clock moves on, or is set
    | DrainEnds            // the drainer thread returned, in time for the join or long after

  // ------------------------------------------------------------ one thread

  /** Where _demote returns to: the release in `finally`, or the election. */
  function AfterDemotion(x: Indexer): Indexer {
    x.(pc := if x.closing then Releasing else Acquire)
  }

  function AdvanceDemotion(x: Indexer, done: nat): Option<Indexer> {
    match done
    case 0 =>
      if x.leader then Some(x.(up := x.up - {Drainer}, pc := Demote(1))) else Some(AfterDemotion(x))
    case 1 => Some(x.(up := x.up - {Scheduler}, pc := Demote(2)))
    case 2 => Some(x.(up := x.up - {Watcher}, pc := Demote(3)))
    case 3 => Some(AfterDemotion(x.(leader := false, log := x.log + [Demoted])))
    case _ => None
  }

  function AdvancePromotion(x: Indexer, done: nat): Option<Indexer> {
    match done
    case 0 => Some(x.(leader := true, log := x.log + [Promoted], pc := Promote(1)))
    case 1 => Some(x.(up := x.up + {Watcher} * x.owned, pc := Promote(2)))
    case 2 => Some(x.(up := x.up + {Scheduler} * x.owned, pc := Promote(3)))
    case 3 => Some(x.(up := x.up + {Drainer} * x.owned, draining := x.draining || Drainer in x.owned, pc := Waiting))
    case _ => None
  }

  /** What a thread does to its own fields; the lease row is `Step`'s. */
  function StepIndexer(x: Indexer, a: Action): Option<Indexer> {
    match a
    case Start => if x.pc.Stopped? then Some(x.(pc := Top, stopRequested := false)) else None
    case RequestStop => Some(x.(stopRequested := true))
    case HeartbeatLost => if x.held then Some(x.(held := false)) else None
    case Beat => if x.held then Some(x) else None
    case Tick(seconds) => Some(x.(clock := x.clock + seconds))
    case DrainEnds => if x.draining then Some(x.(draining := false)) else None
    case WinLease => if x.pc.Acquire? then Some(x.(held := true, pc := Promote(0))) else None
    case LoseElection => if x.pc.Acquire? then Some(x.(pc := Waiting)) else None
    case PromotionRaises =>
      if x.pc.Promote? && x.pc.done >= 1 then Some(x.(closing := true, pc := Demote(0))) else None
    case Advance =>
      match x.pc
      case Top =>
        if x.stopRequested then Some(x.(closing := true, pc := Demote(0)))
        else if !x.held then Some(x.(closing := false, pc := Demote(0)))
        else Some(x.(pc := Waiting))
      case Demote(done) => AdvanceDemotion(x, done)
      case Promote(done) => AdvancePromotion(x, done)
      case Waiting => Some(x.(pc := Top))
      case Releasing => Some(x.(held := false, closing := false, pc := Stopped))
      case _ => None
  }

  // ------------------------------------------------------------ the fleet

  /** The row the statement leaves behind: an atomic claim, a heartbeat, or the holder's own delete. */
  function RowAfter(f: Fleet, i: nat, a: Action): Option<Row>
    requires i < |f.nodes|
  {
    if a.WinLease? || a.Beat? then Some(Row(i, f.nodes[i].clock))
    else if a.Advance? && f.nodes[i].pc.Releasing? && f.nodes[i].held && Owns(f, i) then None
    else f.row
  }

  ghost predicate Step(f: Fleet, i: nat, a: Action, f': Fleet) {
    && i < |f.nodes|
    && StepIndexer(f.nodes[i], a).Some?
    && (a.WinLease? ==> Claimable(f, i))
    && (a.Beat? ==> Owns(f, i))
    && f' == Fleet(RowAfter(f, i, a), f.nodes[i := StepIndexer(f.nodes[i], a).value])
  }

  ghost predicate Init(f: Fleet) {
    && f.row == None
    && forall i :: 0 <= i < |f.nodes| ==>
         var x := f.nodes[i];
         x == Indexer(x.owned, Stopped, false, false, false, false, {}, false, [], x.clock)
  }

  ghost predicate IsRun(run: seq<Fleet>, who: seq<nat>, did: seq<Action>) {
    && |run| == |who| + 1 == |did| + 1
    && Init(run[0])
    && forall k :: 0 <= k < |who| ==> Step(run[k], who[k], did[k], run[k + 1])
  }

  /** Some service has been started and its stop() not called since. */
  ghost predicate Serving(x: Indexer) {
    x.up != {}
  }

  /** Past the election, or with a drainer thread that is still claiming work. */
  ghost predicate Occupied(x: Indexer) {
    Engaged(x) || x.draining
  }

  /** From winning the lease until the demotion is complete. */
  ghost predicate Engaged(x: Indexer) {
    x.pc.Promote? || x.leader
  }

  ghost predicate AtMostOne(f: Fleet, p: Indexer -> bool) {
    forall i, j :: 0 <= i < |f.nodes| && 0 <= j < |f.nodes| && p(f.nodes[i]) && p(f.nodes[j]) ==> i == j
  }

  /** A stale claim: `i` wins a row whose owner is another indexer that is still engaged. */
  ghost predicate SeizesFromEngaged(f: Fleet, i: nat, a: Action) {
    && a.WinLease? && f.row.Some? && f.row.value.owner != i
    && f.row.value.owner < |f.nodes| && Engaged(f.nodes[f.row.value.owner])
  }

  /** `i` wins while the drainer of another indexer, stopped or not, is still running. */
  ghost predicate WinsBesideDrain(f: Fleet, i: nat, a: Action) {
    a.WinLease? && exists j :: 0 <= j < |f.nodes| && j != i && f.nodes[j].draining
  }

  // ------------------------------------------------------------ invariants

  ghost predicate Alternates(log: seq<Event>) {
    forall k :: 0 <= k < |log| ==> log[k] == if k % 2 == 0 then Promoted else Demoted
  }

  /** What one supervisor keeps, whatever the lease does. */
  ghost predicate Coherent(x: Indexer) {
    && x.up <= x.owned
    && (!x.leader ==> x.up == {})
    && Alternates(x.log) && (x.leader <==> |x.log| % 2 == 1)
    && match x.pc
       case Stopped => !x.leader && !x.held && !x.closing
       case Acquire => !x.leader && !x.closing
       case Releasing => !x.leader
       case Promote(done) => done <= 3 && (x.leader <==> done >= 1) && !x.closing
       case Demote(done) =>
         && done <= 3 && (done >= 1 ==> x.leader && Drainer !in x.up)
         && (done >= 2 ==> Scheduler !in x.up) && (done >= 3 ==> Watcher !in x.up)
       case _ => !x.closing
  }

  lemma DemotionCoherent(x: Indexer, done: nat)
    requires Coherent(x) && x.pc == Demote(done) && AdvanceDemotion(x, done).Some?
    ensures Coherent(AdvanceDemotion(x, done).value)
  {
    if done == 3 {
      forall s | s in x.up
        ensures false
      {
        match s {
          case Watcher =>
          case Scheduler =>
          case Drainer =>
        }
      }
      assert x.up == {};
    }
  }

  lemma PromotionCoherent(x: Indexer, done: nat)
    requires Coherent(x) && x.pc == Promote(done) && AdvancePromotion(x, done).Some?
    ensures Coherent(AdvancePromotion(x, done).value)
  {
  }

  lemma CoherentStep(x: Indexer, a: Action)
    requires Coherent(x) && StepIndexer(x, a).Some?
    ensures Coherent(StepIndexer(x, a).value)
  {
    if a.Advance? && x.pc.Demote? {
      DemotionCoherent(x, x.pc.done);
    } else if a.Advance? && x.pc.Promote? {
      PromotionCoherent(x, x.pc.done);
    }
  }

  /** Every engaged indexer owns the row, so there is at most one. */
  ghost predicate Exclusive(f: Fleet) {
    forall i :: 0 <= i < |f.nodes| && Engaged(f.nodes[i]) ==> Owns(f, i)
  }

  ghost predicate AllCoherent(f: Fleet) {
    forall i :: 0 <= i < |f.nodes| ==> Coherent(f.nodes[i])
  }

  lemma ExclusiveStep(f: Fleet, i: nat, a: Action, f': Fleet)
    requires AllCoherent(f) && Exclusive(f) && Step(f, i, a, f')
    requires !SeizesFromEngaged(f, i, a)
    ensures AllCoherent(f') && Exclusive(f')
  {
    CoherentStep(f.nodes[i], a);
    forall j | 0 <= j < |f'.nodes| && Engaged(f'.nodes[j])
      ensures Owns(f', j)
    {
      if j != i {
        assert Engaged(f.nodes[j]);
      } else {
        assert a.WinLease? || Engaged(f.nodes[i]);
      }
    }
  }

  /** A stale claim puts two indexers past the election at once. */
  lemma SeizureBreaks(f: Fleet, i: nat, a: Action, f': Fleet)
    requires Step(f, i, a, f') && SeizesFromEngaged(f, i, a)
    ensures !AtMostOne(f', Engaged)
  {
    var j := f.row.value.owner;
    assert Engaged(f'.nodes[i]) && Engaged(f'.nodes[j]);
  }

  // ------------------------------------------------------------ whole runs

  lemma {:induction false} RunCoherent(run: seq<Fleet>, who: seq<nat>, did: seq<Action>, k: nat)
    requires IsRun(run, who, did) && k < |run|
    ensures AllCoherent(run[k])
  {
    if k > 0 {
      RunCoherent(run, who, did, k - 1);
      assert Step(run[k - 1], who[k - 1], did[k - 1], run[k - 1 + 1]);
      CoherentStep(run[k - 1].nodes[who[k - 1]], did[k - 1]);
    }
  }

  lemma {:induction false} OrderlyPrefix(run: seq<Fleet>, who: seq<nat>, did: seq<Action>, k: nat)
    requires IsRun(run, who, did) && k < |run|
    requires forall n :: 0 <= n < k ==> !SeizesFromEngaged(run[n], who[n], did[n])
    ensures AllCoherent(run[k]) && Exclusive(run[k])
  {
    if k > 0 {
      OrderlyPrefix(run, who, did, k - 1);
      assert Step(run[k - 1], who[k - 1], did[k - 1], run[k - 1 + 1]);
      ExclusiveStep(run[k - 1], who[k - 1], did[k - 1], run[k]);
    }
  }

  /**
   * Over every interleaving, at most one indexer is past the election at any
   * moment exactly when no stale claim ever takes the row from an indexer
   * that has not finished demoting.
   */
  lemma ExclusionExactlyWithoutSeizure(run: seq<Fleet>, who: seq<nat>, did: seq<Action>)
    requires IsRun(run, who, did)
    ensures (forall k :: 0 <= k < |run| ==> AtMostOne(run[k], Engaged))
       <==> (forall n :: 0 <= n < |who| ==> !SeizesFromEngaged(run[n], who[n], did[n]))
  {
    if forall n :: 0 <= n < |who| ==> !SeizesFromEngaged(run[n], who[n], did[n]) {
      forall k | 0 <= k < |run|
        ensures AtMostOne(run[k], Engaged)
      {
        OrderlyPrefix(run, who, did, k);
      }
    } else {
      var n :| 0 <= n < |who| && SeizesFromEngaged(run[n], who[n], did[n]);
      SeizureBreaks(run[n], who[n], did[n], run[n + 1]);
    }
  }

  /** Without a seizure (a lease given up only by release has none) at most one indexer has a service up: the row's owner. */
  lemma AtMostOneServing(run: seq<Fleet>, who: seq<nat>, did: seq<Action>, k: nat)
    requires IsRun(run, who, did) && k < |run|
    requires forall n :: 0 <= n < k ==> !SeizesFromEngaged(run[n], who[n], did[n])
    ensures AtMostOne(run[k], Serving)
    ensures forall i :: 0 <= i < |run[k].nodes| && Serving(run[k].nodes[i]) ==> Owns(run[k], i)
  {
    OrderlyPrefix(run, who, did, k);
  }

  lemma OccupiedStep(f: Fleet, i: nat, a: Action, f': Fleet)
    requires AllCoherent(f) && Exclusive(f) && AtMostOne(f, Occupied) && Step(f, i, a, f')
    requires !SeizesFromEngaged(f, i, a) && !WinsBesideDrain(f, i, a)
    ensures AtMostOne(f', Occupied)
  {
    forall p, q | 0 <= p < |f'.nodes| && 0 <= q < |f'.nodes| && Occupied(f'.nodes[p]) && Occupied(f'.nodes[q])
      ensures p == q
    {
      assert p != i ==> Occupied(f.nodes[p]);
      assert q != i ==> Occupied(f.nodes[q]);
      assert a.WinLease? || (Occupied(f'.nodes[i]) ==> Occupied(f.nodes[i]));
    }
  }

  lemma {:induction false} OccupiedPrefix(run: seq<Fleet>, who: seq<nat>, did: seq<Action>, k: nat)
    requires IsRun(run, who, did) && k < |run|
    requires forall n :: 0 <= n < k ==> !SeizesFromEngaged(run[n], who[n], did[n]) && !WinsBesideDrain(run[n], who[n], did[n])
    ensures AtMostOne(run[k], Occupied)
  {
    if k > 0 {
      OccupiedPrefix(run, who, did, k - 1);
      OrderlyPrefix(run, who, did, k - 1);
      assert Step(run[k - 1], who[k - 1], did[k - 1], run[k - 1 + 1]);
      OccupiedStep(run[k - 1], who[k - 1], did[k - 1], run[k]);
    }
  }

  lemma WinningBesideDrainBreaks(f: Fleet, i: nat, a: Action, f': Fleet)
    requires Step(f, i, a, f') && WinsBesideDrain(f, i, a)
    ensures !AtMostOne(f', Occupied)
  {
    var j :| 0 <= j < |f.nodes| && j != i && f.nodes[j].draining;
    assert Occupied(f'.nodes[i]) && Occupied(f'.nodes[j]);
  }

  /**
   * What the demotion order is meant to give, and exactly when it does: over
   * every interleaving no indexer is past the election beside another that is
   * past it or still draining, if and only if no stale claim hits an engaged
   * indexer and no drain outlives its indexer's leadership until the next win.
   */
  lemma DrainExclusionExactly(run: seq<Fleet>, who: seq<nat>, did: seq<Action>)
    requires IsRun(run, who, did)
    ensures (forall k :: 0 <= k < |run| ==> AtMostOne(run[k], Occupied))
       <==> (forall n :: 0 <= n < |who| ==>
               !SeizesFromEngaged(run[n], who[n], did[n]) && !WinsBesideDrain(run[n], who[n], did[n]))
  {
    if forall n :: 0 <= n < |who| ==> !SeizesFromEngaged(run[n], who[n], did[n]) && !WinsBesideDrain(run[n], who[n], did[n]) {
      forall k | 0 <= k < |run|
        ensures AtMostOne(run[k], Occupied)
      {
        OccupiedPrefix(run, who, did, k);
      }
    } else {
      var n :| 0 <= n < |who| && (SeizesFromEngaged(run[n], who[n], did[n]) || WinsBesideDrain(run[n], who[n], did[n]));
      assert Step(run[n], who[n], did[n], run[n + 1]);
      if WinsBesideDrain(run[n], who[n], did[n]) {
        WinningBesideDrainBreaks(run[n], who[n], did[n], run[n + 1]);
      } else {
        var i, j := who[n], run[n].row.value.owner;
        assert Occupied(run[n + 1].nodes[i]) && Occupied(run[n + 1].nodes[j]);
        assert !AtMostOne(run[n + 1], Occupied);
      }
    }
  }

  /** In every run, promotions and demotions of one indexer strictly alternate. */
  lemma PromotionsAlternate(run: seq<Fleet>, who: seq<nat>, did: seq<Action>, k: nat, i: nat)
    requires IsRun(run, who, did) && k < |run| && i < |run[k].nodes|
    ensures Alternates(run[k].nodes[i].log)
    ensures run[k].nodes[i].leader <==> |run[k].nodes[i].log| % 2 == 1
  {
    RunCoherent(run, who, did, k);
  }

  /** The only step that frees the row is the holder's own, and its services are down by then. */
  lemma ServicesStopBeforeRelease(run: seq<Fleet>, who: seq<nat>, did: seq<Action>, n: nat)
    requires IsRun(run, who, did) && n < |who|
    requires run[n].row.Some? && run[n + 1].row == None
    ensures Owns(run[n], who[n]) && run[n].nodes[who[n]].held
    ensures !Engaged(run[n].nodes[who[n]]) && run[n].nodes[who[n]].up == {}
  {
    RunCoherent(run, who, did, n);
    assert Step(run[n], who[n], did[n], run[n + 1]);
  }

  // ------------------------------------------------------------ what an indexer owes

  /** What one step of the fleet does to one indexer: its own statement, or nothing. */
  lemma NodeStep(run: seq<Fleet>, who: seq<nat>, did: seq<Action>, n: nat, i: nat)
    requires IsRun(run, who, did) && n < |who| && i < |run[0].nodes|
    ensures |run[n].nodes| == |run[n + 1].nodes| == |run[0].nodes|
    ensures who[n] != i ==> run[n + 1].nodes[i] == run[n].nodes[i]
    ensures who[n] == i ==> StepIndexer(run[n].nodes[i], did[n]) == Some(run[n + 1].nodes[i])
  {
    SameFleet(run, who, did, n);
    assert Step(run[n], who[n], did[n], run[n + 1]);
  }

  lemma {:induction false} SameFleet(run: seq<Fleet>, who: seq<nat>, did: seq<Action>, k: nat)
    requires IsRun(run, who, did) && k < |run|
    ensures |run[k].nodes| == |run[0].nodes|
  {
    if k > 0 {
      SameFleet(run, who, did, k - 1);
      assert Step(run[k - 1], who[k - 1], did[k - 1], run[k - 1 + 1]);
    }
  }

  /** The services `_promote` has started after so many of its statements. */
  function StartedBy(done: nat): set<Service> {
    if done <= 1 then {} else if done == 2 then {Watcher} else {Watcher, Scheduler}
  }

  /** A holder leads and a leader serves with everything its role owns; only one without the lease goes to the election. */
  ghost predicate Staffed(x: Indexer) {
    match x.pc
    case Top => (x.held ==> x.leader) && (x.leader ==> x.up == x.owned)
    case Waiting => (x.held ==> x.leader) && (x.leader ==> x.up == x.owned)
    case Promote(done) => x.up == x.owned * StartedBy(done)
    case Demote(_) => !x.closing ==> !x.held
    case Acquire => !x.held
    case _ => true
  }

  lemma AllServices(owned: set<Service>)
    ensures owned * {Watcher, Scheduler} + {Drainer} * owned == owned
    ensures owned * {Watcher} + {Scheduler} * owned == owned * {Watcher, Scheduler}
  {
    forall x | x in owned
      ensures x in owned * {Watcher, Scheduler} + {Drainer} * owned
    {
      match x {
        case Watcher =>
        case Scheduler =>
        case Drainer =>
      }
    }
  }

  lemma StaffedPromotion(x: Indexer, done: nat)
    requires Coherent(x) && Staffed(x) && x.pc == Promote(done) && AdvancePromotion(x, done).Some?
    ensures Staffed(AdvancePromotion(x, done).value)
  {
    AllServices(x.owned);
  }

  lemma StaffedStep(x: Indexer, a: Action)
    requires Coherent(x) && Staffed(x) && StepIndexer(x, a).Some?
    ensures Staffed(StepIndexer(x, a).value)
  {
    if a.Advance? && x.pc.Promote? {
      StaffedPromotion(x, x.pc.done);
    }
  }

  lemma {:induction false} RunStaffed(run: seq<Fleet>, who: seq<nat>, did: seq<Action>, k: nat, i: nat)
    requires IsRun(run, who, did) && k < |run| && i < |run[0].nodes|
    ensures |run[k].nodes| == |run[0].nodes| && Staffed(run[k].nodes[i])
  {
    SameFleet(run, who, did, k);
    if k > 0 {
      RunStaffed(run, who, did, k - 1, i);
      RunCoherent(run, who, did, k - 1);
      NodeStep(run, who, did, k - 1, i);
      if who[k - 1] == i {
        StaffedStep(run[k - 1].nodes[i], did[k - 1]);
      }
    }
  }

  /** Between elections, whoever holds the lease leads, and a leader has started every service of its role. */
  lemma LeaderIsFullyStaffed(run: seq<Fleet>, who: seq<nat>, did: seq<Action>, k: nat, i: nat)
    requires IsRun(run, who, did) && k < |run| && i < |run[k].nodes|
    requires run[k].nodes[i].pc.Waiting? || run[k].nodes[i].pc.Top?
    ensures run[k].nodes[i].held ==> run[k].nodes[i].leader
    ensures run[k].nodes[i].leader ==> run[k].nodes[i].up == run[k].nodes[i].owned
  {
    SameFleet(run, who, did, k);
    RunStaffed(run, who, did, k, i);
  }

  /** A leader at the top of its loop that must go: its lease is lost or it was told to stop. */
  ghost predicate MustGo(x: Indexer) {
    x.pc.Top? && x.leader && (!x.held || x.stopRequested)
  }

  /** It is still there, or on the way out, or its demotion has been logged. */
  ghost predicate Going(log: seq<Event>, x: Indexer) {
    || (log == x.log && MustGo(x))
    || (log == x.log && x.pc.Demote? && x.leader)
    || log + [Demoted] <= x.log
  }

  lemma GoingStep(log: seq<Event>, x: Indexer, a: Action)
    requires Coherent(x) && Going(log, x) && StepIndexer(x, a).Some?
    ensures Going(log, StepIndexer(x, a).value)
  {
    var y := StepIndexer(x, a).value;
    assert x.log <= y.log;
    if log == x.log && x.pc == Demote(3) && a.Advance? {
      assert y.log == log + [Demoted];
    }
  }

  lemma {:induction false} LeaderGoes(run: seq<Fleet>, who: seq<nat>, did: seq<Action>, k: nat, n: nat, i: nat)
    requires IsRun(run, who, did) && k <= n < |run| && i < |run[0].nodes|
    requires i < |run[k].nodes| && MustGo(run[k].nodes[i])
    ensures i < |run[n].nodes| && Going(run[k].nodes[i].log, run[n].nodes[i])
    decreases n
  {
    SameFleet(run, who, did, n);
    if k < n {
      LeaderGoes(run, who, did, k, n - 1, i);
      RunCoherent(run, who, did, n - 1);
      NodeStep(run, who, did, n - 1, i);
      if who[n - 1] == i {
        GoingStep(run[k].nodes[i].log, run[n - 1].nodes[i], did[n - 1]);
      }
    }
  }

  /**
   * A leader that finds its lease lost, or is told to stop, steps down: before
   * it tries the lease again, waits, releases or returns, its demotion is
   * logged, and at the election and the release none of its services is up.
   */
  lemma LeaderStepsDown(run: seq<Fleet>, who: seq<nat>, did: seq<Action>, k: nat, n: nat, i: nat)
    requires IsRun(run, who, did) && k < n < |run| && i < |run[k].nodes| && i < |run[n].nodes|
    requires var x := run[k].nodes[i]; x.pc.Top? && x.leader && (!x.held || x.stopRequested)
    requires var y := run[n].nodes[i]; y.pc.Acquire? || y.pc.Waiting? || y.pc.Promote? || y.pc.Releasing? || y.pc.Stopped?
    ensures run[k].nodes[i].log + [Demoted] <= run[n].nodes[i].log
    ensures run[n].nodes[i].pc.Acquire? || run[n].nodes[i].pc.Releasing? || run[n].nodes[i].pc.Stopped? ==> run[n].nodes[i].up == {}
  {
    SameFleet(run, who, did, k);
    LeaderGoes(run, who, did, k, n, i);
    RunCoherent(run, who, did, n);
  }

  /** The steps that take the leadership from an indexer that is serving. */
  predicate Unseats(a: Action) {
    a.HeartbeatLost? || a.RequestStop?
  }

  /** Nothing else does: a holder that is told nothing and loses no heartbeat goes on serving with what it started. */
  lemma {:induction false} LeaderKeepsServing(run: seq<Fleet>, who: seq<nat>, did: seq<Action>, k: nat, n: nat, i: nat)
    requires IsRun(run, who, did) && k <= n < |run| && i < |run[0].nodes| && i < |run[k].nodes|
    requires var x := run[k].nodes[i]; (x.pc.Top? || x.pc.Waiting?) && x.held && !x.stopRequested
    requires forall m :: k <= m < n && who[m] == i ==> !Unseats(did[m])
    ensures i < |run[n].nodes|
    ensures var x, y := run[k].nodes[i], run[n].nodes[i];
            && (y.pc.Top? || y.pc.Waiting?) && y.held && !y.stopRequested
            && y.leader && y.up == y.owned == x.owned && y.log == x.log
    decreases n
  {
    SameFleet(run, who, did, n);
    if k == n {
      RunStaffed(run, who, did, k, i);
    } else {
      LeaderKeepsServing(run, who, did, k, n - 1, i);
      NodeStep(run, who, did, n - 1, i);
    }
  }

  /** Has the indexer tried the lease between two points of a run? */
  ghost predicate Tried(run: seq<Fleet>, i: nat, k: nat, n: nat) {
    exists m :: k < m <= n && m < |run| && i < |run[m].nodes| && run[m].nodes[i].pc.Acquire?
  }

  /** On the way to the election, or out of the loop. */
  ghost predicate Heading(x: Indexer) {
    !x.held && (x.pc.Top? || x.pc.Demote? || x.pc.Releasing? || x.pc.Stopped?)
  }

  lemma HeadingStep(x: Indexer, a: Action)
    requires Heading(x) && StepIndexer(x, a).Some?
    ensures Heading(StepIndexer(x, a).value) || StepIndexer(x, a).value.pc.Acquire?
  {
  }

  lemma TriedGrows(run: seq<Fleet>, i: nat, k: nat, n: nat)
    requires 0 < n < |run| && (Tried(run, i, k, n - 1) || (k < n && i < |run[n].nodes| && run[n].nodes[i].pc.Acquire?))
    ensures Tried(run, i, k, n)
  {
    if Tried(run, i, k, n - 1) {
      var m :| k < m <= n - 1 && m < |run| && i < |run[m].nodes| && run[m].nodes[i].pc.Acquire?;
      assert k < m <= n && m < |run| && i < |run[m].nodes| && run[m].nodes[i].pc.Acquire?;
    } else {
      assert k < n <= n && n < |run| && i < |run[n].nodes| && run[n].nodes[i].pc.Acquire?;
    }
  }

  lemma {:induction false} TriesFirst(run: seq<Fleet>, who: seq<nat>, did: seq<Action>, k: nat, n: nat, i: nat)
    requires IsRun(run, who, did) && k <= n < |run| && i < |run[0].nodes| && i < |run[k].nodes|
    requires run[k].nodes[i].pc.Top? && !run[k].nodes[i].held
    ensures i < |run[n].nodes|
    ensures Tried(run, i, k, n) || Heading(run[n].nodes[i])
    decreases n
  {
    SameFleet(run, who, did, n);
    if k < n {
      TriesFirst(run, who, did, k, n - 1, i);
      NodeStep(run, who, did, n - 1, i);
      if Tried(run, i, k, n - 1) {
        TriedGrows(run, i, k, n);
      } else if who[n - 1] == i {
        HeadingStep(run[n - 1].nodes[i], did[n - 1]);
        if run[n].nodes[i].pc.Acquire? {
          TriedGrows(run, i, k, n);
        }
      }
    }
  }

  /** A standby is hot: without the lease, it never goes back to waiting before it has tried for it. */
  lemma StandbyTries(run: seq<Fleet>, who: seq<nat>, did: seq<Action>, k: nat, n: nat, i: nat)
    requires IsRun(run, who, did) && k < n < |run| && i < |run[k].nodes| && i < |run[n].nodes|
    requires run[k].nodes[i].pc.Top? && !run[k].nodes[i].held
    requires run[n].nodes[i].pc.Waiting? || run[n].nodes[i].pc.Promote?
    ensures exists m :: k < m < n && i < |run[m].nodes| && run[m].nodes[i].pc.Acquire?
  {
    SameFleet(run, who, did, k);
    TriesFirst(run, who, did, k, n, i);
    var m :| k < m <= n && m < |run| && i < |run[m].nodes| && run[m].nodes[i].pc.Acquire?;
  }

  lemma {:induction false} StopStays(run: seq<Fleet>, who: seq<nat>, did: seq<Action>, k: nat, n: nat, i: nat)
    requires IsRun(run, who, did) && k < n < |run| && i < |run[0].nodes| && who[k] == i && did[k].RequestStop?
    requires forall m :: k < m < n && who[m] == i ==> !did[m].Start?
    ensures i < |run[n].nodes| && run[n].nodes[i].stopRequested
    decreases n
  {
    SameFleet(run, who, did, n);
    NodeStep(run, who, did, n - 1, i);
    if k < n - 1 {
      StopStays(run, who, did, k, n - 1, i);
    }
  }

  /** Told to stop and past the test that sees it: on the way out, or out. */
  ghost predicate Leaving(x: Indexer) {
    x.stopRequested && (x.pc.Top? || (x.pc.Demote? && x.closing) || x.pc.Releasing? || x.pc.Stopped?)
  }

  lemma LeavingStep(x: Indexer, a: Action)
    requires Leaving(x) && StepIndexer(x, a).Some? && !a.Start?
    ensures Leaving(StepIndexer(x, a).value)
  {
  }

  /** Once told to stop, the loop's next test ends it: no election, promotion or wait follows until it is started again. */
  lemma {:induction false} StopIsHonoured(run: seq<Fleet>, who: seq<nat>, did: seq<Action>, k: nat, n: nat, p: nat, i: nat)
    requires IsRun(run, who, did) && k < n <= p < |run| && i < |run[0].nodes| && i < |run[n].nodes|
    requires who[k] == i && did[k].RequestStop? && run[n].nodes[i].pc.Top?
    requires forall m :: k < m < p && who[m] == i ==> !did[m].Start?
    ensures i < |run[p].nodes| && Leaving(run[p].nodes[i])
    ensures !run[p].nodes[i].pc.Acquire? && !run[p].nodes[i].pc.Promote? && !run[p].nodes[i].pc.Waiting?
    decreases p
  {
    SameFleet(run, who, did, p);
    if n == p {
      StopStays(run, who, did, k, n, i);
    } else {
      StopIsHonoured(run, who, did, k, n, p - 1, i);
      NodeStep(run, who, did, p - 1, i);
      if who[p - 1] == i {
        LeavingStep(run[p - 1].nodes[i], did[p - 1]);
      }
    }
  }

  // ------------------------------------------------------------ the row

  /** The heartbeat thread gives up while the row still names its indexer. */
  ghost predicate Abandons(f: Fleet, j: nat, a: Action, i: nat) {
    j == i && a.HeartbeatLost? && Owns(f, i)
  }

  ghost predicate OwnsOnlyHeld(f: Fleet, i: nat) {
    Owns(f, i) && i < |f.nodes| ==> f.nodes[i].held
  }

  lemma OwnsOnlyHeldStep(f: Fleet, j: nat, a: Action, f': Fleet, i: nat)
    requires Step(f, j, a, f') && OwnsOnlyHeld(f, i) && i < |f.nodes|
    ensures OwnsOnlyHeld(f', i) <==> !Abandons(f, j, a, i)
  {
  }

  lemma {:induction false} OwnsOnlyHeldPrefix(run: seq<Fleet>, who: seq<nat>, did: seq<Action>, k: nat, i: nat)
    requires IsRun(run, who, did) && k < |run| && i < |run[0].nodes|
    requires forall n :: 0 <= n < k ==> !Abandons(run[n], who[n], did[n], i)
    ensures OwnsOnlyHeld(run[k], i)
  {
    if k > 0 {
      OwnsOnlyHeldPrefix(run, who, did, k - 1, i);
      SameFleet(run, who, did, k - 1);
      assert Step(run[k - 1], who[k - 1], did[k - 1], run[k - 1 + 1]);
      OwnsOnlyHeldStep(run[k - 1], who[k - 1], did[k - 1], run[k], i);
    }
  }

  /**
   * The row names an indexer only while it holds the lease, over the whole of
   * a run, exactly when its heartbeat thread never gives up on a row that is
   * still its own.  In such a run a stopped indexer leaves no row behind.
   */
  lemma RowIsHeldExactly(run: seq<Fleet>, who: seq<nat>, did: seq<Action>, i: nat)
    requires IsRun(run, who, did) && i < |run[0].nodes|
    ensures (forall k :: 0 <= k < |run| ==> OwnsOnlyHeld(run[k], i))
       <==> (forall n :: 0 <= n < |who| ==> !Abandons(run[n], who[n], did[n], i))
    ensures (forall n :: 0 <= n < |who| ==> !Abandons(run[n], who[n], did[n], i)) ==>
              forall k :: 0 <= k < |run| && i < |run[k].nodes| && run[k].nodes[i].pc.Stopped? ==> !Owns(run[k], i)
  {
    if forall n :: 0 <= n < |who| ==> !Abandons(run[n], who[n], did[n], i) {
      forall k | 0 <= k < |run|
        ensures OwnsOnlyHeld(run[k], i)
        ensures i < |run[k].nodes| && run[k].nodes[i].pc.Stopped? ==> !Owns(run[k], i)
      {
        OwnsOnlyHeldPrefix(run, who, did, k, i);
        RunCoherent(run, who, did, k);
      }
    } else {
      var n :| 0 <= n < |who| && Abandons(run[n], who[n], did[n], i);
      SameFleet(run, who, did, n);
      assert Step(run[n], who[n], did[n], run[n + 1]);
      if OwnsOnlyHeld(run[n], i) {
        OwnsOnlyHeldStep(run[n], who[n], did[n], run[n + 1], i);
      }
    }
  }

  /** Does this step write or delete the lease row? */
  predicate WritesRow(f: Fleet, i: nat, a: Action) {
    a.WinLease? || a.Beat? || (a.Advance? && i < |f.nodes| && f.nodes[i].pc.Releasing?)
  }

  lemma {:induction false} RowStays(run: seq<Fleet>, who: seq<nat>, did: seq<Action>, m: nat, n: nat)
    requires IsRun(run, who, did) && m <= n < |run|
    requires forall k :: m <= k < n ==> !WritesRow(run[k], who[k], did[k])
    ensures run[n].row == run[m].row
    decreases n
  {
    if m < n {
      RowStays(run, who, did, m, n - 1);
      assert Step(run[n - 1], who[n - 1], did[n - 1], run[n - 1 + 1]);
    }
  }

  /** Another indexer takes the row only twenty seconds, by its own clock, after the last claim or heartbeat wrote it. */
  lemma HeartbeatDefersClaim(run: seq<Fleet>, who: seq<nat>, did: seq<Action>, m: nat, n: nat)
    requires IsRun(run, who, did) && m < n < |who|
    requires (did[m].WinLease? || did[m].Beat?) && did[n].WinLease? && who[n] != who[m]
    requires forall k :: m < k < n ==> !WritesRow(run[k], who[k], did[k])
    ensures who[m] < |run[m].nodes| && who[n] < |run[n].nodes|
    ensures run[m].nodes[who[m]].clock + 20 < run[n].nodes[who[n]].clock
  {
    assert Step(run[m], who[m], did[m], run[m + 1]);
    RowStays(run, who, did, m + 1, n);
    assert Step(run[n], who[n], did[n], run[n + 1]);
  }

  // ------------------------------------------------------------ the overlap

  const ELECTED: seq<Action> := [Start, Advance, Advance, WinLease, Advance, Advance, Advance, Advance]

  /** An indexer with a drainer, `k` steps after it was created. */
  function Rising(k: nat, clock: int): Indexer
    requires k <= 8
  {
    var x := Indexer({Drainer}, Stopped, false, false, false, false, {}, false, [], clock);
    if k == 0 then x
    else if k == 1 then x.(pc := Top)
    else if k == 2 then x.(pc := Demote(0))
    else if k == 3 then x.(pc := Acquire)
    else if k == 4 then x.(pc := Promote(0), held := true)
    else
      var y := x.(held := true, leader := true, log := [Promoted]);
      if k < 8 then y.(pc := Promote(k - 4)) else y.(pc := Waiting, up := {Drainer}, draining := true)
  }

  lemma RisingStep(k: nat, clock: int)
    requires k < 8
    ensures StepIndexer(Rising(k, clock), ELECTED[k]) == Some(Rising(k + 1, clock))
  {
    var none: set<Service> := {};
    assert none + {Watcher} * {Drainer} == none && none + {Scheduler} * {Drainer} == none;
    assert none + {Drainer} * {Drainer} == {Drainer};
    assert Rising(4, clock).log + [Promoted] == [Promoted];
  }

  const RETIRED: seq<Action> := [RequestStop, Advance, Advance, Advance, Advance, Advance, Advance, Advance]

  /** The same indexer `k` steps into an orderly stop, its drainer still busy. */
  function Retiring(k: nat): Indexer
    requires k <= 8
  {
    var x := Rising(8, 0).(stopRequested := k > 0);
    if k <= 1 then x
    else if k == 2 then x.(pc := Top)
    else if k == 3 then x.(pc := Demote(0), closing := true)
    else if k < 7 then x.(pc := Demote(k - 3), closing := true, up := {})
    else
      var y := x.(up := {}, leader := false, log := [Promoted, Demoted]);
      if k == 7 then y.(pc := Releasing, closing := true) else y.(pc := Stopped, held := false)
  }

  lemma RetiringStep(k: nat)
    requires k < 8
    ensures StepIndexer(Retiring(k), RETIRED[k]) == Some(Retiring(k + 1))
  {
    var none: set<Service> := {};
    assert {Drainer} - {Drainer} == none && none - {Scheduler} == none && none - {Watcher} == none;
    assert [Promoted] + [Demoted] == [Promoted, Demoted];
  }

  // Three runs of two indexers, state by state.

  datatype Script = Script(fleet: Fleet, who: nat, did: Action)

  /** The first is elected, its heartbeat ages out while it serves, the second claims and serves too. */
  function StaleScript(k: nat): Script
    requires k <= 18
  {
    if k < 8 then Script(Fleet(if k < 4 then None else Some(Row(0, 0)), [Rising(k, 0), Rising(0, 0)]), 0, ELECTED[k])
    else if k == 8 then Script(Fleet(Some(Row(0, 0)), [Rising(8, 0), Rising(0, 0)]), 0, Tick(21))
    else if k == 9 then Script(Fleet(Some(Row(0, 0)), [Rising(8, 21), Rising(0, 0)]), 1, Tick(21))
    else Script(Fleet(Some(if k < 14 then Row(0, 0) else Row(1, 21)), [Rising(8, 21), Rising(k - 10, 21)]), 1,
                if k < 18 then ELECTED[k - 10] else Tick(0))
  }

  lemma StaleScriptStep(k: nat)
    requires k < 18
    ensures Step(StaleScript(k).fleet, StaleScript(k).who, StaleScript(k).did, StaleScript(k + 1).fleet)
  {
    if k < 8 {
      RisingStep(k, 0);
    } else if k > 9 {
      RisingStep(k - 10, 21);
    }
  }

  /** Why the condition matters: a stale claim lets two indexers drain the queue together. */
  lemma StaleClaimOverlap() returns (run: seq<Fleet>, who: seq<nat>, did: seq<Action>)
    ensures IsRun(run, who, did)
    ensures |run[0].nodes| == 2 && run[0].nodes[0].clock == run[0].nodes[1].clock
    ensures var last := run[|run| - 1];
            && |last.nodes| == 2 && Drainer in last.nodes[0].up && Drainer in last.nodes[1].up
            && last.nodes[0].draining && last.nodes[1].draining
            && last.nodes[0].clock == last.nodes[1].clock
  {
    run := seq(19, k requires 0 <= k <= 18 => StaleScript(k).fleet);
    who := seq(18, k requires 0 <= k < 18 => StaleScript(k).who);
    did := seq(18, k requires 0 <= k < 18 => StaleScript(k).did);
    forall k | 0 <= k < 18
      ensures Step(run[k], who[k], did[k], run[k + 1])
    {
      StaleScriptStep(k);
    }
  }

  /** The second indexer's clock is 21 seconds ahead, and it claims a row written this very second. */
  function SkewScript(k: nat): Script
    requires k <= 16
  {
    if k < 8 then Script(Fleet(if k < 4 then None else Some(Row(0, 0)), [Rising(k, 0), Rising(0, 21)]), 0, ELECTED[k])
    else Script(Fleet(Some(if k < 12 then Row(0, 0) else Row(1, 21)), [Rising(8, 0), Rising(k - 8, 21)]), 1,
                if k < 16 then ELECTED[k - 8] else Tick(0))
  }

  lemma SkewScriptStep(k: nat)
    requires k < 16
    ensures Step(SkewScript(k).fleet, SkewScript(k).who, SkewScript(k).did, SkewScript(k + 1).fleet)
    ensures !SkewScript(k).did.Tick?
  {
    if k < 8 {
      RisingStep(k, 0);
    } else {
      RisingStep(k - 8, 21);
    }
  }

  /** Each host compares with its own clock, so skew alone, with no time passing, lets two indexers drain together. */
  lemma SkewedClaimOverlap() returns (run: seq<Fleet>, who: seq<nat>, did: seq<Action>)
    ensures IsRun(run, who, did) && forall n :: 0 <= n < |did| ==> !did[n].Tick?
    ensures var last := run[|run| - 1];
            && |last.nodes| == 2 && Drainer in last.nodes[0].up && Drainer in last.nodes[1].up
            && last.nodes[0].draining && last.nodes[1].draining
  {
    run := seq(17, k requires 0 <= k <= 16 => SkewScript(k).fleet);
    who := seq(16, k requires 0 <= k < 16 => SkewScript(k).who);
    did := seq(16, k requires 0 <= k < 16 => SkewScript(k).did);
    forall k | 0 <= k < 16
      ensures Step(run[k], who[k], did[k], run[k + 1]) && !did[k].Tick?
    {
      SkewScriptStep(k);
    }
  }

  /** The first is elected and retires in order, the second is elected after the release. */
  function OrderlyScript(k: nat): Script
    requires k <= 24
  {
    if k < 8 then Script(Fleet(if k < 4 then None else Some(Row(0, 0)), [Rising(k, 0), Rising(0, 0)]), 0, ELECTED[k])
    else if k < 16 then Script(Fleet(Some(Row(0, 0)), [Retiring(k - 8), Rising(0, 0)]), 0, RETIRED[k - 8])
    else Script(Fleet(if k < 20 then None else Some(Row(1, 0)), [Retiring(8), Rising(k - 16, 0)]), 1,
                if k < 24 then ELECTED[k - 16] else Tick(0))
  }

  lemma OrderlyScriptStep(k: nat)
    requires k < 24
    ensures Step(OrderlyScript(k).fleet, OrderlyScript(k).who, OrderlyScript(k).did, OrderlyScript(k + 1).fleet)
    ensures !SeizesFromEngaged(OrderlyScript(k).fleet, OrderlyScript(k).who, OrderlyScript(k).did)
  {
    if k < 8 {
      RisingStep(k, 0);
    } else if k < 16 {
      RetiringStep(k - 8);
    } else {
      RisingStep(k - 16, 0);
    }
  }

  /**
   * No stale claim needed: the old leader stops its services, releases the
   * lease and still has its drainer running when the successor's starts.
   */
  lemma OrderlyHandoverOverlap() returns (run: seq<Fleet>, who: seq<nat>, did: seq<Action>)
    ensures IsRun(run, who, did)
    ensures forall n :: 0 <= n < |who| ==> !SeizesFromEngaged(run[n], who[n], did[n])
    ensures var last := run[|run| - 1];
            && |last.nodes| == 2 && Owns(last, 1)
            && last.nodes[0].up == {} && last.nodes[0].draining && last.nodes[1].draining
  {
    run := seq(25, k requires 0 <= k <= 24 => OrderlyScript(k).fleet);
    who := seq(24, k requires 0 <= k < 24 => OrderlyScript(k).who);
    did := seq(24, k requires 0 <= k < 24 => OrderlyScript(k).did);
    forall k | 0 <= k < 24
      ensures Step(run[k], who[k], did[k], run[k + 1]) && !SeizesFromEngaged(run[k], who[k], did[k])
    {
      OrderlyScriptStep(k);
    }
  }
}
