/**
 * The publish / notify / refresh loop (src/pheasant/cli.py, the graph
 * refresher).  An indexer appends publications and announces some of them;
 * the refresher thread waits, clears the wake event, reads the publication
 * stamp, remembers it and reloads.  Every statement is a step, so
 * publications and announcements may fall between any two of them.
 */
module GraphRefresh {

  import opened Options

  /** What the store returns as publication stamp: a content id or a stat tuple. */
  type Stamp = int

  datatype Pc =
    | Waiting            // in _wake.wait(interval)
    | Woken              // wait returned, event not cleared yet
    | Cleared            // about to read the stamp: the check starts here
    | Changed(stamp: Stamp, at: nat)  // read a stamp that differs from the remembered one
    | Reloading          // remembered it, about to reload
    | Exited

  datatype Replica = Replica(
    published: seq<Stamp>,   // every publication so far, oldest first
    pc: Pc,
    wake: bool,
    stopping: bool,
    seen: Option<Stamp>,     // _seen
    seenAt: nat,             // how many publications there were when `seen` was read
    loadedAt: nat,           // how many there were when the served graph was read
    checkedAt: nat,          // how many there were when the last check started
    announcedAt: nat,        // how many there were at the last announcement
    notified: nat,           // announcements delivered
    covered: nat,            // ... before the last check started
    readFailed: bool         // the last attempt to read the stamp raised
  )

  datatype Action =
    | Publish(stamp: Stamp) | Notify | Stop     // other threads and processes
    | WaitReturns | Clear | ReadStamp | ReadRaises | Remember
    | ReloadSucceeds | ReloadRaises
    | ReloadFindsEmpty   // reload_graph loaded an empty graph and returned without swapping it in

  function Step(r: Replica, a: Action): Option<Replica> {
    match a
    case Publish(stamp) => Some(r.(published := r.published + [stamp]))
    case Notify => Some(r.(wake := true, notified := r.notified + 1, announcedAt := |r.published|))
    case Stop => Some(r.(stopping := true, wake := true))
    case WaitReturns =>
      if r.pc.Waiting? then Some(r.(pc := if r.stopping then Exited else Woken)) else None
    case Clear =>
      if r.pc.Woken? then Some(r.(wake := false, pc := if r.stopping then Exited else Cleared)) else None
    case ReadStamp =>
      if !r.pc.Cleared? then None else
        var n := |r.published|;
        var checked := r.(checkedAt := n, covered := r.notified, readFailed := false);
        if n == 0 || r.seen == Some(r.published[n - 1]) then Some(checked.(pc := Waiting))
        else Some(checked.(pc := Changed(r.published[n - 1], n)))
    case ReadRaises =>
      if r.pc.Cleared? then Some(r.(readFailed := true, pc := Waiting)) else None
    case Remember =>
      if r.pc.Changed? then Some(r.(seen := Some(r.pc.stamp), seenAt := r.pc.at, pc := Reloading)) else None
    case ReloadSucceeds =>
      if r.pc.Reloading? then Some(r.(loadedAt := |r.published|, pc := Waiting)) else None
    case ReloadRaises => if r.pc.Reloading? then Some(r.(pc := Waiting)) else None
    case ReloadFindsEmpty => if r.pc.Reloading? then Some(r.(pc := Waiting)) else None
  }

  /** The two ways a reload ends with the old graph still served. */
  predicate Misses(a: Action) {
    a.ReloadRaises? || a.ReloadFindsEmpty?
  }

  /** A refresher constructed over an engine whose graph was read after `loadedAt` publications. */
  ghost predicate Init(r: Replica) {
    && r.loadedAt <= |r.published|
    && r == Replica(r.published, Waiting, false, false,
                    if r.published == [] then None else Some(r.published[|r.published| - 1]),
                    |r.published|, r.loadedAt, |r.published|, 0, 0, 0, false)
  }

  ghost predicate IsRun(run: seq<Replica>, did: seq<Action>) {
    && |run| == |did| + 1
    && Init(run[0])
    && forall k :: 0 <= k < |did| ==> Step(run[k], did[k]) == Some(run[k + 1])
  }

  // ------------------------------------------------- what every run keeps

  /** Positions lie within the history, and each remembered stamp is the one published there. */
  ghost predicate History(r: Replica) {
    && r.loadedAt <= |r.published| && r.checkedAt <= |r.published|
    && r.seenAt <= r.checkedAt
    && (r.seenAt == 0 ==> r.seen == None)
    && (r.seenAt > 0 ==> r.seen == Some(r.published[r.seenAt - 1]))
    && (r.pc.Changed? ==> 0 < r.pc.at == r.checkedAt && r.pc.stamp == r.published[r.pc.at - 1])
    && (r.pc.Reloading? ==> 0 < r.seenAt == r.checkedAt)
  }

  /** An announcement no check has covered is still to be looked at, or the last look raised. */
  ghost predicate Announcements(r: Replica) {
    && r.announcedAt <= |r.published|
    && r.covered <= r.notified
    && (r.covered < r.notified && !r.pc.Exited? ==> r.wake || r.pc.Woken? || r.pc.Cleared? || r.readFailed)
    && (r.covered == r.notified ==> r.announcedAt <= r.checkedAt)
  }

  ghost predicate Inv(r: Replica) {
    History(r) && Announcements(r)
  }

  lemma HistoryStep(r: Replica, a: Action)
    requires History(r) && Step(r, a).Some?
    ensures History(Step(r, a).value)
  {
  }

  lemma AnnouncementsStep(r: Replica, a: Action)
    requires Announcements(r) && Step(r, a).Some?
    ensures Announcements(Step(r, a).value)
  {
  }

  lemma InvStep(r: Replica, a: Action)
    requires Inv(r) && Step(r, a).Some?
    ensures Inv(Step(r, a).value)
  {
    HistoryStep(r, a);
    AnnouncementsStep(r, a);
  }

  lemma {:induction false} RunInv(run: seq<Replica>, did: seq<Action>, k: nat)
    requires IsRun(run, did) && k < |run|
    ensures Inv(run[k])
  {
    if k > 0 {
      RunInv(run, did, k - 1);
      assert Step(run[k - 1], did[k - 1]) == Some(run[k - 1 + 1]);
      InvStep(run[k - 1], did[k - 1]);
    }
  }

  // ------------------------------------------------- what a replica serves

  /** The stamp of the graph being served, if one was ever published and read. */
  ghost function Served(r: Replica): Option<Stamp> {
    if 0 < r.loadedAt <= |r.published| then Some(r.published[r.loadedAt - 1]) else None
  }

  ghost predicate ServesLatest(r: Replica) {
    r.published == [] || Served(r) == Some(r.published[|r.published| - 1])
  }

  /** The served graph is one that was published at or after position `n`. */
  ghost predicate AsNewAs(r: Replica, n: nat) {
    n == 0 || exists i :: n - 1 <= i < |r.published| && Served(r) == Some(r.published[i])
  }

  /** Between checks: nothing of the last one is left to do. */
  predicate Idle(r: Replica) {
    r.pc.Waiting? || r.pc.Woken? || r.pc.Cleared?
  }

  /** Between checks the replica serves a graph at least as new as the last check could see. */
  ghost predicate Abreast(r: Replica) {
    Idle(r) ==> AsNewAs(r, r.checkedAt)
  }

  /** A check that nothing was published since leaves the latest graph served. */
  ghost predicate CurrentWhenIdle(r: Replica) {
    Idle(r) && r.checkedAt == |r.published| ==> ServesLatest(r)
  }

  /** The check finds on top the stamp it remembered earlier, and so keeps another graph. */
  ghost predicate SkipsRepeat(r: Replica, a: Action) {
    && a.ReadStamp? && r.pc.Cleared?
    && 0 < r.seenAt < |r.published| && r.published[r.seenAt - 1] == r.published[|r.published| - 1]
    && !ServesLatest(r)
  }

  /** A reload changes nothing and the graph served is older than what the check saw. */
  ghost predicate FailsBehind(r: Replica, a: Action) {
    Misses(a) && r.pc.Reloading? && !AsNewAs(r, r.checkedAt)
  }

  /** A reload of the latest publication changes nothing while another graph is served. */
  ghost predicate FailsOnLatest(r: Replica, a: Action) {
    Misses(a) && r.pc.Reloading? && r.checkedAt == |r.published| && !ServesLatest(r)
  }

  lemma AsNewAsLatest(r: Replica)
    ensures AsNewAs(r, |r.published|) <==> ServesLatest(r)
  {
    var n := |r.published|;
    assert n > 0 && ServesLatest(r) ==> n - 1 <= n - 1 < n && Served(r) == Some(r.published[n - 1]);
  }

  lemma AsNewAsWeakens(r: Replica, m: nat, n: nat)
    requires m <= n && AsNewAs(r, n)
    ensures AsNewAs(r, m)
  {
    if m > 0 {
      var i :| n - 1 <= i < |r.published| && Served(r) == Some(r.published[i]);
      assert m - 1 <= i < |r.published| && Served(r) == Some(r.published[i]);
    }
  }

  /** Publications leave the served graph where it was in the history. */
  lemma AsNewAsPersists(r: Replica, r': Replica, n: nat)
    requires AsNewAs(r, n) && r.published <= r'.published && r'.loadedAt == r.loadedAt <= |r.published|
    ensures AsNewAs(r', n)
  {
    if n > 0 {
      var i :| n - 1 <= i < |r.published| && Served(r) == Some(r.published[i]);
      assert n - 1 <= i < |r'.published| && Served(r') == Some(r'.published[i]);
    }
  }

  lemma AbreastStep(r: Replica, a: Action)
    requires Inv(r) && Abreast(r) && Step(r, a).Some?
    requires !SkipsRepeat(r, a) && !FailsBehind(r, a)
    ensures Abreast(Step(r, a).value)
  {
    var r' := Step(r, a).value;
    if a.ReloadSucceeds? {
      AsNewAsLatest(r');
      AsNewAsWeakens(r', r'.checkedAt, |r'.published|);
    } else if a.ReadStamp? && r'.pc.Waiting? {
      AsNewAsLatest(r);
      if r.published != [] && r.seenAt == |r.published| {
        assert r.checkedAt == |r.published|;
      }
      AsNewAsPersists(r, r', |r.published|);
    } else if Idle(r') {
      AsNewAsPersists(r, r', r.checkedAt);
    }
  }

  lemma SkippedFallsBehind(r: Replica, a: Action)
    requires Inv(r) && Step(r, a).Some? && (SkipsRepeat(r, a) || FailsBehind(r, a))
    ensures !Abreast(Step(r, a).value)
  {
    var r' := Step(r, a).value;
    if AsNewAs(r', r'.checkedAt) {
      AsNewAsLatest(r');
      if Misses(a) {
        AsNewAsPersists(r', r, r.checkedAt);
      }
    }
  }

  lemma {:induction false} AbreastPrefix(run: seq<Replica>, did: seq<Action>, k: nat)
    requires IsRun(run, did) && k < |run| && ServesLatest(run[0])
    requires forall n :: 0 <= n < k ==> !SkipsRepeat(run[n], did[n]) && !FailsBehind(run[n], did[n])
    ensures Inv(run[k]) && Abreast(run[k])
  {
    RunInv(run, did, k);
    if k == 0 {
      AsNewAsLatest(run[0]);
    } else {
      AbreastPrefix(run, did, k - 1);
      assert Step(run[k - 1], did[k - 1]) == Some(run[k - 1 + 1]);
      AbreastStep(run[k - 1], did[k - 1]);
    }
  }

  /**
   * Over every run: between checks the replica is always as new as its last
   * check exactly when it started on the latest graph, no check met its own
   * remembered stamp again over another graph, and no reload raised while
   * behind.
   */
  lemma AbreastExactly(run: seq<Replica>, did: seq<Action>)
    requires IsRun(run, did)
    ensures (forall k :: 0 <= k < |run| ==> Abreast(run[k]))
       <==> && ServesLatest(run[0])
            && forall n :: 0 <= n < |did| ==> !SkipsRepeat(run[n], did[n]) && !FailsBehind(run[n], did[n])
  {
    if ServesLatest(run[0]) && forall n :: 0 <= n < |did| ==> !SkipsRepeat(run[n], did[n]) && !FailsBehind(run[n], did[n]) {
      forall k | 0 <= k < |run|
        ensures Abreast(run[k])
      {
        AbreastPrefix(run, did, k);
      }
    } else if ServesLatest(run[0]) {
      var n :| 0 <= n < |did| && (SkipsRepeat(run[n], did[n]) || FailsBehind(run[n], did[n]));
      RunInv(run, did, n);
      SkippedFallsBehind(run[n], did[n]);
      assert !Abreast(run[n + 1]);
    } else {
      AsNewAsLatest(run[0]);
      assert !Abreast(run[0]);
    }
  }

  /** The latest stamp is remembered only where the latest graph is served. */
  ghost predicate RememberedIsServed(r: Replica) {
    r.seenAt == |r.published| && !r.pc.Changed? && !r.pc.Reloading? ==> ServesLatest(r)
  }

  lemma CurrentStep(r: Replica, a: Action)
    requires Inv(r) && CurrentWhenIdle(r) && RememberedIsServed(r) && Step(r, a).Some?
    requires !SkipsRepeat(r, a) && !FailsOnLatest(r, a)
    ensures CurrentWhenIdle(Step(r, a).value) && RememberedIsServed(Step(r, a).value)
  {
  }

  lemma MissedIsBehind(r: Replica, a: Action)
    requires Inv(r) && Step(r, a).Some? && (SkipsRepeat(r, a) || FailsOnLatest(r, a))
    ensures !CurrentWhenIdle(Step(r, a).value)
  {
  }

  lemma {:induction false} CurrentPrefix(run: seq<Replica>, did: seq<Action>, k: nat)
    requires IsRun(run, did) && k < |run| && ServesLatest(run[0])
    requires forall n :: 0 <= n < k ==> !SkipsRepeat(run[n], did[n]) && !FailsOnLatest(run[n], did[n])
    ensures Inv(run[k]) && CurrentWhenIdle(run[k]) && RememberedIsServed(run[k])
  {
    RunInv(run, did, k);
    if k > 0 {
      CurrentPrefix(run, did, k - 1);
      assert Step(run[k - 1], did[k - 1]) == Some(run[k - 1 + 1]);
      CurrentStep(run[k - 1], did[k - 1]);
    }
  }

  /**
   * Over every run: an undisturbed check always leaves the latest graph served
   * exactly when the start was on time, no check met its remembered stamp
   * again over another graph, and no reload of the latest publication raised.
   */
  lemma CurrentExactly(run: seq<Replica>, did: seq<Action>)
    requires IsRun(run, did)
    ensures (forall k :: 0 <= k < |run| ==> CurrentWhenIdle(run[k]))
       <==> && ServesLatest(run[0])
            && forall n :: 0 <= n < |did| ==> !SkipsRepeat(run[n], did[n]) && !FailsOnLatest(run[n], did[n])
  {
    if ServesLatest(run[0]) && forall n :: 0 <= n < |did| ==> !SkipsRepeat(run[n], did[n]) && !FailsOnLatest(run[n], did[n]) {
      forall k | 0 <= k < |run|
        ensures CurrentWhenIdle(run[k])
      {
        CurrentPrefix(run, did, k);
      }
    } else if ServesLatest(run[0]) {
      var n :| 0 <= n < |did| && (SkipsRepeat(run[n], did[n]) || FailsOnLatest(run[n], did[n]));
      RunInv(run, did, n);
      assert Step(run[n], did[n]) == Some(run[n + 1]);
      MissedIsBehind(run[n], did[n]);
      assert !CurrentWhenIdle(run[n + 1]);
    } else {
      assert !CurrentWhenIdle(run[0]);
    }
  }

  /** The served graph was read no earlier than the remembered stamp, except while the reload is due. */
  ghost predicate NotOlderThanSeen(r: Replica) {
    !r.pc.Reloading? ==> r.seenAt <= r.loadedAt
  }

  lemma NotOlderStep(r: Replica, a: Action)
    requires Inv(r) && NotOlderThanSeen(r) && Step(r, a).Some?
    requires !(Misses(a) && r.loadedAt < r.seenAt)
    ensures NotOlderThanSeen(Step(r, a).value)
  {
  }

  lemma {:induction false} NotOlderPrefix(run: seq<Replica>, did: seq<Action>, k: nat)
    requires IsRun(run, did) && k < |run| && NotOlderThanSeen(run[0])
    requires forall n :: 0 <= n < k ==> !(Misses(did[n]) && run[n].loadedAt < run[n].seenAt)
    ensures NotOlderThanSeen(run[k])
  {
    if k > 0 {
      NotOlderPrefix(run, did, k - 1);
      RunInv(run, did, k - 1);
      assert Step(run[k - 1], did[k - 1]) == Some(run[k - 1 + 1]);
      NotOlderStep(run[k - 1], did[k - 1]);
    }
  }

  /** Never older than the remembered stamp: exactly when it starts so and no reload raises while it is older. */
  lemma NotOlderExactly(run: seq<Replica>, did: seq<Action>)
    requires IsRun(run, did)
    ensures (forall k :: 0 <= k < |run| ==> NotOlderThanSeen(run[k]))
       <==> && run[0].loadedAt == |run[0].published|
            && forall n :: 0 <= n < |did| ==> !(Misses(did[n]) && run[n].loadedAt < run[n].seenAt)
  {
    if run[0].loadedAt == |run[0].published|
       && forall n :: 0 <= n < |did| ==> !(Misses(did[n]) && run[n].loadedAt < run[n].seenAt) {
      forall k | 0 <= k < |run|
        ensures NotOlderThanSeen(run[k])
      {
        NotOlderPrefix(run, did, k);
      }
    } else if run[0].loadedAt == |run[0].published| {
      var n :| 0 <= n < |did| && Misses(did[n]) && run[n].loadedAt < run[n].seenAt;
      assert Step(run[n], did[n]) == Some(run[n + 1]);
      assert !NotOlderThanSeen(run[n + 1]);
    } else {
      assert !NotOlderThanSeen(run[0]);
    }
  }

  // ------------------------------------------------- announcements

  predicate Looks(a: Action) {
    a.ReadStamp? || a.ReadRaises?
  }

  /** Since the announcement at step `j` the thread has looked at the store. */
  ghost predicate CheckedSince(did: seq<Action>, j: nat, k: nat) {
    exists i :: j < i < k && i < |did| && Looks(did[i])
  }

  lemma {:induction false} AnnouncementPending(run: seq<Replica>, did: seq<Action>, j: nat, k: nat)
    requires IsRun(run, did) && j < k < |run| && did[j].Notify?
    ensures run[k].wake || run[k].pc.Woken? || run[k].pc.Cleared? || run[k].pc.Exited? || CheckedSince(did, j, k)
    decreases k
  {
    assert Step(run[k - 1], did[k - 1]) == Some(run[k - 1 + 1]);
    if j < k - 1 {
      AnnouncementPending(run, did, j, k - 1);
      if CheckedSince(did, j, k - 1) {
        var i :| j < i < k - 1 && i < |did| && Looks(did[i]);
        assert j < i < k && Looks(did[i]);
      } else if Looks(did[k - 1]) {
        assert j < k - 1 < k && Looks(did[k - 1]);
      }
    }
  }

  /**
   * No announcement is lost in the clear: whenever the thread is back at the
   * wait with the event clear, it has looked at the store after every
   * announcement, and seen what was announced unless the last look raised.
   */
  lemma EveryAnnouncementIsChecked(run: seq<Replica>, did: seq<Action>, j: nat, k: nat)
    requires IsRun(run, did) && j < k < |run| && did[j].Notify?
    requires run[k].pc.Waiting? && !run[k].wake
    ensures CheckedSince(did, j, k)
    ensures !run[k].readFailed ==> run[k].covered == run[k].notified && run[k].announcedAt <= run[k].checkedAt
  {
    AnnouncementPending(run, did, j, k);
    RunInv(run, did, k);
  }

  /** Back at the wait with nothing pending, something at least as new as the last announcement is served. */
  ghost predicate AnnouncedServed(r: Replica) {
    r.pc.Waiting? && !r.wake && !r.readFailed ==> AsNewAs(r, r.announcedAt)
  }

  /** Older than announced and with nothing else pending, the check sees no new stamp or its reload changes nothing. */
  ghost predicate DropsAnnouncement(r: Replica, a: Action) {
    && !r.wake && !AsNewAs(r, r.announcedAt)
    && (|| (a.ReadStamp? && r.pc.Cleared? && r.published != [] && r.seen == Some(r.published[|r.published| - 1]))
        || (Misses(a) && r.pc.Reloading? && !r.readFailed))
  }

  lemma AnnouncedStep(r: Replica, a: Action)
    requires Inv(r) && AnnouncedServed(r) && Step(r, a).Some?
    ensures AnnouncedServed(Step(r, a).value) <==> !DropsAnnouncement(r, a)
  {
    var r' := Step(r, a).value;
    if a.ReloadSucceeds? {
      AsNewAsLatest(r');
      AsNewAsWeakens(r', r'.announcedAt, |r'.published|);
    } else if AsNewAs(r, r.announcedAt) && r'.announcedAt == r.announcedAt {
      AsNewAsPersists(r, r', r.announcedAt);
    } else if DropsAnnouncement(r, a) && AsNewAs(r', r'.announcedAt) {
      AsNewAsPersists(r', r, r.announcedAt);
    }
  }

  lemma {:induction false} AnnouncedPrefix(run: seq<Replica>, did: seq<Action>, k: nat)
    requires IsRun(run, did) && k < |run|
    requires forall n :: 0 <= n < k ==> !DropsAnnouncement(run[n], did[n])
    ensures AnnouncedServed(run[k])
  {
    if k > 0 {
      AnnouncedPrefix(run, did, k - 1);
      RunInv(run, did, k - 1);
      assert Step(run[k - 1], did[k - 1]) == Some(run[k - 1 + 1]);
      AnnouncedStep(run[k - 1], did[k - 1]);
    }
  }

  /**
   * Over every run: whenever the thread is back at the wait with nothing
   * pending, what was announced is served, exactly when no check that is older
   * than announced skips its stamp and no reload of one changes nothing.
   */
  lemma AnnouncedServedExactly(run: seq<Replica>, did: seq<Action>)
    requires IsRun(run, did)
    ensures (forall k :: 0 <= k < |run| ==> AnnouncedServed(run[k]))
       <==> (forall n :: 0 <= n < |did| ==> !DropsAnnouncement(run[n], did[n]))
  {
    if forall n :: 0 <= n < |did| ==> !DropsAnnouncement(run[n], did[n]) {
      forall k | 0 <= k < |run|
        ensures AnnouncedServed(run[k])
      {
        AnnouncedPrefix(run, did, k);
      }
    } else {
      var n :| 0 <= n < |did| && DropsAnnouncement(run[n], did[n]);
      RunInv(run, did, n);
      assert Step(run[n], did[n]) == Some(run[n + 1]);
      if AnnouncedServed(run[n]) {
        AnnouncedStep(run[n], did[n]);
      }
    }
  }

  ghost predicate Distinct(stamps: seq<Stamp>) {
    forall i, j :: 0 <= i < j < |stamps| ==> stamps[i] != stamps[j]
  }

  /** No missed publication: back at the wait with the event clear, something at least as new as announced is served. */
  lemma AnnouncedIsServed(run: seq<Replica>, did: seq<Action>, k: nat)
    requires IsRun(run, did) && k < |run| && ServesLatest(run[0])
    requires forall n :: 0 <= n < k ==> !SkipsRepeat(run[n], did[n]) && !FailsBehind(run[n], did[n])
    requires run[k].pc.Waiting? && !run[k].wake && !run[k].readFailed
    ensures AsNewAs(run[k], run[k].announcedAt)
    ensures Distinct(run[k].published) ==> run[k].announcedAt <= run[k].loadedAt
  {
    AbreastPrefix(run, did, k);
    AsNewAsWeakens(run[k], run[k].announcedAt, run[k].checkedAt);
    if Distinct(run[k].published) {
      DistinctIsByPosition(run[k], run[k].announcedAt);
    }
  }

  lemma DistinctIsByPosition(r: Replica, n: nat)
    requires AsNewAs(r, n) && Distinct(r.published)
    ensures n <= r.loadedAt
  {
    if n > 0 {
      var i :| n - 1 <= i < |r.published| && Served(r) == Some(r.published[i]);
      assert r.published[i] == r.published[r.loadedAt - 1];
    }
  }

  /** With stamps that never come back, an undisturbed check ends with the newest publication itself loaded. */
  lemma UndisturbedCheckIsCurrent(run: seq<Replica>, did: seq<Action>, k: nat)
    requires IsRun(run, did) && k < |run| && ServesLatest(run[0])
    requires forall n :: 0 <= n < k ==> !FailsOnLatest(run[n], did[n])
    requires Distinct(run[k].published)
    requires Idle(run[k]) && run[k].checkedAt == |run[k].published|
    ensures run[k].loadedAt == |run[k].published|
  {
    forall n | 0 <= n < k
      ensures !SkipsRepeat(run[n], did[n])
    {
      PublishedGrows(run, did, n, k);
    }
    CurrentPrefix(run, did, k);
  }

  lemma {:induction false} PublishedGrows(run: seq<Replica>, did: seq<Action>, j: nat, k: nat)
    requires IsRun(run, did) && j <= k < |run|
    ensures run[j].published <= run[k].published
    decreases k
  {
    if j < k {
      PublishedGrows(run, did, j, k - 1);
      assert Step(run[k - 1], did[k - 1]) == Some(run[k - 1 + 1]);
    }
  }

  // ------------------------------------------------- what happens after a miss

  /** Another graph is served although the latest stamp is remembered, and nothing is under way. */
  ghost predicate Stuck(r: Replica) {
    && !ServesLatest(r)
    && r.seen == Some(r.published[|r.published| - 1])
    && !r.pc.Changed? && !r.pc.Reloading?
  }

  /** However often it polls or is woken, nothing is reloaded until a stamp other than the remembered one is published. */
  lemma {:induction false} StuckUntilNewStamp(run: seq<Replica>, did: seq<Action>, k: nat, n: nat)
    requires IsRun(run, did) && k <= n < |run| && Stuck(run[k])
    requires forall i :: k <= i < n && did[i].Publish? ==> run[k].seen == Some(did[i].stamp)
    ensures Stuck(run[n]) && run[n].loadedAt == run[k].loadedAt && run[n].seen == run[k].seen
    decreases n
  {
    if k < n {
      var m := n - 1;
      StuckUntilNewStamp(run, did, k, m);
      RunInv(run, did, m);
      assert Step(run[m], did[m]) == Some(run[m + 1]);
      assert did[m].Publish? ==> run[m].seen == Some(did[m].stamp);
      StuckStep(run[m], did[m]);
    }
  }

  lemma StuckStep(r: Replica, a: Action)
    requires Inv(r) && Stuck(r) && Step(r, a).Some?
    requires a.Publish? ==> r.seen == Some(a.stamp)
    ensures var r' := Step(r, a).value; Stuck(r') && r'.loadedAt == r.loadedAt && r'.seen == r.seen
  {
    assert Served(Step(r, a).value) == Served(r);
  }

  /** A reload of the latest publication that raises or finds nothing is not retried by any later poll or announcement. */
  lemma FailedReloadIsNotRetried(run: seq<Replica>, did: seq<Action>, k: nat, n: nat)
    requires IsRun(run, did) && k < n < |run| && FailsOnLatest(run[k], did[k])
    requires forall i :: k < i < n && did[i].Publish? ==> run[k].seen == Some(did[i].stamp)
    ensures !ServesLatest(run[n]) && run[n].loadedAt == run[k].loadedAt
  {
    RunInv(run, did, k);
    assert Step(run[k], did[k]) == Some(run[k + 1]);
    StuckUntilNewStamp(run, did, k + 1, n);
  }

  /** A publication between the engine's load and the refresher's first look is missed in the same way. */
  lemma LateStartStaysBehind(run: seq<Replica>, did: seq<Action>, n: nat)
    requires IsRun(run, did) && n < |run| && !ServesLatest(run[0])
    requires forall i :: 0 <= i < n && did[i].Publish? ==> run[0].seen == Some(did[i].stamp)
    ensures !ServesLatest(run[n]) && run[n].loadedAt == run[0].loadedAt
  {
    StuckUntilNewStamp(run, did, 0, n);
  }

  lemma {:induction false} QuietUntilCheck(run: seq<Replica>, did: seq<Action>, p: nat, q: nat)
    requires IsRun(run, did) && p <= q < |run|
    requires !run[p].pc.Changed? && !run[p].pc.Reloading?
    requires forall i :: p <= i < q ==> !did[i].Publish? && !did[i].ReadStamp?
    ensures run[q].published == run[p].published && run[q].seen == run[p].seen
    decreases q
  {
    if p < q {
      QuietUntilCheck(run, did, p, q - 1);
      QuietPc(run, did, p, q - 1);
      assert Step(run[q - 1], did[q - 1]) == Some(run[q - 1 + 1]);
    }
  }

  lemma {:induction false} QuietPc(run: seq<Replica>, did: seq<Action>, p: nat, q: nat)
    requires IsRun(run, did) && p <= q < |run|
    requires !run[p].pc.Changed? && !run[p].pc.Reloading?
    requires forall i :: p <= i < q ==> !did[i].ReadStamp?
    ensures !run[q].pc.Changed? && !run[q].pc.Reloading?
    decreases q
  {
    if p < q {
      QuietPc(run, did, p, q - 1);
      assert Step(run[q - 1], did[q - 1]) == Some(run[q - 1 + 1]);
    }
  }

  /** What does get it out: the first check after a publication with another stamp starts a reload of it. */
  lemma NewStampIsNoticed(run: seq<Replica>, did: seq<Action>, k: nat, p: nat, q: nat)
    requires IsRun(run, did) && k <= p < q < |did| && Stuck(run[k])
    requires forall i :: k <= i < p && did[i].Publish? ==> run[k].seen == Some(did[i].stamp)
    requires did[p].Publish? && run[k].seen != Some(did[p].stamp)
    requires did[q].ReadStamp? && forall i :: p < i < q ==> !did[i].Publish? && !did[i].ReadStamp?
    ensures run[q + 1].pc == Changed(did[p].stamp, |run[p].published| + 1)
  {
    StuckUntilNewStamp(run, did, k, p);
    assert Step(run[p], did[p]) == Some(run[p + 1]);
    QuietUntilCheck(run, did, p + 1, q);
    assert Step(run[q], did[q]) == Some(run[q + 1]);
  }

  /** A stamp read that raises is retried: nothing was remembered, so the next check that reads reloads. */
  lemma FailedReadIsRetried(run: seq<Replica>, did: seq<Action>, k: nat, q: nat)
    requires IsRun(run, did) && k < q < |did| && did[k].ReadRaises? && did[q].ReadStamp?
    requires forall i :: k < i < q ==> !did[i].Publish? && !did[i].ReadStamp?
    requires run[k].published != [] && run[k].seen != Some(run[k].published[|run[k].published| - 1])
    ensures run[q + 1].pc == Changed(run[k].published[|run[k].published| - 1], |run[k].published|)
  {
    assert Step(run[k], did[k]) == Some(run[k + 1]);
    QuietUntilCheck(run, did, k + 1, q);
    assert Step(run[q], did[q]) == Some(run[q + 1]);
  }

  const POLL: seq<Action> := [WaitReturns, Clear, ReadStamp, Remember, ReloadSucceeds]

  /**
   * The poll is a backstop: in every run, announced or not, a thread at its
   * wait can go through a check, and if the latest stamp is not the remembered
   * one and the reload succeeds, the latest graph is served after it.
   */
  lemma PollCatchesUp(run: seq<Replica>, did: seq<Action>, k: nat) returns (path: seq<Replica>)
    requires IsRun(run, did) && k < |run| && run[k].pc.Waiting? && !run[k].stopping
    ensures |path| >= 4 && path[0] == run[k]
    ensures forall j :: 0 <= j < |path| - 1 && j < 5 ==> Step(path[j], POLL[j]) == Some(path[j + 1])
    ensures var r := path[|path| - 1];
            && r.pc.Waiting? && !r.wake && r.checkedAt == |r.published| && r.published == run[k].published
            && if r.published == [] || run[k].seen == Some(r.published[|r.published| - 1])
               then |path| == 4 && r.loadedAt == run[k].loadedAt && r.seen == run[k].seen
               else |path| == 6 && r.loadedAt == |r.published| && r.seen == Some(r.published[|r.published| - 1])
  {
    var r := run[k];
    var woken := Step(r, POLL[0]).value;
    var cleared := Step(woken, POLL[1]).value;
    var checked := Step(cleared, POLL[2]).value;
    path := [r, woken, cleared, checked];
    if checked.pc.Changed? {
      var remembered := Step(checked, POLL[3]).value;
      path := path + [remembered, Step(remembered, POLL[4]).value];
    }
  }

  lemma {:induction false} StopStays(run: seq<Replica>, did: seq<Action>, j: nat, k: nat)
    requires IsRun(run, did) && j < k < |run| && did[j].Stop?
    ensures run[k].stopping
    decreases k
  {
    assert Step(run[k - 1], did[k - 1]) == Some(run[k - 1 + 1]);
    if j < k - 1 {
      StopStays(run, did, j, k - 1);
    }
  }

  lemma StoppedStep(r: Replica, a: Action)
    requires r.stopping && (r.pc.Waiting? || r.pc.Woken? || r.pc.Exited?) && Step(r, a).Some?
    ensures var r' := Step(r, a).value;
            && (r'.pc.Waiting? || r'.pc.Woken? || r'.pc.Exited?) && !Looks(a)
            && r'.loadedAt == r.loadedAt && r'.seen == r.seen
  {
  }

  /** Once stopped, a thread that is not in a check starts no other one, and the graph stays the one it was. */
  lemma {:induction false} StopEndsRefresh(run: seq<Replica>, did: seq<Action>, j: nat, k: nat, n: nat)
    requires IsRun(run, did) && j < k <= n < |run| && did[j].Stop?
    requires run[k].pc.Waiting? || run[k].pc.Woken? || run[k].pc.Exited?
    ensures run[n].pc.Waiting? || run[n].pc.Woken? || run[n].pc.Exited?
    ensures run[n].loadedAt == run[k].loadedAt && run[n].seen == run[k].seen
    ensures forall m :: k <= m < n ==> !Looks(did[m])
    decreases n
  {
    if k < n {
      StopEndsRefresh(run, did, j, k, n - 1);
      StopStays(run, did, j, n - 1);
      assert Step(run[n - 1], did[n - 1]) == Some(run[n - 1 + 1]);
      StoppedStep(run[n - 1], did[n - 1]);
    }
  }

  const FAILING: seq<Action> := [
    Publish(1), WaitReturns, Clear, ReadStamp, Remember, ReloadRaises,
    WaitReturns, Clear, ReadStamp, Notify, WaitReturns, Clear, ReadStamp]

  /** The replica after `k` steps of `FAILING`, having started on publication 0. */
  function Failing(k: nat): Replica
    requires k <= 13
  {
    var r := Replica([0], Waiting, false, false, Some(0), 1, 1, 1, 0, 0, 0, false);
    if k == 0 then r
    else if k < 4 then r.(published := [0, 1], pc := if k == 1 then Waiting else if k == 2 then Woken else Cleared)
    else if k == 4 then r.(published := [0, 1], pc := Changed(1, 2), checkedAt := 2)
    else
      var q := r.(published := [0, 1], seen := Some(1), seenAt := 2, checkedAt := 2);
      if k == 5 then q.(pc := Reloading)
      else if k < 10 then q.(pc := if k == 7 then Woken else if k == 8 then Cleared else Waiting)
      else q.(notified := 1, announcedAt := 2, wake := k < 12, covered := if k == 13 then 1 else 0,
              pc := if k == 11 then Woken else if k == 12 then Cleared else Waiting)
  }

  lemma FailingStep(k: nat)
    requires k < 13
    ensures Step(Failing(k), FAILING[k]) == Some(Failing(k + 1))
  {
    if k == 0 {
      assert [0] + [1] == [0, 1];
    } else if k == 3 {
    } else if k == 4 {
    } else if k == 5 {
    } else if k == 8 {
    } else if k == 9 {
    } else if k == 11 {
    } else if k == 12 {
    }
  }

  /** "Will retry" refuted: after the reload raised, a poll and an announced check both leave the old graph served. */
  lemma FailedReloadRun() returns (run: seq<Replica>, did: seq<Action>)
    ensures IsRun(run, did) && ServesLatest(run[0]) && Distinct(run[|run| - 1].published)
    ensures |did| == 13 && did[5] == ReloadRaises && did[8] == did[12] == ReadStamp && did[9] == Notify
    ensures var r := run[|run| - 1];
            && r.pc.Waiting? && !r.wake && r.checkedAt == |r.published| == r.announcedAt
            && r.loadedAt == run[0].loadedAt && !ServesLatest(r)
  {
    run := seq(14, k requires 0 <= k <= 13 => Failing(k));
    did := FAILING;
    forall k | 0 <= k < 13
      ensures Step(run[k], did[k]) == Some(run[k + 1])
    {
      FailingStep(k);
    }
  }

  const REPEAT: seq<Action> := [
    Publish(1), WaitReturns, Clear, ReadStamp, Publish(2), Remember, ReloadSucceeds,
    Publish(1), WaitReturns, Clear, ReadStamp]

  /** The replica after `k` steps of `REPEAT`. */
  function Repeating(k: nat): Replica
    requires k <= 11
  {
    var r := Replica([], Waiting, false, false, None, 0, 0, 0, 0, 0, 0, false);
    if k == 0 then r
    else if k < 4 then r.(published := [1], pc := if k == 1 then Waiting else if k == 2 then Woken else Cleared)
    else if k < 6 then r.(published := if k == 4 then [1] else [1, 2], pc := Changed(1, 1), checkedAt := 1)
    else
      var q := r.(published := [1, 2], seen := Some(1), seenAt := 1, checkedAt := 1);
      if k == 6 then q.(pc := Reloading)
      else if k == 7 then q.(loadedAt := 2)
      else q.(loadedAt := 2, published := [1, 2, 1], checkedAt := if k < 11 then 1 else 3,
              pc := if k == 9 then Woken else if k == 10 then Cleared else Waiting)
  }

  lemma RepeatingStep(k: nat)
    requires k < 11
    ensures Step(Repeating(k), REPEAT[k]) == Some(Repeating(k + 1))
  {
    if k == 0 {
      assert Repeating(0).published + [1] == [1];
    } else if k == 4 {
      assert [1] + [2] == [1, 2];
    } else if k == 7 {
      assert [1, 2] + [1] == [1, 2, 1];
    } else if k == 3 {
    } else if k == 5 {
    } else if k == 6 {
    } else if k == 10 {
    }
  }

  /** Re-publishing an earlier stamp after the graph moved on also leaves the older graph in place. */
  lemma RepeatedStampIsMissed() returns (run: seq<Replica>, did: seq<Action>)
    ensures IsRun(run, did) && (forall n :: 0 <= n < |did| ==> !Misses(did[n])) && run[0].loadedAt == |run[0].published|
    ensures var r := run[|run| - 1];
            && r.pc.Waiting? && r.checkedAt == |r.published|
            && 0 < r.loadedAt <= |r.published| && r.published[r.loadedAt - 1] != r.published[|r.published| - 1]
  {
    run := seq(12, k requires 0 <= k <= 11 => Repeating(k));
    did := REPEAT;
    forall k | 0 <= k < 11
      ensures Step(run[k], did[k]) == Some(run[k + 1])
    {
      RepeatingStep(k);
    }
  }

  const LATE: seq<Action> := [WaitReturns, Clear, ReadStamp, Notify, WaitReturns, Clear, ReadStamp]

  /** The replica after `k` steps of `LATE`: publication 1 came after the engine's load and before the first look. */
  function Late(k: nat): Replica
    requires k <= 7
  {
    var r := Replica([0, 1], Waiting, false, false, Some(1), 2, 1, 2, 0, 0, 0, false);
    if k < 4 then r.(pc := if k == 1 then Woken else if k == 2 then Cleared else Waiting)
    else r.(notified := 1, announcedAt := 2, wake := k < 6, covered := if k == 7 then 1 else 0,
            pc := if k == 5 then Woken else if k == 6 then Cleared else Waiting)
  }

  lemma LateStep(k: nat)
    requires k < 7
    ensures Step(Late(k), LATE[k]) == Some(Late(k + 1))
  {
    if k == 2 {
    } else if k == 3 {
    } else if k == 5 {
    } else if k == 6 {
    }
  }

  /** A refresher built after a publication its engine had not loaded: a poll and an announced check change nothing. */
  lemma LateStartRun() returns (run: seq<Replica>, did: seq<Action>)
    ensures IsRun(run, did) && Distinct(run[|run| - 1].published) && forall n :: 0 <= n < |did| ==> !Misses(did[n])
    ensures |did| == 7 && did[2] == did[6] == ReadStamp && did[3] == Notify
    ensures var r := run[|run| - 1];
            && r.pc.Waiting? && !r.wake && r.checkedAt == |r.published| == r.announcedAt
            && r.loadedAt == run[0].loadedAt && !ServesLatest(r)
  {
    run := seq(8, k requires 0 <= k <= 7 => Late(k));
    did := LATE;
    forall k | 0 <= k < 7
      ensures Step(run[k], did[k]) == Some(run[k + 1])
    {
      LateStep(k);
    }
  }
}
