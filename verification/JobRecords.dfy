/**
 * One job and its per-source progress records (src/pheasant/jobs.py): phase
 * time accounting, the rollup derived from the records, and what finishing
 * does to it.  Times are exact reals; the clock values callers pass need not
 * be ordered, since `now` is read before the registry lock is taken.
 */
module JobRecords {

  import opened Options

  /** Statuses are the source's own strings. */
  predicate Terminal(status: string) {
    status == "succeeded" || status == "failed" || status == "cancelled"
  }

  // ------------------------------------------------------------ phase time

  ghost function TotalOf(m: map<string, real>): real
    decreases |m|
  {
    if m == map[] then 0.0 else
      var k :| k in m;
      assert |m - {k}| < |m| by { assert m == (m - {k})[k := m[k]]; }
      m[k] + TotalOf(m - {k})
  }

  lemma {:induction false} TotalWithout(m: map<string, real>, k: string)
    requires k in m
    ensures TotalOf(m) == m[k] + TotalOf(m - {k})
    decreases |m|
  {
    var j :| j in m && TotalOf(m) == m[j] + TotalOf(m - {j});
    if j != k {
      assert |m - {j}| < |m| by { assert m == (m - {j})[j := m[j]]; }
      assert |m - {k}| < |m| by { assert m == (m - {k})[k := m[k]]; }
      TotalWithout(m - {j}, k);
      TotalWithout(m - {k}, j);
      assert m - {j} - {k} == m - {k} - {j};
    }
  }

  function Get(m: map<string, real>, k: string): real {
    if k in m then m[k] else 0.0
  }

  lemma TotalUpdate(m: map<string, real>, k: string, v: real)
    ensures TotalOf(m[k := v]) == TotalOf(m) - Get(m, k) + v
  {
    TotalWithout(m[k := v], k);
    assert m[k := v] - {k} == m - {k};
    if k in m {
      TotalWithout(m, k);
    } else {
      assert m - {k} == m;
    }
  }

  datatype Record = Record(
    source: string,
    phase: string,
    current: int,
    total: Option<int>,
    detail: string,
    status: string,
    banked: map<string, real>,  // phase_seconds
    phaseStarted: real,
    lastSeen: real,             // _last_monotonic
    created: real               // the first phaseStarted, kept to state conservation
  )
  {
    predicate Active() {
      !Terminal(status)
    }
  }

  function NewRecord(source: string, born: real): Record {
    Record(source, "queued", 0, None, "", "running", map[], born, born, born)
  }

  datatype Update = Update(phase: Option<string>, current: Option<int>, total: Option<int>, detail: Option<string>)

  function Or<T>(o: Option<T>, otherwise: T): T {
    if o.Some? then o.value else otherwise
  }

  /** Bank the time the outgoing phase took; a phase that ran before accumulates. */
  function Bank(r: Record, now: real): map<string, real> {
    r.banked[r.phase := Get(r.banked, r.phase) + (now - r.phaseStarted)]
  }

  function Observe(r: Record, u: Update, now: real): Record {
    var switched :=
      if u.phase.Some? && u.phase.value != r.phase
      then r.(banked := Bank(r, now), phaseStarted := now, phase := u.phase.value, total := None)
      else r;
    switched.(total := if u.total.Some? then u.total else switched.total,
              current := Or(u.current, r.current),
              detail := Or(u.detail, r.detail),
              lastSeen := now)
  }

  /** Truthiness of an optional count: present and not zero. */
  predicate Known(total: Option<int>) {
    total.Some? && total.value != 0
  }

  function FinishRecord(r: Record, status: string, now: real): Record {
    r.(banked := Bank(r, now), phaseStarted := now, status := status,
       current := if Known(r.total) then r.total.value else r.current)
  }

  /** The `phase_seconds` a reader is shown. */
  function Rendered(r: Record, now: real): map<string, real> {
    if r.Active() then Bank(r, now) else r.banked
  }

  /** What an update leaves: what it brings, else what was there; a count does not outlive its phase. */
  lemma ObserveLeaves(r: Record, u: Update, now: real)
    ensures var o := Observe(r, u, now);
            && o.source == r.source && o.status == r.status && o.created == r.created && o.lastSeen == now
            && o.phase == (if u.phase.Some? then u.phase.value else r.phase)
            && o.current == (if u.current.Some? then u.current.value else r.current)
            && o.detail == (if u.detail.Some? then u.detail.value else r.detail)
            && o.total == (if u.total.Some? then u.total else if o.phase != r.phase then None else r.total)
            && o.phaseStarted == (if o.phase != r.phase then now else r.phaseStarted)
    ensures forall p :: Get(Observe(r, u, now).banked, p)
              == Get(r.banked, p) + if p == r.phase != Observe(r, u, now).phase then now - r.phaseStarted else 0.0
  {
  }

  /** What finishing leaves: the given status, a counter at its total if that is known, and the running phase's time banked. */
  lemma FinishLeaves(r: Record, status: string, now: real)
    ensures var f := FinishRecord(r, status, now);
            && f.source == r.source && f.phase == r.phase && f.total == r.total && f.detail == r.detail
            && f.created == r.created && f.lastSeen == r.lastSeen && f.status == status && f.phaseStarted == now
            && f.current == (if r.total.Some? && r.total.value != 0 then r.total.value else r.current)
    ensures forall p :: Get(FinishRecord(r, status, now).banked, p)
              == Get(r.banked, p) + if p == r.phase then now - r.phaseStarted else 0.0
  {
  }

  /** Updates with the times they come at. */
  type Events = seq<(Update, real)>

  function ObserveAll(r: Record, events: Events): Record
    decreases events
  {
    if events == [] then r else ObserveAll(Observe(r, events[0].0, events[0].1), events[1..])
  }

  /**
   * The time spent in a phase, told from the updates alone: every interval
   * between one update and the next counts for the phase it began in.
   */
  function Spent(p: string, phase: string, since: real, events: Events, now: real): real
    decreases events
  {
    if events == [] then (if phase == p then now - since else 0.0)
    else (if phase == p then events[0].1 - since else 0.0)
         + Spent(p, if events[0].0.phase.Some? then events[0].0.phase.value else phase, events[0].1, events[1..], now)
  }

  lemma SpentSplits(p: string, phase: string, since: real, t: real, events: Events, now: real)
    ensures Spent(p, phase, since, events, now) == (if phase == p then t - since else 0.0) + Spent(p, phase, t, events, now)
  {
  }

  lemma {:induction false} PhaseTimesFrom(r: Record, events: Events, now: real, p: string)
    requires r.Active()
    ensures Get(Rendered(ObserveAll(r, events), now), p) == Get(r.banked, p) + Spent(p, r.phase, r.phaseStarted, events, now)
    decreases events
  {
    if events != [] {
      var (u, t) := events[0];
      ObserveLeaves(r, u, t);
      PhaseTimesFrom(Observe(r, u, t), events[1..], now, p);
      SpentSplits(p, r.phase, r.phaseStarted, t, events[1..], now);
    }
  }

  /**
   * "Where did the hour go": whatever updates came and in whatever order their
   * clocks ran, each phase is shown with the time spent in it, visits added up.
   */
  lemma PhaseTimesExact(source: string, born: real, events: Events, now: real, p: string)
    ensures Get(Rendered(ObserveAll(NewRecord(source, born), events), now), p) == Spent(p, "queued", born, events, now)
  {
    PhaseTimesFrom(NewRecord(source, born), events, now, p);
  }

  /** Finishing freezes the times a reader is shown. */
  lemma FinishFreezesTimes(r: Record, status: string, now: real, later: real)
    requires r.Active() && Terminal(status)
    ensures Rendered(FinishRecord(r, status, now), later) == Rendered(r, now)
  {
  }

  /** Every second since creation is banked under exactly one phase. */
  ghost predicate Conserved(r: Record) {
    TotalOf(r.banked) == r.phaseStarted - r.created
  }

  lemma ObserveConserves(r: Record, u: Update, now: real)
    requires Conserved(r)
    ensures Conserved(Observe(r, u, now))
  {
    TotalUpdate(r.banked, r.phase, Get(r.banked, r.phase) + (now - r.phaseStarted));
  }

  lemma FinishConserves(r: Record, status: string, now: real)
    requires Conserved(r)
    ensures Conserved(FinishRecord(r, status, now))
  {
    TotalUpdate(r.banked, r.phase, Get(r.banked, r.phase) + (now - r.phaseStarted));
  }

  /** What a reader sees adds up: to the age of a live record, to the lifetime of a finished one. */
  lemma RenderedAddsUp(r: Record, now: real)
    requires Conserved(r)
    ensures TotalOf(Rendered(r, now)) == if r.Active() then now - r.created else r.phaseStarted - r.created
  {
    TotalUpdate(r.banked, r.phase, Get(r.banked, r.phase) + (now - r.phaseStarted));
  }

  // ------------------------------------------------------------ rollup

  datatype Rollup = Rollup(phase: string, current: int, total: Option<int>, detail: string)

  function SumCurrent(rs: seq<Record>): int {
    if rs == [] then 0 else rs[0].current + SumCurrent(rs[1..])
  }

  function SumTotal(rs: seq<Record>): int {
    if rs == [] then 0 else Or(rs[0].total, 0) + SumTotal(rs[1..])
  }

  /** Both sums add up record by record. */
  lemma {:induction false} SumsConcat(rs: seq<Record>, qs: seq<Record>)
    ensures SumCurrent(rs + qs) == SumCurrent(rs) + SumCurrent(qs)
    ensures SumTotal(rs + qs) == SumTotal(rs) + SumTotal(qs)
  {
    if rs == [] {
      assert rs + qs == qs;
    } else {
      SumsConcat(rs[1..], qs);
      assert (rs + qs)[1..] == rs[1..] + qs;
    }
  }

  lemma SumsOfOne(r: Record)
    ensures SumCurrent([r]) == r.current && SumTotal([r]) == if r.total.Some? then r.total.value else 0
  {
    assert [r][1..] == [];
  }

  predicate AllKnown(rs: seq<Record>) {
    forall i :: 0 <= i < |rs| ==> Known(rs[i].total)
  }

  function ActiveOnly(rs: seq<Record>): (a: seq<Record>)
    ensures forall r :: r in a <==> r in rs && r.Active()
  {
    if rs == [] then [] else
      (if rs[0].Active() then [rs[0]] else []) + ActiveOnly(rs[1..])
  }

  function Times(rs: seq<Record>): (times: seq<real>)
    ensures |times| == |rs| && forall i :: 0 <= i < |rs| ==> times[i] == rs[i].lastSeen
  {
    seq(|rs|, i requires 0 <= i < |rs| => rs[i].lastSeen)
  }

  /** Where the latest time stands, the first of them if there are several. */
  function LatestAt(times: seq<real>): (k: nat)
    requires times != []
    ensures k < |times|
    ensures forall i :: 0 <= i < |times| ==> times[i] <= times[k]
    ensures forall i :: 0 <= i < k ==> times[i] < times[k]
  {
    if |times| == 1 then 0 else
      var k := LatestAt(times[..|times| - 1]);
      if times[|times| - 1] > times[k] then |times| - 1 else k
  }

  /** `max(..., key=_last_monotonic)`: the first of the latest. */
  function Newest(rs: seq<Record>): (r: Record)
    requires rs != []
    ensures exists k :: 0 <= k < |rs| && r == rs[k] && FirstLatest(rs, k)
  {
    var k := LatestAt(Times(rs));
    assert FirstLatest(rs, k);
    rs[k]
  }

  /** No record was updated later and every earlier one was updated before it. */
  ghost predicate FirstLatest(rs: seq<Record>, k: nat)
    requires k < |rs|
  {
    && (forall j :: 0 <= j < |rs| ==> rs[j].lastSeen <= rs[k].lastSeen)
    && (forall j :: 0 <= j < k ==> rs[j].lastSeen < rs[k].lastSeen)
  }

  /** Running, or one of a job where nothing runs. */
  ghost predicate Competes(rs: seq<Record>, r: Record) {
    r.Active() || forall q :: q in rs ==> !q.Active()
  }

  /** Of the records that compete, this one was updated last, the first such if there are several. */
  ghost predicate Leads(rs: seq<Record>, i: nat) {
    && i < |rs| && Competes(rs, rs[i])
    && (forall j :: 0 <= j < |rs| && Competes(rs, rs[j]) ==> rs[j].lastSeen <= rs[i].lastSeen)
    && (forall j :: 0 <= j < i && Competes(rs, rs[j]) ==> rs[j].lastSeen < rs[i].lastSeen)
  }

  /** Where the k-th running record stands: the ones before it are the earlier running ones. */
  lemma {:induction false} ActiveAt(rs: seq<Record>, k: nat) returns (i: nat)
    requires k < |ActiveOnly(rs)|
    ensures i < |rs| && rs[i] == ActiveOnly(rs)[k] && ActiveOnly(rs[..i]) == ActiveOnly(rs)[..k]
  {
    if rs[0].Active() && k == 0 {
      i := 0;
    } else {
      i := ActiveAt(rs[1..], if rs[0].Active() then k - 1 else k);
      i := i + 1;
      assert rs[..i][1..] == rs[1..][..i - 1];
    }
  }

  lemma NewestLeads(rs: seq<Record>)
    requires rs != []
    ensures var r := Newest(if ActiveOnly(rs) == [] then rs else ActiveOnly(rs));
            (exists i: nat :: Leads(rs, i) && rs[i] == r) && LatestOfItsKind(rs, r)
  {
    if ActiveOnly(rs) == [] {
      var k :| 0 <= k < |rs| && Newest(rs) == rs[k] && FirstLatest(rs, k);
      NoneRunningLeads(rs, k);
      LeaderIsLatest(rs, k);
    } else {
      var active := ActiveOnly(rs);
      var k :| 0 <= k < |active| && Newest(active) == active[k] && FirstLatest(active, k);
      var i := ActiveAt(rs, k);
      RunningLeads(rs, i, k);
      LeaderIsLatest(rs, i);
    }
  }

  /** A running record unless none runs, and none of the same kind was updated later. */
  ghost predicate LatestOfItsKind(rs: seq<Record>, r: Record) {
    && r in rs && (r.Active() || forall q :: q in rs ==> !q.Active())
    && (forall q :: q in rs && q.Active() == r.Active() ==> q.lastSeen <= r.lastSeen)
  }

  lemma LeaderIsLatest(rs: seq<Record>, i: nat)
    requires Leads(rs, i)
    ensures LatestOfItsKind(rs, rs[i])
  {
  }

  lemma NoneRunningLeads(rs: seq<Record>, k: nat)
    requires k < |rs| && ActiveOnly(rs) == [] && FirstLatest(rs, k)
    ensures Leads(rs, k)
  {
    forall q | q in rs
      ensures !q.Active()
    {
      assert q !in ActiveOnly(rs);
    }
  }

  lemma RunningLeads(rs: seq<Record>, i: nat, k: nat)
    requires i < |rs| && k < |ActiveOnly(rs)| && rs[i] == ActiveOnly(rs)[k] && FirstLatest(ActiveOnly(rs), k)
    requires ActiveOnly(rs[..i]) == ActiveOnly(rs)[..k]
    ensures Leads(rs, i)
  {
    var active := ActiveOnly(rs);
    assert rs[i] in active && rs[i] in rs;
    forall j | 0 <= j < |rs| && Competes(rs, rs[j])
      ensures rs[j].lastSeen <= rs[i].lastSeen
    {
      assert rs[j] in active;
    }
    forall j | 0 <= j < i && Competes(rs, rs[j])
      ensures rs[j].lastSeen < rs[i].lastSeen
    {
      assert rs[..i][j] in rs[..i];
      assert rs[j] in active[..k];
    }
  }

  /** The record that names the phase: the latest running one, or the latest of all. */
  function Headline(rs: seq<Record>): (r: Record)
    requires rs != []
    ensures LatestOfItsKind(rs, r)
  {
    NewestLeads(rs);
    Newest(if ActiveOnly(rs) == [] then rs else ActiveOnly(rs))
  }

  /** Some record leads, only one does, and it is the headline. */
  lemma HeadlineIsLeader(rs: seq<Record>, i: nat)
    requires i < |rs|
    ensures Leads(rs, i) ==> Headline(rs) == rs[i]
    ensures exists k: nat :: Leads(rs, k)
  {
    NewestLeads(rs);
    var k: nat :| Leads(rs, k) && Headline(rs) == rs[k];
    if Leads(rs, i) {
      LeaderIsUnique(rs, i, k);
    }
  }

  lemma LeaderIsUnique(rs: seq<Record>, i: nat, k: nat)
    requires Leads(rs, i) && Leads(rs, k)
    ensures i == k
  {
    assert rs[i].lastSeen <= rs[k].lastSeen && rs[k].lastSeen <= rs[i].lastSeen;
  }

  function Denominator(rs: seq<Record>): Option<int> {
    if rs != [] && AllKnown(rs) then Some(SumTotal(rs)) else None
  }

  function Recompute(p: Rollup, rs: seq<Record>): Rollup {
    if rs == [] then p else
      var newest := Headline(rs);
      Rollup(newest.phase, SumCurrent(rs), Denominator(rs),
             if |rs| > 1 then "[" + newest.source + "] " + newest.detail else newest.detail)
  }

  /** The bar has a total exactly when every record has one, and it is their sum. */
  lemma DenominatorIsSum(rs: seq<Record>)
    requires rs != []
    ensures Denominator(rs).Some? <==> forall r :: r in rs ==> r.total.Some? && r.total.value != 0
    ensures Denominator(rs).Some? ==> Denominator(rs).value == SumTotal(rs)
  {
    assert forall k :: 0 <= k < |rs| ==> rs[k] in rs;
  }

  /** What the rollup shows: the leading record's phase and text, and the sums over all records. */
  lemma RollupShows(p: Rollup, rs: seq<Record>, i: nat)
    requires Leads(rs, i)
    ensures var shown := Recompute(p, rs);
            && shown.phase == rs[i].phase && shown.current == SumCurrent(rs) && shown.total == Denominator(rs)
            && shown.detail == (if |rs| == 1 then rs[i].detail else "[" + rs[i].source + "] " + rs[i].detail)
  {
    HeadlineIsLeader(rs, i);
  }

  lemma RollupOfOne(p: Rollup, r: Record)
    ensures Recompute(p, [r]) == Rollup(r.phase, r.current, if r.total.Some? && r.total.value != 0 then r.total else None, r.detail)
  {
    SumsOfOne(r);
    DenominatorIsSum([r]);
    assert Headline([r]) in [r];
  }

  // ------------------------------------------------------------ a job

  datatype Job = Job(id: string, kind: string, targets: seq<string>, status: string, progress: Rollup, sources: seq<Record>)
  {
    predicate Active() {
      !Terminal(status)
    }
  }

  /** Position of a source's record in insertion order, or the length when there is none. */
  function IndexOf(rs: seq<Record>, name: string): (i: nat)
    ensures i <= |rs|
    ensures i < |rs| ==> rs[i].source == name
    ensures forall j :: 0 <= j < i ==> rs[j].source != name
  {
    if rs == [] then 0 else if rs[0].source == name then 0 else 1 + IndexOf(rs[1..], name)
  }

  function WithRecord(rs: seq<Record>, name: string, born: real): seq<Record> {
    if IndexOf(rs, name) < |rs| then rs else rs + [NewRecord(name, born)]
  }

  function Seeded(targets: seq<string>, born: real): seq<Record> {
    if targets == [] then [] else WithRecord(Seeded(targets[..|targets| - 1], born), targets[|targets| - 1], born)
  }

  function NewJob(id: string, kind: string, targets: seq<string>, born: real): Job {
    Job(id, kind, targets, "running", Rollup("starting", 0, None, ""), Seeded(targets, born))
  }

  /** `sources.pop(name, None)`. */
  function Without(rs: seq<Record>, name: string): seq<Record> {
    var i := IndexOf(rs, name);
    if i < |rs| then rs[..i] + rs[i + 1..] else rs
  }

  /** Which record an update is about, and the records it is applied to. */
  function Addressed(job: Job, source: Option<string>): (string, seq<Record>) {
    if source.None? then (if |job.sources| == 1 then job.sources[0].source else "*", job.sources)
    else if source.value != "*" then (source.value, Without(job.sources, "*"))
    else ("*", job.sources)
  }

  /** The update folded into the named record, which is made first if there is none. */
  function Observed(kept: seq<Record>, name: string, u: Update, now: real, born: real): seq<Record> {
    var rs := WithRecord(kept, name, born);
    var i := IndexOf(rs, name);
    if i < |rs| then rs[i := Observe(rs[i], u, now)] else rs
  }

  function ProgressJob(job: Job, source: Option<string>, u: Update, now: real, born: real): Job {
    if !job.Active() then job else
      var (name, kept) := Addressed(job, source);
      var rs := Observed(kept, name, u, now, born);
      job.(sources := rs, progress := Recompute(job.progress, rs))
  }

  function FinishActive(rs: seq<Record>, status: string, now: real): (fs: seq<Record>)
    ensures |fs| == |rs|
    ensures forall i :: 0 <= i < |rs| ==> fs[i] == if rs[i].Active() then FinishRecord(rs[i], status, now) else rs[i]
  {
    if rs == [] then [] else
      [if rs[0].Active() then FinishRecord(rs[0], status, now) else rs[0]] + FinishActive(rs[1..], status, now)
  }

  /** `finish`: no terminal guard, and the rollup is recomputed after the phase is set. */
  function FinishJob(job: Job, status: string, now: real): Job {
    var rs := FinishActive(job.sources, status, now);
    var p := Recompute(job.progress.(phase := status), rs);
    job.(status := status, sources := rs, progress := if Known(p.total) then p.(current := p.total.value) else p)
  }

  function FinishSourceJob(job: Job, source: string, status: string, now: real): Job {
    var i := IndexOf(job.sources, source);
    if !job.Active() || i == |job.sources| || !job.sources[i].Active() then job else
      var rs := job.sources[i := FinishRecord(job.sources[i], status, now)];
      job.(sources := rs, progress := Recompute(job.progress, rs))
  }

  // ------------------------------------------------------------ what jobs keep

  ghost predicate UniqueNames(rs: seq<Record>) {
    forall i, j :: 0 <= i < j < |rs| ==> rs[i].source != rs[j].source
  }

  ghost predicate AllConserved(rs: seq<Record>) {
    forall i :: 0 <= i < |rs| ==> Conserved(rs[i])
  }

  /** Source names are unique, no second is lost, and the bar's denominator is that of the records. */
  ghost predicate GoodJob(job: Job) {
    && UniqueNames(job.sources)
    && AllConserved(job.sources)
    && job.progress.total == Denominator(job.sources)
  }

  lemma WithRecordGood(rs: seq<Record>, name: string, born: real)
    requires UniqueNames(rs) && AllConserved(rs)
    ensures UniqueNames(WithRecord(rs, name, born)) && AllConserved(WithRecord(rs, name, born))
    ensures IndexOf(WithRecord(rs, name, born), name) < |WithRecord(rs, name, born)|
  {
    var out := WithRecord(rs, name, born);
    if IndexOf(rs, name) == |rs| {
      assert out[|rs|].source == name;
      assert Conserved(NewRecord(name, born));
    }
  }

  lemma {:induction false} SeededGood(targets: seq<string>, born: real)
    ensures UniqueNames(Seeded(targets, born)) && AllConserved(Seeded(targets, born))
    ensures forall i :: 0 <= i < |Seeded(targets, born)| ==> Seeded(targets, born)[i].total == None
  {
    if targets != [] {
      SeededGood(targets[..|targets| - 1], born);
      WithRecordGood(Seeded(targets[..|targets| - 1], born), targets[|targets| - 1], born);
    }
  }

  /** A job starts with one queued record for each of its targets, and no other. */
  lemma {:induction false} SeededExactly(targets: seq<string>, born: real, r: Record)
    ensures r in Seeded(targets, born)
            <==> r.source in targets && r == Record(r.source, "queued", 0, None, "", "running", map[], born, born, born)
  {
    if targets != [] {
      var init, last := targets[..|targets| - 1], targets[|targets| - 1];
      SeededExactly(init, born, r);
      SeededExactly(init, born, NewRecord(last, born));
      var rs := Seeded(init, born);
      assert r.source in targets <==> r.source in init || r.source == last;
      var k := IndexOf(rs, last);
      if k < |rs| {
        SeededExactly(init, born, rs[k]);
        assert rs[k] == NewRecord(last, born);
      }
    }
  }

  lemma NewJobGood(id: string, kind: string, targets: seq<string>, born: real)
    ensures GoodJob(NewJob(id, kind, targets, born))
  {
    SeededGood(targets, born);
    var rs := Seeded(targets, born);
    assert rs != [] ==> !Known(rs[0].total);
  }

  lemma WithoutGood(rs: seq<Record>, name: string)
    requires UniqueNames(rs) && AllConserved(rs)
    ensures UniqueNames(Without(rs, name)) && AllConserved(Without(rs, name))
  {
  }

  lemma ReplaceGood(rs: seq<Record>, i: nat, u: Update, now: real)
    requires UniqueNames(rs) && AllConserved(rs) && i < |rs|
    ensures var out := rs[i := Observe(rs[i], u, now)]; UniqueNames(out) && AllConserved(out)
  {
    ObserveConserves(rs[i], u, now);
  }

  lemma ProgressGood(job: Job, source: Option<string>, u: Update, now: real, born: real)
    requires GoodJob(job)
    ensures GoodJob(ProgressJob(job, source, u, now, born))
  {
    if job.Active() {
      var (name, kept) := Addressed(job, source);
      AddressedGood(job, source);
      ObservedGood(kept, name, u, now, born);
      var rs := WithRecord(kept, name, born);
      var i := IndexOf(rs, name);
      RolledUpGood(job, rs[i := Observe(rs[i], u, now)]);
    }
  }

  lemma AddressedGood(job: Job, source: Option<string>)
    requires GoodJob(job)
    ensures UniqueNames(Addressed(job, source).1) && AllConserved(Addressed(job, source).1)
  {
    WithoutGood(job.sources, "*");
  }

  lemma RolledUpGood(job: Job, rs: seq<Record>)
    requires rs != [] && UniqueNames(rs) && AllConserved(rs)
    ensures GoodJob(job.(sources := rs, progress := Recompute(job.progress, rs)))
  {
  }

  lemma ObservedGood(kept: seq<Record>, name: string, u: Update, now: real, born: real)
    requires UniqueNames(kept) && AllConserved(kept)
    ensures var rs := WithRecord(kept, name, born);
            var i := IndexOf(rs, name);
            i < |rs| && UniqueNames(rs[i := Observe(rs[i], u, now)]) && AllConserved(rs[i := Observe(rs[i], u, now)])
  {
    WithRecordGood(kept, name, born);
    var rs := WithRecord(kept, name, born);
    ReplaceGood(rs, IndexOf(rs, name), u, now);
  }

  lemma WithoutMembers(rs: seq<Record>, name: string, r: Record)
    requires UniqueNames(rs)
    ensures r in Without(rs, name) <==> r in rs && r.source != name
  {
    var i := IndexOf(rs, name);
    if i < |rs| {
      SplitMembers(rs, i, r);
      assert forall j :: 0 <= j < |rs| && j != i ==> rs[j].source != rs[i].source;
    }
  }

  lemma SplitMembers(rs: seq<Record>, i: nat, r: Record)
    requires i < |rs|
    ensures r in rs[..i] + rs[i + 1..] <==> exists j :: 0 <= j < |rs| && j != i && rs[j] == r
  {
    assert forall j :: i < j < |rs| ==> rs[i + 1..][j - i - 1] == rs[j];
  }

  /** An update about a real source clears the placeholder and leaves every other source's record as it was. */
  lemma ProgressTouchesOne(job: Job, name: string, u: Update, now: real, born: real, r: Record)
    requires GoodJob(job) && job.Active() && name != "*" && r.source != name
    ensures r in ProgressJob(job, Some(name), u, now, born).sources <==> r in job.sources && r.source != "*"
  {
    WithoutMembers(job.sources, "*", r);
    var kept := Without(job.sources, "*");
    WithoutGood(job.sources, "*");
    WithRecordGood(kept, name, born);
    var rs := WithRecord(kept, name, born);
    assert r in rs <==> r in kept;
    var i := IndexOf(rs, name);
    ReplacedMembers(rs, i, Observe(rs[i], u, now), r);
  }

  /** The record an update is about: what it is folded into. */
  function Before(job: Job, name: string, born: real): Record {
    var i := IndexOf(job.sources, name);
    if i < |job.sources| then job.sources[i] else NewRecord(name, born)
  }

  /**
   * An update changes one record of a running job, made first if there is
   * none, and drops the placeholder once a real source reports.  Without a
   * name it is about the only record, or else the placeholder.
   */
  lemma ProgressFolds(job: Job, source: Option<string>, u: Update, now: real, born: real, r: Record)
    requires GoodJob(job) && job.Active()
    ensures var name := if source.Some? then source.value else if |job.sources| == 1 then job.sources[0].source else "*";
            var done := ProgressJob(job, source, u, now, born);
            && (done.id, done.kind, done.targets, done.status) == (job.id, job.kind, job.targets, job.status)
            && UniqueNames(done.sources) && done.progress == Recompute(job.progress, done.sources)
            && (r.source == name ==> (r in done.sources <==> r == Observe(Before(job, name, born), u, now)))
            && (r.source != name ==>
                  (r in done.sources <==> r in job.sources && !(source.Some? && name != "*" && r.source == "*")))
  {
    var (name, kept) := Addressed(job, source);
    AddressedMembers(job, source);
    AddressedGood(job, source);
    ObservedGood(kept, name, u, now, born);
    ObservedMembers(kept, name, u, now, born);
    var rs := WithRecord(kept, name, born);
    var i := IndexOf(rs, name);
    SameBefore(job, source, born);
    var out := rs[i := Observe(rs[i], u, now)];
    assert out[i] in out;
    assert forall j :: 0 <= j < |out| && j != i ==> out[j].source != out[i].source;
    if r.source == name && r in out {
      var j :| 0 <= j < |out| && out[j] == r;
    }
  }

  lemma SameBefore(job: Job, source: Option<string>, born: real)
    requires GoodJob(job)
    ensures var (name, kept) := Addressed(job, source);
            var rs := WithRecord(kept, name, born);
            IndexOf(rs, name) < |rs| && rs[IndexOf(rs, name)] == Before(job, name, born)
  {
    var (name, kept) := Addressed(job, source);
    AddressedMembers(job, source);
    AddressedGood(job, source);
    WithRecordGood(kept, name, born);
    var rs := WithRecord(kept, name, born);
    var i, k := IndexOf(rs, name), IndexOf(job.sources, name);
    assert rs[i].source == name && (rs[i] in kept || rs[i] == NewRecord(name, born));
    if k < |job.sources| {
      assert job.sources[k] in kept;
      var j :| 0 <= j < |kept| && kept[j] == job.sources[k];
      assert i == j;
    } else {
      assert forall q :: q in job.sources ==> q.source != name;
    }
  }

  lemma ReplacedMembers(rs: seq<Record>, i: nat, x: Record, r: Record)
    requires i < |rs| && r != rs[i] && r != x
    ensures r in rs[i := x] <==> r in rs
  {
    var out := rs[i := x];
    assert forall j :: 0 <= j < |rs| && j != i ==> out[j] == rs[j];
  }

  lemma FinishGood(job: Job, status: string, now: real)
    requires GoodJob(job)
    ensures GoodJob(FinishJob(job, status, now))
    ensures FinishJob(job, status, now).progress.total == job.progress.total
  {
    FinishActiveGood(job.sources, status, now);
  }

  /** Finishing a job finishes exactly its running records, with its status, and shows a full bar if there is a total. */
  lemma FinishJobExactly(job: Job, status: string, now: real, i: nat)
    requires i < |job.sources|
    ensures var done := FinishJob(job, status, now);
            && (done.id, done.kind, done.targets, done.status) == (job.id, job.kind, job.targets, status)
            && |done.sources| == |job.sources|
            && done.sources[i] == (if Terminal(job.sources[i].status) then job.sources[i] else FinishRecord(job.sources[i], status, now))
            && done.progress.current == (if done.progress.total.Some? && done.progress.total.value != 0
                                         then done.progress.total.value else SumCurrent(done.sources))
            && done.progress.detail == Recompute(job.progress, done.sources).detail
  {
  }

  /** Finishing one source finishes its record if both it and the job are running, and changes no other record. */
  lemma FinishSourceExactly(job: Job, source: string, status: string, now: real, i: nat)
    requires GoodJob(job) && i < |job.sources|
    ensures var done := FinishSourceJob(job, source, status, now);
            && (done.id, done.kind, done.targets, done.status) == (job.id, job.kind, job.targets, job.status)
            && |done.sources| == |job.sources|
            && done.sources[i] == (if job.sources[i].source == source && !Terminal(job.sources[i].status) && !Terminal(job.status)
                                   then FinishRecord(job.sources[i], status, now) else job.sources[i])
            && (job.sources[i].source == source && !Terminal(job.sources[i].status) && !Terminal(job.status) ==>
                  done.progress == Recompute(job.progress, done.sources))
  {
    var k := IndexOf(job.sources, source);
    assert k < |job.sources| && i != k ==> job.sources[i].source != job.sources[k].source;
  }

  lemma FinishActiveGood(rs: seq<Record>, status: string, now: real)
    requires UniqueNames(rs) && AllConserved(rs)
    ensures var fs := FinishActive(rs, status, now);
            UniqueNames(fs) && AllConserved(fs) && Denominator(fs) == Denominator(rs)
  {
    var fs := FinishActive(rs, status, now);
    forall i | 0 <= i < |rs|
      ensures Conserved(fs[i]) && fs[i].source == rs[i].source && fs[i].total == rs[i].total
    {
      FinishConserves(rs[i], status, now);
    }
    SameDenominator(rs, fs);
  }

  lemma FinishSourceGood(job: Job, source: string, status: string, now: real)
    requires GoodJob(job)
    ensures GoodJob(FinishSourceJob(job, source, status, now))
    ensures FinishSourceJob(job, source, status, now).progress.total == job.progress.total
  {
    var i := IndexOf(job.sources, source);
    if i < |job.sources| {
      FinishOneGood(job.sources, i, status, now);
    }
  }

  lemma FinishOneGood(rs: seq<Record>, i: nat, status: string, now: real)
    requires UniqueNames(rs) && AllConserved(rs) && i < |rs|
    ensures var fs := rs[i := FinishRecord(rs[i], status, now)];
            UniqueNames(fs) && AllConserved(fs) && Denominator(fs) == Denominator(rs)
  {
    FinishConserves(rs[i], status, now);
    SameDenominator(rs, rs[i := FinishRecord(rs[i], status, now)]);
  }

  lemma {:induction false} SameSum(rs: seq<Record>, qs: seq<Record>)
    requires |rs| == |qs| && forall i :: 0 <= i < |rs| ==> rs[i].total == qs[i].total
    ensures SumTotal(rs) == SumTotal(qs)
  {
    if rs != [] {
      SameSum(rs[1..], qs[1..]);
    }
  }

  lemma SameDenominator(rs: seq<Record>, qs: seq<Record>)
    requires |rs| == |qs| && forall i :: 0 <= i < |rs| ==> rs[i].total == qs[i].total
    ensures Denominator(rs) == Denominator(qs)
  {
    SameSum(rs, qs);
  }

  // ------------------------------------------------------------ the denominator

  predicate Switches(r: Record, u: Update) {
    u.phase.Some? && u.phase.value != r.phase
  }

  /** Does the addressed source have a count once this update is folded in? */
  predicate KnownAfter(rs: seq<Record>, name: string, u: Update) {
    || Known(u.total)
    || (u.total.None? && exists r :: r in rs && r.source == name && Known(r.total) && !Switches(r, u))
  }

  /** The synthetic record goes once a real source reports. */
  predicate Clears(source: Option<string>) {
    source.Some? && source.value != "*"
  }

  /**
   * When the bar has a denominator after an update: the addressed source must
   * bring a count, or have one and stay in its phase, and every other source
   * must have one, the synthetic record apart once a real source reports.
   */
  lemma DenominatorShownExactly(job: Job, source: Option<string>, u: Update, now: real, born: real)
    requires GoodJob(job) && job.Active()
    ensures var name := Addressed(job, source).0;
            ProgressJob(job, source, u, now, born).progress.total.Some?
            <==> && KnownAfter(job.sources, name, u)
                 && forall r :: r in job.sources && r.source != name && !(Clears(source) && r.source == "*") ==> Known(r.total)
  {
    var (name, kept) := Addressed(job, source);
    forall r
      ensures r in kept <==> r in job.sources && !(Clears(source) && r.source == "*")
    {
      WithoutMembers(job.sources, "*", r);
    }
    WithoutGood(job.sources, "*");
    WithRecordGood(kept, name, born);
    var rs := WithRecord(kept, name, born);
    var i := IndexOf(rs, name);
    KnownAfterObserve(kept, name, u, now, born);
    OthersKnown(kept, name, born, Observe(rs[i], u, now));
  }

  lemma KnownAfterObserve(rs: seq<Record>, name: string, u: Update, now: real, born: real)
    requires UniqueNames(rs)
    requires IndexOf(WithRecord(rs, name, born), name) < |WithRecord(rs, name, born)|
    ensures var out := WithRecord(rs, name, born);
            Known(Observe(out[IndexOf(out, name)], u, now).total) <==> KnownAfter(rs, name, u)
  {
    var i := IndexOf(rs, name);
    if i < |rs| {
      assert rs[i] in rs;
      assert forall r :: r in rs && r.source == name ==> r == rs[i];
    } else {
      assert forall r :: r in rs ==> r.source != name;
    }
  }

  lemma OthersKnown(rs: seq<Record>, name: string, born: real, x: Record)
    requires UniqueNames(rs)
    requires IndexOf(WithRecord(rs, name, born), name) < |WithRecord(rs, name, born)|
    ensures var out := WithRecord(rs, name, born);
            AllKnown(out[IndexOf(out, name) := x])
            <==> Known(x.total) && forall r :: r in rs && r.source != name ==> Known(r.total)
  {
    var out := WithRecord(rs, name, born);
    var i := IndexOf(out, name);
    var done := out[i := x];
    assert done[i] == x;
    assert forall j :: 0 <= j < |rs| && j != i ==> done[j] == rs[j] && rs[j].source != name;
    assert forall j :: 0 <= j < |done| && j != i ==> done[j] in rs;
  }

  // ------------------------------------------------------------ the finished phase

  lemma {:induction false} NoneActive(rs: seq<Record>)
    requires forall i :: 0 <= i < |rs| ==> !rs[i].Active()
    ensures ActiveOnly(rs) == []
  {
    if rs != [] {
      NoneActive(rs[1..]);
    }
  }

  /** Finishing changes neither the phase nor the time of a record, so the latest one stays the latest. */
  lemma FinishKeepsNewest(rs: seq<Record>, status: string, now: real)
    requires rs != []
    ensures Newest(FinishActive(rs, status, now)).phase == Newest(rs).phase
  {
    var fs, k := FinishActive(rs, status, now), LatestAt(Times(rs));
    forall i | 0 <= i < |rs|
      ensures Times(fs)[i] == Times(rs)[i]
    {
      assert fs[i].lastSeen == rs[i].lastSeen;
    }
    assert Times(fs) == Times(rs);
    assert fs[k].phase == rs[k].phase;
  }

  lemma LatestOfAll(p: Rollup, rs: seq<Record>)
    requires rs != [] && forall i :: 0 <= i < |rs| ==> !rs[i].Active()
    ensures Recompute(p, rs).phase == Newest(rs).phase
  {
    NoneActive(rs);
  }

  /**
   * The phase a finished job reports is the status it finished with exactly
   * when it has no source records or its latest record is in a phase of that
   * name: `recompute` overwrites what `finish` just wrote.
   */
  lemma FinishedPhase(job: Job, status: string, now: real)
    requires Terminal(status)
    ensures FinishJob(job, status, now).progress.phase == status
            <==> (job.sources == [] || Newest(job.sources).phase == status)
  {
    if job.sources != [] {
      FinishedPhaseIsNewest(job, status, now);
    }
  }

  lemma FinishedPhaseIsNewest(job: Job, status: string, now: real)
    requires Terminal(status) && job.sources != []
    ensures FinishJob(job, status, now).progress.phase == Newest(job.sources).phase
  {
    var rs := FinishActive(job.sources, status, now);
    LatestOfAll(job.progress.(phase := status), rs);
    FinishKeepsNewest(job.sources, status, now);
  }

  lemma SeededOne(name: string, born: real)
    ensures Seeded([name], born) == [NewRecord(name, born)]
  {
    assert [name][..0] == [];
    assert Seeded([], born) == [];
  }

  lemma ProgressOne(job: Job, r: Record, u: Update, now: real, born: real)
    requires job.Active() && job.sources == [r] && r.source != "*"
    ensures ProgressJob(job, Some(r.source), u, now, born).sources == [Observe(r, u, now)]
  {
    assert Without([r], "*") == [r];
    assert IndexOf([r], r.source) == 0;
  }

  /** Forty of a hundred files reported by the only source: that is what its record and the bar say. */
  lemma FortyOfHundred(job: Job, r: Record, now: real, born: real)
    requires job.Active() && job.sources == [r] && r.source != "*"
    ensures var u := Update(Some("indexing"), Some(40), Some(100), Some("README.md"));
            var done := ProgressJob(job, Some(r.source), u, now, born);
            && |done.sources| == 1 && done.sources[0].current == 40 && done.sources[0].total == Some(100)
            && done.progress == Rollup("indexing", 40, Some(100), "README.md")
  {
    var u := Update(Some("indexing"), Some(40), Some(100), Some("README.md"));
    ProgressOne(job, r, u, now, born);
    RollupOfOne(job.progress, Observe(r, u, now));
  }

  /** A sync of one source that was saving when it succeeded is still reported as saving. */
  lemma SucceededButSaving(now: real)
    ensures var saving := Update(Some("saving"), None, None, None);
            var job := ProgressJob(NewJob("1", "sync", ["docs"], now), Some("docs"), saving, now, now);
            var done := FinishJob(job, "succeeded", now);
            && Newest(job.sources).phase == "saving"
            && done.status == "succeeded" && done.progress.phase == "saving"
  {
    var saving := Update(Some("saving"), None, None, None);
    var record := NewRecord("docs", now);
    SeededOne("docs", now);
    ProgressOne(NewJob("1", "sync", ["docs"], now), record, saving, now, now);
    var job := ProgressJob(NewJob("1", "sync", ["docs"], now), Some("docs"), saving, now, now);
    assert Newest(job.sources) in job.sources;
    FinishedPhaseIsNewest(job, "succeeded", now);
  }

  // ------------------------------------------------------------ the honest headline

  /** What the rollup is meant to be: no running source is in a less advanced phase than the one shown. */
  ghost predicate LeastAdvanced(phase: string, rs: seq<Record>, rank: string -> int) {
    forall q :: q in rs && q.Active() ==> rank(phase) <= rank(q.phase)
  }

  /** For every order of the phases: the headline is honest exactly when the record updated last is least advanced. */
  lemma HonestExactly(p: Rollup, rs: seq<Record>, i: nat, rank: string -> int)
    requires Leads(rs, i)
    ensures LeastAdvanced(Recompute(p, rs).phase, rs, rank) <==> LeastAdvanced(rs[i].phase, rs, rank)
  {
    HeadlineIsLeader(rs, i);
  }

  /** The phase an update leaves its source in. */
  function Reported(rs: seq<Record>, name: string, u: Update): string {
    var i := IndexOf(rs, name);
    Or(u.phase, if i < |rs| then rs[i].phase else "queued")
  }

  /** A source that goes on running beside the one an update is about. */
  predicate Beside(r: Record, source: Option<string>, name: string) {
    r.Active() && r.source != name && !(Clears(source) && r.source == "*")
  }

  /**
   * The running source that reported last names the phase of the whole job, so
   * an update leaves an honest headline exactly when every source running
   * beside it is at least as advanced as the phase it reports.
   */
  lemma LastReporterNamesPhase(job: Job, source: Option<string>, u: Update, now: real, born: real, rank: string -> int)
    requires GoodJob(job) && job.Active()
    requires var name := Addressed(job, source).0;
             && (forall r :: r in job.sources && r.source == name ==> r.Active())
             && (forall r :: r in job.sources && Beside(r, source, name) ==> r.lastSeen < now)
    ensures var name := Addressed(job, source).0;
            var phase := Reported(job.sources, name, u);
            var done := ProgressJob(job, source, u, now, born);
            && done.progress.phase == phase
            && (LeastAdvanced(phase, done.sources, rank)
                <==> forall r :: r in job.sources && Beside(r, source, name) ==> rank(phase) <= rank(r.phase))
  {
    var (name, kept) := Addressed(job, source);
    AddressedMembers(job, source);
    AddressedGood(job, source);
    SameReport(job, source, u);
    assert forall r :: r in job.sources && Beside(r, source, name) <==> r in kept && r.Active() && r.source != name;
    ReporterNamesHeadline(kept, name, u, now, born, rank);
    RecomputeNames(job.progress, Observed(kept, name, u, now, born));
  }

  lemma RecomputeNames(p: Rollup, rs: seq<Record>)
    requires rs != []
    ensures Recompute(p, rs).phase == Headline(rs).phase
  {
  }

  lemma ReporterNamesHeadline(kept: seq<Record>, name: string, u: Update, now: real, born: real, rank: string -> int)
    requires UniqueNames(kept) && AllConserved(kept)
    requires forall r :: r in kept && r.source == name ==> r.Active()
    requires forall r :: r in kept && r.Active() && r.source != name ==> r.lastSeen < now
    ensures var out := Observed(kept, name, u, now, born);
            var phase := Reported(kept, name, u);
            && out != [] && Headline(out).phase == phase
            && (LeastAdvanced(phase, out, rank)
                <==> forall r :: r in kept && r.Active() && r.source != name ==> rank(phase) <= rank(r.phase))
  {
    var rs := WithRecord(kept, name, born);
    ObservedGood(kept, name, u, now, born);
    var i := IndexOf(rs, name);
    var out := rs[i := Observe(rs[i], u, now)];
    ObservedMembers(kept, name, u, now, born);
    ReporterLeads(out, i);
    HeadlineIsLeader(out, i);
    HonestBeside(out, i, rank);
  }

  /** After an update the records are the others as they were and the addressed one as reported. */
  lemma ObservedMembers(kept: seq<Record>, name: string, u: Update, now: real, born: real)
    requires UniqueNames(kept) && IndexOf(WithRecord(kept, name, born), name) < |WithRecord(kept, name, born)|
    ensures var rs := WithRecord(kept, name, born);
            var i := IndexOf(rs, name);
            var out := rs[i := Observe(rs[i], u, now)];
            && out[i].source == name && out[i].lastSeen == now && out[i].phase == Reported(kept, name, u)
            && ((forall r :: r in kept && r.source == name ==> r.Active()) ==> out[i].Active())
            && (forall q :: q in out && q.source != name <==> q in kept && q.source != name)
  {
    var rs := WithRecord(kept, name, born);
    var i := IndexOf(rs, name);
    var out := rs[i := Observe(rs[i], u, now)];
    assert rs[i] in rs && (rs[i] in kept || rs[i] == NewRecord(name, born));
    forall q: Record | q.source != name
      ensures q in out <==> q in kept
    {
      ReplacedMembers(rs, i, out[i], q);
      assert q in rs <==> q in kept;
    }
  }

  /** A running record updated after every other running one leads. */
  lemma ReporterLeads(out: seq<Record>, i: nat)
    requires UniqueNames(out) && i < |out| && out[i].Active()
    requires forall q :: q in out && q.source != out[i].source && q.Active() ==> q.lastSeen < out[i].lastSeen
    ensures Leads(out, i)
  {
    assert out[i] in out;
    forall j | 0 <= j < |out| && j != i && out[j].Active()
      ensures out[j].lastSeen < out[i].lastSeen
    {
      assert out[j] in out;
    }
  }

  lemma HonestBeside(out: seq<Record>, i: nat, rank: string -> int)
    requires UniqueNames(out) && i < |out| && out[i].Active()
    ensures LeastAdvanced(out[i].phase, out, rank)
            <==> forall q :: q in out && q.source != out[i].source && q.Active() ==> rank(out[i].phase) <= rank(q.phase)
  {
    assert forall q :: q in out && q.source == out[i].source ==> q == out[i];
  }

  lemma SameReport(job: Job, source: Option<string>, u: Update)
    requires GoodJob(job)
    ensures var (name, kept) := Addressed(job, source); Reported(kept, name, u) == Reported(job.sources, name, u)
  {
    if Clears(source) {
      ReportWithout(job.sources, source.value, u);
    }
  }

  lemma ReportWithout(rs: seq<Record>, name: string, u: Update)
    requires UniqueNames(rs) && name != "*"
    ensures Reported(Without(rs, "*"), name, u) == Reported(rs, name, u)
  {
    var kept := Without(rs, "*");
    var i, k := IndexOf(rs, name), IndexOf(kept, name);
    if i < |rs| {
      WithoutMembers(rs, "*", rs[i]);
    }
    if k < |kept| {
      WithoutMembers(rs, "*", kept[k]);
    }
  }

  lemma AddressedMembers(job: Job, source: Option<string>)
    requires GoodJob(job)
    ensures forall r :: r in Addressed(job, source).1 <==> r in job.sources && !(Clears(source) && r.source == "*")
  {
    forall r
      ensures r in Without(job.sources, "*") <==> r in job.sources && r.source != "*"
    {
      WithoutMembers(job.sources, "*", r);
    }
  }

  /** The headline is the latest running record, not the least advanced one: one saving source makes the job "saving". */
  lemma SavingBesideQueued(p: Rollup, now: real)
    ensures var rs := [NewRecord("code", now), Observe(NewRecord("docs", now), Update(Some("saving"), None, None, None), now + 1.0)];
            && rs[0].Active() && rs[0].phase == "queued"
            && Recompute(p, rs).phase == "saving"
  {
    var rs := [NewRecord("code", now), Observe(NewRecord("docs", now), Update(Some("saving"), None, None, None), now + 1.0)];
    assert rs[1] in rs;
    assert Leads(rs, 1);
    HeadlineIsLeader(rs, 1);
  }
}
