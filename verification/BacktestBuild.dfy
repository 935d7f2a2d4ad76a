/** Building all forward outcomes of a backtest run: one commit per observation, resumable. */
module BacktestBuild {
  import opened Prelude
  import opened Sorting
  import opened Dictionaries
  import opened ForwardOutcomes

  datatype Status = Planned | SnapshotsBuilt | OutcomesBuilt | Completed | Failed

  datatype Observation = Observation(
    id: Uuid, securityId: Uuid, symbol: string, knowledgeCutoff: Instant, snapshotId: Option<Uuid>)

  /** A stored outcome row; rows of one observation have pairwise different horizons. */
  datatype Row = Row(outcome: Outcome, dataCutoff: Instant)

  datatype Counts = Counts(created: nat, reused: nat, available: nat, securityOnly: nat, unavailable: nat)

  /** The rows and the mutable columns of one run. */
  datatype RunState = RunState(
    status: Status, dataCutoff: Option<Instant>, rows: map<Uuid, seq<Row>>, summary: Option<Counts>)

  /** A row of the live table of exchange listings. */
  datatype Listing = Listing(securityId: Uuid, exchange: string, validFrom: Date, validTo: Option<Date>)

  /**
   * What an attempt works from: the run's observations and horizons, readers bounded by a knowledge or data cutoff,
   * and the listings as the table holds them at that moment.
   */
  datatype Plan = Plan(
    observations: seq<Observation>, horizons: seq<int>,
    seriesAsOf: (Uuid, Instant) -> Series, benchmarkAsOf: Instant -> seq<BenchmarkBar>,
    entryBarAsOf: (Uuid, Instant) -> Option<Uuid>, listings: seq<Listing>)

  datatype Error = NotFrozen | CutoffFrozen | OutcomeConflict | BadHorizon | BadTransition

  datatype BuildResult = BuildResult(alreadyBuilt: bool, counts: Counts)

  /** The policy loader accepts one tuple of positive, pairwise different horizons. */
  ghost predicate ValidPlan(plan: Plan) {
    && (forall h | h in plan.horizons :: h > 0)
    && Distinct(plan.horizons, (h: int) => h)
    && Distinct(plan.observations, ObservationId)
  }

  function ObservationId(o: Observation): Uuid {
    o.id
  }

  /** (cutoff, symbol, id); the separator sorts below every character, so a prefix symbol sorts first. */
  function ObservationOrder(o: Observation): seq<int> {
    [o.knowledgeCutoff] + TextKey(o.symbol) + [-1, o.id as int]
  }

  function RowsOf(s: RunState, id: Uuid): seq<Row> {
    if id in s.rows then s.rows[id] else []
  }

  // --- One observation ---

  /** A listing on the main exchange that covers the day and has an end. */
  predicate Ends(l: Listing, securityId: Uuid, day: Date) {
    && l.securityId == securityId && l.exchange == "NSE" && l.validFrom <= day
    && l.validTo.Some? && l.validTo.value >= day
  }

  /** The earliest end of the listings that cover the day, as the table states it now. */
  function ListingEnd(listings: seq<Listing>, securityId: Uuid, day: Date): Option<Date> {
    if listings == [] then None
    else
      var rest := ListingEnd(listings[1..], securityId, day);
      if !Ends(listings[0], securityId, day) then rest
      else if rest.Some? && rest.value < listings[0].validTo.value then rest
      else listings[0].validTo
  }

  function EndOf(plan: Plan, o: Observation): Option<Date> {
    ListingEnd(plan.listings, o.securityId, DateOf(o.knowledgeCutoff))
  }

  /** One outcome, given the end of the listing. */
  function OutcomeAt(plan: Plan, o: Observation, dataCutoff: Instant, end: Option<Date>, horizon: int)
    : Result<Outcome, string>
  {
    if o.snapshotId.None? then Ok(Unavailable(horizon, "research_snapshot_unavailable", Nothing))
    else Compute(plan.seriesAsOf(o.securityId, dataCutoff), plan.benchmarkAsOf(dataCutoff),
                 plan.entryBarAsOf(o.securityId, o.knowledgeCutoff), o.knowledgeCutoff, horizon, end)
  }

  function OutcomesFrom(plan: Plan, o: Observation, dataCutoff: Instant, end: Option<Date>, n: nat)
    : Result<seq<Outcome>, Error>
    requires n <= |plan.horizons|
    decreases |plan.horizons| - n
  {
    if n == |plan.horizons| then
      Ok([])
    else
      var outcome := OutcomeAt(plan, o, dataCutoff, end, plan.horizons[n]);
      if outcome.Err? then
        Err(BadHorizon)
      else
        var rest :- OutcomesFrom(plan, o, dataCutoff, end, n + 1);
        Ok([outcome.value] + rest)
  }

  function OutcomesOf(plan: Plan, o: Observation, dataCutoff: Instant): Result<seq<Outcome>, Error> {
    OutcomesFrom(plan, o, dataCutoff, EndOf(plan, o), 0)
  }

  /** The stored row with a horizon, if any. */
  function RowAt(rows: seq<Row>, horizon: int): Option<Row> {
    FirstWith(rows, RowHorizon, horizon)
  }

  function RowHorizon(r: Row): int {
    r.outcome.horizon
  }

  function CountStatus(c: Counts, status: string): Counts {
    if status == AVAILABLE then c.(available := c.available + 1)
    else if status == SECURITY_ONLY then c.(securityOnly := c.securityOnly + 1)
    else c.(unavailable := c.unavailable + 1)
  }

  function CountCreated(c: Counts, created: bool): Counts {
    if created then c.(created := c.created + 1) else c.(reused := c.reused + 1)
  }

  datatype Progress = Progress(rows: seq<Row>, counts: Counts)

  /** Store one outcome: reuse an equal row, refuse a different one, append otherwise; then count it. */
  function AddOutcome(p: Progress, o: Outcome, dataCutoff: Instant): Result<Progress, Error> {
    var write := Row(o, dataCutoff);
    var existing := RowAt(p.rows, o.horizon);
    if existing.Some? && existing.value != write then
      Err(OutcomeConflict)
    else
      Ok(Progress(
        if existing.Some? then p.rows else p.rows + [write],
        CountStatus(CountCreated(p.counts, existing.None?), o.status)))
  }

  function AddOutcomes(p: Progress, outcomes: seq<Outcome>, dataCutoff: Instant): Result<Progress, Error>
    decreases |outcomes|
  {
    if outcomes == [] then
      Ok(p)
    else
      var next :- AddOutcome(p, outcomes[0], dataCutoff);
      AddOutcomes(next, outcomes[1..], dataCutoff)
  }

  /** The working state and the running counts. */
  datatype Work = Work(state: RunState, counts: Counts)

  function Observe(plan: Plan, dataCutoff: Instant, w: Work, o: Observation): Result<Work, Error> {
    var outcomes :- OutcomesOf(plan, o, dataCutoff);
    var p :- AddOutcomes(Progress(RowsOf(w.state, o.id), w.counts), outcomes, dataCutoff);
    Ok(Work(w.state.(rows := w.state.rows[o.id := p.rows]), p.counts))
  }

  /** The states an attempt commits, and how it ends. */
  datatype Trace = Trace(commits: seq<RunState>, end: Result<Work, Error>)

  function Observations(plan: Plan, dataCutoff: Instant, w: Work, observations: seq<Observation>): Trace
    decreases |observations|
  {
    if observations == [] then
      Trace([], Ok(w))
    else
      var next := Observe(plan, dataCutoff, w, observations[0]);
      if next.Err? then
        Trace([], Err(next.error))
      else
        var rest := Observations(plan, dataCutoff, next.value, observations[1..]);
        Trace([next.value.state] + rest.commits, rest.end)
  }

  // --- The run ---

  const ZERO := Counts(0, 0, 0, 0, 0)

  function CountRows(rows: seq<Row>, c: Counts): Counts {
    if rows == [] then c else CountRows(rows[1..], CountStatus(c.(reused := c.reused + 1), rows[0].outcome.status))
  }

  function CountStored(s: RunState, observations: seq<Observation>, c: Counts): Counts {
    if observations == [] then c
    else CountStored(s, observations[1..], CountRows(RowsOf(s, observations[0].id), c))
  }

  /** The report on a finished run: every stored row is reused. */
  function StoredCounts(s: RunState, plan: Plan): Counts {
    CountStored(s, plan.observations, ZERO)
  }

  /** A whole attempt from a committed state: the states it commits in order, and its result. */
  datatype Attempt = Attempt(commits: seq<RunState>, result: Result<BuildResult, Error>)

  function Build(plan: Plan, s: RunState, dataCutoff: Instant): Attempt {
    if s.status in {OutcomesBuilt, Completed} then
      Attempt([], Ok(BuildResult(true, StoredCounts(s, plan))))
    else if s.status != SnapshotsBuilt then
      Attempt([], Err(NotFrozen))
    else if s.dataCutoff.Some? && s.dataCutoff.value != dataCutoff then
      Attempt([], Err(CutoffFrozen))
    else
      var start := Work(s.(dataCutoff := Some(dataCutoff)), ZERO);
      var t := Observations(plan, dataCutoff, start, Sort(plan.observations, ObservationOrder));
      if t.end.Err? then
        Attempt(t.commits, Err(t.end.error))
      else
        var w := t.end.value;
        Attempt(t.commits + [w.state.(status := OutcomesBuilt, summary := Some(w.counts))],
                Ok(BuildResult(false, w.counts)))
  }

  /** The session: what is durable, what this attempt has written, and every state made durable. */
  class Session {
    var committed: RunState
    var working: RunState
    ghost var history: seq<RunState>

    constructor (s: RunState)
      ensures committed == working == s && history == []
    {
      committed, working := s, s;
      history := [];
    }

    method Commit()
      modifies this
      ensures committed == working == old(working) && history == old(history) + [old(working)]
    {
      committed := working;
      history := history + [working];
    }

    method FreezeCutoff(dataCutoff: Instant) returns (ok: bool)
      modifies this`working
      ensures ok <==> old(working).dataCutoff.None? || old(working).dataCutoff.value == dataCutoff
      ensures working == if ok then old(working).(dataCutoff := Some(dataCutoff)) else old(working)
    {
      if working.dataCutoff.Some? && working.dataCutoff.value != dataCutoff {
        return false;
      }
      working := working.(dataCutoff := Some(dataCutoff));
      ok := true;
    }

    /** The lifecycle's allowed transitions. */
    method SetStatus(status: Status, summary: Counts) returns (ok: bool)
      modifies this`working
      ensures ok <==> status == old(working).status || CanAdvance(old(working).status, status)
      ensures working == if ok then old(working).(status := status, summary := Some(summary)) else old(working)
    {
      if status != working.status && !CanAdvance(working.status, status) {
        return false;
      }
      working := working.(status := status, summary := Some(summary));
      ok := true;
    }

    method Store(id: Uuid, o: Outcome, dataCutoff: Instant, counts: Counts) returns (r: Result<Counts, Error>)
      modifies this`working
      ensures var p := AddOutcome(Progress(RowsOf(old(working), id), counts), o, dataCutoff);
              && (p.Err? ==> r == Err(p.error) && working == old(working))
              && (p.Ok? ==> r == Ok(p.value.counts)
                            && working == old(working).(rows := old(working).rows[id := p.value.rows]))
    {
      var rows := RowsOf(working, id);
      var existing := RowAt(rows, o.horizon);
      var created := existing.None?;
      if created {
        working := working.(rows := working.rows[id := rows + [Row(o, dataCutoff)]]);
      } else if existing.value != Row(o, dataCutoff) {
        return Err(OutcomeConflict);
      } else {
        working := working.(rows := working.rows[id := rows]);
      }
      r := Ok(CountStatus(CountCreated(counts, created), o.status));
    }

    /** All outcomes of one observation, in horizon order. */
    method StoreAll(plan: Plan, o: Observation, dataCutoff: Instant, counts: Counts) returns (r: Result<Counts, Error>)
      modifies this`working
      ensures var w := Observe(plan, dataCutoff, Work(old(working), counts), o);
              && (w.Err? ==> r == Err(w.error))
              && (w.Ok? ==> r == Ok(w.value.counts) && working == w.value.state)
    {
      var outcomes := OutcomesOf(plan, o, dataCutoff);
      if outcomes.Err? {
        return Err(outcomes.error);
      }
      var c := counts;
      working := working.(rows := working.rows[o.id := RowsOf(working, o.id)]);
      var i := 0;
      ghost var goal := AddOutcomes(Progress(RowsOf(working, o.id), counts), outcomes.value, dataCutoff);
      while i < |outcomes.value|
        invariant i <= |outcomes.value|
        invariant o.id in working.rows
        invariant goal == AddOutcomes(Progress(working.rows[o.id], c), outcomes.value[i..], dataCutoff)
        invariant working == old(working).(rows := old(working).rows[o.id := working.rows[o.id]])
      {
        hide AddOutcome;
        assert outcomes.value[i..][0] == outcomes.value[i] && outcomes.value[i..][1..] == outcomes.value[i + 1..];
        var stored := Store(o.id, outcomes.value[i], dataCutoff, c);
        if stored.Err? {
          return Err(stored.error);
        }
        c := stored.value;
        i := i + 1;
      }
      r := Ok(c);
    }

    /** The loop over the observations: a commit after each. */
    method ObserveAll(plan: Plan, dataCutoff: Instant, observations: seq<Observation>)
      returns (r: Result<Counts, Error>)
      modifies this
      ensures var t := Observations(plan, dataCutoff, Work(old(working), ZERO), observations);
              && (t.end.Err? ==> r == Err(t.end.error))
              && (t.end.Ok? ==> r == Ok(t.end.value.counts) && working == t.end.value.state)
              && history == old(history) + t.commits
              && committed == LastOr(t.commits, old(committed))
    {
      hide Observe, Observations;
      ghost var whole := Observations(plan, dataCutoff, Work(working, ZERO), observations);
      ghost var done: seq<RunState> := [];
      assert observations[0..] == observations;
      var counts := ZERO;
      var i := 0;
      while i < |observations|
        invariant i <= |observations|
        invariant history == old(history) + done
        invariant committed == LastOr(done, old(committed))
        invariant var rest := Observations(plan, dataCutoff, Work(working, counts), observations[i..]);
                  whole == Trace(done + rest.commits, rest.end)
      {
        ObservationsStep(plan, dataCutoff, Work(working, counts), observations, i);
        var stored := StoreAll(plan, observations[i], dataCutoff, counts);
        if stored.Err? {
          assert done + [] == done;
          return Err(stored.error);
        }
        ghost var rest := Observations(plan, dataCutoff, Work(working, stored.value), observations[i + 1..]);
        counts := stored.value;
        Commit();
        assert done + ([committed] + rest.commits) == done + [committed] + rest.commits;
        done := done + [committed];
        i := i + 1;
      }
      NoObservations(plan, dataCutoff, Work(working, counts));
      assert observations[i..] == [] && done + [] == done;
      r := Ok(counts);
    }

    /** One attempt, committing after every observation and once more with the final status. */
    method BuildOutcomes(plan: Plan, dataCutoff: Instant) returns (r: Result<BuildResult, Error>)
      requires working == committed
      modifies this
      ensures var a := Build(plan, old(committed), dataCutoff);
              && r == a.result
              && history == old(history) + a.commits
              && committed == LastOr(a.commits, old(committed))
    {
      if working.status in {OutcomesBuilt, Completed} {
        return Ok(BuildResult(true, StoredCounts(working, plan)));
      }
      if working.status != SnapshotsBuilt {
        return Err(NotFrozen);
      }
      var frozen := FreezeCutoff(dataCutoff);
      if !frozen {
        return Err(CutoffFrozen);
      }
      var sorted := Sort(plan.observations, ObservationOrder);
      StatusKept(plan, dataCutoff, Work(working, ZERO), sorted);
      hide Observations, Sort;
      var counted := ObserveAll(plan, dataCutoff, sorted);
      if counted.Err? {
        return Err(counted.error);
      }
      var advanced := SetStatus(OutcomesBuilt, counted.value);
      Commit();
      r := Ok(BuildResult(false, counted.value));
    }
  }

  function LastOr(states: seq<RunState>, default: RunState): RunState {
    if states == [] then default else states[|states| - 1]
  }

  lemma NoObservations(plan: Plan, dataCutoff: Instant, w: Work)
    ensures Observations(plan, dataCutoff, w, []) == Trace([], Ok(w))
  {
  }

  lemma ObservationsStep(plan: Plan, dataCutoff: Instant, w: Work, observations: seq<Observation>, i: nat)
    requires i < |observations|
    ensures var next := Observe(plan, dataCutoff, w, observations[i]);
            var t := Observations(plan, dataCutoff, w, observations[i..]);
            && (next.Err? ==> t == Trace([], Err(next.error)))
            && (next.Ok? ==> var rest := Observations(plan, dataCutoff, next.value, observations[i + 1..]);
                             t == Trace([next.value.state] + rest.commits, rest.end))
  {
    assert observations[i..][0] == observations[i] && observations[i..][1..] == observations[i + 1..];
    hide Observe;
  }

  predicate CanAdvance(from: Status, to: Status) {
    match from
    case Planned => to in {SnapshotsBuilt, Failed}
    case SnapshotsBuilt => to in {OutcomesBuilt, Failed}
    case OutcomesBuilt => to in {Completed, Failed}
    case _ => false
  }

  /** Only the rows change from one observation to the next. */
  lemma ObserveKeeps(plan: Plan, dataCutoff: Instant, w: Work, o: Observation)
    ensures var next := Observe(plan, dataCutoff, w, o);
            next.Ok? ==> next.value.state == w.state.(rows := next.value.state.rows)
  {
    hide OutcomesOf, AddOutcomes;
  }

  lemma {:induction false} StatusKept(plan: Plan, dataCutoff: Instant, w: Work, observations: seq<Observation>)
    ensures var t := Observations(plan, dataCutoff, w, observations);
            t.end.Ok? ==> t.end.value.state == w.state.(rows := t.end.value.state.rows)
    decreases |observations|
  {
    if observations != [] {
      ObserveKeeps(plan, dataCutoff, w, observations[0]);
      var next := Observe(plan, dataCutoff, w, observations[0]);
      if next.Ok? { StatusKept(plan, dataCutoff, next.value, observations[1..]); }
      hide Observe;
    }
  }

  // --- What one observation leaves ---

  /** The three status counts. */
  datatype Tally = Tally(available: nat, securityOnly: nat, unavailable: nat)

  function TallyOf(c: Counts): Tally {
    Tally(c.available, c.securityOnly, c.unavailable)
  }

  function Plus(a: Tally, b: Tally): Tally {
    Tally(a.available + b.available, a.securityOnly + b.securityOnly, a.unavailable + b.unavailable)
  }

  function Total(t: Tally): nat {
    t.available + t.securityOnly + t.unavailable
  }

  function StatusTally(status: string): Tally {
    if status == AVAILABLE then Tally(1, 0, 0)
    else if status == SECURITY_ONLY then Tally(0, 1, 0)
    else Tally(0, 0, 1)
  }

  function RowsTally(rows: seq<Row>): Tally {
    if rows == [] then Tally(0, 0, 0) else Plus(StatusTally(rows[0].outcome.status), RowsTally(rows[1..]))
  }

  function ToRows(outcomes: seq<Outcome>, dataCutoff: Instant): (r: seq<Row>)
    ensures |r| == |outcomes| && forall i | 0 <= i < |r| :: r[i] == Row(outcomes[i], dataCutoff)
  {
    seq(|outcomes|, i requires 0 <= i < |outcomes| => Row(outcomes[i], dataCutoff))
  }

  lemma ComputeHorizon(
      series: Series, benchmark: seq<BenchmarkBar>, entryBarId: Option<Uuid>, cutoff: Instant, horizon: int,
      listing: Option<Date>)
    requires horizon > 0
    ensures var o := Compute(series, benchmark, entryBarId, cutoff, horizon, listing);
            o.Ok? && o.value.horizon == horizon
  {
    hide Future, FirstWithId, Blocking, LastOn, Growth;
  }

  /** Positive horizons never raise, and give one outcome each, in order. */
  lemma {:induction false} OutcomesDefined(
      plan: Plan, o: Observation, dataCutoff: Instant, end: Option<Date>, n: nat)
    requires n <= |plan.horizons| && forall h | h in plan.horizons :: h > 0
    ensures var r := OutcomesFrom(plan, o, dataCutoff, end, n);
            && r.Ok? && |r.value| == |plan.horizons| - n
            && forall i | 0 <= i < |r.value| ::
                 && r.value[i].horizon == plan.horizons[n + i]
                 && OutcomeAt(plan, o, dataCutoff, end, plan.horizons[n + i]) == Ok(r.value[i])
    decreases |plan.horizons| - n
  {
    if n < |plan.horizons| {
      OutcomesDefined(plan, o, dataCutoff, end, n + 1);
      var h := plan.horizons[n];
      assert h in plan.horizons;
      ComputeHorizon(
        plan.seriesAsOf(o.securityId, dataCutoff), plan.benchmarkAsOf(dataCutoff),
        plan.entryBarAsOf(o.securityId, o.knowledgeCutoff), o.knowledgeCutoff, h, end);
      hide Compute;
    }
  }

  ghost predicate DistinctHorizons(outcomes: seq<Outcome>) {
    forall i, j | 0 <= i < j < |outcomes| :: outcomes[i].horizon != outcomes[j].horizon
  }

  /** The rows a finished observation has when the listing ends then. */
  function ExpectedWith(plan: Plan, o: Observation, dataCutoff: Instant, end: Option<Date>): seq<Row> {
    var outcomes := OutcomesFrom(plan, o, dataCutoff, end, 0);
    if outcomes.Ok? then ToRows(outcomes.value, dataCutoff) else []
  }

  /** The rows a finished observation has as the listings now stand. */
  function Expected(plan: Plan, o: Observation, dataCutoff: Instant): seq<Row> {
    ExpectedWith(plan, o, dataCutoff, EndOf(plan, o))
  }

  lemma OutcomesWithEnd(plan: Plan, o: Observation, dataCutoff: Instant, end: Option<Date>)
    requires ValidPlan(plan)
    ensures var r := OutcomesFrom(plan, o, dataCutoff, end, 0);
            r.Ok? && |r.value| == |plan.horizons| && DistinctHorizons(r.value)
  {
    OutcomesDefined(plan, o, dataCutoff, end, 0);
    hide OutcomesFrom, OutcomeAt;
    var r := OutcomesFrom(plan, o, dataCutoff, end, 0).value;
    forall i, j | 0 <= i < j < |r| ensures r[i].horizon != r[j].horizon {
      assert ((h: int) => h)(plan.horizons[i]) != ((h: int) => h)(plan.horizons[j]);
    }
  }

  lemma ExpectedOutcomes(plan: Plan, o: Observation, dataCutoff: Instant)
    requires ValidPlan(plan)
    ensures var r := OutcomesOf(plan, o, dataCutoff);
            r.Ok? && |r.value| == |plan.horizons| && DistinctHorizons(r.value)
  {
    OutcomesWithEnd(plan, o, dataCutoff, EndOf(plan, o));
  }

  /** Exactly the first `i` rows are stored, or all of them. */
  predicate StoredTo(rows: seq<Row>, all: seq<Outcome>, i: nat, dataCutoff: Instant)
    requires i <= |all|
  {
    rows == ToRows(all[..i], dataCutoff) || rows == ToRows(all, dataCutoff)
  }

  lemma NotYetStored(all: seq<Outcome>, i: nat, dataCutoff: Instant)
    requires i < |all| && DistinctHorizons(all)
    ensures RowAt(ToRows(all[..i], dataCutoff), all[i].horizon).None?
    ensures ToRows(all[..i + 1], dataCutoff) == ToRows(all[..i], dataCutoff) + [Row(all[i], dataCutoff)]
  {
    var rows := ToRows(all[..i], dataCutoff);
    forall x | x in rows ensures x.outcome.horizon != all[i].horizon {
      var k :| 0 <= k < i && rows[k] == x;
      assert rows[k].outcome == all[k];
    }
  }

  lemma AddOutcomeStep(p: Progress, all: seq<Outcome>, i: nat, dataCutoff: Instant)
    requires i < |all| && DistinctHorizons(all) && StoredTo(p.rows, all, i, dataCutoff)
    ensures var r := AddOutcome(p, all[i], dataCutoff);
            && r.Ok? && StoredTo(r.value.rows, all, i + 1, dataCutoff)
            && TallyOf(r.value.counts) == Plus(TallyOf(p.counts), StatusTally(all[i].status))
            && r.value.counts.created + r.value.counts.reused == p.counts.created + p.counts.reused + 1
  {
    if p.rows == ToRows(all, dataCutoff) {
      FirstWithAt(p.rows, RowHorizon, i);
    } else {
      NotYetStored(all, i, dataCutoff);
    }
    hide RowAt, ToRows;
  }

  /**
   * Storing the outcomes from the i-th on succeeds, leaves all rows, and counts every outcome once,
   * whether they were stored before or not.
   */
  lemma {:induction false} AddOutcomesCompletes(p: Progress, all: seq<Outcome>, i: nat, dataCutoff: Instant)
    requires i <= |all| && DistinctHorizons(all) && StoredTo(p.rows, all, i, dataCutoff)
    ensures var r := AddOutcomes(p, all[i..], dataCutoff);
            && r.Ok? && r.value.rows == ToRows(all, dataCutoff)
            && TallyOf(r.value.counts) == Plus(TallyOf(p.counts), RowsTally(ToRows(all[i..], dataCutoff)))
            && r.value.counts.created + r.value.counts.reused == p.counts.created + p.counts.reused + (|all| - i)
    decreases |all| - i
  {
    if i == |all| {
      assert all[..i] == all;
    } else {
      assert all[i..][0] == all[i] && all[i..][1..] == all[i + 1..];
      assert ToRows(all[i..], dataCutoff)[1..] == ToRows(all[i + 1..], dataCutoff);
      AddOutcomeStep(p, all, i, dataCutoff);
      hide AddOutcome, ToRows, StoredTo, StatusTally, DistinctHorizons;
      AddOutcomesCompletes(AddOutcome(p, all[i], dataCutoff).value, all, i + 1, dataCutoff);
    }
  }

  /** Nothing stored for the observation yet, or everything. */
  predicate Atomic(plan: Plan, s: RunState, o: Observation, dataCutoff: Instant) {
    RowsOf(s, o.id) == [] || RowsOf(s, o.id) == Expected(plan, o, dataCutoff)
  }

  /** One observation completes: its rows become the expected ones, every outcome is counted once. */
  lemma ObserveCompletes(plan: Plan, dataCutoff: Instant, w: Work, o: Observation)
    requires ValidPlan(plan) && Atomic(plan, w.state, o, dataCutoff)
    ensures var next := Observe(plan, dataCutoff, w, o);
            && next.Ok?
            && next.value.state == w.state.(rows := w.state.rows[o.id := Expected(plan, o, dataCutoff)])
            && TallyOf(next.value.counts) == Plus(TallyOf(w.counts), RowsTally(Expected(plan, o, dataCutoff)))
            && next.value.counts.created + next.value.counts.reused
               == w.counts.created + w.counts.reused + |plan.horizons|
  {
    ExpectedOutcomes(plan, o, dataCutoff);
    hide OutcomesOf, AddOutcomes, RowsTally;
    var all := OutcomesOf(plan, o, dataCutoff).value;
    assert all[0..] == all && ToRows(all[..0], dataCutoff) == [];
    AddOutcomesCompletes(Progress(RowsOf(w.state, o.id), w.counts), all, 0, dataCutoff);
  }

  // --- Crash and resume ---

  /** A state an interrupted build may leave: every observation is stored completely or not at all. */
  ghost predicate Resumable(plan: Plan, s: RunState, dataCutoff: Instant) {
    && s.status == SnapshotsBuilt
    && (s.dataCutoff.Some? ==> s.dataCutoff.value == dataCutoff)
    && (forall id | id in s.rows :: exists o | o in plan.observations :: o.id == id)
    && (forall o | o in plan.observations :: Atomic(plan, s, o, dataCutoff))
  }

  /** A finished build: exactly the expected rows of every observation, once each. */
  ghost predicate Finished(plan: Plan, s: RunState, dataCutoff: Instant) {
    && s.status == OutcomesBuilt
    && s.dataCutoff == Some(dataCutoff)
    && (forall id | id in s.rows :: exists o | o in plan.observations :: o.id == id)
    && (forall o | o in plan.observations :: o.id in s.rows && s.rows[o.id] == Expected(plan, o, dataCutoff))
  }

  function PlanTally(plan: Plan, observations: seq<Observation>, dataCutoff: Instant): Tally {
    if observations == [] then Tally(0, 0, 0)
    else Plus(RowsTally(Expected(plan, observations[0], dataCutoff)), PlanTally(plan, observations[1..], dataCutoff))
  }

  /** The states of the loop: the plan's observations atomic, the given ones still to come. */
  ghost predicate Midway(plan: Plan, s: RunState, dataCutoff: Instant) {
    && Resumable(plan, s, dataCutoff) && s.dataCutoff == Some(dataCutoff)
  }

  lemma ObserveMidway(plan: Plan, dataCutoff: Instant, w: Work, o: Observation)
    requires ValidPlan(plan) && Midway(plan, w.state, dataCutoff) && o in plan.observations
    ensures var next := Observe(plan, dataCutoff, w, o);
            next.Ok? && Midway(plan, next.value.state, dataCutoff)
  {
    ObserveCompletes(plan, dataCutoff, w, o);
    hide Observe, Expected, RowsTally;
    var t := Observe(plan, dataCutoff, w, o).value.state;
    forall x | x in plan.observations ensures Atomic(plan, t, x, dataCutoff) {
      assert Atomic(plan, w.state, x, dataCutoff);
      if x.id == o.id { SameObservation(plan, x, o); }
    }
  }

  lemma SameObservation(plan: Plan, x: Observation, y: Observation)
    requires ValidPlan(plan) && x in plan.observations && y in plan.observations && x.id == y.id
    ensures x == y
  {
    var i :| 0 <= i < |plan.observations| && plan.observations[i] == x;
    var j :| 0 <= j < |plan.observations| && plan.observations[j] == y;
  }

  /** What the loop has done once it has passed these observations. */
  ghost predicate Passed(plan: Plan, dataCutoff: Instant, before: Work, after: Work, observations: seq<Observation>) {
    && Midway(plan, after.state, dataCutoff)
    && (forall o | o in observations ::
          o.id in after.state.rows && after.state.rows[o.id] == Expected(plan, o, dataCutoff))
    && (forall id | id in before.state.rows :: id in after.state.rows)
    && TallyOf(after.counts) == Plus(TallyOf(before.counts), PlanTally(plan, observations, dataCutoff))
    && after.counts.created + after.counts.reused
       == before.counts.created + before.counts.reused + Times(|observations|, |plan.horizons|)
  }

  /** Rows that are expected stay expected while the loop goes on. */
  lemma ExpectedKept(plan: Plan, dataCutoff: Instant, w: Work, o: Observation, x: Observation)
    requires ValidPlan(plan) && Midway(plan, w.state, dataCutoff)
    requires o in plan.observations && x in plan.observations
    requires x.id in w.state.rows && w.state.rows[x.id] == Expected(plan, x, dataCutoff)
    ensures var next := Observe(plan, dataCutoff, w, o);
            next.Ok? && x.id in next.value.state.rows
            && next.value.state.rows[x.id] == Expected(plan, x, dataCutoff)
  {
    ObserveCompletes(plan, dataCutoff, w, o);
    hide Observe, Expected, RowsTally, PlanTally;
    if x.id == o.id { SameObservation(plan, x, o); }
  }

  lemma {:induction false} ExpectedKeptThrough(
      plan: Plan, dataCutoff: Instant, w: Work, observations: seq<Observation>, x: Observation)
    requires ValidPlan(plan) && Midway(plan, w.state, dataCutoff)
    requires x in plan.observations && forall o | o in observations :: o in plan.observations
    requires x.id in w.state.rows && w.state.rows[x.id] == Expected(plan, x, dataCutoff)
    ensures var t := Observations(plan, dataCutoff, w, observations);
            t.end.Ok? ==> x.id in t.end.value.state.rows
                          && t.end.value.state.rows[x.id] == Expected(plan, x, dataCutoff)
    decreases |observations|
  {
    if observations != [] {
      assert observations[0] in observations;
      ExpectedKept(plan, dataCutoff, w, observations[0], x);
      ObserveMidway(plan, dataCutoff, w, observations[0]);
      hide Observe, Expected, Midway, ValidPlan;
      ExpectedKeptThrough(plan, dataCutoff, Observe(plan, dataCutoff, w, observations[0]).value, observations[1..], x);
    }
  }

  lemma PassedStep(plan: Plan, dataCutoff: Instant, before: Work, mid: Work, after: Work, observations: seq<Observation>)
    requires observations != []
    requires TallyOf(mid.counts) ==
             Plus(TallyOf(before.counts), RowsTally(Expected(plan, observations[0], dataCutoff)))
    requires mid.counts.created + mid.counts.reused
             == before.counts.created + before.counts.reused + |plan.horizons|
    requires forall id | id in before.state.rows :: id in mid.state.rows
    requires Passed(plan, dataCutoff, mid, after, observations[1..])
    requires var o := observations[0];
             o.id in after.state.rows && after.state.rows[o.id] == Expected(plan, o, dataCutoff)
    ensures Passed(plan, dataCutoff, before, after, observations)
  {
    hide Midway, Expected, RowsTally;
    var rest := observations[1..];
    OneMoreRow(|rest|, |plan.horizons|);
    PlusAssociates(TallyOf(before.counts), RowsTally(Expected(plan, observations[0], dataCutoff)),
                   PlanTally(plan, rest, dataCutoff));
    assert PlanTally(plan, observations, dataCutoff) ==
      Plus(RowsTally(Expected(plan, observations[0], dataCutoff)), PlanTally(plan, rest, dataCutoff));
    hide PlanTally, Plus, TallyOf;
    forall x | x in observations
      ensures x.id in after.state.rows && after.state.rows[x.id] == Expected(plan, x, dataCutoff)
    {
      if x != observations[0] { assert x in rest; }
    }
  }

  function Times(n: nat, m: nat): nat {
    n * m
  }

  lemma OneMoreRow(n: nat, m: nat)
    ensures Times(n + 1, m) == Times(n, m) + m
  {
  }

  lemma PlusAssociates(a: Tally, b: Tally, c: Tally)
    ensures Plus(Plus(a, b), c) == Plus(a, Plus(b, c))
  {
  }

  /** From an atomic state the loop cannot fail, and every state it commits is atomic again. */
  lemma {:induction false} LoopCompletes(plan: Plan, dataCutoff: Instant, w: Work, observations: seq<Observation>)
    requires ValidPlan(plan) && Midway(plan, w.state, dataCutoff)
    requires forall o | o in observations :: o in plan.observations
    ensures var t := Observations(plan, dataCutoff, w, observations);
            && t.end.Ok?
            && (forall c | c in t.commits :: Midway(plan, c, dataCutoff))
            && Passed(plan, dataCutoff, w, t.end.value, observations)
    decreases |observations|
  {
    if observations != [] {
      var o, rest := observations[0], observations[1..];
      assert o in observations;
      var next := Observe(plan, dataCutoff, w, o);
      ObserveMidway(plan, dataCutoff, w, o);
      ObserveCompletes(plan, dataCutoff, w, o);
      hide Observe, Expected, RowsTally, Midway, ValidPlan, Passed;
      LoopCompletes(plan, dataCutoff, next.value, rest);
      ExpectedKeptThrough(plan, dataCutoff, next.value, rest, o);
      PassedStep(plan, dataCutoff, w, next.value,
                 Observations(plan, dataCutoff, next.value, rest).end.value, observations);
    }
  }

  // --- Counts ---

  lemma OneTally(status: string)
    ensures Total(StatusTally(status)) == 1
  {
  }

  lemma TotalPlus(a: Tally, b: Tally)
    ensures Total(Plus(a, b)) == Total(a) + Total(b)
  {
  }

  lemma {:induction false} RowsTallyTotal(rows: seq<Row>)
    ensures Total(RowsTally(rows)) == |rows|
  {
    TotalZero();
    hide StatusTally, Plus, Total;
    if rows != [] {
      OneTally(rows[0].outcome.status);
      TotalPlus(StatusTally(rows[0].outcome.status), RowsTally(rows[1..]));
      RowsTallyTotal(rows[1..]);
    }
  }

  lemma TotalZero()
    ensures Total(Tally(0, 0, 0)) == 0
  {
  }

  lemma ExpectedLength(plan: Plan, o: Observation, dataCutoff: Instant)
    requires ValidPlan(plan)
    ensures |Expected(plan, o, dataCutoff)| == |plan.horizons|
  {
    ExpectedOutcomes(plan, o, dataCutoff);
  }

  lemma {:induction false} PlanTallyTotal(plan: Plan, observations: seq<Observation>, dataCutoff: Instant)
    requires ValidPlan(plan)
    ensures Total(PlanTally(plan, observations, dataCutoff)) == Times(|observations|, |plan.horizons|)
  {
    if observations != [] {
      PlanTallyTotal(plan, observations[1..], dataCutoff);
      ExpectedLength(plan, observations[0], dataCutoff);
      RowsTallyTotal(Expected(plan, observations[0], dataCutoff));
      OneMoreRow(|observations[1..]|, |plan.horizons|);
      hide Expected, RowsTally, ValidPlan;
    }
  }

  lemma PlusSwaps(a: Tally, b: Tally, c: Tally)
    ensures Plus(a, Plus(b, c)) == Plus(b, Plus(a, c))
  {
  }

  lemma {:induction false} InsertTally(plan: Plan, o: Observation, s: seq<Observation>, dataCutoff: Instant)
    ensures PlanTally(plan, Insert(o, s, ObservationOrder), dataCutoff) ==
            Plus(RowsTally(Expected(plan, o, dataCutoff)), PlanTally(plan, s, dataCutoff))
  {
    hide Expected, RowsTally, Plus, LexLeq, ObservationOrder;
    assert ([o] + s)[1..] == s;
    if s != [] && !LexLeq(ObservationOrder(o), ObservationOrder(s[0])) {
      var inserted := Insert(o, s[1..], ObservationOrder);
      InsertTally(plan, o, s[1..], dataCutoff);
      assert ([s[0]] + inserted)[1..] == inserted;
      PlusSwaps(RowsTally(Expected(plan, s[0], dataCutoff)), RowsTally(Expected(plan, o, dataCutoff)),
                PlanTally(plan, s[1..], dataCutoff));
    }
  }

  /** The order of the observations does not change the counts. */
  lemma {:induction false} SortTally(plan: Plan, s: seq<Observation>, dataCutoff: Instant)
    ensures PlanTally(plan, Sort(s, ObservationOrder), dataCutoff) == PlanTally(plan, s, dataCutoff)
  {
    if s != [] {
      SortTally(plan, s[1..], dataCutoff);
      InsertTally(plan, s[0], Sort(s[1..], ObservationOrder), dataCutoff);
    }
  }

  lemma PlusZero(a: Tally)
    ensures Plus(a, Tally(0, 0, 0)) == a && Plus(Tally(0, 0, 0), a) == a
  {
  }

  lemma CountRowAdds(c: Counts, status: string)
    ensures var r := CountStatus(c.(reused := c.reused + 1), status);
            && TallyOf(r) == Plus(TallyOf(c), StatusTally(status))
            && r.created == c.created && r.reused == c.reused + 1
  {
  }

  lemma {:induction false} CountRowsAdds(rows: seq<Row>, c: Counts)
    ensures TallyOf(CountRows(rows, c)) == Plus(TallyOf(c), RowsTally(rows))
    ensures CountRows(rows, c).created == c.created && CountRows(rows, c).reused == c.reused + |rows|
  {
    hide CountStatus, StatusTally, TallyOf, Plus;
    PlusZero(TallyOf(c));
    if rows != [] {
      var status := rows[0].outcome.status;
      CountRowAdds(c, status);
      PlusAssociates(TallyOf(c), StatusTally(status), RowsTally(rows[1..]));
      CountRowsAdds(rows[1..], CountStatus(c.(reused := c.reused + 1), status));
    }
  }

  lemma {:induction false} CountStoredAdds(
      plan: Plan, s: RunState, observations: seq<Observation>, c: Counts, dataCutoff: Instant)
    requires ValidPlan(plan)
    requires forall o | o in observations :: RowsOf(s, o.id) == Expected(plan, o, dataCutoff)
    ensures var r := CountStored(s, observations, c);
            && TallyOf(r) == Plus(TallyOf(c), PlanTally(plan, observations, dataCutoff))
            && r.created == c.created && r.reused == c.reused + Times(|observations|, |plan.horizons|)
  {
    if observations != [] {
      var o, rest := observations[0], observations[1..];
      assert o in observations && forall x | x in rest :: x in observations;
      var rows := RowsOf(s, o.id);
      CountRowsAdds(rows, c);
      ExpectedLength(plan, o, dataCutoff);
      hide Expected, RowsTally, CountRows, ValidPlan;
      CountStoredAdds(plan, s, rest, CountRows(rows, c), dataCutoff);
      OneMoreRow(|rest|, |plan.horizons|);
      PlusAssociates(TallyOf(c), RowsTally(rows), PlanTally(plan, rest, dataCutoff));
    }
  }

  // --- The main results ---

  /** The counts of one complete build. */
  ghost predicate CountsComplete(plan: Plan, c: Counts, dataCutoff: Instant) {
    && TallyOf(c) == PlanTally(plan, plan.observations, dataCutoff)
    && c.created + c.reused == Times(|plan.observations|, |plan.horizons|)
    && c.available + c.securityOnly + c.unavailable == Times(|plan.observations|, |plan.horizons|)
  }

  /** The working state an attempt starts its loop from. */
  function Start(s: RunState, dataCutoff: Instant): Work {
    Work(s.(dataCutoff := Some(dataCutoff)), ZERO)
  }

  function LoopTrace(plan: Plan, s: RunState, dataCutoff: Instant): Trace {
    Observations(plan, dataCutoff, Start(s, dataCutoff), Sort(plan.observations, ObservationOrder))
  }

  function FinalState(w: Work): RunState {
    w.state.(status := OutcomesBuilt, summary := Some(w.counts))
  }

  lemma AttemptShape(plan: Plan, s: RunState, dataCutoff: Instant)
    requires Resumable(plan, s, dataCutoff) && LoopTrace(plan, s, dataCutoff).end.Ok?
    ensures var t := LoopTrace(plan, s, dataCutoff);
            Build(plan, s, dataCutoff) ==
            Attempt(t.commits + [FinalState(t.end.value)], Ok(BuildResult(false, t.end.value.counts)))
  {
    hide Observations, Sort, Atomic;
  }

  lemma StartMidway(plan: Plan, s: RunState, dataCutoff: Instant)
    requires Resumable(plan, s, dataCutoff)
    ensures Midway(plan, Start(s, dataCutoff).state, dataCutoff)
  {
    hide Expected;
    forall o | o in plan.observations ensures Atomic(plan, Start(s, dataCutoff).state, o, dataCutoff) {
      assert Atomic(plan, s, o, dataCutoff);
    }
  }

  /** The loop of an attempt from a resumable state. */
  lemma LoopFinishes(plan: Plan, s: RunState, dataCutoff: Instant)
    requires ValidPlan(plan) && Resumable(plan, s, dataCutoff)
    ensures var t := LoopTrace(plan, s, dataCutoff);
            && t.end.Ok?
            && (forall c | c in t.commits :: Midway(plan, c, dataCutoff))
            && Finished(plan, FinalState(t.end.value), dataCutoff)
            && CountsComplete(plan, t.end.value.counts, dataCutoff)
  {
    var sorted := Sort(plan.observations, ObservationOrder);
    MultisetElements(sorted, plan.observations);
    SortTally(plan, plan.observations, dataCutoff);
    PlanTallyTotal(plan, plan.observations, dataCutoff);
    StartMidway(plan, s, dataCutoff);
    LoopCompletes(plan, dataCutoff, Start(s, dataCutoff), sorted);
    var w := LoopTrace(plan, s, dataCutoff).end.value;
    PassedFinishes(plan, Start(s, dataCutoff), w, sorted, dataCutoff);
    PassedCounts(plan, s, w, sorted, dataCutoff);
    hide Observations, Sort, PlanTally, Expected, Atomic, ValidPlan, Passed, Midway, Finished, CountsComplete;
  }

  /** Passing every observation finishes the run. */
  lemma PassedFinishes(plan: Plan, before: Work, after: Work, observations: seq<Observation>, dataCutoff: Instant)
    requires Passed(plan, dataCutoff, before, after, observations)
    requires SameElements(observations, plan.observations)
    ensures Finished(plan, FinalState(after), dataCutoff)
  {
    hide Expected, Atomic, PlanTally, Plus, TallyOf;
  }

  lemma CountsFromTally(plan: Plan, c: Counts, dataCutoff: Instant)
    requires ValidPlan(plan)
    requires TallyOf(c) == Plus(TallyOf(ZERO), PlanTally(plan, plan.observations, dataCutoff))
    requires c.created + c.reused == Times(|plan.observations|, |plan.horizons|)
    ensures CountsComplete(plan, c, dataCutoff)
  {
    PlanTallyTotal(plan, plan.observations, dataCutoff);
    PlusZero(PlanTally(plan, plan.observations, dataCutoff));
    hide ValidPlan, PlanTally, Plus, Times;
  }

  lemma PassedCounts(plan: Plan, s: RunState, after: Work, observations: seq<Observation>, dataCutoff: Instant)
    requires ValidPlan(plan)
    requires Passed(plan, dataCutoff, Start(s, dataCutoff), after, observations)
    requires |observations| == |plan.observations|
    requires PlanTally(plan, observations, dataCutoff) == PlanTally(plan, plan.observations, dataCutoff)
    ensures CountsComplete(plan, after.counts, dataCutoff)
  {
    hide ValidPlan, Midway, Expected, PlanTally, Plus, Times, TallyOf, Total;
    assert TallyOf(after.counts) == Plus(TallyOf(ZERO), PlanTally(plan, plan.observations, dataCutoff));
    assert after.counts.created + after.counts.reused == Times(|plan.observations|, |plan.horizons|);
    hide Passed;
    CountsFromTally(plan, after.counts, dataCutoff);
  }

  /** An uninterrupted attempt from any resumable state finishes; each earlier commit is resumable again. */
  lemma AttemptFinishes(plan: Plan, s: RunState, dataCutoff: Instant)
    requires ValidPlan(plan) && Resumable(plan, s, dataCutoff)
    ensures var a := Build(plan, s, dataCutoff);
            && a.result.Ok? && !a.result.value.alreadyBuilt
            && CountsComplete(plan, a.result.value.counts, dataCutoff)
            && a.commits != [] && Finished(plan, LastOr(a.commits, s), dataCutoff)
            && LastOr(a.commits, s).summary == Some(a.result.value.counts)
            && (forall c | c in a.commits :: Resumable(plan, c, dataCutoff) || Finished(plan, c, dataCutoff))
  {
    LoopFinishes(plan, s, dataCutoff);
    AttemptShape(plan, s, dataCutoff);
    hide Build, LoopTrace, Finished, Resumable, CountsComplete, ValidPlan;
  }

  /** The rows of a finished run count once each. */
  lemma StoredCountsComplete(plan: Plan, s: RunState, dataCutoff: Instant)
    requires ValidPlan(plan) && Finished(plan, s, dataCutoff)
    ensures CountsComplete(plan, StoredCounts(s, plan), dataCutoff) && StoredCounts(s, plan).created == 0
  {
    hide Expected, PlanTally, CountStored, ValidPlan;
    forall o | o in plan.observations ensures RowsOf(s, o.id) == Expected(plan, o, dataCutoff) {
    }
    hide Finished, RowsOf;
    CountStoredAdds(plan, s, plan.observations, ZERO, dataCutoff);
    PlanTallyTotal(plan, plan.observations, dataCutoff);
    PlusZero(PlanTally(plan, plan.observations, dataCutoff));
    hide Plus, Times;
  }

  /** A later call on a finished run changes nothing and reports the same three status counts. */
  lemma FinishedReportsAgain(plan: Plan, s: RunState, dataCutoff: Instant, anyCutoff: Instant)
    requires ValidPlan(plan) && Finished(plan, s, dataCutoff)
    ensures var a := Build(plan, s, anyCutoff);
            && a.commits == [] && a.result.Ok? && a.result.value.alreadyBuilt
            && CountsComplete(plan, a.result.value.counts, dataCutoff)
            && a.result.value.counts.created == 0
  {
    hide ValidPlan, CountsComplete, StoredCounts, Observations, Sort;
    StoredCountsComplete(plan, s, dataCutoff);
  }

  /** The state a completed attempt leaves. */
  function Complete(plan: Plan, s: RunState, dataCutoff: Instant): RunState {
    LastOr(Build(plan, s, dataCutoff).commits, s)
  }

  lemma FinishedUnique(plan: Plan, s: RunState, t: RunState, dataCutoff: Instant)
    requires Finished(plan, s, dataCutoff) && Finished(plan, t, dataCutoff)
    ensures s.rows == t.rows && s.status == t.status && s.dataCutoff == t.dataCutoff
  {
    hide Expected;
    forall id | id in s.rows ensures id in t.rows && t.rows[id] == s.rows[id] {
      var o :| o in plan.observations && o.id == id;
    }
    forall id | id in t.rows ensures id in s.rows {
      var o :| o in plan.observations && o.id == id;
    }
  }

  /** Once one observation is durable the data cutoff is frozen: an attempt at another cutoff changes nothing. */
  lemma OtherCutoffRefused(plan: Plan, s: RunState, dataCutoff: Instant, other: Instant)
    requires ValidPlan(plan) && Resumable(plan, s, dataCutoff) && other != dataCutoff
    ensures var commits := Build(plan, s, dataCutoff).commits;
            forall i | 0 <= i < |commits| - 1 :: Build(plan, commits[i], other) == Attempt([], Err(CutoffFrozen))
  {
    LoopFinishes(plan, s, dataCutoff);
    AttemptShape(plan, s, dataCutoff);
    hide LoopTrace, Finished, CountsComplete, ValidPlan, Observations, Sort;
    var commits := Build(plan, s, dataCutoff).commits;
    forall i | 0 <= i < |commits| - 1 ensures Build(plan, commits[i], other) == Attempt([], Err(CutoffFrozen)) {
      assert commits[i] in LoopTrace(plan, s, dataCutoff).commits;
    }
  }
}
