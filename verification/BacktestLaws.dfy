/** What a finished run holds and reports, read off the readers, the listings and the stored rows. */
module BacktestLaws {
  import opened Prelude
  import opened Sorting
  import opened Dictionaries
  import opened ForwardOutcomes
  import opened BacktestBuild
  import OutcomeLaws
  import EventReading

  // --- Listings ---

  /** A listing on the main exchange that covers the day and has an end. */
  ghost predicate EndsAt(l: Listing, securityId: Uuid, day: Date, end: Date) {
    && l.securityId == securityId && l.exchange == "NSE"
    && l.validFrom <= day && l.validTo == Some(end) && day <= end
  }

  /** The earliest such end, if there is one. */
  ghost predicate EarliestEnd(listings: seq<Listing>, securityId: Uuid, day: Date, end: Option<Date>) {
    && (forall l, e | l in listings && EndsAt(l, securityId, day, e) :: end.Some? && end.value <= e)
    && (end.Some? ==> exists l | l in listings :: EndsAt(l, securityId, day, end.value))
  }

  lemma {:induction false} ListingEndLaw(listings: seq<Listing>, securityId: Uuid, day: Date)
    ensures EarliestEnd(listings, securityId, day, ListingEnd(listings, securityId, day))
  {
    if listings != [] {
      var l, rest := listings[0], listings[1..];
      ListingEndLaw(rest, securityId, day);
      assert l in listings && forall x :: x in listings <==> x == l || x in rest;
      assert Ends(l, securityId, day) <==> l.validTo.Some? && EndsAt(l, securityId, day, l.validTo.value);
      if Ends(l, securityId, day) { assert EndsAt(l, securityId, day, l.validTo.value); }
    }
  }

  // --- One stored row ---

  /**
   * The outcome of one observation and horizon: prices and benchmark as known at the data cutoff, the entry bar and
   * the listing's end as of the observation's own cutoff; nothing without a research snapshot.
   */
  ghost predicate OutcomeFor(plan: Plan, o: Observation, dataCutoff: Instant, horizon: int, x: Outcome) {
    if o.snapshotId == None then
      x == Outcome(horizon, "research_snapshot_unavailable", None, None, None, None, None, None, None, Nothing)
    else
      exists day, end :: && OutcomeLaws.OnDay(o.knowledgeCutoff, day) && EarliestEnd(plan.listings, o.securityId, day, end)
        && Compute(plan.seriesAsOf(o.securityId, dataCutoff), plan.benchmarkAsOf(dataCutoff),
                   plan.entryBarAsOf(o.securityId, o.knowledgeCutoff), o.knowledgeCutoff, horizon, end) == Ok(x)
  }

  lemma DayExists(t: Instant)
    ensures OutcomeLaws.OnDay(t, DateOf(t))
  {
  }

  /** A finished run holds one row for each observation and horizon, in the order of the horizons. */
  lemma StoredRows(plan: Plan, s: RunState, dataCutoff: Instant, o: Observation)
    requires ValidPlan(plan) && Finished(plan, s, dataCutoff) && o in plan.observations
    ensures o.id in s.rows && |s.rows[o.id]| == |plan.horizons|
    ensures forall n | 0 <= n < |plan.horizons| ::
              var row := s.rows[o.id][n];
              && row.dataCutoff == dataCutoff && row.outcome.horizon == plan.horizons[n]
              && OutcomeFor(plan, o, dataCutoff, plan.horizons[n], row.outcome)
  {
    var end := EndOf(plan, o);
    OutcomesDefined(plan, o, dataCutoff, end, 0);
    DayExists(o.knowledgeCutoff);
    ListingEndLaw(plan.listings, o.securityId, DateOf(o.knowledgeCutoff));
    var outcomes := OutcomesFrom(plan, o, dataCutoff, end, 0).value;
    assert s.rows[o.id] == ToRows(outcomes, dataCutoff);
    hide OutcomesFrom, Compute, Finished, ValidPlan, ListingEnd, EarliestEnd, OutcomeLaws.OnDay;
    forall n | 0 <= n < |plan.horizons|
      ensures OutcomeFor(plan, o, dataCutoff, plan.horizons[n], outcomes[n])
    {
      assert OutcomeAt(plan, o, dataCutoff, end, plan.horizons[n]) == Ok(outcomes[n]);
    }
  }

  lemma StoredComputed(plan: Plan, s: RunState, dataCutoff: Instant, o: Observation, n: nat)
    returns (end: Option<Date>)
    requires ValidPlan(plan) && Finished(plan, s, dataCutoff) && o in plan.observations && n < |plan.horizons|
    requires o.snapshotId.Some?
    ensures o.id in s.rows && n < |s.rows[o.id]|
    ensures Compute(plan.seriesAsOf(o.securityId, dataCutoff), plan.benchmarkAsOf(dataCutoff),
                    plan.entryBarAsOf(o.securityId, o.knowledgeCutoff), o.knowledgeCutoff, plan.horizons[n], end)
            == Ok(s.rows[o.id][n].outcome)
  {
    StoredRows(plan, s, dataCutoff, o);
    hide Finished, ValidPlan, Compute, EarliestEnd, OutcomeLaws.OnDay;
    var x := s.rows[o.id][n].outcome;
    assert OutcomeFor(plan, o, dataCutoff, plan.horizons[n], x);
    var day, e :| OutcomeLaws.OnDay(o.knowledgeCutoff, day) && EarliestEnd(plan.listings, o.securityId, day, e)
      && Compute(plan.seriesAsOf(o.securityId, dataCutoff), plan.benchmarkAsOf(dataCutoff),
                 plan.entryBarAsOf(o.securityId, o.knowledgeCutoff), o.knowledgeCutoff, plan.horizons[n], e) == Ok(x);
    end := e;
  }

  /** The stored return of an observation solves `entry * (1 + return) == exit` over the prices at the data cutoff. */
  lemma StoredReturn(plan: Plan, s: RunState, dataCutoff: Instant, o: Observation, n: nat, entry: Bar, exit: Bar)
    requires ValidPlan(plan) && Finished(plan, s, dataCutoff) && o in plan.observations && n < |plan.horizons|
    requires o.snapshotId.Some? && plan.entryBarAsOf(o.securityId, o.knowledgeCutoff).Some?
    requires var series := plan.seriesAsOf(o.securityId, dataCutoff);
             && OutcomeLaws.Exits(series, plan.entryBarAsOf(o.securityId, o.knowledgeCutoff).value, o.knowledgeCutoff,
                                  plan.horizons[n], entry, exit)
             && entry.close > 0.0 && forall a | a in series.actions :: !OutcomeLaws.Uncovered(a, entry, exit)
    ensures o.id in s.rows && n < |s.rows[o.id]|
    ensures var x := s.rows[o.id][n].outcome;
            && x.entryDate == Some(entry.date) && x.exitDate == Some(exit.date)
            && x.securityReturn.Some? && OutcomeLaws.Takes(entry.close, x.securityReturn.value, exit.close)
  {
    var end := StoredComputed(plan, s, dataCutoff, o, n);
    hide *;
    hide OutcomeLaws.Exits, OutcomeLaws.Uncovered, OutcomeLaws.Takes;
    OutcomeLaws.SecurityReturn(
      plan.seriesAsOf(o.securityId, dataCutoff), plan.benchmarkAsOf(dataCutoff),
      plan.entryBarAsOf(o.securityId, o.knowledgeCutoff).value, o.knowledgeCutoff, plan.horizons[n], end, entry, exit);
  }

  // --- Counts ---

  /** How many stored rows of these observations satisfy a test. */
  ghost function HowMany(s: RunState, observations: seq<Observation>, p: Row -> bool): nat {
    if observations == [] then 0
    else |Filter(RowsOf(s, observations[0].id), p)| + HowMany(s, observations[1..], p)
  }

  predicate IsAvailable(r: Row) {
    r.outcome.status == "available"
  }

  predicate IsSecurityOnly(r: Row) {
    r.outcome.status == "security_return_available"
  }

  predicate IsUnavailable(r: Row) {
    r.outcome.status != "available" && r.outcome.status != "security_return_available"
  }

  lemma {:induction false} RowsTallied(rows: seq<Row>)
    ensures RowsTally(rows) ==
            Tally(|Filter(rows, IsAvailable)|, |Filter(rows, IsSecurityOnly)|, |Filter(rows, IsUnavailable)|)
  {
    if rows != [] { RowsTallied(rows[1..]); }
  }

  /** The rows of these observations are the expected ones. */
  ghost predicate AsExpected(plan: Plan, s: RunState, observations: seq<Observation>, dataCutoff: Instant) {
    forall o | o in observations :: RowsOf(s, o.id) == Expected(plan, o, dataCutoff)
  }

  lemma AsExpectedStep(plan: Plan, s: RunState, observations: seq<Observation>, dataCutoff: Instant)
    requires observations != [] && AsExpected(plan, s, observations, dataCutoff)
    ensures RowsOf(s, observations[0].id) == Expected(plan, observations[0], dataCutoff)
    ensures AsExpected(plan, s, observations[1..], dataCutoff)
  {
    hide Expected, RowsOf;
    assert observations[0] in observations && forall o | o in observations[1..] :: o in observations;
  }

  ghost function Tallied(s: RunState, observations: seq<Observation>): Tally {
    Tally(HowMany(s, observations, IsAvailable), HowMany(s, observations, IsSecurityOnly),
          HowMany(s, observations, IsUnavailable))
  }

  lemma HowManyStep(s: RunState, observations: seq<Observation>, p: Row -> bool)
    requires observations != []
    ensures HowMany(s, observations, p) ==
            |Filter(RowsOf(s, observations[0].id), p)| + HowMany(s, observations[1..], p)
  {
    hide Filter, RowsOf;
  }

  lemma TalliedStep(s: RunState, observations: seq<Observation>)
    requires observations != []
    ensures Tallied(s, observations) == Plus(RowsTally(RowsOf(s, observations[0].id)), Tallied(s, observations[1..]))
  {
    hide Filter, RowsTally, RowsOf, IsAvailable, IsSecurityOnly, IsUnavailable;
    RowsTallied(RowsOf(s, observations[0].id));
    HowManyStep(s, observations, IsAvailable);
    HowManyStep(s, observations, IsSecurityOnly);
    HowManyStep(s, observations, IsUnavailable);
    hide HowMany;
  }

  lemma {:induction false} PlanTallied(plan: Plan, s: RunState, observations: seq<Observation>, dataCutoff: Instant)
    requires AsExpected(plan, s, observations, dataCutoff)
    ensures PlanTally(plan, observations, dataCutoff) == Tallied(s, observations)
  {
    if observations != [] {
      AsExpectedStep(plan, s, observations, dataCutoff);
      PlanTallied(plan, s, observations[1..], dataCutoff);
      TalliedStep(s, observations);
      hide Expected, RowsTally, Plus, Tallied, AsExpected, RowsOf;
    }
  }

  /** The reported counts are the numbers of stored rows with each status. */
  ghost predicate CountsRows(plan: Plan, s: RunState, c: Counts) {
    && c.available == HowMany(s, plan.observations, IsAvailable)
    && c.securityOnly == HowMany(s, plan.observations, IsSecurityOnly)
    && c.unavailable == HowMany(s, plan.observations, IsUnavailable)
  }

  lemma CompleteCountsRows(plan: Plan, s: RunState, c: Counts, dataCutoff: Instant)
    requires Finished(plan, s, dataCutoff) && CountsComplete(plan, c, dataCutoff)
    ensures CountsRows(plan, s, c)
  {
    assert AsExpected(plan, s, plan.observations, dataCutoff) by { hide Expected; }
    PlanTallied(plan, s, plan.observations, dataCutoff);
    hide Expected, PlanTally, HowMany, Finished, AsExpected, Total, Plus;
  }

  // --- Created and reused ---

  /** The observations without a stored row. */
  ghost function Unstored(s: RunState, observations: seq<Observation>): nat {
    if observations == [] then 0
    else (if RowsOf(s, observations[0].id) == [] then 1 else 0) + Unstored(s, observations[1..])
  }

  lemma {:induction false} AllCreated(p: Progress, all: seq<Outcome>, i: nat, dataCutoff: Instant)
    requires i <= |all| && DistinctHorizons(all) && p.rows == ToRows(all[..i], dataCutoff)
    ensures var r := AddOutcomes(p, all[i..], dataCutoff);
            r.Ok? && r.value.counts.created == p.counts.created + |all| - i
    decreases |all| - i
  {
    if i < |all| {
      assert all[i..][0] == all[i] && all[i..][1..] == all[i + 1..];
      NotYetStored(all, i, dataCutoff);
      hide RowAt, ToRows, DistinctHorizons;
      AllCreated(AddOutcome(p, all[i], dataCutoff).value, all, i + 1, dataCutoff);
    }
  }

  lemma {:induction false} NoneCreated(p: Progress, all: seq<Outcome>, i: nat, dataCutoff: Instant)
    requires i <= |all| && DistinctHorizons(all) && p.rows == ToRows(all, dataCutoff)
    ensures var r := AddOutcomes(p, all[i..], dataCutoff);
            r.Ok? && r.value.counts.created == p.counts.created
    decreases |all| - i
  {
    if i < |all| {
      assert all[i..][0] == all[i] && all[i..][1..] == all[i + 1..];
      FirstWithAt(p.rows, RowHorizon, i);
      hide RowAt, ToRows, DistinctHorizons;
      NoneCreated(AddOutcome(p, all[i], dataCutoff).value, all, i + 1, dataCutoff);
    }
  }

  /** An observation creates all of its rows or none. */
  lemma ObserveCreates(plan: Plan, dataCutoff: Instant, w: Work, o: Observation)
    requires ValidPlan(plan) && Atomic(plan, w.state, o, dataCutoff)
    ensures var next := Observe(plan, dataCutoff, w, o);
            && next.Ok?
            && next.value.counts.created
               == w.counts.created + if RowsOf(w.state, o.id) == [] then |plan.horizons| else 0
  {
    ExpectedOutcomes(plan, o, dataCutoff);
    hide OutcomesOf, AddOutcomes, DistinctHorizons;
    var all := OutcomesOf(plan, o, dataCutoff).value;
    assert all[0..] == all && ToRows(all[..0], dataCutoff) == [];
    var p := Progress(RowsOf(w.state, o.id), w.counts);
    if p.rows == [] {
      AllCreated(p, all, 0, dataCutoff);
    } else {
      assert Expected(plan, o, dataCutoff) == ToRows(all, dataCutoff);
      NoneCreated(p, all, 0, dataCutoff);
    }
  }

  lemma {:induction false} UnstoredKept(s: RunState, t: RunState, observations: seq<Observation>)
    requires forall o | o in observations :: RowsOf(s, o.id) == RowsOf(t, o.id)
    ensures Unstored(s, observations) == Unstored(t, observations)
  {
    if observations != [] {
      assert observations[0] in observations && forall o | o in observations[1..] :: o in observations;
      UnstoredKept(s, t, observations[1..]);
    }
  }

  /** Observing one leaves the rows of observations with other ids. */
  lemma OthersKept(plan: Plan, dataCutoff: Instant, w: Work, o: Observation, observations: seq<Observation>)
    requires ValidPlan(plan) && Atomic(plan, w.state, o, dataCutoff)
    requires forall x | x in observations :: x.id != o.id
    ensures var next := Observe(plan, dataCutoff, w, o);
            next.Ok? && Unstored(next.value.state, observations) == Unstored(w.state, observations)
  {
    ObserveCompletes(plan, dataCutoff, w, o);
    var next := Observe(plan, dataCutoff, w, o);
    hide Observe, Expected, RowsTally, Atomic, ValidPlan;
    forall x | x in observations ensures RowsOf(next.value.state, x.id) == RowsOf(w.state, x.id) {
    }
    hide RowsOf;
    UnstoredKept(next.value.state, w.state, observations);
  }

  lemma AtomicAt(plan: Plan, s: RunState, dataCutoff: Instant, o: Observation)
    requires Midway(plan, s, dataCutoff) && o in plan.observations
    ensures Atomic(plan, s, o, dataCutoff)
  {
    hide Atomic;
  }

  lemma {:induction false} LoopCreates(plan: Plan, dataCutoff: Instant, w: Work, observations: seq<Observation>)
    requires ValidPlan(plan) && Midway(plan, w.state, dataCutoff)
    requires (forall o | o in observations :: o in plan.observations) && Distinct(observations, ObservationId)
    ensures var t := Observations(plan, dataCutoff, w, observations);
            && t.end.Ok?
            && t.end.value.counts.created
               == w.counts.created + BacktestBuild.Times(Unstored(w.state, observations), |plan.horizons|)
    decreases |observations|
  {
    if observations != [] {
      var o, rest := observations[0], observations[1..];
      assert o in observations && forall x | x in rest :: x in observations;
      RestDistinct(observations);
      hide Observe, Midway, ValidPlan, Atomic, Distinct, RowsOf;
      var next := Observe(plan, dataCutoff, w, o);
      ObserveMidway(plan, dataCutoff, w, o);
      AtomicAt(plan, w.state, dataCutoff, o);
      ObserveCreates(plan, dataCutoff, w, o);
      OthersKept(plan, dataCutoff, w, o, rest);
      LoopCreates(plan, dataCutoff, next.value, rest);
      OneMoreRow(Unstored(w.state, rest), |plan.horizons|);
      hide BacktestBuild.Times;
    }
  }

  lemma RestDistinct(observations: seq<Observation>)
    requires observations != [] && Distinct(observations, ObservationId)
    ensures Distinct(observations[1..], ObservationId)
    ensures forall x | x in observations[1..] :: x.id != observations[0].id
  {
    var rest := observations[1..];
    forall i, j | 0 <= i < j < |rest| ensures ObservationId(rest[i]) != ObservationId(rest[j]) {
      assert ObservationId(observations[i + 1]) != ObservationId(observations[j + 1]);
    }
    forall x | x in rest ensures x.id != observations[0].id {
      var i :| 0 <= i < |rest| && rest[i] == x;
      assert ObservationId(observations[0]) != ObservationId(observations[i + 1]);
    }
  }

  lemma {:induction false} InsertUnstored(s: RunState, o: Observation, observations: seq<Observation>)
    ensures Unstored(s, Insert(o, observations, ObservationOrder)) == Unstored(s, [o] + observations)
  {
    hide LexLeq, ObservationOrder, RowsOf;
    assert ([o] + observations)[1..] == observations;
    if observations != [] && !LexLeq(ObservationOrder(o), ObservationOrder(observations[0])) {
      InsertUnstored(s, o, observations[1..]);
      assert ([o] + observations[1..])[1..] == observations[1..];
      var inserted := Insert(o, observations[1..], ObservationOrder);
      assert ([observations[0]] + inserted)[1..] == inserted;
    }
  }

  lemma {:induction false} SortUnstored(s: RunState, observations: seq<Observation>)
    ensures Unstored(s, Sort(observations, ObservationOrder)) == Unstored(s, observations)
  {
    hide RowsOf, LexLeq;
    if observations != [] {
      SortUnstored(s, observations[1..]);
      InsertUnstored(s, observations[0], Sort(observations[1..], ObservationOrder));
      var sorted := Sort(observations[1..], ObservationOrder);
      assert ([observations[0]] + sorted)[1..] == sorted;
    }
  }

  /**
   * What a successful attempt reports: the stored rows by status, and as created exactly the rows of the observations
   * that had none.
   */
  lemma AttemptReports(plan: Plan, s: RunState, dataCutoff: Instant)
    requires ValidPlan(plan) && Resumable(plan, s, dataCutoff)
    ensures var a := Build(plan, s, dataCutoff);
            && a.result.Ok? && a.commits != []
            && CountsRows(plan, LastOr(a.commits, s), a.result.value.counts)
            && a.result.value.counts.created
               == BacktestBuild.Times(Unstored(s, plan.observations), |plan.horizons|)
  {
    AttemptFinishes(plan, s, dataCutoff);
    LoopFinishes(plan, s, dataCutoff);
    AttemptShape(plan, s, dataCutoff);
    StartMidway(plan, s, dataCutoff);
    var sorted := Sort(plan.observations, ObservationOrder);
    MultisetElements(sorted, plan.observations);
    SortDistinct(plan.observations, ObservationOrder, ObservationId);
    var a := Build(plan, s, dataCutoff);
    var start := Start(s, dataCutoff);
    UnstoredKept(s, start.state, plan.observations);
    SortUnstored(start.state, plan.observations);
    hide Build, Observations, Sort, Finished, Resumable, CountsComplete, Midway, Distinct, CountsRows, Unstored;
    CompleteCountsRows(plan, LastOr(a.commits, s), a.result.value.counts, dataCutoff);
    LoopCreates(plan, dataCutoff, start, sorted);
    assert start.counts.created == 0;
  }

  // --- The order of the commits ---

  /** Observations in order: by knowledge cutoff, symbol as text, and id. */
  ghost predicate ObservedBefore(a: Observation, b: Observation) {
    if a.knowledgeCutoff != b.knowledgeCutoff then a.knowledgeCutoff < b.knowledgeCutoff
    else if a.symbol != b.symbol then EventReading.TextBefore(a.symbol, b.symbol)
    else a.id <= b.id
  }

  lemma ObservationKeyOrder(a: Observation, b: Observation)
    requires LexLeq(ObservationOrder(a), ObservationOrder(b))
    ensures ObservedBefore(a, b)
  {
    var ka, kb := TextKey(a.symbol) + [-1, a.id as int], TextKey(b.symbol) + [-1, b.id as int];
    assert ObservationOrder(a) == [a.knowledgeCutoff] + ka && ObservationOrder(b) == [b.knowledgeCutoff] + kb;
    hide LexLeq, ObservationOrder, EventReading.TextBefore;
    EventReading.LexHead(a.knowledgeCutoff, ka, b.knowledgeCutoff, kb);
    if LexLeq(ka, kb) { EventReading.TextOrder(a.symbol, b.symbol, a.id, b.id); }
    if a.symbol == b.symbol && EventReading.TextBefore(a.symbol, b.symbol) { EventReading.NotBeforeItself(a.symbol); }
  }

  ghost function Ids(observations: seq<Observation>): set<Uuid> {
    set o | o in observations :: o.id
  }

  lemma ObserveAddsId(plan: Plan, dataCutoff: Instant, w: Work, o: Observation)
    requires Observe(plan, dataCutoff, w, o).Ok?
    ensures Observe(plan, dataCutoff, w, o).value.state.rows.Keys == w.state.rows.Keys + {o.id}
  {
    hide OutcomesOf, AddOutcomes;
  }

  lemma {:induction false} CommitsGrow(plan: Plan, dataCutoff: Instant, w: Work, observations: seq<Observation>, k: nat)
    requires k < |Observations(plan, dataCutoff, w, observations).commits|
    ensures k < |observations|
    ensures Observations(plan, dataCutoff, w, observations).commits[k].rows.Keys
            == w.state.rows.Keys + Ids(observations[..k + 1])
    decreases |observations|
  {
    hide Observe;
    var o, rest := observations[0], observations[1..];
    var next := Observe(plan, dataCutoff, w, o);
    var commits := Observations(plan, dataCutoff, w, observations).commits;
    assert next.Ok? && commits == [next.value.state] + Observations(plan, dataCutoff, next.value, rest).commits;
    hide Observations;
    ObserveAddsId(plan, dataCutoff, w, o);
    if k == 0 {
      assert observations[..1] == [o] && commits[0] == next.value.state;
    } else {
      CommitsGrow(plan, dataCutoff, next.value, rest, k - 1);
      assert commits[k].rows.Keys == next.value.state.rows.Keys + Ids(rest[..k]);
      IdsCons(o, rest[..k]);
      assert observations[..k + 1] == [o] + rest[..k];
    }
  }

  lemma IdsCons(o: Observation, rest: seq<Observation>)
    ensures Ids([o] + rest) == {o.id} + Ids(rest)
  {
    assert forall x :: x in [o] + rest <==> x == o || x in rest;
  }

  /**
   * An attempt takes the observations in order: after its k-th commit the run holds rows of what it held before and
   * of the first k observations by knowledge cutoff, symbol and id.
   */
  lemma CommitsInOrder(plan: Plan, s: RunState, dataCutoff: Instant) returns (observations: seq<Observation>)
    requires ValidPlan(plan) && Resumable(plan, s, dataCutoff)
    ensures multiset(observations) == multiset(plan.observations)
    ensures forall i, j | 0 <= i < j < |observations| :: ObservedBefore(observations[i], observations[j])
    ensures var commits := Build(plan, s, dataCutoff).commits;
            && |commits| == |observations| + 1
            && forall k | 0 <= k < |observations| ::
                 commits[k].rows.Keys == s.rows.Keys + Ids(observations[..k + 1])
  {
    observations := Sort(plan.observations, ObservationOrder);
    SortAscending(plan.observations, ObservationOrder);
    LoopFinishes(plan, s, dataCutoff);
    AttemptShape(plan, s, dataCutoff);
    var start, commits := Start(s, dataCutoff), LoopTrace(plan, s, dataCutoff).commits;
    CommitsCounted(plan, dataCutoff, start, observations);
    assert commits == Observations(plan, dataCutoff, start, observations).commits;
    hide Build, Sort, Finished, Resumable, CountsComplete, Midway, ValidPlan, LexLeq, ObservationOrder, ObservedBefore,
         Observations, LoopTrace;
    forall i, j | 0 <= i < j < |observations| ensures ObservedBefore(observations[i], observations[j]) {
      ObservationKeyOrder(observations[i], observations[j]);
    }
    forall k | 0 <= k < |observations| ensures commits[k].rows.Keys == s.rows.Keys + Ids(observations[..k + 1]) {
      CommitsGrow(plan, dataCutoff, start, observations, k);
    }
  }

  lemma {:induction false} CommitsCounted(plan: Plan, dataCutoff: Instant, w: Work, observations: seq<Observation>)
    ensures var t := Observations(plan, dataCutoff, w, observations);
            t.end.Ok? ==> |t.commits| == |observations|
    decreases |observations|
  {
    hide Observe;
    if observations != [] {
      var next := Observe(plan, dataCutoff, w, observations[0]);
      if next.Ok? { CommitsCounted(plan, dataCutoff, next.value, observations[1..]); }
    }
  }
}
