/** Resuming an outcome build over attempts between which the listings may change: when it succeeds, and with what. */
module BacktestResume {
  import opened Prelude
  import opened Sorting
  import opened Dictionaries
  import opened ForwardOutcomes
  import opened BacktestBuild

  ghost predicate SameButListings(base: Plan, plan: Plan) {
    plan == base.(listings := plan.listings)
  }

  // --- What depends on a listing's end ---

  predicate IsShort(o: Outcome) {
    o.provenance.ShortHistory?
  }

  /** The end shows in an outcome exactly when its horizon has no exit. */
  lemma EndShows(plan: Plan, o: Observation, dataCutoff: Instant, e: Option<Date>, f: Option<Date>, horizon: int)
    requires horizon > 0
    ensures var a, b := OutcomeAt(plan, o, dataCutoff, e, horizon), OutcomeAt(plan, o, dataCutoff, f, horizon);
            && a.Ok? && b.Ok?
            && (IsShort(a.value) <==> IsShort(b.value))
            && (IsShort(a.value) ==> a.value.provenance.listingValidTo == e)
            && (!IsShort(a.value) ==> a == b)
  {
    hide Future, FirstWithId, Blocking, LastOn, Growth;
  }

  lemma {:induction false} OutcomesIgnoreListings(
      plan: Plan, listings: seq<Listing>, o: Observation, dataCutoff: Instant, end: Option<Date>, n: nat)
    requires n <= |plan.horizons|
    ensures OutcomesFrom(plan.(listings := listings), o, dataCutoff, end, n)
            == OutcomesFrom(plan, o, dataCutoff, end, n)
    decreases |plan.horizons| - n
  {
    if n < |plan.horizons| {
      OutcomesIgnoreListings(plan, listings, o, dataCutoff, end, n + 1);
      hide Compute;
    }
  }

  lemma ExpectedIgnoresListings(base: Plan, plan: Plan, o: Observation, dataCutoff: Instant, end: Option<Date>)
    requires SameButListings(base, plan)
    ensures ExpectedWith(plan, o, dataCutoff, end) == ExpectedWith(base, o, dataCutoff, end)
  {
    OutcomesIgnoreListings(base, plan.listings, o, dataCutoff, end, 0);
  }

  // --- States ---

  /** Nothing is stored for the observation, or everything as some attempt saw its listing. */
  ghost predicate StoredWhole(plan: Plan, s: RunState, o: Observation, dataCutoff: Instant) {
    RowsOf(s, o.id) == [] || exists end :: RowsOf(s, o.id) == ExpectedWith(plan, o, dataCutoff, end)
  }

  /** A state that interrupted attempts may leave, whatever listings they saw. */
  ghost predicate WellStored(plan: Plan, s: RunState, dataCutoff: Instant) {
    && s.status == SnapshotsBuilt
    && (s.dataCutoff.Some? ==> s.dataCutoff.value == dataCutoff)
    && (forall id | id in s.rows :: exists o | o in plan.observations :: o.id == id)
    && (forall o | o in plan.observations :: StoredWhole(plan, s, o, dataCutoff))
  }

  /** Every stored horizon without an exit names the listing end that the table states now. */
  ghost predicate ListingUnchanged(plan: Plan, s: RunState, o: Observation) {
    forall row | row in RowsOf(s, o.id) :: IsShort(row.outcome) ==>
      row.outcome.provenance.listingValidTo == EndOf(plan, o)
  }

  ghost predicate ListingsUnchanged(plan: Plan, s: RunState) {
    forall o | o in plan.observations :: ListingUnchanged(plan, s, o)
  }

  /** Stored rows stay as they are. */
  ghost predicate KeepsRows(s: RunState, later: RunState) {
    forall id | RowsOf(s, id) != [] :: RowsOf(later, id) == RowsOf(s, id)
  }

  lemma WellStoredSame(base: Plan, plan: Plan, s: RunState, dataCutoff: Instant)
    requires SameButListings(base, plan)
    ensures WellStored(plan, s, dataCutoff) <==> WellStored(base, s, dataCutoff)
  {
    hide ExpectedWith;
    forall o, end ensures ExpectedWith(plan, o, dataCutoff, end) == ExpectedWith(base, o, dataCutoff, end) {
      ExpectedIgnoresListings(base, plan, o, dataCutoff, end);
    }
    forall o ensures StoredWhole(plan, s, o, dataCutoff) <==> StoredWhole(base, s, o, dataCutoff) {
    }
    hide StoredWhole;
    assert plan.observations == base.observations;
  }

  /** The rows of one end, outcome by outcome. */
  lemma ExpectedRows(plan: Plan, o: Observation, dataCutoff: Instant, end: Option<Date>)
    requires ValidPlan(plan)
    ensures var rows := ExpectedWith(plan, o, dataCutoff, end);
            && |rows| == |plan.horizons|
            && (forall i | 0 <= i < |rows| ::
                 && OutcomeAt(plan, o, dataCutoff, end, plan.horizons[i]) == Ok(rows[i].outcome)
                 && rows[i].dataCutoff == dataCutoff && rows[i].outcome.horizon == plan.horizons[i])
  {
    OutcomesDefined(plan, o, dataCutoff, end, 0);
    hide OutcomesFrom, OutcomeAt;
  }

  /** The stored rows are those of the current listings exactly when no listing end that shows has changed. */
  lemma AtomicIff(plan: Plan, s: RunState, o: Observation, dataCutoff: Instant)
    requires ValidPlan(plan) && StoredWhole(plan, s, o, dataCutoff)
    ensures Atomic(plan, s, o, dataCutoff) <==> ListingUnchanged(plan, s, o)
  {
    var rows, now := RowsOf(s, o.id), Expected(plan, o, dataCutoff);
    if rows != [] {
      var end :| rows == ExpectedWith(plan, o, dataCutoff, end);
      ExpectedRows(plan, o, dataCutoff, end);
      ExpectedRows(plan, o, dataCutoff, EndOf(plan, o));
      hide ExpectedWith, EndOf, OutcomeAt;
      forall i | 0 <= i < |rows|
        ensures IsShort(rows[i].outcome) ==> rows[i].outcome.provenance.listingValidTo == end
        ensures IsShort(now[i].outcome) ==> now[i].outcome.provenance.listingValidTo == EndOf(plan, o)
        ensures !IsShort(rows[i].outcome) ==> rows[i] == now[i]
      {
        assert plan.horizons[i] in plan.horizons;
        EndShows(plan, o, dataCutoff, end, EndOf(plan, o), plan.horizons[i]);
        EndShows(plan, o, dataCutoff, EndOf(plan, o), end, plan.horizons[i]);
      }
      hide ValidPlan;
      if ListingUnchanged(plan, s, o) {
        if i :| 0 <= i < |rows| && IsShort(rows[i].outcome) {
          assert rows[i] in rows;
          assert end == EndOf(plan, o);
        } else {
          assert rows == now;
        }
      }
    }
  }

  // --- A conflict ---

  lemma {:induction false} AddOutcomesConflicts(p: Progress, all: seq<Outcome>, i: nat, k: nat, dataCutoff: Instant)
    requires i <= k < |all| == |p.rows| && DistinctHorizons(all)
    requires forall j | 0 <= j < |all| :: p.rows[j].outcome.horizon == all[j].horizon
    requires p.rows[k] != Row(all[k], dataCutoff)
    ensures AddOutcomes(p, all[i..], dataCutoff) == Err(OutcomeConflict)
    decreases k - i
  {
    assert all[i..][0] == all[i] && all[i..][1..] == all[i + 1..];
    assert RowHorizon(p.rows[i]) == all[i].horizon;
    FirstWithAt(p.rows, RowHorizon, i);
    if p.rows[i] == Row(all[i], dataCutoff) {
      assert i < k;
      AddOutcomesConflicts(AddOutcome(p, all[i], dataCutoff).value, all, i + 1, k, dataCutoff);
    }
  }

  lemma DifferAt(a: seq<Row>, b: seq<Row>) returns (k: nat)
    requires |a| == |b| && a != b
    ensures k < |a| && a[k] != b[k]
  {
    k :| 0 <= k < |a| && a[k] != b[k];
  }

  /** An observation stored under another end that shows stops the attempt. */
  lemma ObserveConflicts(plan: Plan, dataCutoff: Instant, w: Work, o: Observation)
    requires ValidPlan(plan) && StoredWhole(plan, w.state, o, dataCutoff) && !Atomic(plan, w.state, o, dataCutoff)
    ensures Observe(plan, dataCutoff, w, o) == Err(OutcomeConflict)
  {
    var rows := RowsOf(w.state, o.id);
    var end :| rows == ExpectedWith(plan, o, dataCutoff, end);
    OutcomesWithEnd(plan, o, dataCutoff, EndOf(plan, o));
    ExpectedRows(plan, o, dataCutoff, end);
    ExpectedRows(plan, o, dataCutoff, EndOf(plan, o));
    var all := OutcomesOf(plan, o, dataCutoff).value;
    var now := Expected(plan, o, dataCutoff);
    assert now == ToRows(all, dataCutoff);
    hide ExpectedWith, OutcomesFrom, OutcomeAt, EndOf, AddOutcomes, DistinctHorizons;
    var k := DifferAt(rows, now);
    assert all[0..] == all;
    AddOutcomesConflicts(Progress(rows, w.counts), all, 0, k, dataCutoff);
  }

  // --- The loop over any well-stored state ---

  /** A state with one observation's rows replaced. */
  ghost predicate Replaced(s: RunState, t: RunState, id: Uuid, rows: seq<Row>) {
    t == s.(rows := s.rows[id := rows])
  }

  lemma ReplacedRows(s: RunState, t: RunState, id: Uuid, rows: seq<Row>, other: Uuid)
    requires Replaced(s, t, id, rows)
    ensures RowsOf(t, other) == if other == id then rows else RowsOf(s, other)
  {
  }

  lemma ReplacedAtomic(plan: Plan, s: RunState, t: RunState, o: Observation, x: Observation, dataCutoff: Instant)
    requires ValidPlan(plan) && o in plan.observations && x in plan.observations && Atomic(plan, s, o, dataCutoff)
    requires StoredWhole(plan, s, x, dataCutoff) && Replaced(s, t, o.id, Expected(plan, o, dataCutoff))
    ensures StoredWhole(plan, t, x, dataCutoff)
    ensures Atomic(plan, t, x, dataCutoff) <==> Atomic(plan, s, x, dataCutoff)
  {
    ReplacedRows(s, t, o.id, Expected(plan, o, dataCutoff), x.id);
    if x.id == o.id { SameObservation(plan, x, o); }
    hide RowsOf, Replaced, ValidPlan, ExpectedWith, EndOf;
  }

  lemma ReplacedKeeps(plan: Plan, s: RunState, t: RunState, o: Observation, dataCutoff: Instant)
    requires Atomic(plan, s, o, dataCutoff) && Replaced(s, t, o.id, Expected(plan, o, dataCutoff))
    ensures KeepsRows(s, t)
  {
    hide Expected;
    forall id | RowsOf(s, id) != [] ensures RowsOf(t, id) == RowsOf(s, id) {
      ReplacedRows(s, t, o.id, Expected(plan, o, dataCutoff), id);
    }
  }

  lemma ObserveWellStored(plan: Plan, dataCutoff: Instant, w: Work, o: Observation)
    requires ValidPlan(plan) && WellStored(plan, w.state, dataCutoff) && o in plan.observations
    requires Atomic(plan, w.state, o, dataCutoff)
    ensures var next := Observe(plan, dataCutoff, w, o);
            && next.Ok? && WellStored(plan, next.value.state, dataCutoff) && KeepsRows(w.state, next.value.state)
            && (forall x | x in plan.observations ::
                  Atomic(plan, next.value.state, x, dataCutoff) <==> Atomic(plan, w.state, x, dataCutoff))
  {
    ObserveReplaces(plan, dataCutoff, w, o);
    var t := Observe(plan, dataCutoff, w, o).value.state;
    assert forall x | x in plan.observations :: StoredWhole(plan, w.state, x, dataCutoff);
    hide Observe, Expected, Atomic, StoredWhole, ValidPlan, KeepsRows, Replaced, WellStored;
    forall x | x in plan.observations
      ensures StoredWhole(plan, t, x, dataCutoff)
      ensures Atomic(plan, t, x, dataCutoff) <==> Atomic(plan, w.state, x, dataCutoff)
    {
      ReplacedAtomic(plan, w.state, t, o, x, dataCutoff);
    }
    ReplacedKeeps(plan, w.state, t, o, dataCutoff);
    ReplacedWellStored(plan, w.state, t, o, Expected(plan, o, dataCutoff), dataCutoff);
  }

  lemma ObserveReplaces(plan: Plan, dataCutoff: Instant, w: Work, o: Observation)
    requires ValidPlan(plan) && Atomic(plan, w.state, o, dataCutoff)
    ensures var next := Observe(plan, dataCutoff, w, o);
            next.Ok? && Replaced(w.state, next.value.state, o.id, Expected(plan, o, dataCutoff))
  {
    ObserveCompletes(plan, dataCutoff, w, o);
    hide Observe, Expected, RowsTally, Plus, TallyOf, Atomic, ValidPlan;
  }

  lemma ReplacedWellStored(
      plan: Plan, s: RunState, t: RunState, o: Observation, rows: seq<Row>, dataCutoff: Instant)
    requires WellStored(plan, s, dataCutoff) && o in plan.observations && Replaced(s, t, o.id, rows)
    requires forall x | x in plan.observations :: StoredWhole(plan, t, x, dataCutoff)
    ensures WellStored(plan, t, dataCutoff)
  {
    hide StoredWhole;
    forall id | id in t.rows ensures exists x | x in plan.observations :: x.id == id {
      if id != o.id { assert id in s.rows; }
    }
  }

  lemma KeepsTransitive(a: RunState, b: RunState, c: RunState)
    requires KeepsRows(a, b) && KeepsRows(b, c)
    ensures KeepsRows(a, c)
  {
    hide RowsOf;
  }

  /** The loop succeeds exactly when every observation's rows are current, and never alters a stored row. */
  lemma {:induction false} LoopIff(plan: Plan, dataCutoff: Instant, w: Work, observations: seq<Observation>)
    requires ValidPlan(plan) && WellStored(plan, w.state, dataCutoff)
    requires forall o | o in observations :: o in plan.observations
    ensures var t := Observations(plan, dataCutoff, w, observations);
            && (t.end.Ok? <==> forall o | o in observations :: Atomic(plan, w.state, o, dataCutoff))
            && (t.end.Err? ==> t.end.error == OutcomeConflict)
            && forall c | c in t.commits :: WellStored(plan, c, dataCutoff) && KeepsRows(w.state, c)
    decreases |observations|
  {
    if observations != [] {
      var o, rest := observations[0], observations[1..];
      assert o in observations && observations == [o] + rest;
      assert StoredWhole(plan, w.state, o, dataCutoff);
      if Atomic(plan, w.state, o, dataCutoff) {
        ObserveWellStored(plan, dataCutoff, w, o);
        var next := Observe(plan, dataCutoff, w, o).value;
        hide Observe, Atomic, WellStored, ValidPlan, KeepsRows, StoredWhole;
        LoopIff(plan, dataCutoff, next, rest);
        forall c | c in Observations(plan, dataCutoff, next, rest).commits ensures KeepsRows(w.state, c) {
          KeepsTransitive(w.state, next.state, c);
        }
      } else {
        ObserveConflicts(plan, dataCutoff, w, o);
        hide Observe, WellStored, ValidPlan, KeepsRows, StoredWhole;
      }
    }
  }

  // --- One attempt ---

  lemma StartWellStored(plan: Plan, s: RunState, dataCutoff: Instant)
    requires WellStored(plan, s, dataCutoff)
    ensures WellStored(plan, Start(s, dataCutoff).state, dataCutoff)
    ensures forall o :: Atomic(plan, Start(s, dataCutoff).state, o, dataCutoff) <==> Atomic(plan, s, o, dataCutoff)
    ensures KeepsRows(s, Start(s, dataCutoff).state)
  {
    hide ExpectedWith, Expected;
    assert forall id :: RowsOf(Start(s, dataCutoff).state, id) == RowsOf(s, id);
    hide RowsOf;
    forall o | o in plan.observations ensures StoredWhole(plan, Start(s, dataCutoff).state, o, dataCutoff) {
      assert StoredWhole(plan, s, o, dataCutoff);
    }
  }

  lemma ResumableIff(plan: Plan, s: RunState, dataCutoff: Instant)
    requires ValidPlan(plan) && WellStored(plan, s, dataCutoff)
    ensures Resumable(plan, s, dataCutoff) <==> ListingsUnchanged(plan, s)
    ensures Resumable(plan, s, dataCutoff) <==> forall o | o in plan.observations :: Atomic(plan, s, o, dataCutoff)
  {
    hide Atomic, StoredWhole, ListingUnchanged, ValidPlan;
    forall o | o in plan.observations ensures Atomic(plan, s, o, dataCutoff) <==> ListingUnchanged(plan, s, o) {
      AtomicIff(plan, s, o, dataCutoff);
    }
  }

  /** The shape of an attempt on a run whose snapshots are built. */
  lemma AttemptFrom(plan: Plan, s: RunState, dataCutoff: Instant)
    requires WellStored(plan, s, dataCutoff)
    ensures var t, a := LoopTrace(plan, s, dataCutoff), Build(plan, s, dataCutoff);
            && (a.result.Ok? <==> t.end.Ok?) && (t.end.Err? ==> a == Attempt(t.commits, Err(t.end.error)))
            && (t.end.Ok? ==> a.commits == t.commits + [FinalState(t.end.value)])
  {
    hide Observations, Sort, StoredWhole;
  }

  /**
   * An attempt succeeds if and only if no stored horizon without an exit has a changed listing end. It fails only with
   * a conflict; whatever it commits can be taken up again, and no stored row is ever altered.
   */
  lemma ResumeIff(plan: Plan, s: RunState, dataCutoff: Instant)
    requires ValidPlan(plan) && WellStored(plan, s, dataCutoff)
    ensures var a := Build(plan, s, dataCutoff);
            && (a.result.Ok? <==> ListingsUnchanged(plan, s))
            && (a.result.Err? ==> a.result.error == OutcomeConflict)
            && (a.result.Ok? ==> Finished(plan, LastOr(a.commits, s), dataCutoff) && Resumable(plan, s, dataCutoff))
            && (forall c | c in a.commits ::
                  (WellStored(plan, c, dataCutoff) || Finished(plan, c, dataCutoff)) && KeepsRows(s, c))
  {
    var sorted := Sort(plan.observations, ObservationOrder);
    MultisetElements(sorted, plan.observations);
    StartWellStored(plan, s, dataCutoff);
    ResumableIff(plan, s, dataCutoff);
    AttemptFrom(plan, s, dataCutoff);
    LoopIff(plan, dataCutoff, Start(s, dataCutoff), sorted);
    assert LoopTrace(plan, s, dataCutoff) == Observations(plan, dataCutoff, Start(s, dataCutoff), sorted);
    hide Build, LoopTrace, Observations, Atomic, WellStored, ValidPlan, ListingsUnchanged, Resumable, Start, Sort,
         FinalState;
    LoopKeeps(plan, s, dataCutoff);
    if Resumable(plan, s, dataCutoff) { FinalKeeps(plan, s, dataCutoff); }
  }

  lemma LoopKeeps(plan: Plan, s: RunState, dataCutoff: Instant)
    requires ValidPlan(plan) && WellStored(plan, s, dataCutoff)
    ensures forall c | c in LoopTrace(plan, s, dataCutoff).commits :: KeepsRows(s, c)
  {
    var sorted := Sort(plan.observations, ObservationOrder);
    MultisetElements(sorted, plan.observations);
    StartWellStored(plan, s, dataCutoff);
    hide Observations, WellStored, ValidPlan, KeepsRows, Atomic, Start, Sort;
    LoopIff(plan, dataCutoff, Start(s, dataCutoff), sorted);
    forall c | c in LoopTrace(plan, s, dataCutoff).commits ensures KeepsRows(s, c) {
      KeepsTransitive(s, Start(s, dataCutoff).state, c);
    }
  }

  /** The last commit of a successful attempt. */
  lemma FinalKeeps(plan: Plan, s: RunState, dataCutoff: Instant)
    requires ValidPlan(plan) && Resumable(plan, s, dataCutoff)
    ensures var a := Build(plan, s, dataCutoff);
            && a.commits != [] && Finished(plan, LastOr(a.commits, s), dataCutoff)
            && KeepsRows(s, LastOr(a.commits, s))
  {
    AttemptFinishes(plan, s, dataCutoff);
    FinishedKeeps(plan, s, LastOr(Build(plan, s, dataCutoff).commits, s), dataCutoff);
    hide *;
  }

  lemma FinishedKeeps(plan: Plan, s: RunState, t: RunState, dataCutoff: Instant)
    requires Resumable(plan, s, dataCutoff) && Finished(plan, t, dataCutoff)
    ensures KeepsRows(s, t)
  {
    hide Expected;
    forall id | RowsOf(s, id) != [] ensures RowsOf(t, id) == RowsOf(s, id) {
      var o :| o in plan.observations && o.id == id;
      assert Atomic(plan, s, o, dataCutoff);
    }
  }

  // --- Runs of attempts ---

  /** Attempts, each under the listings of its own moment, that stop after any of their commits or before the first. */
  ghost predicate Interrupted(base: Plan, plans: seq<Plan>, dataCutoff: Instant, states: seq<RunState>) {
    && |states| == |plans| + 1
    && forall i | 0 <= i < |plans| ::
         && SameButListings(base, plans[i])
         && (states[i + 1] == states[i] || states[i + 1] in Build(plans[i], states[i], dataCutoff).commits)
  }

  ghost predicate FinishedUnderOne(plans: seq<Plan>, s: RunState, dataCutoff: Instant) {
    exists p | p in plans :: Finished(p, s, dataCutoff)
  }

  lemma ValidSame(base: Plan, plan: Plan)
    requires ValidPlan(base) && SameButListings(base, plan)
    ensures ValidPlan(plan)
  {
  }

  lemma InterruptedFront(base: Plan, plans: seq<Plan>, dataCutoff: Instant, states: seq<RunState>)
    requires Interrupted(base, plans, dataCutoff, states) && plans != []
    ensures Interrupted(base, plans[..|plans| - 1], dataCutoff, states[..|plans|])
  {
    hide Build, SameButListings;
    var n := |plans| - 1;
    forall i | 0 <= i < n
      ensures SameButListings(base, plans[..n][i])
      ensures states[..n + 1][i + 1] == states[..n + 1][i]
              || states[..n + 1][i + 1] in Build(plans[..n][i], states[..n + 1][i], dataCutoff).commits
    {
      assert plans[..n][i] == plans[i] && states[..n + 1][i] == states[i] && states[..n + 1][i + 1] == states[i + 1];
    }
  }

  /** One more attempt, from a state that can be taken up or a finished one. */
  lemma AttemptKeeps(base: Plan, plan: Plan, plans: seq<Plan>, s: RunState, c: RunState, dataCutoff: Instant)
    requires ValidPlan(base) && SameButListings(base, plan) && forall p | p in plans :: SameButListings(base, p)
    requires WellStored(base, s, dataCutoff) || FinishedUnderOne(plans, s, dataCutoff)
    requires c == s || c in Build(plan, s, dataCutoff).commits
    ensures WellStored(base, c, dataCutoff) || FinishedUnderOne(plans + [plan], c, dataCutoff)
    ensures KeepsRows(s, c)
  {
    ValidSame(base, plan);
    hide Build, WellStored, Finished, ValidPlan;
    if WellStored(base, s, dataCutoff) {
      WellStoredSame(base, plan, s, dataCutoff);
      WellStoredSame(base, plan, c, dataCutoff);
      ResumeIff(plan, s, dataCutoff);
      assert plan in plans + [plan];
    } else {
      var p :| p in plans && Finished(p, s, dataCutoff);
      assert p in plans + [plan];
      BuiltCommitsNothing(p, plan, s, dataCutoff);
    }
  }

  lemma BuiltCommitsNothing(p: Plan, plan: Plan, s: RunState, dataCutoff: Instant)
    requires Finished(p, s, dataCutoff)
    ensures Build(plan, s, dataCutoff).commits == []
  {
    hide Observations, Sort, Expected, StoredCounts;
  }

  /** After any such run the state can be taken up again or is finished, and no row ever stored has changed. */
  lemma {:induction false} InterruptionsKeep(
      base: Plan, plans: seq<Plan>, dataCutoff: Instant, states: seq<RunState>)
    requires ValidPlan(base) && Interrupted(base, plans, dataCutoff, states)
    requires WellStored(base, states[0], dataCutoff)
    ensures var last := states[|plans|];
            && (WellStored(base, last, dataCutoff) || FinishedUnderOne(plans, last, dataCutoff))
            && KeepsRows(states[0], last)
    decreases |plans|
  {
    if plans == [] {
      hide Build, WellStored;
    } else {
      var n := |plans| - 1;
      var front, plan := plans[..n], plans[n];
      InterruptedFront(base, plans, dataCutoff, states);
      assert states[n + 1] == states[n] || states[n + 1] in Build(plan, states[n], dataCutoff).commits;
      assert SameButListings(base, plan);
      assert forall p | p in front :: SameButListings(base, p);
      assert front + [plan] == plans && states[..|plans|][n] == states[n] && states[..|plans|][0] == states[0];
      hide Interrupted, Build, WellStored, FinishedUnderOne, KeepsRows, SameButListings;
      InterruptionsKeep(base, front, dataCutoff, states[..|plans|]);
      AttemptKeeps(base, plan, front, states[n], states[n + 1], dataCutoff);
      KeepsTransitive(states[0], states[n], states[n + 1]);
    }
  }

  /** Snapshots built and nothing stored yet. */
  ghost predicate Fresh(s: RunState, dataCutoff: Instant) {
    s.status == SnapshotsBuilt && s.rows == map[] && (s.dataCutoff.Some? ==> s.dataCutoff.value == dataCutoff)
  }

  lemma FreshResumable(plan: Plan, s: RunState, dataCutoff: Instant)
    requires Fresh(s, dataCutoff)
    ensures Resumable(plan, s, dataCutoff) && WellStored(plan, s, dataCutoff)
  {
    hide ExpectedWith;
  }

  /**
   * Crash and resume: after any run of stopped attempts from a fresh start, one more attempt succeeds if and only if no
   * stored horizon without an exit has a changed listing end, and then leaves exactly the rows, status and cutoff of
   * an uninterrupted build under the same listings, with the same status counts over the same total.
   */
  lemma ResumedEqualsUninterrupted(
      base: Plan, plans: seq<Plan>, dataCutoff: Instant, states: seq<RunState>, plan: Plan)
    requires ValidPlan(base) && Interrupted(base, plans, dataCutoff, states) && Fresh(states[0], dataCutoff)
    requires SameButListings(base, plan) && WellStored(base, states[|plans|], dataCutoff)
    ensures Build(plan, states[|plans|], dataCutoff).result.Ok? <==> ListingsUnchanged(plan, states[|plans|])
    ensures ListingsUnchanged(plan, states[|plans|]) ==>
              var resumed, straight :=
                Complete(plan, states[|plans|], dataCutoff), Complete(plan, states[0], dataCutoff);
              && Finished(plan, resumed, dataCutoff)
              && resumed.rows == straight.rows && resumed.status == straight.status
              && resumed.dataCutoff == straight.dataCutoff
    ensures ListingsUnchanged(plan, states[|plans|]) ==>
              var r, u := Build(plan, states[|plans|], dataCutoff).result, Build(plan, states[0], dataCutoff).result;
              && r.Ok? && u.Ok?
              && CountsComplete(plan, r.value.counts, dataCutoff) && CountsComplete(plan, u.value.counts, dataCutoff)
  {
    var last := states[|plans|];
    ValidSame(base, plan);
    WellStoredSame(base, plan, last, dataCutoff);
    hide Build, WellStored, Finished, ValidPlan, Interrupted, ListingsUnchanged, Resumable, SameButListings;
    ResumeIff(plan, last, dataCutoff);
    FreshResumable(plan, states[0], dataCutoff);
    AttemptFinishes(plan, states[0], dataCutoff);
    if ListingsUnchanged(plan, last) {
      AttemptFinishes(plan, last, dataCutoff);
      FinishedUnique(plan, Complete(plan, last, dataCutoff), Complete(plan, states[0], dataCutoff), dataCutoff);
    }
    hide CountsComplete, Fresh;
  }

  /** However it got there, a finished run holds what an uninterrupted build under its last listings leaves. */
  lemma FinishedLikeUninterrupted(plan: Plan, s: RunState, empty: RunState, dataCutoff: Instant)
    requires ValidPlan(plan) && Finished(plan, s, dataCutoff) && Fresh(empty, dataCutoff)
    ensures var straight := Complete(plan, empty, dataCutoff);
            s.rows == straight.rows && s.status == straight.status && s.dataCutoff == straight.dataCutoff
  {
    hide Finished, ValidPlan, Build, Resumable;
    FreshResumable(plan, empty, dataCutoff);
    AttemptFinishes(plan, empty, dataCutoff);
    FinishedUnique(plan, s, Complete(plan, empty, dataCutoff), dataCutoff);
  }

  // --- A listing that ends between two attempts ---

  /** Once a row is stored that names another end than the listings now, every later attempt fails. */
  lemma StaysBlocked(plan: Plan, s: RunState, later: RunState, o: Observation, dataCutoff: Instant)
    requires ValidPlan(plan) && o in plan.observations && !ListingUnchanged(plan, s, o)
    requires KeepsRows(s, later) && WellStored(plan, later, dataCutoff)
    ensures Build(plan, later, dataCutoff).result == Err(OutcomeConflict)
  {
    hide Build, WellStored, ValidPlan, EndOf;
    ResumeIff(plan, later, dataCutoff);
    assert RowsOf(later, o.id) == RowsOf(s, o.id) by {
      var row :| row in RowsOf(s, o.id) && IsShort(row.outcome);
    }
    assert !ListingUnchanged(plan, later, o);
  }

  /** What a symbol change does to the table: the active listing is closed, another opens. */
  function SymbolChanged(listings: seq<Listing>, securityId: Uuid, effective: Date): seq<Listing> {
    Map(listings, (l: Listing) =>
      if l.securityId == securityId && l.exchange == "NSE" && l.validFrom <= effective
         && (l.validTo.None? || l.validTo.value > effective)
      then l.(validTo := Some(effective)) else l)
    + [Listing(securityId, "NSE", effective, None)]
  }

  /** A security with one open listing: no end before the change, its effective date after. */
  lemma SymbolChangeEndsListing(securityId: Uuid, from: Date, day: Date, effective: Date)
    requires from <= day < effective
    ensures var open := [Listing(securityId, "NSE", from, None)];
            && ListingEnd(open, securityId, day) == None
            && ListingEnd(SymbolChanged(open, securityId, effective), securityId, day) == Some(effective)
  {
    var open := [Listing(securityId, "NSE", from, None)];
    var closed, next := Listing(securityId, "NSE", from, Some(effective)), Listing(securityId, "NSE", effective, None);
    assert SymbolChanged(open, securityId, effective) == [closed, next];
    assert open[1..] == [] && [closed, next][1..] == [next] && [next][1..] == [];
    assert ListingEnd([next], securityId, day) == None;
  }

  /**
   * The failing run: an attempt stops after its first observation, one of whose horizons has no exit; its listing ends
   * before the next attempt; that attempt, and every later one while the end stands, fails with a conflict.
   */
  lemma ListingChangeBlocks(plan: Plan, changed: Plan, s: RunState, dataCutoff: Instant)
    requires ValidPlan(plan) && SameButListings(plan, changed) && Fresh(s, dataCutoff) && plan.observations != []
    requires var first := Sort(plan.observations, ObservationOrder)[0];
             && EndOf(changed, first) != EndOf(plan, first)
             && exists row | row in Expected(plan, first, dataCutoff) :: IsShort(row.outcome)
    ensures var stopped := Build(plan, s, dataCutoff).commits;
            && stopped != [] && WellStored(changed, stopped[0], dataCutoff)
            && Build(changed, stopped[0], dataCutoff).result == Err(OutcomeConflict)
  {
    var sorted := Sort(plan.observations, ObservationOrder);
    MultisetElements(sorted, plan.observations);
    var first := sorted[0];
    assert first in sorted;
    var w := Start(s, dataCutoff);
    FreshResumable(plan, s, dataCutoff);
    StartMidway(plan, s, dataCutoff);
    LoopFinishes(plan, s, dataCutoff);
    AttemptShape(plan, s, dataCutoff);
    assert Atomic(plan, w.state, first, dataCutoff);
    ObserveCompletes(plan, dataCutoff, w, first);
    ResumeIff(plan, s, dataCutoff);
    var c := Build(plan, s, dataCutoff).commits[0];
    FirstCommit(plan, s, dataCutoff, sorted);
    hide Build, Observations, Sort, Expected, EndOf, ValidPlan, Midway, Resumable, Finished, KeepsRows, Observe;
    FirstBlocked(plan, changed, c, first, dataCutoff);
  }

  lemma FirstCommit(plan: Plan, s: RunState, dataCutoff: Instant, sorted: seq<Observation>)
    requires sorted == Sort(plan.observations, ObservationOrder) && sorted != []
    requires Resumable(plan, s, dataCutoff) && LoopTrace(plan, s, dataCutoff).end.Ok?
    ensures var next := Observe(plan, dataCutoff, Start(s, dataCutoff), sorted[0]);
            && next.Ok? && Build(plan, s, dataCutoff).commits != []
            && Build(plan, s, dataCutoff).commits[0] == next.value.state
  {
    AttemptShape(plan, s, dataCutoff);
    hide Observe, Build, Sort, Resumable;
  }

  lemma FirstBlocked(plan: Plan, changed: Plan, c: RunState, first: Observation, dataCutoff: Instant)
    requires ValidPlan(plan) && SameButListings(plan, changed) && first in plan.observations
    requires WellStored(plan, c, dataCutoff) && EndOf(changed, first) != EndOf(plan, first)
    requires RowsOf(c, first.id) == Expected(plan, first, dataCutoff)
    requires exists row | row in Expected(plan, first, dataCutoff) :: IsShort(row.outcome)
    ensures WellStored(changed, c, dataCutoff)
    ensures Build(changed, c, dataCutoff).result == Err(OutcomeConflict)
  {
    ValidSame(plan, changed);
    WellStoredSame(plan, changed, c, dataCutoff);
    ExpectedRows(plan, first, dataCutoff, EndOf(plan, first));
    var row :| row in Expected(plan, first, dataCutoff) && IsShort(row.outcome);
    var i :| 0 <= i < |plan.horizons| && Expected(plan, first, dataCutoff)[i] == row;
    assert plan.horizons[i] in plan.horizons;
    EndShows(plan, first, dataCutoff, EndOf(plan, first), EndOf(plan, first), plan.horizons[i]);
    hide Build, WellStored, EndOf, Expected, OutcomeAt, ValidPlan;
    assert !ListingUnchanged(changed, c, first);
    ResumeIff(changed, c, dataCutoff);
  }

  /** One observation on day 0 with one horizon, whose series ends on day 0. */
  function SmallPlan(listings: seq<Listing>): Plan {
    Plan([Observation(1, 7, "ABC", 0, Some(9))], [1],
         (security: Uuid, at: Instant) => Series([Bar(5, 0, 1.0, [])], [], 0), (at: Instant) => [],
         (security: Uuid, at: Instant) => Some(5), listings)
  }

  lemma SmallPlanShort(listings: seq<Listing>)
    ensures var plan := SmallPlan(listings);
            && ValidPlan(plan) && Sort(plan.observations, ObservationOrder) == plan.observations
            && exists row | row in Expected(plan, plan.observations[0], 0) :: IsShort(row.outcome)
  {
    var plan := SmallPlan(listings);
    var o := plan.observations[0];
    assert plan.observations == [o] && plan.observations[1..] == [];
    ExpectedRows(plan, o, 0, EndOf(plan, o));
    var rows := Expected(plan, o, 0);
    assert Future([Bar(5, 0, 1.0, [])], 0) == [];
    assert FirstWithId([Bar(5, 0, 1.0, [])], 5) == Some(Bar(5, 0, 1.0, []));
    hide Expected, ExpectedWith, OutcomesFrom, EndOf;
    assert IsShort(rows[0].outcome);
    assert rows[0] in rows;
  }

  /** A symbol change effective on day 1, between two attempts on that plan, makes it fail for good. */
  lemma SymbolChangeBlocks(s: RunState)
    requires Fresh(s, 0)
    ensures var open := [Listing(7, "NSE", 0, None)];
            var before, after := SmallPlan(open), SmallPlan(SymbolChanged(open, 7, 1));
            && Build(before, s, 0).commits != []
            && Build(after, Build(before, s, 0).commits[0], 0).result == Err(OutcomeConflict)
  {
    var open := [Listing(7, "NSE", 0, None)];
    var before, after := SmallPlan(open), SmallPlan(SymbolChanged(open, 7, 1));
    SymbolChangeEndsListing(7, 0, 0, 1);
    SmallPlanShort(open);
    var o := before.observations[0];
    assert SameButListings(before, after);
    assert DateOf(o.knowledgeCutoff) == 0;
    assert EndOf(before, o) == None && EndOf(after, o) == Some(1);
    hide Build, Expected, SymbolChanged, ListingEnd;
    ListingChangeBlocks(before, after, s, 0);
  }
}
