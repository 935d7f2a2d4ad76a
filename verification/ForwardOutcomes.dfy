/** One forward outcome: an entry bar, the horizon-th later bar, and the return between them. */
module ForwardOutcomes {
  import opened Prelude
  import opened Reals
  import opened Sorting
  import opened Dictionaries

  datatype Bar = Bar(id: Uuid, date: Date, close: real, appliedActions: seq<Uuid>)

  datatype BenchmarkBar = BenchmarkBar(id: Uuid, date: Date, close: real)

  datatype Action = Action(id: Uuid, kind: string, anchor: Option<Date>)

  /** A point-in-time price series on one basis, with the corporate actions selected for it. */
  datatype Series = Series(bars: seq<Bar>, actions: seq<Action>, asOf: Instant)

  datatype Provenance =
    | Nothing
    | MissingEntryBar(barId: Uuid)
    | ShortHistory(available: nat, required: int, listingValidTo: Option<Date>)
    | UnsupportedActions(ids: seq<Uuid>, kinds: seq<string>)
    | Priced(entryId: Uuid, exitId: Uuid, appliedActions: set<Uuid>,
             benchmarkEntry: Option<Uuid>, benchmarkExit: Option<Uuid>)

  datatype Outcome = Outcome(
    horizon: int, status: string, entryDate: Option<Date>, exitDate: Option<Date>,
    entryClose: Option<real>, exitClose: Option<real>,
    securityReturn: Option<real>, benchmarkReturn: Option<real>, excessReturn: Option<real>,
    provenance: Provenance)

  const AVAILABLE := "available"
  const SECURITY_ONLY := "security_return_available"
  const UNSUPPORTED := "unsupported_corporate_action_state"
  const SHORT := "insufficient_future_history"
  const DELISTED := "outcome_unavailable_due_to_delisting"

  function Unavailable(horizon: int, status: string, provenance: Provenance): Outcome {
    Outcome(horizon, status, None, None, None, None, None, None, None, provenance)
  }

  /** Bars strictly after the cutoff's day, in series order. */
  function Future(bars: seq<Bar>, cutoff: Instant): seq<Bar> {
    Filter(bars, (b: Bar) => b.date > DateOf(cutoff))
  }

  function BarId(b: Bar): Uuid {
    b.id
  }

  function FirstWithId(bars: seq<Bar>, id: Uuid): Option<Bar> {
    FirstWith(bars, BarId, id)
  }

  function BenchmarkDate(b: BenchmarkBar): Date {
    b.date
  }

  /** The dictionary keyed by date keeps the last bar of a date. */
  function LastOn(bars: seq<BenchmarkBar>, d: Date): Option<BenchmarkBar> {
    LastWith(bars, BenchmarkDate, d)
  }

  /** An action between entry and exit that the price adjustment does not cover. */
  predicate Blocks(a: Action, entry: Date, exit: Date) {
    a.kind in {"rights", "security_replacement"} && a.anchor.Some? && entry < a.anchor.value <= exit
  }

  function Blocking(actions: seq<Action>, entry: Date, exit: Date): seq<Action> {
    Filter(actions, (a: Action) => Blocks(a, entry, exit))
  }

  function Growth(from: real, to: real): real
    requires from > 0.0
  {
    to / from - 1.0
  }

  function PricedOutcome(entry: Bar, exit: Bar, benchmark: seq<BenchmarkBar>, horizon: int): Outcome
    requires entry.close > 0.0
  {
    var security := Growth(entry.close, exit.close);
    var b0, b1 := LastOn(benchmark, entry.date), LastOn(benchmark, exit.date);
    var market :=
      if b0.Some? && b1.Some? && b0.value.close > 0.0 then Some(Growth(b0.value.close, b1.value.close)) else None;
    Outcome(
      horizon, if market.Some? then AVAILABLE else SECURITY_ONLY,
      Some(entry.date), Some(exit.date), Some(entry.close), Some(exit.close),
      Some(security), market, if market.Some? then Some(security - market.value) else None,
      Priced(entry.id, exit.id, (set x | x in entry.appliedActions) + (set x | x in exit.appliedActions),
             if b0.Some? then Some(b0.value.id) else None, if b1.Some? then Some(b1.value.id) else None))
  }

  /** The outcome once both bars are known. */
  function ExitedOutcome(entry: Bar, exit: Bar, actions: seq<Action>, benchmark: seq<BenchmarkBar>, horizon: int)
    : Outcome
  {
    var blocking := Blocking(actions, entry.date, exit.date);
    if blocking != [] then
      Outcome(
        horizon, UNSUPPORTED, Some(entry.date), Some(exit.date), Some(entry.close), Some(exit.close),
        None, None, None,
        UnsupportedActions(
          seq(|blocking|, i requires 0 <= i < |blocking| => blocking[i].id),
          seq(|blocking|, i requires 0 <= i < |blocking| => blocking[i].kind)))
    else if entry.close <= 0.0 then
      Unavailable(horizon, "non_positive_entry_price", Nothing)
    else
      PricedOutcome(entry, exit, benchmark, horizon)
  }

  function ShortOutcome(entry: Bar, available: nat, series: Series, cutoff: Instant, horizon: int,
                        listingValidTo: Option<Date>): Outcome
  {
    var delisted := listingValidTo.Some? && DateOf(cutoff) < listingValidTo.value <= DateOf(series.asOf);
    Outcome(
      horizon, if delisted then DELISTED else SHORT, Some(entry.date), None, Some(entry.close), None,
      None, None, None, ShortHistory(available, horizon, listingValidTo))
  }

  function Compute(
      series: Series, benchmark: seq<BenchmarkBar>, entryBarId: Option<Uuid>, cutoff: Instant, horizon: int,
      listingValidTo: Option<Date>): Result<Outcome, string>
  {
    if horizon <= 0 then
      Err("forward horizon must be positive")
    else
      var future := Future(series.bars, cutoff);
      if entryBarId.None? then
        Ok(Unavailable(horizon, "entry_price_unavailable_at_knowledge_cutoff", Nothing))
      else
        var entry := FirstWithId(series.bars, entryBarId.value);
        if entry.None? then
          Ok(Unavailable(horizon, "entry_price_bar_not_represented_in_outcome_series",
                         MissingEntryBar(entryBarId.value)))
        else if |future| < horizon then
          Ok(ShortOutcome(entry.value, |future|, series, cutoff, horizon, listingValidTo))
        else
          Ok(ExitedOutcome(entry.value, future[horizon - 1], series.actions, benchmark, horizon))
  }

  /** The entry bar is in the series and the horizon has its exit bar. */
  predicate HasExit(series: Series, entryBarId: Uuid, cutoff: Instant, horizon: int) {
    0 < horizon <= |Future(series.bars, cutoff)| && FirstWithId(series.bars, entryBarId).Some?
  }

  function ExitBar(series: Series, cutoff: Instant, horizon: int): Bar
    requires 0 < horizon <= |Future(series.bars, cutoff)|
  {
    Future(series.bars, cutoff)[horizon - 1]
  }

  // --- Stability under later data ---

  /** Data that arrives after an exit: it adds no blocking action and re-dates neither benchmark bar. */
  predicate LaterOnly(entry: Bar, exit: Bar, actions: seq<Action>, benchmark: seq<BenchmarkBar>) {
    && (forall a | a in actions :: !Blocks(a, entry.date, exit.date))
    && (forall b | b in benchmark :: b.date != entry.date && b.date != exit.date)
  }

  lemma ExitedOutcomeStable(
      entry: Bar, exit: Bar, actions: seq<Action>, benchmark: seq<BenchmarkBar>, horizon: int,
      laterActions: seq<Action>, laterBenchmark: seq<BenchmarkBar>)
    requires LaterOnly(entry, exit, laterActions, laterBenchmark)
    ensures ExitedOutcome(entry, exit, actions + laterActions, benchmark + laterBenchmark, horizon)
            == ExitedOutcome(entry, exit, actions, benchmark, horizon)
  {
    FilterAppend(actions, laterActions, (a: Action) => Blocks(a, entry.date, exit.date));
    FilterNone(laterActions, (a: Action) => Blocks(a, entry.date, exit.date));
    LastWithAppend(benchmark, laterBenchmark, BenchmarkDate, entry.date);
    LastWithAppend(benchmark, laterBenchmark, BenchmarkDate, exit.date);
    hide Filter, LastOn, Blocks, Growth;
    assert Blocking(actions + laterActions, entry.date, exit.date) == Blocking(actions, entry.date, exit.date);
  }

  /**
   * Once a horizon has its exit bar, nothing later can change its outcome: not appended bars, not benchmark
   * bars dated elsewhere than entry and exit, not actions that do not fall between entry and exit.
   */
  lemma LaterDataChangesNothing(
      series: Series, benchmark: seq<BenchmarkBar>, entryBarId: Uuid, cutoff: Instant, horizon: int,
      listing: Option<Date>, laterBars: seq<Bar>, laterActions: seq<Action>, laterBenchmark: seq<BenchmarkBar>,
      laterAsOf: Instant, laterListing: Option<Date>)
    requires HasExit(series, entryBarId, cutoff, horizon)
    requires LaterOnly(FirstWithId(series.bars, entryBarId).value, ExitBar(series, cutoff, horizon),
                       laterActions, laterBenchmark)
    ensures Compute(Series(series.bars + laterBars, series.actions + laterActions, laterAsOf),
                    benchmark + laterBenchmark, Some(entryBarId), cutoff, horizon, laterListing)
            == Compute(series, benchmark, Some(entryBarId), cutoff, horizon, listing)
  {
    var entry, exit := FirstWithId(series.bars, entryBarId).value, ExitBar(series, cutoff, horizon);
    FilterAppend(series.bars, laterBars, (b: Bar) => b.date > DateOf(cutoff));
    FirstWithAppend(series.bars, laterBars, BarId, entryBarId);
    ExitedOutcomeStable(entry, exit, series.actions, benchmark, horizon, laterActions, laterBenchmark);
    hide Filter, FirstWithId, ExitedOutcome, LaterOnly;
  }

  // --- Price basis ---

  function Scaled(price: real, k: real): real {
    k * price
  }

  function ScaleBar(b: Bar, k: real): Bar {
    b.(close := Scaled(b.close, k))
  }

  function ScaleBars(bars: seq<Bar>, k: real): (r: seq<Bar>) {
    if bars == [] then [] else [ScaleBar(bars[0], k)] + ScaleBars(bars[1..], k)
  }

  lemma {:induction false} ScaleCommutes(bars: seq<Bar>, k: real, cutoff: Instant, id: Uuid)
    ensures Future(ScaleBars(bars, k), cutoff) == ScaleBars(Future(bars, cutoff), k)
    ensures FirstWithId(ScaleBars(bars, k), id) ==
            match FirstWithId(bars, id) case None => None case Some(b) => Some(ScaleBar(b, k))
  {
    if bars != [] {
      ScaleCommutes(bars[1..], k, cutoff, id);
      var p := (b: Bar) => b.date > DateOf(cutoff);
      assert ScaleBars(bars, k)[1..] == ScaleBars(bars[1..], k);
      if p(bars[0]) {
        assert Future(bars, cutoff) == [bars[0]] + Future(bars[1..], cutoff);
        assert ([bars[0]] + Future(bars[1..], cutoff))[1..] == Future(bars[1..], cutoff);
      } else {
        assert Future(bars, cutoff) == Future(bars[1..], cutoff);
      }
    }
  }

  lemma {:induction false} ScaleAt(bars: seq<Bar>, k: real, i: nat)
    requires i < |bars|
    ensures |ScaleBars(bars, k)| == |bars| && ScaleBars(bars, k)[i] == ScaleBar(bars[i], k)
  {
    if i > 0 {
      ScaleAt(bars[1..], k, i - 1);
    } else if |bars| > 1 {
      ScaleAt(bars[1..], k, 0);
    }
  }

  lemma {:induction false} ScaleLength(bars: seq<Bar>, k: real)
    ensures |ScaleBars(bars, k)| == |bars|
  {
    if bars != [] { ScaleLength(bars[1..], k); }
  }

  lemma GrowthScaleFree(from: real, to: real, k: real)
    requires from > 0.0 && k > 0.0
    ensures Scaled(from, k) > 0.0
    ensures Growth(Scaled(from, k), Scaled(to, k)) == Growth(from, to)
  {
    var q := to / from;
    assert q * from == to;
    assert q * (k * from) == k * to;
  }

  function ScaleOption(x: Option<real>, k: real): Option<real> {
    if x.Some? then Some(Scaled(x.value, k)) else None
  }

  lemma ScaledExit(entry: Bar, exit: Bar, actions: seq<Action>, benchmark: seq<BenchmarkBar>, horizon: int, k: real)
    requires k > 0.0
    ensures var o := ExitedOutcome(entry, exit, actions, benchmark, horizon);
            ExitedOutcome(ScaleBar(entry, k), ScaleBar(exit, k), actions, benchmark, horizon) ==
            o.(entryClose := ScaleOption(o.entryClose, k), exitClose := ScaleOption(o.exitClose, k))
  {
    if entry.close > 0.0 {
      GrowthScaleFree(entry.close, exit.close, k);
    } else {
      ProductMonotone(entry.close, 0.0, k);
    }
    hide Blocking, LastOn, Growth, Scaled;
  }

  /** Rebasing all closes by one positive factor rescales the two prices and changes nothing else. */
  lemma PriceBasisIrrelevant(
      series: Series, benchmark: seq<BenchmarkBar>, entryBarId: Option<Uuid>, cutoff: Instant, horizon: int,
      listing: Option<Date>, k: real)
    requires horizon > 0 && k > 0.0
    ensures var o := Compute(series, benchmark, entryBarId, cutoff, horizon, listing).value;
            Compute(series.(bars := ScaleBars(series.bars, k)), benchmark, entryBarId, cutoff, horizon, listing) ==
            Ok(o.(entryClose := ScaleOption(o.entryClose, k), exitClose := ScaleOption(o.exitClose, k)))
  {
    if entryBarId.Some? {
      ScaleCommutes(series.bars, k, cutoff, entryBarId.value);
      var future := Future(series.bars, cutoff);
      ScaleLength(future, k);
      if HasExit(series, entryBarId.value, cutoff, horizon) {
        ScaleAt(future, k, horizon - 1);
        ScaledExit(FirstWithId(series.bars, entryBarId.value).value, future[horizon - 1],
                   series.actions, benchmark, horizon, k);
      }
      hide Future, FirstWithId, ScaleBars, ExitedOutcome;
    }
  }

  // --- Across horizons ---

  ghost predicate DateOrdered(bars: seq<Bar>) {
    forall i, j | 0 <= i < j < |bars| :: bars[i].date < bars[j].date
  }

  lemma {:induction false} FilterOrdered(bars: seq<Bar>, p: Bar -> bool)
    requires DateOrdered(bars)
    ensures DateOrdered(Filter(bars, p))
  {
    if bars != [] {
      var rest := bars[1..];
      assert DateOrdered(rest) by {
        forall i, j | 0 <= i < j < |rest| ensures rest[i].date < rest[j].date {
          assert bars[i + 1].date < bars[j + 1].date;
        }
      }
      FilterOrdered(rest, p);
      var f := Filter(rest, p);
      forall j | 0 <= j < |f| ensures bars[0].date < f[j].date {
        assert f[j] in f;
        var k :| 0 <= k < |rest| && rest[k] == f[j];
        assert bars[0].date < bars[k + 1].date;
      }
    }
  }

  /** A longer horizon with an exit exits strictly later, and always after the cutoff's day. */
  lemma ExitDatesIncrease(series: Series, cutoff: Instant, shorter: int, longer: int)
    requires DateOrdered(series.bars) && 0 < shorter < longer <= |Future(series.bars, cutoff)|
    ensures DateOf(cutoff) < ExitBar(series, cutoff, shorter).date < ExitBar(series, cutoff, longer).date
  {
    FilterOrdered(series.bars, (b: Bar) => b.date > DateOf(cutoff));
    var future := Future(series.bars, cutoff);
    assert future[shorter - 1] in future;
  }

  /** An unsupported action state is inherited by every longer horizon that has an exit. */
  lemma UnsupportedPersists(
      series: Series, benchmark: seq<BenchmarkBar>, entryBarId: Uuid, cutoff: Instant, shorter: int, longer: int,
      listing: Option<Date>)
    requires DateOrdered(series.bars) && 0 < shorter < longer
    requires HasExit(series, entryBarId, cutoff, shorter) && HasExit(series, entryBarId, cutoff, longer)
    requires Compute(series, benchmark, Some(entryBarId), cutoff, shorter, listing).value.status == UNSUPPORTED
    ensures Compute(series, benchmark, Some(entryBarId), cutoff, longer, listing).value.status == UNSUPPORTED
  {
    ExitDatesIncrease(series, cutoff, shorter, longer);
    var entry := FirstWithId(series.bars, entryBarId).value;
    var blocking := Blocking(series.actions, entry.date, ExitBar(series, cutoff, shorter).date);
    assert blocking != [];
    assert blocking[0] in blocking;
    assert blocking[0] in Blocking(series.actions, entry.date, ExitBar(series, cutoff, longer).date);
  }

  /** A horizon without an exit leaves every longer horizon without one, under the same status. */
  lemma ShortfallPersists(
      series: Series, benchmark: seq<BenchmarkBar>, entryBarId: Option<Uuid>, cutoff: Instant, shorter: int,
      longer: int, listing: Option<Date>)
    requires 0 < shorter < longer
    requires Compute(series, benchmark, entryBarId, cutoff, shorter, listing).value.status in {SHORT, DELISTED}
    ensures Compute(series, benchmark, entryBarId, cutoff, longer, listing).value.status
            == Compute(series, benchmark, entryBarId, cutoff, shorter, listing).value.status
  {
    if entryBarId.Some? && HasExit(series, entryBarId.value, cutoff, shorter) {
      hide Future, FirstWithId, Blocking, LastOn;
    }
  }
}
