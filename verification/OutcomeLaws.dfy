/** What a forward outcome says, in the fields of the bars, benchmark bars and actions it was computed from. */
module OutcomeLaws {
  import opened Prelude
  import opened Reals
  import opened Sorting
  import opened Dictionaries
  import opened ForwardOutcomes

  // --- Bars ---

  /** The day of an instant. */
  predicate OnDay(t: Instant, day: Date) {
    day * 86_400_000_000 <= t < (day + 1) * 86_400_000_000
  }

  /** The first bar with this id. */
  ghost predicate EntryBar(bars: seq<Bar>, id: Uuid, entry: Bar) {
    exists i | 0 <= i < |bars| :: bars[i] == entry && entry.id == id && forall j | 0 <= j < i :: bars[j].id != id
  }

  /** How many bars lie after a day. */
  ghost function CountLater(bars: seq<Bar>, day: Date): nat
    decreases |bars|
  {
    if bars == [] then 0
    else CountLater(bars[..|bars| - 1], day) + if bars[|bars| - 1].date > day then 1 else 0
  }

  /** The n-th bar after a day. */
  ghost predicate NthLater(bars: seq<Bar>, day: Date, n: int, exit: Bar) {
    exists i | 0 <= i < |bars| :: bars[i] == exit && exit.date > day && CountLater(bars[..i], day) == n - 1
  }

  /** The last bar of a date. */
  ghost predicate LastBarOn(bars: seq<BenchmarkBar>, d: Date, b: BenchmarkBar) {
    exists i | 0 <= i < |bars| :: bars[i] == b && b.date == d && forall j | i < j < |bars| :: bars[j].date != d
  }

  /** A rights issue or security replacement anchored after entry and not after exit. */
  predicate Uncovered(a: Action, entry: Bar, exit: Bar) {
    && (a.kind == "rights" || a.kind == "security_replacement")
    && a.anchor.Some? && a.anchor.value > entry.date && a.anchor.value <= exit.date
  }

  lemma DayIsDate(t: Instant, day: Date)
    requires OnDay(t, day)
    ensures DateOf(t) == day
  {
  }

  lemma {:induction false} FirstIsEntry(bars: seq<Bar>, id: Uuid)
    ensures FirstWithId(bars, id).Some? ==> EntryBar(bars, id, FirstWithId(bars, id).value)
    ensures FirstWithId(bars, id).None? ==> forall b | b in bars :: b.id != id
  {
    if bars != [] && bars[0].id != id {
      FirstIsEntry(bars[1..], id);
      if FirstWithId(bars, id).Some? {
        var entry := FirstWithId(bars, id).value;
        var i :| 0 <= i < |bars[1..]| && bars[1..][i] == entry && forall j | 0 <= j < i :: bars[1..][j].id != id;
        assert bars[i + 1] == entry;
        forall j | 0 <= j < i + 1 ensures bars[j].id != id {
          if j > 0 { assert bars[1..][j - 1] == bars[j]; }
        }
      }
    }
  }

  lemma EntryUnique(bars: seq<Bar>, id: Uuid, a: Bar, b: Bar)
    requires EntryBar(bars, id, a) && EntryBar(bars, id, b)
    ensures a == b
  {
  }

  lemma {:induction false} FutureCounts(bars: seq<Bar>, day: Date)
    ensures |Filter(bars, (b: Bar) => b.date > day)| == CountLater(bars, day)
    decreases |bars|
  {
    var p := (b: Bar) => b.date > day;
    if bars != [] {
      var front, last := bars[..|bars| - 1], [bars[|bars| - 1]];
      assert bars == front + last;
      FutureCounts(front, day);
      FilterAppend(front, last, p);
    }
  }

  /** The horizon's exit is the bar counted off. */
  lemma NthIsFuture(bars: seq<Bar>, day: Date, n: int, exit: Bar)
    requires NthLater(bars, day, n, exit)
    ensures var future := Filter(bars, (b: Bar) => b.date > day);
            0 < n <= |future| && future[n - 1] == exit
  {
    var p := (b: Bar) => b.date > day;
    var i :| 0 <= i < |bars| && bars[i] == exit && exit.date > day && CountLater(bars[..i], day) == n - 1;
    var a, b := bars[..i], bars[i..];
    assert bars == a + b && b[0] == exit;
    FutureCounts(a, day);
    FilterAppend(a, b, p);
    assert Filter(b, p) == [exit] + Filter(b[1..], p);
  }

  lemma {:induction false} LastIsLast(bars: seq<BenchmarkBar>, d: Date)
    ensures LastOn(bars, d).Some? ==> LastBarOn(bars, d, LastOn(bars, d).value)
    ensures LastOn(bars, d).None? ==> forall b | b in bars :: b.date != d
    decreases |bars|
  {
    if bars != [] {
      var n := |bars| - 1;
      LastIsLast(bars[..n], d);
      if bars[n].date != d && LastOn(bars, d).Some? {
        var b := LastOn(bars, d).value;
        var i :| 0 <= i < n && bars[..n][i] == b && b.date == d && forall j | i < j < n :: bars[..n][j].date != d;
        assert bars[i] == b;
        forall j | i < j < |bars| ensures bars[j].date != d {
          if j < n { assert bars[..n][j] == bars[j]; }
        }
      }
    }
  }

  lemma LastUnique(bars: seq<BenchmarkBar>, d: Date, a: BenchmarkBar, b: BenchmarkBar)
    requires LastBarOn(bars, d, a) && LastBarOn(bars, d, b)
    ensures a == b
  {
  }

  lemma LastBarIff(bars: seq<BenchmarkBar>, d: Date, b: BenchmarkBar)
    ensures LastBarOn(bars, d, b) <==> LastOn(bars, d) == Some(b)
  {
    LastIsLast(bars, d);
    if LastBarOn(bars, d, b) {
      if LastOn(bars, d).Some? { LastUnique(bars, d, b, LastOn(bars, d).value); }
    }
  }

  /** The return takes the one price to the other. */
  ghost predicate Takes(from: real, growth: real, to: real) {
    from * (1.0 + growth) == to
  }

  lemma GrowthSolves(from: real, to: real)
    requires from > 0.0
    ensures Takes(from, Growth(from, to), to)
  {
    var q := to / from;
    assert q * from == to;
    assert from * (1.0 + (q - 1.0)) == from * q;
  }

  // --- The laws ---

  /** The inputs of one outcome with an entry bar and an exit bar. */
  ghost predicate Exits(series: Series, id: Uuid, cutoff: Instant, horizon: int, entry: Bar, exit: Bar) {
    EntryBar(series.bars, id, entry)
    && exists day :: OnDay(cutoff, day) && NthLater(series.bars, day, horizon, exit)
  }

  lemma ExitsComputes(
      series: Series, benchmark: seq<BenchmarkBar>, id: Uuid, cutoff: Instant, horizon: int, listing: Option<Date>,
      entry: Bar, exit: Bar)
    requires Exits(series, id, cutoff, horizon, entry, exit)
    ensures Compute(series, benchmark, Some(id), cutoff, horizon, listing)
            == Ok(ExitedOutcome(entry, exit, series.actions, benchmark, horizon))
  {
    var day :| OnDay(cutoff, day) && NthLater(series.bars, day, horizon, exit);
    DayIsDate(cutoff, day);
    NthIsFuture(series.bars, day, horizon, exit);
    FirstIsEntry(series.bars, id);
    hide Filter, FirstWithId, ExitedOutcome, NthLater;
    var found := FirstWithId(series.bars, id);
    if found.Some? { EntryUnique(series.bars, id, entry, found.value); }
  }

  lemma BlockingIff(actions: seq<Action>, entry: Bar, exit: Bar)
    ensures Blocking(actions, entry.date, exit.date) == Filter(actions, (a: Action) => Uncovered(a, entry, exit))
  {
    FilterSame(actions, (a: Action) => Blocks(a, entry.date, exit.date), (a: Action) => Uncovered(a, entry, exit));
  }

  lemma {:induction false} FilterSame<T>(s: seq<T>, p: T -> bool, q: T -> bool)
    requires forall x | x in s :: p(x) == q(x)
    ensures Filter(s, p) == Filter(s, q)
  {
    if s != [] { FilterSame(s[1..], p, q); }
  }

  /** An uncovered action between entry and exit is reported in place of any return. */
  lemma UncoveredOutcome(
      series: Series, benchmark: seq<BenchmarkBar>, id: Uuid, cutoff: Instant, horizon: int, listing: Option<Date>,
      entry: Bar, exit: Bar)
    requires Exits(series, id, cutoff, horizon, entry, exit)
    ensures var o := Compute(series, benchmark, Some(id), cutoff, horizon, listing).value;
            && (o.status == "unsupported_corporate_action_state" <==>
                exists a | a in series.actions :: Uncovered(a, entry, exit))
            && (o.status == "unsupported_corporate_action_state" ==>
                  var between := Filter(series.actions, (a: Action) => Uncovered(a, entry, exit));
                  && o.horizon == horizon && o.entryDate == Some(entry.date) && o.exitDate == Some(exit.date)
                  && o.entryClose == Some(entry.close) && o.exitClose == Some(exit.close)
                  && o.securityReturn == None && o.benchmarkReturn == None && o.excessReturn == None
                  && o.provenance == UnsupportedActions(Map(between, (a: Action) => a.id), Map(between, (a: Action) => a.kind)))
  {
    hide Compute, Growth, LastOn, Blocking, Exits, PricedOutcome;
    ExitsComputes(series, benchmark, id, cutoff, horizon, listing, entry, exit);
    BlockingIff(series.actions, entry, exit);
    var between := Filter(series.actions, (a: Action) => Uncovered(a, entry, exit));
    if a :| a in series.actions && Uncovered(a, entry, exit) { assert a in between; }
    if between != [] { assert between[0] in between; }
    hide Filter, Uncovered;
    assert Map(between, (a: Action) => a.id) == seq(|between|, i requires 0 <= i < |between| => between[i].id);
    assert Map(between, (a: Action) => a.kind) == seq(|between|, i requires 0 <= i < |between| => between[i].kind);
    PricedStatus(entry, exit, benchmark, horizon);
  }

  lemma PricedStatus(entry: Bar, exit: Bar, benchmark: seq<BenchmarkBar>, horizon: int)
    ensures entry.close > 0.0 ==> PricedOutcome(entry, exit, benchmark, horizon).status in {AVAILABLE, SECURITY_ONLY}
  {
    hide LastOn, Growth;
  }

  /** Without such an action the entry price decides: a price that is not positive has no return. */
  lemma NonPositiveOutcome(
      series: Series, benchmark: seq<BenchmarkBar>, id: Uuid, cutoff: Instant, horizon: int, listing: Option<Date>,
      entry: Bar, exit: Bar)
    requires Exits(series, id, cutoff, horizon, entry, exit)
    requires forall a | a in series.actions :: !Uncovered(a, entry, exit)
    ensures var o := Compute(series, benchmark, Some(id), cutoff, horizon, listing).value;
            && (o.status == "non_positive_entry_price" <==> entry.close <= 0.0)
            && (entry.close <= 0.0 ==>
                  o == Outcome(horizon, "non_positive_entry_price", None, None, None, None, None, None, None, Nothing))
  {
    ExitsComputes(series, benchmark, id, cutoff, horizon, listing, entry, exit);
    NothingBlocks(series.actions, entry, exit);
    hide Compute, Growth, LastOn, Blocking, Exits;
  }

  lemma NothingBlocks(actions: seq<Action>, entry: Bar, exit: Bar)
    requires forall a | a in actions :: !Uncovered(a, entry, exit)
    ensures Blocking(actions, entry.date, exit.date) == []
  {
    BlockingIff(actions, entry, exit);
    FilterNone(actions, (a: Action) => Uncovered(a, entry, exit));
  }

  /** The price return solves `entry * (1 + return) == exit`. */
  lemma SecurityReturn(
      series: Series, benchmark: seq<BenchmarkBar>, id: Uuid, cutoff: Instant, horizon: int, listing: Option<Date>,
      entry: Bar, exit: Bar)
    requires Exits(series, id, cutoff, horizon, entry, exit) && entry.close > 0.0
    requires forall a | a in series.actions :: !Uncovered(a, entry, exit)
    ensures var o := Compute(series, benchmark, Some(id), cutoff, horizon, listing).value;
            && o.horizon == horizon && o.entryDate == Some(entry.date) && o.exitDate == Some(exit.date)
            && o.entryClose == Some(entry.close) && o.exitClose == Some(exit.close)
            && o.securityReturn.Some? && Takes(entry.close, o.securityReturn.value, exit.close)
            && o.provenance.Priced? && o.provenance.entryId == id && o.provenance.exitId == exit.id
            && (forall x :: x in o.provenance.appliedActions <==> x in entry.appliedActions || x in exit.appliedActions)
  {
    ExitsComputes(series, benchmark, id, cutoff, horizon, listing, entry, exit);
    NothingBlocks(series.actions, entry, exit);
    GrowthSolves(entry.close, exit.close);
    hide Compute, Growth, LastOn, Blocking, Takes, Exits;
  }

  /**
   * The benchmark return exists exactly when both dates have a benchmark bar and the first is positive. It is the
   * return between the last bars of the two dates, the excess is the difference, and the status says which there is.
   */
  lemma BenchmarkReturn(
      series: Series, benchmark: seq<BenchmarkBar>, id: Uuid, cutoff: Instant, horizon: int, listing: Option<Date>,
      entry: Bar, exit: Bar)
    requires Exits(series, id, cutoff, horizon, entry, exit) && entry.close > 0.0
    requires forall a | a in series.actions :: !Uncovered(a, entry, exit)
    ensures var o := Compute(series, benchmark, Some(id), cutoff, horizon, listing).value;
            && (o.benchmarkReturn.Some? <==>
                exists from, to :: LastBarOn(benchmark, entry.date, from) && LastBarOn(benchmark, exit.date, to)
                                   && from.close > 0.0)
            && (o.benchmarkReturn.Some? ==>
                  && o.status == "available" && o.excessReturn.Some? && o.securityReturn.Some?
                  && o.excessReturn.value + o.benchmarkReturn.value == o.securityReturn.value
                  && forall from, to | LastBarOn(benchmark, entry.date, from) && LastBarOn(benchmark, exit.date, to) ::
                       Takes(from.close, o.benchmarkReturn.value, to.close))
            && (o.benchmarkReturn.None? ==> o.status == "security_return_available" && o.excessReturn.None?)
            && o.provenance.Priced?
            && (forall b :: LastBarOn(benchmark, entry.date, b) ==> o.provenance.benchmarkEntry == Some(b.id))
            && (forall b :: LastBarOn(benchmark, exit.date, b) ==> o.provenance.benchmarkExit == Some(b.id))
            && ((forall b | b in benchmark :: b.date != entry.date) ==> o.provenance.benchmarkEntry == None)
            && ((forall b | b in benchmark :: b.date != exit.date) ==> o.provenance.benchmarkExit == None)
  {
    ExitsComputes(series, benchmark, id, cutoff, horizon, listing, entry, exit);
    NothingBlocks(series.actions, entry, exit);
    var b0, b1 := LastOn(benchmark, entry.date), LastOn(benchmark, exit.date);
    LastIsLast(benchmark, entry.date);
    LastIsLast(benchmark, exit.date);
    forall b
      ensures LastBarOn(benchmark, entry.date, b) <==> b0 == Some(b)
      ensures LastBarOn(benchmark, exit.date, b) <==> b1 == Some(b)
    {
      LastBarIff(benchmark, entry.date, b);
      LastBarIff(benchmark, exit.date, b);
    }
    if b0.Some? && b1.Some? && b0.value.close > 0.0 { GrowthSolves(b0.value.close, b1.value.close); }
    assert b0.Some? ==> b0.value in benchmark && b0.value.date == entry.date;
    assert b1.Some? ==> b1.value in benchmark && b1.value.date == exit.date;
    hide Compute, Growth, LastOn, Blocking, LastBarOn, Exits, Takes;
  }

  /** Too few bars after the cutoff: delisted exactly when the listing ended in between as far as the data knows. */
  lemma ShortOutcomeLaw(
      series: Series, benchmark: seq<BenchmarkBar>, id: Uuid, cutoff: Instant, horizon: int, listing: Option<Date>,
      entry: Bar, day: Date, asOfDay: Date)
    requires EntryBar(series.bars, id, entry) && OnDay(cutoff, day) && OnDay(series.asOf, asOfDay)
    requires CountLater(series.bars, day) < horizon
    ensures var o := Compute(series, benchmark, Some(id), cutoff, horizon, listing).value;
            && o.status == (if listing.Some? && listing.value > day && listing.value <= asOfDay
                            then "outcome_unavailable_due_to_delisting" else "insufficient_future_history")
            && o.horizon == horizon && o.entryDate == Some(entry.date) && o.entryClose == Some(entry.close)
            && o.exitDate == None && o.exitClose == None
            && o.securityReturn == None && o.benchmarkReturn == None && o.excessReturn == None
            && o.provenance == ShortHistory(CountLater(series.bars, day), horizon, listing)
  {
    DayIsDate(cutoff, day);
    DayIsDate(series.asOf, asOfDay);
    FutureCounts(series.bars, day);
    FirstIsEntry(series.bars, id);
    hide Filter, FirstWithId, ExitedOutcome, CountLater;
    EntryUnique(series.bars, id, entry, FirstWithId(series.bars, id).value);
  }

  /** Without an entry bar there is nothing to report but that. */
  lemma NoEntryOutcome(
      series: Series, benchmark: seq<BenchmarkBar>, id: Option<Uuid>, cutoff: Instant, horizon: int,
      listing: Option<Date>)
    requires horizon > 0 && (id.Some? ==> forall b | b in series.bars :: b.id != id.value)
    ensures Compute(series, benchmark, id, cutoff, horizon, listing) ==
            Ok(Outcome(
                 horizon,
                 if id.None? then "entry_price_unavailable_at_knowledge_cutoff"
                 else "entry_price_bar_not_represented_in_outcome_series",
                 None, None, None, None, None, None, None, if id.None? then Nothing else MissingEntryBar(id.value)))
  {
    if id.Some? { FirstIsEntry(series.bars, id.value); }
    hide Filter, FirstWithId, ExitedOutcome;
  }

  /** These are all the cases: an entry bar is there or not, and its exit is counted off or missing. */
  lemma OutcomeCases(series: Series, id: Uuid, cutoff: Instant, horizon: int, day: Date)
    requires horizon > 0 && OnDay(cutoff, day)
    ensures (forall b | b in series.bars :: b.id != id) || exists entry :: EntryBar(series.bars, id, entry)
    ensures CountLater(series.bars, day) < horizon || exists exit :: NthLater(series.bars, day, horizon, exit)
  {
    FirstIsEntry(series.bars, id);
    if CountLater(series.bars, day) >= horizon { NthExists(series.bars, day, horizon); }
  }

  lemma {:induction false} NthExists(bars: seq<Bar>, day: Date, n: int)
    requires 0 < n <= CountLater(bars, day)
    ensures exists exit :: NthLater(bars, day, n, exit)
    decreases |bars|
  {
    var k := |bars| - 1;
    if n <= CountLater(bars[..k], day) {
      NthExists(bars[..k], day, n);
      var exit :| NthLater(bars[..k], day, n, exit);
      var i :| 0 <= i < k && bars[..k][i] == exit && exit.date > day && CountLater(bars[..k][..i], day) == n - 1;
      assert bars[..k][..i] == bars[..i] && bars[i] == exit;
      assert NthLater(bars, day, n, exit);
    } else {
      assert NthLater(bars, day, n, bars[k]);
    }
  }
}
