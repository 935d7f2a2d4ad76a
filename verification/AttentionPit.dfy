/** Point-in-time reads of external attention evidence: two rounds of group-and-pick-latest. */
module AttentionPit {
  import opened Prelude
  import opened Sorting
  import opened Text

  const NEWS := "news_mentions_count"
  const ANALYST := "analyst_coverage_count"

  datatype Observation = Observation(
    id: Uuid, companyId: Uuid, securityId: Option<Uuid>, datasetId: Uuid,
    metric: string, count: int, unit: string, scope: string, methodology: string, definition: string,
    coverage: string, observationDate: Option<Date>, windowStart: Option<Instant>, windowEnd: Option<Instant>,
    availableAt: Instant, revisionAt: Option<Instant>, ingestedAt: Instant)

  datatype Source = Source(
    id: Uuid, datasetId: Uuid, externalId: string, availableAt: Option<Instant>, validation: string)

  /** An observation joined to its source record; source records are unique per observation. */
  datatype Row = Row(observation: Observation, source: Source)

  /** One declared semantic series and the knowledge cutoff. */
  datatype Query = Query(
    datasetId: Uuid, companyId: Uuid, metric: string, scope: string, methodology: string, definition: string,
    cutoff: Instant, securityId: Option<Uuid>, companyLevelOnly: bool)

  datatype Error =
    | BadSeries | AmbiguousRecord | AmbiguousIdentity
    | ProviderMismatch | AvailabilityMismatch | SecurityMismatch | InvalidObservation
    | BadWindow | AmbiguousWindow | NoSnapshotDate | AmbiguousSnapshot

  /** What distinguishes one measurement from another inside the table. */
  datatype EconomicIdentity = EconomicIdentity(
    companyId: Uuid, securityId: Option<Uuid>, metric: string, scope: string, methodology: string,
    definition: string, timing: Timing)

  datatype Timing = Window(start: Option<Instant>, end: Option<Instant>) | Snapshot(date: Option<Date>)

  datatype Payload = Payload(
    companyId: Uuid, securityId: Option<Uuid>, metric: string, count: int, unit: string, scope: string,
    methodology: string, definition: string, coverage: string, observationDate: Option<Date>,
    windowStart: Option<Instant>, windowEnd: Option<Instant>)

  function Id(r: Row): Uuid {
    r.observation.id
  }

  function ExternalId(r: Row): string {
    r.source.externalId
  }

  function IdentityOf(r: Row): EconomicIdentity {
    var o := r.observation;
    EconomicIdentity(
      o.companyId, o.securityId, o.metric, o.scope, o.methodology, o.definition,
      if o.metric == NEWS then Window(o.windowStart, o.windowEnd) else Snapshot(o.observationDate))
  }

  function PayloadOf(r: Row): Payload {
    var o := r.observation;
    Payload(o.companyId, o.securityId, o.metric, o.count, o.unit, o.scope, o.methodology, o.definition,
            o.coverage, o.observationDate, o.windowStart, o.windowEnd)
  }

  /** When a row became known, then when its provider revised it. */
  datatype Revision = Revision(available: Instant, revised: Instant) {
    predicate AtMost(other: Revision) {
      available < other.available || (available == other.available && revised <= other.revised)
    }
  }

  function RevisionOrder(r: Row): Revision {
    var o := r.observation;
    Revision(o.availableAt, if o.revisionAt.Some? then o.revisionAt.value else o.availableAt)
  }

  predicate IsVisible(r: Row, q: Query) {
    && r.observation.datasetId == q.datasetId
    && r.observation.availableAt <= q.cutoff
    && r.source.validation == "accepted"
  }

  predicate MatchesSeries(r: Row, q: Query) {
    var o := r.observation;
    && o.companyId == q.companyId
    && o.securityId == (if q.companyLevelOnly then None else q.securityId)
    && o.metric == q.metric
    && o.scope == q.scope
    && o.methodology == q.methodology
    && o.definition == Lower(q.definition)
  }

  predicate ValidSeries(q: Query) {
    && q.metric in {NEWS, ANALYST}
    && NonEmptyTrimmed(q.scope)
    && NonEmptyTrimmed(q.methodology)
    && IsDigestText(q.definition)
    && q.companyLevelOnly == q.securityId.None?
  }

  /** The checks every persisted observation passes before it is shown. */
  predicate ValidObservation(o: Observation) {
    && o.metric in {NEWS, ANALYST}
    && o.count >= 0 && o.unit == "count"
    && o.coverage in {"complete", "partial", "unknown"}
    && NonEmptyTrimmed(o.scope)
    && NonEmptyTrimmed(o.methodology)
    && IsCanonicalDigestText(o.definition)
    && if o.metric == NEWS then
         && o.observationDate.None?
         && o.windowStart.Some? && o.windowEnd.Some?
         && o.windowStart.value < o.windowEnd.value <= o.availableAt
       else
         && o.observationDate.Some?
         && o.observationDate.value <= DateOf(o.availableAt)
         && o.windowStart.None? && o.windowEnd.None?
  }

  /** The first objection the view raises against a row, if any. */
  function Objection(r: Row, securities: map<Uuid, Uuid>): Option<Error> {
    var o := r.observation;
    if r.source.datasetId != o.datasetId then Some(ProviderMismatch)
    else if r.source.availableAt != Some(o.availableAt) then Some(AvailabilityMismatch)
    else if o.securityId.Some? && !(o.securityId.value in securities
                                    && securities[o.securityId.value] == o.companyId) then Some(SecurityMismatch)
    else if !ValidObservation(o) then Some(InvalidObservation)
    else None
  }

  function Views(rows: seq<Row>, securities: map<Uuid, Uuid>): Result<seq<Row>, Error> {
    if rows == [] then
      Ok([])
    else if Objection(rows[0], securities).Some? then
      Err(Objection(rows[0], securities).value)
    else
      var rest :- Views(rows[1..], securities);
      Ok([rows[0]] + rest)
  }

  // --- The declarative reading ---

  /** Available earlier, or at the same time and revised no later; an unrevised row counts as revised when available. */
  predicate NotLater(s: Row, r: Row) {
    var a, b := s.observation, r.observation;
    || a.availableAt < b.availableAt
    || (a.availableAt == b.availableAt
        && (if a.revisionAt.Some? then a.revisionAt.value else a.availableAt)
           <= (if b.revisionAt.Some? then b.revisionAt.value else b.availableAt))
  }

  /** Not later, and of two rows that are equally late the one with the greater id or the same. */
  predicate NotLaterOrTied(s: Row, r: Row) {
    NotLater(s, r) && (NotLater(r, s) ==> r.observation.id <= s.observation.id)
  }

  /** The two-part order of the code is this order. */
  lemma OrderIsNotLater(s: Row, r: Row)
    ensures RevisionOrder(s).AtMost(RevisionOrder(r)) <==> NotLater(s, r)
    ensures RevisionOrder(s) == RevisionOrder(r) <==> NotLater(s, r) && NotLater(r, s)
  {
  }

  /** No row of the same identity is a later revision. */
  predicate IsTop<K(==)>(rows: seq<Row>, identity: Row -> K, r: Row) {
    && r in rows
    && forall s | s in rows && identity(s) == identity(r) :: NotLater(s, r)
  }

  /** Two latest revisions of one identity that say different things. */
  predicate Ambiguous<K(==)>(rows: seq<Row>, identity: Row -> K) {
    exists r, s | r in rows && s in rows ::
      && IsTop(rows, identity, r) && IsTop(rows, identity, s)
      && identity(r) == identity(s) && PayloadOf(r) != PayloadOf(s)
  }

  /** The latest revision of its identity, with the least id among equals. */
  predicate IsWinner<K(==)>(rows: seq<Row>, identity: Row -> K, r: Row) {
    && r in rows
    && forall s | s in rows && identity(s) == identity(r) :: NotLaterOrTied(s, r)
  }

  function OptionKey(o: Option<int>): seq<int> {
    if o.Some? then [1, o.value] else [0, 0]
  }

  /** The leading components of the result order are equal for all rows of one series. */
  function ResultOrder(r: Row): seq<int> {
    var o := r.observation;
    (if o.metric == NEWS then OptionKey(o.windowStart) + OptionKey(o.windowEnd) else OptionKey(o.observationDate))
    + [RevisionOrder(r).available, RevisionOrder(r).revised, o.id]
  }

  function Visible(rows: seq<Row>, q: Query): seq<Row> {
    Filter(rows, r => IsVisible(r, q))
  }

  /** Selected per external record first, then restricted to the series. */
  function Candidates(rows: seq<Row>, q: Query): seq<Row> {
    var visible := Visible(rows, q);
    Filter(visible, r => IsWinner(visible, ExternalId, r) && MatchesSeries(r, q))
  }

  function Resolved(rows: seq<Row>, q: Query): seq<Row> {
    var candidates := Candidates(rows, q);
    Sort(Filter(candidates, r => IsWinner(candidates, IdentityOf, r)), ResultOrder)
  }

  function ObservationsAsOf(rows: seq<Row>, q: Query, securities: map<Uuid, Uuid>): Result<seq<Row>, Error> {
    if !ValidSeries(q) then Err(BadSeries)
    else if Ambiguous(Visible(rows, q), ExternalId) then Err(AmbiguousRecord)
    else if Ambiguous(Candidates(rows, q), IdentityOf) then Err(AmbiguousIdentity)
    else Views(Resolved(rows, q), securities)
  }

  // --- The two-stage algorithm ---

  /** The rows a dictionary of lists holds under one key. */
  function Members<K(==)>(rows: seq<Row>, identity: Row -> K, k: K): (r: seq<Row>)
    ensures forall x | x in r :: x in rows && identity(x) == k
    ensures forall x | x in rows && identity(x) == k :: x in r
  {
    if rows == [] then
      []
    else
      var n := |rows| - 1;
      Members(rows[..n], identity, k) + if identity(rows[n]) == k then [rows[n]] else []
  }

  function LatestOrder(rows: seq<Row>): (order: Revision)
    requires rows != []
    ensures exists r | r in rows :: RevisionOrder(r) == order
  {
    if |rows| == 1 then
      assert rows[0] in rows;
      RevisionOrder(rows[0])
    else
      var rest := LatestOrder(rows[1..]);
      assert rows[0] in rows;
      if RevisionOrder(rows[0]).AtMost(rest) then rest else RevisionOrder(rows[0])
  }

  lemma {:induction false} LatestOrderIsMaximum(rows: seq<Row>)
    requires rows != []
    ensures forall r | r in rows :: RevisionOrder(r).AtMost(LatestOrder(rows))
  {
    if |rows| > 1 {
      LatestOrderIsMaximum(rows[1..]);
      forall r | r in rows ensures RevisionOrder(r).AtMost(LatestOrder(rows)) {
        if r != rows[0] { assert r in rows[1..]; }
      }
    }
  }

  function LeastId(rows: seq<Row>): (r: Row)
    requires rows != []
    ensures r in rows && forall s | s in rows :: Id(r) <= Id(s)
  {
    if |rows| == 1 then
      rows[0]
    else
      var rest := LeastId(rows[1..]);
      if Id(rows[0]) <= Id(rest) then rows[0] else rest
  }

  /** One group's latest revision; None is the "ambiguous changed revisions" error. */
  function Latest(rows: seq<Row>): Option<Row>
    requires rows != []
  {
    var order := LatestOrder(rows);
    var latest := Filter(rows, r => RevisionOrder(r) == order);
    if |set r | r in latest :: PayloadOf(r)| > 1 then
      None
    else
      assert latest != [] by {
        ghost var w :| w in rows && RevisionOrder(w) == order;
        assert w in latest;
      }
      Some(LeastId(latest))
  }

  lemma SetOfOne<T>(s: set<T>, a: T, b: T)
    requires a in s && b in s && |s| <= 1
    ensures a == b
  {
    assert |s - {a}| == |s| - 1;
    assert b !in s - {a};
  }

  lemma SetOfMany<T>(s: set<T>) returns (a: T, b: T)
    requires |s| > 1
    ensures a in s && b in s && a != b
  {
    a :| a in s;
    assert |s - {a}| == |s| - 1;
    b :| b in s - {a};
  }

  /** Inside one group: None exactly when two latest rows disagree, otherwise the least-id latest row. */
  lemma LatestIsWinner<K>(rows: seq<Row>, identity: Row -> K, k: K)
    requires Members(rows, identity, k) != []
    ensures var latest := Latest(Members(rows, identity, k));
            && (latest.None? ==> Ambiguous(rows, identity))
            && (latest.Some? ==> IsWinner(rows, identity, latest.value) && identity(latest.value) == k)
            && (latest.Some? ==> forall r, s | IsTop(rows, identity, r) && IsTop(rows, identity, s)
                  && identity(r) == k && identity(s) == k :: PayloadOf(r) == PayloadOf(s))
  {
    var group := Members(rows, identity, k);
    var order := LatestOrder(group);
    var tops := Filter(group, r => RevisionOrder(r) == order);
    LatestOrderIsMaximum(group);
    forall r | r in rows && identity(r) == k ensures IsTop(rows, identity, r) <==> r in tops {
      assert r in group;
      if IsTop(rows, identity, r) {
        var w :| w in group && RevisionOrder(w) == order;
      }
    }
    var payloads := set r | r in tops :: PayloadOf(r);
    if Latest(group).None? {
      var p, q := SetOfMany(payloads);
      var r :| r in tops && PayloadOf(r) == p;
      var s :| s in tops && PayloadOf(s) == q;
      assert IsTop(rows, identity, r) && IsTop(rows, identity, s);
    } else {
      forall r, s | IsTop(rows, identity, r) && IsTop(rows, identity, s) && identity(r) == k && identity(s) == k
        ensures PayloadOf(r) == PayloadOf(s)
      {
        assert r in tops && s in tops;
        assert PayloadOf(r) in payloads && PayloadOf(s) in payloads;
        SetOfOne(payloads, PayloadOf(r), PayloadOf(s));
      }
    }
  }

  /** A row id is a primary key. */
  ghost predicate DistinctIds(rows: seq<Row>) {
    Distinct(rows, Id)
  }

  lemma IdsIdentify(rows: seq<Row>, r: Row, s: Row)
    requires DistinctIds(rows) && r in rows && s in rows && Id(r) == Id(s)
    ensures r == s
  {
    var i :| 0 <= i < |rows| && rows[i] == r;
    var j :| 0 <= j < |rows| && rows[j] == s;
  }

  /** The dictionary of lists, with its keys in insertion order. */
  ghost predicate Grouped<K>(rows: seq<Row>, identity: Row -> K, keys: seq<K>, groups: map<K, seq<Row>>) {
    && groups.Keys == (set k | k in keys)
    && (forall k | k in groups :: groups[k] == Members(rows, identity, k) && groups[k] != [])
    && (forall r | r in rows :: identity(r) in groups)
    && (forall a, b | 0 <= a < b < |keys| :: keys[a] != keys[b])
  }

  lemma MembersStep<K>(rows: seq<Row>, r: Row, identity: Row -> K, k: K)
    ensures Members(rows + [r], identity, k) ==
            Members(rows, identity, k) + if identity(r) == k then [r] else []
  {
    assert (rows + [r])[..|rows|] == rows;
  }

  lemma MembersOfNewKey<K>(rows: seq<Row>, identity: Row -> K, k: K)
    requires forall r | r in rows :: identity(r) != k
    ensures Members(rows, identity, k) == []
  {
  }

  /** `setdefault(k, []).append(r)`. */
  function AppendTo<K(==)>(groups: map<K, seq<Row>>, k: K, r: Row): map<K, seq<Row>> {
    groups[k := (if k in groups then groups[k] else []) + [r]]
  }

  lemma GroupStep<K>(rows: seq<Row>, r: Row, identity: Row -> K, keys: seq<K>, groups: map<K, seq<Row>>)
    requires Grouped(rows, identity, keys, groups)
    ensures var k := identity(r);
            Grouped(rows + [r], identity, if k in groups then keys else keys + [k], AppendTo(groups, k, r))
  {
    var k := identity(r);
    var after := AppendTo(groups, k, r);
    if k !in groups { MembersOfNewKey(rows, identity, k); }
    hide Members;
    forall x | x in after ensures after[x] == Members(rows + [r], identity, x) && after[x] != [] {
      MembersStep(rows, r, identity, x);
    }
  }

  lemma NothingGrouped<K>(rows: seq<Row>, identity: Row -> K)
    ensures Grouped(rows[..0], identity, [], map[])
  {
  }

  method GroupBy<K(==)>(rows: seq<Row>, identity: Row -> K) returns (keys: seq<K>, groups: map<K, seq<Row>>)
    ensures Grouped(rows, identity, keys, groups)
  {
    keys, groups := [], map[];
    NothingGrouped(rows, identity);
    hide Grouped, AppendTo;
    for i := 0 to |rows|
      invariant Grouped(rows[..i], identity, keys, groups)
    {
      var k := identity(rows[i]);
      GroupStep(rows[..i], rows[i], identity, keys, groups);
      assert rows[..i + 1] == rows[..i] + [rows[i]];
      if k !in groups {
        keys := keys + [k];
      }
      groups := AppendTo(groups, k, rows[i]);
    }
    assert rows[..|rows|] == rows;
  }

  /** Each group has one undisputed latest row. */
  ghost predicate ChosenFrom<K>(keys: seq<K>, groups: map<K, seq<Row>>, chosen: seq<Row>) {
    && |chosen| == |keys|
    && forall a | 0 <= a < |keys| ::
         keys[a] in groups && groups[keys[a]] != [] && Latest(groups[keys[a]]) == Some(chosen[a])
  }

  lemma ChosenAreWinners<K>(
      rows: seq<Row>, identity: Row -> K, keys: seq<K>, groups: map<K, seq<Row>>, chosen: seq<Row>)
    requires Grouped(rows, identity, keys, groups) && ChosenFrom(keys, groups, chosen)
    ensures forall a | 0 <= a < |keys| :: IsWinner(rows, identity, chosen[a]) && identity(chosen[a]) == keys[a]
  {
    forall a | 0 <= a < |keys| ensures IsWinner(rows, identity, chosen[a]) && identity(chosen[a]) == keys[a] {
      LatestIsWinner(rows, identity, keys[a]);
    }
  }

  lemma ChosenUnambiguous<K>(
      rows: seq<Row>, identity: Row -> K, keys: seq<K>, groups: map<K, seq<Row>>, chosen: seq<Row>)
    requires Grouped(rows, identity, keys, groups) && ChosenFrom(keys, groups, chosen)
    ensures !Ambiguous(rows, identity)
  {
    forall r, s | IsTop(rows, identity, r) && IsTop(rows, identity, s) && identity(r) == identity(s)
      ensures PayloadOf(r) == PayloadOf(s)
    {
      var a :| 0 <= a < |keys| && keys[a] == identity(r);
      LatestIsWinner(rows, identity, keys[a]);
    }
  }

  /** An identity has at most one winner. */
  lemma OneWinner<K>(rows: seq<Row>, identity: Row -> K, r: Row, s: Row)
    requires DistinctIds(rows)
    requires IsWinner(rows, identity, r) && IsWinner(rows, identity, s) && identity(r) == identity(s)
    ensures r == s
  {
    assert RevisionOrder(r) == RevisionOrder(s);
    IdsIdentify(rows, r, s);
  }

  /** Keeping the latest of each group finds exactly the winners. */
  lemma WinnersAreChosen<K>(
      rows: seq<Row>, identity: Row -> K, keys: seq<K>, groups: map<K, seq<Row>>, chosen: seq<Row>)
    requires DistinctIds(rows) && Grouped(rows, identity, keys, groups) && ChosenFrom(keys, groups, chosen)
    ensures forall r :: r in chosen <==> IsWinner(rows, identity, r)
    ensures DistinctIds(chosen)
  {
    ChosenAreWinners(rows, identity, keys, groups, chosen);
    forall r | IsWinner(rows, identity, r) ensures r in chosen {
      var k := identity(r);
      assert k in groups;
      var a :| 0 <= a < |keys| && keys[a] == k;
      OneWinner(rows, identity, r, chosen[a]);
    }
    ChosenDistinct(rows, identity, keys, chosen);
  }

  lemma ChosenDistinct<K>(rows: seq<Row>, identity: Row -> K, keys: seq<K>, chosen: seq<Row>)
    requires DistinctIds(rows) && |chosen| == |keys|
    requires forall a, b | 0 <= a < b < |keys| :: keys[a] != keys[b]
    requires forall a | 0 <= a < |keys| :: chosen[a] in rows && identity(chosen[a]) == keys[a]
    ensures DistinctIds(chosen)
  {
    forall a, b | 0 <= a < b < |chosen| ensures Id(chosen[a]) != Id(chosen[b]) {
      if Id(chosen[a]) == Id(chosen[b]) {
        IdsIdentify(rows, chosen[a], chosen[b]);
      }
    }
  }

  lemma DisputedGroup<K>(rows: seq<Row>, identity: Row -> K, keys: seq<K>, groups: map<K, seq<Row>>, k: K)
    requires Grouped(rows, identity, keys, groups) && k in groups && Latest(groups[k]).None?
    ensures Ambiguous(rows, identity)
  {
    hide Latest;
    LatestIsWinner(rows, identity, k);
  }

  /** The latest row of every group, unless some group is ambiguous. */
  method ChooseEach<K(==)>(ghost rows: seq<Row>, ghost identity: Row -> K, keys: seq<K>, groups: map<K, seq<Row>>)
    returns (chosen: Option<seq<Row>>)
    requires Grouped(rows, identity, keys, groups)
    ensures chosen.None? ==> Ambiguous(rows, identity)
    ensures chosen.Some? ==> ChosenFrom(keys, groups, chosen.value)
  {
    hide Latest;
    hide Ambiguous;
    var value: seq<Row> := [];
    for j := 0 to |keys|
      invariant |value| == j
      invariant forall a | 0 <= a < j ::
                  keys[a] in groups && groups[keys[a]] != [] && Latest(groups[keys[a]]) == Some(value[a])
    {
      var k := keys[j];
      assert k in groups;
      var latest := Latest(groups[k]);
      if latest.None? {
        DisputedGroup(rows, identity, keys, groups, k);
        return None;
      }
      value := value + [latest.value];
    }
    chosen := Some(value);
  }

  /** Groups rows by identity and keeps the latest of each group. */
  method PickLatest<K(==)>(rows: seq<Row>, identity: Row -> K) returns (picked: Option<seq<Row>>)
    requires DistinctIds(rows)
    ensures picked.None? <==> Ambiguous(rows, identity)
    ensures picked.Some? ==> forall r :: r in picked.value <==> IsWinner(rows, identity, r)
    ensures picked.Some? ==> DistinctIds(picked.value)
  {
    var keys, groups := GroupBy(rows, identity);
    picked := ChooseEach(rows, identity, keys, groups);
    if picked.Some? {
      ChosenUnambiguous(rows, identity, keys, groups, picked.value);
      WinnersAreChosen(rows, identity, keys, groups, picked.value);
    }
  }

  // --- Refinement ---

  lemma ElementsDecide<K>(a: seq<Row>, b: seq<Row>, identity: Row -> K)
    requires SameElements(a, b)
    ensures Ambiguous(a, identity) <==> Ambiguous(b, identity)
    ensures forall r :: IsWinner(a, identity, r) <==> IsWinner(b, identity, r)
  {
    assert forall r :: IsTop(a, identity, r) <==> IsTop(b, identity, r);
  }

  lemma OrderedByIdAtLeast(rows: seq<Row>)
    requires DistinctIds(rows)
    ensures Distinct(rows, ResultOrder)
  {
    forall i, j | 0 <= i < j < |rows| ensures ResultOrder(rows[i]) != ResultOrder(rows[j]) {
      var x, y := ResultOrder(rows[i]), ResultOrder(rows[j]);
      assert x[|x| - 1] == Id(rows[i]) && y[|y| - 1] == Id(rows[j]);
    }
  }

  lemma CandidatesDistinct(rows: seq<Row>, q: Query)
    requires DistinctIds(rows)
    ensures DistinctIds(Visible(rows, q)) && DistinctIds(Candidates(rows, q))
  {
    FilterDistinct(rows, r => IsVisible(r, q), Id);
    var visible := Visible(rows, q);
    FilterDistinct(visible, r => IsWinner(visible, ExternalId, r) && MatchesSeries(r, q), Id);
  }

  /** The reader: group by record, keep the latest, keep the series, group by measurement, keep the latest. */
  method Read(rows: seq<Row>, q: Query, securities: map<Uuid, Uuid>) returns (r: Result<seq<Row>, Error>)
    requires DistinctIds(rows)
    ensures r == ObservationsAsOf(rows, q, securities)
  {
    if !ValidSeries(q) {
      return Err(BadSeries);
    }
    var visible := Visible(rows, q);
    CandidatesDistinct(rows, q);
    var selected := PickLatest(visible, ExternalId);
    if selected.None? {
      return Err(AmbiguousRecord);
    }
    var matching := Filter(selected.value, x => MatchesSeries(x, q));
    FilterDistinct(selected.value, x => MatchesSeries(x, q), Id);
    ElementsDecide(matching, Candidates(rows, q), IdentityOf);
    var resolved := PickLatest(matching, IdentityOf);
    if resolved.None? {
      return Err(AmbiguousIdentity);
    }
    ghost var winners := Filter(Candidates(rows, q), x => IsWinner(Candidates(rows, q), IdentityOf, x));
    FilterDistinct(Candidates(rows, q), x => IsWinner(Candidates(rows, q), IdentityOf, x), Id);
    OrderedByIdAtLeast(resolved.value);
    OrderedByIdAtLeast(winners);
    SortIgnoresOrder(resolved.value, winners, ResultOrder);
    r := Views(Sort(resolved.value, ResultOrder), securities);
  }

  // --- What the reader promises ---

  /** Accepted, of the provider asked for, and available at the cutoff. */
  ghost predicate Known(r: Row, q: Query) {
    && r.observation.datasetId == q.datasetId && r.source.validation == "accepted"
    && r.observation.availableAt <= q.cutoff
  }

  /** Measures the declared series; the definition's digest is compared in lower case. */
  ghost predicate OfSeries(r: Row, q: Query) {
    var o := r.observation;
    && o.companyId == q.companyId && o.metric == q.metric && o.scope == q.scope && o.methodology == q.methodology
    && |o.definition| == |q.definition|
    && (forall i | 0 <= i < |o.definition| ::
          o.definition[i] == if 'A' <= q.definition[i] <= 'Z' then (q.definition[i] as int + 32) as char else q.definition[i])
    && (q.companyLevelOnly ==> o.securityId == None)
    && (!q.companyLevelOnly ==> o.securityId == q.securityId)
  }

  /** Measures the same thing: the same series over the same window, or on the same date. */
  ghost predicate SameMeasurement(r: Row, s: Row) {
    var a, b := r.observation, s.observation;
    && a.companyId == b.companyId && a.securityId == b.securityId && a.metric == b.metric
    && a.scope == b.scope && a.methodology == b.methodology && a.definition == b.definition
    && (a.metric == "news_mentions_count" ==> a.windowStart == b.windowStart && a.windowEnd == b.windowEnd)
    && (a.metric != "news_mentions_count" ==> a.observationDate == b.observationDate)
  }

  /** No known row of the same provider record comes later; of equally late ones this has the least id. */
  ghost predicate LatestOfRecord(rows: seq<Row>, q: Query, r: Row) {
    && r in rows && Known(r, q)
    && forall s | s in rows && Known(s, q) && s.source.externalId == r.source.externalId :: NotLaterOrTied(s, r)
  }

  /** A row the reader may show, spelled out over the whole table. */
  ghost predicate Returned(rows: seq<Row>, q: Query, r: Row) {
    // the latest revision of its provider record, which still measures this series ...
    && LatestOfRecord(rows, q, r) && OfSeries(r, q)
    // ... and is the latest such record of its measurement, least id among equals
    && forall s | LatestOfRecord(rows, q, s) && OfSeries(s, q) && SameMeasurement(s, r) :: NotLaterOrTied(s, r)
  }

  lemma KnownIff(r: Row, q: Query)
    ensures Known(r, q) <==> IsVisible(r, q)
    ensures OfSeries(r, q) <==> MatchesSeries(r, q)
  {
    if OfSeries(r, q) { assert r.observation.definition == Lower(q.definition); }
  }

  lemma SameMeasurementIff(r: Row, s: Row)
    ensures SameMeasurement(r, s) <==> IdentityOf(r) == IdentityOf(s)
  {
  }

  ghost predicate SelectedForRecord(rows: seq<Row>, q: Query, r: Row) {
    && r in rows && IsVisible(r, q)
    && forall s | s in rows && IsVisible(s, q) && ExternalId(s) == ExternalId(r) :: NotLaterOrTied(s, r)
  }

  lemma LatestOfRecordIff(rows: seq<Row>, q: Query, r: Row)
    ensures LatestOfRecord(rows, q, r) <==> SelectedForRecord(rows, q, r)
  {
    forall s ensures Known(s, q) <==> IsVisible(s, q) { KnownIff(s, q); }
    hide Known, IsVisible, NotLaterOrTied;
  }

  lemma {:induction false} ViewsShowAll(rows: seq<Row>, securities: map<Uuid, Uuid>)
    ensures Views(rows, securities).Ok? ==>
              && Views(rows, securities).value == rows
              && forall r | r in rows :: Objection(r, securities) == None
    ensures Views(rows, securities).Err? ==>
              Views(rows, securities).error in
                {ProviderMismatch, AvailabilityMismatch, SecurityMismatch, InvalidObservation}
  {
    if rows != [] { ViewsShowAll(rows[1..], securities); }
  }

  lemma CandidateIff(rows: seq<Row>, q: Query, r: Row)
    ensures r in Candidates(rows, q) <==> SelectedForRecord(rows, q, r) && MatchesSeries(r, q)
  {
    var visible := Visible(rows, q);
    assert forall s | s in visible :: s in rows && IsVisible(s, q);
    assert forall s | s in rows && IsVisible(s, q) :: s in visible;
    if SelectedForRecord(rows, q, r) { assert IsWinner(visible, ExternalId, r); }
    if r in visible && IsWinner(visible, ExternalId, r) { assert SelectedForRecord(rows, q, r); }
  }

  /** The result holds exactly the rows the declarative reading allows, in strict result order. */
  lemma ReturnedIff(rows: seq<Row>, q: Query, securities: map<Uuid, Uuid>)
    requires DistinctIds(rows) && ObservationsAsOf(rows, q, securities).Ok?
    ensures var shown := ObservationsAsOf(rows, q, securities).value;
            && (forall r :: r in shown <==> Returned(rows, q, r))
            && (forall r | r in shown :: Objection(r, securities) == None)
            && StrictlySorted(shown, ResultOrder)
  {
    var candidates := Candidates(rows, q);
    var winners := Filter(candidates, r => IsWinner(candidates, IdentityOf, r));
    ViewsShowAll(Resolved(rows, q), securities);
    CandidatesDistinct(rows, q);
    FilterDistinct(candidates, r => IsWinner(candidates, IdentityOf, r), Id);
    OrderedByIdAtLeast(winners);
    SortStrict(winners, ResultOrder);
    MultisetElements(Resolved(rows, q), winners);
    forall r ensures r in Resolved(rows, q) <==> Returned(rows, q, r) {
      WinnerIffReturned(rows, q, r);
    }
  }

  /** What holds of any one row the reader shows. */
  lemma ShownRow(rows: seq<Row>, q: Query, securities: map<Uuid, Uuid>, r: Row)
    requires DistinctIds(rows) && ObservationsAsOf(rows, q, securities).Ok?
    requires r in ObservationsAsOf(rows, q, securities).value
    ensures IsVisible(r, q) && MatchesSeries(r, q) && ValidObservation(r.observation)
    ensures Known(r, q) && OfSeries(r, q)
  {
    ReturnedIff(rows, q, securities);
    KnownIff(r, q);
    assert Objection(r, securities).None?;
  }

  lemma WinnerIffReturned(rows: seq<Row>, q: Query, r: Row)
    ensures r in Candidates(rows, q) && IsWinner(Candidates(rows, q), IdentityOf, r) <==> Returned(rows, q, r)
  {
    forall s ensures s in Candidates(rows, q) <==> LatestOfRecord(rows, q, s) && OfSeries(s, q) {
      CandidateIff(rows, q, s);
      LatestOfRecordIff(rows, q, s);
      KnownIff(s, q);
    }
    forall s, x ensures SameMeasurement(s, x) <==> IdentityOf(s) == IdentityOf(x) { SameMeasurementIff(s, x); }
    hide Candidates, LatestOfRecord, OfSeries, SameMeasurement, IdentityOf, NotLaterOrTied;
  }

  lemma VisibleElements(a: seq<Row>, b: seq<Row>, q: Query)
    requires forall r :: r in a && IsVisible(r, q) <==> r in b && IsVisible(r, q)
    ensures SameElements(Visible(a, q), Visible(b, q))
    ensures SameElements(Candidates(a, q), Candidates(b, q))
  {
    ElementsDecide(Visible(a, q), Visible(b, q), ExternalId);
  }

  /**
   * Neither the order of the rows nor any row that is unavailable at the cutoff or not accepted
   * has an effect: on the rows, on their order, on the error.
   */
  lemma OnlyVisibleRowsMatter(a: seq<Row>, b: seq<Row>, q: Query, securities: map<Uuid, Uuid>)
    requires DistinctIds(a) && DistinctIds(b)
    requires forall r :: r in a && IsVisible(r, q) <==> r in b && IsVisible(r, q)
    ensures ObservationsAsOf(a, q, securities) == ObservationsAsOf(b, q, securities)
  {
    VisibleElements(a, b, q);
    ElementsDecide(Visible(a, q), Visible(b, q), ExternalId);
    var x, y := Candidates(a, q), Candidates(b, q);
    ElementsDecide(x, y, IdentityOf);
    CandidatesDistinct(a, q);
    CandidatesDistinct(b, q);
    FilterDistinct(x, r => IsWinner(x, IdentityOf, r), Id);
    FilterDistinct(y, r => IsWinner(y, IdentityOf, r), Id);
    OrderedByIdAtLeast(Filter(x, r => IsWinner(x, IdentityOf, r)));
    OrderedByIdAtLeast(Filter(y, r => IsWinner(y, IdentityOf, r)));
    SortIgnoresOrder(
      Filter(x, r => IsWinner(x, IdentityOf, r)), Filter(y, r => IsWinner(y, IdentityOf, r)), ResultOrder);
  }

  /** A correction that leaves the series withdraws every row of its record that was available before it. */
  lemma CorrectionWithdraws(rows: seq<Row>, q: Query, securities: map<Uuid, Uuid>, correction: Row, earlier: Row)
    requires DistinctIds(rows) && ObservationsAsOf(rows, q, securities).Ok?
    requires correction in rows && Known(correction, q)
    requires earlier.source.externalId == correction.source.externalId
    requires earlier.observation.availableAt < correction.observation.availableAt
    ensures earlier !in ObservationsAsOf(rows, q, securities).value
  {
    ReturnedIff(rows, q, securities);
  }

  /** One measurement is shown at most once. */
  lemma OneRowPerMeasurement(rows: seq<Row>, q: Query, securities: map<Uuid, Uuid>, r: Row, s: Row)
    requires DistinctIds(rows) && ObservationsAsOf(rows, q, securities).Ok?
    requires r in ObservationsAsOf(rows, q, securities).value && s in ObservationsAsOf(rows, q, securities).value
    requires SameMeasurement(r, s)
    ensures r == s
  {
    ReturnedIff(rows, q, securities);
    assert LatestOfRecord(rows, q, r) && LatestOfRecord(rows, q, s);
    IdsIdentify(rows, r, s);
  }

  /** Measurements of one series in time: windows by start and then end, snapshots by date. */
  ghost predicate MeasuredBefore(a: Observation, b: Observation) {
    if a.metric == "news_mentions_count" then
      && a.windowStart.Some? && b.windowStart.Some? && a.windowEnd.Some? && b.windowEnd.Some?
      && (a.windowStart.value < b.windowStart.value
          || (a.windowStart.value == b.windowStart.value && a.windowEnd.value < b.windowEnd.value))
    else
      a.observationDate.Some? && b.observationDate.Some? && a.observationDate.value < b.observationDate.value
  }

  lemma LexFirst(a: seq<int>, b: seq<int>)
    requires LexLeq(a, b) && |a| > 0
    ensures |b| > 0 && a[0] <= b[0]
    ensures a[0] == b[0] ==> LexLeq(a[1..], b[1..])
  {
  }

  lemma OrderedInTime(r: Row, s: Row)
    requires ValidObservation(r.observation) && ValidObservation(s.observation)
    requires r.observation.metric == s.observation.metric && LexLeq(ResultOrder(r), ResultOrder(s))
    ensures MeasuredBefore(r.observation, s.observation)
            || (if r.observation.metric == NEWS
                then r.observation.windowStart == s.observation.windowStart && r.observation.windowEnd == s.observation.windowEnd
                else r.observation.observationDate == s.observation.observationDate)
  {
    var a, b := ResultOrder(r), ResultOrder(s);
    hide LexLeq;
    LexFirst(a, b);
    LexFirst(a[1..], b[1..]);
    if a[1] == b[1] && r.observation.metric == NEWS {
      LexFirst(a[2..], b[2..]);
      LexFirst(a[3..], b[3..]);
    }
  }

  /** The rows of the series come in time order, each measurement once. */
  lemma ShownInOrder(rows: seq<Row>, q: Query, securities: map<Uuid, Uuid>, i: nat, j: nat)
    requires DistinctIds(rows) && ObservationsAsOf(rows, q, securities).Ok?
    requires i < j < |ObservationsAsOf(rows, q, securities).value|
    ensures var shown := ObservationsAsOf(rows, q, securities).value;
            MeasuredBefore(shown[i].observation, shown[j].observation)
  {
    ReturnedIff(rows, q, securities);
    var shown := ObservationsAsOf(rows, q, securities).value;
    var r, s := shown[i], shown[j];
    assert LexLeq(ResultOrder(r), ResultOrder(s)) && ResultOrder(r) != ResultOrder(s);
    ShownRow(rows, q, securities, r);
    ShownRow(rows, q, securities, s);
    hide ObservationsAsOf, LexLeq, ResultOrder, Returned;
    if SameMeasurement(r, s) { OneRowPerMeasurement(rows, q, securities, r, s); }
    OrderedInTime(r, s);
  }

  // --- Disputed revisions ---

  /** Everything two revisions say, apart from when. */
  ghost predicate SaysSame(r: Row, s: Row) {
    var a, b := r.observation, s.observation;
    && a.companyId == b.companyId && a.securityId == b.securityId && a.metric == b.metric && a.count == b.count
    && a.unit == b.unit && a.scope == b.scope && a.methodology == b.methodology && a.definition == b.definition
    && a.coverage == b.coverage && a.observationDate == b.observationDate
    && a.windowStart == b.windowStart && a.windowEnd == b.windowEnd
  }

  /** A known row with no later known row of its provider record. */
  ghost predicate NoLaterOfRecord(rows: seq<Row>, q: Query, r: Row) {
    && r in rows && Known(r, q)
    && forall s | s in rows && Known(s, q) && s.source.externalId == r.source.externalId :: NotLater(s, r)
  }

  /** Of two equally late revisions of one provider record, the one says something else than the other. */
  ghost predicate RecordDisputed(rows: seq<Row>, q: Query) {
    exists r, s :: NoLaterOfRecord(rows, q, r) && NoLaterOfRecord(rows, q, s)
                   && r.source.externalId == s.source.externalId && !SaysSame(r, s)
  }

  /** The latest of their records, measuring the same thing and equally late, say something else. */
  ghost predicate MeasurementDisputed(rows: seq<Row>, q: Query) {
    exists r, s :: NoLaterOfMeasurement(rows, q, r) && NoLaterOfMeasurement(rows, q, s)
                   && SameMeasurement(r, s) && !SaysSame(r, s)
  }

  ghost predicate NoLaterOfMeasurement(rows: seq<Row>, q: Query, r: Row) {
    && LatestOfRecord(rows, q, r) && OfSeries(r, q)
    && forall s | LatestOfRecord(rows, q, s) && OfSeries(s, q) && SameMeasurement(s, r) :: NotLater(s, r)
  }

  lemma SaysSameIff(r: Row, s: Row)
    ensures SaysSame(r, s) <==> PayloadOf(r) == PayloadOf(s)
  {
  }

  lemma RecordDisputedIff(rows: seq<Row>, q: Query)
    ensures Ambiguous(Visible(rows, q), ExternalId) <==> RecordDisputed(rows, q)
  {
    var visible := Visible(rows, q);
    forall s ensures s in visible <==> s in rows && Known(s, q) { KnownIff(s, q); }
    forall r ensures IsTop(visible, ExternalId, r) <==> NoLaterOfRecord(rows, q, r) {
      hide NotLater, Known;
    }
    forall r, s ensures SaysSame(r, s) <==> PayloadOf(r) == PayloadOf(s) { SaysSameIff(r, s); }
    hide IsTop, NoLaterOfRecord, SaysSame, PayloadOf;
    if Ambiguous(visible, ExternalId) {
      var r, s :| r in visible && s in visible && IsTop(visible, ExternalId, r) && IsTop(visible, ExternalId, s)
                  && ExternalId(r) == ExternalId(s) && PayloadOf(r) != PayloadOf(s);
      assert NoLaterOfRecord(rows, q, r) && NoLaterOfRecord(rows, q, s);
    }
    if r, s :| NoLaterOfRecord(rows, q, r) && NoLaterOfRecord(rows, q, s) && r.source.externalId == s.source.externalId
               && !SaysSame(r, s) {
      assert IsTop(visible, ExternalId, r) && IsTop(visible, ExternalId, s);
      TopIsMember(visible, ExternalId, r);
      TopIsMember(visible, ExternalId, s);
    }
  }

  lemma TopIsMember<K>(rows: seq<Row>, identity: Row -> K, r: Row)
    requires IsTop(rows, identity, r)
    ensures r in rows
  {
  }

  lemma CandidateSpelled(rows: seq<Row>, q: Query, r: Row)
    ensures r in Candidates(rows, q) <==> LatestOfRecord(rows, q, r) && OfSeries(r, q)
  {
    hide Candidates, LatestOfRecord, OfSeries, SelectedForRecord, MatchesSeries;
    CandidateIff(rows, q, r);
    LatestOfRecordIff(rows, q, r);
    KnownIff(r, q);
  }

  lemma TopOfMeasurementIff(rows: seq<Row>, q: Query, r: Row)
    ensures IsTop(Candidates(rows, q), IdentityOf, r) <==> NoLaterOfMeasurement(rows, q, r)
  {
    hide Candidates, LatestOfRecord, OfSeries, SameMeasurement, IdentityOf, NotLater;
    forall s
      ensures s in Candidates(rows, q) <==> LatestOfRecord(rows, q, s) && OfSeries(s, q)
      ensures SameMeasurement(s, r) <==> IdentityOf(s) == IdentityOf(r)
    {
      CandidateSpelled(rows, q, s);
      SameMeasurementIff(s, r);
    }
  }

  lemma MeasurementDisputedIff(rows: seq<Row>, q: Query)
    ensures Ambiguous(Candidates(rows, q), IdentityOf) <==> MeasurementDisputed(rows, q)
  {
    var candidates := Candidates(rows, q);
    hide Candidates, IsTop, NoLaterOfMeasurement, SameMeasurement, IdentityOf, SaysSame, PayloadOf;
    forall r ensures IsTop(candidates, IdentityOf, r) <==> NoLaterOfMeasurement(rows, q, r) {
      TopOfMeasurementIff(rows, q, r);
    }
    if Ambiguous(candidates, IdentityOf) {
      var r, s :| IsTop(candidates, IdentityOf, r) && IsTop(candidates, IdentityOf, s)
                  && IdentityOf(r) == IdentityOf(s) && PayloadOf(r) != PayloadOf(s);
      SameMeasurementIff(r, s);
      SaysSameIff(r, s);
      assert NoLaterOfMeasurement(rows, q, r) && NoLaterOfMeasurement(rows, q, s);
    }
    if r, s :| NoLaterOfMeasurement(rows, q, r) && NoLaterOfMeasurement(rows, q, s) && SameMeasurement(r, s)
               && !SaysSame(r, s) {
      SameMeasurementIff(r, s);
      SaysSameIff(r, s);
      TopIsMember(candidates, IdentityOf, r);
      TopIsMember(candidates, IdentityOf, s);
    }
  }

  /** When the read of a declared series raises for disputed revisions. */
  lemma DisputedIff(rows: seq<Row>, q: Query, securities: map<Uuid, Uuid>)
    requires ValidSeries(q)
    ensures var r := ObservationsAsOf(rows, q, securities);
            && (r == Err(AmbiguousRecord) <==> RecordDisputed(rows, q))
            && (r == Err(AmbiguousIdentity) <==> !RecordDisputed(rows, q) && MeasurementDisputed(rows, q))
  {
    RecordDisputedIff(rows, q);
    MeasurementDisputedIff(rows, q);
    ViewsShowAll(Resolved(rows, q), securities);
    hide Ambiguous, Visible, Candidates, Resolved, RecordDisputed, MeasurementDisputed, Views;
  }

  // --- The two single-result reads ---

  function NewsQuery(q: Query): Query {
    q.(metric := NEWS)
  }

  function AnalystQuery(q: Query): Query {
    q.(metric := ANALYST)
  }

  predicate HasWindow(r: Row, start: Instant, end: Instant) {
    r.observation.windowStart == Some(start) && r.observation.windowEnd == Some(end)
  }

  function NewsForExactWindow(
      rows: seq<Row>, q: Query, start: Instant, end: Instant, securities: map<Uuid, Uuid>)
    : Result<Option<Row>, Error>
  {
    if start >= end then
      Err(BadWindow)
    else
      var shown :- ObservationsAsOf(rows, NewsQuery(q), securities);
      var matches := Filter(shown, r => HasWindow(r, start, end));
      if |matches| > 1 then Err(AmbiguousWindow)
      else if |matches| == 1 then Ok(Some(matches[0]))
      else Ok(None)
  }

  /** The greatest snapshot date; None stands for `max` of an empty collection, which raises. */
  function LatestDate(rows: seq<Row>): (d: Option<Date>)
    ensures d.None? <==> forall r | r in rows :: r.observation.observationDate.None?
    ensures d.Some? ==> exists r | r in rows :: r.observation.observationDate == d
    ensures d.Some? ==> forall r | r in rows && r.observation.observationDate.Some? ::
                          r.observation.observationDate.value <= d.value
  {
    if rows == [] then
      None
    else
      var rest := LatestDate(rows[1..]);
      var head := rows[0].observation.observationDate;
      assert rows[0] in rows;
      if head.None? || (rest.Some? && head.value <= rest.value) then rest else head
  }

  predicate WithinBound(r: Row, bound: Option<Date>) {
    bound.None? || (r.observation.observationDate.Some? && r.observation.observationDate.value <= bound.value)
  }

  function LatestAnalystCoverage(
      rows: seq<Row>, q: Query, bound: Option<Date>, securities: map<Uuid, Uuid>) : Result<Option<Row>, Error>
  {
    var shown :- ObservationsAsOf(rows, AnalystQuery(q), securities);
    var observations := Filter(shown, r => WithinBound(r, bound));
    if observations == [] then
      Ok(None)
    else
      var latestDate := LatestDate(observations);
      if latestDate.None? then
        Err(NoSnapshotDate)
      else
        var latest := Filter(observations, r => DatedOn(r, latestDate));
        if |latest| != 1 then Err(AmbiguousSnapshot) else Ok(Some(latest[0]))
  }

  lemma {:induction false} AtMostOne(rows: seq<Row>, p: Row -> bool)
    requires DistinctIds(rows)
    requires forall r, s | r in rows && s in rows && p(r) && p(s) :: r == s
    ensures |Filter(rows, p)| <= 1
  {
    if rows != [] {
      var rest := rows[1..];
      assert DistinctIds(rest) by {
        forall i, j | 0 <= i < j < |rest| ensures Id(rest[i]) != Id(rest[j]) {
          assert Id(rows[i + 1]) != Id(rows[j + 1]);
        }
      }
      AtMostOne(rest, p);
      forall r | r in rest && p(rows[0]) ensures !p(r) {
        var k :| 0 <= k < |rest| && rest[k] == r;
        assert Id(rows[0]) != Id(rows[k + 1]);
      }
      var f := Filter(rest, p);
      assert |f| > 0 ==> f[0] in f;
    }
  }

  lemma ShownDistinct(rows: seq<Row>, q: Query, securities: map<Uuid, Uuid>)
    requires DistinctIds(rows) && ObservationsAsOf(rows, q, securities).Ok?
    ensures DistinctIds(ObservationsAsOf(rows, q, securities).value)
  {
    ReturnedIff(rows, q, securities);
    var shown := ObservationsAsOf(rows, q, securities).value;
    forall i, j | 0 <= i < j < |shown| ensures Id(shown[i]) != Id(shown[j]) {
      assert shown[i] in shown && shown[j] in shown;
      if Id(shown[i]) == Id(shown[j]) { IdsIdentify(rows, shown[i], shown[j]); }
    }
  }

  /** The "ambiguous exact-window" error cannot happen: the read fails only as the series read does. */
  lemma WindowNeverAmbiguous(rows: seq<Row>, q: Query, start: Instant, end: Instant, securities: map<Uuid, Uuid>)
    requires DistinctIds(rows) && start < end
    ensures var news, shown := NewsForExactWindow(rows, q, start, end, securities),
                               ObservationsAsOf(rows, NewsQuery(q), securities);
            && (shown.Err? ==> news == Err(shown.error))
            && (shown.Ok? ==> news.Ok?)
            && (shown.Ok? && news.value.Some? ==>
                  && news.value.value in shown.value
                  && news.value.value.observation.windowStart == Some(start)
                  && news.value.value.observation.windowEnd == Some(end))
            && (shown.Ok? && news.value.None? ==> forall r | r in shown.value ::
                  !(r.observation.windowStart == Some(start) && r.observation.windowEnd == Some(end)))
  {
    if ObservationsAsOf(rows, NewsQuery(q), securities).Ok? {
      var shown := ObservationsAsOf(rows, NewsQuery(q), securities).value;
      ReturnedIff(rows, NewsQuery(q), securities);
      ShownDistinct(rows, NewsQuery(q), securities);
      forall r, s | r in shown && s in shown && HasWindow(r, start, end) && HasWindow(s, start, end)
        ensures r == s
      {
        OneRowPerMeasurement(rows, NewsQuery(q), securities, r, s);
      }
      AtMostOne(shown, r => HasWindow(r, start, end));
      var matches := Filter(shown, r => HasWindow(r, start, end));
      assert |matches| == 1 ==> matches[0] in matches;
    }
  }

  function DateOfRow(r: Row): Option<Date> {
    r.observation.observationDate
  }

  predicate DatedOn(r: Row, d: Option<Date>) {
    r.observation.observationDate == d
  }

  /** Dated snapshots with pairwise different dates have one latest. */
  lemma OneLatestSnapshot(rows: seq<Row>)
    requires DistinctIds(rows) && rows != []
    requires forall r | r in rows :: DateOfRow(r).Some?
    requires forall r, s | r in rows && s in rows && DateOfRow(r) == DateOfRow(s) :: r == s
    ensures var latestDate := LatestDate(rows);
            && latestDate.Some?
            && var latest := Filter(rows, r => DatedOn(r, latestDate));
            && |latest| == 1 && latest[0] in rows
            && forall r | r in rows && r != latest[0] :: DateOfRow(r).value < DateOfRow(latest[0]).value
  {
    assert rows[0] in rows;
    var latestDate := LatestDate(rows);
    AtMostOne(rows, r => DatedOn(r, latestDate));
    var latest := Filter(rows, r => DatedOn(r, latestDate));
    var w :| w in rows && DateOfRow(w) == latestDate;
    assert w in latest && latest[0] in latest;
    forall r | r in rows && r != latest[0] ensures DateOfRow(r).value < DateOfRow(latest[0]).value {
      assert DateOfRow(r) != DateOfRow(w) || r == w;
    }
  }

  lemma SnapshotsDated(rows: seq<Row>, q: Query, securities: map<Uuid, Uuid>)
    requires DistinctIds(rows) && ObservationsAsOf(rows, AnalystQuery(q), securities).Ok?
    ensures var shown := ObservationsAsOf(rows, AnalystQuery(q), securities).value;
            && DistinctIds(shown)
            && (forall r | r in shown :: DateOfRow(r).Some?)
            && (forall r, s | r in shown && s in shown && DateOfRow(r) == DateOfRow(s) :: r == s)
  {
    var shown := ObservationsAsOf(rows, AnalystQuery(q), securities).value;
    ReturnedIff(rows, AnalystQuery(q), securities);
    ShownDistinct(rows, AnalystQuery(q), securities);
    forall r, s | r in shown && s in shown && DateOfRow(r) == DateOfRow(s) ensures r == s {
      OneRowPerMeasurement(rows, AnalystQuery(q), securities, r, s);
    }
  }

  /** Dated on or before the bound, if there is one. */
  ghost predicate InBound(r: Row, bound: Option<Date>) {
    bound.Some? ==> r.observation.observationDate.Some? && r.observation.observationDate.value <= bound.value
  }

  /** The snapshot the read selects from what the series read shows. */
  ghost predicate IsLatestSnapshot(shown: seq<Row>, bound: Option<Date>, w: Row) {
    && w in shown && InBound(w, bound) && w.observation.observationDate.Some?
    && forall r | r in shown && InBound(r, bound) && r != w ::
         r.observation.observationDate.Some?
         && r.observation.observationDate.value < w.observation.observationDate.value
  }

  /** The one latest of the dated rows within the bound. */
  lemma LatestWithin(shown: seq<Row>, bound: Option<Date>)
    requires DistinctIds(shown) && (forall r | r in shown :: DateOfRow(r).Some?)
    requires forall r, s | r in shown && s in shown && DateOfRow(r) == DateOfRow(s) :: r == s
    ensures var observations := Filter(shown, r => WithinBound(r, bound));
            && (observations == [] ==> forall r | r in shown :: !InBound(r, bound))
            && (observations != [] ==>
                  var latestDate := LatestDate(observations);
                  && latestDate.Some?
                  && var latest := Filter(observations, r => DatedOn(r, latestDate));
                  && |latest| == 1 && IsLatestSnapshot(shown, bound, latest[0]))
  {
    var observations := Filter(shown, r => WithinBound(r, bound));
    FilterDistinct(shown, r => WithinBound(r, bound), Id);
    assert forall r :: r in observations <==> r in shown && InBound(r, bound);
    hide LatestDate, Filter, InBound, WithinBound;
    if observations != [] { OneLatestSnapshot(observations); }
  }

  lemma SnapshotSelected(rows: seq<Row>, q: Query, bound: Option<Date>, securities: map<Uuid, Uuid>)
    requires DistinctIds(rows) && ObservationsAsOf(rows, AnalystQuery(q), securities).Ok?
    ensures var shown := ObservationsAsOf(rows, AnalystQuery(q), securities).value;
            var analyst := LatestAnalystCoverage(rows, q, bound, securities);
            && analyst.Ok?
            && (analyst.value.Some? ==> IsLatestSnapshot(shown, bound, analyst.value.value))
            && (analyst.value.None? ==> forall r | r in shown :: !InBound(r, bound))
  {
    var shown := ObservationsAsOf(rows, AnalystQuery(q), securities).value;
    hide ObservationsAsOf, LatestDate, Filter, InBound, IsLatestSnapshot;
    SnapshotsDated(rows, q, securities);
    LatestWithin(shown, bound);
  }

  /** The "ambiguous latest" error cannot happen, nor can the maximum be taken over no dates. */
  lemma SnapshotNeverAmbiguous(rows: seq<Row>, q: Query, bound: Option<Date>, securities: map<Uuid, Uuid>)
    requires DistinctIds(rows)
    ensures var analyst, shown := LatestAnalystCoverage(rows, q, bound, securities),
                                  ObservationsAsOf(rows, AnalystQuery(q), securities);
            && (shown.Err? ==> analyst == Err(shown.error))
            && (shown.Ok? ==>
                  && analyst.Ok?
                  && (analyst.value.Some? ==> IsLatestSnapshot(shown.value, bound, analyst.value.value))
                  && (analyst.value.None? ==> forall r | r in shown.value :: !InBound(r, bound)))
  {
    if ObservationsAsOf(rows, AnalystQuery(q), securities).Ok? {
      SnapshotSelected(rows, q, bound, securities);
    }
  }
}
