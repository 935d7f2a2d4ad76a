/** Point-in-time reads of announcements: one accepted revision per external id, by point and by list. */
module Announcements {
  import opened Prelude
  import opened Sorting
  import opened Text
  import opened EventModel

  /** A persisted announcement joined with its source record. */
  datatype Row = Row(
    id: Uuid, companyId: Uuid, securityId: Option<Uuid>, datasetId: Uuid, category: Option<string>,
    headline: string, date: Option<Date>, exchange: Option<string>, availableAt: Instant,
    revisionAt: Option<Instant>, ingestedAt: Instant, source: SourceRecord, sourceDatasetId: Uuid)

  /** A document attached to an announcement; `document.role` is the role of the relation. */
  datatype Attached = Attached(document: Document, sourceDatasetId: Uuid)

  /** The tables a read sees; announcement ids, and an announcement's document ids, are primary keys. */
  datatype Tables = Tables(rows: seq<Row>, attached: Uuid -> seq<Attached>)

  datatype Error = InvalidRange | BlankExternalId | ProviderMismatch | DocumentMismatch

  datatype Query = Query(
    companyId: Option<Uuid>, securityId: Option<Uuid>, startDate: Option<Date>, endDate: Option<Date>)

  function RowId(r: Row): Uuid {
    r.id
  }

  function ExternalId(r: Row): string {
    r.source.externalRecordId
  }

  predicate Visible(r: Row, datasetId: Uuid, cutoff: Instant) {
    r.datasetId == datasetId && r.availableAt <= cutoff && r.source.validation == "accepted"
  }

  /** Latest availability first, then latest revision, latest ingestion, greatest id. */
  function RevisionKey(availableAt: Instant, revisionAt: Option<Instant>, ingestedAt: Instant, id: Uuid): seq<int> {
    [-availableAt, -revisionAt.GetOr(availableAt), -ingestedAt, -(id as int)]
  }

  function RowKey(r: Row): seq<int> {
    RevisionKey(r.availableAt, r.revisionAt, r.ingestedAt, r.id)
  }

  /** The base statement. */
  function Base(rows: seq<Row>, datasetId: Uuid, cutoff: Instant): seq<Row> {
    Sort(Filter(rows, (r: Row) => Visible(r, datasetId, cutoff)), RowKey)
  }

  // --- Views ---

  function RoleRank(role: string): int {
    match role
    case "primary" => 0
    case "attachment" => 1
    case "supporting" => 2
    case _ => 99
  }

  function AttachedKey(a: Attached): seq<int> {
    [RoleRank(a.document.role), a.document.id]
  }

  function CheckDocuments(attached: seq<Attached>, row: Row): Result<seq<Document>, Error> {
    if attached == [] then
      Ok([])
    else
      var a := attached[0];
      if a.document.datasetId != row.datasetId || a.sourceDatasetId != a.document.datasetId
         || a.document.companyId != row.companyId || a.document.securityId != row.securityId then
        Err(DocumentMismatch)
      else
        var rest :- CheckDocuments(attached[1..], row);
        Ok([a.document] + rest)
  }

  predicate IsAccepted(a: Attached) {
    a.document.source.validation == "accepted"
  }

  function Accepted(t: Tables, id: Uuid): seq<Attached> {
    Filter(t.attached(id), IsAccepted)
  }

  function Documents(t: Tables, row: Row): Result<seq<Document>, Error> {
    CheckDocuments(Sort(Accepted(t, row.id), AttachedKey), row)
  }

  function View(t: Tables, row: Row): Result<Announcement, Error> {
    if row.sourceDatasetId != row.datasetId then
      Err(ProviderMismatch)
    else
      var documents :- Documents(t, row);
      Ok(Announcement(
        row.id, row.companyId, row.securityId, row.datasetId, row.source.externalRecordId, row.category,
        row.headline, row.date, row.exchange, row.availableAt, row.revisionAt, row.ingestedAt, row.source, documents))
  }

  // --- The point read ---

  function AnnouncementAsOf(t: Tables, datasetId: Uuid, externalId: string, cutoff: Instant)
    : Result<Option<Announcement>, Error>
  {
    if !NotBlank(externalId) then
      Err(BlankExternalId)
    else
      var found := Selected(t.rows, datasetId, externalId, cutoff);
      if found.None? then
        Ok(None)
      else
        var view :- View(t, found.value);
        Ok(Some(view))
  }

  /** The first row of the base statement restricted to one external id. */
  function Selected(rows: seq<Row>, datasetId: Uuid, externalId: string, cutoff: Instant): Option<Row> {
    var s := Sort(Filter(rows, (r: Row) => Visible(r, datasetId, cutoff) && ExternalId(r) == externalId), RowKey);
    if s == [] then None else Some(s[0])
  }

  // --- The list read ---

  predicate Matches(companyId: Uuid, securityId: Option<Uuid>, date: Option<Date>, q: Query) {
    if q.companyId.Some? && companyId != q.companyId.value then false
    else if q.securityId.Some? && securityId != q.securityId then false
    else if q.startDate.None? && q.endDate.None? then true
    else if date.None? then false
    else if q.startDate.Some? && date.value < q.startDate.value then false
    else q.endDate.None? || date.value <= q.endDate.value
  }

  predicate RowMatches(r: Row, q: Query) {
    Matches(r.companyId, r.securityId, r.date, q)
  }

  predicate ViewMatches(a: Announcement, q: Query) {
    Matches(a.companyId, a.securityId, a.date, q)
  }

  predicate InvertedRange(q: Query) {
    q.startDate.Some? && q.endDate.Some? && q.startDate.value > q.endDate.value
  }

  /** The first row of each external id, in order. */
  function FirstPerId(rows: seq<Row>): seq<Row>
    decreases |rows|
  {
    if rows == [] then []
    else
      var front, last := rows[..|rows| - 1], rows[|rows| - 1];
      FirstPerId(front) + if HasId(front, ExternalId(last)) then [] else [last]
  }

  predicate HasId(rows: seq<Row>, externalId: string) {
    exists r | r in rows :: ExternalId(r) == externalId
  }

  function Views(t: Tables, rows: seq<Row>): Result<seq<Announcement>, Error> {
    if rows == [] then
      Ok([])
    else
      var first :- View(t, rows[0]);
      Prepend([first], Views(t, rows[1..]))
  }

  function Prepend(views: seq<Announcement>, rest: Result<seq<Announcement>, Error>)
    : Result<seq<Announcement>, Error>
  {
    if rest.Err? then rest else Ok(views + rest.value)
  }

  function AnnouncementsAsOf(t: Tables, datasetId: Uuid, cutoff: Instant, q: Query)
    : Result<seq<Announcement>, Error>
  {
    if InvertedRange(q) then Err(InvalidRange)
    else Views(t, Filter(FirstPerId(Base(t.rows, datasetId, cutoff)), (r: Row) => RowMatches(r, q)))
  }

  /** The scan: the first row of an id is kept, later ones change nothing. */
  method Scan(statement: seq<Row>) returns (values: seq<Row>)
    ensures values == FirstPerId(statement)
  {
    hide HasId, FirstPerId, Rows;
    var selected: map<string, Row> := map[];
    var keys: seq<string> := [];
    ScanStart(statement);
    for i := 0 to |statement|
      invariant forall k :: k in selected <==> HasId(statement[..i], k)
      invariant forall k | k in keys :: k in selected
      invariant Rows(selected, keys) == FirstPerId(statement[..i])
    {
      var row := statement[i];
      ScanStep(statement, i);
      if ExternalId(row) !in selected {
        RowsExtend(selected, keys, ExternalId(row), row);
        selected := selected[ExternalId(row) := row];
        keys := keys + [ExternalId(row)];
      }
    }
    assert statement[..|statement|] == statement;
    values := Rows(selected, keys);
  }

  lemma ScanStart(rows: seq<Row>)
    ensures forall k :: !HasId(rows[..0], k)
    ensures FirstPerId(rows[..0]) == Rows(map[], [])
  {
  }

  lemma ScanStep(rows: seq<Row>, i: nat)
    requires i < |rows|
    ensures FirstPerId(rows[..i + 1]) ==
            FirstPerId(rows[..i]) + if HasId(rows[..i], ExternalId(rows[i])) then [] else [rows[i]]
    ensures forall k :: HasId(rows[..i + 1], k) <==> HasId(rows[..i], k) || k == ExternalId(rows[i])
  {
    assert rows[..i + 1][..i] == rows[..i];
    assert rows[..i + 1] == rows[..i] + [rows[i]];
    hide FirstPerId, ExternalId;
    forall k ensures HasId(rows[..i + 1], k) <==> HasId(rows[..i], k) || k == ExternalId(rows[i]) {
      assert forall r :: r in rows[..i + 1] <==> r in rows[..i] || r == rows[i];
    }
  }

  method ReadList(t: Tables, datasetId: Uuid, cutoff: Instant, q: Query)
    returns (r: Result<seq<Announcement>, Error>)
    ensures r == AnnouncementsAsOf(t, datasetId, cutoff, q)
  {
    if InvertedRange(q) {
      return Err(InvalidRange);
    }
    hide Base, FirstPerId, Views;
    var selected := Scan(Base(t.rows, datasetId, cutoff));
    r := ReadViews(t, Filter(selected, (x: Row) => RowMatches(x, q)));
  }

  /** Views in order; the first that raises ends the read. */
  method ReadViews(t: Tables, rows: seq<Row>) returns (r: Result<seq<Announcement>, Error>)
    ensures r == Views(t, rows)
  {
    hide View, Prepend;
    var views: seq<Announcement> := [];
    ghost var whole := Views(t, rows);
    assert rows[0..] == rows;
    PrependNothing(whole);
    var i := 0;
    while i < |rows|
      invariant i <= |rows|
      invariant whole == Prepend(views, Views(t, rows[i..]))
    {
      var view := View(t, rows[i]);
      ViewsStep(t, rows, i);
      if view.Err? {
        PrependError(views, view.error);
        return Err(view.error);
      }
      PrependTwice(views, [view.value], Views(t, rows[i + 1..]));
      views := views + [view.value];
      i := i + 1;
    }
    PrependToNothing(views);
    r := Ok(views);
  }

  lemma ViewsStep(t: Tables, rows: seq<Row>, i: nat)
    requires i < |rows|
    ensures Views(t, rows[i..]) ==
            if View(t, rows[i]).Err? then Err(View(t, rows[i]).error)
            else Prepend([View(t, rows[i]).value], Views(t, rows[i + 1..]))
  {
    hide View, Prepend;
    assert rows[i..][1..] == rows[i + 1..];
  }

  lemma PrependNothing(rest: Result<seq<Announcement>, Error>)
    ensures Prepend([], rest) == rest
  {
    if rest.Ok? { assert [] + rest.value == rest.value; }
  }

  lemma PrependToNothing(views: seq<Announcement>)
    ensures Prepend(views, Ok([])) == Ok(views)
  {
    assert views + [] == views;
  }

  lemma PrependError(views: seq<Announcement>, error: Error)
    ensures Prepend(views, Err(error)) == Err(error)
  {
  }

  lemma PrependTwice(a: seq<Announcement>, b: seq<Announcement>, rest: Result<seq<Announcement>, Error>)
    ensures Prepend(a, Prepend(b, rest)) == Prepend(a + b, rest)
  {
    if rest.Ok? { assert a + (b + rest.value) == a + b + rest.value; }
  }

  /** The values of an insertion-ordered dictionary. */
  function Rows(selected: map<string, Row>, keys: seq<string>): (r: seq<Row>)
    requires forall k | k in keys :: k in selected
    ensures |r| == |keys|
  {
    seq(|keys|, i requires 0 <= i < |keys| => selected[keys[i]])
  }

  lemma RowsExtend(selected: map<string, Row>, keys: seq<string>, k: string, row: Row)
    requires k !in selected && forall x | x in keys :: x in selected
    ensures Rows(selected[k := row], keys + [k]) == Rows(selected, keys) + [row]
  {
    var extended := selected[k := row];
    forall i | 0 <= i < |keys| ensures extended[keys[i]] == selected[keys[i]] {
      assert keys[i] in keys;
    }
  }

  // --- What is selected ---

  /** A row that no visible row of the same external id precedes. */
  ghost predicate IsLatest(rows: seq<Row>, datasetId: Uuid, cutoff: Instant, r: Row) {
    && r in rows && Visible(r, datasetId, cutoff)
    && forall x | x in rows && Visible(x, datasetId, cutoff) && ExternalId(x) == ExternalId(r) ::
         LexLeq(RowKey(r), RowKey(x))
  }

  lemma {:induction false} FilterStrict(s: seq<Row>, p: Row -> bool)
    requires StrictlySorted(s, RowKey)
    ensures StrictlySorted(Filter(s, p), RowKey)
  {
    if s != [] {
      var rest := s[1..];
      FilterStrict(rest, p);
      var r := Filter(rest, p);
      forall j | 0 <= j < |r| ensures LexLeq(RowKey(s[0]), RowKey(r[j])) && RowKey(s[0]) != RowKey(r[j]) {
        assert r[j] in rest;
        var k :| 0 <= k < |rest| && rest[k] == r[j];
        assert s[k + 1] == r[j];
      }
    }
  }

  lemma KeysDistinct(rows: seq<Row>)
    requires Distinct(rows, RowId)
    ensures Distinct(rows, RowKey)
  {
    forall i, j | 0 <= i < j < |rows| ensures RowKey(rows[i]) != RowKey(rows[j]) {
      assert RowId(rows[i]) != RowId(rows[j]);
      assert RowKey(rows[i])[3] != RowKey(rows[j])[3];
    }
  }

  lemma BaseStrict(rows: seq<Row>, datasetId: Uuid, cutoff: Instant)
    requires Distinct(rows, RowId)
    ensures var p := (r: Row) => Visible(r, datasetId, cutoff);
            && StrictlySorted(Base(rows, datasetId, cutoff), RowKey)
            && SameElements(Base(rows, datasetId, cutoff), Filter(rows, p))
  {
    var p := (r: Row) => Visible(r, datasetId, cutoff);
    KeysDistinct(rows);
    FilterDistinct(rows, p, RowKey);
    SortStrict(Filter(rows, p), RowKey);
    MultisetElements(Sort(Filter(rows, p), RowKey), Filter(rows, p));
  }

  /** The point read selects the declaratively latest row, and nothing exactly when no row is visible. */
  lemma SelectedIsLatest(rows: seq<Row>, datasetId: Uuid, externalId: string, cutoff: Instant, r: Row)
    requires Distinct(rows, RowId)
    ensures Selected(rows, datasetId, externalId, cutoff) == Some(r)
            <==> ExternalId(r) == externalId && IsLatest(rows, datasetId, cutoff, r)
  {
    var p := (x: Row) => Visible(x, datasetId, cutoff) && ExternalId(x) == externalId;
    var f := Filter(rows, p);
    var s := Sort(f, RowKey);
    KeysDistinct(rows);
    FilterDistinct(rows, p, RowKey);
    SortStrict(f, RowKey);
    MultisetElements(s, f);
    hide Sort, Filter, LexLeq, RowKey;
    assert |s| > 0 ==> s[0] in s;
    if Selected(rows, datasetId, externalId, cutoff) == Some(r) {
      forall x | x in rows && Visible(x, datasetId, cutoff) && ExternalId(x) == externalId
        ensures LexLeq(RowKey(r), RowKey(x))
      {
        assert p(x) && x in s;
        var k :| 0 <= k < |s| && s[k] == x;
        if k == 0 { LexTotal(RowKey(r), RowKey(r)); }
      }
    } else if ExternalId(r) == externalId && IsLatest(rows, datasetId, cutoff, r) {
      assert p(r) && r in s;
      var k :| 0 <= k < |s| && s[k] == r;
      assert p(s[0]);
      LexAntisymmetric(RowKey(r), RowKey(s[0]));
      assert false;
    }
  }

  lemma NoneSelected(rows: seq<Row>, datasetId: Uuid, externalId: string, cutoff: Instant)
    ensures Selected(rows, datasetId, externalId, cutoff).None?
            <==> forall x | x in rows && Visible(x, datasetId, cutoff) :: ExternalId(x) != externalId
  {
    var p := (x: Row) => Visible(x, datasetId, cutoff) && ExternalId(x) == externalId;
    var f := Filter(rows, p);
    MultisetElements(Sort(f, RowKey), f);
    hide Sort;
    assert |f| > 0 ==> f[0] in f;
    assert forall x | x in rows && p(x) :: x in f;
  }

  /** A row survives the scan exactly when it is the first of its id. */
  lemma {:induction false} FirstPerIdMembers(rows: seq<Row>, r: Row)
    ensures r in FirstPerId(rows) <==>
            exists i | 0 <= i < |rows| :: rows[i] == r && !HasId(rows[..i], ExternalId(r))
    decreases |rows|
  {
    if rows != [] {
      var n := |rows| - 1;
      var front := rows[..n];
      FirstPerIdMembers(front, r);
      assert forall i | 0 <= i <= n :: front[..i] == rows[..i];
      if r in FirstPerId(rows) && r !in FirstPerId(front) {
        assert rows[n] == r && !HasId(rows[..n], ExternalId(r));
      }
      if exists i | 0 <= i < |rows| :: rows[i] == r && !HasId(rows[..i], ExternalId(r)) {
        var i :| 0 <= i < |rows| && rows[i] == r && !HasId(rows[..i], ExternalId(r));
        if i < n { assert front[i] == r && !HasId(front[..i], ExternalId(r)); }
      }
    }
  }

  ghost predicate AllBefore(s: seq<Row>, x: Row) {
    forall r | r in s :: LexLeq(RowKey(r), RowKey(x)) && RowKey(r) != RowKey(x)
  }

  lemma AppendStrict(s: seq<Row>, x: Row)
    requires StrictlySorted(s, RowKey) && Distinct(s, ExternalId) && AllBefore(s, x) && !HasId(s, ExternalId(x))
    ensures StrictlySorted(s + [x], RowKey) && Distinct(s + [x], ExternalId)
  {
    hide LexLeq, RowKey, ExternalId;
  }

  lemma PrefixStrict(rows: seq<Row>)
    requires StrictlySorted(rows, RowKey) && rows != []
    ensures StrictlySorted(rows[..|rows| - 1], RowKey) && AllBefore(rows[..|rows| - 1], rows[|rows| - 1])
  {
    hide LexLeq, RowKey;
  }

  ghost predicate Subset(a: seq<Row>, b: seq<Row>) {
    forall r | r in a :: r in b
  }

  lemma SubsetKeeps(a: seq<Row>, b: seq<Row>, x: Row)
    requires Subset(a, b)
    ensures AllBefore(b, x) ==> AllBefore(a, x)
    ensures HasId(a, ExternalId(x)) ==> HasId(b, ExternalId(x))
  {
    hide LexLeq, RowKey, ExternalId;
  }

  lemma {:induction false} FirstPerIdSubset(rows: seq<Row>)
    ensures Subset(FirstPerId(rows), rows)
    decreases |rows|
  {
    if rows != [] { FirstPerIdSubset(rows[..|rows| - 1]); }
  }

  lemma {:induction false} FirstPerIdStrict(rows: seq<Row>)
    requires StrictlySorted(rows, RowKey)
    ensures StrictlySorted(FirstPerId(rows), RowKey)
    ensures Distinct(FirstPerId(rows), ExternalId)
    decreases |rows|
  {
    if rows == [] {
      assert FirstPerId(rows) == [];
    } else {
      var front, last := rows[..|rows| - 1], rows[|rows| - 1];
      hide LexLeq, RowKey, ExternalId, StrictlySorted, Distinct, AllBefore, HasId, Subset;
      PrefixStrict(rows);
      FirstPerIdSubset(front);
      SubsetKeeps(FirstPerId(front), front, last);
      FirstPerIdStrict(front);
      var kept := FirstPerId(front);
      assert FirstPerId(rows) == if HasId(front, ExternalId(last)) then kept + [] else kept + [last];
      hide FirstPerId;
      assert kept + [] == kept;
      if !HasId(front, ExternalId(last)) { AppendStrict(kept, last); }
    }
  }

  /** The first row of its id in the base statement is the latest, */
  lemma FirstIsLatest(rows: seq<Row>, datasetId: Uuid, cutoff: Instant, i: nat)
    requires Distinct(rows, RowId) && i < |Base(rows, datasetId, cutoff)|
    requires var s := Base(rows, datasetId, cutoff); !HasId(s[..i], ExternalId(s[i]))
    ensures IsLatest(rows, datasetId, cutoff, Base(rows, datasetId, cutoff)[i])
  {
    var s := Base(rows, datasetId, cutoff);
    var r := s[i];
    BaseStrict(rows, datasetId, cutoff);
    hide Base, LexLeq, RowKey, Sort, ExternalId;
    assert r in s;
    forall k | 0 <= k < i ensures ExternalId(s[k]) != ExternalId(r) {
      assert s[k] in s[..i];
    }
    forall x | x in rows && Visible(x, datasetId, cutoff) && ExternalId(x) == ExternalId(r)
      ensures LexLeq(RowKey(r), RowKey(x))
    {
      assert x in s;
      var k :| 0 <= k < |s| && s[k] == x;
      if k == i { LexTotal(RowKey(r), RowKey(r)); }
    }
  }

  /** and the latest is the first of its id. */
  lemma LatestIsFirst(rows: seq<Row>, datasetId: Uuid, cutoff: Instant, r: Row)
    returns (i: nat)
    requires Distinct(rows, RowId) && IsLatest(rows, datasetId, cutoff, r)
    ensures var s := Base(rows, datasetId, cutoff); i < |s| && s[i] == r && !HasId(s[..i], ExternalId(r))
  {
    var s := Base(rows, datasetId, cutoff);
    BaseStrict(rows, datasetId, cutoff);
    hide Base, LexLeq, RowKey, Sort, ExternalId;
    assert r in s;
    i :| 0 <= i < |s| && s[i] == r;
    forall x | x in s[..i] ensures ExternalId(x) != ExternalId(r) {
      var k :| 0 <= k < i && s[k] == x;
      assert x in s;
      if ExternalId(x) == ExternalId(r) {
        LexAntisymmetric(RowKey(r), RowKey(x));
        assert false;
      }
    }
  }

  /** The scan keeps exactly the latest row of each external id. */
  lemma ScanKeepsLatest(rows: seq<Row>, datasetId: Uuid, cutoff: Instant, r: Row)
    requires Distinct(rows, RowId)
    ensures r in FirstPerId(Base(rows, datasetId, cutoff)) <==> IsLatest(rows, datasetId, cutoff, r)
  {
    var s := Base(rows, datasetId, cutoff);
    FirstPerIdMembers(s, r);
    hide Base, FirstPerId, LexLeq, RowKey, HasId, IsLatest;
    if IsLatest(rows, datasetId, cutoff, r) {
      var i := LatestIsFirst(rows, datasetId, cutoff, r);
    }
    if i :| 0 <= i < |s| && s[i] == r && !HasId(s[..i], ExternalId(r)) {
      FirstIsLatest(rows, datasetId, cutoff, i);
    }
  }

  // --- The list read against the point read ---

  ghost predicate SomeFails(t: Tables, rows: seq<Row>) {
    exists r | r in rows :: View(t, r).Err?
  }

  /** Every view comes from the row at its place. */
  lemma {:induction false} ViewsAt(t: Tables, rows: seq<Row>)
    ensures var v := Views(t, rows);
            && (v.Ok? ==> |v.value| == |rows| && forall i | 0 <= i < |rows| :: View(t, rows[i]) == Ok(v.value[i]))
            && (v.Err? <==> SomeFails(t, rows))
  {
    hide View;
    if rows != [] {
      ViewsAt(t, rows[1..]);
      SomeFailsStep(t, rows);
      hide SomeFails;
    }
  }

  lemma SomeFailsStep(t: Tables, rows: seq<Row>)
    requires rows != []
    ensures SomeFails(t, rows) <==> View(t, rows[0]).Err? || SomeFails(t, rows[1..])
  {
    hide View;
    assert rows[0] in rows && forall r :: r in rows <==> r == rows[0] || r in rows[1..];
  }

  function ListedRows(t: Tables, datasetId: Uuid, cutoff: Instant, q: Query): seq<Row> {
    Filter(FirstPerId(Base(t.rows, datasetId, cutoff)), (r: Row) => RowMatches(r, q))
  }

  /** The listed rows: the selected row of every id, if it passes the filters; once each, in revision order. */
  lemma ListedIsSelected(t: Tables, datasetId: Uuid, cutoff: Instant, q: Query)
    requires Distinct(t.rows, RowId)
    ensures var rows := ListedRows(t, datasetId, cutoff, q);
            && (forall r :: r in rows <==>
                  Selected(t.rows, datasetId, ExternalId(r), cutoff) == Some(r) && RowMatches(r, q))
            && StrictlySorted(rows, RowKey) && Distinct(rows, ExternalId)
  {
    var first := FirstPerId(Base(t.rows, datasetId, cutoff));
    BaseStrict(t.rows, datasetId, cutoff);
    FirstPerIdStrict(Base(t.rows, datasetId, cutoff));
    var p := (r: Row) => RowMatches(r, q);
    FilterStrict(first, p);
    FilterDistinct(first, p, ExternalId);
    var rows := ListedRows(t, datasetId, cutoff, q);
    assert forall r :: r in rows <==> r in first && p(r);
    hide ListedRows, FirstPerId, Base, Filter, Selected, IsLatest;
    forall r ensures r in rows <==>
      Selected(t.rows, datasetId, ExternalId(r), cutoff) == Some(r) && RowMatches(r, q)
    {
      ScanKeepsLatest(t.rows, datasetId, cutoff, r);
      SelectedIsLatest(t.rows, datasetId, ExternalId(r), cutoff, r);
    }
  }

  function AnnouncementKey(a: Announcement): seq<int> {
    RevisionKey(a.availableAt, a.revisionAt, a.ingestedAt, a.id)
  }

  lemma ViewFields(t: Tables, r: Row)
    requires View(t, r).Ok?
    ensures var a := View(t, r).value;
            && a.externalRecordId == ExternalId(r) && AnnouncementKey(a) == RowKey(r)
            && (forall q: Query :: ViewMatches(a, q) <==> RowMatches(r, q))
  {
  }

  /** Each listed view is the point read of its id, and passes the filters. */
  lemma ListedByPoint(t: Tables, datasetId: Uuid, cutoff: Instant, q: Query)
    requires Distinct(t.rows, RowId) && AnnouncementsAsOf(t, datasetId, cutoff, q).Ok?
    ensures var rows, list := ListedRows(t, datasetId, cutoff, q), AnnouncementsAsOf(t, datasetId, cutoff, q).value;
            && |list| == |rows|
            && forall i | 0 <= i < |rows| ::
                 && View(t, rows[i]) == Ok(list[i])
                 && Selected(t.rows, datasetId, list[i].externalRecordId, cutoff) == Some(rows[i])
                 && list[i].externalRecordId == ExternalId(rows[i]) && AnnouncementKey(list[i]) == RowKey(rows[i])
                 && ViewMatches(list[i], q)
  {
    var rows := ListedRows(t, datasetId, cutoff, q);
    ListedIsSelected(t, datasetId, cutoff, q);
    ViewsAt(t, rows);
    var list := AnnouncementsAsOf(t, datasetId, cutoff, q).value;
    hide *;
    forall i | 0 <= i < |rows|
      ensures Selected(t.rows, datasetId, list[i].externalRecordId, cutoff) == Some(rows[i])
              && list[i].externalRecordId == ExternalId(rows[i]) && AnnouncementKey(list[i]) == RowKey(rows[i])
              && ViewMatches(list[i], q)
    {
      ViewFields(t, rows[i]);
      assert rows[i] in rows;
    }
  }

  lemma PointRow(t: Tables, datasetId: Uuid, cutoff: Instant, a: Announcement) returns (r: Row)
    requires AnnouncementAsOf(t, datasetId, a.externalRecordId, cutoff) == Ok(Some(a))
    ensures Selected(t.rows, datasetId, a.externalRecordId, cutoff) == Some(r) && View(t, r) == Ok(a)
  {
    hide View, Selected, NotBlank;
    r := Selected(t.rows, datasetId, a.externalRecordId, cutoff).value;
  }

  /** A point read that passes the filters is listed. */
  lemma PointIsListed(t: Tables, datasetId: Uuid, cutoff: Instant, q: Query, a: Announcement)
    requires Distinct(t.rows, RowId) && AnnouncementsAsOf(t, datasetId, cutoff, q).Ok?
    requires AnnouncementAsOf(t, datasetId, a.externalRecordId, cutoff) == Ok(Some(a)) && ViewMatches(a, q)
    ensures a in AnnouncementsAsOf(t, datasetId, cutoff, q).value
  {
    var rows := ListedRows(t, datasetId, cutoff, q);
    var list := AnnouncementsAsOf(t, datasetId, cutoff, q).value;
    var r := PointRow(t, datasetId, cutoff, a);
    hide *;
    ViewFields(t, r);
    assert r in rows by { ListedIsSelected(t, datasetId, cutoff, q); }
    var i :| 0 <= i < |rows| && rows[i] == r;
    ListedByPoint(t, datasetId, cutoff, q);
    assert list[i] == a;
  }

  /**
   * The list read returns exactly the point reads that pass the filters, once per external id, in revision order.
   * (An id of blanks alone cannot be asked for by point.)
   */
  lemma ListAgreesWithPoint(t: Tables, datasetId: Uuid, cutoff: Instant, q: Query)
    requires Distinct(t.rows, RowId) && AnnouncementsAsOf(t, datasetId, cutoff, q).Ok?
    ensures var list := AnnouncementsAsOf(t, datasetId, cutoff, q).value;
            && (forall a: Announcement | NotBlank(a.externalRecordId) ::
                  a in list <==>
                  AnnouncementAsOf(t, datasetId, a.externalRecordId, cutoff) == Ok(Some(a)) && ViewMatches(a, q))
            && (forall i, j | 0 <= i < j < |list| :: list[i].externalRecordId != list[j].externalRecordId)
            && StrictlySorted(list, AnnouncementKey)
  {
    var list := AnnouncementsAsOf(t, datasetId, cutoff, q).value;
    ListInOrder(t, datasetId, cutoff, q);
    hide StrictlySorted, AnnouncementKey;
    forall a: Announcement | NotBlank(a.externalRecordId)
      ensures a in list <==>
        AnnouncementAsOf(t, datasetId, a.externalRecordId, cutoff) == Ok(Some(a)) && ViewMatches(a, q)
    {
      ListedIffPoint(t, datasetId, cutoff, q, a);
    }
    hide *;
  }

  lemma ListedIffPoint(t: Tables, datasetId: Uuid, cutoff: Instant, q: Query, a: Announcement)
    requires Distinct(t.rows, RowId) && AnnouncementsAsOf(t, datasetId, cutoff, q).Ok? && NotBlank(a.externalRecordId)
    ensures a in AnnouncementsAsOf(t, datasetId, cutoff, q).value <==>
            AnnouncementAsOf(t, datasetId, a.externalRecordId, cutoff) == Ok(Some(a)) && ViewMatches(a, q)
  {
    var list := AnnouncementsAsOf(t, datasetId, cutoff, q).value;
    hide View, ListedRows, RowKey, AnnouncementKey, RowMatches, ViewMatches, Selected, LexLeq, NotBlank, AnnouncementsAsOf, Distinct;
    if a in list {
      ListedByPoint(t, datasetId, cutoff, q);
      var i :| 0 <= i < |list| && list[i] == a;
    } else if AnnouncementAsOf(t, datasetId, a.externalRecordId, cutoff) == Ok(Some(a)) && ViewMatches(a, q) {
      PointIsListed(t, datasetId, cutoff, q, a);
    }
  }

  lemma ListInOrder(t: Tables, datasetId: Uuid, cutoff: Instant, q: Query)
    requires Distinct(t.rows, RowId) && AnnouncementsAsOf(t, datasetId, cutoff, q).Ok?
    ensures var list := AnnouncementsAsOf(t, datasetId, cutoff, q).value;
            && (forall i, j | 0 <= i < j < |list| :: list[i].externalRecordId != list[j].externalRecordId)
            && StrictlySorted(list, AnnouncementKey)
  {
    var rows := ListedRows(t, datasetId, cutoff, q);
    var list := AnnouncementsAsOf(t, datasetId, cutoff, q).value;
    hide View, ListedRows, RowKey, AnnouncementKey, RowMatches, ViewMatches, Selected, LexLeq, AnnouncementsAsOf;
    ListedIsSelected(t, datasetId, cutoff, q);
    ListedByPoint(t, datasetId, cutoff, q);
    forall i, j | 0 <= i < j < |list| ensures list[i].externalRecordId != list[j].externalRecordId {
      assert ExternalId(rows[i]) != ExternalId(rows[j]);
    }
  }

  /** The list read raises exactly on an inverted range or when a selected row that passes the filters has no view. */
  lemma ListRaisesIff(t: Tables, datasetId: Uuid, cutoff: Instant, q: Query)
    requires Distinct(t.rows, RowId)
    ensures AnnouncementsAsOf(t, datasetId, cutoff, q).Err? <==>
            InvertedRange(q) ||
            exists r: Row :: Selected(t.rows, datasetId, ExternalId(r), cutoff) == Some(r) && RowMatches(r, q)
                             && View(t, r).Err?
  {
    ListedIsSelected(t, datasetId, cutoff, q);
    ViewsAt(t, ListedRows(t, datasetId, cutoff, q));
    var rows := ListedRows(t, datasetId, cutoff, q);
    assert !InvertedRange(q) ==> AnnouncementsAsOf(t, datasetId, cutoff, q) == Views(t, rows);
    hide View, Views, ListedRows, Selected, RowMatches, AnnouncementsAsOf;
  }

  function AttachedId(a: Attached): Uuid {
    a.document.id
  }

  /** The primary keys of both tables. */
  ghost predicate Keyed(t: Tables) {
    Distinct(t.rows, RowId) && forall id :: Distinct(t.attached(id), AttachedId)
  }

  /** The two tables hold the same visible rows, and the latest of them have the same accepted documents. */
  ghost predicate SameVisible(t: Tables, u: Tables, datasetId: Uuid, cutoff: Instant) {
    && (forall r | Visible(r, datasetId, cutoff) :: r in t.rows <==> r in u.rows)
    && (forall r | IsLatest(t.rows, datasetId, cutoff, r) :: SameElements(Accepted(t, r.id), Accepted(u, r.id)))
  }

  /**
   * Nothing else matters: not rows past the cutoff, of other datasets or not accepted, not the documents of any row
   * that is not shown, not documents that are not accepted, and not the order of rows or documents.
   */
  lemma OnlyVisibleRowsMatter(t: Tables, u: Tables, datasetId: Uuid, cutoff: Instant, q: Query, externalId: string)
    requires Keyed(t) && Keyed(u) && SameVisible(t, u, datasetId, cutoff)
    ensures AnnouncementsAsOf(t, datasetId, cutoff, q) == AnnouncementsAsOf(u, datasetId, cutoff, q)
    ensures AnnouncementAsOf(t, datasetId, externalId, cutoff) == AnnouncementAsOf(u, datasetId, externalId, cutoff)
  {
    SameList(t, u, datasetId, cutoff, q);
    SamePoint(t, u, datasetId, externalId, cutoff);
    hide *;
  }

  lemma SameList(t: Tables, u: Tables, datasetId: Uuid, cutoff: Instant, q: Query)
    requires Keyed(t) && Keyed(u) && SameVisible(t, u, datasetId, cutoff)
    ensures AnnouncementsAsOf(t, datasetId, cutoff, q) == AnnouncementsAsOf(u, datasetId, cutoff, q)
  {
    var rows := ListedRows(t, datasetId, cutoff, q);
    SameBase(t.rows, u.rows, datasetId, cutoff);
    ListedIsSelected(t, datasetId, cutoff, q);
    hide Base, Views, FirstPerId, Filter, Visible, RowMatches, InvertedRange, Distinct, Selected, IsLatest, Accepted,
         StrictlySorted;
    forall r | r in rows ensures SameElements(Accepted(t, r.id), Accepted(u, r.id)) {
      SelectedIsLatest(t.rows, datasetId, ExternalId(r), cutoff, r);
    }
    SameViews(t, u, rows);
  }

  lemma SamePoint(t: Tables, u: Tables, datasetId: Uuid, externalId: string, cutoff: Instant)
    requires Keyed(t) && Keyed(u) && SameVisible(t, u, datasetId, cutoff)
    ensures AnnouncementAsOf(t, datasetId, externalId, cutoff) == AnnouncementAsOf(u, datasetId, externalId, cutoff)
  {
    hide Selected, View, Visible, NotBlank, Distinct, IsLatest, Accepted;
    SameSelected(t.rows, u.rows, datasetId, externalId, cutoff);
    var found := Selected(t.rows, datasetId, externalId, cutoff);
    if found.Some? {
      SelectedIsLatest(t.rows, datasetId, externalId, cutoff, found.value);
      SameView(t, u, found.value);
    }
  }

  lemma SameBase(a: seq<Row>, b: seq<Row>, datasetId: Uuid, cutoff: Instant)
    requires Distinct(a, RowId) && Distinct(b, RowId)
    requires forall r | Visible(r, datasetId, cutoff) :: r in a <==> r in b
    ensures Base(a, datasetId, cutoff) == Base(b, datasetId, cutoff)
  {
    BaseStrict(a, datasetId, cutoff);
    BaseStrict(b, datasetId, cutoff);
    hide Base, Sort;
    StrictOrderUnique(Base(a, datasetId, cutoff), Base(b, datasetId, cutoff), RowKey);
  }

  lemma AcceptedKeys(t: Tables, id: Uuid)
    requires Keyed(t)
    ensures Distinct(Accepted(t, id), AttachedKey)
  {
    FilterDistinct(t.attached(id), IsAccepted, AttachedId);
    var s := Accepted(t, id);
    hide Accepted, Keyed;
    forall i, j | 0 <= i < j < |s| ensures AttachedKey(s[i]) != AttachedKey(s[j]) {
      assert AttachedId(s[i]) != AttachedId(s[j]);
      assert AttachedKey(s[i])[1] != AttachedKey(s[j])[1];
    }
  }

  lemma SameView(t: Tables, u: Tables, r: Row)
    requires Keyed(t) && Keyed(u) && SameElements(Accepted(t, r.id), Accepted(u, r.id))
    ensures View(t, r) == View(u, r)
  {
    AcceptedKeys(t, r.id);
    AcceptedKeys(u, r.id);
    hide Keyed, Accepted, AttachedKey, CheckDocuments;
    SortIgnoresOrder(Accepted(t, r.id), Accepted(u, r.id), AttachedKey);
  }

  lemma {:induction false} SameViews(t: Tables, u: Tables, rows: seq<Row>)
    requires Keyed(t) && Keyed(u) && forall r | r in rows :: SameElements(Accepted(t, r.id), Accepted(u, r.id))
    ensures Views(t, rows) == Views(u, rows)
  {
    hide View, Accepted, Keyed;
    if rows != [] {
      assert rows[0] in rows;
      SameView(t, u, rows[0]);
      SameViews(t, u, rows[1..]);
    }
  }

  lemma SameSelected(a: seq<Row>, b: seq<Row>, datasetId: Uuid, externalId: string, cutoff: Instant)
    requires Distinct(a, RowId) && Distinct(b, RowId)
    requires forall r | Visible(r, datasetId, cutoff) :: r in a <==> r in b
    ensures Selected(a, datasetId, externalId, cutoff) == Selected(b, datasetId, externalId, cutoff)
  {
    var p := (x: Row) => Visible(x, datasetId, cutoff) && ExternalId(x) == externalId;
    KeysDistinct(a);
    KeysDistinct(b);
    FilterDistinct(a, p, RowKey);
    FilterDistinct(b, p, RowKey);
    SortIgnoresOrder(Filter(a, p), Filter(b, p), RowKey);
  }

  /** Filters apply after selection: a correction that no longer passes them withdraws the older revision. */
  lemma CorrectionWithdraws(
      t: Tables, datasetId: Uuid, cutoff: Instant, q: Query, correction: Row, a: Announcement)
    requires Distinct(t.rows, RowId) && AnnouncementsAsOf(t, datasetId, cutoff, q).Ok?
    requires IsLatest(t.rows, datasetId, cutoff, correction) && !RowMatches(correction, q)
    requires a.externalRecordId == ExternalId(correction)
    ensures a !in AnnouncementsAsOf(t, datasetId, cutoff, q).value
  {
    var rows := ListedRows(t, datasetId, cutoff, q);
    var list := AnnouncementsAsOf(t, datasetId, cutoff, q).value;
    ListedIsSelected(t, datasetId, cutoff, q);
    SelectedIsLatest(t.rows, datasetId, a.externalRecordId, cutoff, correction);
    ListedByPoint(t, datasetId, cutoff, q);
    hide View, ListedRows, RowMatches, Selected, AnnouncementsAsOf, IsLatest;
    forall i | 0 <= i < |list| ensures list[i] != a {
      assert rows[i] in rows;
    }
  }

  // --- No look-ahead ---

  /** The tables after one more announcement has been ingested with its documents. */
  function Ingested(t: Tables, r: Row, documents: seq<Attached>): Tables {
    Tables(t.rows + [r], (id: Uuid) => if id == r.id then documents else t.attached(id))
  }

  /** Ingesting an announcement that becomes available after the cutoff changes no read at the cutoff. */
  lemma LaterIngestionInvisible(
      t: Tables, r: Row, documents: seq<Attached>, datasetId: Uuid, cutoff: Instant, q: Query, externalId: string)
    requires Keyed(t) && Keyed(Ingested(t, r, documents)) && r.availableAt > cutoff
    ensures var u := Ingested(t, r, documents);
            && AnnouncementsAsOf(t, datasetId, cutoff, q) == AnnouncementsAsOf(u, datasetId, cutoff, q)
            && AnnouncementAsOf(t, datasetId, externalId, cutoff) == AnnouncementAsOf(u, datasetId, externalId, cutoff)
  {
    var u := Ingested(t, r, documents);
    assert Distinct(u.rows, RowId);
    assert SameVisible(t, u, datasetId, cutoff) by {
      forall x | IsLatest(t.rows, datasetId, cutoff, x) ensures SameElements(Accepted(t, x.id), Accepted(u, x.id)) {
        var i :| 0 <= i < |t.rows| && t.rows[i] == x;
        assert RowId(u.rows[i]) != RowId(u.rows[|t.rows|]);
      }
    }
    hide Ingested, Keyed, SameVisible;
    OnlyVisibleRowsMatter(t, u, datasetId, cutoff, q, externalId);
  }

  lemma {:induction false} CheckedDocuments(attached: seq<Attached>, row: Row)
    requires CheckDocuments(attached, row).Ok?
    ensures var documents := CheckDocuments(attached, row).value;
            |documents| == |attached| && forall i | 0 <= i < |attached| :: documents[i] == attached[i].document
  {
    if attached != [] { CheckedDocuments(attached[1..], row); }
  }

  /** A view shows exactly the accepted attached documents. */
  lemma ShownDocuments(t: Tables, row: Row, d: Document)
    requires View(t, row).Ok?
    ensures d in View(t, row).value.documents <==> exists x | x in Accepted(t, row.id) :: x.document == d
  {
    var accepted := Accepted(t, row.id);
    var sorted := Sort(accepted, AttachedKey);
    CheckedDocuments(sorted, row);
    MultisetElements(sorted, accepted);
    var documents := View(t, row).value.documents;
    hide Accepted, Sort, CheckDocuments, View;
    if d in documents {
      var i :| 0 <= i < |documents| && documents[i] == d;
      assert sorted[i] in accepted;
    }
    if x :| x in accepted && x.document == d {
      assert x in sorted;
      var i :| 0 <= i < |sorted| && sorted[i] == x;
      assert documents[i] == d;
    }
  }

  /** Nothing an announcement shows was published after the cutoff. */
  predicate Known(a: Announcement, cutoff: Instant) {
    a.availableAt <= cutoff && forall d | d in a.documents :: d.availableAt <= cutoff
  }

  /**
   * The read checks the announcement's time but not its documents': what it shows was all known at the cutoff exactly
   * when every accepted document attached to the row was.
   */
  lemma KnownIff(t: Tables, datasetId: Uuid, externalId: string, cutoff: Instant)
    requires Keyed(t)
    requires AnnouncementAsOf(t, datasetId, externalId, cutoff).Ok?
             && AnnouncementAsOf(t, datasetId, externalId, cutoff).value.Some?
    ensures var a := AnnouncementAsOf(t, datasetId, externalId, cutoff).value.value;
            Known(a, cutoff) <==> forall x | x in Accepted(t, a.id) :: x.document.availableAt <= cutoff
  {
    var a := AnnouncementAsOf(t, datasetId, externalId, cutoff).value.value;
    hide View, Accepted, Selected, Keyed, NotBlank;
    var r := Selected(t.rows, datasetId, externalId, cutoff).value;
    assert View(t, r) == Ok(a);
    assert Distinct(t.rows, RowId) by { KeyedRows(t); }
    SelectedIsLatest(t.rows, datasetId, externalId, cutoff, r);
    RowKnownIff(t, r, datasetId, cutoff);
  }

  lemma KeyedRows(t: Tables)
    requires Keyed(t)
    ensures Distinct(t.rows, RowId)
  {
  }

  lemma RowKnownIff(t: Tables, r: Row, datasetId: Uuid, cutoff: Instant)
    requires View(t, r).Ok? && IsLatest(t.rows, datasetId, cutoff, r)
    ensures var a := View(t, r).value;
            && a.id == r.id
            && (Known(a, cutoff) <==> forall x | x in Accepted(t, r.id) :: x.document.availableAt <= cutoff)
  {
    var a := View(t, r).value;
    assert a.id == r.id && a.availableAt == r.availableAt <= cutoff;
    forall d ensures d in a.documents <==> exists x | x in Accepted(t, r.id) :: x.document == d {
      ShownDocuments(t, r, d);
    }
    hide View, Accepted;
  }

  /** What ingestion writes: a document carries the availability of its announcement. */
  ghost predicate AsIngested(t: Tables) {
    forall r, x | r in t.rows && x in Accepted(t, r.id) :: x.document.availableAt == r.availableAt
  }

  /** Over what ingestion writes neither read ever shows anything published after the cutoff. */
  lemma IngestedNeverAhead(t: Tables, datasetId: Uuid, cutoff: Instant, q: Query, externalId: string)
    requires Keyed(t) && AsIngested(t)
    ensures var point := AnnouncementAsOf(t, datasetId, externalId, cutoff);
            point.Ok? && point.value.Some? ==> Known(point.value.value, cutoff)
    ensures var list := AnnouncementsAsOf(t, datasetId, cutoff, q);
            list.Ok? ==> forall a | a in list.value :: Known(a, cutoff)
  {
    KeyedRows(t);
    PointNeverAhead(t, datasetId, externalId, cutoff);
    if AnnouncementsAsOf(t, datasetId, cutoff, q).Ok? { ListNeverAhead(t, datasetId, cutoff, q); }
    hide *;
  }

  lemma PointNeverAhead(t: Tables, datasetId: Uuid, externalId: string, cutoff: Instant)
    requires Distinct(t.rows, RowId) && AsIngested(t)
    ensures var point := AnnouncementAsOf(t, datasetId, externalId, cutoff);
            point.Ok? && point.value.Some? ==> Known(point.value.value, cutoff)
  {
    hide View, Accepted, Selected, NotBlank, Known, Distinct, AsIngested;
    var point := AnnouncementAsOf(t, datasetId, externalId, cutoff);
    if point.Ok? && point.value.Some? {
      LatestKnown(t, datasetId, externalId, cutoff, Selected(t.rows, datasetId, externalId, cutoff).value);
    }
  }

  lemma ListNeverAhead(t: Tables, datasetId: Uuid, cutoff: Instant, q: Query)
    requires Distinct(t.rows, RowId) && AsIngested(t) && AnnouncementsAsOf(t, datasetId, cutoff, q).Ok?
    ensures forall a | a in AnnouncementsAsOf(t, datasetId, cutoff, q).value :: Known(a, cutoff)
  {
    var rows, list := ListedRows(t, datasetId, cutoff, q), AnnouncementsAsOf(t, datasetId, cutoff, q).value;
    hide View, Accepted, Selected, Known, Distinct, AsIngested, ListedRows, AnnouncementsAsOf, AnnouncementKey, RowKey,
         ViewMatches;
    ListedByPoint(t, datasetId, cutoff, q);
    forall a | a in list ensures Known(a, cutoff) {
      var i :| 0 <= i < |list| && list[i] == a;
      LatestKnown(t, datasetId, a.externalRecordId, cutoff, rows[i]);
    }
  }

  lemma LatestKnown(t: Tables, datasetId: Uuid, externalId: string, cutoff: Instant, r: Row)
    requires Distinct(t.rows, RowId) && AsIngested(t) && View(t, r).Ok?
    requires Selected(t.rows, datasetId, externalId, cutoff) == Some(r)
    ensures Known(View(t, r).value, cutoff)
  {
    hide View, Accepted, Selected, Known;
    SelectedIsLatest(t.rows, datasetId, externalId, cutoff, r);
    RowKnownIff(t, r, datasetId, cutoff);
  }

  /** Without that, a read does show a document from after the cutoff. */
  lemma LateDocumentShown(r: Row, d: Document, cutoff: Instant)
    requires Visible(r, r.datasetId, cutoff) && NotBlank(ExternalId(r)) && r.sourceDatasetId == r.datasetId
    requires d.source.validation == "accepted" && d.availableAt > cutoff
    requires d.datasetId == r.datasetId && d.companyId == r.companyId && d.securityId == r.securityId
    ensures var t := Ingested(Tables([], (id: Uuid) => []), r, [Attached(d, r.datasetId)]);
            var read := AnnouncementAsOf(t, r.datasetId, ExternalId(r), cutoff);
            && read.Ok? && read.value.Some? && d in read.value.value.documents && !Known(read.value.value, cutoff)
  {
    var t := Ingested(Tables([], (id: Uuid) => []), r, [Attached(d, r.datasetId)]);
    assert t.rows == [r] && t.attached(r.id) == [Attached(d, r.datasetId)];
    var p := (x: Row) => Visible(x, r.datasetId, cutoff) && ExternalId(x) == ExternalId(r);
    assert Filter([r], p) == [r];
    assert Sort([r], RowKey) == [r];
    var x := Attached(d, r.datasetId);
    assert Accepted(t, r.id) == [x];
    assert Sort([x], AttachedKey) == [x];
    assert [x][1..] == [] && [d] + [] == [d];
    assert CheckDocuments([x][1..], r) == Ok([]);
    assert CheckDocuments([x], r) == Ok([d]);
  }
}
