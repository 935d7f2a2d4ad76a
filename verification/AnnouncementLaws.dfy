/** What the announcement reads return, in the fields of the stored rows. */
module AnnouncementLaws {
  import opened Prelude
  import opened Sorting
  import opened Text
  import opened EventModel
  import opened Announcements

  // --- Rows ---

  /** Accepted, of the provider asked for, and available at the cutoff. */
  ghost predicate KnownRow(r: Row, datasetId: Uuid, cutoff: Instant) {
    r.datasetId == datasetId && r.availableAt <= cutoff && r.source.validation == "accepted"
  }

  /** When a row was revised; an unrevised one when it became available. */
  ghost function RevisedAt(r: Row): Instant {
    if r.revisionAt.Some? then r.revisionAt.value else r.availableAt
  }

  /** At least as late: by availability, then revision, then ingestion, then id. */
  ghost predicate AsLate(r: Row, x: Row) {
    if r.availableAt != x.availableAt then r.availableAt > x.availableAt
    else if RevisedAt(r) != RevisedAt(x) then RevisedAt(r) > RevisedAt(x)
    else if r.ingestedAt != x.ingestedAt then r.ingestedAt > x.ingestedAt
    else r.id >= x.id
  }

  /** The latest known row of its external id. */
  ghost predicate LatestRow(rows: seq<Row>, datasetId: Uuid, cutoff: Instant, r: Row) {
    && r in rows && KnownRow(r, datasetId, cutoff)
    && forall x | x in rows && KnownRow(x, datasetId, cutoff)
                  && x.source.externalRecordId == r.source.externalRecordId :: AsLate(r, x)
  }

  /** The filters of a list: company, security, and dates; a row without a date passes only without date bounds. */
  ghost predicate Passes(r: Row, q: Query) {
    && (q.companyId.Some? ==> r.companyId == q.companyId.value)
    && (q.securityId.Some? ==> r.securityId == Some(q.securityId.value))
    && (q.startDate.Some? ==> r.date.Some? && q.startDate.value <= r.date.value)
    && (q.endDate.Some? ==> r.date.Some? && r.date.value <= q.endDate.value)
  }

  lemma KeyIsOrder(r: Row, x: Row)
    ensures LexLeq(RowKey(r), RowKey(x)) <==> AsLate(r, x)
  {
    var a, b := RowKey(r), RowKey(x);
    assert LexLeq(a, b) <==> a[0] < b[0] || (a[0] == b[0] && LexLeq(a[1..], b[1..]));
    assert LexLeq(a[1..], b[1..]) <==> a[1] < b[1] || (a[1] == b[1] && LexLeq(a[2..], b[2..]));
    assert LexLeq(a[2..], b[2..]) <==> a[2] < b[2] || (a[2] == b[2] && LexLeq(a[3..], b[3..]));
    assert LexLeq(a[3..], b[3..]) <==> a[3] < b[3] || (a[3] == b[3] && LexLeq(a[4..], b[4..]));
    assert LexLeq(a[4..], b[4..]);
    hide LexLeq;
  }

  lemma LatestIff(rows: seq<Row>, datasetId: Uuid, cutoff: Instant, r: Row)
    ensures IsLatest(rows, datasetId, cutoff, r) <==> LatestRow(rows, datasetId, cutoff, r)
  {
    forall x ensures LexLeq(RowKey(r), RowKey(x)) <==> AsLate(r, x) { KeyIsOrder(r, x); }
    hide LexLeq, RowKey, AsLate;
  }

  lemma PassesIff(r: Row, q: Query)
    ensures RowMatches(r, q) <==> Passes(r, q)
  {
  }

  // --- Views ---

  ghost function Place(role: string): nat {
    if role == "primary" then 0 else if role == "attachment" then 1 else if role == "supporting" then 2 else 3
  }

  /** Documents by role, primary first, and then by id. */
  ghost predicate DocumentBefore(d: Document, e: Document) {
    Place(d.role) < Place(e.role) || (Place(d.role) == Place(e.role) && d.id < e.id)
  }

  /** The accepted documents attached to a row, each once, in order. */
  ghost predicate DocumentsShown(t: Tables, r: Row, documents: seq<Document>) {
    && (forall d :: d in documents <==>
          exists x | x in t.attached(r.id) :: x.document == d && x.document.source.validation == "accepted")
    && (forall i, j | 0 <= i < j < |documents| :: DocumentBefore(documents[i], documents[j]))
  }

  /** Every field of the view of a row. */
  ghost predicate Shows(t: Tables, r: Row, a: Announcement) {
    && a.id == r.id && a.companyId == r.companyId && a.securityId == r.securityId && a.datasetId == r.datasetId
    && a.externalRecordId == r.source.externalRecordId && a.category == r.category && a.headline == r.headline
    && a.date == r.date && a.exchange == r.exchange && a.availableAt == r.availableAt && a.revisionAt == r.revisionAt
    && a.ingestedAt == r.ingestedAt && a.source == r.source && DocumentsShown(t, r, a.documents)
  }

  /** A document of another provider, company or security than the announcement. */
  ghost predicate Foreign(x: Attached, r: Row) {
    || x.document.datasetId != r.datasetId || x.sourceDatasetId != r.datasetId
    || x.document.companyId != r.companyId || x.document.securityId != r.securityId
  }

  /** What makes showing a row raise. */
  ghost predicate Unshowable(t: Tables, r: Row) {
    || r.sourceDatasetId != r.datasetId
    || exists x | x in t.attached(r.id) :: x.document.source.validation == "accepted" && Foreign(x, r)
  }

  lemma {:induction false} ChecksForeign(attached: seq<Attached>, r: Row)
    ensures CheckDocuments(attached, r).Err? <==> exists x | x in attached :: Foreign(x, r)
  {
    if attached != [] {
      ChecksForeign(attached[1..], r);
      assert attached[0] in attached && forall x :: x in attached <==> x == attached[0] || x in attached[1..];
    }
  }

  lemma RolePlace(x: string, y: string)
    ensures RoleRank(x) < RoleRank(y) <==> Place(x) < Place(y)
    ensures RoleRank(x) == RoleRank(y) <==> Place(x) == Place(y)
  {
  }

  lemma AttachedOrder(x: Attached, y: Attached)
    requires LexLeq(AttachedKey(x), AttachedKey(y)) && AttachedKey(x) != AttachedKey(y)
    ensures DocumentBefore(x.document, y.document)
  {
    var a, b := AttachedKey(x), AttachedKey(y);
    assert a[0] < b[0] || (a[0] == b[0] && LexLeq(a[1..], b[1..]));
    assert LexLeq(a[1..], b[1..]) ==> a[1] <= b[1];
    RolePlace(x.document.role, y.document.role);
    hide LexLeq, RoleRank, Place;
  }

  /** The documents of a view are those of the sorted accepted attachments. */
  lemma ViewDocuments(t: Tables, r: Row)
    requires View(t, r).Ok?
    ensures var sorted, documents := Sort(Accepted(t, r.id), AttachedKey), View(t, r).value.documents;
            |documents| == |sorted| && forall i | 0 <= i < |sorted| :: documents[i] == sorted[i].document
  {
    hide Accepted, Sort, CheckDocuments;
    CheckedDocuments(Sort(Accepted(t, r.id), AttachedKey), r);
  }

  lemma AcceptedIff(t: Tables, id: Uuid, x: Attached)
    ensures x in Accepted(t, id) <==> x in t.attached(id) && x.document.source.validation == "accepted"
  {
  }

  lemma DocumentIff(t: Tables, r: Row, d: Document)
    requires View(t, r).Ok?
    ensures d in View(t, r).value.documents <==>
            exists x | x in t.attached(r.id) :: x.document == d && x.document.source.validation == "accepted"
  {
    var accepted := Accepted(t, r.id);
    hide View, Accepted;
    ShownDocuments(t, r, d);
    forall x ensures x in accepted <==> x in t.attached(r.id) && x.document.source.validation == "accepted" {
      AcceptedIff(t, r.id, x);
    }
  }

  lemma DocumentsOrdered(t: Tables, r: Row, i: nat, j: nat)
    requires Keyed(t) && View(t, r).Ok? && i < j < |View(t, r).value.documents|
    ensures DocumentBefore(View(t, r).value.documents[i], View(t, r).value.documents[j])
  {
    var accepted := Accepted(t, r.id);
    var sorted := Sort(accepted, AttachedKey);
    hide View, Accepted, Sort, LexLeq, AttachedKey, DocumentBefore, Keyed;
    AcceptedKeys(t, r.id);
    SortStrict(accepted, AttachedKey);
    ViewDocuments(t, r);
    AttachedOrder(sorted[i], sorted[j]);
  }

  lemma DocumentsInOrder(t: Tables, r: Row)
    requires Keyed(t) && View(t, r).Ok?
    ensures DocumentsShown(t, r, View(t, r).value.documents)
  {
    var documents := View(t, r).value.documents;
    hide View, DocumentBefore, Keyed;
    forall d ensures d in documents <==>
      exists x | x in t.attached(r.id) :: x.document == d && x.document.source.validation == "accepted"
    {
      DocumentIff(t, r, d);
    }
    forall i, j | 0 <= i < j < |documents| ensures DocumentBefore(documents[i], documents[j]) {
      DocumentsOrdered(t, r, i, j);
    }
  }

  /** A row is shown with every field, unless it is not showable. */
  lemma ViewLaw(t: Tables, r: Row)
    requires Keyed(t)
    ensures View(t, r).Err? <==> Unshowable(t, r)
    ensures View(t, r).Ok? ==> Shows(t, r, View(t, r).value)
  {
    var accepted := Accepted(t, r.id);
    var sorted := Sort(accepted, AttachedKey);
    MultisetElements(sorted, accepted);
    ChecksForeign(sorted, r);
    assert forall x :: x in accepted <==> x in t.attached(r.id) && x.document.source.validation == "accepted";
    if View(t, r).Ok? { DocumentsInOrder(t, r); }
    hide Accepted, Sort, CheckDocuments, DocumentsShown, Keyed, Foreign;
  }

  // --- The reads ---

  /**
   * The point read of an id: nothing exactly when no known row has it, otherwise the latest known row with every
   * field; it raises exactly when that row is not showable.
   */
  lemma PointLaw(t: Tables, datasetId: Uuid, externalId: string, cutoff: Instant)
    requires Keyed(t) && NotBlank(externalId)
    ensures var read := AnnouncementAsOf(t, datasetId, externalId, cutoff);
            && (read == Ok(None) <==>
                forall x | x in t.rows && KnownRow(x, datasetId, cutoff) :: x.source.externalRecordId != externalId)
            && (forall r | LatestRow(t.rows, datasetId, cutoff, r) && r.source.externalRecordId == externalId ::
                  && (read.Err? <==> Unshowable(t, r))
                  && (read.Ok? ==> read.value.Some? && Shows(t, r, read.value.value)))
            && (read != Ok(None) ==>
                  exists r :: LatestRow(t.rows, datasetId, cutoff, r) && r.source.externalRecordId == externalId)
  {
    KeyedRows(t);
    NoneSelected(t.rows, datasetId, externalId, cutoff);
    assert forall x :: Visible(x, datasetId, cutoff) <==> KnownRow(x, datasetId, cutoff);
    forall r
      ensures Selected(t.rows, datasetId, externalId, cutoff) == Some(r) <==>
              r.source.externalRecordId == externalId && LatestRow(t.rows, datasetId, cutoff, r)
    {
      SelectedIsLatest(t.rows, datasetId, externalId, cutoff, r);
      LatestIff(t.rows, datasetId, cutoff, r);
    }
    forall r
      ensures View(t, r).Err? <==> Unshowable(t, r)
      ensures View(t, r).Ok? ==> Shows(t, r, View(t, r).value)
    {
      ViewLaw(t, r);
    }
    hide Selected, View, NotBlank, LatestRow, Shows, Unshowable, Keyed, Visible, KnownRow;
  }

  ghost predicate Due(t: Tables, datasetId: Uuid, cutoff: Instant, q: Query, r: Row) {
    LatestRow(t.rows, datasetId, cutoff, r) && Passes(r, q)
  }

  lemma DueIff(t: Tables, datasetId: Uuid, cutoff: Instant, q: Query, r: Row)
    requires Keyed(t)
    ensures Selected(t.rows, datasetId, ExternalId(r), cutoff) == Some(r) && RowMatches(r, q) <==>
            Due(t, datasetId, cutoff, q, r)
  {
    KeyedRows(t);
    SelectedIsLatest(t.rows, datasetId, ExternalId(r), cutoff, r);
    LatestIff(t.rows, datasetId, cutoff, r);
    PassesIff(r, q);
    hide Selected, LatestRow, Passes, RowMatches, Keyed, IsLatest;
  }

  /** The list read: every due row with every field, nothing else, latest first; */
  lemma ListLaw(t: Tables, datasetId: Uuid, cutoff: Instant, q: Query) returns (rows: seq<Row>)
    requires Keyed(t) && AnnouncementsAsOf(t, datasetId, cutoff, q).Ok?
    ensures var list := AnnouncementsAsOf(t, datasetId, cutoff, q).value;
            && |rows| == |list|
            && (forall r :: r in rows <==> Due(t, datasetId, cutoff, q, r))
            && (forall i | 0 <= i < |rows| :: Shows(t, rows[i], list[i]))
            && (forall i, j | 0 <= i < j < |rows| :: AsLate(rows[i], rows[j]) && rows[i] != rows[j])
  {
    rows := ListedRows(t, datasetId, cutoff, q);
    var list := AnnouncementsAsOf(t, datasetId, cutoff, q).value;
    KeyedRows(t);
    ListedIsSelected(t, datasetId, cutoff, q);
    ListedByPoint(t, datasetId, cutoff, q);
    hide ListedRows, Selected, RowMatches, Keyed, AnnouncementsAsOf, View, Shows, AsLate, LexLeq, RowKey, Due,
         AnnouncementKey, ViewMatches;
    forall r ensures r in rows <==> Due(t, datasetId, cutoff, q, r) { DueIff(t, datasetId, cutoff, q, r); }
    forall i | 0 <= i < |rows| ensures Shows(t, rows[i], list[i]) { ViewLaw(t, rows[i]); }
    forall i, j | 0 <= i < j < |rows| ensures AsLate(rows[i], rows[j]) && rows[i] != rows[j] {
      KeyIsOrder(rows[i], rows[j]);
    }
  }

  /** it raises exactly when its dates are inverted or a due row is not showable. */
  lemma ListRaises(t: Tables, datasetId: Uuid, cutoff: Instant, q: Query)
    requires Keyed(t)
    ensures AnnouncementsAsOf(t, datasetId, cutoff, q).Err? <==>
            || (q.startDate.Some? && q.endDate.Some? && q.endDate.value < q.startDate.value)
            || exists r :: Due(t, datasetId, cutoff, q, r) && Unshowable(t, r)
  {
    KeyedRows(t);
    ListRaisesIff(t, datasetId, cutoff, q);
    forall r: Row
      ensures Selected(t.rows, datasetId, ExternalId(r), cutoff) == Some(r) && RowMatches(r, q) && View(t, r).Err? <==>
              Due(t, datasetId, cutoff, q, r) && Unshowable(t, r)
    {
      DueIff(t, datasetId, cutoff, q, r);
      ViewLaw(t, r);
    }
    hide Selected, RowMatches, Keyed, AnnouncementsAsOf, View, Due, Unshowable;
  }
}
