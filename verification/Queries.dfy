/**
  What the store gives back: the document a read returns, the ids a filter selects,
  and what the one says about the other.
*/
module Queries {
  import opened Wrappers
  import opened Ordering
  import opened Paging
  import opened Documents
  import opened Tables
  import opened Filters
  import opened Cascade
  import S = Statements

  /** The ids of a collection that match a filter. */
  function MatchingIds(host: Host, specs: seq<TableSpec>, db: Database, collection: string, where: Where): set<string> {
    match S.SpecFor(specs, collection)
    case Some(k) =>
      var t := TableAt(db.tables, specs[k].table);
      set id | id in t && TypedMatches(host, specs[k].columns, where, id, t[id])
    case None => set key | key in db.docs && key.0 == collection && DocMatches(host, where, db.docs[key]) :: key.1
  }

  /** What a read of one document gives. */
  ghost predicate ReadsAs(host: Host, specs: seq<TableSpec>, db: Database, collection: string, id: string, doc: Doc) {
    match S.SpecFor(specs, collection)
    case Some(k) =>
      var t := TableAt(db.tables, specs[k].table);
      id in t && Shaped(host, specs[k].columns, t[id]) && IsDocOf(host, specs[k].columns, id, t[id], doc)
    case None => (collection, id) in db.docs && db.docs[(collection, id)] == doc
  }

  /** One document for each id, in the same order. */
  ghost predicate ReadAs(
      host: Host, specs: seq<TableSpec>, db: Database, collection: string, ids: seq<string>, items: seq<Doc>)
  {
    var n := |ids| - 1;
    && |items| == |ids|
    && (ids != [] ==> ReadAs(host, specs, db, collection, ids[..n], items[..n]))
    && (ids != [] ==> ReadsAs(host, specs, db, collection, ids[n], items[n]))
  }

  lemma {:induction false} ReadAsEach(
      host: Host, specs: seq<TableSpec>, db: Database, collection: string, ids: seq<string>, items: seq<Doc>, i: nat)
    requires ReadAs(host, specs, db, collection, ids, items) && i < |ids|
    ensures |items| == |ids| && ReadsAs(host, specs, db, collection, ids[i], items[i])
  {
    var n := |ids| - 1;
    if i < n {
      ReadAsEach(host, specs, db, collection, ids[..n], items[..n], i);
    }
  }

  lemma ReadAsOneMore(
      host: Host, specs: seq<TableSpec>, db: Database, collection: string, ids: seq<string>, items: seq<Doc>, i: nat,
      doc: Doc)
    requires i < |ids| && ReadAs(host, specs, db, collection, ids[..i], items)
    requires ReadsAs(host, specs, db, collection, ids[i], doc)
    ensures ReadAs(host, specs, db, collection, ids[..i + 1], items + [doc])
  {
    assert (items + [doc])[..i] == items && ids[..i + 1][..i] == ids[..i];
  }

  predicate Holding(specs: seq<TableSpec>, db: Database, collection: string, id: string) {
    match S.SpecFor(specs, collection)
    case Some(k) => id in TableAt(db.tables, specs[k].table)
    case None => (collection, id) in db.docs
  }

  lemma MatchingAreHeld(host: Host, specs: seq<TableSpec>, db: Database, collection: string, where: Where)
    ensures forall id :: id in MatchingIds(host, specs, db, collection, where) ==> Holding(specs, db, collection, id)
  {
  }

  // What a query finds, in terms of the documents that reads return

  /** Where a collection keeps a field. */
  datatype Place = Identity | Column(kind: ColumnKind) | Inside

  function PlaceOf(specs: seq<TableSpec>, collection: string, field: string): Place {
    match S.SpecFor(specs, collection)
    case None => Inside
    case Some(k) =>
      if field == "id" then Identity
      else if IsColumn(specs[k].columns, field) then Column(ColumnOf(specs[k].columns, field).kind)
      else Inside
  }

  /** String(v) */
  function Printed(host: Host, v: Scalar): string {
    if v.Str? then v.s else host.text(AsJson(v))
  }

  /** The value of a document's field that a filter value finds there. */
  predicate Meets(host: Host, place: Place, v: Scalar, j: Json) {
    match place
    case Identity => j == JStr(Printed(host, v))
    case Column(TextKind) => j == JStr(Printed(host, v))
    case Column(IntegerKind) => j.JNum? && (if v.Num? then j.n == v.n else host.number(AsJson(v)) == Some(j.n))
    case Column(BooleanKind) => (
      match v
      case Bool(b) => j == JBool(b)
      case Num(n) => j == JBool(n != ZERO)
      case Str(s) => j == JBool(s != ""))
    case Column(JsonKind) => j == AsJson(v)
    case Inside => (
      match v
      case Bool(b) => j == JBool(b) || j == JNum(if b then ONE else ZERO)
      case Num(n) => j == JNum(n) || (n == ONE && j == JBool(true)) || (n == ZERO && j == JBool(false))
      case Str(s) => j == JStr(s) || (IsCompound(j) && host.stringify(j) == s))
  }

  predicate Satisfies(host: Host, specs: seq<TableSpec>, collection: string, where: Where, doc: Doc) {
    forall i :: 0 <= i < |where| ==>
      where[i].0 in doc && Meets(host, PlaceOf(specs, collection, where[i].0), where[i].1, doc[where[i].0])
  }

  /** The document that a row of some document reads back as. */
  lemma ReadOfWritten(host: Host, columns: seq<ColumnSpec>, id: string, d: Doc, row: Row, doc: Doc, c: ColumnSpec)
    requires Sound(host) && ColumnsDistinct(columns) && c in columns && IsRowOf(host, columns, d, row)
    requires Shaped(host, columns, row) && IsDocOf(host, columns, id, row, doc)
    ensures c.field in doc ==> doc[c.field] == FromStore(host, c.kind, row[c.field])
    ensures c.field !in doc ==> row[c.field] == SqlNull
  {
    assert host.parse(row["extra"].s) == JObj(Extra(columns, d));
    assert c.field !in Extra(columns, d);
    SameColumn(columns);
  }

  lemma ReadOfExtra(host: Host, columns: seq<ColumnSpec>, id: string, d: Doc, row: Row, doc: Doc, field: string)
    requires Sound(host) && ColumnsDistinct(columns) && !IsColumn(columns, field) && IsRowOf(host, columns, d, row)
    requires Shaped(host, columns, row) && IsDocOf(host, columns, id, row, doc)
    ensures field == "id" ==> field in doc && doc[field] == JStr(id)
    ensures field != "id" ==> JsonExtract(host, ExtraOf(host, row), field) == JsonExtract(host, doc, field)
  {
    assert host.parse(row["extra"].s) == JObj(Extra(columns, d));
  }

  /** A value of a column that was converted both ways is found by what it now is. */
  lemma ColumnMeets(host: Host, kind: ColumnKind, was: Json, v: Scalar)
    requires Sound(host)
    ensures var stored := ToStore(host, kind, was);
      SqlEq(stored, ToStore(host, kind, AsJson(v))) <==>
      Meets(host, Column(kind), v, FromStore(host, kind, stored))
  {
    assert host.parse(host.stringify(was)) == was && host.parse(host.stringify(AsJson(v))) == AsJson(v);
  }

  lemma InsideMeets(host: Host, doc: Doc, field: string, v: Scalar)
    ensures SqlEq(JsonExtract(host, doc, field), Bind(v)) <==> field in doc && Meets(host, Inside, v, doc[field])
  {
  }

  lemma RowClauseMeets(
      host: Host, specs: seq<TableSpec>, collection: string, k: nat, id: string, row: Row, doc: Doc,
      field: string, v: Scalar)
    requires Sound(host) && S.SpecFor(specs, collection) == Some(k) && ColumnsDistinct(specs[k].columns)
    requires S.RowOfSome(host, specs[k].columns, id, row)
    requires Shaped(host, specs[k].columns, row) && IsDocOf(host, specs[k].columns, id, row, doc)
    ensures TypedFieldMatches(host, specs[k].columns, field, v, id, row) <==>
      field in doc && Meets(host, PlaceOf(specs, collection, field), v, doc[field])
  {
    var columns := specs[k].columns;
    var d :| S.HasId(d) && d["id"] == JStr(id) && IsRowOf(host, columns, d, row);
    if IsColumn(columns, field) {
      var c := ColumnOf(columns, field);
      ReadOfWritten(host, columns, id, d, row, doc, c);
      ColumnMeets(host, c.kind, FieldOr(d, field), v);
    } else {
      ReadOfExtra(host, columns, id, d, row, doc, field);
      InsideMeets(host, doc, field, v);
    }
  }

  /**
    Main result: a query selects an id exactly when the document that a read of it
    returns has each field of the filter, with a value that the filter value finds.
  */
  lemma FindsExactly(
      host: Host, specs: seq<TableSpec>, db: Database, collection: string, where: Where, id: string, doc: Doc)
    requires Sound(host) && S.Ready(specs, db) && S.Sane(host, specs, db)
    requires ReadsAs(host, specs, db, collection, id, doc)
    ensures id in MatchingIds(host, specs, db, collection, where) <==> Satisfies(host, specs, collection, where, doc)
  {
    var k := S.SpecFor(specs, collection);
    if k.Some? {
      var row := TableAt(db.tables, specs[k.value].table)[id];
      assert S.RowOfSome(host, specs[k.value].columns, id, row);
      forall i | 0 <= i < |where|
        ensures TypedFieldMatches(host, specs[k.value].columns, where[i].0, where[i].1, id, row) <==>
          where[i].0 in doc && Meets(host, PlaceOf(specs, collection, where[i].0), where[i].1, doc[where[i].0])
      {
        RowClauseMeets(host, specs, collection, k.value, id, row, doc, where[i].0, where[i].1);
      }
    } else {
      forall i | 0 <= i < |where|
        ensures DocFieldMatches(host, where[i].0, where[i].1, doc) <==>
          where[i].0 in doc && Meets(host, PlaceOf(specs, collection, where[i].0), where[i].1, doc[where[i].0])
      {
        InsideMeets(host, doc, where[i].0, where[i].1);
      }
    }
  }

  /** The filter value is of the kind that the place compares by, and cannot be taken for a value of another kind. */
  predicate Fitting(place: Place, field: string, v: Scalar, doc: Doc) {
    match place
    case Identity => v.Str?
    case Column(TextKind) => v.Str?
    case Column(IntegerKind) => v.Num?
    case Column(BooleanKind) => v.Bool?
    case Column(JsonKind) => true
    case Inside => field in doc ==>
      (match v
       case Bool(_) => !doc[field].JNum?
       case Num(_) => !doc[field].JBool?
       case Str(_) => !IsCompound(doc[field]))
  }

  ghost predicate AllFitting(specs: seq<TableSpec>, collection: string, where: Where, doc: Doc) {
    forall i :: 0 <= i < |where| ==> Fitting(PlaceOf(specs, collection, where[i].0), where[i].0, where[i].1, doc)
  }

  /** The document has these values in these fields. */
  ghost predicate Has(doc: Doc, where: Where) {
    forall i :: 0 <= i < |where| ==> where[i].0 in doc && doc[where[i].0] == AsJson(where[i].1)
  }

  /** With filter values of the fields' kinds, a query selects exactly the documents that have those values. */
  lemma FindsEqual(
      host: Host, specs: seq<TableSpec>, db: Database, collection: string, where: Where, id: string, doc: Doc)
    requires Sound(host) && S.Ready(specs, db) && S.Sane(host, specs, db)
    requires ReadsAs(host, specs, db, collection, id, doc) && AllFitting(specs, collection, where, doc)
    ensures id in MatchingIds(host, specs, db, collection, where) <==> Has(doc, where)
  {
    FindsExactly(host, specs, db, collection, where, id, doc);
    SatisfiesExactly(host, specs, collection, where, doc);
  }

  lemma FittingMeets(host: Host, place: Place, field: string, v: Scalar, doc: Doc)
    requires Fitting(place, field, v, doc) && field in doc
    ensures Meets(host, place, v, doc[field]) <==> doc[field] == AsJson(v)
  {
  }

  lemma SatisfiesExactly(host: Host, specs: seq<TableSpec>, collection: string, where: Where, doc: Doc)
    requires AllFitting(specs, collection, where, doc)
    ensures Satisfies(host, specs, collection, where, doc) <==> Has(doc, where)
  {
    forall i | 0 <= i < |where| && where[i].0 in doc
      ensures Meets(host, PlaceOf(specs, collection, where[i].0), where[i].1, doc[where[i].0]) <==>
        doc[where[i].0] == AsJson(where[i].1)
    {
      FittingMeets(host, PlaceOf(specs, collection, where[i].0), where[i].0, where[i].1, doc);
    }
  }

  // Pages

  datatype Page = Page(items: seq<Doc>, nextCursor: Option<string>)

  /** A stored document that satisfies the filter, after the cursor. */
  ghost predicate Answer(
      host: Host, specs: seq<TableSpec>, db: Database, collection: string, where: Where, after: Option<string>,
      id: string, doc: Doc)
  {
    && ReadsAs(host, specs, db, collection, id, doc)
    && Satisfies(host, specs, collection, where, doc) && IsAfter(id, after)
  }

  predicate Identified(items: seq<Doc>) {
    forall i :: 0 <= i < |items| ==> S.HasId(items[i])
  }

  /**
    The page holds answers only, each as it reads, in strictly ascending id order, and
    leaves none out but those after its cursor; it has a cursor, the id of its last and
    n-th document, exactly when there are such.
  */
  ghost predicate IsPage(
      host: Host, specs: seq<TableSpec>, db: Database, collection: string, where: Where, after: Option<string>,
      n: nat, page: Page)
  {
    var items, next := page.items, page.nextCursor;
    && Identified(items) && |items| <= n
    && (forall i :: 0 <= i < |items| ==> Answer(host, specs, db, collection, where, after, items[i]["id"].s, items[i]))
    && (forall i, j :: 0 <= i < j < |items| ==> Less(items[i]["id"].s, items[j]["id"].s))
    && (forall id, doc :: Answer(host, specs, db, collection, where, after, id, doc) ==>
          (exists i :: 0 <= i < |items| && items[i]["id"] == JStr(id)) || (next.Some? && Less(next.value, id)))
    && (next.Some? ==> |items| == n > 0 && items[n - 1]["id"] == JStr(next.value))
    && (next.Some? ==> exists id, doc :: Answer(host, specs, db, collection, where, next, id, doc))
  }

  /** A row of the table reads back as some document. */
  lemma RowReads(host: Host, columns: seq<ColumnSpec>, id: string, row: Row) returns (doc: Doc)
    requires ColumnsDistinct(columns) && Shaped(host, columns, row)
    ensures IsDocOf(host, columns, id, row, doc)
  {
    var extra := host.parse(row["extra"].s).fields;
    var named := ColumnDoc(host, columns, row);
    doc := map["id" := JStr(id)] + named + extra;
  }

  /** The fields that the columns give. */
  lemma ColumnDoc(host: Host, columns: seq<ColumnSpec>, row: Row) returns (doc: Doc)
    requires ColumnsDistinct(columns) && Shaped(host, columns, row)
    ensures forall f :: f in doc <==> exists c :: c in columns && c.field == f && !Omitted(c, row)
    ensures forall c :: c in columns && !Omitted(c, row) ==> doc[c.field] == FromStore(host, c.kind, row[c.field])
  {
    var named := set c | c in columns && !Omitted(c, row) :: c.field;
    SameColumn(columns);
    doc := map f | f in named :: FromStore(host, ColumnOf(columns, f).kind, row[f]);
  }

  lemma HeldReads(host: Host, specs: seq<TableSpec>, db: Database, collection: string, id: string) returns (doc: Doc)
    requires S.Ready(specs, db) && S.Sane(host, specs, db) && Holding(specs, db, collection, id)
    ensures ReadsAs(host, specs, db, collection, id, doc)
  {
    var k := S.SpecFor(specs, collection);
    if k.Some? {
      var row := TableAt(db.tables, specs[k.value].table)[id];
      assert RowOk(host, specs[k.value], db.tables, row);
      doc := RowReads(host, specs[k.value].columns, id, row);
    } else {
      doc := db.docs[(collection, id)];
    }
  }

  /** A document reads back under its own id. */
  lemma ReadHasId(host: Host, specs: seq<TableSpec>, db: Database, collection: string, id: string, doc: Doc)
    requires Sound(host) && S.Ready(specs, db) && S.Sane(host, specs, db)
    requires ReadsAs(host, specs, db, collection, id, doc)
    ensures S.HasId(doc) && doc["id"] == JStr(id)
  {
    var k := S.SpecFor(specs, collection);
    if k.Some? {
      var columns := specs[k.value].columns;
      var row := TableAt(db.tables, specs[k.value].table)[id];
      assert S.RowOfSome(host, columns, id, row);
      var d :| S.HasId(d) && d["id"] == JStr(id) && IsRowOf(host, columns, d, row);
      ReadOfExtra(host, columns, id, d, row, doc, "id");
    }
  }

  /** Selected ids and the documents that satisfy the filter are the same. */
  lemma SelectedAreAnswers(host: Host, specs: seq<TableSpec>, db: Database, collection: string, where: Where)
    requires Sound(host) && S.Ready(specs, db) && S.Sane(host, specs, db)
    ensures forall id, doc :: ReadsAs(host, specs, db, collection, id, doc) ==>
      (id in MatchingIds(host, specs, db, collection, where) <==> Satisfies(host, specs, collection, where, doc)) &&
      S.HasId(doc) && doc["id"] == JStr(id)
  {
    forall id, doc | ReadsAs(host, specs, db, collection, id, doc)
      ensures id in MatchingIds(host, specs, db, collection, where) <==> Satisfies(host, specs, collection, where, doc)
      ensures S.HasId(doc) && doc["id"] == JStr(id)
    {
      FindsExactly(host, specs, db, collection, where, id, doc);
      ReadHasId(host, specs, db, collection, id, doc);
    }
  }

  /** The documents of a page of selected ids are a page of answers. */
  lemma PageOfAnswers(
      host: Host, specs: seq<TableSpec>, db: Database, collection: string, where: Where, after: Option<string>,
      n: nat, page: Page)
    requires Sound(host) && S.Ready(specs, db) && S.Sane(host, specs, db) && n >= 1
    requires var p := PageOf(MatchingIds(host, specs, db, collection, where), after, n);
      page.nextCursor == p.next && ReadAs(host, specs, db, collection, p.ids, page.items)
    ensures IsPage(host, specs, db, collection, where, after, n, page)
  {
    var matching := MatchingIds(host, specs, db, collection, where);
    var p, items := PageOf(matching, after, n), page.items;
    PageFacts(matching, after, n);
    ItemsAreAnswers(host, specs, db, collection, where, after, p.ids, items);
    NoAnswerLeftOut(host, specs, db, collection, where, after, n, items);
    if p.next.Some? {
      MoreAnswers(host, specs, db, collection, where, after, n);
    }
    IsPageOf(host, specs, db, collection, where, after, n, p.ids, page);
  }

  lemma MoreAnswers(
      host: Host, specs: seq<TableSpec>, db: Database, collection: string, where: Where, after: Option<string>, n: nat)
    requires Sound(host) && S.Ready(specs, db) && S.Sane(host, specs, db) && n >= 1
    requires PageOf(MatchingIds(host, specs, db, collection, where), after, n).next.Some?
    ensures var next := PageOf(MatchingIds(host, specs, db, collection, where), after, n).next;
      exists id, doc :: Answer(host, specs, db, collection, where, next, id, doc)
  {
    var p := PageOf(MatchingIds(host, specs, db, collection, where), after, n);
    var id := PageStopsShort(MatchingIds(host, specs, db, collection, where), after, n);
    var doc := AnswerFor(host, specs, db, collection, where, p.next, id);
  }

  /** What makes a page, put together. */
  lemma IsPageOf(
      host: Host, specs: seq<TableSpec>, db: Database, collection: string, where: Where, after: Option<string>,
      n: nat, ids: seq<string>, page: Page)
    requires Ascending(ids) && |page.items| == |ids| <= n && Identified(page.items)
    requires forall i :: 0 <= i < |ids| ==>
      S.HasId(page.items[i]) && page.items[i]["id"] == JStr(ids[i]) &&
      Answer(host, specs, db, collection, where, after, ids[i], page.items[i])
    requires forall id, doc :: Answer(host, specs, db, collection, where, after, id, doc) ==>
      (exists i :: 0 <= i < |page.items| && page.items[i]["id"] == JStr(id)) ||
      (page.nextCursor.Some? && Less(page.nextCursor.value, id))
    requires page.nextCursor.Some? ==> |ids| == n > 0 && page.nextCursor.value == ids[n - 1]
    requires page.nextCursor.Some? ==>
      exists id, doc :: Answer(host, specs, db, collection, where, page.nextCursor, id, doc)
    ensures IsPage(host, specs, db, collection, where, after, n, page)
  {
  }

  lemma NoAnswerLeftOut(
      host: Host, specs: seq<TableSpec>, db: Database, collection: string, where: Where, after: Option<string>,
      n: nat, items: seq<Doc>)
    requires Sound(host) && S.Ready(specs, db) && S.Sane(host, specs, db) && n >= 1 && Identified(items)
    requires var ids := PageOf(MatchingIds(host, specs, db, collection, where), after, n).ids;
      |items| == |ids| && forall i :: 0 <= i < |items| ==> items[i]["id"] == JStr(ids[i])
    ensures var next := PageOf(MatchingIds(host, specs, db, collection, where), after, n).next;
      forall id, doc :: Answer(host, specs, db, collection, where, after, id, doc) ==>
        (exists i :: 0 <= i < |items| && items[i]["id"] == JStr(id)) || (next.Some? && Less(next.value, id))
  {
    var p := PageOf(MatchingIds(host, specs, db, collection, where), after, n);
    forall id, doc | Answer(host, specs, db, collection, where, after, id, doc)
      ensures (exists i :: 0 <= i < |items| && items[i]["id"] == JStr(id)) || (p.next.Some? && Less(p.next.value, id))
    {
      AnswerIsSelected(host, specs, db, collection, where, after, n, id, doc);
      if id in p.ids {
        var i :| 0 <= i < |p.ids| && p.ids[i] == id;
        assert items[i]["id"] == JStr(id);
      }
    }
  }

  lemma AnswerIsSelected(
      host: Host, specs: seq<TableSpec>, db: Database, collection: string, where: Where, after: Option<string>,
      n: nat, id: string, doc: Doc)
    requires Sound(host) && S.Ready(specs, db) && S.Sane(host, specs, db) && n >= 1
    requires Answer(host, specs, db, collection, where, after, id, doc)
    ensures var p := PageOf(MatchingIds(host, specs, db, collection, where), after, n);
      id in p.ids || (p.next.Some? && Less(p.next.value, id))
  {
    FindsExactly(host, specs, db, collection, where, id, doc);
    PageLeavesNothingOut(MatchingIds(host, specs, db, collection, where), after, n, id);
  }

  lemma ItemsAreAnswers(
      host: Host, specs: seq<TableSpec>, db: Database, collection: string, where: Where, after: Option<string>,
      ids: seq<string>, items: seq<Doc>)
    requires Sound(host) && S.Ready(specs, db) && S.Sane(host, specs, db)
    requires ReadAs(host, specs, db, collection, ids, items)
    requires forall id :: id in ids ==> id in MatchingIds(host, specs, db, collection, where) && IsAfter(id, after)
    ensures |items| == |ids|
    ensures forall i :: 0 <= i < |items| ==>
      S.HasId(items[i]) && items[i]["id"] == JStr(ids[i]) &&
      Answer(host, specs, db, collection, where, after, ids[i], items[i])
  {
    forall i | 0 <= i < |items|
      ensures S.HasId(items[i]) && items[i]["id"] == JStr(ids[i])
      ensures Answer(host, specs, db, collection, where, after, ids[i], items[i])
    {
      ReadAsEach(host, specs, db, collection, ids, items, i);
      ReadHasId(host, specs, db, collection, ids[i], items[i]);
      FindsExactly(host, specs, db, collection, where, ids[i], items[i]);
      assert ids[i] in ids;
    }
  }

  /** A selected id after the cursor has an answer. */
  lemma AnswerFor(
      host: Host, specs: seq<TableSpec>, db: Database, collection: string, where: Where, after: Option<string>,
      id: string)
    returns (doc: Doc)
    requires Sound(host) && S.Ready(specs, db) && S.Sane(host, specs, db)
    requires id in MatchingIds(host, specs, db, collection, where) && IsAfter(id, after)
    ensures Answer(host, specs, db, collection, where, after, id, doc)
  {
    MatchingAreHeld(host, specs, db, collection, where);
    doc := HeldReads(host, specs, db, collection, id);
    FindsExactly(host, specs, db, collection, where, id, doc);
  }
}
