/** What callers of the storage adapter can rely on, across several of its operations. */
module StorageGuarantees {
  import opened Wrappers
  import opened Ordering
  import opened Paging
  import opened Documents
  import opened Tables
  import opened Filters
  import opened Cascade
  import opened Queries
  import opened Schema
  import S = Statements

  // Reading back

  /** A collection without a table keeps every document as it is; a table keeps those its columns can hold. */
  predicate Lossless(specs: seq<TableSpec>, collection: string, doc: Doc) {
    match S.SpecFor(specs, collection)
    case Some(k) => forall c :: c in specs[k].columns ==> Holds(c, doc)
    case None => true
  }

  /** No NULL in a NOT NULL column. */
  ghost predicate NullsAdmitted(spec: TableSpec, row: Row) {
    forall c :: c in spec.columns && c.notNull ==> c.field in row && row[c.field] != SqlNull
  }

  /** A reference is NULL or the id of a stored parent row. */
  ghost predicate ReferencesAdmitted(spec: TableSpec, tables: TableMap, row: Row) {
    forall fk :: fk in spec.foreignKeys ==>
      && fk.column in row
      && (row[fk.column] == SqlNull ||
          exists p :: Stored(tables, RowRef(fk.refTable, p)) && row[fk.column] == SqlText(p))
  }

  /** No other row has the same value, other than NULL, in a UNIQUE column. */
  ghost predicate ValuesAdmitted(spec: TableSpec, t: Table, id: string, row: Row) {
    forall c, other :: c in spec.columns && c.unique && other in t && other != id ==>
      c.field in row && (row[c.field] == SqlNull || ValueAt(t, other, c.field) != row[c.field])
  }

  /** What a table asks of the row of a document. */
  ghost predicate Admitted(host: Host, spec: TableSpec, tables: TableMap, id: string, doc: Doc)
    requires ColumnsDistinct(spec.columns)
  {
    var row := RowOf(host, spec.columns, doc);
    && NullsAdmitted(spec, row) && ReferencesAdmitted(spec, tables, row)
    && ValuesAdmitted(spec, TableAt(tables, spec.table), id, row)
  }

  /** The collection has a table, and the table does not admit the document. */
  ghost predicate Unadmitted(host: Host, specs: seq<TableSpec>, db: Database, collection: string, doc: Doc)
    requires S.Ready(specs, db) && S.HasId(doc)
  {
    exists k: nat :: k < |specs| && specs[k].collection == collection &&
                     !Admitted(host, specs[k], db.tables, doc["id"].s, doc)
  }

  /**
    A put is refused as invalid exactly when the document has no non-empty string id, and
    by a constraint exactly when its collection has a table that does not admit its row.
  */
  lemma PutRefusedExactly(host: Host, specs: seq<TableSpec>, db: Database, collection: string, doc: Doc)
    requires Sound(host) && S.Ready(specs, db) && S.Sane(host, specs, db)
    ensures var out := S.Perform(host, specs, db, S.Put(collection, doc));
      && (out == Err(Validation) <==> forall t :: t != "" ==> "id" !in doc || doc["id"] != JStr(t))
      && (out == Err(Constraint) <==> S.HasId(doc) && Unadmitted(host, specs, db, collection, doc))
      && (out.Ok? || out.error == Validation || out.error == Constraint)
  {
    var k := S.SpecFor(specs, collection);
    if S.HasId(doc) && k.Some? {
      AdmittedExactly(host, specs, db, k.value, doc);
      assert forall m: nat :: m < |specs| && specs[m].collection == collection ==> m == k.value;
    }
  }

  lemma NullsExactly(spec: TableSpec, row: Row)
    requires forall c :: c in spec.columns ==> c.field in row
    ensures NullsAdmitted(spec, row) <==> !NotNullViolated(spec, row)
  {
  }

  lemma ReferencesExactly(specs: seq<TableSpec>, db: Database, k: nat, row: Row)
    requires S.Ready(specs, db) && k < |specs| && forall f :: IsColumn(specs[k].columns, f) ==> f in row
    ensures ReferencesAdmitted(specs[k], db.tables, row) <==> !ForeignKeyViolated(specs[k], db, row)
  {
    forall fk | fk in specs[k].foreignKeys
      ensures fk.refTable in db.tables && fk.column in row
      ensures Resolves(db.tables[fk.refTable], row[fk.column]) <==>
        row[fk.column] == SqlNull ||
        exists p :: Stored(db.tables, RowRef(fk.refTable, p)) && row[fk.column] == SqlText(p)
    {
      ParentIsTable(specs, k, fk);
      if Resolves(db.tables[fk.refTable], row[fk.column]) && row[fk.column] != SqlNull {
        assert Stored(db.tables, RowRef(fk.refTable, row[fk.column].s));
      }
    }
  }

  lemma ValuesExactly(spec: TableSpec, t: Table, id: string, row: Row)
    requires forall c :: c in spec.columns ==> c.field in row
    ensures ValuesAdmitted(spec, t, id, row) <==> !UniqueViolated(spec, t, id, row)
  {
  }

  lemma AdmittedExactly(host: Host, specs: seq<TableSpec>, db: Database, k: nat, doc: Doc)
    requires Sound(host) && S.Ready(specs, db) && Integrity(host, specs, db) && S.HasId(doc) && k < |specs|
    ensures Upsert(specs, db, k, doc["id"].s, RowOf(host, specs[k].columns, doc)).Ok? <==>
      Admitted(host, specs[k], db.tables, doc["id"].s, doc)
  {
    var spec, id, row := specs[k], doc["id"].s, RowOf(host, specs[k].columns, doc);
    RowIsShaped(host, spec.columns, doc, row);
    WrittenIsRow(host, specs, db, k, id, row);
    NullsExactly(spec, row);
    ReferencesExactly(specs, db, k, row);
    ValuesExactly(spec, db.tables[spec.table], id, row);
  }

  /** A stored document reads back, and reads back unchanged exactly when its collection can hold it without loss. */
  lemma PutThenGet(host: Host, specs: seq<TableSpec>, db: Database, collection: string, doc: Doc, back: Doc)
    requires Sound(host) && S.Ready(specs, db) && S.Sane(host, specs, db)
    requires S.Perform(host, specs, db, S.Put(collection, doc)).Ok?
    requires ReadsAs(host, specs, S.After(host, specs, db, S.Put(collection, doc)), collection, doc["id"].s, back)
    ensures back == doc <==> Lossless(specs, collection, doc)
  {
    var k := S.SpecFor(specs, collection);
    if k.Some? {
      var columns := specs[k.value].columns;
      var row := RowOf(host, columns, doc);
      var next := S.After(host, specs, db, S.Put(collection, doc));
      RowIsShaped(host, columns, doc, row);
      UpsertChangesOneRow(host, specs, db, k.value, doc["id"].s, row);
      assert TableAt(next.tables, specs[k.value].table)[doc["id"].s] == row;
      RoundTripExactly(host, columns, doc["id"].s, doc, row, back);
    }
  }

  /** A document reads the same from both databases. */
  ghost predicate ReadsAlike(
    host: Host, specs: seq<TableSpec>, db: Database, next: Database, collection: string, id: string)
  {
    forall d :: ReadsAs(host, specs, next, collection, id, d) <==> ReadsAs(host, specs, db, collection, id, d)
  }

  lemma OtherRowStays(
      host: Host, specs: seq<TableSpec>, db: Database, k: nat, id: string, row: Row, m: nat, i: string)
    requires WellFormedSchema(specs) && Integrity(host, specs, db) && k < |specs| && m < |specs|
    requires Shaped(host, specs[k].columns, row) && Upsert(specs, db, k, id, row).Ok?
    requires m != k || i != id
    ensures var t := TableAt(db.tables, specs[m].table);
      var u := TableAt(Upsert(specs, db, k, id, row).value.tables, specs[m].table);
      (i in u <==> i in t) && (i in t ==> u[i] == t[i])
  {
    UpsertChangesOneRow(host, specs, db, k, id, row);
    assert specs[m].table in db.tables;
    assert m != k ==> specs[m].table != specs[k].table;
  }

  lemma OthersReadAlike(
      host: Host, specs: seq<TableSpec>, db: Database, collection: string, doc: Doc, c: string, i: string)
    requires Sound(host) && S.Ready(specs, db) && S.Sane(host, specs, db)
    requires S.Perform(host, specs, db, S.Put(collection, doc)).Ok?
    requires c != collection || i != doc["id"].s
    ensures ReadsAlike(host, specs, db, S.After(host, specs, db, S.Put(collection, doc)), c, i)
  {
    var k := S.SpecFor(specs, collection);
    var m := S.SpecFor(specs, c);
    if k.Some? && m.Some? {
      var row := RowOf(host, specs[k.value].columns, doc);
      RowIsShaped(host, specs[k.value].columns, doc, row);
      OtherRowStays(host, specs, db, k.value, doc["id"].s, row, m.value, i);
    }
  }

  /** After a put the id is there, and no other document of any collection reads differently. */
  lemma PutIsHeld(host: Host, specs: seq<TableSpec>, db: Database, collection: string, doc: Doc)
    requires Sound(host) && S.Ready(specs, db) && S.Sane(host, specs, db)
    requires S.Perform(host, specs, db, S.Put(collection, doc)).Ok?
    ensures var next := S.After(host, specs, db, S.Put(collection, doc));
      && Holding(specs, next, collection, doc["id"].s)
      && (forall c, i :: c != collection || i != doc["id"].s ==> ReadsAlike(host, specs, db, next, c, i))
  {
    var next := S.After(host, specs, db, S.Put(collection, doc));
    forall c, i ensures c != collection || i != doc["id"].s ==> ReadsAlike(host, specs, db, next, c, i) {
      if c != collection || i != doc["id"].s {
        OthersReadAlike(host, specs, db, collection, doc, c, i);
      }
    }
  }

  // What a delete takes and what it leaves

  /** The id of a collection as a row of the collection's table. */
  function RowFor(specs: seq<TableSpec>, collection: string, id: string): Option<RowRef> {
    match S.SpecFor(specs, collection)
    case Some(k) => Some(RowRef(specs[k].table, id))
    case None => None
  }

  /**
    What the delete of one document takes along: the document itself, and in the tables
    every row that a chain of cascading references leads to from a stored target.
  */
  ghost predicate Takes(specs: seq<TableSpec>, db: Database, collection: string, id: string, c: string, i: string) {
    var target, row := RowFor(specs, collection, id), RowFor(specs, c, i);
    || (c == collection && i == id)
    || (target.Some? && row.Some? && Stored(db.tables, target.value) &&
        Reaches(specs, db.tables, target.value, row.value))
  }

  lemma RowGoesOrStays(host: Host, specs: seq<TableSpec>, db: Database, target: RowRef, r: RowRef)
    requires WellFormedSchema(specs) && Integrity(host, specs, db) && Cascade.Delete(specs, db, target).Ok?
    ensures var next := Cascade.Delete(specs, db, target).value.tables;
      && (Stored(next, r) <==>
          Stored(db.tables, r) && !(Stored(db.tables, target) && Reaches(specs, db.tables, target, r)))
      && (Stored(next, r) ==> TableAt(next, r.table)[r.id] == TableAt(db.tables, r.table)[r.id])
  {
    if Stored(db.tables, target) {
      DeleteIsExact(host, specs, db, target);
    } else {
      DeleteOfAbsentRow(specs, db, target);
    }
  }

  lemma RowReadsAlike(
      host: Host, specs: seq<TableSpec>, db: Database, next: Database, c: string, i: string, k: nat)
    requires S.SpecFor(specs, c) == Some(k)
    requires var r := RowRef(specs[k].table, i);
      && (Stored(next.tables, r) <==> Stored(db.tables, r))
      && (Stored(next.tables, r) ==> TableAt(next.tables, r.table)[r.id] == TableAt(db.tables, r.table)[r.id])
    ensures ReadsAlike(host, specs, db, next, c, i)
  {
  }

  lemma DeletedIsGone(specs: seq<TableSpec>, db: Database, collection: string, k: nat, id: string)
    requires WellFormedSchema(specs) && S.SpecFor(specs, collection) == Some(k)
    requires Cascade.Delete(specs, db, RowRef(specs[k].table, id)).Ok?
    ensures !Holding(specs, Cascade.Delete(specs, db, RowRef(specs[k].table, id)).value, collection, id)
  {
    SchemaHasParentsFirst(specs);
    TargetGoes(specs, db, k, id);
  }

  /** Another row before and after a delete from its own or another table. */
  lemma RowTakenOrAlike(
      host: Host, specs: seq<TableSpec>, db: Database, next: Database, collection: string, k: nat, id: string,
      c: string, m: nat, i: string)
    requires c != collection || i != id
    requires S.SpecFor(specs, collection) == Some(k) && S.SpecFor(specs, c) == Some(m)
    requires var target, r := RowRef(specs[k].table, id), RowRef(specs[m].table, i);
      && (Stored(next.tables, r) <==>
          Stored(db.tables, r) && !(Stored(db.tables, target) && Reaches(specs, db.tables, target, r)))
      && (Stored(next.tables, r) ==> TableAt(next.tables, r.table)[r.id] == TableAt(db.tables, r.table)[r.id])
    ensures if Takes(specs, db, collection, id, c, i) then !Holding(specs, next, c, i)
            else ReadsAlike(host, specs, db, next, c, i)
  {
    if !Takes(specs, db, collection, id, c, i) {
      RowReadsAlike(host, specs, db, next, c, i, m);
    }
  }

  /** One document before and after a delete that goes through. */
  lemma TakenOrAlike(
      host: Host, specs: seq<TableSpec>, db: Database, collection: string, id: string, c: string, i: string)
    requires S.Ready(specs, db) && Integrity(host, specs, db)
    requires S.Perform(host, specs, db, S.Delete(collection, id)).Ok?
    ensures var next := S.After(host, specs, db, S.Delete(collection, id));
      if Takes(specs, db, collection, id, c, i) then !Holding(specs, next, c, i)
      else ReadsAlike(host, specs, db, next, c, i)
  {
    var k, m := S.SpecFor(specs, collection), S.SpecFor(specs, c);
    if k.Some? && c == collection && i == id {
      DeletedIsGone(specs, db, collection, k.value, id);
    } else if k.Some? && m.Some? {
      var next := S.After(host, specs, db, S.Delete(collection, id));
      RowGoesOrStays(host, specs, db, RowRef(specs[k.value].table, id), RowRef(specs[m.value].table, i));
      RowTakenOrAlike(host, specs, db, next, collection, k.value, id, c, m.value, i);
    }
  }

  /**
    Main result: a delete that goes through takes exactly the document and the rows that
    cascade from it; every other document of every collection reads as it did.
  */
  lemma DeleteTakesExactly(host: Host, specs: seq<TableSpec>, db: Database, collection: string, id: string)
    requires S.Ready(specs, db) && S.Sane(host, specs, db)
    requires S.Perform(host, specs, db, S.Delete(collection, id)).Ok?
    ensures var next := S.After(host, specs, db, S.Delete(collection, id));
      && !Holding(specs, next, collection, id)
      && (forall c, i :: Takes(specs, db, collection, id, c, i) ==> !Holding(specs, next, c, i))
      && (forall c, i :: !Takes(specs, db, collection, id, c, i) ==> ReadsAlike(host, specs, db, next, c, i))
  {
    forall c, i
      ensures var next := S.After(host, specs, db, S.Delete(collection, id));
        if Takes(specs, db, collection, id, c, i) then !Holding(specs, next, c, i)
        else ReadsAlike(host, specs, db, next, c, i)
    {
      TakenOrAlike(host, specs, db, collection, id, c, i);
    }
    assert Takes(specs, db, collection, id, collection, id);
  }

  /** Deleting from a collection without a table is never refused, and takes that one document only. */
  lemma DeleteOfDocument(host: Host, specs: seq<TableSpec>, db: Database, collection: string, id: string)
    requires S.Ready(specs, db) && S.Sane(host, specs, db) && S.SpecFor(specs, collection).None?
    ensures S.Perform(host, specs, db, S.Delete(collection, id)).Ok?
    ensures forall c, i :: c != collection || i != id ==>
      ReadsAlike(host, specs, db, S.After(host, specs, db, S.Delete(collection, id)), c, i)
  {
    DeleteTakesExactly(host, specs, db, collection, id);
    assert forall c, i :: Takes(specs, db, collection, id, c, i) <==> c == collection && i == id;
  }

  // What a put changes for queries

  /**
    After a put of a document held without loss, a filter with values of the fields' kinds
    selects its id exactly if the document has those values; any filter selects every
    other id exactly if it did before.
  */
  lemma PutIsFound(host: Host, specs: seq<TableSpec>, db: Database, collection: string, doc: Doc, where: Where)
    requires Sound(host) && S.Ready(specs, db) && S.Sane(host, specs, db)
    requires S.Perform(host, specs, db, S.Put(collection, doc)).Ok?
    ensures var next := S.After(host, specs, db, S.Put(collection, doc));
      && (Lossless(specs, collection, doc) ==>
          (doc["id"].s in MatchingIds(host, specs, next, collection, where) <==>
           Satisfies(host, specs, collection, where, doc)))
      && (Lossless(specs, collection, doc) && AllFitting(specs, collection, where, doc) ==>
          (doc["id"].s in MatchingIds(host, specs, next, collection, where) <==> Has(doc, where)))
      && (forall c, i :: c != collection || i != doc["id"].s ==>
          (i in MatchingIds(host, specs, next, c, where) <==> i in MatchingIds(host, specs, db, c, where)))
  {
    var next := S.After(host, specs, db, S.Put(collection, doc));
    var id := doc["id"].s;
    S.AfterKeepsSane(host, specs, db, S.Put(collection, doc));
    PutIsHeld(host, specs, db, collection, doc);
    if Lossless(specs, collection, doc) {
      var back := HeldReads(host, specs, next, collection, id);
      PutThenGet(host, specs, db, collection, doc, back);
      FindsExactly(host, specs, next, collection, where, id, doc);
      if AllFitting(specs, collection, where, doc) {
        FindsEqual(host, specs, next, collection, where, id, doc);
      }
    }
    forall c, i | c != collection || i != id
      ensures i in MatchingIds(host, specs, next, c, where) <==> i in MatchingIds(host, specs, db, c, where)
    {
      assert ReadsAlike(host, specs, db, next, c, i);
      FoundAlike(host, specs, db, next, c, i, where);
    }
  }

  /** What reads alike is found alike. */
  lemma FoundAlike(
      host: Host, specs: seq<TableSpec>, db: Database, next: Database, c: string, i: string, where: Where)
    requires Sound(host) && S.Ready(specs, db) && S.Sane(host, specs, db)
    requires S.Ready(specs, next) && S.Sane(host, specs, next) && ReadsAlike(host, specs, db, next, c, i)
    ensures i in MatchingIds(host, specs, next, c, where) <==> i in MatchingIds(host, specs, db, c, where)
  {
    MatchingAreHeld(host, specs, db, c, where);
    MatchingAreHeld(host, specs, next, c, where);
    if Holding(specs, db, c, i) || Holding(specs, next, c, i) {
      var doc := HeldReads(host, specs, if Holding(specs, db, c, i) then db else next, c, i);
      FindsExactly(host, specs, db, c, where, i, doc);
      FindsExactly(host, specs, next, c, where, i, doc);
    }
  }

  // Walking a collection while others write

  /** A read of the id from this state returns a document that satisfies the filter. */
  ghost predicate Present(
      host: Host, specs: seq<TableSpec>, db: Database, collection: string, where: Where, id: string)
  {
    exists doc :: ReadsAs(host, specs, db, collection, id, doc) && Satisfies(host, specs, collection, where, doc)
  }

  lemma PresentIsMatching(
      host: Host, specs: seq<TableSpec>, db: Database, collection: string, where: Where, id: string)
    requires Sound(host) && S.Ready(specs, db) && S.Sane(host, specs, db)
    ensures Present(host, specs, db, collection, where, id) <==> id in MatchingIds(host, specs, db, collection, where)
  {
    SelectedAreAnswers(host, specs, db, collection, where);
    MatchingAreHeld(host, specs, db, collection, where);
    if id in MatchingIds(host, specs, db, collection, where) {
      var doc := HeldReads(host, specs, db, collection, id);
    }
  }

  function IdsOf(items: seq<Doc>): (ids: seq<string>)
    requires Identified(items)
    ensures |ids| == |items| && forall i :: 0 <= i < |items| ==> items[i]["id"] == JStr(ids[i])
  {
    seq(|items|, i requires 0 <= i < |items| => items[i]["id"].s)
  }

  /** The ids of the documents of all pages, in the order in which they came. */
  function AllIds(pages: seq<Page>): seq<string>
    requires forall k :: 0 <= k < |pages| ==> Identified(pages[k].items)
  {
    if pages == [] then [] else AllIds(pages[..|pages| - 1]) + IdsOf(pages[|pages| - 1].items)
  }

  /** Page k is what a query of state k, with some limit, gives from the cursor of the page before. */
  ghost predicate PageOfWalk(
      host: Host, specs: seq<TableSpec>, dbs: seq<Database>, collection: string, where: Where, pages: seq<Page>, k: nat)
    requires |dbs| == |pages| && k < |pages|
  {
    && S.Ready(specs, dbs[k]) && S.Sane(host, specs, dbs[k])
    && (exists n: nat :: IsPage(host, specs, dbs[k], collection, where, Before(pages, k), n, pages[k]))
    && (pages[k].nextCursor.None? <==> k == |pages| - 1)
  }

  function Before(pages: seq<Page>, k: nat): Option<string>
    requires k <= |pages|
  {
    if k == 0 then None else pages[k - 1].nextCursor
  }

  /** A cursor walk to its end, each page read from its own state of the store. */
  ghost predicate WalkOfPages(
      host: Host, specs: seq<TableSpec>, dbs: seq<Database>, collection: string, where: Where, pages: seq<Page>)
  {
    && pages != [] && |dbs| == |pages|
    && (forall k :: 0 <= k < |pages| ==> Identified(pages[k].items))
    && (forall k {:trigger PageOfWalk(host, specs, dbs, collection, where, pages, k)} :: 0 <= k < |pages| ==>
          PageOfWalk(host, specs, dbs, collection, where, pages, k))
  }

  function VisitOf(
      host: Host, specs: seq<TableSpec>, db: Database, collection: string, where: Where, after: Option<string>,
      page: Page): Visit
    requires Identified(page.items)
  {
    Visit(MatchingIds(host, specs, db, collection, where), after, IdPage(IdsOf(page.items), page.nextCursor))
  }

  /** Every document of the page matches, after the cursor. */
  lemma OnPageMatches(
      host: Host, specs: seq<TableSpec>, db: Database, collection: string, where: Where, after: Option<string>,
      n: nat, page: Page, i: nat)
    requires Sound(host) && S.Ready(specs, db) && S.Sane(host, specs, db) && i < |page.items|
    requires IsPage(host, specs, db, collection, where, after, n, page)
    ensures var id := page.items[i]["id"].s;
      id in MatchingIds(host, specs, db, collection, where) && IsAfter(id, after)
  {
    var item: Doc := page.items[i];
    assert Answer(host, specs, db, collection, where, after, item["id"].s, item);
    FindsExactly(host, specs, db, collection, where, item["id"].s, item);
  }

  /** An id that matches after the cursor is on the page, or after its cursor. */
  lemma MatchingOnPage(
      host: Host, specs: seq<TableSpec>, db: Database, collection: string, where: Where, after: Option<string>,
      n: nat, page: Page, id: string)
    requires Sound(host) && S.Ready(specs, db) && S.Sane(host, specs, db)
    requires IsPage(host, specs, db, collection, where, after, n, page)
    requires id in MatchingIds(host, specs, db, collection, where) && IsAfter(id, after)
    ensures id in IdsOf(page.items) || (page.nextCursor.Some? && Less(page.nextCursor.value, id))
  {
    MatchingAreHeld(host, specs, db, collection, where);
    var doc := HeldReads(host, specs, db, collection, id);
    FindsExactly(host, specs, db, collection, where, id, doc);
    assert Answer(host, specs, db, collection, where, after, id, doc);
    if i :| 0 <= i < |page.items| && page.items[i]["id"] == JStr(id) {
      assert IdsOf(page.items)[i] == id;
    }
  }

  lemma PageIsInOrder(
      host: Host, specs: seq<TableSpec>, db: Database, collection: string, where: Where, after: Option<string>,
      n: nat, page: Page)
    requires Sound(host) && S.Ready(specs, db) && S.Sane(host, specs, db)
    requires IsPage(host, specs, db, collection, where, after, n, page)
    ensures InOrder(VisitOf(host, specs, db, collection, where, after, page))
  {
    AllOnPageMatch(host, specs, db, collection, where, after, n, page);
    AllMatchingOnPage(host, specs, db, collection, where, after, n, page);
    IdsAscend(page);
  }

  lemma AllOnPageMatch(
      host: Host, specs: seq<TableSpec>, db: Database, collection: string, where: Where, after: Option<string>,
      n: nat, page: Page)
    requires Sound(host) && S.Ready(specs, db) && S.Sane(host, specs, db)
    requires IsPage(host, specs, db, collection, where, after, n, page)
    ensures forall id :: id in IdsOf(page.items) ==>
      id in MatchingIds(host, specs, db, collection, where) && IsAfter(id, after)
  {
    var ids := IdsOf(page.items);
    forall id | id in ids
      ensures id in MatchingIds(host, specs, db, collection, where) && IsAfter(id, after)
    {
      var i :| 0 <= i < |ids| && ids[i] == id;
      OnPageMatches(host, specs, db, collection, where, after, n, page, i);
    }
  }

  lemma AllMatchingOnPage(
      host: Host, specs: seq<TableSpec>, db: Database, collection: string, where: Where, after: Option<string>,
      n: nat, page: Page)
    requires Sound(host) && S.Ready(specs, db) && S.Sane(host, specs, db)
    requires IsPage(host, specs, db, collection, where, after, n, page)
    ensures forall id :: id in MatchingIds(host, specs, db, collection, where) && IsAfter(id, after) ==>
      id in IdsOf(page.items) || (page.nextCursor.Some? && Less(page.nextCursor.value, id))
  {
    forall id | id in MatchingIds(host, specs, db, collection, where) && IsAfter(id, after)
      ensures id in IdsOf(page.items) || (page.nextCursor.Some? && Less(page.nextCursor.value, id))
    {
      MatchingOnPage(host, specs, db, collection, where, after, n, page, id);
    }
  }

  lemma IdsAscend(page: Page)
    requires Identified(page.items)
    requires forall i, j :: 0 <= i < j < |page.items| ==> Less(page.items[i]["id"].s, page.items[j]["id"].s)
    ensures Ascending(IdsOf(page.items))
  {
  }

  function VisitsOf(
      host: Host, specs: seq<TableSpec>, dbs: seq<Database>, collection: string, where: Where, pages: seq<Page>):
      (visits: seq<Visit>)
    requires |dbs| == |pages| && forall k :: 0 <= k < |pages| ==> Identified(pages[k].items)
    ensures |visits| == |pages|
    ensures forall k :: 0 <= k < |pages| ==>
      visits[k] == VisitOf(host, specs, dbs[k], collection, where, Before(pages, k), pages[k])
  {
    seq(|pages|, k requires 0 <= k < |pages| =>
      VisitOf(host, specs, dbs[k], collection, where, Before(pages, k), pages[k]))
  }

  lemma VisitsAreWalk(
      host: Host, specs: seq<TableSpec>, dbs: seq<Database>, collection: string, where: Where, pages: seq<Page>)
    requires Sound(host) && WalkOfPages(host, specs, dbs, collection, where, pages)
    ensures Completed(VisitsOf(host, specs, dbs, collection, where, pages))
  {
    var visits := VisitsOf(host, specs, dbs, collection, where, pages);
    forall k | 0 <= k < |visits| ensures Fitted(visits, k) {
      VisitFits(host, specs, dbs, collection, where, pages, k);
    }
    FittedIsCompleted(visits);
  }

  ghost predicate Fitted(visits: seq<Visit>, k: nat)
    requires k < |visits|
  {
    InOrder(visits[k]) && Linked(visits, k) && (k == |visits| - 1 ==> visits[k].page.next.None?)
  }

  lemma FittedIsCompleted(visits: seq<Visit>)
    requires visits != [] && forall k {:trigger Fitted(visits, k)} :: 0 <= k < |visits| ==> Fitted(visits, k)
    ensures Completed(visits)
  {
    assert Fitted(visits, |visits| - 1);
    forall k | 0 <= k < |visits| ensures InOrder(visits[k]) && Linked(visits, k) {
      assert Fitted(visits, k);
    }
  }

  lemma VisitFits(
      host: Host, specs: seq<TableSpec>, dbs: seq<Database>, collection: string, where: Where, pages: seq<Page>, k: nat)
    requires Sound(host) && WalkOfPages(host, specs, dbs, collection, where, pages) && k < |pages|
    ensures Fitted(VisitsOf(host, specs, dbs, collection, where, pages), k)
  {
    assert PageOfWalk(host, specs, dbs, collection, where, pages, k);
    VisitInOrder(host, specs, dbs, collection, where, pages, k);
    VisitIsLinked(host, specs, dbs, collection, where, pages, k);
  }

  lemma VisitIsLinked(
      host: Host, specs: seq<TableSpec>, dbs: seq<Database>, collection: string, where: Where, pages: seq<Page>, k: nat)
    requires |dbs| == |pages| && forall k :: 0 <= k < |pages| ==> Identified(pages[k].items)
    requires k < |pages| && (pages[k].nextCursor.None? <==> k == |pages| - 1)
    ensures var visits := VisitsOf(host, specs, dbs, collection, where, pages);
      Linked(visits, k) && visits[k].page.next == pages[k].nextCursor
  {
    var visits := VisitsOf(host, specs, dbs, collection, where, pages);
    assert visits[k].page.next == pages[k].nextCursor;
    assert k > 0 ==> visits[k - 1].page.next == pages[k - 1].nextCursor;
  }

  lemma VisitInOrder(
      host: Host, specs: seq<TableSpec>, dbs: seq<Database>, collection: string, where: Where, pages: seq<Page>, k: nat)
    requires Sound(host) && |dbs| == |pages| && k < |pages| && Identified(pages[k].items)
    requires PageOfWalk(host, specs, dbs, collection, where, pages, k)
    ensures InOrder(VisitOf(host, specs, dbs[k], collection, where, Before(pages, k), pages[k]))
  {
    var n: nat :| IsPage(host, specs, dbs[k], collection, where, Before(pages, k), n, pages[k]);
    PageIsInOrder(host, specs, dbs[k], collection, where, Before(pages, k), n, pages[k]);
  }

  lemma {:induction false} CollectedIds(visits: seq<Visit>, pages: seq<Page>, k: nat)
    requires k <= |visits| == |pages| && forall i :: 0 <= i < |pages| ==> Identified(pages[i].items)
    requires forall i :: 0 <= i < |pages| ==> visits[i].page.ids == IdsOf(pages[i].items)
    ensures Collected(visits, k) == AllIds(pages[..k])
  {
    if k > 0 {
      CollectedIds(visits, pages, k - 1);
      AllIdsOneMore(pages, k - 1);
    }
  }

  lemma AllIdsOneMore(pages: seq<Page>, k: nat)
    requires k < |pages| && forall i :: 0 <= i < |pages| ==> Identified(pages[i].items)
    ensures AllIds(pages[..k + 1]) == AllIds(pages[..k]) + IdsOf(pages[k].items)
  {
    assert pages[..k + 1][..k] == pages[..k] && pages[..k + 1][k] == pages[k];
  }

  lemma PresentIsVisited(
      host: Host, specs: seq<TableSpec>, dbs: seq<Database>, collection: string, where: Where, pages: seq<Page>,
      id: string)
    requires Sound(host) && WalkOfPages(host, specs, dbs, collection, where, pages)
    ensures var visits := VisitsOf(host, specs, dbs, collection, where, pages);
      forall k :: 0 <= k < |dbs| ==>
        (Present(host, specs, dbs[k], collection, where, id) <==> id in visits[k].matching)
  {
    forall k | 0 <= k < |dbs|
      ensures Present(host, specs, dbs[k], collection, where, id) <==>
        id in MatchingIds(host, specs, dbs[k], collection, where)
    {
      assert PageOfWalk(host, specs, dbs, collection, where, pages, k);
      PresentIsMatching(host, specs, dbs[k], collection, where, id);
    }
  }

  lemma ListedOnce(all: seq<string>, id: string)
    requires Ascending(all) && id in all
    ensures exists i :: 0 <= i < |all| && all[i] == id && forall j :: 0 <= j < |all| && j != i ==> all[j] != id
  {
    var i :| 0 <= i < |all| && all[i] == id;
    forall j | 0 <= j < |all| && j != i ensures all[j] != id {
      if j < i { LessAsymmetric(all[j], all[i]); } else { LessAsymmetric(all[i], all[j]); }
    }
  }

  lemma SeenInWalk(
      host: Host, specs: seq<TableSpec>, dbs: seq<Database>, collection: string, where: Where, visits: seq<Visit>,
      id: string)
    requires Completed(visits) && |visits| == |dbs|
    requires forall k :: 0 <= k < |dbs| ==>
      (Present(host, specs, dbs[k], collection, where, id) <==> id in visits[k].matching)
    ensures var all := Collected(visits, |visits|);
      && Ascending(all)
      && (id in all ==> exists k :: 0 <= k < |dbs| && Present(host, specs, dbs[k], collection, where, id))
      && ((forall k :: 0 <= k < |dbs| ==> Present(host, specs, dbs[k], collection, where, id)) ==>
          exists i :: 0 <= i < |all| && all[i] == id && forall j :: 0 <= j < |all| && j != i ==> all[j] != id)
  {
    WalkUnderWrites(visits);
    var all := Collected(visits, |visits|);
    if id in all {
      var k :| 0 <= k < |visits| && id in visits[k].matching && id in visits[k].page.ids;
      assert Present(host, specs, dbs[k], collection, where, id);
      ListedOnce(all, id);
    }
  }

  /**
    Main result: over a whole cursor walk whose pages are read from different states of
    the store, the documents come in strictly ascending id order, each satisfied the
    filter when one of the pages was read, and every document that satisfied it at each
    page is among them, once.
  */
  lemma WalkSeesEverythingThatStays(
      host: Host, specs: seq<TableSpec>, dbs: seq<Database>, collection: string, where: Where, pages: seq<Page>,
      id: string)
    requires Sound(host) && WalkOfPages(host, specs, dbs, collection, where, pages)
    ensures Ascending(AllIds(pages))
    ensures id in AllIds(pages) ==> exists k :: 0 <= k < |dbs| && Present(host, specs, dbs[k], collection, where, id)
    ensures (forall k :: 0 <= k < |dbs| ==> Present(host, specs, dbs[k], collection, where, id)) ==>
      exists i :: 0 <= i < |AllIds(pages)| && AllIds(pages)[i] == id &&
                  forall j :: 0 <= j < |AllIds(pages)| && j != i ==> AllIds(pages)[j] != id
  {
    VisitsAreWalk(host, specs, dbs, collection, where, pages);
    CollectedIds(VisitsOf(host, specs, dbs, collection, where, pages), pages, |pages|);
    assert pages[..|pages|] == pages;
    PresentIsVisited(host, specs, dbs, collection, where, pages, id);
    SeenInWalk(host, specs, dbs, collection, where, VisitsOf(host, specs, dbs, collection, where, pages), id);
  }

  // The shipped schema

  /** No cascading key leads to the table, so a row of it takes nothing along. */
  ghost predicate NothingCascadesTo(specs: seq<TableSpec>, table: string) {
    forall k, fk :: 0 <= k < |specs| && fk in specs[k].foreignKeys && fk.refTable == table ==>
      fk.onDelete != OnDelete.Cascade
  }

  lemma NothingCascadesFrom(specs: seq<TableSpec>, tables: TableMap, target: RowRef)
    requires NothingCascadesTo(specs, target.table)
    ensures forall r :: !CascadesTo(specs, tables, target, r)
  {
  }

  lemma ReachesOnlyItself(specs: seq<TableSpec>, tables: TableMap, target: RowRef, x: RowRef)
    requires NothingCascadesTo(specs, target.table)
    ensures Reaches(specs, tables, target, x) <==> x == target
  {
    assert ChainFrom(specs, tables, target, target, [target]);
    if Reaches(specs, tables, target, x) {
      var chain :| ChainFrom(specs, tables, target, x, chain);
      assert |chain| > 1 ==> CascadesTo(specs, tables, chain[0], chain[0 + 1]);
      NothingCascadesFrom(specs, tables, target);
    }
  }

  /** A row that a chain ends at, other than its start, refers to its parent by a cascading key. */
  lemma ReachedByCascade(specs: seq<TableSpec>, tables: TableMap, target: RowRef, x: RowRef)
    requires Reaches(specs, tables, target, x) && x != target
    ensures exists p :: CascadesTo(specs, tables, p, x)
  {
    var chain :| ChainFrom(specs, tables, target, x, chain);
    var n := |chain| - 2;
    assert CascadesTo(specs, tables, chain[n], chain[n + 1]);
  }

  lemma HoldersOfTypes(specs: seq<TableSpec>, tables: TableMap, target: RowRef, x: RowRef, y: RowRef)
    requires KeysAsShipped(specs) && HeldBy(specs, tables, target, x, y)
    ensures x.table == "content_types" && y.table == "content_entries" && Stored(tables, y)
    ensures ValueAt(TableAt(tables, y.table), y.id, "typeId") == SqlText(x.id)
  {
    var k: nat, fk :| HeldByKey(specs, tables, target, x, y, k, fk);
  }

  lemma EntryHoldsType(specs: seq<TableSpec>, tables: TableMap, target: RowRef, x: RowRef, e: string)
    requires KeysAsShipped(specs) && x.table == "content_types"
    requires e in TableAt(tables, "content_entries")
    requires ValueAt(TableAt(tables, "content_entries"), e, "typeId") == SqlText(x.id)
    ensures HeldBy(specs, tables, target, x, RowRef("content_entries", e))
  {
    assert HeldByKey(specs, tables, target, x, RowRef("content_entries", e), 4,
                     ForeignKey("typeId", "content_types", "id", Restrict));
  }

  lemma NothingCascadesToTypes(specs: seq<TableSpec>)
    requires KeysAsShipped(specs)
    ensures NothingCascadesTo(specs, "content_types")
  {
  }

  lemma NothingCascadesIntoTypes(specs: seq<TableSpec>, tables: TableMap, p: RowRef, x: RowRef)
    requires KeysAsShipped(specs) && DistinctTables(specs) && CascadesTo(specs, tables, p, x)
    ensures x.table != "content_types"
  {
    var k: nat :| CascadesBy(specs, tables, p, x, k);
    assert k != 3;
  }

  predicate EntryOfType(tables: TableMap, id: string, e: string) {
    e in TableAt(tables, "content_entries") && ValueAt(TableAt(tables, "content_entries"), e, "typeId") == SqlText(id)
  }

  lemma TypeRefusal(specs: seq<TableSpec>, tables: TableMap, id: string)
    requires KeysAsShipped(specs)
    ensures Refused(specs, tables, RowRef("content_types", id)) <==> exists e :: EntryOfType(tables, id, e)
  {
    var target := RowRef("content_types", id);
    NothingCascadesToTypes(specs);
    if e :| EntryOfType(tables, id, e) {
      ReachesOnlyItself(specs, tables, target, target);
      EntryHoldsType(specs, tables, target, target, e);
    }
    if Refused(specs, tables, target) {
      var x, y :| Reaches(specs, tables, target, x) && HeldBy(specs, tables, target, x, y);
      ReachesOnlyItself(specs, tables, target, x);
      HoldersOfTypes(specs, tables, target, x, y);
      assert EntryOfType(tables, id, y.id);
    }
  }

  /** Deleting a content type is refused exactly while some content entry is of that type. */
  lemma DeleteContentType(host: Host, db: Database, id: string)
    requires Integrity(host, TABLE_SPECS, db) && Stored(db.tables, RowRef("content_types", id))
    ensures Cascade.Delete(TABLE_SPECS, db, RowRef("content_types", id)).Err? <==>
      exists e :: EntryOfType(db.tables, id, e)
  {
    ShippedSchemaIsWellFormed();
    ShippedKeys();
    DeleteIsExact(host, TABLE_SPECS, db, RowRef("content_types", id));
    TypeRefusal(TABLE_SPECS, db.tables, id);
  }

  lemma OthersNotRefused(specs: seq<TableSpec>, tables: TableMap, target: RowRef)
    requires KeysAsShipped(specs) && DistinctTables(specs)
    requires target.table != "content_types"
    ensures !Refused(specs, tables, target)
  {
    forall x, y | HeldBy(specs, tables, target, x, y)
      ensures !Reaches(specs, tables, target, x)
    {
      HoldersOfTypes(specs, tables, target, x, y);
      if Reaches(specs, tables, target, x) {
        ReachedByCascade(specs, tables, target, x);
        var p :| CascadesTo(specs, tables, p, x);
        NothingCascadesIntoTypes(specs, tables, p, x);
      }
    }
  }

  /** Deleting anything else, a user or a member account or a content entry, is never refused. */
  lemma DeleteNeverRefused(host: Host, db: Database, target: RowRef)
    requires Integrity(host, TABLE_SPECS, db) && Stored(db.tables, target) && target.table != "content_types"
    ensures Cascade.Delete(TABLE_SPECS, db, target).Ok?
  {
    ShippedSchemaIsWellFormed();
    ShippedKeys();
    SchemaHasParentsFirst(TABLE_SPECS);
    DeleteIsExact(host, TABLE_SPECS, db, target);
    OthersNotRefused(TABLE_SPECS, db.tables, target);
  }
}
