/** The SQLite storage adapter: one database handle that every call reads or changes in place. */
module SqliteStorage {
  import opened Wrappers
  import opened Ordering
  import opened Paging
  import opened Documents
  import opened Tables
  import opened Filters
  import opened Cascade
  import opened Queries
  import S = Statements

  /** A call of `transaction` resolves with a result or, when it joined an outer one, rejects. */
  datatype Settled = Resolved(result: Result<(), Error>) | Rejected(error: Error)

  class SqliteStorage {
    const host: Host
    const specs: seq<TableSpec>
    var db: Database
    /** The database at BEGIN, while a transaction is open. */
    var begun: Option<Database>

    ghost predicate Valid()
      reads this
    {
      && WellFormedSchema(specs) && Sound(host)
      && S.Ready(specs, db) && S.Sane(host, specs, db)
      && (begun.Some? ==> S.Ready(specs, begun.value) && S.Sane(host, specs, begun.value))
    }

    /** Creates one empty table per specification. */
    constructor (host: Host, specs: seq<TableSpec>)
      requires WellFormedSchema(specs) && Sound(host)
      ensures Valid()
      ensures this.host == host && this.specs == specs && begun == None
      ensures db.docs == map[] && forall r :: !Stored(db.tables, r)
    {
      this.host, this.specs, this.begun := host, specs, None;
      this.db := Database(map[], map[]);
      new;
      for i := 0 to |specs|
        invariant this.host == host && this.specs == specs && begun == None && db.docs == map[]
        invariant forall t :: t in db.tables <==> exists k :: 0 <= k < i && specs[k].table == t
        invariant forall t :: t in db.tables ==> db.tables[t] == map[]
      {
        db := db.(tables := db.tables[specs[i].table := map[]]);
      }
    }

    method Get(collection: string, id: string) returns (r: Option<Doc>)
      requires Valid()
      ensures r.Some? <==> Holding(specs, db, collection, id)
      ensures r.Some? ==> ReadsAs(host, specs, db, collection, id, r.value)
    {
      var k := S.SpecFor(specs, collection);
      if k.Some? {
        var spec := specs[k.value];
        var t := db.tables[spec.table];
        if id !in t {
          return None;
        }
        var doc := RowToDoc(host, spec, id, t[id]);
        return Some(doc);
      }
      r := if (collection, id) in db.docs then Some(db.docs[(collection, id)]) else None;
    }

    method Put(collection: string, doc: Doc) returns (r: Result<(), Error>)
      requires Valid()
      modifies this`db
      ensures Valid()
      ensures match S.Perform(host, specs, old(db), S.Put(collection, doc))
              case Ok(next) => r.Ok? && db == next
              case Err(e) => r == Err(e) && db == old(db)
    {
      S.AfterKeepsSane(host, specs, db, S.Put(collection, doc));
      r := Write(collection, doc);
    }

    /** The statement itself, on any database with the tables. */
    method Write(collection: string, doc: Doc) returns (r: Result<(), Error>)
      requires S.Ready(specs, db)
      modifies this`db
      ensures match S.Perform(host, specs, old(db), S.Put(collection, doc))
              case Ok(next) => r.Ok? && db == next
              case Err(e) => r == Err(e) && db == old(db)
    {
      if !S.HasId(doc) {
        return Err(Validation);
      }
      var id := doc["id"].s;
      var k := S.SpecFor(specs, collection);
      if k.Some? {
        r := PutRow(k.value, id, doc);
        return;
      }
      db := db.(docs := db.docs[(collection, id) := doc]);
      r := Ok(());
    }

    /** The upsert of a document's row. */
    method PutRow(k: nat, id: string, doc: Doc) returns (r: Result<(), Error>)
      requires k < |specs| && specs[k].table in db.tables && ColumnsDistinct(specs[k].columns)
      modifies this`db
      ensures match Upsert(specs, old(db), k, id, RowOf(host, specs[k].columns, doc))
              case Ok(next) => r.Ok? && db == next
              case Err(e) => r == Err(e) && db == old(db)
    {
      var row := MakeRow(specs[k], doc);
      var out := Upsert(specs, db, k, id, row);
      if out.Err? {
        return Err(out.error);
      }
      db := out.value;
      r := Ok(());
    }

    method MakeRow(spec: TableSpec, doc: Doc) returns (row: Row)
      requires ColumnsDistinct(spec.columns)
      ensures row == RowOf(host, spec.columns, doc)
    {
      row := DocToRow(host, spec, doc);
      RowIsUnique(host, spec.columns, doc, row);
    }

    method Delete(collection: string, id: string) returns (r: Result<(), Error>)
      requires Valid()
      modifies this`db
      ensures Valid()
      ensures match S.Perform(host, specs, old(db), S.Delete(collection, id))
              case Ok(next) => r.Ok? && db == next
              case Err(e) => r == Err(e) && db == old(db)
    {
      S.AfterKeepsSane(host, specs, db, S.Delete(collection, id));
      var k := S.SpecFor(specs, collection);
      if k.Some? {
        var target := RowRef(specs[k.value].table, id);
        var going := CollectDoomed(target);
        if Blocked(specs, db.tables, going) {
          return Err(Constraint);
        }
        db := db.(tables := Remove(db.tables, going));
        return Ok(());
      }
      db := db.(docs := db.docs - {(collection, id)});
      r := Ok(());
    }

    /** The engine's cascade: table by table, parents before children. */
    method CollectDoomed(target: RowRef) returns (going: set<RowRef>)
      ensures going == AllDoomed(specs, db.tables, target)
    {
      going := {};
      for n := 0 to |specs|
        invariant going == Doomed(specs, db.tables, target, n)
      {
        going := going + DoomedIn(specs[n], TableAt(db.tables, specs[n].table), target, going);
      }
    }

    /** WHERE: the rows or documents that satisfy all clauses built from the filter and the cursor. */
    method Select(collection: string, where: Where, after: Option<string>) returns (r: Result<set<string>, Error>)
      requires Valid()
      ensures r.Err? <==> !AllSafe(where)
      ensures r.Err? ==> r.error == Validation
      ensures r.Ok? ==> r.value == Remaining(MatchingIds(host, specs, db, collection, where), after)
    {
      var k := S.SpecFor(specs, collection);
      if k.Some? {
        var t := TableAt(db.tables, specs[k.value].table);
        var clauses :- TypedClauses(host, specs[k.value].columns, where, after);
        return Ok(set id | id in t && AllHoldForRow(host, clauses, id, t[id]));
      }
      var clauses :- DocClauses(host, where, after);
      var docs := db.docs;
      var ids :=
        set key | key in docs && key.0 == collection && AllHoldForDoc(host, clauses, key.1, docs[key]) :: key.1;
      r := Ok(ids);
    }

    /** The documents of the given ids, in their order. */
    method ReadAll(collection: string, ids: seq<string>) returns (items: seq<Doc>)
      requires Valid()
      requires forall i :: 0 <= i < |ids| ==> Holding(specs, db, collection, ids[i])
      ensures ReadAs(host, specs, db, collection, ids, items)
    {
      items := [];
      for i := 0 to |ids|
        invariant ReadAs(host, specs, db, collection, ids[..i], items)
      {
        var doc := Get(collection, ids[i]);
        ReadAsOneMore(host, specs, db, collection, ids, items, i, doc.value);
        items := items + [doc.value];
      }
      assert ids[..|ids|] == ids;
    }

    /** One page of the matching documents after the cursor, in id order. */
    method Query(collection: string, where: Where, limit: Option<int>, after: Option<string>)
      returns (r: Result<Page, Error>)
      requires Valid()
      ensures r.Err? <==> !AllSafe(where)
      ensures r.Err? ==> r.error == Validation
      ensures r.Ok? ==>
        var p := PageOf(MatchingIds(host, specs, db, collection, where), after, ClampLimit(limit));
        r.value.nextCursor == p.next && ReadAs(host, specs, db, collection, p.ids, r.value.items)
      ensures r.Ok? ==> IsPage(host, specs, db, collection, where, after, ClampLimit(limit), r.value)
    {
      var page :- QueryIds(collection, where, ClampLimit(limit), after);
      var items := ReadAll(collection, page.ids);
      r := Ok(Page(items, page.next));
      PageOfAnswers(host, specs, db, collection, where, after, ClampLimit(limit), r.value);
    }

    /** ORDER BY id LIMIT n + 1, of which at most n rows make the page. */
    method QueryIds(collection: string, where: Where, n: nat, after: Option<string>) returns (r: Result<IdPage, Error>)
      requires Valid() && n >= 1
      ensures r.Err? <==> !AllSafe(where)
      ensures r.Err? ==> r.error == Validation
      ensures r.Ok? ==> r.value == PageOf(MatchingIds(host, specs, db, collection, where), after, n)
      ensures r.Ok? ==> forall i :: 0 <= i < |r.value.ids| ==> Holding(specs, db, collection, r.value.ids[i])
    {
      var ids :- Select(collection, where, after);
      var rows := Take(Sorted(ids), n + 1);
      var hasMore := |rows| > n;
      var pageRows := if hasMore then rows[..n] else rows;
      PageFacts(MatchingIds(host, specs, db, collection, where), after, n);
      MatchingAreHeld(host, specs, db, collection, where);
      r := Ok(IdPage(pageRows, if hasMore then Some(pageRows[n - 1]) else None));
      assert forall i :: 0 <= i < |pageRows| ==> pageRows[i] in r.value.ids;
    }

    /**
      Runs a body atomically. Inside an open transaction it joins: its writes stay with
      the outer one and its throw passes through. At the outermost level it commits all
      writes the body carried out, inner ones and those before a caught throw included,
      or, on a throw, restores the database of BEGIN.
    */
    method Transaction(body: seq<S.Stmt>) returns (r: Settled)
      requires Valid()
      modifies this
      ensures Valid()
      ensures begun == old(begun)
      ensures forall e :: S.Fails(host, specs, old(db), body, e) ==>
        if old(begun).Some? then r == Rejected(e) else db == old(db) && r == Resolved(Err(e))
      ensures (forall e :: !S.Fails(host, specs, old(db), body, e)) ==> r == Resolved(Ok(()))
      ensures old(begun).Some? || (forall e :: !S.Fails(host, specs, old(db), body, e)) ==>
        db == S.AfterAll(host, specs, old(db), S.Trace(host, specs, old(db), body))
      decreases body, 1
    {
      S.ExecIsTrace(host, specs, db, body);
      forall e { S.ThrowsExactly(host, specs, db, body, e); }
      if begun.Some? {
        var joined := RunBody(body);
        return if joined.Threw? then Rejected(joined.error) else Resolved(Ok(()));
      }
      begun := Some(db);  // BEGIN
      var out := RunBody(body);
      if out.Threw? {
        db := begun.value;  // ROLLBACK
        begun := None;
        return Resolved(Err(out.error));
      }
      begun := None;  // COMMIT
      r := Resolved(Ok(()));
    }

    /** The body itself, calling back into the same adapter. */
    method RunBody(body: seq<S.Stmt>) returns (out: S.Outcome)
      requires Valid() && begun.Some?
      modifies this
      ensures Valid() && begun == old(begun)
      ensures (db, out) == S.Exec(host, specs, old(db), body)
      decreases body, 0
    {
      if body == [] {
        return S.Returned;
      }
      match body[0]
      case Write(op) =>
        var _ := Call(op);
        out := RunBody(body[1..]);
      case Insist(op) =>
        var done := Call(op);
        if done.Err? {
          return S.Threw(done.error);
        }
        out := RunBody(body[1..]);
      case Raise(code) =>
        out := S.Threw(Raised(code));
      case Nested(inner, caught) =>
        S.ExecIsTrace(host, specs, db, inner);
        forall e { S.ThrowsExactly(host, specs, db, inner, e); }
        var settled := Transaction(inner);
        if settled.Rejected? && !caught {
          return S.Threw(settled.error);
        }
        out := RunBody(body[1..]);
    }

    method Call(op: S.Op) returns (r: Result<(), Error>)
      requires Valid()
      modifies this`db
      ensures Valid()
      ensures match S.Perform(host, specs, old(db), op)
              case Ok(next) => r.Ok? && db == next
              case Err(e) => r == Err(e) && db == old(db)
    {
      match op
      case Put(collection, doc) => r := Put(collection, doc);
      case Delete(collection, id) => r := Delete(collection, id);
    }
  }
}
