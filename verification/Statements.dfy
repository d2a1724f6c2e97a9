/**
  Single statements of the storage adapter on whole databases, transaction bodies,
  and what every run of them keeps.
*/
module Statements {
  import opened Wrappers
  import opened Documents
  import opened Tables
  import opened Cascade

  datatype Op = Put(collection: string, doc: Doc) | Delete(collection: string, id: string)

  ghost predicate Ready(specs: seq<TableSpec>, db: Database) {
    WellFormedSchema(specs) && forall k :: 0 <= k < |specs| ==> specs[k].table in db.tables
  }

  /** tableSpecFor: the position of the collection's table, if it has one. */
  function SpecFor(specs: seq<TableSpec>, collection: string): (r: Option<nat>)
    ensures r.Some? ==> r.value < |specs| && specs[r.value].collection == collection
    ensures r.None? ==> forall k :: 0 <= k < |specs| ==> specs[k].collection != collection
  {
    if specs == [] then None
    else
      var n := |specs| - 1;
      var r := SpecFor(specs[..n], collection);
      if r.Some? then r
      else if specs[n].collection == collection then Some(n)
      else
        assert forall k :: 0 <= k < n ==> specs[..n][k] == specs[k];
        None
  }

  /** A document needs a non-empty string id. */
  predicate HasId(doc: Doc) {
    "id" in doc && doc["id"].JStr? && doc["id"].s != ""
  }

  function Perform(host: Host, specs: seq<TableSpec>, db: Database, op: Op): Result<Database, Error>
    requires Ready(specs, db)
  {
    match op
    case Put(collection, doc) =>
      if !HasId(doc) then Err(Validation)
      else (
        match SpecFor(specs, collection)
        case Some(k) => Upsert(specs, db, k, doc["id"].s, RowOf(host, specs[k].columns, doc))
        case None => Ok(db.(docs := db.docs[(collection, doc["id"].s) := doc])))
    case Delete(collection, id) => (
      match SpecFor(specs, collection)
      case Some(k) => Cascade.Delete(specs, db, RowRef(specs[k].table, id))
      case None => Ok(db.(docs := db.docs - {(collection, id)})))
  }

  /** A failed statement leaves the database as it was. */
  function After(host: Host, specs: seq<TableSpec>, db: Database, op: Op): (next: Database)
    requires Ready(specs, db)
    ensures Ready(specs, next)
  {
    match Perform(host, specs, db, op)
    case Ok(next) => next
    case Err(_) => db
  }

  function AfterAll(host: Host, specs: seq<TableSpec>, db: Database, ops: seq<Op>): (next: Database)
    requires Ready(specs, db)
    ensures Ready(specs, next)
  {
    if ops == [] then db else After(host, specs, AfterAll(host, specs, db, ops[..|ops| - 1]), ops[|ops| - 1])
  }

  ghost predicate DocsOk(docs: map<(string, string), Doc>) {
    forall k :: k in docs ==> HasId(docs[k]) && docs[k]["id"] == JStr(k.1)
  }

  /** The row is what some document with this id is written as. */
  ghost predicate RowOfSome(host: Host, columns: seq<ColumnSpec>, id: string, row: Row) {
    exists doc :: HasId(doc) && doc["id"] == JStr(id) && IsRowOf(host, columns, doc, row)
  }

  /** Every row was written by a put. */
  ghost predicate RowsOk(host: Host, specs: seq<TableSpec>, tables: TableMap) {
    forall k, id :: 0 <= k < |specs| && id in TableAt(tables, specs[k].table) ==>
      RowOfSome(host, specs[k].columns, id, TableAt(tables, specs[k].table)[id])
  }

  /** The constraints of the tables, and rows and documents stored under their own ids. */
  ghost predicate Sane(host: Host, specs: seq<TableSpec>, db: Database) {
    Integrity(host, specs, db) && RowsOk(host, specs, db.tables) && DocsOk(db.docs)
  }

  lemma PutKeepsSane(host: Host, specs: seq<TableSpec>, db: Database, k: nat, doc: Doc)
    requires Sound(host) && Ready(specs, db) && Sane(host, specs, db) && k < |specs| && HasId(doc)
    ensures var out := Upsert(specs, db, k, doc["id"].s, RowOf(host, specs[k].columns, doc));
      out.Ok? ==> Sane(host, specs, out.value)
  {
    var id, row := doc["id"].s, RowOf(host, specs[k].columns, doc);
    RowIsShaped(host, specs[k].columns, doc, row);
    if Upsert(specs, db, k, id, row).Ok? {
      UpsertKeepsIntegrity(host, specs, db, k, id, row);
      PutKeepsRowsOk(host, specs, db, k, doc);
      UpsertChangesOneRow(host, specs, db, k, id, row);
    }
  }

  lemma PutKeepsRowsOk(host: Host, specs: seq<TableSpec>, db: Database, k: nat, doc: Doc)
    requires Sound(host) && Ready(specs, db) && Sane(host, specs, db) && k < |specs| && HasId(doc)
    requires Upsert(specs, db, k, doc["id"].s, RowOf(host, specs[k].columns, doc)).Ok?
    ensures RowsOk(host, specs, Upsert(specs, db, k, doc["id"].s, RowOf(host, specs[k].columns, doc)).value.tables)
  {
    var id, row := doc["id"].s, RowOf(host, specs[k].columns, doc);
    var next := Upsert(specs, db, k, id, row).value.tables;
    RowIsShaped(host, specs[k].columns, doc, row);
    UpsertChangesOneRow(host, specs, db, k, id, row);
    forall m, i | 0 <= m < |specs| && i in TableAt(next, specs[m].table)
      ensures RowOfSome(host, specs[m].columns, i, TableAt(next, specs[m].table)[i])
    {
      if m != k || i != id {
        assert specs[m].table == specs[k].table ==> m == k;
        assert i in TableAt(db.tables, specs[m].table);
      }
    }
  }

  lemma RemoveKeepsRowsOk(host: Host, specs: seq<TableSpec>, tables: TableMap, going: set<RowRef>)
    requires RowsOk(host, specs, tables)
    ensures RowsOk(host, specs, Remove(tables, going))
  {
    var next := Remove(tables, going);
    RemovedRows(tables, going);
    forall m, i | 0 <= m < |specs| && i in TableAt(next, specs[m].table)
      ensures RowOfSome(host, specs[m].columns, i, TableAt(next, specs[m].table)[i])
    {
      assert Stored(next, RowRef(specs[m].table, i));
      assert i in TableAt(tables, specs[m].table);
    }
  }

  lemma DocChangeKeepsIntegrity(host: Host, specs: seq<TableSpec>, db: Database, next: Database)
    requires Integrity(host, specs, db) && next.tables == db.tables
    ensures Integrity(host, specs, next)
  {
  }

  lemma AfterPut(host: Host, specs: seq<TableSpec>, db: Database, collection: string, doc: Doc)
    requires Sound(host) && Ready(specs, db) && Sane(host, specs, db)
    ensures Sane(host, specs, After(host, specs, db, Put(collection, doc)))
  {
    var next := After(host, specs, db, Put(collection, doc));
    var k := SpecFor(specs, collection);
    if HasId(doc) {
      if k.Some? {
        PutKeepsSane(host, specs, db, k.value, doc);
      } else {
        DocChangeKeepsIntegrity(host, specs, db, next);
      }
    }
  }

  lemma AfterDelete(host: Host, specs: seq<TableSpec>, db: Database, collection: string, id: string)
    requires Sound(host) && Ready(specs, db) && Sane(host, specs, db)
    ensures Sane(host, specs, After(host, specs, db, Delete(collection, id)))
  {
    var next := After(host, specs, db, Delete(collection, id));
    var k := SpecFor(specs, collection);
    if k.Some? {
      var target := RowRef(specs[k.value].table, id);
      if Cascade.Delete(specs, db, target).Ok? {
        DeleteKeepsIntegrity(host, specs, db, target);
        RemoveKeepsRowsOk(host, specs, db.tables, AllDoomed(specs, db.tables, target));
      }
    } else {
      DocChangeKeepsIntegrity(host, specs, db, next);
    }
  }

  lemma AfterKeepsSane(host: Host, specs: seq<TableSpec>, db: Database, op: Op)
    requires Sound(host) && Ready(specs, db) && Sane(host, specs, db)
    ensures Sane(host, specs, After(host, specs, db, op))
  {
    match op
    case Put(collection, doc) => AfterPut(host, specs, db, collection, doc);
    case Delete(collection, id) => AfterDelete(host, specs, db, collection, id);
  }

  /** Main result: primary keys, uniqueness, NOT NULL and foreign keys hold after any run of puts and deletes. */
  lemma {:induction false} RunKeepsSane(host: Host, specs: seq<TableSpec>, db: Database, ops: seq<Op>)
    requires Sound(host) && Ready(specs, db) && Sane(host, specs, db)
    ensures Sane(host, specs, AfterAll(host, specs, db, ops))
  {
    if ops != [] {
      RunKeepsSane(host, specs, db, ops[..|ops| - 1]);
      AfterKeepsSane(host, specs, AfterAll(host, specs, db, ops[..|ops| - 1]), ops[|ops| - 1]);
    }
  }

  // Transaction bodies

  /**
    What one run of a transaction body does: a write whose failure it ignores, a
    write whose failure it throws, a throw, and an inner transaction whose throw it
    catches or not. A body that branches on what it reads does, in each of its runs,
    some such sequence.
  */
  datatype Stmt =
    | Write(op: Op)
    | Insist(op: Op)
    | Raise(code: int)
    | Nested(body: seq<Stmt>, caught: bool)

  datatype Outcome = Returned | Threw(error: Error)

  function Exec(host: Host, specs: seq<TableSpec>, db: Database, body: seq<Stmt>): (r: (Database, Outcome))
    requires Ready(specs, db)
    ensures Ready(specs, r.0)
    decreases body
  {
    if body == [] then (db, Returned)
    else match body[0]
      case Write(op) => Exec(host, specs, After(host, specs, db, op), body[1..])
      case Insist(op) =>
        (match Perform(host, specs, db, op)
         case Ok(_) => Exec(host, specs, After(host, specs, db, op), body[1..])
         case Err(e) => (db, Threw(e)))
      case Raise(code) => (db, Threw(Raised(code)))
      case Nested(inner, caught) =>
        var r := Exec(host, specs, db, inner);
        if r.1.Threw? && !caught then r else Exec(host, specs, r.0, body[1..])
  }

  /** The writes that were carried out, in order, those of inner transactions included. */
  function Trace(host: Host, specs: seq<TableSpec>, db: Database, body: seq<Stmt>): seq<Op>
    requires Ready(specs, db)
    decreases body
  {
    if body == [] then []
    else match body[0]
      case Write(op) => [op] + Trace(host, specs, After(host, specs, db, op), body[1..])
      case Insist(op) =>
        (match Perform(host, specs, db, op)
         case Ok(_) => [op] + Trace(host, specs, After(host, specs, db, op), body[1..])
         case Err(e) => [])
      case Raise(_) => []
      case Nested(inner, caught) =>
        var r := Exec(host, specs, db, inner);
        Trace(host, specs, db, inner) +
        (if r.1.Threw? && !caught then [] else Trace(host, specs, r.0, body[1..]))
  }

  lemma {:induction false} AfterAllAppend(host: Host, specs: seq<TableSpec>, db: Database, a: seq<Op>, b: seq<Op>)
    requires Ready(specs, db)
    ensures AfterAll(host, specs, db, a + b) == AfterAll(host, specs, AfterAll(host, specs, db, a), b)
  {
    if b == [] {
      assert a + b == a;
    } else {
      assert (a + b)[..|a + b| - 1] == a + b[..|b| - 1];
      AfterAllAppend(host, specs, db, a, b[..|b| - 1]);
    }
  }

  lemma AfterAllOne(host: Host, specs: seq<TableSpec>, db: Database, op: Op)
    requires Ready(specs, db)
    ensures AfterAll(host, specs, db, [op]) == After(host, specs, db, op)
  {
    assert [op][..0] == [];
  }

  /** Running a body is running the flat sequence of its writes. */
  lemma {:induction false} ExecIsTrace(host: Host, specs: seq<TableSpec>, db: Database, body: seq<Stmt>)
    requires Ready(specs, db)
    ensures Exec(host, specs, db, body).0 == AfterAll(host, specs, db, Trace(host, specs, db, body))
    decreases body
  {
    if body != [] {
      match body[0]
      case Write(op) =>
        var next := After(host, specs, db, op);
        ExecIsTrace(host, specs, next, body[1..]);
        AfterAllOne(host, specs, db, op);
        AfterAllAppend(host, specs, db, [op], Trace(host, specs, next, body[1..]));
      case Insist(op) =>
        var next := After(host, specs, db, op);
        ExecIsTrace(host, specs, next, body[1..]);
        AfterAllOne(host, specs, db, op);
        AfterAllAppend(host, specs, db, [op], Trace(host, specs, next, body[1..]));
      case Raise(_) =>
      case Nested(inner, caught) =>
        var r := Exec(host, specs, db, inner);
        ExecIsTrace(host, specs, db, inner);
        ExecIsTrace(host, specs, r.0, body[1..]);
        var first := Trace(host, specs, db, inner);
        AfterAllAppend(host, specs, db, first, Trace(host, specs, r.0, body[1..]));
        assert first + [] == first;
    }
  }

  // When a body throws, and what it leaves

  /** A body with more statements behind it: they run if the first ones return, and not at all if they throw. */
  lemma {:induction false} ExecAppend(host: Host, specs: seq<TableSpec>, db: Database, a: seq<Stmt>, b: seq<Stmt>)
    requires Ready(specs, db)
    ensures var first := Exec(host, specs, db, a);
      Exec(host, specs, db, a + b) == if first.1.Threw? then first else Exec(host, specs, first.0, b)
    decreases |a|
  {
    if a == [] {
      assert a + b == b;
    } else {
      assert (a + b)[0] == a[0] && (a + b)[1..] == a[1..] + b;
      match a[0]
      case Write(op) => ExecAppend(host, specs, After(host, specs, db, op), a[1..], b);
      case Insist(op) => ExecAppend(host, specs, After(host, specs, db, op), a[1..], b);
      case Raise(_) =>
      case Nested(inner, caught) => ExecAppend(host, specs, Exec(host, specs, db, inner).0, a[1..], b);
    }
  }

  /**
    What one statement makes of a database: a write changes it or fails and is
    forgotten, an insisted write that fails and a throw change nothing and throw, and
    an inner transaction keeps its writes even where its throw is caught.
  */
  ghost predicate Does(host: Host, specs: seq<TableSpec>, s: Database, stmt: Stmt, r: (Database, Outcome))
    requires Ready(specs, s)
  {
    match stmt
    case Write(op) => r.1 == Returned &&
      (match Perform(host, specs, s, op) case Ok(next) => r.0 == next case Err(_) => r.0 == s)
    case Insist(op) =>
      (match Perform(host, specs, s, op)
       case Ok(next) => r == (next, Returned)
       case Err(e) => r == (s, Threw(e)))
    case Raise(code) => r == (s, Threw(Raised(code)))
    case Nested(inner, caught) =>
      && r.0 == Exec(host, specs, s, inner).0
      && r.1 == if caught then Returned else Exec(host, specs, s, inner).1
  }

  lemma ExecOne(host: Host, specs: seq<TableSpec>, db: Database, stmt: Stmt)
    requires Ready(specs, db)
    ensures Does(host, specs, db, stmt, Exec(host, specs, db, [stmt]))
  {
    assert [stmt][1..] == [];
    assert forall s :: Ready(specs, s) ==> Exec(host, specs, s, []) == (s, Returned);
  }

  /**
    Statement by statement from the front: an empty body changes nothing, once a body
    has thrown no later statement has any effect, and until then each statement acts
    on what the ones before it left.
  */
  lemma ExecNext(host: Host, specs: seq<TableSpec>, db: Database, body: seq<Stmt>, i: nat)
    requires Ready(specs, db) && i < |body|
    ensures Exec(host, specs, db, []) == (db, Returned)
    ensures Exec(host, specs, db, body[..i]).1.Threw? ==>
      Exec(host, specs, db, body[..i + 1]) == Exec(host, specs, db, body[..i])
    ensures Exec(host, specs, db, body[..i]).1.Returned? ==>
      Does(host, specs, Exec(host, specs, db, body[..i]).0, body[i], Exec(host, specs, db, body[..i + 1]))
  {
    var before := Exec(host, specs, db, body[..i]);
    assert body[..i + 1] == body[..i] + [body[i]];
    ExecAppend(host, specs, db, body[..i], [body[i]]);
    ExecOne(host, specs, before.0, body[i]);
  }

  /**
    The statement that the path leads to, position by position into inner bodies, is
    come to and throws e out of the whole body: it is a throw of e or an insisted write
    that fails with e on what the writes before it left, and no body around it is caught.
  */
  ghost predicate FailsAt(
      host: Host, specs: seq<TableSpec>, db: Database, body: seq<Stmt>, path: seq<nat>, e: Error)
    requires Ready(specs, db)
    decreases body
  {
    && path != [] && path[0] < |body| && Exec(host, specs, db, body[..path[0]]).1 == Returned
    && var s := Exec(host, specs, db, body[..path[0]]).0;
      match body[path[0]]
      case Write(_) => false
      case Insist(op) => |path| == 1 && Perform(host, specs, s, op) == Err(e)
      case Raise(code) => |path| == 1 && e == Raised(code)
      case Nested(inner, caught) => !caught && FailsAt(host, specs, s, inner, path[1..], e)
  }

  ghost predicate Fails(host: Host, specs: seq<TableSpec>, db: Database, body: seq<Stmt>, e: Error)
    requires Ready(specs, db)
  {
    exists path :: FailsAt(host, specs, db, body, path, e)
  }

  lemma {:induction false} FailureThrows(
      host: Host, specs: seq<TableSpec>, db: Database, body: seq<Stmt>, path: seq<nat>, e: Error)
    requires Ready(specs, db) && FailsAt(host, specs, db, body, path, e)
    ensures Exec(host, specs, db, body).1 == Threw(e)
    decreases body
  {
    var i := path[0];
    var s := Exec(host, specs, db, body[..i]).0;
    ExecNext(host, specs, db, body, i);
    if body[i].Nested? {
      FailureThrows(host, specs, s, body[i].body, path[1..], e);
    }
    assert body[..i + 1] + body[i + 1..] == body;
    ExecAppend(host, specs, db, body[..i + 1], body[i + 1..]);
  }

  /** The first statement after which the body has thrown. */
  lemma {:induction false} ThrowHasFailure(
      host: Host, specs: seq<TableSpec>, db: Database, body: seq<Stmt>, n: nat, e: Error) returns (path: seq<nat>)
    requires Ready(specs, db) && n <= |body| && Exec(host, specs, db, body[..n]).1 == Threw(e)
    ensures FailsAt(host, specs, db, body, path, e)
    decreases body, n
  {
    var i := n - 1;
    ExecNext(host, specs, db, body, i);
    var before := Exec(host, specs, db, body[..i]);
    if before.1.Threw? {
      path := ThrowHasFailure(host, specs, db, body, i, e);
    } else if body[i].Nested? {
      var inner := body[i].body;
      assert inner[..|inner|] == inner;
      var rest := ThrowHasFailure(host, specs, before.0, inner, |inner|, e);
      path := [i] + rest;
      assert path[1..] == rest;
    } else {
      path := [i];
    }
  }

  /** Main result: a body throws an error exactly when some statement of it is come to and throws that error. */
  lemma ThrowsExactly(host: Host, specs: seq<TableSpec>, db: Database, body: seq<Stmt>, e: Error)
    requires Ready(specs, db)
    ensures Exec(host, specs, db, body).1 == Threw(e) <==> Fails(host, specs, db, body, e)
  {
    if Exec(host, specs, db, body).1 == Threw(e) {
      assert body[..|body|] == body;
      var path := ThrowHasFailure(host, specs, db, body, |body|, e);
    }
    if path :| FailsAt(host, specs, db, body, path, e) {
      FailureThrows(host, specs, db, body, path, e);
    }
  }
}
