/**
  Why a put edits rows in place: INSERT OR REPLACE would delete the old row first,
  and the delete would cascade. What it would lose is exactly what refers to the row.
*/
module Replacement {
  import opened Wrappers
  import opened Documents
  import opened Tables
  import opened Cascade

  /** A RESTRICT reference to a row that goes, from any row. */
  ghost predicate Restricted(specs: seq<TableSpec>, tables: TableMap, going: set<RowRef>) {
    exists k, id, fk :: RestrictedBy(specs, tables, going, k, id, fk)
  }

  ghost predicate RestrictedBy(
      specs: seq<TableSpec>, tables: TableMap, going: set<RowRef>, k: int, id: string, fk: ForeignKey)
  {
    && 0 <= k < |specs| && id in TableAt(tables, specs[k].table)
    && fk in specs[k].foreignKeys && fk.onDelete == Restrict && Refers(TableAt(tables, specs[k].table), id, fk, going)
  }

  /** A NO ACTION reference, from a row that stays, to a row that is gone when the statement ends. */
  ghost predicate Dangling(specs: seq<TableSpec>, tables: TableMap, going: set<RowRef>, gone: set<RowRef>) {
    exists k, id, fk :: DanglingBy(specs, tables, going, gone, k, id, fk)
  }

  ghost predicate DanglingBy(
      specs: seq<TableSpec>, tables: TableMap, going: set<RowRef>, gone: set<RowRef>, k: int, id: string,
      fk: ForeignKey)
  {
    && 0 <= k < |specs| && id in TableAt(tables, specs[k].table) && RowRef(specs[k].table, id) !in going
    && fk in specs[k].foreignKeys && fk.onDelete == NoAction && Refers(TableAt(tables, specs[k].table), id, fk, gone)
  }

  /**
    INSERT OR REPLACE of a row that clashes with no row but the one of its id: the old
    row is deleted with its cascade, which a RESTRICT reference refuses, and the new one
    inserted; NO ACTION references are checked when the statement ends.
  */
  ghost function Replace(specs: seq<TableSpec>, db: Database, k: nat, id: string, row: Row): Result<Database, Error>
    requires k < |specs| && specs[k].table in db.tables
  {
    var target := RowRef(specs[k].table, id);
    var going := AllDoomed(specs, db.tables, target);
    if Restricted(specs, db.tables, going) || Dangling(specs, db.tables, going, going - {target}) then Err(Constraint)
    else Upsert(specs, Emptied(specs, db, k, id), k, id, row)
  }

  function Emptied(specs: seq<TableSpec>, db: Database, k: nat, id: string): Database
    requires k < |specs|
  {
    db.(tables := Remove(db.tables, AllDoomed(specs, db.tables, RowRef(specs[k].table, id))))
  }

  function RowAt(db: Database, r: RowRef): Option<Row> {
    if Stored(db.tables, r) then Some(db.tables[r.table][r.id]) else None
  }

  /** Nothing in a table before the target's goes, so the target's own parents stay. */
  lemma EarlierStay(specs: seq<TableSpec>, tables: TableMap, k: nat, id: string, i: nat, r: RowRef)
    requires ParentsFirst(specs) && i < k < |specs| && r.table == specs[i].table
    ensures r !in AllDoomed(specs, tables, RowRef(specs[k].table, id))
  {
    var target := RowRef(specs[k].table, id);
    NothingEarlier(specs, tables, k, id, i);
    DoomedSettled(specs, tables, target, i, |specs|, r);
  }

  lemma {:induction false} NothingEarlier(specs: seq<TableSpec>, tables: TableMap, k: nat, id: string, n: nat)
    requires DistinctTables(specs) && n <= k < |specs|
    ensures Doomed(specs, tables, RowRef(specs[k].table, id), n) == {}
  {
    if n > 0 {
      NothingEarlier(specs, tables, k, id, n - 1);
    }
  }

  /** The target's own references still resolve after the delete. */
  lemma ParentsStay(specs: seq<TableSpec>, db: Database, k: nat, id: string, fk: ForeignKey, v: SqlValue)
    requires ParentsFirst(specs) && k < |specs| && fk in specs[k].foreignKeys
    requires fk.refTable in db.tables && Resolves(db.tables[fk.refTable], v)
    ensures var after := Remove(db.tables, AllDoomed(specs, db.tables, RowRef(specs[k].table, id)));
      fk.refTable in after && Resolves(after[fk.refTable], v)
  {
    var going := AllDoomed(specs, db.tables, RowRef(specs[k].table, id));
    assert ParentsBefore(specs, k) && TableBefore(specs, k, fk.refTable);
    var i :| 0 <= i < k && i < |specs| && specs[i].table == fk.refTable;
    if v != SqlNull {
      EarlierStay(specs, db.tables, k, id, i, RowRef(fk.refTable, v.s));
      RemovedRows(db.tables, going);
      assert Stored(db.tables, RowRef(fk.refTable, v.s));
      assert Stored(Remove(db.tables, going), RowRef(fk.refTable, v.s));
    }
  }

  lemma StillNoClash(spec: TableSpec, t: Table, going: set<RowRef>, id: string, row: Row)
    requires !UniqueViolated(spec, t, id, row)
    ensures !UniqueViolated(spec, RemoveFrom(spec.table, t, going), id, row)
  {
  }

  lemma TargetIsGone(specs: seq<TableSpec>, db: Database, k: nat, id: string)
    requires ParentsFirst(specs) && k < |specs| && specs[k].table in db.tables
    ensures specs[k].table in Emptied(specs, db, k, id).tables
    ensures id !in Emptied(specs, db, k, id).tables[specs[k].table]
  {
    var target := RowRef(specs[k].table, id);
    RemovedRows(db.tables, AllDoomed(specs, db.tables, target));
    if Stored(db.tables, target) {
      DoomedStep(specs, db.tables, target, k, target);
    }
    assert !Stored(Emptied(specs, db, k, id).tables, target);
  }

  lemma ReferencesStillResolve(specs: seq<TableSpec>, db: Database, k: nat, id: string, row: Row)
    requires WellFormedSchema(specs) && ParentsFirst(specs) && k < |specs|
    requires forall t :: IsTable(specs, t) ==> t in db.tables
    requires !ForeignKeyViolated(specs[k], db, row)
    ensures !ForeignKeyViolated(specs[k], Emptied(specs, db, k, id), row)
  {
    forall fk | fk in specs[k].foreignKeys && fk.column in row
      ensures fk.refTable in Emptied(specs, db, k, id).tables ==>
        Resolves(Emptied(specs, db, k, id).tables[fk.refTable], row[fk.column])
    {
      ParentIsTable(specs, k, fk);
      ParentsStay(specs, db, k, id, fk, row[fk.column]);
    }
  }

  function WithRow(db: Database, r: RowRef, row: Row): Database
    requires r.table in db.tables
  {
    db.(tables := db.tables[r.table := db.tables[r.table][r.id := row]])
  }

  lemma RowsWithRow(db: Database, r: RowRef, row: Row, x: RowRef)
    requires r.table in db.tables
    ensures RowAt(WithRow(db, r, row), x) == if x == r then Some(row) else RowAt(db, x)
  {
  }

  /** What an upsert lets through, an insert lets through after the delete, and it puts the same row. */
  lemma InsertStillFits(host: Host, specs: seq<TableSpec>, db: Database, k: nat, id: string, row: Row)
    requires WellFormedSchema(specs) && Integrity(host, specs, db) && k < |specs|
    requires Shaped(host, specs[k].columns, row) && Upsert(specs, db, k, id, row).Ok?
    ensures specs[k].table in Emptied(specs, db, k, id).tables
    ensures Upsert(specs, Emptied(specs, db, k, id), k, id, row) ==
      Ok(WithRow(Emptied(specs, db, k, id), RowRef(specs[k].table, id), row))
    ensures Upsert(specs, db, k, id, row) == Ok(WithRow(db, RowRef(specs[k].table, id), row))
  {
    var name, going := specs[k].table, AllDoomed(specs, db.tables, RowRef(specs[k].table, id));
    SchemaHasParentsFirst(specs);
    WrittenIsRow(host, specs, db, k, id, row);
    TargetIsGone(specs, db, k, id);
    StillNoClash(specs[k], db.tables[name], going, id, row);
    ReferencesStillResolve(specs, db, k, id, row);
  }

  lemma EmptiedRows(specs: seq<TableSpec>, db: Database, k: nat, id: string, r: RowRef)
    requires k < |specs|
    ensures RowAt(Emptied(specs, db, k, id), r) ==
      if r in AllDoomed(specs, db.tables, RowRef(specs[k].table, id)) then None else RowAt(db, r)
  {
    RemovedRows(db.tables, AllDoomed(specs, db.tables, RowRef(specs[k].table, id)));
  }

  /**
    Where both statements go through, replacing differs from the upsert by the other
    rows of the cascade closure: it loses exactly those.
  */
  lemma ReplaceLosesTheClosure(host: Host, specs: seq<TableSpec>, db: Database, k: nat, id: string, row: Row)
    requires WellFormedSchema(specs) && Integrity(host, specs, db) && k < |specs|
    requires Shaped(host, specs[k].columns, row) && Upsert(specs, db, k, id, row).Ok?
    requires Replace(specs, db, k, id, row).Ok?
    ensures var target := RowRef(specs[k].table, id);
      forall r :: RowAt(Replace(specs, db, k, id, row).value, r) ==
        if r != target && r in AllDoomed(specs, db.tables, target) then None
        else RowAt(Upsert(specs, db, k, id, row).value, r)
  {
    var target := RowRef(specs[k].table, id);
    InsertStillFits(host, specs, db, k, id, row);
    forall r
      ensures RowAt(Replace(specs, db, k, id, row).value, r) ==
        if r != target && r in AllDoomed(specs, db.tables, target) then None
        else RowAt(Upsert(specs, db, k, id, row).value, r)
    {
      RowsWithRow(db, target, row, r);
      RowsWithRow(Emptied(specs, db, k, id), target, row, r);
      EmptiedRows(specs, db, k, id, r);
    }
  }

  /** Replacing is refused exactly for a RESTRICT reference into the closure or a NO ACTION one to another row of it. */
  lemma ReplaceRefusedExactly(host: Host, specs: seq<TableSpec>, db: Database, k: nat, id: string, row: Row)
    requires WellFormedSchema(specs) && Integrity(host, specs, db) && k < |specs|
    requires Shaped(host, specs[k].columns, row) && Upsert(specs, db, k, id, row).Ok?
    ensures var target := RowRef(specs[k].table, id); var going := AllDoomed(specs, db.tables, target);
      Replace(specs, db, k, id, row).Err? <==>
        Restricted(specs, db.tables, going) || Dangling(specs, db.tables, going, going - {target})
  {
    InsertStillFits(host, specs, db, k, id, row);
  }

  lemma SameRowsSameDatabase(a: Database, b: Database)
    requires a.docs == b.docs && a.tables.Keys == b.tables.Keys && forall r :: RowAt(a, r) == RowAt(b, r)
    ensures a == b
  {
    forall name | name in a.tables ensures a.tables[name] == b.tables[name] {
      var s, t := a.tables[name], b.tables[name];
      forall i ensures i in s <==> i in t {
        assert RowAt(a, RowRef(name, i)) == RowAt(b, RowRef(name, i));
      }
      assert s.Keys == t.Keys;
      forall i | i in s ensures s[i] == t[i] {
        assert RowAt(a, RowRef(name, i)) == RowAt(b, RowRef(name, i));
      }
    }
  }

  /** The closure of a row is the row alone. */
  ghost predicate Alone(specs: seq<TableSpec>, tables: TableMap, target: RowRef) {
    forall r :: Reaches(specs, tables, target, r) ==> r == target
  }

  lemma AloneMeansNothingElseGoes(specs: seq<TableSpec>, tables: TableMap, target: RowRef)
    requires ParentsFirst(specs) && Stored(tables, target) && TableBefore(specs, |specs|, target.table)
    ensures Alone(specs, tables, target) <==> AllDoomed(specs, tables, target) == {target}
  {
    forall r ensures r in AllDoomed(specs, tables, target) <==> Reaches(specs, tables, target, r) {
      DoomedIsClosure(specs, tables, target, r);
    }
    assert ChainFrom(specs, tables, target, target, [target]);
  }

  lemma NothingDangles(specs: seq<TableSpec>, tables: TableMap, going: set<RowRef>)
    ensures !Dangling(specs, tables, going, {})
  {
  }

  lemma AgreesIfNothingElseGoes(host: Host, specs: seq<TableSpec>, db: Database, k: nat, id: string, row: Row)
    requires WellFormedSchema(specs) && Integrity(host, specs, db) && k < |specs|
    requires Shaped(host, specs[k].columns, row) && Upsert(specs, db, k, id, row).Ok?
    requires Replace(specs, db, k, id, row).Ok? && id in db.tables[specs[k].table]
    ensures Replace(specs, db, k, id, row) == Upsert(specs, db, k, id, row) <==>
      forall r :: r in AllDoomed(specs, db.tables, RowRef(specs[k].table, id)) ==> r == RowRef(specs[k].table, id)
  {
    var target := RowRef(specs[k].table, id);
    ReplaceLosesTheClosure(host, specs, db, k, id, row);
    InsertStillFits(host, specs, db, k, id, row);
    var a, b := Replace(specs, db, k, id, row).value, Upsert(specs, db, k, id, row).value;
    if r :| r in AllDoomed(specs, db.tables, target) && r != target {
      DoomedRows(specs, db.tables, target, |specs|);
      RowsWithRow(db, target, row, r);
      assert RowAt(a, r) == None && RowAt(b, r).Some?;
    } else {
      SameKeys(specs, db, k, id, row);
      SameRowsSameDatabase(a, b);
    }
  }

  lemma SameKeys(specs: seq<TableSpec>, db: Database, k: nat, id: string, row: Row)
    requires k < |specs| && specs[k].table in db.tables && specs[k].table in Emptied(specs, db, k, id).tables
    ensures WithRow(Emptied(specs, db, k, id), RowRef(specs[k].table, id), row).tables.Keys ==
      WithRow(db, RowRef(specs[k].table, id), row).tables.Keys
  {
    RemovedRows(db.tables, AllDoomed(specs, db.tables, RowRef(specs[k].table, id)));
  }

  /**
    Main result: replacing a stored row does what the upsert does if and only if no
    other row cascades from it and no RESTRICT reference holds it.
  */
  lemma ReplaceAgreesExactly(host: Host, specs: seq<TableSpec>, db: Database, k: nat, id: string, row: Row)
    requires WellFormedSchema(specs) && Integrity(host, specs, db) && k < |specs|
    requires Shaped(host, specs[k].columns, row) && Upsert(specs, db, k, id, row).Ok?
    requires id in db.tables[specs[k].table]
    ensures var target := RowRef(specs[k].table, id);
      Replace(specs, db, k, id, row) == Upsert(specs, db, k, id, row) <==>
        Alone(specs, db.tables, target) && !Restricted(specs, db.tables, {target})
  {
    var target := RowRef(specs[k].table, id);
    var going := AllDoomed(specs, db.tables, target);
    SchemaHasParentsFirst(specs);
    assert TableBefore(specs, |specs|, target.table);
    AloneMeansNothingElseGoes(specs, db.tables, target);
    ReplaceRefusedExactly(host, specs, db, k, id, row);
    if going == {target} {
      assert going - {target} == {};
      NothingDangles(specs, db.tables, going);
    }
    if Replace(specs, db, k, id, row).Ok? {
      AgreesIfNothingElseGoes(host, specs, db, k, id, row);
      TargetDoomed(specs, db, k, id);
    }
  }

  lemma TargetDoomed(specs: seq<TableSpec>, db: Database, k: nat, id: string)
    requires ParentsFirst(specs) && k < |specs| && specs[k].table in db.tables && id in db.tables[specs[k].table]
    ensures RowRef(specs[k].table, id) in AllDoomed(specs, db.tables, RowRef(specs[k].table, id))
  {
    DoomedStep(specs, db.tables, RowRef(specs[k].table, id), k, RowRef(specs[k].table, id));
  }
}
