/**
  The database behind the SQLite adapter: one generic table of JSON documents and
  the normalized tables with their NOT NULL, UNIQUE and FOREIGN KEY constraints.
  A statement either succeeds or fails and changes nothing.
*/
module Tables {
  import opened Wrappers
  import opened Documents

  type Table = map<string, Row>

  datatype Database = Database(docs: map<(string, string), Doc>, tables: map<string, Table>)

  datatype Error = Validation | Constraint | Raised(code: int)

  datatype RowRef = RowRef(table: string, id: string)

  // Schemas

  predicate IsTable(specs: seq<TableSpec>, table: string) {
    exists k :: 0 <= k < |specs| && specs[k].table == table
  }

  /** Parents come before children: a foreign key refers to the id of an earlier table. */
  ghost predicate ForeignKeysOk(specs: seq<TableSpec>, k: nat)
    requires k < |specs|
  {
    forall fk :: fk in specs[k].foreignKeys ==>
      && fk.refColumn == "id"
      && IsTable(specs[..k], fk.refTable)
      && (exists c :: c in specs[k].columns && c.field == fk.column && c.kind == TextKind)
      // otherwise a row could be held or gone, depending on the order in which the engine runs its keys' actions
      && (fk.onDelete == Restrict ==> forall other :: other in specs[k].foreignKeys ==> other.onDelete != Cascade)
  }

  ghost predicate WellFormedSchema(specs: seq<TableSpec>) {
    && (forall i, j :: 0 <= i < j < |specs| ==>
      specs[i].table != specs[j].table && specs[i].collection != specs[j].collection)
    && (forall k :: 0 <= k < |specs| ==> ColumnsDistinct(specs[k].columns) && ForeignKeysOk(specs, k))
  }

  // Integrity

  /** A foreign-key value is NULL or the id of a row of the parent table. */
  predicate Resolves(parent: Table, v: SqlValue) {
    v == SqlNull || (v.SqlText? && v.s in parent)
  }

  /** The row has its columns' shape, no NULL where none is allowed, and resolved foreign keys. */
  ghost predicate RowOk(host: Host, spec: TableSpec, tables: map<string, Table>, row: Row) {
    && Shaped(host, spec.columns, row)
    && (forall c :: c in spec.columns && c.notNull ==> row[c.field] != SqlNull)
    && (forall fk :: fk in spec.foreignKeys ==>
          fk.refTable in tables && fk.column in row && Resolves(tables[fk.refTable], row[fk.column]))
  }

  /** The value a row has in a column; NULL where there is none. */
  function ValueAt(t: Table, id: string, field: string): SqlValue {
    if id in t && field in t[id] then t[id][field] else SqlNull
  }

  /** No two rows share a value other than NULL in a UNIQUE column. */
  ghost predicate UniqueOk(spec: TableSpec, t: Table) {
    forall c, a, b :: c in spec.columns && c.unique && a in t && b in t && a != b ==>
      ValueAt(t, a, c.field) == SqlNull || ValueAt(t, a, c.field) != ValueAt(t, b, c.field)
  }

  ghost predicate Integrity(host: Host, specs: seq<TableSpec>, db: Database) {
    && (forall t :: t in db.tables <==> IsTable(specs, t))
    && (forall k :: 0 <= k < |specs| ==> specs[k].table in db.tables && UniqueOk(specs[k], db.tables[specs[k].table]))
    && (forall k, id :: 0 <= k < |specs| && id in db.tables[specs[k].table] ==>
          RowOk(host, specs[k], db.tables, db.tables[specs[k].table][id]))
  }

  // INSERT ... ON CONFLICT(id) DO UPDATE SET each other column to its excluded value

  function FieldNames(columns: seq<ColumnSpec>): seq<string> {
    if columns == [] then [] else [columns[0].field] + FieldNames(columns[1..])
  }

  /** The columns of the INSERT. */
  function TypedColumns(spec: TableSpec): seq<string> {
    ["id"] + FieldNames(spec.columns) + ["extra"]
  }

  function WithoutId(names: seq<string>): seq<string> {
    if names == [] then [] else (if names[0] == "id" then [] else [names[0]]) + WithoutId(names[1..])
  }

  /** The columns that DO UPDATE assigns. */
  function UpdatedColumns(spec: TableSpec): seq<string> {
    WithoutId(TypedColumns(spec))
  }

  /** SET "c" = excluded."c" for each column in turn; a column the INSERT did not name is NULL there. */
  function Assigned(names: seq<string>, row: Row, excluded: Row): Row {
    if names == [] then row
    else
      var c := names[0];
      Assigned(names[1..], row[c := if c in excluded then excluded[c] else SqlNull], excluded)
  }

  /** The row that the statement leaves: the inserted one, or on a conflict the edited old one. */
  function Written(spec: TableSpec, t: Table, id: string, row: Row): Row {
    if id in t then Assigned(UpdatedColumns(spec), t[id], row) else row
  }

  lemma {:induction false} WithoutIdMembers(names: seq<string>)
    ensures forall f :: f in WithoutId(names) <==> f in names && f != "id"
  {
    if names != [] {
      WithoutIdMembers(names[1..]);
    }
  }

  lemma {:induction false} FieldNamesMembers(columns: seq<ColumnSpec>)
    ensures forall f :: f in FieldNames(columns) <==> IsColumn(columns, f)
  {
    if columns != [] {
      FieldNamesMembers(columns[1..]);
      forall f ensures IsColumn(columns, f) <==> f == columns[0].field || IsColumn(columns[1..], f) {
        assert columns[0] in columns;
        if c :| c in columns[1..] && c.field == f { assert c in columns; }
      }
    }
  }

  lemma {:induction false} AssignedValues(names: seq<string>, row: Row, excluded: Row)
    ensures forall f :: f in Assigned(names, row, excluded) <==> f in row || f in names
    ensures forall f :: f in names ==>
      Assigned(names, row, excluded)[f] == if f in excluded then excluded[f] else SqlNull
    ensures forall f :: f in row && f !in names ==> Assigned(names, row, excluded)[f] == row[f]
  {
    if names != [] {
      var c := names[0];
      AssignedValues(names[1..], row[c := if c in excluded then excluded[c] else SqlNull], excluded);
    }
  }

  /** Column by column, the update leaves the whole inserted row. */
  lemma UpdateWritesWholeRow(host: Host, spec: TableSpec, former: Row, row: Row)
    requires ColumnsDistinct(spec.columns) && Shaped(host, spec.columns, former) && Shaped(host, spec.columns, row)
    ensures Assigned(UpdatedColumns(spec), former, row) == row
  {
    var names := UpdatedColumns(spec);
    FieldNamesMembers(spec.columns);
    WithoutIdMembers(TypedColumns(spec));
    AssignedValues(names, former, row);
    assert forall f :: f in names <==> f == "extra" || IsColumn(spec.columns, f);
    assert Assigned(names, former, row).Keys == row.Keys;
  }

  predicate NotNullViolated(spec: TableSpec, row: Row) {
    exists c :: c in spec.columns && c.notNull && c.field in row && row[c.field] == SqlNull
  }

  predicate UniqueViolated(spec: TableSpec, t: Table, id: string, row: Row) {
    exists c :: c in spec.columns && c.unique && c.field in row && row[c.field] != SqlNull &&
      exists other :: other in t && other != id && ValueAt(t, other, c.field) == row[c.field]
  }

  predicate ForeignKeyViolated(spec: TableSpec, db: Database, row: Row) {
    exists fk :: fk in spec.foreignKeys && fk.column in row && fk.refTable in db.tables &&
      !Resolves(db.tables[fk.refTable], row[fk.column])
  }

  /** One upsert statement: the row is inserted, or the one with its id edited in place, unless a constraint fails. */
  function Upsert(specs: seq<TableSpec>, db: Database, k: nat, id: string, row: Row): Result<Database, Error>
    requires k < |specs| && specs[k].table in db.tables
  {
    var name, t := specs[k].table, db.tables[specs[k].table];
    var written := Written(specs[k], t, id, row);
    if || NotNullViolated(specs[k], written)
       || UniqueViolated(specs[k], t, id, written)
       || ForeignKeyViolated(specs[k], db, written)
    then Err(Constraint)
    else Ok(db.(tables := db.tables[name := t[id := written]]))
  }

  lemma WrittenIsRow(host: Host, specs: seq<TableSpec>, db: Database, k: nat, id: string, row: Row)
    requires WellFormedSchema(specs) && Integrity(host, specs, db) && k < |specs|
    requires Shaped(host, specs[k].columns, row)
    ensures Written(specs[k], db.tables[specs[k].table], id, row) == row
  {
    var t := db.tables[specs[k].table];
    if id in t {
      assert RowOk(host, specs[k], db.tables, t[id]);
      UpdateWritesWholeRow(host, specs[k], t[id], row);
    }
  }

  /** More rows never unresolve a reference. */
  lemma RowStaysOk(host: Host, spec: TableSpec, tables: map<string, Table>, more: map<string, Table>, row: Row)
    requires RowOk(host, spec, tables, row)
    requires forall t :: t in tables ==> t in more && tables[t].Keys <= more[t].Keys
    ensures RowOk(host, spec, more, row)
  {
  }

  lemma ParentIsTable(specs: seq<TableSpec>, k: nat, fk: ForeignKey)
    requires WellFormedSchema(specs) && k < |specs| && fk in specs[k].foreignKeys
    ensures IsTable(specs, fk.refTable) && fk.refTable != specs[k].table
    ensures IsColumn(specs[k].columns, fk.column)
  {
    assert ForeignKeysOk(specs, k);
    var p :| 0 <= p < |specs[..k]| && specs[..k][p].table == fk.refTable;
    assert specs[p].table == fk.refTable;
    var c :| c in specs[k].columns && c.field == fk.column && c.kind == TextKind;
  }

  lemma WriteKeepsUnique(spec: TableSpec, t: Table, id: string, row: Row)
    requires UniqueOk(spec, t) && !UniqueViolated(spec, t, id, row)
    ensures UniqueOk(spec, t[id := row])
  {
    var next := t[id := row];
    forall c, a, b | c in spec.columns && c.unique && a in next && b in next && a != b
      ensures ValueAt(next, a, c.field) == SqlNull || ValueAt(next, a, c.field) != ValueAt(next, b, c.field)
    {
      if a == id {
        assert ValueAt(next, b, c.field) == ValueAt(t, b, c.field);
      } else if b == id {
        assert ValueAt(next, a, c.field) == ValueAt(t, a, c.field);
      } else {
        assert ValueAt(next, a, c.field) == ValueAt(t, a, c.field);
        assert ValueAt(next, b, c.field) == ValueAt(t, b, c.field);
      }
    }
  }

  /** The row that an upsert lets through keeps all constraints. */
  lemma NewRowOk(host: Host, specs: seq<TableSpec>, db: Database, k: nat, id: string, row: Row)
    requires WellFormedSchema(specs) && Integrity(host, specs, db) && k < |specs|
    requires Shaped(host, specs[k].columns, row) && Upsert(specs, db, k, id, row).Ok?
    ensures RowOk(host, specs[k], db.tables, row)
    ensures !UniqueViolated(specs[k], db.tables[specs[k].table], id, row)
  {
    WrittenIsRow(host, specs, db, k, id, row);
    forall fk | fk in specs[k].foreignKeys
      ensures fk.refTable in db.tables && fk.column in row && Resolves(db.tables[fk.refTable], row[fk.column])
    {
      ParentIsTable(specs, k, fk);
    }
    assert !NotNullViolated(specs[k], row);
  }

  /** Every constraint holds after an upsert. */
  lemma UpsertKeepsIntegrity(host: Host, specs: seq<TableSpec>, db: Database, k: nat, id: string, row: Row)
    requires WellFormedSchema(specs) && Integrity(host, specs, db) && k < |specs|
    requires Shaped(host, specs[k].columns, row) && Upsert(specs, db, k, id, row).Ok?
    ensures Integrity(host, specs, Upsert(specs, db, k, id, row).value)
  {
    var name := specs[k].table;
    var next := Upsert(specs, db, k, id, row).value;
    NewRowOk(host, specs, db, k, id, row);
    WrittenIsRow(host, specs, db, k, id, row);
    forall m | 0 <= m < |specs|
      ensures UniqueOk(specs[m], next.tables[specs[m].table])
      ensures forall other :: other in next.tables[specs[m].table] ==>
        RowOk(host, specs[m], next.tables, next.tables[specs[m].table][other])
    {
      assert m != k ==> specs[m].table != name;
      if m == k { WriteKeepsUnique(specs[k], db.tables[name], id, row); }
      forall other | other in next.tables[specs[m].table]
        ensures RowOk(host, specs[m], next.tables, next.tables[specs[m].table][other])
      {
        RowStaysOk(host, specs[m], db.tables, next.tables, next.tables[specs[m].table][other]);
      }
    }
  }

  /**
    An upsert that goes through changes exactly the row with that id: every other row
    of every table, in particular every child row and every row that might share a
    UNIQUE value, is as before.
  */
  lemma UpsertChangesOneRow(host: Host, specs: seq<TableSpec>, db: Database, k: nat, id: string, row: Row)
    requires WellFormedSchema(specs) && Integrity(host, specs, db) && k < |specs|
    requires Shaped(host, specs[k].columns, row) && Upsert(specs, db, k, id, row).Ok?
    ensures var next := Upsert(specs, db, k, id, row).value;
      && next.docs == db.docs && next.tables.Keys == db.tables.Keys
      && id in next.tables[specs[k].table] && next.tables[specs[k].table][id] == row
      && (forall t, other :: t in db.tables && (t != specs[k].table || other != id) ==>
            (other in next.tables[t] <==> other in db.tables[t]) &&
            (other in db.tables[t] ==> next.tables[t][other] == db.tables[t][other]))
  {
    WrittenIsRow(host, specs, db, k, id, row);
  }

  lemma ClashBreaksUnique(spec: TableSpec, t: Table, id: string, row: Row)
    requires UniqueViolated(spec, t, id, row)
    ensures !UniqueOk(spec, t[id := row])
  {
    var next := t[id := row];
    var c, other :| c in spec.columns && c.unique && c.field in row && row[c.field] != SqlNull &&
      other in t && other != id && ValueAt(t, other, c.field) == row[c.field];
    assert ValueAt(next, id, c.field) == row[c.field] && ValueAt(next, other, c.field) == row[c.field];
  }

  lemma BadRowNotOk(host: Host, spec: TableSpec, db: Database, row: Row)
    requires NotNullViolated(spec, row) || ForeignKeyViolated(spec, db, row)
    ensures !RowOk(host, spec, db.tables, row)
  {
  }

  /**
    An upsert goes through exactly when the new row keeps its own constraints and
    clashes with no other row.
  */
  lemma UpsertRefusedExactly(host: Host, specs: seq<TableSpec>, db: Database, k: nat, id: string, row: Row)
    requires WellFormedSchema(specs) && Integrity(host, specs, db) && k < |specs|
    requires Shaped(host, specs[k].columns, row)
    ensures Upsert(specs, db, k, id, row).Ok? <==>
      RowOk(host, specs[k], db.tables, row) && UniqueOk(specs[k], db.tables[specs[k].table][id := row])
  {
    var t := db.tables[specs[k].table];
    WrittenIsRow(host, specs, db, k, id, row);
    if Upsert(specs, db, k, id, row).Ok? {
      NewRowOk(host, specs, db, k, id, row);
      WriteKeepsUnique(specs[k], t, id, row);
    } else if UniqueViolated(specs[k], t, id, row) {
      ClashBreaksUnique(specs[k], t, id, row);
    } else {
      BadRowNotOk(host, specs[k], db, row);
    }
  }
}
