/**
  DELETE on a normalized table: the row goes together with everything that refers
  to it by cascading keys, unless a restricting reference refuses the statement.
*/
module Cascade {
  import opened Wrappers
  import opened Documents
  import opened Tables

  type TableMap = map<string, Table>

  function TableAt(tables: TableMap, name: string): Table {
    if name in tables then tables[name] else map[]
  }

  predicate Stored(tables: TableMap, r: RowRef) {
    r.id in TableAt(tables, r.table)
  }

  /** The row refers, by this key, to one of the given rows. */
  predicate Refers(t: Table, id: string, fk: ForeignKey, parents: set<RowRef>) {
    var v := ValueAt(t, id, fk.column);
    v.SqlText? && RowRef(fk.refTable, v.s) in parents
  }

  predicate CascadesFrom(spec: TableSpec, t: Table, id: string, going: set<RowRef>) {
    exists fk :: fk in spec.foreignKeys && fk.onDelete == OnDelete.Cascade && Refers(t, id, fk, going)
  }

  /** The rows of one table that go: the target itself, and those that cascade from rows already going. */
  function DoomedIn(spec: TableSpec, t: Table, target: RowRef, going: set<RowRef>): set<RowRef> {
    set id | id in t && (RowRef(spec.table, id) == target || CascadesFrom(spec, t, id, going)) :: RowRef(spec.table, id)
  }

  /** One pass over the tables, parents before children, collects everything that goes. */
  function Doomed(specs: seq<TableSpec>, tables: TableMap, target: RowRef, n: nat): set<RowRef>
    requires n <= |specs|
  {
    if n == 0 then {}
    else
      var going := Doomed(specs, tables, target, n - 1);
      going + DoomedIn(specs[n - 1], TableAt(tables, specs[n - 1].table), target, going)
  }

  function AllDoomed(specs: seq<TableSpec>, tables: TableMap, target: RowRef): set<RowRef> {
    Doomed(specs, tables, target, |specs|)
  }

  /**
    A reference that does not cascade, to a row that goes: RESTRICT always counts,
    NO ACTION only from a row that stays.
  */
  predicate HeldIn(spec: TableSpec, t: Table, id: string, going: set<RowRef>) {
    exists fk :: fk in spec.foreignKeys && Refers(t, id, fk, going) &&
                 (fk.onDelete == Restrict || (fk.onDelete == NoAction && RowRef(spec.table, id) !in going))
  }

  predicate BlockedIn(spec: TableSpec, t: Table, going: set<RowRef>) {
    exists id :: id in t && HeldIn(spec, t, id, going)
  }

  predicate Blocked(specs: seq<TableSpec>, tables: TableMap, going: set<RowRef>) {
    exists k :: 0 <= k < |specs| && BlockedIn(specs[k], TableAt(tables, specs[k].table), going)
  }

  function RemoveFrom(name: string, t: Table, going: set<RowRef>): Table {
    map id | id in t && RowRef(name, id) !in going :: t[id]
  }

  function Remove(tables: TableMap, going: set<RowRef>): TableMap {
    map name | name in tables :: RemoveFrom(name, tables[name], going)
  }

  /** One DELETE statement. Deleting a row that is not there succeeds and changes nothing. */
  function Delete(specs: seq<TableSpec>, db: Database, target: RowRef): Result<Database, Error> {
    var going := AllDoomed(specs, db.tables, target);
    if Blocked(specs, db.tables, going) then Err(Constraint)
    else Ok(db.(tables := Remove(db.tables, going)))
  }

  // The independent description: chains of cascading references

  /** The child's table has a cascading key to the parent's table, and the child has the parent's id there. */
  ghost predicate CascadesBy(specs: seq<TableSpec>, tables: TableMap, parent: RowRef, child: RowRef, k: nat) {
    && k < |specs| && specs[k].table == child.table && Stored(tables, child)
    && (exists fk :: fk in specs[k].foreignKeys && fk.onDelete == OnDelete.Cascade && fk.refTable == parent.table &&
                     ValueAt(TableAt(tables, child.table), child.id, fk.column) == SqlText(parent.id))
  }

  ghost predicate CascadesTo(specs: seq<TableSpec>, tables: TableMap, parent: RowRef, child: RowRef) {
    exists k :: CascadesBy(specs, tables, parent, child, k)
  }

  /** Each row of the chain cascades to the next. */
  ghost predicate Chain(specs: seq<TableSpec>, tables: TableMap, chain: seq<RowRef>) {
    chain != [] && forall i :: 0 <= i < |chain| - 1 ==> CascadesTo(specs, tables, chain[i], chain[i + 1])
  }

  ghost predicate ChainFrom(specs: seq<TableSpec>, tables: TableMap, a: RowRef, b: RowRef, chain: seq<RowRef>) {
    Chain(specs, tables, chain) && chain[0] == a && chain[|chain| - 1] == b
  }

  ghost predicate Reaches(specs: seq<TableSpec>, tables: TableMap, a: RowRef, b: RowRef) {
    exists chain :: ChainFrom(specs, tables, a, b, chain)
  }

  // What the pass needs of the schema

  predicate TableBefore(specs: seq<TableSpec>, n: nat, name: string) {
    exists k :: 0 <= k < n && k < |specs| && specs[k].table == name
  }

  ghost predicate DistinctTables(specs: seq<TableSpec>) {
    forall i, j :: 0 <= i < j < |specs| ==> specs[i].table != specs[j].table
  }

  ghost predicate ParentsFirst(specs: seq<TableSpec>) {
    && DistinctTables(specs)
    && (forall k :: 0 <= k < |specs| ==> ParentsBefore(specs, k))
  }

  ghost predicate ParentsBefore(specs: seq<TableSpec>, k: nat)
    requires k < |specs|
  {
    forall fk :: fk in specs[k].foreignKeys ==> TableBefore(specs, k, fk.refTable)
  }

  lemma SchemaHasParentsFirst(specs: seq<TableSpec>)
    requires WellFormedSchema(specs)
    ensures ParentsFirst(specs)
  {
    forall k | 0 <= k < |specs| ensures ParentsBefore(specs, k) {
      forall fk | fk in specs[k].foreignKeys ensures TableBefore(specs, k, fk.refTable) {
        assert ForeignKeysOk(specs, k);
        var p :| 0 <= p < |specs[..k]| && specs[..k][p].table == fk.refTable;
        assert specs[p].table == fk.refTable;
      }
    }
  }

  // The pass computes the closure

  lemma {:induction false} DoomedRows(specs: seq<TableSpec>, tables: TableMap, target: RowRef, n: nat)
    requires n <= |specs|
    ensures forall r :: r in Doomed(specs, tables, target, n) ==> Stored(tables, r) && TableBefore(specs, n, r.table)
  {
    if n > 0 {
      DoomedRows(specs, tables, target, n - 1);
      forall r | r in Doomed(specs, tables, target, n)
        ensures Stored(tables, r) && TableBefore(specs, n, r.table)
      {
        if r !in Doomed(specs, tables, target, n - 1) {
          assert specs[n - 1].table == r.table;
        }
      }
    }
  }

  lemma {:induction false} DoomedGrows(specs: seq<TableSpec>, tables: TableMap, target: RowRef, m: nat, n: nat)
    requires m <= n <= |specs|
    ensures Doomed(specs, tables, target, m) <= Doomed(specs, tables, target, n)
  {
    if m < n {
      DoomedGrows(specs, tables, target, m, n - 1);
    }
  }

  /** What the pass adds at table k are rows of table k. */
  lemma AddedRows(specs: seq<TableSpec>, tables: TableMap, target: RowRef, k: nat, going: set<RowRef>, r: RowRef)
    requires k < |specs|
    ensures r in DoomedIn(specs[k], TableAt(tables, specs[k].table), target, going) <==>
      && r.table == specs[k].table && Stored(tables, r)
      && (r == target || CascadesFrom(specs[k], TableAt(tables, r.table), r.id, going))
  {
  }

  /** The pass decides about a table once and for all when it comes to it. */
  lemma {:induction false} DoomedSettled(
      specs: seq<TableSpec>, tables: TableMap, target: RowRef, k: nat, n: nat, r: RowRef)
    requires DistinctTables(specs) && k < n <= |specs| && r.table == specs[k].table
    ensures r in Doomed(specs, tables, target, n) <==>
      Stored(tables, r) &&
      (r == target || CascadesFrom(specs[k], TableAt(tables, r.table), r.id, Doomed(specs, tables, target, k)))
  {
    AddedRows(specs, tables, target, n - 1, Doomed(specs, tables, target, n - 1), r);
    if n == k + 1 {
      DoomedRows(specs, tables, target, k);
      assert !TableBefore(specs, k, r.table);
    } else {
      DoomedSettled(specs, tables, target, k, n - 1, r);
    }
  }

  /** A row cascades from a set of rows when it cascades from one of them. */
  lemma CascadesFromOne(spec: TableSpec, t: Table, id: string, going: set<RowRef>)
    ensures CascadesFrom(spec, t, id, going) <==> exists p :: p in going && CascadesFrom(spec, t, id, {p})
  {
    if CascadesFrom(spec, t, id, going) {
      var fk :| fk in spec.foreignKeys && fk.onDelete == OnDelete.Cascade && Refers(t, id, fk, going);
      var p := RowRef(fk.refTable, ValueAt(t, id, fk.column).s);
      assert Refers(t, id, fk, {p});
      assert p in going && CascadesFrom(spec, t, id, {p});
    }
    if p :| p in going && CascadesFrom(spec, t, id, {p}) {
      var fk :| fk in spec.foreignKeys && fk.onDelete == OnDelete.Cascade && Refers(t, id, fk, {p});
      assert Refers(t, id, fk, going);
    }
  }

  /** The parent that a row cascades from lives in an earlier table. */
  lemma ParentEarlier(specs: seq<TableSpec>, t: Table, id: string, k: nat, p: RowRef) returns (i: nat)
    requires ParentsFirst(specs) && k < |specs| && CascadesFrom(specs[k], t, id, {p})
    ensures i < k && specs[i].table == p.table
  {
    var fk :| fk in specs[k].foreignKeys && fk.onDelete == OnDelete.Cascade && Refers(t, id, fk, {p});
    assert ParentsBefore(specs, k) && TableBefore(specs, k, fk.refTable);
    i :| 0 <= i < k && i < |specs| && specs[i].table == fk.refTable;
  }

  /** A row of an earlier table is settled before later tables are looked at. */
  lemma SettledBefore(specs: seq<TableSpec>, tables: TableMap, target: RowRef, i: nat, k: nat, p: RowRef)
    requires DistinctTables(specs) && i < k <= |specs| && p.table == specs[i].table
    ensures p in Doomed(specs, tables, target, k) <==> p in AllDoomed(specs, tables, target)
  {
    DoomedSettled(specs, tables, target, i, k, p);
    DoomedSettled(specs, tables, target, i, |specs|, p);
  }

  /** A row cascades from a single row when it has that row's id in a cascading key to its table. */
  lemma CascadesFromParent(specs: seq<TableSpec>, tables: TableMap, p: RowRef, r: RowRef, k: nat)
    requires k < |specs| && specs[k].table == r.table && Stored(tables, r)
    ensures CascadesFrom(specs[k], TableAt(tables, r.table), r.id, {p}) <==> CascadesBy(specs, tables, p, r, k)
  {
    var t := TableAt(tables, r.table);
    if CascadesFrom(specs[k], t, r.id, {p}) {
      var fk :| fk in specs[k].foreignKeys && fk.onDelete == OnDelete.Cascade && Refers(t, r.id, fk, {p});
      assert fk.refTable == p.table && ValueAt(t, r.id, fk.column) == SqlText(p.id);
    }
    if CascadesBy(specs, tables, p, r, k) {
      var fk :| fk in specs[k].foreignKeys && fk.onDelete == OnDelete.Cascade && fk.refTable == p.table &&
        ValueAt(t, r.id, fk.column) == SqlText(p.id);
      assert Refers(t, r.id, fk, {p});
    }
  }

  /** A stored row goes exactly when it is the target or cascades from a row that goes. */
  lemma DoomedStep(specs: seq<TableSpec>, tables: TableMap, target: RowRef, k: nat, r: RowRef)
    requires ParentsFirst(specs) && k < |specs| && r.table == specs[k].table && Stored(tables, r)
    ensures r in AllDoomed(specs, tables, target) <==>
      r == target || exists p :: p in AllDoomed(specs, tables, target) && CascadesBy(specs, tables, p, r, k)
  {
    var all, before := AllDoomed(specs, tables, target), Doomed(specs, tables, target, k);
    var t := TableAt(tables, r.table);
    DoomedSettled(specs, tables, target, k, |specs|, r);
    CascadesFromOne(specs[k], t, r.id, before);
    if r in all && r != target {
      var p :| p in before && CascadesFrom(specs[k], t, r.id, {p});
      DoomedGrows(specs, tables, target, k, |specs|);
      CascadesFromParent(specs, tables, p, r, k);
      assert p in all && CascadesBy(specs, tables, p, r, k);
    }
    if p :| p in all && CascadesBy(specs, tables, p, r, k) {
      CascadesFromParent(specs, tables, p, r, k);
      var i := ParentEarlier(specs, t, r.id, k, p);
      SettledBefore(specs, tables, target, i, k, p);
      assert p in before && CascadesFrom(specs[k], t, r.id, {p});
    }
  }

  /** The schema position of a row's table. */
  lemma PositionOf(specs: seq<TableSpec>, name: string) returns (k: nat)
    requires TableBefore(specs, |specs|, name)
    ensures k < |specs| && specs[k].table == name
  {
    k :| 0 <= k < |specs| && k < |specs| && specs[k].table == name;
  }

  lemma {:induction false} ChainIsDoomed(specs: seq<TableSpec>, tables: TableMap, target: RowRef, chain: seq<RowRef>)
    requires ParentsFirst(specs) && Stored(tables, target) && TableBefore(specs, |specs|, target.table)
    requires Chain(specs, tables, chain) && chain[0] == target
    ensures chain[|chain| - 1] in AllDoomed(specs, tables, target)
  {
    var n := |chain| - 1;
    if n == 0 {
      var k := PositionOf(specs, target.table);
      DoomedStep(specs, tables, target, k, target);
    } else {
      var parent, child := chain[n - 1], chain[n];
      ChainIsDoomed(specs, tables, target, chain[..n]);
      assert CascadesTo(specs, tables, chain[n - 1], chain[n - 1 + 1]);
      var k :| CascadesBy(specs, tables, parent, child, k);
      DoomedStep(specs, tables, target, k, child);
    }
  }

  lemma {:induction false} DoomedHasChain(specs: seq<TableSpec>, tables: TableMap, target: RowRef, k: nat, r: RowRef)
    requires ParentsFirst(specs) && k < |specs| && r.table == specs[k].table
    requires r in AllDoomed(specs, tables, target)
    ensures Reaches(specs, tables, target, r)
    decreases k
  {
    DoomedRows(specs, tables, target, |specs|);
    DoomedStep(specs, tables, target, k, r);
    if r == target {
      assert ChainFrom(specs, tables, target, r, [r]);
    } else {
      var p :| p in AllDoomed(specs, tables, target) && CascadesBy(specs, tables, p, r, k);
      CascadesFromParent(specs, tables, p, r, k);
      var i := ParentEarlier(specs, TableAt(tables, r.table), r.id, k, p);
      DoomedHasChain(specs, tables, target, i, p);
      var chain :| ChainFrom(specs, tables, target, p, chain);
      assert CascadesTo(specs, tables, p, r);
      assert ChainFrom(specs, tables, target, r, chain + [r]);
    }
  }

  /** Main result: the single pass finds exactly the rows that a chain of cascading references leads to. */
  lemma DoomedIsClosure(specs: seq<TableSpec>, tables: TableMap, target: RowRef, r: RowRef)
    requires ParentsFirst(specs) && Stored(tables, target) && TableBefore(specs, |specs|, target.table)
    ensures r in AllDoomed(specs, tables, target) <==> Reaches(specs, tables, target, r)
  {
    if r in AllDoomed(specs, tables, target) {
      DoomedRows(specs, tables, target, |specs|);
      var k := PositionOf(specs, r.table);
      DoomedHasChain(specs, tables, target, k, r);
    }
    if Reaches(specs, tables, target, r) {
      var chain :| ChainFrom(specs, tables, target, r, chain);
      ChainIsDoomed(specs, tables, target, chain);
    }
  }

  /** A chain visits tables in schema order, so cascading ends: no chain is longer than the schema. */
  lemma {:induction false} ChainIsBounded(specs: seq<TableSpec>, tables: TableMap, chain: seq<RowRef>) returns (k: nat)
    requires ParentsFirst(specs) && Chain(specs, tables, chain) && TableBefore(specs, |specs|, chain[0].table)
    ensures |chain| <= k + 1 <= |specs| && specs[k].table == chain[|chain| - 1].table
  {
    var n := |chain| - 1;
    if n == 0 {
      k := PositionOf(specs, chain[0].table);
    } else {
      var p := ChainIsBounded(specs, tables, chain[..n]);
      assert CascadesTo(specs, tables, chain[n - 1], chain[n - 1 + 1]);
      k :| CascadesBy(specs, tables, chain[n - 1], chain[n], k);
      CascadesFromParent(specs, tables, chain[n - 1], chain[n], k);
      var i := ParentEarlier(specs, TableAt(tables, chain[n].table), chain[n].id, k, chain[n - 1]);
      assert i == p;
    }
  }

  // The statement as a whole

  lemma RemovedRows(tables: TableMap, going: set<RowRef>)
    ensures Remove(tables, going).Keys == tables.Keys
    ensures forall r :: Stored(Remove(tables, going), r) <==> Stored(tables, r) && r !in going
    ensures forall r :: Stored(Remove(tables, going), r) ==>
      TableAt(Remove(tables, going), r.table)[r.id] == TableAt(tables, r.table)[r.id]
  {
  }

  lemma TargetGoes(specs: seq<TableSpec>, db: Database, k: nat, id: string)
    requires ParentsFirst(specs) && k < |specs| && Delete(specs, db, RowRef(specs[k].table, id)).Ok?
    ensures !Stored(Delete(specs, db, RowRef(specs[k].table, id)).value.tables, RowRef(specs[k].table, id))
  {
    var target := RowRef(specs[k].table, id);
    RemovedRows(db.tables, AllDoomed(specs, db.tables, target));
    if Stored(db.tables, target) {
      DoomedStep(specs, db.tables, target, k, target);
    }
  }

  lemma RemoveKeepsUnique(spec: TableSpec, t: Table, going: set<RowRef>)
    requires UniqueOk(spec, t)
    ensures UniqueOk(spec, RemoveFrom(spec.table, t, going))
  {
    var u := RemoveFrom(spec.table, t, going);
    assert forall id, f :: id in u ==> ValueAt(u, id, f) == ValueAt(t, id, f);
  }

  /** A row that stays and refers to a row that goes would have blocked the delete or would go too. */
  lemma StayingRowRefers(specs: seq<TableSpec>, tables: TableMap, target: RowRef, k: nat, id: string, fk: ForeignKey)
    requires ParentsFirst(specs) && k < |specs| && fk in specs[k].foreignKeys
    requires !Blocked(specs, tables, AllDoomed(specs, tables, target))
    requires id in TableAt(tables, specs[k].table) && RowRef(specs[k].table, id) !in AllDoomed(specs, tables, target)
    ensures !Refers(TableAt(tables, specs[k].table), id, fk, AllDoomed(specs, tables, target))
  {
    var going, t, r := AllDoomed(specs, tables, target), TableAt(tables, specs[k].table), RowRef(specs[k].table, id);
    assert !BlockedIn(specs[k], t, going);
    assert !HeldIn(specs[k], t, id, going);
    DoomedStep(specs, tables, target, k, r);
    CascadesFromOne(specs[k], t, id, going);
    forall p { CascadesFromParent(specs, tables, p, r, k); }
  }

  lemma StayingRowOk(host: Host, specs: seq<TableSpec>, db: Database, target: RowRef, k: nat, id: string)
    requires ParentsFirst(specs) && Delete(specs, db, target).Ok?
    requires k < |specs| && specs[k].table in db.tables && id in db.tables[specs[k].table]
    requires RowRef(specs[k].table, id) !in AllDoomed(specs, db.tables, target)
    requires RowOk(host, specs[k], db.tables, db.tables[specs[k].table][id])
    ensures RowOk(host, specs[k], Delete(specs, db, target).value.tables, db.tables[specs[k].table][id])
  {
    var going := AllDoomed(specs, db.tables, target);
    var next := Delete(specs, db, target).value.tables;
    var t := db.tables[specs[k].table];
    RemovedRows(db.tables, going);
    forall fk | fk in specs[k].foreignKeys
      ensures fk.refTable in next && fk.column in t[id] && Resolves(next[fk.refTable], t[id][fk.column])
    {
      StayingRowRefers(specs, db.tables, target, k, id, fk);
      if t[id][fk.column] != SqlNull {
        assert Stored(db.tables, RowRef(fk.refTable, t[id][fk.column].s));
      }
    }
  }

  lemma DeleteKeepsIntegrity(host: Host, specs: seq<TableSpec>, db: Database, target: RowRef)
    requires WellFormedSchema(specs) && Integrity(host, specs, db) && Delete(specs, db, target).Ok?
    ensures Integrity(host, specs, Delete(specs, db, target).value)
  {
    var going := AllDoomed(specs, db.tables, target);
    var next := Delete(specs, db, target).value;
    SchemaHasParentsFirst(specs);
    RemovedRows(db.tables, going);
    forall k | 0 <= k < |specs|
      ensures specs[k].table in next.tables && UniqueOk(specs[k], next.tables[specs[k].table])
    {
      RemoveKeepsUnique(specs[k], db.tables[specs[k].table], going);
    }
    forall k, id | 0 <= k < |specs| && id in next.tables[specs[k].table]
      ensures RowOk(host, specs[k], next.tables, next.tables[specs[k].table][id])
    {
      assert Stored(next.tables, RowRef(specs[k].table, id));
      StayingRowOk(host, specs, db, target, k, id);
    }
  }

  /** Row y holds a reference to x that does not cascade: RESTRICT, or NO ACTION from a row that stays itself. */
  ghost predicate HeldBy(specs: seq<TableSpec>, tables: TableMap, target: RowRef, x: RowRef, y: RowRef) {
    exists k, fk :: HeldByKey(specs, tables, target, x, y, k, fk)
  }

  ghost predicate HeldByKey(
      specs: seq<TableSpec>, tables: TableMap, target: RowRef, x: RowRef, y: RowRef, k: nat, fk: ForeignKey)
  {
    && k < |specs| && specs[k].table == y.table && Stored(tables, y)
    && fk in specs[k].foreignKeys && fk.refTable == x.table
    && ValueAt(TableAt(tables, y.table), y.id, fk.column) == SqlText(x.id)
    && (fk.onDelete == Restrict || (fk.onDelete == NoAction && !Reaches(specs, tables, target, y)))
  }

  ghost predicate Refused(specs: seq<TableSpec>, tables: TableMap, target: RowRef) {
    exists x, y :: Reaches(specs, tables, target, x) && HeldBy(specs, tables, target, x, y)
  }

  lemma BlockedIsRefused(specs: seq<TableSpec>, tables: TableMap, target: RowRef)
    requires ParentsFirst(specs) && Stored(tables, target) && TableBefore(specs, |specs|, target.table)
    requires Blocked(specs, tables, AllDoomed(specs, tables, target))
    ensures Refused(specs, tables, target)
  {
    var going := AllDoomed(specs, tables, target);
    var k :| 0 <= k < |specs| && BlockedIn(specs[k], TableAt(tables, specs[k].table), going);
    var t := TableAt(tables, specs[k].table);
    var id :| id in t && HeldIn(specs[k], t, id, going);
    var fk :| fk in specs[k].foreignKeys && Refers(t, id, fk, going) &&
      (fk.onDelete == Restrict || (fk.onDelete == NoAction && RowRef(specs[k].table, id) !in going));
    var x, y := RowRef(fk.refTable, ValueAt(t, id, fk.column).s), RowRef(specs[k].table, id);
    DoomedIsClosure(specs, tables, target, x);
    DoomedIsClosure(specs, tables, target, y);
    assert HeldByKey(specs, tables, target, x, y, k, fk);
    assert HeldBy(specs, tables, target, x, y);
  }

  lemma RefusedIsBlocked(specs: seq<TableSpec>, tables: TableMap, target: RowRef)
    requires ParentsFirst(specs) && Stored(tables, target) && TableBefore(specs, |specs|, target.table)
    requires Refused(specs, tables, target)
    ensures Blocked(specs, tables, AllDoomed(specs, tables, target))
  {
    var going := AllDoomed(specs, tables, target);
    var x, y :| Reaches(specs, tables, target, x) && HeldBy(specs, tables, target, x, y);
    var k: nat, fk :| HeldByKey(specs, tables, target, x, y, k, fk);
    DoomedIsClosure(specs, tables, target, x);
    DoomedIsClosure(specs, tables, target, y);
    var t := TableAt(tables, specs[k].table);
    assert Refers(t, y.id, fk, going);
    assert HeldIn(specs[k], t, y.id, going);
    assert BlockedIn(specs[k], t, going);
  }

  /**
    Main result: a delete of a stored row is refused, changing nothing, exactly when
    some row of its cascade closure is held by a reference that does not cascade;
    otherwise it removes exactly that closure, leaves every other row and every
    document alone, and all constraints still hold.
  */
  lemma DeleteIsExact(host: Host, specs: seq<TableSpec>, db: Database, target: RowRef)
    requires WellFormedSchema(specs) && Integrity(host, specs, db) && Stored(db.tables, target)
    ensures Delete(specs, db, target).Err? <==> Refused(specs, db.tables, target)
    ensures Delete(specs, db, target).Ok? ==>
      var next := Delete(specs, db, target).value;
      && Integrity(host, specs, next) && next.docs == db.docs
      && (forall r :: Stored(next.tables, r) <==> Stored(db.tables, r) && !Reaches(specs, db.tables, target, r))
      && (forall r :: Stored(next.tables, r) ==>
        TableAt(next.tables, r.table)[r.id] == TableAt(db.tables, r.table)[r.id])
  {
    SchemaHasParentsFirst(specs);
    TargetTable(host, specs, db, target);
    if Delete(specs, db, target).Ok? {
      DeleteKeepsIntegrity(host, specs, db, target);
      RemovedRows(db.tables, AllDoomed(specs, db.tables, target));
      forall r ensures r in AllDoomed(specs, db.tables, target) <==> Reaches(specs, db.tables, target, r) {
        DoomedIsClosure(specs, db.tables, target, r);
      }
      if Refused(specs, db.tables, target) { RefusedIsBlocked(specs, db.tables, target); }
    } else {
      BlockedIsRefused(specs, db.tables, target);
    }
  }

  lemma TargetTable(host: Host, specs: seq<TableSpec>, db: Database, target: RowRef)
    requires Integrity(host, specs, db) && Stored(db.tables, target)
    ensures TableBefore(specs, |specs|, target.table)
  {
    assert IsTable(specs, target.table);
  }

  /** Deleting a row that is not stored changes nothing. */
  lemma DeleteOfAbsentRow(specs: seq<TableSpec>, db: Database, target: RowRef)
    requires !Stored(db.tables, target)
    ensures Delete(specs, db, target) == Ok(db)
  {
    NothingDoomed(specs, db.tables, target, |specs|);
    forall name | name in db.tables ensures Remove(db.tables, {})[name] == db.tables[name] {
      assert RemoveFrom(name, db.tables[name], {}) == db.tables[name];
    }
    assert Remove(db.tables, {}) == db.tables;
  }

  lemma {:induction false} NothingDoomed(specs: seq<TableSpec>, tables: TableMap, target: RowRef, n: nat)
    requires !Stored(tables, target) && n <= |specs|
    ensures Doomed(specs, tables, target, n) == {}
  {
    if n > 0 {
      NothingDoomed(specs, tables, target, n - 1);
    }
  }
}
