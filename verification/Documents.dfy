/**
  Documents, table schemas, and the mapping between a document and the row of a
  normalized table: promoted fields become columns, all other fields are kept in
  one JSON column.
*/
module Documents {
  import opened Wrappers

  /** An integer times a power of two. */
  datatype Dyadic = Dyadic(mantissa: int, exponent: int)

  function PowerOfTwo(n: nat): int {
    if n == 0 then 1 else 2 * PowerOfTwo(n - 1)
  }

  const MANTISSA_BOUND := 0x20_0000_0000_0000

  /**
    A finite double of the host language: zero, or an odd mantissa of at most 53 bits
    whose top bit stays below 2^1024, so that no number has two representations.
  */
  predicate IsDouble(d: Dyadic) {
    || d == Dyadic(0, 0)
    || (&& d.mantissa % 2 == 1 && -MANTISSA_BOUND < d.mantissa < MANTISSA_BOUND
        && -1074 <= d.exponent <= 1023
        && (d.exponent > 971 ==> -PowerOfTwo(1024 - d.exponent) < d.mantissa < PowerOfTwo(1024 - d.exponent)))
  }

  type Number = d: Dyadic | IsDouble(d) witness Dyadic(0, 0)

  const ZERO: Number := Dyadic(0, 0)
  const ONE: Number := Dyadic(1, 0)

  datatype Json =
    | JNull
    | JBool(b: bool)
    | JNum(n: Number)
    | JStr(s: string)
    | JArr(items: seq<Json>)
    | JObj(fields: map<string, Json>)

  /** A document is an object; a stored one has a non-empty string under "id". */
  type Doc = map<string, Json>

  datatype SqlValue = SqlNull | SqlNum(n: Number) | SqlText(s: string)

  datatype ColumnKind = TextKind | IntegerKind | BooleanKind | JsonKind

  datatype ColumnSpec = ColumnSpec(field: string, kind: ColumnKind, notNull: bool, unique: bool, optional: bool)

  /** NoAction is what a foreign key without an ON DELETE clause gets. */
  datatype OnDelete = Cascade | Restrict | NoAction

  datatype ForeignKey = ForeignKey(column: string, refTable: string, refColumn: string, onDelete: OnDelete)

  datatype TableSpec = TableSpec(
    collection: string,
    table: string,
    columns: seq<ColumnSpec>,
    foreignKeys: seq<ForeignKey>)

  /** The columns of a row other than its id, which is the key it is stored under. */
  type Row = map<string, SqlValue>

  /**
    The conversions of the host language that the mapping relies on: JSON text and
    back, Number(v) (None is NaN, which is stored as NULL) and String(v).
  */
  datatype Host = Host(
    stringify: Json -> string,
    parse: string -> Json,
    number: Json -> Option<Number>,
    text: Json -> string)

  /** Parsing undoes stringifying, as it does for JSON values whose numbers are finite doubles. */
  ghost predicate Sound(host: Host) {
    forall j :: host.parse(host.stringify(j)) == j
  }

  predicate Truthy(v: Json) {
    match v
    case JNull => false
    case JBool(b) => b
    case JNum(n) => n != ZERO
    case JStr(s) => s != ""
    case _ => true
  }

  predicate HasKind(kind: ColumnKind, v: SqlValue) {
    match v
    case SqlNull => true
    case SqlNum(_) => kind == IntegerKind || kind == BooleanKind
    case SqlText(_) => kind == TextKind || kind == JsonKind
  }

  /** A missing field and null are both stored as NULL, and so is what is not a number in an integer column. */
  function ToStore(host: Host, kind: ColumnKind, v: Json): (r: SqlValue)
    ensures HasKind(kind, r)
    ensures r == SqlNull <==> v == JNull || (kind == IntegerKind && !v.JNum? && host.number(v) == None)
    ensures kind == BooleanKind && v != JNull ==>
      r == SqlNum(if v in {JBool(false), JNum(ZERO), JStr("")} then ZERO else ONE)
  {
    if v == JNull then SqlNull
    else match kind
      case BooleanKind => SqlNum(if Truthy(v) then ONE else ZERO)
      case JsonKind => SqlText(host.stringify(v))
      case IntegerKind =>
        if v.JNum? then SqlNum(v.n)
        else (match host.number(v) case Some(n) => SqlNum(n) case None => SqlNull)
      case TextKind => SqlText(if v.JStr? then v.s else host.text(v))
  }

  function FromStore(host: Host, kind: ColumnKind, v: SqlValue): Json
    requires HasKind(kind, v)
  {
    if v == SqlNull then JNull
    else match kind
      case BooleanKind => JBool(v.n != ZERO)
      case JsonKind => host.parse(v.s)
      case IntegerKind => JNum(v.n)
      case TextKind => JStr(v.s)
  }

  function FieldOr(doc: Doc, field: string): Json {
    if field in doc then doc[field] else JNull
  }

  /** Column names are distinct and none is one of the two built-in ones. */
  ghost predicate ColumnsDistinct(columns: seq<ColumnSpec>) {
    && (forall i, j :: 0 <= i < j < |columns| ==> columns[i].field != columns[j].field)
    && (forall c :: c in columns ==> c.field != "id" && c.field != "extra")
  }

  predicate IsColumn(columns: seq<ColumnSpec>, field: string) {
    exists c :: c in columns && c.field == field
  }

  // The mapping, as the mapper's loops compute it

  /** Everything that is neither the id nor a column. */
  function Extra(columns: seq<ColumnSpec>, doc: Doc): Doc {
    map f | f in doc && f != "id" && !IsColumn(columns, f) :: doc[f]
  }

  ghost predicate IsRowOf(host: Host, columns: seq<ColumnSpec>, doc: Doc, row: Row) {
    && (forall f :: f in row <==> f == "extra" || IsColumn(columns, f))
    && (forall c :: c in columns ==> c.field in row && row[c.field] == ToStore(host, c.kind, FieldOr(doc, c.field)))
    && "extra" in row && row["extra"] == SqlText(host.stringify(JObj(Extra(columns, doc))))
  }

  /** The column of a name. */
  function ColumnOf(columns: seq<ColumnSpec>, field: string): (c: ColumnSpec)
    requires IsColumn(columns, field)
    ensures c in columns && c.field == field
  {
    if columns[0].field == field then columns[0] else ColumnOf(columns[1..], field)
  }

  /** The row of a document as one value. */
  function RowOf(host: Host, columns: seq<ColumnSpec>, doc: Doc): (row: Row)
    requires ColumnsDistinct(columns)
    ensures IsRowOf(host, columns, doc, row)
  {
    var fields := set c | c in columns :: c.field;
    SameColumn(columns);
    assert forall f :: f in fields <==> IsColumn(columns, f);
    (map f | f in fields :: ToStore(host, ColumnOf(columns, f).kind, FieldOr(doc, f)))
      ["extra" := SqlText(host.stringify(JObj(Extra(columns, doc))))]
  }

  lemma SameColumn(columns: seq<ColumnSpec>)
    requires ColumnsDistinct(columns)
    ensures forall c, d :: c in columns && d in columns && c.field == d.field ==> c == d
  {
    forall c, d | c in columns && d in columns && c.field == d.field ensures c == d {
      var i :| 0 <= i < |columns| && columns[i] == c;
      var j :| 0 <= j < |columns| && columns[j] == d;
    }
  }

  lemma RowIsUnique(host: Host, columns: seq<ColumnSpec>, doc: Doc, row: Row)
    requires ColumnsDistinct(columns) && IsRowOf(host, columns, doc, row)
    ensures row == RowOf(host, columns, doc)
  {
    var other := RowOf(host, columns, doc);
    forall f | f in row ensures row[f] == other[f] {
      if f != "extra" {
        var c :| c in columns && c.field == f;
      }
    }
  }

  method DocToRow(host: Host, spec: TableSpec, doc: Doc) returns (row: Row)
    requires ColumnsDistinct(spec.columns)
    ensures IsRowOf(host, spec.columns, doc, row)
  {
    row := map[];
    for i := 0 to |spec.columns|
      invariant forall f :: f in row <==> IsColumn(spec.columns[..i], f)
      invariant forall c :: c in spec.columns[..i] ==>
        c.field in row && row[c.field] == ToStore(host, c.kind, FieldOr(doc, c.field))
    {
      var c := spec.columns[i];
      assert spec.columns[..i + 1] == spec.columns[..i] + [c];
      row := row[c.field := ToStore(host, c.kind, FieldOr(doc, c.field))];
      ColumnAdded(spec.columns, i);
    }
    assert spec.columns[..|spec.columns|] == spec.columns;
    row := row["extra" := SqlText(host.stringify(JObj(Extra(spec.columns, doc))))];
  }

  lemma ColumnAdded(columns: seq<ColumnSpec>, i: nat)
    requires i < |columns| && ColumnsDistinct(columns)
    ensures forall f :: IsColumn(columns[..i + 1], f) <==> f == columns[i].field || IsColumn(columns[..i], f)
    ensures forall c :: c in columns[..i] ==> c.field != columns[i].field
  {
    assert columns[..i + 1] == columns[..i] + [columns[i]];
    assert columns[i] in columns[..i + 1];
    forall f ensures IsColumn(columns[..i + 1], f) <==> f == columns[i].field || IsColumn(columns[..i], f) {
      if c :| c in columns[..i] && c.field == f {
        assert c in columns[..i + 1];
      } else if c :| c in columns[..i + 1] && c.field == f {
        assert c in columns[..i] || c == columns[i];
      }
    }
    forall c | c in columns[..i] ensures c.field != columns[i].field {
      var j :| 0 <= j < i && columns[j] == c;
    }
  }

  /** A row of the table: exactly its columns, each with a value of its kind, and JSON object text in extra. */
  ghost predicate Shaped(host: Host, columns: seq<ColumnSpec>, row: Row) {
    && (forall f :: f in row <==> f == "extra" || IsColumn(columns, f))
    && (forall c :: c in columns ==> c.field in row && HasKind(c.kind, row[c.field]))
    && "extra" in row && row["extra"].SqlText? && host.parse(row["extra"].s).JObj?
  }

  lemma RowIsShaped(host: Host, columns: seq<ColumnSpec>, doc: Doc, row: Row)
    requires Sound(host) && IsRowOf(host, columns, doc, row)
    ensures Shaped(host, columns, row)
  {
  }

  /** A column whose NULL means that the field was absent. */
  predicate Omitted(c: ColumnSpec, row: Row)
    requires c.field in row
  {
    c.optional && row[c.field] == SqlNull
  }

  /** What each column gives back. */
  ghost predicate IsDocOf(host: Host, columns: seq<ColumnSpec>, id: string, row: Row, doc: Doc)
    requires Shaped(host, columns, row)
  {
    var extra := host.parse(row["extra"].s).fields;
    && (forall f :: f in doc <==>
          f == "id" || f in extra || exists c :: c in columns && c.field == f && !Omitted(c, row))
    && (forall f :: f in extra ==> doc[f] == extra[f])
    && ("id" !in extra ==> doc["id"] == JStr(id))
    && (forall c :: c in columns && !Omitted(c, row) && c.field !in extra ==>
          doc[c.field] == FromStore(host, c.kind, row[c.field]))
  }

  method RowToDoc(host: Host, spec: TableSpec, id: string, row: Row) returns (doc: Doc)
    requires ColumnsDistinct(spec.columns) && Shaped(host, spec.columns, row)
    ensures IsDocOf(host, spec.columns, id, row, doc)
  {
    doc := map["id" := JStr(id)];
    for i := 0 to |spec.columns|
      invariant forall f :: f in doc <==>
        f == "id" || exists c :: c in spec.columns[..i] && c.field == f && !Omitted(c, row)
      invariant doc["id"] == JStr(id)
      invariant forall c :: c in spec.columns[..i] && !Omitted(c, row) ==>
        doc[c.field] == FromStore(host, c.kind, row[c.field])
    {
      var c := spec.columns[i];
      assert spec.columns[..i + 1] == spec.columns[..i] + [c];
      ColumnAdded(spec.columns, i);
      if Omitted(c, row) {
        continue;
      }
      doc := doc[c.field := FromStore(host, c.kind, row[c.field])];
    }
    assert spec.columns[..|spec.columns|] == spec.columns;
    doc := doc + host.parse(row["extra"].s).fields;
  }

  // Losslessness

  predicate KindMatches(kind: ColumnKind, v: Json) {
    match kind
    case BooleanKind => v.JBool?
    case IntegerKind => v.JNum?
    case TextKind => v.JStr?
    case JsonKind => true
  }

  /** A value survives its conversion exactly when it is null or of the column's kind. */
  lemma ConvertsBackExactly(host: Host, kind: ColumnKind, v: Json)
    requires Sound(host)
    ensures FromStore(host, kind, ToStore(host, kind, v)) == v <==> v == JNull || KindMatches(kind, v)
  {
    assert host.parse(host.stringify(v)) == v;
  }

  /** The column can hold what the document has there: absent only if optional, null only if not, else of its kind. */
  predicate Holds(c: ColumnSpec, doc: Doc) {
    if c.field !in doc then c.optional
    else if doc[c.field] == JNull then !c.optional
    else KindMatches(c.kind, doc[c.field])
  }

  /**
    A document comes back from its row unchanged exactly when every column of the
    table can hold its field; fields without a column never matter.
  */
  lemma RoundTripExactly(host: Host, columns: seq<ColumnSpec>, id: string, doc: Doc, row: Row, back: Doc)
    requires Sound(host) && ColumnsDistinct(columns)
    requires "id" in doc && doc["id"] == JStr(id)
    requires IsRowOf(host, columns, doc, row) && Shaped(host, columns, row) && IsDocOf(host, columns, id, row, back)
    ensures back == doc <==> forall c :: c in columns ==> Holds(c, doc)
  {
    var extra := Extra(columns, doc);
    assert host.parse(row["extra"].s) == JObj(extra);
    forall c | c in columns
      ensures Holds(c, doc) <==>
        (c.field in back <==> c.field in doc) && (c.field in doc ==> back[c.field] == doc[c.field])
    {
      ColumnRoundTrip(host, columns, id, doc, row, back, c);
    }
    if forall c :: c in columns ==> Holds(c, doc) {
      assert back.Keys == doc.Keys by {
        forall f ensures f in back <==> f in doc {
          if IsColumn(columns, f) {
            var c :| c in columns && c.field == f;
          }
        }
      }
      forall f | f in doc ensures back[f] == doc[f] {
        if IsColumn(columns, f) {
          var c :| c in columns && c.field == f;
        } else if f != "id" {
          assert f in extra;
        }
      }
    }
  }

  lemma ColumnRoundTrip(host: Host, columns: seq<ColumnSpec>, id: string, doc: Doc, row: Row, back: Doc, c: ColumnSpec)
    requires Sound(host) && ColumnsDistinct(columns) && c in columns
    requires IsRowOf(host, columns, doc, row) && Shaped(host, columns, row) && IsDocOf(host, columns, id, row, back)
    ensures Holds(c, doc) <==>
      (c.field in back <==> c.field in doc) && (c.field in doc ==> back[c.field] == doc[c.field])
  {
    var extra := Extra(columns, doc);
    assert host.parse(row["extra"].s) == JObj(extra);
    assert c.field !in extra;
    assert c.field in back <==> !Omitted(c, row) by {
      SameColumn(columns);
    }
    var v := FieldOr(doc, c.field);
    assert row[c.field] == ToStore(host, c.kind, v);
  }
}
