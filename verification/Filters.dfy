/**
  Equality filters: the clauses that a query builds for a normalized table and for
  the generic document table, and when the two answer alike.
*/
module Filters {
  import opened Wrappers
  import opened Documents
  import opened Tables
  import opened Paging

  datatype Scalar = Num(n: Number) | Str(s: string) | Bool(b: bool)

  const FIVE: Number := Dyadic(5, 0)

  /** The entries of the filter object. */
  type Where = seq<(string, Scalar)>

  predicate SafeChar(c: char) {
    'A' <= c <= 'Z' || 'a' <= c <= 'z' || '0' <= c <= '9' || c == '_'
  }

  predicate SafeField(field: string) {
    field != "" && forall i :: 0 <= i < |field| ==> SafeChar(field[i])
  }

  const UPPER := "ABCDEFGHIJKLMNOPQRSTUVWXYZ"
  const LOWER := "abcdefghijklmnopqrstuvwxyz"
  const DIGITS := "0123456789"

  lemma UpperPositions()
    ensures |UPPER| == 26 && forall i :: 0 <= i < 26 ==> UPPER[i] as int == 'A' as int + i
  {
  }

  lemma LowerPositions()
    ensures |LOWER| == 26 && forall i :: 0 <= i < 26 ==> LOWER[i] as int == 'a' as int + i
  {
  }

  lemma DigitPositions()
    ensures |DIGITS| == 10 && forall i :: 0 <= i < 10 ==> DIGITS[i] as int == '0' as int + i
  {
  }

  lemma InRange(letters: string, first: char, c: char)
    requires forall i :: 0 <= i < |letters| ==> letters[i] as int == first as int + i
    ensures c in letters <==> first as int <= c as int < first as int + |letters|
  {
    if first as int <= c as int < first as int + |letters| {
      assert letters[c as int - first as int] == c;
    }
  }

  /** The characters that a field name may have, one by one. */
  lemma SafeCharExactly(c: char)
    ensures SafeChar(c) <==> c in UPPER || c in LOWER || c in DIGITS || c == '_'
  {
    UpperPositions();
    LowerPositions();
    DigitPositions();
    InRange(UPPER, 'A', c);
    InRange(LOWER, 'a', c);
    InRange(DIGITS, '0', c);
  }

  function AsJson(v: Scalar): Json {
    match v
    case Num(n) => JNum(n)
    case Str(s) => JStr(s)
    case Bool(b) => JBool(b)
  }

  /** A bound parameter: booleans become 1 and 0. */
  function Bind(v: Scalar): SqlValue {
    match v
    case Num(n) => SqlNum(n)
    case Str(s) => SqlText(s)
    case Bool(b) => SqlNum(if b then ONE else ZERO)
  }

  /** A JSON value in SQL: null is NULL, booleans are 1 and 0, arrays and objects are their text. */
  function Extracted(host: Host, j: Json): SqlValue {
    match j
    case JNull => SqlNull
    case JBool(b) => SqlNum(if b then ONE else ZERO)
    case JNum(n) => SqlNum(n)
    case JStr(s) => SqlText(s)
    case other => SqlText(host.stringify(other))
  }

  /** json_extract: a missing field is NULL. */
  function JsonExtract(host: Host, doc: Doc, field: string): SqlValue {
    Extracted(host, FieldOr(doc, field))
  }

  /** SQL equality: NULL equals nothing. */
  predicate SqlEq(a: SqlValue, b: SqlValue) {
    a != SqlNull && a == b
  }

  function ExtraOf(host: Host, row: Row): Doc {
    if "extra" in row && row["extra"].SqlText? && host.parse(row["extra"].s).JObj?
    then host.parse(row["extra"].s).fields
    else map[]
  }

  // What a filter means

  predicate TypedFieldMatches(host: Host, columns: seq<ColumnSpec>, field: string, v: Scalar, id: string, row: Row) {
    if field == "id" then id == (if v.Str? then v.s else host.text(AsJson(v)))
    else if IsColumn(columns, field) then
      field in row && SqlEq(row[field], ToStore(host, ColumnOf(columns, field).kind, AsJson(v)))
    else SqlEq(JsonExtract(host, ExtraOf(host, row), field), Bind(v))
  }

  predicate TypedMatches(host: Host, columns: seq<ColumnSpec>, where: Where, id: string, row: Row) {
    forall i :: 0 <= i < |where| ==> TypedFieldMatches(host, columns, where[i].0, where[i].1, id, row)
  }

  predicate DocFieldMatches(host: Host, field: string, v: Scalar, doc: Doc) {
    SqlEq(JsonExtract(host, doc, field), Bind(v))
  }

  predicate DocMatches(host: Host, where: Where, doc: Doc) {
    forall i :: 0 <= i < |where| ==> DocFieldMatches(host, where[i].0, where[i].1, doc)
  }

  predicate AllSafe(where: Where) {
    forall i :: 0 <= i < |where| ==> SafeField(where[i].0)
  }

  // The clauses the queries build

  datatype Clause =
    | IdIs(id: string)
    | ColumnIs(field: string, value: SqlValue)
    | ExtraIs(field: string, value: SqlValue)
    | DocIs(field: string, value: SqlValue)
    | IdAfter(after: string)

  predicate HoldsForRow(host: Host, c: Clause, id: string, row: Row) {
    match c
    case IdIs(i) => id == i
    case ColumnIs(f, v) => f in row && SqlEq(row[f], v)
    case ExtraIs(f, v) => SqlEq(JsonExtract(host, ExtraOf(host, row), f), v)
    case DocIs(_, _) => false
    case IdAfter(a) => IsAfter(id, Some(a))
  }

  predicate HoldsForDoc(host: Host, c: Clause, id: string, doc: Doc) {
    match c
    case DocIs(f, v) => SqlEq(JsonExtract(host, doc, f), v)
    case IdAfter(a) => IsAfter(id, Some(a))
    case _ => false
  }

  predicate AllHoldForRow(host: Host, clauses: seq<Clause>, id: string, row: Row) {
    forall c :: c in clauses ==> HoldsForRow(host, c, id, row)
  }

  predicate AllHoldForDoc(host: Host, clauses: seq<Clause>, id: string, doc: Doc) {
    forall c :: c in clauses ==> HoldsForDoc(host, c, id, doc)
  }

  /** The loop over the filter of a normalized table; the first unsafe field name fails the query. */
  method TypedClauses(host: Host, columns: seq<ColumnSpec>, where: Where, after: Option<string>)
    returns (r: Result<seq<Clause>, Error>)
    ensures r.Err? <==> !AllSafe(where)
    ensures r.Err? ==> r.error == Validation
    ensures r.Ok? ==> forall id, row ::
      AllHoldForRow(host, r.value, id, row) <==> TypedMatches(host, columns, where, id, row) && IsAfter(id, after)
  {
    var clauses: seq<Clause> := [];
    for i := 0 to |where|
      invariant AllSafe(where[..i])
      invariant forall id, row :: AllHoldForRow(host, clauses, id, row) <==>
        TypedMatches(host, columns, where[..i], id, row)
    {
      var (field, value) := where[i];
      assert where[..i + 1] == where[..i] + [where[i]];
      if !SafeField(field) {
        return Err(Validation);
      }
      var clause :=
        if field == "id" then IdIs(if value.Str? then value.s else host.text(AsJson(value)))
        else if IsColumn(columns, field) then
          ColumnIs(field, ToStore(host, ColumnOf(columns, field).kind, AsJson(value)))
        else ExtraIs(field, Bind(value));
      forall id, row
        ensures AllHoldForRow(host, clauses + [clause], id, row) <==>
          TypedMatches(host, columns, where[..i + 1], id, row)
      {
        RowClauseAdded(host, clauses, clause, id, row);
        TypedMatchesOneMore(host, columns, where, i, id, row);
      }
      clauses := clauses + [clause];
    }
    assert where[..|where|] == where;
    if after.Some? {
      forall id, row { RowClauseAdded(host, clauses, IdAfter(after.value), id, row); }
      clauses := clauses + [IdAfter(after.value)];
    }
    r := Ok(clauses);
  }

  lemma RowClauseAdded(host: Host, clauses: seq<Clause>, c: Clause, id: string, row: Row)
    ensures AllHoldForRow(host, clauses + [c], id, row) <==>
      AllHoldForRow(host, clauses, id, row) && HoldsForRow(host, c, id, row)
  {
    assert forall d :: d in clauses + [c] <==> d in clauses || d == c;
  }

  lemma TypedMatchesOneMore(host: Host, columns: seq<ColumnSpec>, where: Where, i: nat, id: string, row: Row)
    requires i < |where|
    ensures TypedMatches(host, columns, where[..i + 1], id, row) <==>
      TypedMatches(host, columns, where[..i], id, row) &&
        TypedFieldMatches(host, columns, where[i].0, where[i].1, id, row)
  {
    assert where[..i + 1] == where[..i] + [where[i]];
    if TypedMatches(host, columns, where[..i + 1], id, row) {
      assert forall j :: 0 <= j < i ==> where[..i][j] == where[..i + 1][j];
      assert where[..i + 1][i] == where[i];
    }
  }

  /** The loop over the filter of the document table. */
  method DocClauses(host: Host, where: Where, after: Option<string>) returns (r: Result<seq<Clause>, Error>)
    ensures r.Err? <==> !AllSafe(where)
    ensures r.Err? ==> r.error == Validation
    ensures r.Ok? ==> forall id, doc ::
      AllHoldForDoc(host, r.value, id, doc) <==> DocMatches(host, where, doc) && IsAfter(id, after)
  {
    var clauses: seq<Clause> := [];
    for i := 0 to |where|
      invariant AllSafe(where[..i])
      invariant forall id, doc :: AllHoldForDoc(host, clauses, id, doc) <==> DocMatches(host, where[..i], doc)
    {
      var (field, value) := where[i];
      assert where[..i + 1] == where[..i] + [where[i]];
      if !SafeField(field) {
        return Err(Validation);
      }
      var clause := DocIs(field, Bind(value));
      forall id, doc
        ensures AllHoldForDoc(host, clauses + [clause], id, doc) <==> DocMatches(host, where[..i + 1], doc)
      {
        DocClauseAdded(host, clauses, clause, id, doc);
        DocMatchesOneMore(host, where, i, doc);
      }
      clauses := clauses + [clause];
    }
    assert where[..|where|] == where;
    if after.Some? {
      forall id, doc { DocClauseAdded(host, clauses, IdAfter(after.value), id, doc); }
      clauses := clauses + [IdAfter(after.value)];
    }
    r := Ok(clauses);
  }

  lemma DocClauseAdded(host: Host, clauses: seq<Clause>, c: Clause, id: string, doc: Doc)
    ensures AllHoldForDoc(host, clauses + [c], id, doc) <==>
      AllHoldForDoc(host, clauses, id, doc) && HoldsForDoc(host, c, id, doc)
  {
    assert forall d :: d in clauses + [c] <==> d in clauses || d == c;
  }

  lemma DocMatchesOneMore(host: Host, where: Where, i: nat, doc: Doc)
    requires i < |where|
    ensures DocMatches(host, where[..i + 1], doc) <==>
      DocMatches(host, where[..i], doc) && DocFieldMatches(host, where[i].0, where[i].1, doc)
  {
    assert where[..i + 1] == where[..i] + [where[i]];
    if DocMatches(host, where[..i + 1], doc) {
      assert forall j :: 0 <= j < i ==> where[..i][j] == where[..i + 1][j];
      assert where[..i + 1][i] == where[i];
    }
  }

  // Where both tables answer alike

  /** A stored document that its table holds without loss. */
  predicate Held(columns: seq<ColumnSpec>, id: string, doc: Doc) {
    id != "" && "id" in doc && doc["id"] == JStr(id) && forall c :: c in columns ==> Holds(c, doc)
  }

  /** The filter finds the same held documents in the normalized table as in the document table. */
  ghost predicate AnswersAlike(host: Host, columns: seq<ColumnSpec>, where: Where)
    requires ColumnsDistinct(columns)
  {
    forall id, doc :: Held(columns, id, doc) ==>
      (TypedMatches(host, columns, where, id, RowOf(host, columns, doc)) <==> DocMatches(host, where, doc))
  }

  predicate IsCompound(j: Json) {
    j.JArr? || j.JObj?
  }

  /** The text is what some array or object is written as. */
  predicate IsCompoundText(host: Host, s: string) {
    IsCompound(host.parse(s)) && host.stringify(host.parse(s)) == s
  }

  /** A filter value that a column of this kind and a JSON field compare with alike. */
  predicate ColumnAgrees(host: Host, kind: ColumnKind, v: Scalar) {
    match kind
    case TextKind => v.Str?
    case IntegerKind => ToStore(host, kind, AsJson(v)) == Bind(v) || (v.Str? && host.number(AsJson(v)) == None)
    case BooleanKind => v.Bool? || v == Num(ZERO) || v == Num(ONE)
    case JsonKind =>
      match v
      case Num(n) => n != ZERO && n != ONE
      case Str(s) => !IsCompoundText(host, s)
      case Bool(_) => false
  }

  predicate ClauseAgrees(host: Host, columns: seq<ColumnSpec>, field: string, v: Scalar) {
    if field == "id" then v.Str? || host.text(AsJson(v)) == ""
    else if IsColumn(columns, field) then ColumnAgrees(host, ColumnOf(columns, field).kind, v)
    else true
  }

  /** No row of the normalized table matches the clause. */
  predicate FindsNoRow(host: Host, columns: seq<ColumnSpec>, field: string, v: Scalar) {
    if field == "id" then (if v.Str? then v.s else host.text(AsJson(v))) == ""
    else IsColumn(columns, field) && ToStore(host, ColumnOf(columns, field).kind, AsJson(v)) == SqlNull
  }

  /** No document with the columns' types matches the clause in the document table. */
  predicate FindsNoDoc(columns: seq<ColumnSpec>, field: string, v: Scalar) {
    if field == "id" then !v.Str? || v.s == ""
    else if !IsColumn(columns, field) then false
    else match ColumnOf(columns, field).kind
      case TextKind => !v.Str?
      case IntegerKind => v.Str?
      case BooleanKind => v.Str? || (v.Num? && v.n != ZERO && v.n != ONE)
      case JsonKind => false
  }

  /**
    What a caller can check before the query: each clause agrees, or both tables are
    bound to find nothing.
  */
  predicate FilterAgrees(host: Host, columns: seq<ColumnSpec>, where: Where) {
    || (forall i :: 0 <= i < |where| ==> ClauseAgrees(host, columns, where[i].0, where[i].1))
    || ((exists i :: 0 <= i < |where| && FindsNoRow(host, columns, where[i].0, where[i].1)) &&
        (exists i :: 0 <= i < |where| && FindsNoDoc(columns, where[i].0, where[i].1)))
  }

  // One clause on one value

  predicate RowValueMatches(host: Host, columns: seq<ColumnSpec>, field: string, v: Scalar, j: Json) {
    if field == "id" then j == JStr(if v.Str? then v.s else host.text(AsJson(v)))
    else if IsColumn(columns, field) then
      var kind := ColumnOf(columns, field).kind;
      SqlEq(ToStore(host, kind, j), ToStore(host, kind, AsJson(v)))
    else SqlEq(Extracted(host, j), Bind(v))
  }

  predicate DocValueMatches(host: Host, v: Scalar, j: Json) {
    SqlEq(Extracted(host, j), Bind(v))
  }

  /** What a held document can have there other than nothing. */
  predicate Fits(columns: seq<ColumnSpec>, field: string, j: Json) {
    if field == "id" then j.JStr? && j.s != ""
    else IsColumn(columns, field) ==> j != JNull && KindMatches(ColumnOf(columns, field).kind, j)
  }

  /** A clause on a held document depends on that one field only. */
  lemma ClauseOnValue(host: Host, columns: seq<ColumnSpec>, field: string, v: Scalar, id: string, doc: Doc)
    requires Sound(host) && ColumnsDistinct(columns) && Held(columns, id, doc)
    ensures TypedFieldMatches(host, columns, field, v, id, RowOf(host, columns, doc)) <==>
      RowValueMatches(host, columns, field, v, FieldOr(doc, field))
    ensures DocFieldMatches(host, field, v, doc) <==> DocValueMatches(host, v, FieldOr(doc, field))
    ensures FieldOr(doc, field) == JNull || Fits(columns, field, FieldOr(doc, field))
  {
    var row := RowOf(host, columns, doc);
    if field != "id" {
      if IsColumn(columns, field) {
        var c := ColumnOf(columns, field);
        assert Holds(c, doc) && row[field] == ToStore(host, c.kind, FieldOr(doc, field));
      } else {
        assert host.parse(row["extra"].s) == JObj(Extra(columns, doc));
        assert FieldOr(Extra(columns, doc), field) == FieldOr(doc, field);
      }
    }
  }

  lemma JsonValueAgrees(host: Host, v: Scalar, j: Json)
    requires Sound(host) && ColumnAgrees(host, JsonKind, v)
    ensures SqlEq(ToStore(host, JsonKind, j), ToStore(host, JsonKind, AsJson(v))) <==> DocValueMatches(host, v, j)
  {
    assert host.parse(host.stringify(j)) == j && host.parse(host.stringify(AsJson(v))) == AsJson(v);
  }

  /** An agreeing clause answers alike on every value. */
  lemma AgreesOnValue(host: Host, columns: seq<ColumnSpec>, field: string, v: Scalar, j: Json)
    requires Sound(host) && ClauseAgrees(host, columns, field, v) && (j == JNull || Fits(columns, field, j))
    ensures RowValueMatches(host, columns, field, v, j) <==> DocValueMatches(host, v, j)
  {
    if field != "id" && IsColumn(columns, field) && ColumnOf(columns, field).kind == JsonKind {
      JsonValueAgrees(host, v, j);
    }
  }

  /** A value of a JSON column on which the tables differ. */
  lemma JsonValueDiffers(host: Host, v: Scalar) returns (j: Json)
    requires Sound(host) && !ColumnAgrees(host, JsonKind, v)
    ensures j != JNull
    ensures SqlEq(ToStore(host, JsonKind, j), ToStore(host, JsonKind, AsJson(v))) != DocValueMatches(host, v, j)
  {
    match v
    case Num(n) => j := JBool(n == ONE);
    case Bool(b) => j := JNum(if b then ONE else ZERO);
    case Str(s) => j := host.parse(s);
    assert host.parse(host.stringify(j)) == j && host.parse(host.stringify(AsJson(v))) == AsJson(v);
  }

  /** A disagreeing clause differs on some value that a document can have. */
  lemma DiffersOnValue(host: Host, columns: seq<ColumnSpec>, field: string, v: Scalar) returns (j: Json)
    requires Sound(host) && !ClauseAgrees(host, columns, field, v)
    ensures Fits(columns, field, j) && RowValueMatches(host, columns, field, v, j) != DocValueMatches(host, v, j)
  {
    if field == "id" {
      j := JStr(host.text(AsJson(v)));
    } else {
      match ColumnOf(columns, field).kind
      case TextKind => j := JStr(host.text(AsJson(v)));
      case IntegerKind =>
        var bound := ToStore(host, IntegerKind, AsJson(v));
        j := JNum(if bound.SqlNum? then bound.n else Bind(v).n);
      case BooleanKind => j := JBool(Truthy(AsJson(v)));
      case JsonKind => j := JsonValueDiffers(host, v);
    }
  }

  /** A value that the clause finds in the normalized table. */
  lemma RowValueFound(host: Host, columns: seq<ColumnSpec>, field: string, v: Scalar) returns (j: Json)
    requires !FindsNoRow(host, columns, field, v)
    ensures Fits(columns, field, j) && RowValueMatches(host, columns, field, v, j)
  {
    if field == "id" {
      j := JStr(if v.Str? then v.s else host.text(AsJson(v)));
    } else if IsColumn(columns, field) {
      var bound := ToStore(host, ColumnOf(columns, field).kind, AsJson(v));
      match ColumnOf(columns, field).kind
      case TextKind => j := JStr(bound.s);
      case IntegerKind => j := JNum(bound.n);
      case BooleanKind => j := JBool(bound.n == ONE);
      case JsonKind => j := AsJson(v);
    } else {
      j := AsJson(v);
    }
  }

  /** A value that the clause finds in the document table. */
  lemma DocValueFound(host: Host, columns: seq<ColumnSpec>, field: string, v: Scalar) returns (j: Json)
    requires !FindsNoDoc(columns, field, v)
    ensures Fits(columns, field, j) && DocValueMatches(host, v, j)
  {
    j := AsJson(v);
    if field != "id" && IsColumn(columns, field) {
      match ColumnOf(columns, field).kind
      case TextKind =>
      case IntegerKind => j := JNum(Bind(v).n);
      case BooleanKind => j := JBool(Bind(v).n == ONE);
      case JsonKind =>
    }
  }

  /** Never is never. */
  lemma FindsNothing(host: Host, columns: seq<ColumnSpec>, field: string, v: Scalar, j: Json)
    requires j == JNull || Fits(columns, field, j)
    requires field == "id" ==> j != JNull
    ensures FindsNoRow(host, columns, field, v) ==> !RowValueMatches(host, columns, field, v, j)
    ensures FindsNoDoc(columns, field, v) ==> !DocValueMatches(host, v, j)
  {
  }

  // Documents with given values

  function Default(kind: ColumnKind): Json {
    match kind
    case TextKind => JStr("")
    case IntegerKind => JNum(ZERO)
    case BooleanKind => JBool(false)
    case JsonKind => JBool(false)
  }

  function Defaults(columns: seq<ColumnSpec>): Doc {
    var fields := set c | c in columns :: c.field;
    (map f | f in fields ::
      if IsColumn(columns, f) then Default(ColumnOf(columns, f).kind) else JNull)["id" := JStr("a")]
  }

  /** A document with these values where the filter looks. */
  function Filled(columns: seq<ColumnSpec>, where: Where, values: seq<Json>): Doc
    requires |values| == |where|
  {
    if where == [] then Defaults(columns)
    else
      var n := |where| - 1;
      Filled(columns, where[..n], values[..n])[where[n].0 := values[n]]
  }

  /** The keys of the filter object. */
  ghost predicate DistinctFields(where: Where) {
    forall i, j :: 0 <= i < j < |where| ==> where[i].0 != where[j].0
  }

  ghost predicate AllFit(columns: seq<ColumnSpec>, where: Where, values: seq<Json>) {
    |values| == |where| && forall i :: 0 <= i < |where| ==> Fits(columns, where[i].0, values[i])
  }

  lemma DefaultFits(columns: seq<ColumnSpec>, c: ColumnSpec)
    requires ColumnsDistinct(columns) && c in columns
    ensures c.field in Defaults(columns) && Fits(columns, c.field, Defaults(columns)[c.field])
  {
    assert IsColumn(columns, c.field);
    assert c.field in (set d | d in columns :: d.field);
    assert Defaults(columns)[c.field] == Default(ColumnOf(columns, c.field).kind);
  }

  lemma DefaultsFit(columns: seq<ColumnSpec>)
    requires ColumnsDistinct(columns)
    ensures "id" in Defaults(columns) && Fits(columns, "id", Defaults(columns)["id"])
    ensures forall c :: c in columns ==>
      c.field in Defaults(columns) && Fits(columns, c.field, Defaults(columns)[c.field])
  {
    forall c | c in columns
      ensures c.field in Defaults(columns) && Fits(columns, c.field, Defaults(columns)[c.field])
    {
      DefaultFits(columns, c);
    }
  }

  lemma {:induction false} FilledFits(columns: seq<ColumnSpec>, where: Where, values: seq<Json>)
    requires ColumnsDistinct(columns) && DistinctFields(where) && AllFit(columns, where, values)
    ensures var doc := Filled(columns, where, values);
      && (forall i :: 0 <= i < |where| ==> where[i].0 in doc && doc[where[i].0] == values[i])
      && "id" in doc && Fits(columns, "id", doc["id"])
      && (forall c :: c in columns ==> c.field in doc && Fits(columns, c.field, doc[c.field]))
  {
    if where == [] {
      DefaultsFit(columns);
    } else {
      var n := |where| - 1;
      FilledFits(columns, where[..n], values[..n]);
      var before := Filled(columns, where[..n], values[..n]);
      forall i | 0 <= i < n ensures before[where[i].0] == values[i] {
        assert where[..n][i] == where[i] && values[..n][i] == values[i];
      }
      assert Fits(columns, where[n].0, values[n]);
    }
  }

  /** A held document that has these values, and what the filter makes of it. */
  lemma FilledAnswers(
      host: Host, columns: seq<ColumnSpec>, where: Where, values: seq<Json>) returns (id: string, doc: Doc)
    requires Sound(host) && ColumnsDistinct(columns) && DistinctFields(where) && AllFit(columns, where, values)
    ensures Held(columns, id, doc)
    ensures TypedMatches(host, columns, where, id, RowOf(host, columns, doc)) <==>
      forall i :: 0 <= i < |where| ==> RowValueMatches(host, columns, where[i].0, where[i].1, values[i])
    ensures DocMatches(host, where, doc) <==>
      forall i :: 0 <= i < |where| ==> DocValueMatches(host, where[i].1, values[i])
  {
    FilledFits(columns, where, values);
    doc := Filled(columns, where, values);
    id := doc["id"].s;
    forall c | c in columns ensures Holds(c, doc) {
      SameColumn(columns);
      assert IsColumn(columns, c.field) && ColumnOf(columns, c.field) == c;
    }
    forall i | 0 <= i < |where|
      ensures TypedFieldMatches(host, columns, where[i].0, where[i].1, id, RowOf(host, columns, doc)) <==>
        RowValueMatches(host, columns, where[i].0, where[i].1, values[i])
      ensures DocFieldMatches(host, where[i].0, where[i].1, doc) <==> DocValueMatches(host, where[i].1, values[i])
    {
      ClauseOnValue(host, columns, where[i].0, where[i].1, id, doc);
    }
  }

  // Whole filters

  lemma AgreementSuffices(host: Host, columns: seq<ColumnSpec>, where: Where, id: string, doc: Doc)
    requires Sound(host) && ColumnsDistinct(columns) && Held(columns, id, doc) && FilterAgrees(host, columns, where)
    ensures TypedMatches(host, columns, where, id, RowOf(host, columns, doc)) <==> DocMatches(host, where, doc)
  {
    forall i | 0 <= i < |where|
      ensures ClauseAgrees(host, columns, where[i].0, where[i].1) ==>
        (TypedFieldMatches(host, columns, where[i].0, where[i].1, id, RowOf(host, columns, doc)) <==>
         DocFieldMatches(host, where[i].0, where[i].1, doc))
      ensures FindsNoRow(host, columns, where[i].0, where[i].1) ==>
        !TypedFieldMatches(host, columns, where[i].0, where[i].1, id, RowOf(host, columns, doc))
      ensures FindsNoDoc(columns, where[i].0, where[i].1) ==> !DocFieldMatches(host, where[i].0, where[i].1, doc)
    {
      var field, v, j := where[i].0, where[i].1, FieldOr(doc, where[i].0);
      ClauseOnValue(host, columns, field, v, id, doc);
      FindsNothing(host, columns, field, v, j);
      if ClauseAgrees(host, columns, field, v) {
        AgreesOnValue(host, columns, field, v, j);
      }
    }
  }

  lemma RowValuesFound(host: Host, columns: seq<ColumnSpec>, where: Where) returns (values: seq<Json>)
    requires forall i :: 0 <= i < |where| ==> !FindsNoRow(host, columns, where[i].0, where[i].1)
    ensures AllFit(columns, where, values)
    ensures forall i :: 0 <= i < |where| ==> RowValueMatches(host, columns, where[i].0, where[i].1, values[i])
  {
    values := [];
    for n := 0 to |where|
      invariant |values| == n
      invariant forall i :: 0 <= i < n ==> Fits(columns, where[i].0, values[i])
      invariant forall i :: 0 <= i < n ==> RowValueMatches(host, columns, where[i].0, where[i].1, values[i])
    {
      var j := RowValueFound(host, columns, where[n].0, where[n].1);
      values := values + [j];
    }
  }

  lemma DocValuesFound(host: Host, columns: seq<ColumnSpec>, where: Where) returns (values: seq<Json>)
    requires forall i :: 0 <= i < |where| ==> !FindsNoDoc(columns, where[i].0, where[i].1)
    ensures AllFit(columns, where, values)
    ensures forall i :: 0 <= i < |where| ==> DocValueMatches(host, where[i].1, values[i])
  {
    values := [];
    for n := 0 to |where|
      invariant |values| == n
      invariant forall i :: 0 <= i < n ==> Fits(columns, where[i].0, values[i])
      invariant forall i :: 0 <= i < n ==> DocValueMatches(host, where[i].1, values[i])
    {
      var j := DocValueFound(host, columns, where[n].0, where[n].1);
      values := values + [j];
    }
  }

  /** With every other clause satisfied in both tables, the one value decides both answers. */
  lemma OneValueDecides(host: Host, columns: seq<ColumnSpec>, where: Where, values: seq<Json>, i: nat, j: Json)
    requires |values| == |where| && i < |where|
    requires forall k :: 0 <= k < |where| ==> RowValueMatches(host, columns, where[k].0, where[k].1, values[k])
    requires forall k :: 0 <= k < |where| ==> DocValueMatches(host, where[k].1, values[k])
    ensures (forall k :: 0 <= k < |where| ==>
      RowValueMatches(host, columns, where[k].0, where[k].1, values[i := j][k])) <==>
      RowValueMatches(host, columns, where[i].0, where[i].1, j)
    ensures (forall k :: 0 <= k < |where| ==> DocValueMatches(host, where[k].1, values[i := j][k])) <==>
      DocValueMatches(host, where[i].1, j)
  {
    assert values[i := j][i] == j;
  }

  ghost predicate AnsweredDifferently(host: Host, columns: seq<ColumnSpec>, where: Where, id: string, doc: Doc)
    requires ColumnsDistinct(columns)
  {
    && Held(columns, id, doc)
    && TypedMatches(host, columns, where, id, RowOf(host, columns, doc)) != DocMatches(host, where, doc)
  }

  /** The normalized table finds nothing, and the document table something. */
  lemma OnlyDocFound(host: Host, columns: seq<ColumnSpec>, where: Where, i: nat) returns (id: string, doc: Doc)
    requires Sound(host) && ColumnsDistinct(columns) && DistinctFields(where)
    requires i < |where| && FindsNoRow(host, columns, where[i].0, where[i].1)
    requires forall k :: 0 <= k < |where| ==> !FindsNoDoc(columns, where[k].0, where[k].1)
    ensures AnsweredDifferently(host, columns, where, id, doc)
  {
    var values := DocValuesFound(host, columns, where);
    id, doc := FilledAnswers(host, columns, where, values);
    FindsNothing(host, columns, where[i].0, where[i].1, values[i]);
  }

  /** One clause disagrees, and the normalized table can find something. */
  lemma OneClauseDiffers(host: Host, columns: seq<ColumnSpec>, where: Where, i: nat) returns (id: string, doc: Doc)
    requires Sound(host) && ColumnsDistinct(columns) && DistinctFields(where)
    requires i < |where| && !ClauseAgrees(host, columns, where[i].0, where[i].1)
    requires forall k :: 0 <= k < |where| ==> !FindsNoRow(host, columns, where[k].0, where[k].1)
    ensures AnsweredDifferently(host, columns, where, id, doc)
  {
    var values := RowValuesFound(host, columns, where);
    id, doc := FilledAnswers(host, columns, where, values);
    if DocMatches(host, where, doc) {
      var j := DiffersOnValue(host, columns, where[i].0, where[i].1);
      OneValueDecides(host, columns, where, values, i, j);
      id, doc := FilledAnswers(host, columns, where, values[i := j]);
    }
  }

  /** A filter that does not agree is answered differently for some held document. */
  lemma DisagreementShows(host: Host, columns: seq<ColumnSpec>, where: Where) returns (id: string, doc: Doc)
    requires Sound(host) && ColumnsDistinct(columns) && DistinctFields(where) && !FilterAgrees(host, columns, where)
    ensures AnsweredDifferently(host, columns, where, id, doc)
  {
    if i :| 0 <= i < |where| && FindsNoRow(host, columns, where[i].0, where[i].1) {
      id, doc := OnlyDocFound(host, columns, where, i);
    } else {
      var i :| 0 <= i < |where| && !ClauseAgrees(host, columns, where[i].0, where[i].1);
      id, doc := OneClauseDiffers(host, columns, where, i);
    }
  }

  /**
    Main result: a filter is answered alike for all documents that the table holds
    without loss if and only if each of its clauses agrees or both tables are bound
    to find nothing.
  */
  lemma TablesAnswerAlike(host: Host, columns: seq<ColumnSpec>, where: Where)
    requires Sound(host) && ColumnsDistinct(columns) && DistinctFields(where)
    ensures AnswersAlike(host, columns, where) <==> FilterAgrees(host, columns, where)
  {
    if FilterAgrees(host, columns, where) {
      forall id, doc | Held(columns, id, doc)
        ensures TypedMatches(host, columns, where, id, RowOf(host, columns, doc)) <==> DocMatches(host, where, doc)
      {
        AgreementSuffices(host, columns, where, id, doc);
      }
    } else {
      var id, doc := DisagreementShows(host, columns, where);
    }
  }

  /** For instance, the number 5 finds the text it prints as in a text column, and no text in the document table. */
  lemma IllTypedFilterDiffers(host: Host)
    requires Sound(host)
    ensures !AnswersAlike(host, [ColumnSpec("title", TextKind, false, false, false)], [("title", Num(FIVE))])
  {
    var c := ColumnSpec("title", TextKind, false, false, false);
    var where: Where := [("title", Num(FIVE))];
    assert c in [c] && "title" != "id" && "title" != "extra";
    assert IsColumn([c], "title") && ColumnOf([c], "title") == c;
    assert where[0].0 == "title" && !ClauseAgrees(host, [c], where[0].0, where[0].1);
    TablesAnswerAlike(host, [c], where);
  }
}
