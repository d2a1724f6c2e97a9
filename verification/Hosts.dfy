/**
  A serializer of JSON values that a parser can undo, so that what the storage
  adapter relies on in its host language can be met. Every piece of text it writes
  shows where it ends.
*/
module Hosts {
  import opened Wrappers
  import opened Documents
  import opened Ordering

  function Tally(n: nat): string {
    if n == 0 then "." else "|" + Tally(n - 1)
  }

  function Signed(n: int): string {
    if n < 0 then "-" + Tally(-n) else "+" + Tally(n)
  }

  function Quoted(s: string): string {
    Tally(|s|) + s
  }

  /** The text of a value; the fields of an object in the order of their names. */
  function Encode(j: Json): string
    decreases j, 1
  {
    match j
    case JNull => "n"
    case JBool(b) => if b then "t" else "f"
    case JNum(n) => "#" + (Signed(n.mantissa) + Signed(n.exponent))
    case JStr(s) => "s" + Quoted(s)
    case JArr(items) => "a" + (Tally(|items|) + EncodeItems(items))
    case JObj(fields) => "o" + (Tally(|Names(j)|) + EncodeFields(j, Names(j)))
  }

  function Names(j: Json): (names: seq<string>)
    requires j.JObj?
    ensures forall k :: k in names <==> k in j.fields
  {
    SortedIsAscending(j.fields.Keys);
    Sorted(j.fields.Keys)
  }

  function EncodeItems(items: seq<Json>): string
    decreases items, 0
  {
    if items == [] then "" else Encode(items[0]) + EncodeItems(items[1..])
  }

  function EncodeFields(j: Json, names: seq<string>): string
    requires j.JObj? && forall k :: k in names ==> k in j.fields
    decreases j, 0, |names|
  {
    if names == [] then "" else Quoted(names[0]) + (Encode(j.fields[names[0]]) + EncodeFields(j, names[1..]))
  }

  // Each piece of text shows where it ends

  lemma {:induction false} TallyEnds(m: nat, n: nat, x: string, y: string)
    requires Tally(m) + x == Tally(n) + y
    ensures m == n && x == y
  {
    var s, t := Tally(m) + x, Tally(n) + y;
    assert s[0] == t[0];
    assert s[1..] == (if m == 0 then x else Tally(m - 1) + x);
    assert t[1..] == (if n == 0 then y else Tally(n - 1) + y);
    if m > 0 && n > 0 {
      TallyEnds(m - 1, n - 1, x, y);
    }
  }

  /** The character in front and what follows it. */
  lemma TagFirst(tag: char, rest: string, x: string)
    ensures var s := ([tag] + rest) + x; s[0] == tag && s[1..] == rest + x
  {
  }

  lemma Regroup(a: string, b: string, x: string)
    ensures (a + b) + x == a + (b + x)
  {
  }

  function Sign(n: int): char {
    if n < 0 then '-' else '+'
  }

  function Size(n: int): nat {
    if n < 0 then -n else n
  }

  lemma SignedPieces(n: int, x: string)
    ensures (Signed(n) + x)[0] == Sign(n) && (Signed(n) + x)[1..] == Tally(Size(n)) + x
  {
    TagFirst(Sign(n), Tally(Size(n)), x);
  }

  lemma SignedEnds(m: int, n: int, x: string, y: string)
    requires Signed(m) + x == Signed(n) + y
    ensures m == n && x == y
  {
    SignedPieces(m, x);
    SignedPieces(n, y);
    TallyEnds(Size(m), Size(n), x, y);
  }

  lemma QuotedEnds(a: string, b: string, x: string, y: string)
    requires Quoted(a) + x == Quoted(b) + y
    ensures a == b && x == y
  {
    assert Quoted(a) + x == Tally(|a|) + (a + x);
    assert Quoted(b) + y == Tally(|b|) + (b + y);
    TallyEnds(|a|, |b|, a + x, b + y);
    assert a == (a + x)[..|a|] && b == (b + y)[..|b|];
    assert x == (a + x)[|a|..] && y == (b + y)[|b|..];
  }

  lemma {:induction false} EncodeEnds(a: Json, b: Json, x: string, y: string)
    requires Encode(a) + x == Encode(b) + y
    ensures a == b && x == y
    decreases a, 1
  {
    var s, t := Encode(a) + x, Encode(b) + y;
    assert s[0] == t[0] && s[1..] == t[1..];
    match a
    case JNull => assert s[1..] == x && t[1..] == y;
    case JBool(_) => assert s[1..] == x && t[1..] == y;
    case JNum(m) => NumberEnds(m, b.n, x, y);
    case JStr(c) =>
      TagFirst('s', Quoted(c), x);
      TagFirst('s', Quoted(b.s), y);
      QuotedEnds(c, b.s, x, y);
    case JArr(items) =>
      ArrayPieces(items, x);
      ArrayPieces(b.items, y);
      TallyEnds(|items|, |b.items|, EncodeItems(items) + x, EncodeItems(b.items) + y);
      ItemsEnd(items, b.items, x, y);
    case JObj(fields) =>
      ObjectPieces(a, x);
      ObjectPieces(b, y);
      TallyEnds(|Names(a)|, |Names(b)|, EncodeFields(a, Names(a)) + x, EncodeFields(b, Names(b)) + y);
      FieldsEnd(a, b, Names(a), Names(b), x, y);
      assert fields.Keys == b.fields.Keys;
  }

  lemma NumberEnds(m: Number, n: Number, x: string, y: string)
    requires Encode(JNum(m)) + x == Encode(JNum(n)) + y
    ensures m == n && x == y
  {
    var p, q := Signed(m.exponent) + x, Signed(n.exponent) + y;
    TagFirst('#', Signed(m.mantissa) + Signed(m.exponent), x);
    TagFirst('#', Signed(n.mantissa) + Signed(n.exponent), y);
    Regroup(Signed(m.mantissa), Signed(m.exponent), x);
    Regroup(Signed(n.mantissa), Signed(n.exponent), y);
    SignedEnds(m.mantissa, n.mantissa, p, q);
    SignedEnds(m.exponent, n.exponent, x, y);
  }

  lemma ArrayPieces(items: seq<Json>, x: string)
    ensures (Encode(JArr(items)) + x)[1..] == Tally(|items|) + (EncodeItems(items) + x)
  {
    var n, f := Tally(|items|), EncodeItems(items);
    TagFirst('a', n + f, x);
    Regroup(n, f, x);
  }

  lemma ObjectPieces(j: Json, x: string)
    requires j.JObj?
    ensures (Encode(j) + x)[1..] == Tally(|Names(j)|) + (EncodeFields(j, Names(j)) + x)
  {
    var n, f := Tally(|Names(j)|), EncodeFields(j, Names(j));
    TagFirst('o', n + f, x);
    Regroup(n, f, x);
  }

  lemma {:induction false} ItemsEnd(a: seq<Json>, b: seq<Json>, x: string, y: string)
    requires |a| == |b| && EncodeItems(a) + x == EncodeItems(b) + y
    ensures a == b && x == y
    decreases a, 0
  {
    if a == [] {
      assert EncodeItems(a) + x == x && EncodeItems(b) + y == y;
    } else {
      var p, q := EncodeItems(a[1..]) + x, EncodeItems(b[1..]) + y;
      assert EncodeItems(a) + x == Encode(a[0]) + p;
      assert EncodeItems(b) + y == Encode(b[0]) + q;
      EncodeEnds(a[0], b[0], p, q);
      ItemsEnd(a[1..], b[1..], x, y);
      assert a == [a[0]] + a[1..] && b == [b[0]] + b[1..];
    }
  }

  lemma {:induction false} FieldsEnd(a: Json, b: Json, m: seq<string>, n: seq<string>, x: string, y: string)
    requires a.JObj? && b.JObj? && (forall k :: k in m ==> k in a.fields) && (forall k :: k in n ==> k in b.fields)
    requires |m| == |n| && EncodeFields(a, m) + x == EncodeFields(b, n) + y
    ensures m == n && x == y && forall k :: k in m ==> a.fields[k] == b.fields[k]
    decreases a, 0, |m|
  {
    if m == [] {
      assert EncodeFields(a, m) + x == x && EncodeFields(b, n) + y == y;
    } else {
      var v, w := a.fields[m[0]], b.fields[n[0]];
      var p, q := EncodeFields(a, m[1..]) + x, EncodeFields(b, n[1..]) + y;
      assert EncodeFields(a, m) + x == Quoted(m[0]) + (Encode(v) + p);
      assert EncodeFields(b, n) + y == Quoted(n[0]) + (Encode(w) + q);
      QuotedEnds(m[0], n[0], Encode(v) + p, Encode(w) + q);
      EncodeEnds(v, w, p, q);
      FieldsEnd(a, b, m[1..], n[1..], x, y);
      assert m == [m[0]] + m[1..] && n == [n[0]] + n[1..];
    }
  }

  lemma EncodeInjective(a: Json, b: Json)
    requires Encode(a) == Encode(b)
    ensures a == b
  {
    assert Encode(a) + "" == Encode(a) && Encode(b) + "" == Encode(b);
    EncodeEnds(a, b, "", "");
  }

  /** The value that a text was written for. */
  ghost function Decode(s: string): Json {
    if exists j :: Encode(j) == s then (var j :| Encode(j) == s; j) else JNull
  }

  lemma DecodeEncode(j: Json)
    ensures Decode(Encode(j)) == j
  {
    EncodeInjective(Decode(Encode(j)), j);
  }

  /** Whatever Number(v) and String(v) are, there is a host whose parser undoes its serializer. */
  lemma SoundHostExists(number: Json -> Option<Number>, text: Json -> string)
    ensures exists host: Host :: Sound(host) && host.number == number && host.text == text
  {
    var host := Host(Encode, Decode, number, text);
    forall j ensures host.parse(host.stringify(j)) == j {
      DecodeEncode(j);
    }
    assert Sound(host);
  }
}
