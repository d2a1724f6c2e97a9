/**
  HTML escaping for text and attribute contexts: five global replacements whose
  order matters, shown to act as one reversible encoding of single characters
  (character references, section 13.1.4 of the HTML Living Standard).
*/
module Escaping {

  /** String.replace with a global one-character pattern. */
  function ReplaceAll(s: string, c: char, r: string): string {
    if s == [] then []
    else (if s[0] == c then r else [s[0]]) + ReplaceAll(s[1..], c, r)
  }

  function EscapeHtml(value: string): string {
    var s1 := ReplaceAll(value, '&', "&amp;");
    var s2 := ReplaceAll(s1, '<', "&lt;");
    var s3 := ReplaceAll(s2, '>', "&gt;");
    var s4 := ReplaceAll(s3, '"', "&quot;");
    ReplaceAll(s4, '\'', "&#39;")
  }

  // The reference: one pass, one character at a time.

  predicate Special(c: char) {
    c == '&' || c == '<' || c == '>' || c == '"' || c == '\''
  }

  function Entity(c: char): string
    requires Special(c)
  {
    if c == '&' then "&amp;"
    else if c == '<' then "&lt;"
    else if c == '>' then "&gt;"
    else if c == '"' then "&quot;"
    else "&#39;"
  }

  function EncodeChar(c: char): string {
    if Special(c) then Entity(c) else [c]
  }

  function Encode(s: string): string {
    if s == [] then [] else EncodeChar(s[0]) + Encode(s[1..])
  }

  /** Reads the five entities back in one left-to-right pass; anything else stands for itself. */
  function Decode(s: string): string {
    if s == [] then []
    else if "&amp;" <= s then ['&'] + Decode(s[5..])
    else if "&lt;" <= s then ['<'] + Decode(s[4..])
    else if "&gt;" <= s then ['>'] + Decode(s[4..])
    else if "&quot;" <= s then ['"'] + Decode(s[6..])
    else if "&#39;" <= s then ['\''] + Decode(s[5..])
    else [s[0]] + Decode(s[1..])
  }

  /** The text starts with one of the five entities. */
  predicate StartsEntity(s: string) {
    "&amp;" <= s || "&lt;" <= s || "&gt;" <= s || "&quot;" <= s || "&#39;" <= s
  }

  /** Fully escaped text: no bare special character, and every `&` starts one of the five entities. */
  ghost predicate Escaped(s: string) {
    forall i :: 0 <= i < |s| && Special(s[i]) ==> s[i] == '&' && StartsEntity(s[i..])
  }

  lemma EscapeOne(c: char)
    ensures EscapeHtml([c]) == EncodeChar(c)
  {
    EscapeIsEncode([c]);
    assert [c][1..] == [];
  }

  /** What the five special characters become, spelled out, and that no other character becomes anything. */
  lemma EscapeSpecials(c: char)
    ensures c == '&' ==> EscapeHtml([c]) == "&amp;"
    ensures c == '<' ==> EscapeHtml([c]) == "&lt;"
    ensures c == '>' ==> EscapeHtml([c]) == "&gt;"
    ensures c == '"' ==> EscapeHtml([c]) == "&quot;"
    ensures c == '\'' ==> EscapeHtml([c]) == "&#39;"
    ensures c !in {'&', '<', '>', '"', '\''} ==> EscapeHtml([c]) == [c]
  {
    EscapeOne(c);
  }

  lemma {:induction false} ReplaceAllAppend(a: string, b: string, c: char, r: string)
    ensures ReplaceAll(a + b, c, r) == ReplaceAll(a, c, r) + ReplaceAll(b, c, r)
  {
    if a == [] {
      assert a + b == b;
    } else {
      assert (a + b)[1..] == a[1..] + b;
      ReplaceAllAppend(a[1..], b, c, r);
    }
  }

  lemma {:induction false} ReplaceAllAbsent(s: string, c: char, r: string)
    requires c !in s
    ensures ReplaceAll(s, c, r) == s
  {
    if s != [] {
      ReplaceAllAbsent(s[1..], c, r);
    }
  }

  /** The chain of replacements distributes over concatenation. */
  lemma EscapeAppend(a: string, b: string)
    ensures EscapeHtml(a + b) == EscapeHtml(a) + EscapeHtml(b)
  {
    var a1, b1 := ReplaceAll(a, '&', "&amp;"), ReplaceAll(b, '&', "&amp;");
    var a2, b2 := ReplaceAll(a1, '<', "&lt;"), ReplaceAll(b1, '<', "&lt;");
    var a3, b3 := ReplaceAll(a2, '>', "&gt;"), ReplaceAll(b2, '>', "&gt;");
    var a4, b4 := ReplaceAll(a3, '"', "&quot;"), ReplaceAll(b3, '"', "&quot;");
    ReplaceAllAppend(a, b, '&', "&amp;");
    ReplaceAllAppend(a1, b1, '<', "&lt;");
    ReplaceAllAppend(a2, b2, '>', "&gt;");
    ReplaceAllAppend(a3, b3, '"', "&quot;");
    ReplaceAllAppend(a4, b4, '\'', "&#39;");
  }

  lemma ReplaceOne(c: char, d: char, r: string)
    ensures ReplaceAll([c], d, r) == if c == d then r else [c]
  {
    assert [c][1..] == [];
  }

  /** The characters of an entity after its `&` are not special. */
  lemma EntityShape(c: char)
    requires Special(c)
    ensures Entity(c)[0] == '&' && forall i :: 1 <= i < |Entity(c)| ==> !Special(Entity(c)[i])
  {
  }

  /** A replacement turns a character into its entity at its own stage, and leaves entities alone. */
  lemma Stage(c: char, t: string, d: char, r: string)
    requires t == [c] || (Special(c) && t == Entity(c) && Special(d) && d != '&')
    ensures ReplaceAll(t, d, r) == if t == [c] && c == d then r else t
  {
    if t == [c] {
      ReplaceOne(c, d, r);
    } else {
      EntityShape(c);
      ReplaceAllAbsent(t, d, r);
    }
  }

  lemma EscapeChar(c: char)
    ensures EscapeHtml([c]) == EncodeChar(c)
  {
    var s0 := [c];
    var s1 := ReplaceAll(s0, '&', "&amp;");
    var s2 := ReplaceAll(s1, '<', "&lt;");
    var s3 := ReplaceAll(s2, '>', "&gt;");
    var s4 := ReplaceAll(s3, '"', "&quot;");
    assert s1 == if c == '&' then Entity(c) else s0 by { Stage(c, s0, '&', "&amp;"); }
    assert s2 == if c == '<' then Entity(c) else s1 by { Stage(c, s1, '<', "&lt;"); }
    assert s3 == if c == '>' then Entity(c) else s2 by { Stage(c, s2, '>', "&gt;"); }
    assert s4 == if c == '"' then Entity(c) else s3 by { Stage(c, s3, '"', "&quot;"); }
    Stage(c, s4, '\'', "&#39;");
  }

  /** Main result: the five sequential replacements are one per-character encoding. */
  lemma {:induction false} EscapeIsEncode(s: string)
    ensures EscapeHtml(s) == Encode(s)
  {
    if s != [] {
      assert s == [s[0]] + s[1..];
      EscapeAppend([s[0]], s[1..]);
      EscapeChar(s[0]);
      EscapeIsEncode(s[1..]);
    }
  }

  lemma EntityDecodes(c: char, t: string)
    ensures Decode(EncodeChar(c) + t) == [c] + Decode(t)
    ensures EncodeChar(c)[0] == '&' ==> StartsEntity(EncodeChar(c) + t)
  {
    var e := EncodeChar(c);
    assert (e + t)[|e|..] == t;
    if Special(c) {
      assert forall i :: 0 <= i < |e| ==> (e + t)[i] == e[i];
      assert e <= e + t;
      if c != '&' { assert (e + t)[1] == e[1] != 'a'; }
      if c == '>' { assert (e + t)[1] == 'g'; }
      if c == '"' { assert (e + t)[1] == 'q'; }
      if c == '\'' { assert (e + t)[1] == '#'; }
    } else {
      assert (e + t)[0] == c;
    }
  }

  /** A decoder recovers every input. */
  lemma {:induction false} DecodeEscape(s: string)
    ensures Decode(EscapeHtml(s)) == s
  {
    EscapeIsEncode(s);
    if s == [] {
    } else {
      EscapeIsEncode(s[1..]);
      EntityDecodes(s[0], Encode(s[1..]));
      DecodeEscape(s[1..]);
    }
  }

  lemma EscapedPrepend(c: char, t: string)
    requires Escaped(t)
    ensures Escaped(EncodeChar(c) + t)
  {
    var e := EncodeChar(c);
    EntityDecodes(c, t);
    if Special(c) { EntityShape(c); }
    forall i | 0 <= i < |e + t| && Special((e + t)[i])
      ensures (e + t)[i] == '&' && StartsEntity((e + t)[i..])
    {
      if i < |e| {
        assert i == 0 && (e + t)[0..] == e + t;
      } else {
        assert (e + t)[i..] == t[i - |e|..];
      }
    }
  }

  /** No special character survives outside an entity. */
  lemma {:induction false} EscapeIsEscaped(s: string)
    ensures Escaped(EscapeHtml(s))
  {
    EscapeIsEncode(s);
    if s != [] {
      EscapeIsEncode(s[1..]);
      EscapeIsEscaped(s[1..]);
      EscapedPrepend(s[0], Encode(s[1..]));
    }
  }

  /** Escaped text is exactly what escaping produces: escaping undoes decoding on it, and only on it. */
  lemma {:induction false} EscapeDecodeExactly(s: string)
    ensures EscapeHtml(Decode(s)) == s <==> Escaped(s)
  {
    EscapeIsEscaped(Decode(s));
    if Escaped(s) {
      EscapedRoundTrip(s);
    }
  }

  lemma EscapedRoundTrip(s: string)
    requires Escaped(s)
    ensures EscapeHtml(Decode(s)) == s
  {
    EscapeIsEncode(Decode(s));
    EncodeDecode(s);
  }

  lemma {:induction false} EncodeDecode(s: string)
    requires Escaped(s)
    ensures Encode(Decode(s)) == s
    decreases |s|
  {
    if s != [] {
      var head, rest := FirstEntity(s);
      EncodeDecode(rest);
    }
  }

  lemma FirstEntity(s: string) returns (head: string, rest: string)
    requires s != [] && Escaped(s)
    ensures s == head + rest && |rest| < |s| && Escaped(rest)
    ensures Encode(Decode(s)) == head + Encode(Decode(rest))
  {
    var n := EntityLength(s);
    head, rest := s[..n], s[n..];
    EscapedSuffix(s, n);
    DecodeStep(s);
    HeadEncodes(s);
    EncodeStep(DecodedHead(s), Decode(s[n..]));
  }

  lemma EncodeStep(c: char, t: string)
    ensures Encode([c] + t) == EncodeChar(c) + Encode(t)
  {
    assert ([c] + t)[1..] == t;
  }

  lemma DecodeStep(s: string)
    requires s != []
    ensures Decode(s) == [DecodedHead(s)] + Decode(s[EntityLength(s)..])
  {
    if "&lt;" <= s { assert s[1] == 'l'; }
    if "&gt;" <= s { assert s[1] == 'g'; }
    if "&quot;" <= s { assert s[1] == 'q'; }
    if "&amp;" <= s { assert s[1] == 'a'; }
  }

  lemma HeadEncodes(s: string)
    requires s != [] && Escaped(s)
    ensures EncodeChar(DecodedHead(s)) == s[..EntityLength(s)]
  {
    if Special(s[0]) {
      assert s[0..] == s;
      assert StartsEntity(s);
      if "&lt;" <= s { assert s[1] == 'l'; }
      if "&gt;" <= s { assert s[1] == 'g'; }
      if "&quot;" <= s { assert s[1] == 'q'; }
      if "&amp;" <= s { assert s[1] == 'a'; }
    }
  }

  /** How much of the text its first decoded character takes up. */
  function EntityLength(s: string): (n: nat)
    requires s != []
    ensures 1 <= n <= |s|
  {
    if "&amp;" <= s || "&#39;" <= s then 5
    else if "&lt;" <= s || "&gt;" <= s then 4
    else if "&quot;" <= s then 6
    else 1
  }

  function DecodedHead(s: string): char
    requires s != []
  {
    if "&amp;" <= s then '&'
    else if "&lt;" <= s then '<'
    else if "&gt;" <= s then '>'
    else if "&quot;" <= s then '"'
    else if "&#39;" <= s then '\''
    else s[0]
  }

  lemma EscapedSuffix(s: string, n: nat)
    requires Escaped(s) && n <= |s|
    ensures Escaped(s[n..])
  {
    forall i | 0 <= i < |s[n..]| && Special(s[n..][i])
      ensures s[n..][i] == '&' && StartsEntity(s[n..][i..])
    {
      assert s[n..][i..] == s[n + i..];
    }
  }

  /** Escaping twice changes nothing exactly when there was nothing to escape. */
  lemma {:induction false} EscapeTwice(s: string)
    ensures EscapeHtml(EscapeHtml(s)) == EscapeHtml(s) <==> forall i :: 0 <= i < |s| ==> !Special(s[i])
  {
    DecodeEscape(EscapeHtml(s));
    DecodeEscape(s);
    if EscapeHtml(EscapeHtml(s)) == EscapeHtml(s) {
      assert EscapeHtml(s) == s;
      EscapeLength(s);
    } else {
      if forall i :: 0 <= i < |s| ==> !Special(s[i]) {
        EscapeLength(s);
      }
    }
  }

  lemma {:induction false} EscapeLength(s: string)
    ensures |EscapeHtml(s)| >= |s|
    ensures |EscapeHtml(s)| == |s| ==> forall i :: 0 <= i < |s| ==> !Special(s[i])
    ensures (forall i :: 0 <= i < |s| ==> !Special(s[i])) ==> EscapeHtml(s) == s
  {
    EscapeIsEncode(s);
    if s != [] {
      EscapeIsEncode(s[1..]);
      EscapeLength(s[1..]);
      assert forall i :: 1 <= i < |s| ==> s[i] == s[1..][i - 1];
      if forall i :: 0 <= i < |s| ==> !Special(s[i]) {
        assert forall i :: 0 <= i < |s[1..]| ==> s[1..][i] == s[i + 1];
      }
    }
  }
}
