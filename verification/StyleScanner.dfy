/**
  Global regular-expression matching: a pattern tried at every position in turn,
  each search starting where the last match ended.
*/
module Matching {
  import opened Wrappers

  /** The pattern occurs in s at position i. */
  predicate At(s: string, i: nat, pattern: string) {
    i + |pattern| <= |s| && forall m :: i <= m < i + |pattern| ==> s[m] == pattern[m - i]
  }

  ghost predicate Contains(s: string, pattern: string) {
    exists i :: At(s, i, pattern)
  }

  /** The first occurrence of a pattern. */
  function Index(s: string, pattern: string): (r: Option<nat>)
    requires pattern != []
    ensures r.Some? ==> r.value + |pattern| <= |s|
  {
    if s == [] then None
    else if pattern <= s then Some(0)
    else
      var r := Index(s[1..], pattern);
      if r == None then None else Some(r.value + 1)
  }

  lemma AtShift(s: string, j: nat, pattern: string)
    requires s != []
    ensures At(s, j + 1, pattern) <==> At(s[1..], j, pattern)
  {
    var t := s[1..];
    if At(t, j, pattern) {
      forall m | j + 1 <= m < j + 1 + |pattern| ensures s[m] == pattern[m - (j + 1)] {
        assert t[m - 1] == s[m];
      }
    }
    if At(s, j + 1, pattern) {
      forall m | j <= m < j + |pattern| ensures t[m] == pattern[m - j] {
        assert t[m] == s[m + 1];
      }
    }
  }

  lemma AtStart(s: string, pattern: string)
    ensures At(s, 0, pattern) <==> pattern <= s
  {
  }

  lemma AtChar(s: string, j: nat, c: char)
    ensures At(s, j, [c]) <==> j < |s| && s[j] == c
  {
  }

  lemma {:induction false} IndexIsFirst(s: string, pattern: string)
    requires pattern != []
    ensures var r := Index(s, pattern);
      if r.None? then !Contains(s, pattern)
      else At(s, r.value, pattern) && forall j :: 0 <= j < r.value ==> !At(s, j, pattern)
  {
    if s != [] && !(pattern <= s) {
      IndexIsFirst(s[1..], pattern);
      AtStart(s, pattern);
      forall j: nat ensures At(s, j + 1, pattern) <==> At(s[1..], j, pattern) {
        AtShift(s, j, pattern);
      }
      assert forall j :: 1 <= j ==> (At(s, j, pattern) <==> At(s[1..], j - 1, pattern));
    } else if s != [] {
      AtStart(s, pattern);
    }
  }

  lemma IndexIs(s: string, pattern: string, k: nat)
    requires pattern != [] && At(s, k, pattern) && forall j :: 0 <= j < k ==> !At(s, j, pattern)
    ensures Index(s, pattern) == Some(k)
  {
    IndexIsFirst(s, pattern);
    assert Contains(s, pattern);
  }

  /** An occurrence cannot straddle a boundary where its first character starts the rest. */
  lemma NoStraddle(a: string, b: string, pattern: string, i: nat)
    requires pattern != [] && b != [] && b[0] == pattern[0]
    requires forall k :: 1 <= k < |pattern| ==> pattern[k] != pattern[0]
    requires i < |a| && At(a + b, i, pattern)
    ensures At(a, i, pattern)
  {
    var s := a + b;
    assert forall m :: i < m < i + |pattern| ==> s[m] != pattern[0];
    assert s[|a|] == pattern[0];
    assert forall m :: i <= m < i + |pattern| ==> a[m] == s[m];
  }

  lemma TagEnds(attrs: string, after: string)
    requires '>' !in attrs
    ensures Index(attrs + (">" + after), ">") == Some(|attrs|)
  {
    var s := attrs + (">" + after);
    assert s[|attrs|] == '>';
    forall j | 0 <= j < |attrs| ensures !At(s, j, ">") {
      assert s[j] == attrs[j];
    }
    IndexIs(s, ">", |attrs|);
  }

  lemma BodyEnds(body: string, close: string, rest: string)
    requires close != [] && !Contains(body, close)
    requires forall k :: 1 <= k < |close| ==> close[k] != close[0]
    ensures Index(body + (close + rest), close) == Some(|body|)
  {
    var s := body + (close + rest);
    forall j | 0 <= j < |body| ensures !At(s, j, close) {
      if At(s, j, close) {
        NoStraddle(body, close + rest, close, j);
      }
    }
    IndexIs(s, close, |body|);
  }

  lemma PrefixIsAt(s: string, i: nat, pattern: string)
    requires i <= |s| && pattern <= s[i..]
    ensures At(s, i, pattern)
  {
    assert forall k :: 0 <= k < |pattern| ==> s[i..][k] == pattern[k];
    assert forall m :: i <= m < i + |pattern| ==> s[m] == s[i..][m - i];
  }

  /** A match in some text: where it starts, its captured group, where it ends. */
  datatype Match = Match(start: nat, group: string, end: nat)

  /** A pattern tries to match at the very start of a text. */
  type Pattern = string -> Option<Match>

  /** Every match starts where it was tried and consumes something. */
  ghost predicate Consumes(pattern: Pattern) {
    forall s :: pattern(s).Some? ==> pattern(s).value.start == 0 && 0 < pattern(s).value.end <= |s|
  }

  /** One `exec`: the leftmost match. */
  function Exec(pattern: Pattern, s: string): (r: Option<Match>)
    requires Consumes(pattern)
    ensures r.Some? ==> r.value.start < r.value.end <= |s|
  {
    if s == [] then None
    else if pattern(s).Some? then pattern(s)
    else
      var r := Exec(pattern, s[1..]);
      if r == None then None else Some(Match(r.value.start + 1, r.value.group, r.value.end + 1))
  }

  /** The captured groups of all matches. */
  function Scan(pattern: Pattern, s: string): seq<string>
    requires Consumes(pattern)
    decreases |s|
  {
    var m := Exec(pattern, s);
    if m == None then [] else [m.value.group] + Scan(pattern, s[m.value.end..])
  }

  function MapAll(f: string -> string, items: seq<string>): seq<string> {
    if items == [] then [] else [f(items[0])] + MapAll(f, items[1..])
  }

  /** One round of the matching loop keeps the list to be produced. */
  lemma ScanStep(f: string -> string, done: seq<string>, pattern: Pattern, rest: string, m: Match)
    requires Consumes(pattern) && Exec(pattern, rest) == Some(m)
    ensures done + MapAll(f, Scan(pattern, rest)) == (done + [f(m.group)]) + MapAll(f, Scan(pattern, rest[m.end..]))
  {
    var groups := Scan(pattern, rest);
    assert groups[1..] == Scan(pattern, rest[m.end..]);
    assert MapAll(f, groups) == [f(groups[0])] + MapAll(f, groups[1..]);
  }

  lemma ScanEnd(f: string -> string, done: seq<string>, pattern: Pattern, rest: string)
    requires Consumes(pattern) && Exec(pattern, rest).None?
    ensures done + MapAll(f, Scan(pattern, rest)) == done
  {
  }

  /** What has been produced, and what the rest of the text from position i will produce, is the whole list. */
  ghost predicate Accounted(f: string -> string, pattern: Pattern, s: string, done: seq<string>, i: nat)
    requires Consumes(pattern) && i <= |s|
  {
    done + MapAll(f, Scan(pattern, s[i..])) == MapAll(f, Scan(pattern, s))
  }

  lemma Advance(f: string -> string, pattern: Pattern, s: string, done: seq<string>, i: nat, m: Match, next: nat)
    requires Consumes(pattern) && i <= |s| && Exec(pattern, s[i..]) == Some(m) && next == i + m.end
    requires Accounted(f, pattern, s, done, i)
    ensures i < next <= |s|
    ensures Accounted(f, pattern, s, done + [f(m.group)], next)
  {
    var rest := s[i..];
    assert rest[m.end..] == s[next..];
    ScanStep(f, done, pattern, rest, m);
  }

  lemma Finish(f: string -> string, pattern: Pattern, s: string, done: seq<string>, i: nat)
    requires Consumes(pattern) && i <= |s| && Exec(pattern, s[i..]).None?
    requires Accounted(f, pattern, s, done, i)
    ensures done == MapAll(f, Scan(pattern, s))
  {
    ScanEnd(f, done, pattern, s[i..]);
  }

  /** The `while (match = re.exec(s))` loop; it ends because the match position strictly advances. */
  method MapMatches(f: string -> string, pattern: Pattern, s: string) returns (out: seq<string>)
    requires Consumes(pattern)
    ensures out == MapAll(f, Scan(pattern, s))
  {
    out := [];
    var lastIndex := 0;
    assert s[0..] == s;
    while true
      invariant lastIndex <= |s|
      invariant Accounted(f, pattern, s, out, lastIndex)
      decreases |s| - lastIndex
    {
      var found := Exec(pattern, s[lastIndex..]);
      if found == None {
        Finish(f, pattern, s, out, lastIndex);
        break;
      }
      var next := lastIndex + found.value.end;
      Advance(f, pattern, s, out, lastIndex, found.value, next);
      out, lastIndex := out + [f(found.value.group)], next;
    }
  }

  predicate MatchesAt(pattern: Pattern, s: string, i: nat) {
    i <= |s| && pattern(s[i..]).Some?
  }

  /** The pattern matches at none of the first n positions. */
  ghost predicate NoMatchIn(pattern: Pattern, s: string, n: nat) {
    forall i :: 0 <= i < n ==> !MatchesAt(pattern, s, i)
  }

  lemma NoMatchInTail(pattern: Pattern, s: string, n: nat)
    requires s != []
    ensures NoMatchIn(pattern, s, n + 1) <==> pattern(s).None? && NoMatchIn(pattern, s[1..], n)
  {
    assert s[0..] == s;
    assert MatchesAt(pattern, s, 0) <==> pattern(s).Some?;
    forall i: nat ensures MatchesAt(pattern, s[1..], i) <==> MatchesAt(pattern, s, i + 1) {
      if i < |s| { assert s[1..][i..] == s[i + 1..]; }
    }
    assert forall i :: 1 <= i < n + 1 ==> (MatchesAt(pattern, s, i) <==> MatchesAt(pattern, s[1..], i - 1));
  }

  lemma {:induction false} ExecSkips(pattern: Pattern, s: string, n: nat, m: Match)
    requires Consumes(pattern)
    requires n <= |s| && NoMatchIn(pattern, s, n) && pattern(s[n..]) == Some(m)
    ensures Exec(pattern, s) == Some(Match(n, m.group, n + m.end))
  {
    if n == 0 {
      assert s[0..] == s;
    } else {
      NoMatchInTail(pattern, s, n - 1);
      assert s[1..][n - 1..] == s[n..];
      ExecSkips(pattern, s[1..], n - 1, m);
    }
  }

  lemma {:induction false} ExecNone(pattern: Pattern, s: string)
    requires Consumes(pattern)
    ensures Exec(pattern, s).None? <==> NoMatchIn(pattern, s, |s|)
  {
    if s != [] {
      NoMatchInTail(pattern, s, |s| - 1);
      ExecNone(pattern, s[1..]);
    }
  }

  /** A successful search is a gap without matches, then a match of the pattern. */
  lemma {:induction false} ExecFinds(pattern: Pattern, s: string)
    requires Consumes(pattern) && Exec(pattern, s).Some?
    ensures var m := Exec(pattern, s).value;
      && NoMatchIn(pattern, s, m.start)
      && pattern(s[m.start..]) == Some(Match(0, m.group, m.end - m.start))
  {
    assert s[0..] == s;
    if pattern(s).None? {
      ExecFinds(pattern, s[1..]);
      var m := Exec(pattern, s).value;
      NoMatchInTail(pattern, s, m.start - 1);
      assert s[1..][m.start - 1..] == s[m.start..];
    }
  }

  lemma ExecSplits(pattern: Pattern, s: string) returns (text: string, here: string, m: Match)
    requires Consumes(pattern) && Exec(pattern, s).Some?
    ensures s == text + here && NoMatchIn(pattern, s, |text|)
    ensures pattern(here) == Some(m) && m.end <= |here| && here[m.end..] == s[Exec(pattern, s).value.end..]
  {
    ExecFinds(pattern, s);
    var found := Exec(pattern, s).value;
    text, here := s[..found.start], s[found.start..];
    m := Match(0, found.group, found.end - found.start);
    assert here[m.end..] == s[found.end..];
  }

  /** A text splits around an occurrence. */
  lemma SplitAround(s: string, i: nat, pattern: string)
    requires At(s, i, pattern)
    ensures s == s[..i] + (pattern + s[i + |pattern|..])
  {
  }
}

/**
  The `style-src` directive of a rendered page: the hash of every inline style
  block it contains (hash-source lists, section 2.3.1 of Content Security Policy
  Level 3).
*/
module StyleScanner {
  import opened Wrappers
  import opened Matching

  const OPEN := "<style"
  const CLOSE := "</style>"

  function Shift(m: Option<Match>, offset: nat): Option<Match> {
    if m == None then None else Some(Match(m.value.start, m.value.group, offset + m.value.end))
  }

  /** The shortest body up to a closing tag. */
  function BodyHere(close: string, s: string): Option<Match>
    requires close != ""
  {
    var end := Index(s, close);
    if end == None then None else Some(Match(0, s[..end.value], end.value + |close|))
  }

  /** The rest of an opening tag up to its first `>`, then the body. */
  function TagHere(close: string, s: string): Option<Match>
    requires close != ""
  {
    var gt := Index(s, ">");
    if gt == None then None else Shift(BodyHere(close, s[gt.value + 1..]), gt.value + 1)
  }

  function TagBlock(open: string, close: string, s: string): Option<Match>
    requires close != ""
  {
    if open <= s then Shift(TagHere(close, s[|open|..]), |open|) else None
  }

  function StyleBlock(s: string): Option<Match> {
    TagBlock(OPEN, CLOSE, s)
  }

  lemma StyleBlockConsumes()
    ensures Consumes(StyleBlock)
  {
  }

  /** The bodies of all style blocks the expression finds. */
  function StyleBodies(html: string): seq<string> {
    StyleBlockConsumes();
    Scan(StyleBlock, html)
  }

  function HashSource(digest: string): string {
    "'sha256-" + digest + "'"
  }

  function SourceOf(hash: string -> string): string -> string {
    body => HashSource(hash(body))
  }

  function JoinSpaces(words: seq<string>): string {
    if words == [] then []
    else if |words| == 1 then words[0]
    else words[0] + " " + JoinSpaces(words[1..])
  }

  const SELF := "style-src 'self'"

  function Directive(hashes: seq<string>): string {
    if hashes == [] then SELF else SELF + (" " + JoinSpaces(hashes))
  }

  /** One source for each body, in order, each after a space. */
  function Sources(hash: string -> string, bodies: seq<string>): string {
    if bodies == [] then ""
    else Sources(hash, bodies[..|bodies| - 1]) + " 'sha256-" + hash(bodies[|bodies| - 1]) + "'"
  }

  /** The hash sources of all inline style blocks, in document order. */
  method StyleSrcDirective(hash: string -> string, html: string) returns (directive: string)
    ensures directive == "style-src 'self'" + Sources(hash, StyleBodies(html))
  {
    StyleBlockConsumes();
    var hashes := MapMatches(SourceOf(hash), StyleBlock, html);
    directive := Directive(hashes);
    DirectiveIsSources(hash, StyleBodies(html));
  }

  lemma {:induction false} JoinOneMore(words: seq<string>, w: string)
    requires words != []
    ensures JoinSpaces(words + [w]) == JoinSpaces(words) + (" " + w)
  {
    assert (words + [w])[1..] == words[1..] + [w];
    if |words| > 1 {
      JoinOneMore(words[1..], w);
      assert words[0] + " " + (JoinSpaces(words[1..]) + (" " + w)) ==
        words[0] + " " + JoinSpaces(words[1..]) + (" " + w);
    }
  }

  lemma {:induction false} MapOneMore(f: string -> string, bodies: seq<string>, body: string)
    ensures MapAll(f, bodies + [body]) == MapAll(f, bodies) + [f(body)]
  {
    if bodies == [] {
      assert bodies + [body] == [body] && [body][1..] == [];
    } else {
      assert (bodies + [body])[1..] == bodies[1..] + [body];
      MapOneMore(f, bodies[1..], body);
    }
  }

  lemma {:induction false} DirectiveIsSources(hash: string -> string, bodies: seq<string>)
    ensures Directive(MapAll(SourceOf(hash), bodies)) == SELF + Sources(hash, bodies)
  {
    var f := SourceOf(hash);
    if bodies != [] {
      var n := |bodies| - 1;
      DirectiveIsSources(hash, bodies[..n]);
      assert bodies == bodies[..n] + [bodies[n]];
      MapOneMore(f, bodies[..n], bodies[n]);
      DirectiveOneMore(MapAll(f, bodies[..n]), f(bodies[n]));
      var sources, digest := Sources(hash, bodies[..n]), hash(bodies[n]);
      Regrouped(SELF, sources, " " + HashSource(digest));
      assert sources + (" " + HashSource(digest)) == sources + " 'sha256-" + digest + "'" by {
        Spelled(sources, digest);
      }
    }
  }

  lemma DirectiveOneMore(hashes: seq<string>, h: string)
    ensures Directive(hashes + [h]) == Directive(hashes) + (" " + h)
  {
    if hashes == [] {
      assert hashes + [h] == [h];
    } else {
      JoinOneMore(hashes, h);
      Regrouped(SELF, " " + JoinSpaces(hashes), " " + h);
      Regrouped(" ", JoinSpaces(hashes), " " + h);
    }
  }

  lemma Spelled(sources: string, digest: string)
    ensures sources + (" " + HashSource(digest)) == sources + " 'sha256-" + digest + "'"
  {
    assert " " + "'sha256-" == " 'sha256-";
    Regrouped(sources, " ", HashSource(digest));
    Regrouped(" ", "'sha256-" + digest, "'");
    Regrouped(" ", "'sha256-", digest);
    Regrouped(sources, " 'sha256-" + digest, "'");
    Regrouped(sources, " 'sha256-", digest);
  }

  lemma Regrouped(a: string, b: string, c: string)
    ensures a + (b + c) == (a + b) + c
  {
  }

  // What the scan finds, for every document

  /** A stretch of text followed by a style block. */
  datatype Part = Part(text: string, attrs: string, body: string)

  function Block(p: Part): string {
    "<style" + (p.attrs + (">" + (p.body + "</style>")))
  }

  function Document(parts: seq<Part>, tail: string): string {
    if parts == [] then tail else parts[0].text + (Block(parts[0]) + Document(parts[1..], tail))
  }

  function Bodies(parts: seq<Part>): seq<string> {
    if parts == [] then [] else [parts[0].body] + Bodies(parts[1..])
  }

  ghost predicate CleanBlock(p: Part) {
    '>' !in p.attrs && !Contains(p.body, "</style>")
  }

  /** Blocks with a clean tag and body, and gaps in which no block starts. */
  ghost predicate Parsed(parts: seq<Part>, tail: string) {
    if parts == [] then NoMatchIn(StyleBlock, tail, |tail|)
    else
      && CleanBlock(parts[0])
      && NoMatchIn(StyleBlock, Document(parts, tail), |parts[0].text|)
      && Parsed(parts[1..], tail)
  }

  lemma BodyFound(close: string, body: string, rest: string)
    requires close != "" && !Contains(body, close)
    requires forall k :: 1 <= k < |close| ==> close[k] != close[0]
    ensures BodyHere(close, body + (close + rest)) == Some(Match(0, body, |body| + |close|))
  {
    BodyEnds(body, close, rest);
  }

  lemma TagFound(close: string, attrs: string, after: string)
    requires close != "" && '>' !in attrs
    ensures TagHere(close, attrs + (">" + after)) == Shift(BodyHere(close, after), |attrs| + 1)
  {
    TagEnds(attrs, after);
    assert (attrs + (">" + after))[|attrs| + 1..] == after;
  }

  lemma OpenFound(open: string, close: string, inner: string)
    requires close != ""
    ensures TagBlock(open, close, open + inner) == Shift(TagHere(close, inner), |open|)
  {
    assert (open + inner)[|open|..] == inner;
  }

  lemma TagBlockFound(open: string, close: string, attrs: string, body: string, rest: string)
    requires close != "" && '>' !in attrs && !Contains(body, close)
    requires forall k :: 1 <= k < |close| ==> close[k] != close[0]
    ensures TagBlock(open, close, open + (attrs + (">" + (body + (close + rest))))) ==
      Some(Match(0, body, |open| + |attrs| + 1 + |body| + |close|))
  {
    var after := body + (close + rest);
    BodyFound(close, body, rest);
    TagFound(close, attrs, after);
    OpenFound(open, close, attrs + (">" + after));
  }

  /** A clean block is recognised with exactly its own body, whatever follows it. */
  lemma CleanBlockFound(p: Part, rest: string)
    requires CleanBlock(p)
    ensures StyleBlock(Block(p) + rest) == Some(Match(0, p.body, |Block(p)|))
  {
    Regroup(p, rest);
    TagBlockFound(OPEN, CLOSE, p.attrs, p.body, rest);
  }

  /** The scan returns exactly the block bodies of a parse, in order and once each. */
  lemma {:induction false} ScanOfParse(parts: seq<Part>, tail: string)
    requires Parsed(parts, tail)
    ensures StyleBodies(Document(parts, tail)) == Bodies(parts)
  {
    var s := Document(parts, tail);
    StyleBlockConsumes();
    if parts == [] {
      ExecNone(StyleBlock, s);
    } else {
      var p, rest := parts[0], Document(parts[1..], tail);
      var n := |p.text|;
      assert s[n..] == Block(p) + rest;
      CleanBlockFound(p, rest);
      ExecSkips(StyleBlock, s, n, Match(0, p.body, |Block(p)|));
      assert s[n + |Block(p)|..] == rest;
      ScanOfParse(parts[1..], tail);
    }
  }

  /** Every document has such a parse, so the previous result describes every scan. */
  lemma {:induction false} EveryDocumentParses(html: string) returns (parts: seq<Part>, tail: string)
    ensures Document(parts, tail) == html
    ensures Parsed(parts, tail)
    decreases |html|
  {
    StyleBlockConsumes();
    var found := Exec(StyleBlock, html);
    if found == None {
      ExecNone(StyleBlock, html);
      parts, tail := [], html;
    } else {
      var p := FirstPart(html);
      parts, tail := EveryDocumentParses(html[found.value.end..]);
      parts := [p] + parts;
    }
  }

  lemma FirstPart(html: string) returns (p: Part)
    requires Consumes(StyleBlock) && Exec(StyleBlock, html).Some?
    ensures html == p.text + (Block(p) + html[Exec(StyleBlock, html).value.end..])
    ensures CleanBlock(p) && NoMatchIn(StyleBlock, html, |p.text|)
  {
    var text, here, m := ExecSplits(StyleBlock, html);
    p := BlockSplits(here, m, text);
  }

  lemma BlockSplits(s: string, m: Match, text: string) returns (p: Part)
    requires StyleBlock(s) == Some(m)
    ensures p.text == text && p.body == m.group
    ensures s == Block(p) + s[m.end..] && CleanBlock(p)
  {
    var attrs, after := TagBlockSplits(OPEN, CLOSE, s, m);
    p := Part(text, attrs, m.group);
    Regroup(p, after);
  }

  lemma TagBlockSplits(open: string, close: string, s: string, m: Match) returns (attrs: string, after: string)
    requires close != "" && TagBlock(open, close, s) == Some(m)
    ensures m.end <= |s| && after == s[m.end..]
    ensures s == open + (attrs + (">" + (m.group + (close + after)))) && '>' !in attrs && !Contains(m.group, close)
  {
    var inner := s[|open|..];
    var t := TagHere(close, inner).value;
    assert s == open + inner;
    attrs, after := TagSplits(close, inner, t);
    assert inner[t.end..] == s[m.end..];
  }

  lemma TagSplits(close: string, s: string, m: Match) returns (attrs: string, after: string)
    requires close != "" && TagHere(close, s) == Some(m)
    ensures m.end <= |s| && after == s[m.end..]
    ensures s == attrs + (">" + (m.group + (close + after))) && '>' !in attrs && !Contains(m.group, close)
  {
    var gt, b := TagPieces(close, s, m);
    attrs := s[..gt];
    TagCut(s, gt);
    after := BodySplits(close, s[gt + 1..], b);
    assert s[gt + 1..][b.end..] == s[m.end..];
  }

  lemma TagPieces(close: string, s: string, m: Match) returns (gt: nat, b: Match)
    requires close != "" && TagHere(close, s) == Some(m)
    ensures Index(s, ">") == Some(gt) && gt < |s| && BodyHere(close, s[gt + 1..]) == Some(b)
    ensures m.group == b.group && m.end == b.end + (gt + 1)
  {
    gt := Index(s, ">").value;
    b := BodyHere(close, s[gt + 1..]).value;
  }

  lemma TagCut(s: string, gt: nat)
    requires Index(s, ">") == Some(gt)
    ensures s == s[..gt] + (">" + s[gt + 1..]) && '>' !in s[..gt]
  {
    IndexIsFirst(s, ">");
    SplitAround(s, gt, ">");
    forall j | 0 <= j < gt ensures s[j] != '>' {
      AtChar(s, j, '>');
    }
  }

  lemma BodySplits(close: string, s: string, m: Match) returns (after: string)
    requires close != "" && BodyHere(close, s) == Some(m)
    ensures m.end <= |s| && after == s[m.end..]
    ensures s == m.group + (close + after) && !Contains(m.group, close)
  {
    IndexIsFirst(s, close);
    var k := Index(s, close).value;
    after := s[k + |close|..];
    SplitAround(s, k, close);
    forall j: nat ensures !At(m.group, j, close) {
      assert At(m.group, j, close) ==> At(s, j, close) && j < k;
    }
  }

  lemma Regroup(p: Part, after: string)
    ensures OPEN + (p.attrs + (">" + (p.body + (CLOSE + after)))) == Block(p) + after
  {
    var attrs, body := p.attrs, p.body;
    var open, gt, close := OPEN, ">", CLOSE;
    assert body + (close + after) == (body + close) + after;
    assert gt + ((body + close) + after) == (gt + (body + close)) + after;
    assert attrs + ((gt + (body + close)) + after) == (attrs + (gt + (body + close))) + after;
    assert open + ((attrs + (gt + (body + close))) + after) == (open + (attrs + (gt + (body + close)))) + after;
  }

  /**
    In particular: texts without an opening tag, blocks whose attributes contain no
    `>` and whose bodies contain no closing tag.
  */
  lemma ScanOfPlainDocument(parts: seq<Part>, tail: string)
    requires forall p :: p in parts ==> CleanBlock(p) && !Contains(p.text, "<style")
    requires !Contains(tail, "<style")
    ensures StyleBodies(Document(parts, tail)) == Bodies(parts)
  {
    PlainIsParsed(parts, tail);
    ScanOfParse(parts, tail);
  }

  lemma {:induction false} PlainIsParsed(parts: seq<Part>, tail: string)
    requires forall p :: p in parts ==> CleanBlock(p) && !Contains(p.text, OPEN)
    requires !Contains(tail, OPEN)
    ensures Parsed(parts, tail)
  {
    var s := Document(parts, tail);
    if parts == [] {
      forall i | 0 <= i < |tail| ensures !MatchesAt(StyleBlock, tail, i) {
        if OPEN <= tail[i..] {
          PrefixIsAt(tail, i, OPEN);
        }
      }
    } else {
      var p := parts[0];
      assert p in parts;
      PlainIsParsed(parts[1..], tail);
      var follow := Block(p) + Document(parts[1..], tail);
      assert s == p.text + follow;
      forall i | 0 <= i < |p.text| ensures !MatchesAt(StyleBlock, s, i) {
        if OPEN <= s[i..] {
          PrefixIsAt(s, i, OPEN);
          NoStraddle(p.text, follow, OPEN, i);
          assert Contains(p.text, OPEN);
        }
      }
    }
  }
}
