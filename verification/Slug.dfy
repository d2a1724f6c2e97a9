/**
  The slug preview of the catalogue panel: a pipeline of string replacements that
  is almost, but not quite, idempotent.
*/
module Slug {

  /** Lower-casing of the host language; nothing is assumed about it unless a lemma says so. */
  type Lower = string -> string

  predicate SlugChar(c: char) {
    'a' <= c <= 'z' || '0' <= c <= '9'
  }

  /** White space and line terminators, as String.trim knows them. */
  predicate Blank(c: char) {
    var u := c as int;
    || 0x9 <= u <= 0xD || u == 0x20 || u == 0xA0 || u == 0x1680 || 0x2000 <= u <= 0x200A
    || u == 0x2028 || u == 0x2029 || u == 0x202F || u == 0x205F || u == 0x3000 || u == 0xFEFF
  }

  function TrimStart(s: string): string {
    if s != [] && Blank(s[0]) then TrimStart(s[1..]) else s
  }

  function TrimEnd(s: string): string {
    if s != [] && Blank(s[|s| - 1]) then TrimEnd(s[..|s| - 1]) else s
  }

  /** replace(/['"]/g, "") */
  function DropQuotes(s: string): string {
    if s == [] then []
    else (if s[0] == '\'' || s[0] == '"' then [] else [s[0]]) + DropQuotes(s[1..])
  }

  /** Length of the longest prefix of slug characters (of other characters if `inside` is false). */
  function RunLength(s: string, inside: bool): (n: nat)
    ensures n <= |s|
    ensures forall i :: 0 <= i < n ==> SlugChar(s[i]) == inside
    ensures n < |s| ==> SlugChar(s[n]) != inside
  {
    if s != [] && SlugChar(s[0]) == inside then 1 + RunLength(s[1..], inside) else 0
  }

  /** replace(/[^a-z0-9]+/g, "-"): every maximal run of other characters becomes one dash. */
  function DashRuns(s: string): string {
    if s == [] then []
    else if SlugChar(s[0]) then [s[0]] + DashRuns(s[1..])
    else ['-'] + DashRuns(s[RunLength(s, false)..])
  }

  function StripStart(s: string): string {
    if s != [] && s[0] == '-' then StripStart(s[1..]) else s
  }

  function StripEnd(s: string): string {
    if s != [] && s[|s| - 1] == '-' then StripEnd(s[..|s| - 1]) else s
  }

  const MAX_SLUG := 80

  function Take(s: string): string {
    if |s| <= MAX_SLUG then s else s[..MAX_SLUG]
  }

  /** The pipeline before the cut. */
  function Hyphenate(s: string): string {
    StripEnd(StripStart(DashRuns(s)))
  }

  function Slugify(lower: Lower, s: string): string {
    Take(Hyphenate(DropQuotes(TrimEnd(TrimStart(lower(s))))))
  }

  // The reference: the maximal words of slug characters, joined by single dashes.

  function Words(s: string): seq<string>
    decreases |s|
  {
    if s == [] then []
    else if SlugChar(s[0]) then [s[..RunLength(s, true)]] + Words(s[RunLength(s, true)..])
    else Words(s[1..])
  }

  function Join(words: seq<string>): string {
    if words == [] then []
    else if |words| == 1 then words[0]
    else words[0] + "-" + Join(words[1..])
  }

  ghost predicate AllSlug(w: string) {
    forall i :: 0 <= i < |w| ==> SlugChar(w[i])
  }

  lemma {:induction false} WordsAreWords(s: string)
    ensures forall w :: w in Words(s) ==> w != [] && AllSlug(w)
    decreases |s|
  {
    if s == [] {
    } else if SlugChar(s[0]) {
      WordsAreWords(s[RunLength(s, true)..]);
    } else {
      WordsAreWords(s[1..]);
    }
  }

  /** What follows a run of other characters has the same words. */
  lemma {:induction false} WordsSkip(s: string, n: nat)
    requires n <= RunLength(s, false)
    ensures Words(s) == Words(s[n..])
  {
    if n == 0 {
      assert s[0..] == s;
    } else {
      WordsSkip(s[1..], n - 1);
      assert s[1..][n - 1..] == s[n..];
    }
  }

  lemma {:induction false} DashRunsOfWord(s: string, n: nat)
    requires n <= RunLength(s, true)
    ensures DashRuns(s) == s[..n] + DashRuns(s[n..])
  {
    if n == 0 {
      assert s[0..] == s;
    } else {
      var t := s[1..];
      DashRunsOfWord(t, n - 1);
      assert t[n - 1..] == s[n..];
      assert s[..n] == [s[0]] + t[..n - 1];
      assert DashRuns(s) == [s[0]] + DashRuns(t);
    }
  }

  lemma {:induction false} StripEndOfWord(w: string, t: string)
    requires w != [] && w[|w| - 1] != '-'
    ensures StripEnd(w + t) == w + StripEnd(t)
    decreases |t|
  {
    if t == [] {
      assert w + t == w;
    } else if t[|t| - 1] == '-' {
      assert (w + t)[..|w + t| - 1] == w + t[..|t| - 1];
      StripEndOfWord(w, t[..|t| - 1]);
    }
  }

  lemma WordAtEnd(s: string, n: nat)
    requires 0 < n == RunLength(s, true) && n + RunLength(s[n..], false) == |s|
    ensures StripEnd(DashRuns(s)) == s[..n] && Words(s) == [s[..n]]
  {
    var w, rest := s[..n], s[n..];
    DashRunsOfWord(s, n);
    WordsSkip(rest, |rest|);
    assert rest[|rest|..] == [];
    assert DashRuns(rest) == if rest == [] then "" else "-";
    assert StripEnd("-") == [] by { assert "-"[..0] == []; }
    StripEndOfWord(w, DashRuns(rest));
    assert w + [] == w;
  }

  lemma WordBeforeWord(s: string, w: string, rest: string, next: string)
    requires w == s[..RunLength(s, true)] && rest == s[RunLength(s, true)..] && w != []
    requires rest != [] && next == rest[RunLength(rest, false)..]
    requires StripEnd(DashRuns(next)) != []
    ensures StripEnd(DashRuns(s)) == (w + "-") + StripEnd(DashRuns(next))
    ensures Words(s) == [w] + Words(next)
  {
    DashRunsOfWord(s, RunLength(s, true));
    GapBeforeWord(rest, RunLength(rest, false));
    var d := DashRuns(next);
    Reassociate(w, ['-'], d);
    StripEndLonger(w + ['-'], d);
  }

  lemma Reassociate(a: string, b: string, c: string)
    ensures a + (b + c) == (a + b) + c
  {
  }

  lemma GapBeforeWord(rest: string, m: nat)
    requires rest != [] && !SlugChar(rest[0]) && m == RunLength(rest, false)
    ensures DashRuns(rest) == ['-'] + DashRuns(rest[m..]) && Words(rest) == Words(rest[m..])
  {
    WordsSkip(rest, m);
  }

  /** A text that starts with a word. */
  lemma {:induction false} HyphenateFromWord(s: string)
    requires s != [] && SlugChar(s[0])
    ensures StripEnd(DashRuns(s)) == Join(Words(s))
    ensures Words(s) != [] && StripEnd(DashRuns(s)) != []
    decreases |s|
  {
    var n := RunLength(s, true);
    var w, rest := s[..n], s[n..];
    var m := RunLength(rest, false);
    if m == |rest| {
      WordAtEnd(s, n);
    } else {
      var next := rest[m..];
      assert next[0] == rest[m];
      HyphenateFromWord(next);
      WordBeforeWord(s, w, rest, next);
    }
  }

  lemma {:induction false} StripEndLonger(a: string, t: string)
    requires StripEnd(t) != []
    ensures StripEnd(a + t) == a + StripEnd(t)
    decreases |t|
  {
    if t[|t| - 1] == '-' {
      assert (a + t)[..|a + t| - 1] == a + t[..|t| - 1];
      StripEndLonger(a, t[..|t| - 1]);
    }
  }

  lemma {:induction false} JoinShape(words: seq<string>)
    requires forall w :: w in words ==> w != [] && AllSlug(w)
    ensures Tidy(Join(words))
    ensures words != [] ==> Join(words) != []
  {
    if |words| == 1 {
      assert words[0] in words;
    } else if |words| >= 2 {
      assert forall w :: w in words[1..] ==> w in words;
      JoinShape(words[1..]);
      var r, t := Join(words), Join(words[1..]);
      var w := words[0];
      assert w in words && AllSlug(w) && SlugChar(r[0]);
      forall i | 0 <= i < |r| ensures SlugChar(r[i]) || r[i] == '-' {
        if i < |w| { assert r[i] == w[i]; } else if i > |w| { assert r[i] == t[i - |w| - 1]; }
      }
      forall i | 0 <= i < |r| - 1 && r[i] == '-' ensures r[i + 1] != '-' {
        if i >= |w| {
          assert r[i + 1] == t[i - |w|];
          if i > |w| { assert r[i] == t[i - |w| - 1]; }
        }
      }
      assert r[|r| - 1] == t[|t| - 1];
    }
  }

  /** Slug characters and single dashes, with no dash at either end. */
  ghost predicate Tidy(s: string) {
    && (forall i :: 0 <= i < |s| ==> SlugChar(s[i]) || s[i] == '-')
    && (forall i :: 0 <= i < |s| - 1 && s[i] == '-' ==> s[i + 1] != '-')
    && (s != [] ==> s[0] != '-' && s[|s| - 1] != '-')
  }

  /** Before the cut, the pipeline is the words of its input joined by single dashes. */
  lemma HyphenateIsJoinedWords(s: string)
    ensures Hyphenate(s) == Join(Words(s))
  {
    var m := RunLength(s, false);
    WordsSkip(s, m);
    var t := s[m..];
    if s == [] {
    } else if m == 0 {
      assert t == s;
      assert StripStart(DashRuns(s)) == DashRuns(s);
      HyphenateFromWord(s);
    } else {
      assert DashRuns(s) == "-" + DashRuns(t);
      assert ("-" + DashRuns(t))[1..] == DashRuns(t);
      if t != [] {
        assert StripStart(DashRuns(t)) == DashRuns(t);
        HyphenateFromWord(t);
      }
    }
  }

  // Trimming

  lemma {:induction false} WordsOfAppend(a: string, b: string)
    requires forall i :: 0 <= i < |b| ==> !SlugChar(b[i])
    ensures Words(a + b) == Words(a)
    decreases |a|
  {
    if a == [] {
      assert a + b == b;
      assert RunLength(b, false) == |b|;
      WordsSkip(b, |b|);
    } else if SlugChar(a[0]) {
      var n := RunLength(a, true);
      assert RunLength(a + b, true) == n by { RunOfAppend(a, b); }
      assert (a + b)[..n] == a[..n];
      assert (a + b)[n..] == a[n..] + b;
      WordsOfAppend(a[n..], b);
    } else {
      assert (a + b)[1..] == a[1..] + b;
      WordsOfAppend(a[1..], b);
    }
  }

  lemma {:induction false} RunOfAppend(a: string, b: string)
    requires b == [] || !SlugChar(b[0])
    ensures RunLength(a + b, true) == RunLength(a, true)
  {
    if a == [] {
      assert a + b == b;
    } else {
      assert (a + b)[1..] == a[1..] + b;
      RunOfAppend(a[1..], b);
    }
  }

  lemma {:induction false} DropQuotesAppend(a: string, b: string)
    ensures DropQuotes(a + b) == DropQuotes(a) + DropQuotes(b)
  {
    if a == [] {
      assert a + b == b;
    } else {
      assert (a + b)[1..] == a[1..] + b;
      DropQuotesAppend(a[1..], b);
    }
  }

  /** Both kinds of quotes are left out, and every other character stays where it was among the others. */
  lemma DropQuotesExactly(s: string, c: char, t: string)
    ensures DropQuotes("") == ""
    ensures DropQuotes(s + ([c] + t)) == DropQuotes(s) + ((if c in {'\'', '"'} then "" else [c]) + DropQuotes(t))
  {
    DropQuotesAppend(s, [c] + t);
    assert ([c] + t)[1..] == t;
  }

  lemma {:induction false} TrimStartWords(s: string)
    ensures Words(DropQuotes(TrimStart(s))) == Words(DropQuotes(s))
  {
    if s != [] && Blank(s[0]) {
      TrimStartWords(s[1..]);
      assert DropQuotes(s) == [s[0]] + DropQuotes(s[1..]);
    }
  }

  lemma {:induction false} TrimEndWords(s: string)
    ensures Words(DropQuotes(TrimEnd(s))) == Words(DropQuotes(s))
    decreases |s|
  {
    if s != [] && Blank(s[|s| - 1]) {
      var n := |s| - 1;
      TrimEndWords(s[..n]);
      assert s == s[..n] + [s[n]];
      DropQuotesAppend(s[..n], [s[n]]);
      assert DropQuotes([s[n]]) == [s[n]] by { assert [s[n]][1..] == []; }
      WordsOfAppend(DropQuotes(s[..n]), [s[n]]);
    }
  }

  /**
    Main result: a slug is the words of the lower-cased text without quotes, joined
    by single dashes and cut at 80 characters; trimming never changes it.
  */
  lemma SlugIsJoinedWords(lower: Lower, s: string)
    ensures Slugify(lower, s) == Take(Join(Words(DropQuotes(lower(s)))))
  {
    var t := lower(s);
    TrimStartWords(t);
    TrimEndWords(TrimStart(t));
    HyphenateIsJoinedWords(DropQuotes(TrimEnd(TrimStart(t))));
  }

  /** The shape of every slug, whatever lower-casing does. */
  lemma SlugShape(lower: Lower, s: string)
    ensures var r := Slugify(lower, s);
      && |r| <= MAX_SLUG
      && (forall i :: 0 <= i < |r| ==> SlugChar(r[i]) || r[i] == '-')
      && (forall i :: 0 <= i < |r| - 1 && r[i] == '-' ==> r[i + 1] != '-')
      && (r != [] ==> r[0] != '-')
      && (r != [] && r[|r| - 1] == '-' ==> |r| == MAX_SLUG)
  {
    SlugIsJoinedWords(lower, s);
    WordsAreWords(DropQuotes(lower(s)));
    JoinShape(Words(DropQuotes(lower(s))));
  }

  // Applying the pipeline to a slug again

  /** Lower-casing leaves texts of slug characters and dashes alone. */
  ghost predicate FixesSlugs(lower: Lower) {
    forall s: string :: (forall i :: 0 <= i < |s| ==> SlugChar(s[i]) || s[i] == '-') ==> lower(s) == s
  }

  lemma {:induction false} DropQuotesNone(s: string)
    requires forall i :: 0 <= i < |s| ==> SlugChar(s[i]) || s[i] == '-'
    ensures DropQuotes(s) == s
  {
    if s != [] {
      DropQuotesNone(s[1..]);
    }
  }

  lemma {:induction false} DashRunsOfTidy(s: string)
    requires forall i :: 0 <= i < |s| ==> SlugChar(s[i]) || s[i] == '-'
    requires forall i :: 0 <= i < |s| - 1 && s[i] == '-' ==> s[i + 1] != '-'
    ensures DashRuns(s) == s
  {
    if s == [] {
    } else if SlugChar(s[0]) {
      DashRunsOfTidy(s[1..]);
    } else {
      assert s[1..] != [] ==> SlugChar(s[1..][0]);
      assert RunLength(s, false) == 1;
      DashRunsOfTidy(s[1..]);
    }
  }

  /** On single dashes among slug characters only a dash at the end is stripped. */
  lemma HyphenateOfTidy(r: string)
    requires forall i :: 0 <= i < |r| ==> SlugChar(r[i]) || r[i] == '-'
    requires forall i :: 0 <= i < |r| - 1 && r[i] == '-' ==> r[i + 1] != '-'
    requires r != [] ==> r[0] != '-'
    ensures Hyphenate(r) == if r != [] && r[|r| - 1] == '-' then r[..|r| - 1] else r
  {
    DashRunsOfTidy(r);
    assert StripStart(r) == r;
    if r != [] && r[|r| - 1] == '-' {
      var t := r[..|r| - 1];
      assert t != [] && t[|t| - 1] == r[|r| - 2] != '-';
      assert StripEnd(t) == t;
    }
  }

  lemma TrimNothing(r: string)
    requires forall i :: 0 <= i < |r| ==> SlugChar(r[i]) || r[i] == '-'
    ensures TrimStart(r) == r && TrimEnd(r) == r
  {
  }

  /** The slug of a slug is that slug without a dash left at its end by the cut. */
  lemma SlugOfSlug(lower: Lower, s: string)
    requires FixesSlugs(lower)
    ensures var r := Slugify(lower, s);
      Slugify(lower, r) == if r != [] && r[|r| - 1] == '-' then r[..|r| - 1] else r
  {
    var r := Slugify(lower, s);
    SlugShape(lower, s);
    assert lower(r) == r;
    TrimNothing(r);
    DropQuotesNone(r);
    HyphenateOfTidy(r);
  }

  /** A slug is a fixed point exactly when it does not end in a dash. */
  lemma SlugFixedPointExactly(lower: Lower, s: string)
    requires FixesSlugs(lower)
    ensures var r := Slugify(lower, s);
      Slugify(lower, r) == r <==> (r == [] || r[|r| - 1] != '-')
  {
    SlugOfSlug(lower, s);
  }

  /** The pipeline is idempotent on a text exactly when the cut does not fall right after a dash. */
  lemma SlugIdempotentExactly(lower: Lower, s: string)
    requires FixesSlugs(lower)
    ensures var whole := Join(Words(DropQuotes(lower(s))));
      Slugify(lower, Slugify(lower, s)) == Slugify(lower, s) <==>
      !(|whole| > MAX_SLUG && whole[MAX_SLUG - 1] == '-')
  {
    SlugFixedPointExactly(lower, s);
    SlugIsJoinedWords(lower, s);
    var words := Words(DropQuotes(lower(s)));
    WordsAreWords(DropQuotes(lower(s)));
    JoinShape(words);
    CutAfterDash(Join(words));
  }

  lemma CutAfterDash(whole: string)
    requires Tidy(whole)
    ensures var r := Take(whole);
      (r == [] || r[|r| - 1] != '-') <==> !(|whole| > MAX_SLUG && whole[MAX_SLUG - 1] == '-')
  {
  }

  /** Two applications always reach a fixed point. */
  lemma SlugTwiceIsFixed(lower: Lower, s: string)
    requires FixesSlugs(lower)
    ensures var r := Slugify(lower, Slugify(lower, s)); Slugify(lower, r) == r
  {
    SlugOfSlug(lower, s);
    SlugShape(lower, s);
    SlugOfSlug(lower, Slugify(lower, s));
  }

  /** A text whose slug is not a fixed point: 79 letters, a dash and one more letter. */
  lemma SlugNotIdempotent(lower: Lower)
    requires FixesSlugs(lower)
    ensures exists s :: Slugify(lower, Slugify(lower, s)) != Slugify(lower, s)
  {
    var a := seq(79, i => 'a');
    var s := a + "-b";
    assert lower(s) == s;
    DropQuotesNone(s);
    DashRunsOfTidy(s);
    HyphenateIsJoinedWords(s);
    assert StripStart(s) == s && StripEnd(s) == s;
    assert Join(Words(DropQuotes(lower(s)))) == s;
    SlugIdempotentExactly(lower, s);
  }
}
