/** Ids in the order a text primary key sorts them: lexicographic by code point. */
module Ordering {

  predicate Less(a: string, b: string) {
    if b == [] then false
    else if a == [] then true
    else a[0] < b[0] || (a[0] == b[0] && Less(a[1..], b[1..]))
  }

  /** The texts agree on n characters, and then the first ends or has the smaller character. */
  predicate DiffersAt(a: string, b: string, n: nat) {
    n <= |a| && n < |b| && a[..n] == b[..n] && (n == |a| || a[n] < b[n])
  }

  /** The order is decided by the first difference. */
  lemma {:induction false} LessByFirstDifference(a: string, b: string)
    ensures Less(a, b) <==> exists n: nat :: DiffersAt(a, b, n)
  {
    if a == [] || b == [] || a[0] != b[0] {
      assert Less(a, b) ==> DiffersAt(a, b, 0);
    } else {
      LessByFirstDifference(a[1..], b[1..]);
      if n: nat :| DiffersAt(a[1..], b[1..], n) {
        assert a[..n + 1] == [a[0]] + a[1..][..n] && b[..n + 1] == [b[0]] + b[1..][..n];
        assert DiffersAt(a, b, n + 1);
      }
      if n: nat :| DiffersAt(a, b, n) {
        assert a[1..][..n - 1] == a[..n][1..] && b[1..][..n - 1] == b[..n][1..];
        assert DiffersAt(a[1..], b[1..], n - 1);
      }
    }
  }

  lemma {:induction false} LessTransitive(a: string, b: string, c: string)
    requires Less(a, b) && Less(b, c)
    ensures Less(a, c)
  {
    if a != [] && a[0] == b[0] == c[0] {
      LessTransitive(a[1..], b[1..], c[1..]);
    }
  }

  lemma {:induction false} LessIrreflexive(a: string)
    ensures !Less(a, a)
  {
    if a != [] { LessIrreflexive(a[1..]); }
  }

  lemma {:induction false} LessTotal(a: string, b: string)
    ensures a == b || Less(a, b) || Less(b, a)
  {
    if a != [] && b != [] && a[0] == b[0] {
      LessTotal(a[1..], b[1..]);
      assert a == [a[0]] + a[1..] && b == [b[0]] + b[1..];
    }
  }

  lemma LessAsymmetric(a: string, b: string)
    requires Less(a, b)
    ensures !Less(b, a) && a != b
  {
    LessIrreflexive(a);
    if Less(b, a) { LessTransitive(a, b, a); }
  }

  predicate IsLeast(m: string, s: set<string>) {
    m in s && forall x :: x in s ==> x == m || Less(m, x)
  }

  lemma {:induction false} LeastExists(s: set<string>)
    requires s != {}
    ensures exists m :: IsLeast(m, s)
  {
    var x :| x in s;
    var rest := s - {x};
    if rest == {} {
      assert s == {x};
      assert IsLeast(x, s);
    } else {
      LeastExists(rest);
      var m :| IsLeast(m, rest);
      LessTotal(x, m);
      if Less(x, m) {
        forall y | y in s ensures y == x || Less(x, y) {
          if y != x && y != m { LessTransitive(x, m, y); }
        }
        assert IsLeast(x, s);
      } else {
        assert IsLeast(m, s);
      }
    }
  }

  lemma LeastIsUnique(m: string, n: string, s: set<string>)
    requires IsLeast(m, s) && IsLeast(n, s)
    ensures m == n
  {
    if m != n { LessAsymmetric(m, n); }
  }

  function Least(s: set<string>): (m: string)
    requires s != {}
    ensures IsLeast(m, s)
  {
    LeastExists(s);
    assert forall m, n :: IsLeast(m, s) && IsLeast(n, s) ==> m == n by {
      forall m, n | IsLeast(m, s) && IsLeast(n, s) ensures m == n { LeastIsUnique(m, n, s); }
    }
    var m :| m in s && IsLeast(m, s);
    m
  }

  /** ORDER BY id ASC */
  function Sorted(s: set<string>): seq<string> {
    if s == {} then [] else [Least(s)] + Sorted(s - {Least(s)})
  }

  ghost predicate Ascending(s: seq<string>) {
    forall i, j :: 0 <= i < j < |s| ==> Less(s[i], s[j])
  }

  lemma {:induction false} SortedIsAscending(s: set<string>)
    ensures Ascending(Sorted(s))
    ensures forall x :: x in Sorted(s) <==> x in s
    ensures |Sorted(s)| == |s|
  {
    if s != {} {
      SortedIsAscending(s - {Least(s)});
      var t := Sorted(s - {Least(s)});
      forall i, j | 0 <= i < j < |Sorted(s)| ensures Less(Sorted(s)[i], Sorted(s)[j]) {
        if i == 0 { assert t[j - 1] in t; } else { assert Less(t[i - 1], t[j - 1]); }
      }
    }
  }

  /** Two ascending lists of the same ids are the same list. */
  lemma {:induction false} AscendingIsUnique(s: seq<string>, t: seq<string>)
    requires Ascending(s) && Ascending(t) && forall x :: x in s <==> x in t
    ensures s == t
  {
    assert s != [] ==> s[0] in s;
    assert t != [] ==> t[0] in t;
    if s != [] {
      assert s[0] in t && t != [] && t[0] in s;
      FirstIsLeast(s);
      FirstIsLeast(t);
      assert s[0] == t[0] by { if s[0] != t[0] { LessAsymmetric(s[0], t[0]); } }
      forall x ensures x in s[1..] <==> x in t[1..] {
        assert x in s <==> x == s[0] || x in s[1..];
        assert x in t <==> x == t[0] || x in t[1..];
      }
      AscendingIsUnique(s[1..], t[1..]);
      assert s == [s[0]] + s[1..] && t == [t[0]] + t[1..];
    }
  }

  lemma FirstIsLeast(s: seq<string>)
    requires s != [] && Ascending(s)
    ensures forall x :: x in s ==> x == s[0] || Less(s[0], x)
    ensures s[0] !in s[1..]
  {
    LessIrreflexive(s[0]);
  }

  /** In an ascending list, what comes after position i is exactly what is greater than its element. */
  lemma AfterPosition(s: seq<string>, i: nat, id: string)
    requires Ascending(s) && i < |s| && id in s
    ensures id in s[i + 1..] <==> Less(s[i], id)
  {
    var j :| 0 <= j < |s| && s[j] == id;
    assert forall x :: x in s[i + 1..] ==> Less(s[i], x);
    LessIrreflexive(s[i]);
    if j < i {
      LessAsymmetric(s[j], s[i]);
    } else if j > i {
      assert s[i + 1..][j - i - 1] == id;
    }
  }
}
