/** The version stamp of a cached page: three revision numbers in one string. */
module Stamp {

  function DigitChar(d: nat): char
    requires d < 10
  {
    "0123456789"[d]
  }

  /** A natural number as the host language prints it. */
  function Decimal(n: nat): string {
    if n < 10 then [DigitChar(n)] else Decimal(n / 10) + [DigitChar(n % 10)]
  }

  function StampOf(page: nat, header: nat, footer: nat): string {
    Decimal(page) + (":h" + (Decimal(header) + (":f" + Decimal(footer))))
  }

  lemma {:induction false} DecimalDigits(n: nat)
    ensures Decimal(n) != [] && forall c :: c in Decimal(n) ==> '0' <= c <= '9'
  {
    if n >= 10 { DecimalDigits(n / 10); }
  }

  lemma {:induction false} DecimalInjective(m: nat, n: nat)
    requires Decimal(m) == Decimal(n)
    ensures m == n
  {
    var a, b := Decimal(m), Decimal(n);
    assert a[|a| - 1] == b[|b| - 1];
    if m >= 10 { DecimalDigits(m / 10); assert a[..|a| - 1] == Decimal(m / 10); }
    if n >= 10 { DecimalDigits(n / 10); assert b[..|b| - 1] == Decimal(n / 10); }
    if m >= 10 && n >= 10 {
      DecimalInjective(m / 10, n / 10);
    }
  }

  /** A text of digits ends where a separator starts. */
  lemma SplitAtSeparator(a: string, b: string, x: string, y: string)
    requires forall c :: c in a ==> '0' <= c <= '9'
    requires forall c :: c in b ==> '0' <= c <= '9'
    requires x != [] && y != [] && x[0] == ':' && y[0] == ':'
    requires a + x == b + y
    ensures a == b && x == y
  {
    var s := a + x;
    assert forall i :: 0 <= i < |a| ==> s[i] == a[i] && a[i] in a;
    assert forall i :: 0 <= i < |b| ==> s[i] == b[i] && b[i] in b;
    assert s[|a|] == x[0] && s[|b|] == y[0];
    assert a == s[..|a|] && b == s[..|b|];
    assert x == s[|a|..] && y == s[|b|..];
  }

  /** Equal stamps mean equal revisions of the page, the header and the footer. */
  lemma StampInjective(p1: nat, h1: nat, f1: nat, p2: nat, h2: nat, f2: nat)
    requires StampOf(p1, h1, f1) == StampOf(p2, h2, f2)
    ensures p1 == p2 && h1 == h2 && f1 == f2
  {
    DecimalDigits(p1);
    DecimalDigits(p2);
    DecimalDigits(h1);
    DecimalDigits(h2);
    var u1, u2 := ":f" + Decimal(f1), ":f" + Decimal(f2);
    var t1, t2 := ":h" + (Decimal(h1) + u1), ":h" + (Decimal(h2) + u2);
    SplitAtSeparator(Decimal(p1), Decimal(p2), t1, t2);
    assert t1[2..] == Decimal(h1) + u1 && t2[2..] == Decimal(h2) + u2;
    SplitAtSeparator(Decimal(h1), Decimal(h2), u1, u2);
    assert u1[2..] == Decimal(f1) && u2[2..] == Decimal(f2);
    DecimalInjective(p1, p2);
    DecimalInjective(h1, h2);
    DecimalInjective(f1, f2);
  }

  /** For instance, page revision 12 with header revision 3 and no footer. */
  lemma StampExample()
    ensures StampOf(12, 3, 0) == "12:h3:f0"
  {
    assert Decimal(12) == Decimal(1) + [DigitChar(2)];
  }
}
