/**
  The Cartesian product of the option axes of a catalogue item: one map from
  axis name to value for every combination.
*/
module Cartesian {

  datatype Axis = Axis(name: string, values: seq<string>)

  type Combo = map<string, string>

  // The reference: combinations numbered in mixed radix, the last axis fastest.

  /** Axes without values do not take part. */
  function NonEmpty(axes: seq<Axis>): seq<Axis> {
    if axes == [] then []
    else if axes[|axes| - 1].values == [] then NonEmpty(axes[..|axes| - 1])
    else NonEmpty(axes[..|axes| - 1]) + [axes[|axes| - 1]]
  }

  function Product(axes: seq<Axis>): nat {
    if axes == [] then 1 else Product(axes[..|axes| - 1]) * |axes[|axes| - 1].values|
  }

  ghost predicate AllNonEmpty(axes: seq<Axis>) {
    forall j :: 0 <= j < |axes| ==> axes[j].values != []
  }

  /** The digit of the number i at axis j: later axes are the faster digits. */
  function Digit(axes: seq<Axis>, i: nat, j: nat): (d: nat)
    requires AllNonEmpty(axes) && j < |axes|
    ensures d < |axes[j].values|
    decreases |axes|
  {
    var n := |axes| - 1;
    if j == n then i % |axes[n].values|
    else Digit(axes[..n], i / |axes[n].values|, j)
  }

  /** The combination that picks, at each axis in turn, the value at the digit; a repeated name is overwritten. */
  function ComboAt(axes: seq<Axis>, i: nat): Combo
    requires AllNonEmpty(axes)
  {
    if axes == [] then map[]
    else
      var n := |axes| - 1;
      var last := axes[n];
      ComboAt(axes[..n], i / |last.values|)[last.name := last.values[i % |last.values|]]
  }

  ghost predicate DistinctNames(axes: seq<Axis>) {
    forall j, k :: 0 <= j < k < |axes| ==> axes[j].name != axes[k].name
  }

  ghost predicate DistinctValues(axes: seq<Axis>) {
    forall j :: 0 <= j < |axes| ==>
      forall a, b :: 0 <= a < b < |axes[j].values| ==> axes[j].values[a] != axes[j].values[b]
  }

  /** A choice of one value for each axis and nothing else. */
  ghost predicate IsCombination(axes: seq<Axis>, c: Combo) {
    && (forall name :: name in c <==> HasAxis(axes, name))
    && (forall j :: 0 <= j < |axes| ==> axes[j].name in c && c[axes[j].name] in axes[j].values)
  }

  lemma {:induction false} NonEmptyMembers(axes: seq<Axis>)
    ensures AllNonEmpty(NonEmpty(axes))
    ensures forall a :: a in NonEmpty(axes) <==> a in axes && a.values != []
  {
    if axes != [] {
      var n := |axes| - 1;
      NonEmptyMembers(axes[..n]);
      assert axes == axes[..n] + [axes[n]];
    }
  }

  lemma MulAtLeastOne(a: nat, b: nat)
    requires a >= 1 && b >= 1
    ensures a * b >= 1
  {
  }

  lemma MultipleSize(b: int, k: int)
    requires b >= 1
    ensures k >= 1 ==> b * k >= b
    ensures k <= -1 ==> b * k <= -b
  {
  }

  lemma DivMod(q: nat, b: nat, r: nat)
    requires r < b
    ensures (q * b + r) / b == q && (q * b + r) % b == r
  {
    var x := q * b + r;
    assert x == b * (x / b) + x % b;
    assert b * (q - x / b) == q * b - b * (x / b);
    MultipleSize(b, q - x / b);
  }

  lemma DivBelow(i: nat, p: nat, b: nat)
    requires b >= 1 && i < p * b
    ensures i / b < p
  {
    assert i == b * (i / b) + i % b;
    assert b * (i / b - p) == b * (i / b) - p * b;
    MultipleSize(b, i / b - p);
  }

  /**
    The nested loops: every combination so far is extended by every value of the
    next axis, and an axis that yields nothing is skipped.
  */
  method Combine(options: seq<Axis>) returns (acc: seq<Combo>)
    ensures AllNonEmpty(NonEmpty(options))
    ensures |acc| == Product(NonEmpty(options)) >= 1
    ensures forall i :: 0 <= i < |acc| ==> acc[i] == ComboAt(NonEmpty(options), i)
    ensures DistinctNames(options) ==> forall c :: c in acc <==> IsChoice(options, c)
    ensures DistinctNames(options) && DistinctValues(options) ==> forall i, j :: 0 <= i < j < |acc| ==> acc[i] != acc[j]
    ensures DistinctNames(options) ==> forall i, j :: 0 <= i < j < |acc| ==> ComesBefore(options, acc[i], acc[j])
  {
    acc := [map[]];
    for k := 0 to |options|
      invariant AllNonEmpty(NonEmpty(options[..k]))
      invariant |acc| == Product(NonEmpty(options[..k])) >= 1
      invariant forall i :: 0 <= i < |acc| ==> acc[i] == ComboAt(NonEmpty(options[..k]), i)
    {
      var opt := options[k];
      ghost var axes := NonEmpty(options[..k]);
      assert options[..k + 1][..k] == options[..k];
      NonEmptyMembers(options[..k + 1]);
      var next := ExtendAll(acc, opt, axes);
      if |next| > 0 {
        acc := next;
        assert opt.values != [];
        assert (axes + [opt])[..|axes|] == axes;
        MulAtLeastOne(Product(axes), |opt.values|);
      } else {
        assert opt.values == [] by {
          if opt.values != [] { MulAtLeastOne(|acc|, |opt.values|); }
        }
      }
    }
    assert options[..|options|] == options;
    if DistinctNames(options) {
      CombinedAreChoices(options, acc);
      forall i, j | 0 <= i < j < |acc| ensures ComesBefore(options, acc[i], acc[j]) {
        assert i < j < Product(NonEmpty(options));
        ListedInOrder(options, i, j, acc[i], acc[j]);
      }
    }
  }

  /** The two inner loops: all combinations times all values of one axis. */
  method ExtendAll(acc: seq<Combo>, opt: Axis, ghost axes: seq<Axis>) returns (next: seq<Combo>)
    requires AllNonEmpty(axes) && |acc| == Product(axes)
    requires forall i :: 0 <= i < |acc| ==> acc[i] == ComboAt(axes, i)
    ensures |next| == |acc| * |opt.values|
    ensures opt.values != [] ==> forall i :: 0 <= i < |next| ==> next[i] == ComboAt(axes + [opt], i)
  {
    next := [];
    for c := 0 to |acc|
      invariant |next| == c * |opt.values|
      invariant opt.values != [] ==> Lists(axes + [opt], next)
    {
      ghost var before := |next|;
      for v := 0 to |opt.values|
        invariant |next| == before + v
        invariant opt.values != [] ==> Lists(axes + [opt], next)
      {
        ExtendedAt(axes, opt, c, v, |next|);
        next := next + [acc[c][opt.name := opt.values[v]]];
      }
      OneMoreTime(c, |opt.values|);
    }
  }

  /** The combinations from number 0 on. */
  ghost predicate Lists(axes: seq<Axis>, combos: seq<Combo>)
    requires AllNonEmpty(axes)
  {
    forall i :: 0 <= i < |combos| ==> combos[i] == ComboAt(axes, i)
  }

  lemma OneMoreTime(c: nat, n: nat)
    ensures (c + 1) * n == c * n + n
  {
  }

  lemma ExtendedAt(axes: seq<Axis>, opt: Axis, c: nat, v: nat, i: nat)
    requires AllNonEmpty(axes) && v < |opt.values| && i == c * |opt.values| + v
    ensures ComboAt(axes + [opt], i) == ComboAt(axes, c)[opt.name := opt.values[v]]
  {
    assert (axes + [opt])[..|axes|] == axes;
    DivMod(c, |opt.values|, v);
  }

  // What the numbered combinations are

  /** With distinct axis names, combination i gives every axis the value at its digit. */
  lemma {:induction false} ComboDigits(axes: seq<Axis>, i: nat)
    requires AllNonEmpty(axes) && DistinctNames(axes)
    ensures forall name :: name in ComboAt(axes, i) <==> HasAxis(axes, name)
    ensures forall j :: 0 <= j < |axes| ==>
      axes[j].name in ComboAt(axes, i) && ComboAt(axes, i)[axes[j].name] == axes[j].values[Digit(axes, i, j)]
  {
    if axes != [] {
      var n := |axes| - 1;
      var init := axes[..n];
      var q := i / |axes[n].values|;
      ComboDigits(init, q);
      LastAxis(axes);
      forall j | 0 <= j < |axes|
        ensures axes[j].name in ComboAt(axes, i) && ComboAt(axes, i)[axes[j].name] == axes[j].values[Digit(axes, i, j)]
      {
        if j < n {
          assert init[j] == axes[j] && axes[j].name != axes[n].name;
          assert ComboAt(init, q)[init[j].name] == init[j].values[Digit(init, q, j)];
        }
      }
    }
  }

  predicate HasAxis(axes: seq<Axis>, name: string) {
    exists j :: 0 <= j < |axes| && axes[j].name == name
  }

  lemma LastAxis(axes: seq<Axis>)
    requires axes != []
    ensures forall name :: HasAxis(axes, name) <==> HasAxis(axes[..|axes| - 1], name) || name == axes[|axes| - 1].name
  {
    var n := |axes| - 1;
    forall name ensures HasAxis(axes, name) <==> HasAxis(axes[..n], name) || name == axes[n].name {
      if HasAxis(axes[..n], name) {
        var j :| 0 <= j < n && axes[..n][j].name == name;
        assert axes[j].name == name;
      }
      if HasAxis(axes, name) {
        var j :| 0 <= j < |axes| && axes[j].name == name;
        assert j < n ==> axes[..n][j].name == name;
      }
    }
  }

  /** The weight of axis j: how many combinations the faster axes make. */
  lemma {:induction false} DigitIsMixedRadix(axes: seq<Axis>, i: nat, j: nat)
    requires AllNonEmpty(axes) && j < |axes|
    ensures Product(axes[j + 1..]) >= 1
    ensures Digit(axes, i, j) == (i / Product(axes[j + 1..])) % |axes[j].values|
  {
    var n := |axes| - 1;
    if j == n {
      assert axes[j + 1..] == [];
    } else {
      var base := |axes[n].values|;
      DigitIsMixedRadix(axes[..n], i / base, j);
      assert axes[j + 1..][..n - j - 1] == axes[..n][j + 1..];
      var w := Product(axes[..n][j + 1..]);
      assert Product(axes[j + 1..]) == w * base;
      MulAtLeastOne(w, base);
      DivDiv(i, base, w);
    }
  }

  lemma DivDiv(i: nat, a: nat, b: nat)
    requires a >= 1 && b >= 1
    ensures b * a >= 1
    ensures (i / a) / b == i / (b * a)
  {
    MulAtLeastOne(b, a);
    var q, r := i / a, i % a;
    var q2, r2 := q / b, q % b;
    DivParts(i, a);
    DivParts(q, b);
    Regroup(i, a, b, q, r, q2, r2);
    RoomForDigit(r2, b, a, r);
    DivMod(q2, b * a, r2 * a + r);
  }

  lemma DivParts(x: nat, b: nat)
    requires b >= 1
    ensures x == (x / b) * b + x % b && x % b < b
  {
  }

  lemma Regroup(i: nat, a: nat, b: nat, q: nat, r: nat, q2: nat, r2: nat)
    requires i == q * a + r && q == q2 * b + r2
    ensures i == q2 * (b * a) + (r2 * a + r)
  {
    assert (q2 * b + r2) * a == (q2 * b) * a + r2 * a;
    assert (q2 * b) * a == q2 * (b * a);
  }

  /** The number of a combination, from the index of its value at each axis. */
  function NumberOf(axes: seq<Axis>, choice: seq<nat>): nat
    requires |choice| == |axes|
  {
    if axes == [] then 0
    else
      var n := |axes| - 1;
      NumberOf(axes[..n], choice[..n]) * |axes[n].values| + choice[n]
  }

  lemma {:induction false} NumberOfChoice(axes: seq<Axis>, choice: seq<nat>)
    requires AllNonEmpty(axes) && |choice| == |axes|
    requires forall j :: 0 <= j < |axes| ==> choice[j] < |axes[j].values|
    ensures NumberOf(axes, choice) < Product(axes)
    ensures forall j :: 0 <= j < |axes| ==> Digit(axes, NumberOf(axes, choice), j) == choice[j]
  {
    if axes != [] {
      var n := |axes| - 1;
      var base := |axes[n].values|;
      NumberOfChoice(axes[..n], choice[..n]);
      var q := NumberOf(axes[..n], choice[..n]);
      DivMod(q, base, choice[n]);
      RoomForDigit(q, Product(axes[..n]), base, choice[n]);
      forall j | 0 <= j < |axes|
        ensures Digit(axes, NumberOf(axes, choice), j) == choice[j]
      {
        if j < n {
          assert Digit(axes[..n], q, j) == choice[..n][j];
        }
      }
    }
  }

  lemma RoomForDigit(q: nat, p: nat, base: nat, r: nat)
    requires q < p && r < base
    ensures q * base + r < p * base
  {
    assert (p - q) * base == p * base - q * base;
    MultipleSize(base, p - q);
  }

  /** Two numbers below the product with the same digits are the same number. */
  lemma {:induction false} DigitsDetermine(axes: seq<Axis>, i: nat, k: nat)
    requires AllNonEmpty(axes) && i < Product(axes) && k < Product(axes)
    requires forall j :: 0 <= j < |axes| ==> Digit(axes, i, j) == Digit(axes, k, j)
    ensures i == k
  {
    if axes != [] {
      var n := |axes| - 1;
      var base := |axes[n].values|;
      DivBelow(i, Product(axes[..n]), base);
      DivBelow(k, Product(axes[..n]), base);
      forall j | 0 <= j < n
        ensures Digit(axes[..n], i / base, j) == Digit(axes[..n], k / base, j)
      {
        assert Digit(axes, i, j) == Digit(axes, k, j);
      }
      DigitsDetermine(axes[..n], i / base, k / base);
      assert Digit(axes, i, n) == Digit(axes, k, n);
      assert i == base * (i / base) + i % base && k == base * (k / base) + k % base;
    }
  }

  /**
    With distinct axis names the result holds exactly the combinations of the
    non-empty axes: every listed one is a combination, every combination is listed.
  */
  lemma ListedExactly(axes: seq<Axis>, c: Combo)
    requires AllNonEmpty(axes) && DistinctNames(axes)
    ensures IsCombination(axes, c) <==> exists i: nat :: i < Product(axes) && ComboAt(axes, i) == c
  {
    if i: nat :| i < Product(axes) && ComboAt(axes, i) == c {
      ComboDigits(axes, i);
    }
    if IsCombination(axes, c) {
      CombinationHasNumber(axes, c);
    }
  }

  lemma CombinationHasNumber(axes: seq<Axis>, c: Combo)
    requires AllNonEmpty(axes) && DistinctNames(axes) && IsCombination(axes, c)
    ensures exists i: nat :: i < Product(axes) && ComboAt(axes, i) == c
  {
    var choice: seq<nat> := seq(|axes|, j requires 0 <= j < |axes| => IndexOf(axes[j].values, c[axes[j].name]));
    NumberOfChoice(axes, choice);
    var i := NumberOf(axes, choice);
    ComboDigits(axes, i);
    SameCombo(axes, ComboAt(axes, i), c);
  }

  /** Two combinations that agree at every axis are the same. */
  lemma SameCombo(axes: seq<Axis>, a: Combo, b: Combo)
    requires forall name :: name in a <==> HasAxis(axes, name)
    requires forall name :: name in b <==> HasAxis(axes, name)
    requires forall j :: 0 <= j < |axes| ==>
      axes[j].name in a && axes[j].name in b && a[axes[j].name] == b[axes[j].name]
    ensures a == b
  {
    assert a.Keys == b.Keys;
    forall name | name in a ensures a[name] == b[name] {
      var j :| 0 <= j < |axes| && axes[j].name == name;
    }
  }

  function IndexOf(s: seq<string>, v: string): (k: nat)
    requires v in s
    ensures k < |s| && s[k] == v
  {
    if s[0] == v then 0 else 1 + IndexOf(s[1..], v)
  }

  /** With distinct names and distinct values per axis, no combination is listed twice. */
  lemma NoDuplicates(axes: seq<Axis>, i: nat, k: nat)
    requires AllNonEmpty(axes) && DistinctNames(axes) && DistinctValues(axes)
    requires i < Product(axes) && k < Product(axes) && ComboAt(axes, i) == ComboAt(axes, k)
    ensures i == k
  {
    ComboDigits(axes, i);
    ComboDigits(axes, k);
    forall j | 0 <= j < |axes|
      ensures Digit(axes, i, j) == Digit(axes, k, j)
    {
      var vs := axes[j].values;
      assert vs[Digit(axes, i, j)] == vs[Digit(axes, k, j)];
    }
    DigitsDetermine(axes, i, k);
  }

  // What the caller gets for the options it passed

  predicate TakesPart(options: seq<Axis>, name: string) {
    exists a :: a in options && a.values != [] && a.name == name
  }

  /** One value for each axis that has any, and nothing else. */
  ghost predicate IsChoice(options: seq<Axis>, c: Combo) {
    && (forall name :: name in c <==> TakesPart(options, name))
    && (forall a :: a in options && a.values != [] ==> a.name in c && c[a.name] in a.values)
  }

  /** Leaving out empty axes keeps names and values distinct. */
  lemma {:induction false} NonEmptyKeepsDistinct(options: seq<Axis>)
    ensures DistinctNames(options) ==> DistinctNames(NonEmpty(options))
    ensures DistinctValues(options) ==> DistinctValues(NonEmpty(options))
  {
    if options != [] {
      var n := |options| - 1;
      var rest := NonEmpty(options[..n]);
      NonEmptyKeepsDistinct(options[..n]);
      NonEmptyMembers(options[..n]);
      forall j | 0 <= j < |rest| && DistinctNames(options) ensures rest[j].name != options[n].name {
        assert rest[j] in options[..n];
      }
    }
  }

  lemma ChoiceIsCombination(options: seq<Axis>, c: Combo)
    ensures IsChoice(options, c) <==> IsCombination(NonEmpty(options), c)
  {
    var axes := NonEmpty(options);
    NonEmptyMembers(options);
    forall name ensures TakesPart(options, name) <==> HasAxis(axes, name) {
      if a :| a in options && a.values != [] && a.name == name {
        var j :| 0 <= j < |axes| && axes[j] == a;
      }
      if j :| 0 <= j < |axes| && axes[j].name == name {
        assert axes[j] in options;
      }
    }
    forall j | 0 <= j < |axes| ensures axes[j] in options && axes[j].values != [] {
      assert axes[j] in axes;
    }
    forall a | a in options && a.values != [] ensures exists j :: 0 <= j < |axes| && axes[j] == a {
      assert a in axes;
    }
  }

  /** The combinations are the numbered ones of the axes that take part. */
  ghost predicate ListsAll(axes: seq<Axis>, acc: seq<Combo>) {
    AllNonEmpty(axes) && |acc| == Product(axes) && Lists(axes, acc)
  }

  lemma ListedIsCombination(axes: seq<Axis>, acc: seq<Combo>, c: Combo)
    requires ListsAll(axes, acc) && DistinctNames(axes)
    ensures c in acc <==> IsCombination(axes, c)
  {
    if c in acc {
      var i: nat :| i < |acc| && acc[i] == c;
      assert i < Product(axes) && ComboAt(axes, i) == c;
      ListedExactly(axes, c);
    }
    if IsCombination(axes, c) {
      CombinationHasNumber(axes, c);
      var i: nat :| i < Product(axes) && ComboAt(axes, i) == c;
      assert acc[i] == ComboAt(axes, i) && acc[i] in acc;
    }
  }

  lemma ListedIsChoice(options: seq<Axis>, acc: seq<Combo>, c: Combo)
    requires ListsAll(NonEmpty(options), acc) && DistinctNames(options)
    ensures c in acc <==> IsChoice(options, c)
  {
    NonEmptyKeepsDistinct(options);
    ListedIsCombination(NonEmpty(options), acc, c);
    ChoiceIsCombination(options, c);
  }

  lemma ListedOnce(axes: seq<Axis>, acc: seq<Combo>, i: nat, j: nat)
    requires ListsAll(axes, acc) && DistinctNames(axes) && DistinctValues(axes) && i < j < |acc|
    ensures acc[i] != acc[j]
  {
    if acc[i] == acc[j] { NoDuplicates(axes, i, j); }
  }

  /**
    For options with distinct names, the combinations are exactly the choices of one
    value for each axis that has any; with distinct values, none is listed twice.
  */
  lemma CombinedAreChoices(options: seq<Axis>, acc: seq<Combo>)
    requires ListsAll(NonEmpty(options), acc) && DistinctNames(options)
    ensures forall c :: c in acc <==> IsChoice(options, c)
    ensures DistinctValues(options) ==> forall i, j :: 0 <= i < j < |acc| ==> acc[i] != acc[j]
  {
    forall c ensures c in acc <==> IsChoice(options, c) { ListedIsChoice(options, acc, c); }
    NonEmptyKeepsDistinct(options);
    if DistinctValues(options) {
      forall i, j | 0 <= i < j < |acc| ensures acc[i] != acc[j] { ListedOnce(NonEmpty(options), acc, i, j); }
    }
  }

  // The order of the listing, on the options as they are passed

  predicate Agree(c: Combo, d: Combo, name: string) {
    name in c && name in d && c[name] == d[name]
  }

  /** At option p the one has an earlier value than the other; at every option before p that has values they agree. */
  ghost predicate DecidedAt(options: seq<Axis>, c: Combo, d: Combo, p: nat) {
    && p < |options| && options[p].name in c && options[p].name in d
    && (exists a, b :: 0 <= a < b < |options[p].values| &&
          options[p].values[a] == c[options[p].name] && options[p].values[b] == d[options[p].name])
    && (forall q :: 0 <= q < p && options[q].values != [] ==> Agree(c, d, options[q].name))
  }

  /** Lexicographic order: the first option at which the combinations differ decides. */
  ghost predicate ComesBefore(options: seq<Axis>, c: Combo, d: Combo) {
    exists p :: DecidedAt(options, c, d, p)
  }

  lemma HasValues(options: seq<Axis>, i: nat, q: nat)
    requires DistinctNames(options) && q < |options| && options[q].values != [] && AllNonEmpty(NonEmpty(options))
    ensures options[q].name in ComboAt(NonEmpty(options), i)
  {
    var axes := NonEmpty(options);
    NonEmptyMembers(options);
    NonEmptyKeepsDistinct(options);
    ComboDigits(axes, i);
    assert options[q] in axes;
    var j :| 0 <= j < |axes| && axes[j] == options[q];
    assert HasAxis(axes, options[q].name);
  }

  /** The same choice at the options before the last one: the last one decides. */
  lemma LastDecides(options: seq<Axis>, q: nat, a: Combo, r: nat, r': nat)
    requires options != [] && DistinctNames(options) && AllNonEmpty(NonEmpty(options[..|options| - 1]))
    requires a == ComboAt(NonEmpty(options[..|options| - 1]), q)
    requires r < r' < |options[|options| - 1].values|
    ensures var last := options[|options| - 1];
      ComesBefore(options, a[last.name := last.values[r]], a[last.name := last.values[r']])
  {
    var n := |options| - 1;
    var last := options[n];
    var c, d := a[last.name := last.values[r]], a[last.name := last.values[r']];
    forall j | 0 <= j < n && options[j].values != [] ensures Agree(c, d, options[j].name) {
      assert options[..n][j] == options[j];
      HasValues(options[..n], q, j);
    }
    assert last.values[r] == c[last.name] && last.values[r'] == d[last.name];
    assert DecidedAt(options, c, d, n);
  }

  /** The last option changes nothing about an order decided before it. */
  lemma DecidedBefore(options: seq<Axis>, c: Combo, d: Combo, p: nat, c': Combo, d': Combo)
    requires options != [] && DistinctNames(options) && DecidedAt(options[..|options| - 1], c, d, p)
    requires forall name :: name in c && name != options[|options| - 1].name ==> name in c' && c'[name] == c[name]
    requires forall name :: name in d && name != options[|options| - 1].name ==> name in d' && d'[name] == d[name]
    ensures DecidedAt(options, c', d', p)
  {
    var n := |options| - 1;
    assert options[..n][p] == options[p];
    forall q | 0 <= q < p && options[q].values != [] ensures Agree(c', d', options[q].name) {
      assert options[..n][q] == options[q] && Agree(c, d, options[..n][q].name);
    }
  }

  /** An order decided by the options before the last one, whatever the last one adds. */
  lemma LastFollows(options: seq<Axis>, c: Combo, d: Combo, v: string, w: string)
    requires options != [] && DistinctNames(options) && ComesBefore(options[..|options| - 1], c, d)
    ensures var last := options[|options| - 1].name;
      ComesBefore(options, c, d) && ComesBefore(options, c[last := v], d[last := w])
  {
    var last := options[|options| - 1].name;
    var p :| DecidedAt(options[..|options| - 1], c, d, p);
    DecidedBefore(options, c, d, p, c, d);
    DecidedBefore(options, c, d, p, c[last := v], d[last := w]);
  }

  lemma FrontOptions(options: seq<Axis>)
    requires options != [] && DistinctNames(options)
    ensures var front := options[..|options| - 1];
      DistinctNames(front) && AllNonEmpty(NonEmpty(front))
    ensures options[|options| - 1].values == [] ==> NonEmpty(options) == NonEmpty(options[..|options| - 1])
    ensures options[|options| - 1].values != [] ==>
      NonEmpty(options) == NonEmpty(options[..|options| - 1]) + [options[|options| - 1]]
  {
    NonEmptyMembers(options[..|options| - 1]);
  }

  /** A number as the digit of the last axis and the number of what is before it. */
  lemma LastDigit(axes: seq<Axis>, last: Axis, i: nat) returns (q: nat, r: nat)
    requires AllNonEmpty(axes) && last.values != [] && i < Product(axes + [last])
    ensures q < Product(axes) && r < |last.values| && i == q * |last.values| + r
    ensures ComboAt(axes + [last], i) == ComboAt(axes, q)[last.name := last.values[r]]
  {
    var base := |last.values|;
    assert (axes + [last])[..|axes|] == axes;
    q, r := i / base, i % base;
    DivParts(i, base);
    DivBelow(i, Product(axes), base);
    ExtendedAt(axes, last, q, r, i);
  }

  lemma DigitsInOrder(q: nat, r: nat, q': nat, r': nat, base: nat)
    requires r < base && r' < base && q * base + r < q' * base + r'
    ensures q < q' || (q == q' && r < r')
  {
    MultipleSize(base, q - q');
    assert base * (q - q') == q * base - q' * base;
  }

  /** Main result: combinations are listed in lexicographic order of the options as passed, the first deciding most. */
  lemma {:induction false} ListedInOrder(options: seq<Axis>, i: nat, k: nat, c: Combo, d: Combo)
    requires DistinctNames(options) && AllNonEmpty(NonEmpty(options)) && i < k < Product(NonEmpty(options))
    requires c == ComboAt(NonEmpty(options), i) && d == ComboAt(NonEmpty(options), k)
    ensures ComesBefore(options, c, d)
  {
    if options != [] {
      var front, last := options[..|options| - 1], options[|options| - 1];
      FrontOptions(options);
      if last.values == [] {
        ListedInOrder(front, i, k, c, d);
        LastFollows(options, c, d, "", "");
      } else {
        var q, r := LastDigit(NonEmpty(front), last, i);
        var q', r' := LastDigit(NonEmpty(front), last, k);
        DigitsInOrder(q, r, q', r', |last.values|);
        var a, b := ComboAt(NonEmpty(front), q), ComboAt(NonEmpty(front), q');
        if q < q' {
          ListedInOrder(front, q, q', a, b);
          LastFollows(options, a, b, last.values[r], last.values[r']);
        } else {
          LastDecides(options, q, a, r, r');
        }
      }
    }
  }
}
