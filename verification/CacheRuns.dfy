/**
  What the render cache guarantees over whole runs of operations, proved on the
  recency list that every method of the cache is specified by.
*/
module CacheRuns {
  import opened Wrappers
  import opened Recency
  import C = RenderCache

  datatype Op =
    | Get(key: string)
    | Set(key: string, entry: Entry)
    | InvalidateTag(tag: string)
    | Clear

  function Apply(lim: Limits, s: seq<Slot>, op: Op): seq<Slot> {
    match op
    case Get(key) => Touch(s, key)
    case Set(key, e) => Insert(lim, s, key, e)
    case InvalidateTag(tag) => WithoutTag(s, tag)
    case Clear => []
  }

  function Run(lim: Limits, s: seq<Slot>, ops: seq<Op>): seq<Slot> {
    if ops == [] then s else Apply(lim, Run(lim, s, ops[..|ops| - 1]), ops[|ops| - 1])
  }

  /** A stored page is measured the way the cache measures it. */
  predicate Measured(op: Op) {
    op.Set? ==> op.entry.bytes == C.Footprint(op.key, op.entry.html, op.entry.tags)
  }

  /** Calls on a cache object, one after another: its entries go through the run. */
  method Perform(cache: C.RenderCache, ops: seq<Op>)
    requires cache.Valid() && forall op :: op in ops ==> Measured(op)
    modifies cache
    ensures cache.Valid() && cache.entries == Run(cache.Budget(), old(cache.entries), ops)
  {
    for i := 0 to |ops|
      invariant cache.Valid() && cache.entries == Run(cache.Budget(), old(cache.entries), ops[..i])
    {
      assert ops[..i + 1][..i] == ops[..i] && ops[i] in ops;
      match ops[i]
      case Get(key) => var _ := cache.Get(key);
      case Set(key, e) => cache.Set(key, e.html, e.version, e.tags);
      case InvalidateTag(tag) => cache.InvalidateTag(tag);
      case Clear => cache.Clear();
    }
    assert ops[..|ops|] == ops;
  }

  ghost predicate WithinBudget(lim: Limits, s: seq<Slot>) {
    DistinctKeys(s) && Fits(lim, s)
  }

  lemma ApplyKeepsBudget(lim: Limits, s: seq<Slot>, op: Op)
    requires WithinBudget(lim, s)
    ensures WithinBudget(lim, Apply(lim, s, op))
  {
    match op
    case Get(key) => TouchReorders(s, key);
    case Set(key, e) =>
      WithoutDistinct(s, {key});
      WithoutMembers(s, {key});
      WithoutThenAppendDistinct(s, key, e);
      var full := Without(s, {key}) + [Slot(key, e)];
      EvictIsLongestFittingSuffix(lim, full);
    case InvalidateTag(tag) =>
      KeysForMatches(s, tag);
      PurgeByIndex(s, tag, KeysFor(s, tag));
      WithoutDistinct(s, KeysFor(s, tag));
      WithoutMembers(s, KeysFor(s, tag));
    case Clear =>
  }

  /** Both budgets and the uniqueness of keys hold after every run. */
  lemma {:induction false} RunKeepsBudget(lim: Limits, s: seq<Slot>, ops: seq<Op>)
    requires WithinBudget(lim, s)
    ensures WithinBudget(lim, Run(lim, s, ops))
    ensures TotalBytes(Run(lim, s, ops)) <= lim.maxBytes && |Run(lim, s, ops)| <= lim.maxEntries
  {
    if ops != [] {
      RunKeepsBudget(lim, s, ops[..|ops| - 1]);
      ApplyKeepsBudget(lim, Run(lim, s, ops[..|ops| - 1]), ops[|ops| - 1]);
    }
  }

  // A hit returns the latest store

  /** The operation leaves an entry of this key, with these tags, alone. */
  predicate Spares(op: Op, x: Slot) {
    match op
    case Get(_) => true
    case Set(key, _) => key != x.key
    case InvalidateTag(tag) => tag !in x.entry.tags
    case Clear => false
  }

  /** Operation i stored x and nothing after it replaced, purged or cleared it. */
  ghost predicate LastStoredAt(ops: seq<Op>, i: nat, x: Slot) {
    i < |ops| && ops[i] == Set(x.key, x.entry) && forall j :: i < j < |ops| ==> Spares(ops[j], x)
  }

  /** A slot present after a step was stored by that step, or was there and was spared. */
  lemma ApplyProvenance(lim: Limits, s: seq<Slot>, op: Op, x: Slot)
    requires x in Apply(lim, s, op)
    ensures op == Set(x.key, x.entry) || (x in s && Spares(op, x))
  {
    match op
    case Get(key) =>
      FindIsTheSlot(s, key);
      WithoutMembers(s, {key});
    case Set(key, e) =>
      WithoutMembers(s, {key});
      EvictIsLongestFittingSuffix(lim, Without(s, {key}) + [Slot(key, e)]);
    case InvalidateTag(tag) => PurgeIsExact(s, tag);
    case Clear =>
  }

  /**
    Whatever a lookup finds after any run from an empty cache is the entry of the
    latest store of that key, and no clear and no purge of one of its tags came
    after that store.
  */
  lemma {:induction false} HitIsLatestStore(lim: Limits, ops: seq<Op>, x: Slot)
    requires x in Run(lim, [], ops)
    ensures exists i :: LastStoredAt(ops, i, x)
  {
    var n := |ops| - 1;
    ApplyProvenance(lim, Run(lim, [], ops[..n]), ops[n], x);
    if ops[n] == Set(x.key, x.entry) {
      assert LastStoredAt(ops, n, x);
    } else {
      HitIsLatestStore(lim, ops[..n], x);
      var i :| LastStoredAt(ops[..n], i, x);
      assert LastStoredAt(ops, i, x);
    }
  }

  // What keeps a page in the cache

  /** The entry of the key and everything more recent than it. */
  function From(s: seq<Slot>, key: string): seq<Slot> {
    if s == [] then [] else if s[0].key == key then s else From(s[1..], key)
  }

  lemma {:induction false} FromIsSuffix(s: seq<Slot>, k: nat)
    requires DistinctKeys(s) && k < |s|
    ensures From(s, s[k].key) == s[k..]
  {
    if k > 0 {
      FromIsSuffix(s[1..], k - 1);
      assert s[1..][k - 1..] == s[k..];
    }
  }

  lemma SuffixFits(lim: Limits, s: seq<Slot>, m: nat, k: nat)
    requires m <= k <= |s| && Fits(lim, s[m..])
    ensures Fits(lim, s[k..])
  {
    assert s[m..] == s[m..k] + s[k..];
    TotalBytesAppend(s[m..k], s[k..]);
  }

  /** Eviction keeps an entry exactly when it and everything more recent fit. */
  lemma EvictKeepsExactly(lim: Limits, s: seq<Slot>, k: nat)
    requires DistinctKeys(s) && k < |s|
    ensures s[k] in Evict(lim, s) <==> Fits(lim, s[k..])
  {
    EvictIsLongestFittingSuffix(lim, s);
    var m :| 0 <= m <= |s| && Evict(lim, s) == s[m..] && Fits(lim, s[m..]) &&
      forall j :: 0 <= j < m ==> !Fits(lim, s[j..]);
    if m <= k {
      SuffixFits(lim, s, m, k);
      assert s[m..][k - m] == s[k];
    } else {
      NotInSuffix(s, m, k);
    }
  }

  lemma NotInSuffix(s: seq<Slot>, m: nat, k: nat)
    requires DistinctKeys(s) && k < m <= |s|
    ensures s[k] !in s[m..]
  {
    assert forall i :: 0 <= i < |s[m..]| ==> s[m..][i] == s[m + i];
  }

  /** The list that a store evicts from. */
  function Stored(s: seq<Slot>, key: string, e: Entry): seq<Slot> {
    Without(s, {key}) + [Slot(key, e)]
  }

  /**
    One step, exactly: an entry that the operation spares is still cached after it
    if and only if the operation is no store, or an oversized one, or the entry and
    everything more recent than it still fit together with the new page.
  */
  lemma SurvivesStepExactly(lim: Limits, s: seq<Slot>, op: Op, x: Slot)
    requires WithinBudget(lim, s) && x in s && Spares(op, x)
    ensures x in Apply(lim, s, op) <==>
      (op.Set? && op.entry.bytes <= lim.maxBytes ==> Fits(lim, From(Stored(s, op.key, op.entry), x.key)))
  {
    match op
    case Get(key) => TouchReorders(s, key);
    case InvalidateTag(tag) => PurgeIsExact(s, tag);
    case Clear =>
    case Set(key, e) =>
      WithoutMembers(s, {key});
      if e.bytes <= lim.maxBytes {
        var full := Stored(s, key, e);
        WithoutThenAppendDistinct(s, key, e);
        assert x in full;
        var k :| 0 <= k < |full| && full[k] == x;
        FromIsSuffix(full, k);
        EvictKeepsExactly(lim, full, k);
      }
  }

  // The order of the other entries over a step

  lemma SuffixKeepsOrder(s: seq<Slot>, m: nat, y: Slot, x: Slot)
    requires m <= |s| && DistinctKeys(s) && Before(s, y, x) && y in s[m..]
    ensures Before(s[m..], y, x)
  {
    var i, j :| 0 <= i < j < |s| && s[i] == y && s[j] == x;
    var k :| 0 <= k < |s[m..]| && s[m..][k] == y;
    assert s[m + k] == s[i];
    assert s[m..][i - m] == y && s[m..][j - m] == x;
  }

  lemma StoreKeepsOrder(lim: Limits, s: seq<Slot>, key: string, e: Entry, y: Slot, x: Slot)
    requires DistinctKeys(s) && Before(s, y, x) && y.key != key && x.key != key && y in Insert(lim, s, key, e)
    ensures Before(Insert(lim, s, key, e), y, x)
  {
    var i, j :| 0 <= i < j < |s| && s[i] == y && s[j] == x;
    WithoutKeepsOrder(s, {key}, i, j);
    if e.bytes <= lim.maxBytes {
      var full := Stored(s, key, e);
      BeforeAppend(Without(s, {key}), Slot(key, e), y, x);
      WithoutThenAppendDistinct(s, key, e);
      EvictIsLongestFittingSuffix(lim, full);
      var m :| 0 <= m <= |full| && Evict(lim, full) == full[m..];
      SuffixKeepsOrder(full, m, y, x);
    }
  }

  lemma TouchKeepsOrder(s: seq<Slot>, key: string, y: Slot, x: Slot)
    requires DistinctKeys(s) && Before(s, y, x) && y.key != key
    ensures Before(Touch(s, key), y, x)
  {
    var i, j :| 0 <= i < j < |s| && s[i] == y && s[j] == x;
    TouchReorders(s, key);
    if x.key == key {
      var t := Touch(s, key);
      assert HasKey(s, key) && y in s && x in s;
      FindInDistinct(s, x);
      var k :| 0 <= k < |t| && t[k] == y;
      assert t[|t| - 1] == x;
    }
  }

  /** A step leaves y before x, unless it looks y up, stores over it or removes it. */
  lemma ApplyKeepsOrder(lim: Limits, s: seq<Slot>, op: Op, y: Slot, x: Slot)
    requires WithinBudget(lim, s) && Before(s, y, x) && Spares(op, x) && y in Apply(lim, s, op)
    requires op.Get? || op.Set? ==> op.key != y.key
    ensures Before(Apply(lim, s, op), y, x)
  {
    match op
    case Get(key) => TouchKeepsOrder(s, key, y, x);
    case Set(key, e) => StoreKeepsOrder(lim, s, key, e, y, x);
    case InvalidateTag(tag) =>
      PurgeIsExact(s, tag);
      var i, j :| 0 <= i < j < |s| && s[i] == y && s[j] == x;
    case Clear =>
  }

  // Room for a page and what was used since

  /** The latest entry of each key, whatever has been evicted since. */
  ghost function Latest(lim: Limits, s: seq<Slot>, ops: seq<Op>): map<string, Entry> {
    if ops == [] then map x | x in Keys(s) :: Find(s, x).value
    else
      var c := Latest(lim, s, ops[..|ops| - 1]);
      match ops[|ops| - 1]
      case Get(_) => c
      case Set(key, e) => if e.bytes > lim.maxBytes then c - {key} else c[key := e]
      case InvalidateTag(tag) => map key | key in c && tag !in c[key].tags :: c[key]
      case Clear => map[]
  }

  ghost function Keys(s: seq<Slot>): (keys: set<string>)
    ensures forall key :: key in keys ==> Find(s, key).Some?
    ensures forall x :: x in s ==> x.key in keys
  {
    var keys := set x | x in s :: x.key;
    forall key | key in keys ensures Find(s, key).Some? {
      var x :| x in s && x.key == key;
      InMeansHasKey(s, x);
      FindIsTheSlot(s, key);
    }
    keys
  }

  lemma InMeansHasKey(s: seq<Slot>, x: Slot)
    requires x in s
    ensures HasKey(s, x.key)
  {
    var i :| 0 <= i < |s| && s[i] == x;
  }

  /** The keys that were looked up or stored. */
  ghost function Used(ops: seq<Op>): set<string> {
    set op | op in ops && (op.Get? || op.Set?) :: op.key
  }

  ghost function Pick(keys: set<string>): string
    requires keys != {}
  {
    var k :| k in keys; k
  }

  ghost function SumBytes(c: map<string, Entry>, keys: set<string>): nat
    requires keys <= c.Keys
  {
    if keys == {} then 0 else c[Pick(keys)].bytes + SumBytes(c, keys - {Pick(keys)})
  }

  /** The page and the pages looked up or stored since, each in its latest version, fit both budgets. */
  ghost predicate Room(lim: Limits, s: seq<Slot>, ops: seq<Op>, x: Slot) {
    var c := Latest(lim, s, ops);
    var keys := ({x.key} + Used(ops)) * c.Keys;
    |keys| <= lim.maxEntries && SumBytes(c, keys) <= lim.maxBytes
  }

  lemma {:induction false} SumWithout(c: map<string, Entry>, keys: set<string>, k: string)
    requires keys <= c.Keys && k in keys
    ensures SumBytes(c, keys) == c[k].bytes + SumBytes(c, keys - {k})
  {
    var p := Pick(keys);
    if p != k {
      SumWithout(c, keys - {p}, k);
      SumWithout(c, keys - {k}, p);
      assert keys - {p} - {k} == keys - {k} - {p};
    }
  }

  lemma {:induction false} SlotsBelow(c: map<string, Entry>, s: seq<Slot>, keys: set<string>)
    requires DistinctKeys(s) && keys <= c.Keys
    requires forall y :: y in s ==> y.key in keys && c[y.key] == y.entry
    ensures TotalBytes(s) <= SumBytes(c, keys) && |s| <= |keys|
  {
    if s != [] {
      assert s[0] in s;
      SumWithout(c, keys, s[0].key);
      forall y | y in s[1..] ensures y.key in keys - {s[0].key} && c[y.key] == y.entry {
        assert y in s;
      }
      SlotsBelow(c, s[1..], keys - {s[0].key});
    }
  }

  /** What is cached is the latest entry of its key. */
  lemma {:induction false} CachedIsLatest(lim: Limits, s: seq<Slot>, ops: seq<Op>, y: Slot)
    requires DistinctKeys(s) && y in Run(lim, s, ops)
    ensures y.key in Latest(lim, s, ops) && Latest(lim, s, ops)[y.key] == y.entry
  {
    if ops == [] {
      FindInDistinct(s, y);
    } else {
      var n := |ops| - 1;
      var before := Run(lim, s, ops[..n]);
      ApplyProvenance(lim, before, ops[n], y);
      if ops[n] == Set(y.key, y.entry) {
        WithoutMembers(before, {y.key});
      } else {
        CachedIsLatest(lim, s, ops[..n], y);
      }
    }
  }

  lemma UsedOneMore(ops: seq<Op>, n: nat)
    requires n < |ops|
    ensures Used(ops[..n + 1]) == Used(ops[..n]) + if ops[n].Get? || ops[n].Set? then {ops[n].key} else {}
  {
    assert ops[..n + 1] == ops[..n] + [ops[n]];
    assert forall op :: op in ops[..n + 1] <==> op in ops[..n] || op == ops[n];
  }

  /** Everything in the list other than x that was not used stands before x. */
  ghost predicate OthersBefore(s: seq<Slot>, x: Slot, used: set<string>) {
    forall y :: y in s && y.key != x.key && y.key !in used ==> Before(s, y, x)
  }

  lemma LastIsBehindOthers(s: seq<Slot>)
    requires DistinctKeys(s) && s != []
    ensures OthersBefore(s, s[|s| - 1], {})
  {
    forall y | y in s && y.key != s[|s| - 1].key ensures Before(s, y, s[|s| - 1]) {
      var i :| 0 <= i < |s| && s[i] == y;
    }
  }

  lemma OthersStayBefore(lim: Limits, s: seq<Slot>, op: Op, x: Slot, used: set<string>)
    requires WithinBudget(lim, s) && x in s && Spares(op, x) && OthersBefore(s, x, used)
    ensures OthersBefore(Apply(lim, s, op), x, used + if op.Get? || op.Set? then {op.key} else {})
  {
    var next := Apply(lim, s, op);
    forall y | y in next && y.key != x.key && y.key !in used && (op.Get? || op.Set? ==> op.key != y.key)
      ensures Before(next, y, x)
    {
      ApplyProvenance(lim, s, op, y);
      ApplyKeepsOrder(lim, s, op, y, x);
    }
  }

  /** What is x or more recent than x was used. */
  lemma RecentWasUsed(s: seq<Slot>, x: Slot, used: set<string>, y: Slot)
    requires DistinctKeys(s) && x in s && OthersBefore(s, x, used) && y in From(s, x.key)
    ensures y in s && y.key in {x.key} + used
  {
    var k :| 0 <= k < |s| && s[k] == x;
    FromIsSuffix(s, k);
    var m :| 0 <= m < |s[k..]| && s[k..][m] == y;
    assert s[k + m] == y;
  }

  /** With room for it, x and everything more recent fit. */
  lemma RecentFits(lim: Limits, s: seq<Slot>, x: Slot, used: set<string>, c: map<string, Entry>)
    requires DistinctKeys(s) && x in s && OthersBefore(s, x, used)
    requires forall y :: y in s ==> y.key in c && c[y.key] == y.entry
    requires var keys := ({x.key} + used) * c.Keys;
      |keys| <= lim.maxEntries && SumBytes(c, keys) <= lim.maxBytes
    ensures Fits(lim, From(s, x.key))
  {
    var k :| 0 <= k < |s| && s[k] == x;
    FromIsSuffix(s, k);
    var keys := ({x.key} + used) * c.Keys;
    forall y | y in s[k..] ensures y.key in keys && c[y.key] == y.entry {
      RecentWasUsed(s, x, used, y);
    }
    SlotsBelow(c, s[k..], keys);
  }

  /** With room for it, a store keeps x. */
  lemma StoreKeeps(lim: Limits, s: seq<Slot>, ops: seq<Op>, n: nat, x: Slot)
    requires WithinBudget(lim, s) && n < |ops| && ops[n].Set? && ops[n].entry.bytes <= lim.maxBytes
    requires Spares(ops[n], x) && x in Run(lim, s, ops[..n]) && Room(lim, s, ops[..n + 1], x)
    requires OthersBefore(Run(lim, s, ops[..n]), x, Used(ops[..n])) && DistinctKeys(Run(lim, s, ops[..n]))
    ensures Fits(lim, From(Stored(Run(lim, s, ops[..n]), ops[n].key, ops[n].entry), x.key))
  {
    var before, key, e := Run(lim, s, ops[..n]), ops[n].key, ops[n].entry;
    var full := Stored(before, key, e);
    UsedOneMore(ops, n);
    WithoutMembers(before, {key});
    WithoutThenAppendDistinct(before, key, e);
    UnevictedOrder(before, key, e, x, Used(ops[..n]));
    forall y | y in full
      ensures y.key in Latest(lim, s, ops[..n + 1]) && Latest(lim, s, ops[..n + 1])[y.key] == y.entry
    {
      StoredIsLatest(lim, s, ops, n, y);
    }
    RecentFits(lim, full, x, Used(ops[..n + 1]), Latest(lim, s, ops[..n + 1]));
  }

  lemma StoredIsLatest(lim: Limits, s: seq<Slot>, ops: seq<Op>, n: nat, y: Slot)
    requires WithinBudget(lim, s) && n < |ops| && ops[n].Set? && ops[n].entry.bytes <= lim.maxBytes
    requires y in Stored(Run(lim, s, ops[..n]), ops[n].key, ops[n].entry)
    ensures y.key in Latest(lim, s, ops[..n + 1]) && Latest(lim, s, ops[..n + 1])[y.key] == y.entry
  {
    assert ops[..n + 1][..n] == ops[..n];
    WithoutMembers(Run(lim, s, ops[..n]), {ops[n].key});
    if y.key != ops[n].key {
      CachedIsLatest(lim, s, ops[..n], y);
    }
  }

  lemma UnevictedOrder(s: seq<Slot>, key: string, e: Entry, x: Slot, used: set<string>)
    requires DistinctKeys(s) && x in s && x.key != key && OthersBefore(s, x, used)
    ensures OthersBefore(Stored(s, key, e), x, used + {key})
  {
    WithoutMembers(s, {key});
    forall y | y in Stored(s, key, e) && y.key != x.key && y.key !in used + {key}
      ensures Before(Stored(s, key, e), y, x)
    {
      var i, j :| 0 <= i < j < |s| && s[i] == y && s[j] == x;
      WithoutKeepsOrder(s, {key}, i, j);
      BeforeAppend(Without(s, {key}), Slot(key, e), y, x);
    }
  }

  /**
    Main result: a page that was just used stays cached through any later operations
    that neither replace, purge nor clear it, as long as at every store there is room
    for the page and the distinct pages looked up or stored since then.
  */
  lemma {:induction false} TouchedPageSurvives(lim: Limits, s: seq<Slot>, ops: seq<Op>, x: Slot)
    requires WithinBudget(lim, s) && s != [] && s[|s| - 1] == x
    requires forall i :: 0 <= i < |ops| ==> Spares(ops[i], x)
    requires forall i :: 0 <= i < |ops| && ops[i].Set? ==> Room(lim, s, ops[..i + 1], x)
    ensures x in Run(lim, s, ops)
    ensures OthersBefore(Run(lim, s, ops), x, Used(ops))
  {
    if ops == [] {
      LastIsBehindOthers(s);
    } else {
      var n := |ops| - 1;
      forall i | 0 <= i < n && ops[..n][i].Set? ensures Room(lim, s, ops[..n][..i + 1], x) {
        assert ops[..n][..i + 1] == ops[..i + 1];
      }
      assert ops[..n + 1] == ops;
      TouchedPageSurvives(lim, s, ops[..n], x);
      RunKeepsBudget(lim, s, ops[..n]);
      var before := Run(lim, s, ops[..n]);
      if ops[n].Set? && ops[n].entry.bytes <= lim.maxBytes {
        StoreKeeps(lim, s, ops, n, x);
      }
      SurvivesStepExactly(lim, before, ops[n], x);
      UsedOneMore(ops, n);
      OthersStayBefore(lim, before, ops[n], x, Used(ops[..n]));
    }
  }

  /**
    A flood of stores evicts the least recently used entries first: whatever is
    still cached is more recent than whatever the store evicted.
  */
  lemma EvictionIsByRecency(lim: Limits, s: seq<Slot>, key: string, e: Entry, a: int, b: int)
    requires WithinBudget(lim, s) && 0 <= a < b < |s|
    requires s[a].key != key && s[b].key != key
    requires s[a] in Insert(lim, s, key, e)
    ensures s[b] in Insert(lim, s, key, e)
  {
    WithoutMembers(s, {key});
    if e.bytes <= lim.maxBytes {
      assert Before(s, s[a], s[b]);
      StoreKeepsOrder(lim, s, key, e, s[a], s[b]);
    }
  }
}
