/**
  The abstract state of the render cache: the cached entries as a list from
  least to most recently used, and what each cache operation does to that list.

  A JavaScript Map iterates in insertion order, so this list is also exactly the
  content of the `entries` Map of the implementation.
*/
module Recency {
  import opened Wrappers

  datatype Entry = Entry(html: string, version: string, tags: seq<string>, bytes: nat)

  datatype Slot = Slot(key: string, entry: Entry)

  datatype Limits = Limits(maxBytes: nat, maxEntries: nat)

  ghost predicate DistinctKeys(s: seq<Slot>) {
    forall i, j :: 0 <= i < j < |s| ==> s[i].key != s[j].key
  }

  predicate HasKey(s: seq<Slot>, key: string) {
    exists i :: 0 <= i < |s| && s[i].key == key
  }

  /** Map.get */
  function Find(s: seq<Slot>, key: string): Option<Entry> {
    if s == [] then None
    else if s[0].key == key then Some(s[0].entry)
    else Find(s[1..], key)
  }

  /** Map.delete, for any number of keys at once; the others keep their order. */
  function Without(s: seq<Slot>, keys: set<string>): seq<Slot> {
    if s == [] then []
    else if s[0].key in keys then Without(s[1..], keys)
    else [s[0]] + Without(s[1..], keys)
  }

  /** The entries that do not list the tag, in their old order. */
  function WithoutTag(s: seq<Slot>, tag: string): seq<Slot> {
    if s == [] then []
    else if tag in s[0].entry.tags then WithoutTag(s[1..], tag)
    else [s[0]] + WithoutTag(s[1..], tag)
  }

  function TotalBytes(s: seq<Slot>): nat {
    if s == [] then 0 else s[0].entry.bytes + TotalBytes(s[1..])
  }

  /** The keys of the entries that list the tag. */
  function KeysFor(s: seq<Slot>, tag: string): set<string> {
    set i | 0 <= i < |s| && tag in s[i].entry.tags :: s[i].key
  }

  predicate Fits(lim: Limits, s: seq<Slot>) {
    TotalBytes(s) <= lim.maxBytes && |s| <= lim.maxEntries
  }

  /** Drops entries from the old end until both budgets hold. */
  function Evict(lim: Limits, s: seq<Slot>): seq<Slot> {
    if s == [] || Fits(lim, s) then s else Evict(lim, s[1..])
  }

  // What each operation does to the recency list.

  function Touch(s: seq<Slot>, key: string): seq<Slot> {
    match Find(s, key)
    case None => s
    case Some(e) => Without(s, {key}) + [Slot(key, e)]
  }

  function Insert(lim: Limits, s: seq<Slot>, key: string, e: Entry): seq<Slot> {
    if e.bytes > lim.maxBytes then Without(s, {key})
    else Evict(lim, Without(s, {key}) + [Slot(key, e)])
  }

  // The list functions

  lemma {:induction false} FindIsTheSlot(s: seq<Slot>, key: string)
    ensures Find(s, key).Some? <==> HasKey(s, key)
    ensures Find(s, key).Some? ==> Slot(key, Find(s, key).value) in s
  {
    if s == [] {
    } else if s[0].key == key {
    } else {
      FindIsTheSlot(s[1..], key);
      if HasKey(s, key) {
        var i :| 0 <= i < |s| && s[i].key == key;
        assert s[1..][i - 1].key == key;
      }
    }
  }

  lemma {:induction false} FindInDistinct(s: seq<Slot>, x: Slot)
    requires DistinctKeys(s) && x in s
    ensures Find(s, x.key) == Some(x.entry)
  {
    FindIsTheSlot(s, x.key);
    assert HasKey(s, x.key) by {
      var i :| 0 <= i < |s| && s[i] == x;
    }
  }

  /** Deleting keys keeps exactly the other slots, and keeps keys distinct. */
  lemma {:induction false} WithoutMembers(s: seq<Slot>, keys: set<string>)
    ensures forall x :: x in Without(s, keys) <==> x in s && x.key !in keys
    ensures |Without(s, keys)| <= |s|
    ensures TotalBytes(Without(s, keys)) <= TotalBytes(s)
  {
    if s != [] {
      WithoutMembers(s[1..], keys);
      assert s == [s[0]] + s[1..];
    }
  }

  lemma {:induction false} WithoutDistinct(s: seq<Slot>, keys: set<string>)
    requires DistinctKeys(s)
    ensures DistinctKeys(Without(s, keys))
  {
    if s != [] {
      WithoutDistinct(s[1..], keys);
      WithoutMembers(s[1..], keys);
      forall x | x in Without(s[1..], keys) ensures x.key != s[0].key {
        var i :| 0 <= i < |s[1..]| && s[1..][i] == x;
      }
    }
  }

  lemma {:induction false} WithoutNothing(s: seq<Slot>, keys: set<string>)
    requires forall x :: x in s ==> x.key !in keys
    ensures Without(s, keys) == s
  {
    if s != [] {
      assert s == [s[0]] + s[1..];
      WithoutNothing(s[1..], keys);
    }
  }

  lemma {:induction false} WithoutTwice(s: seq<Slot>, a: set<string>, b: set<string>)
    ensures Without(Without(s, a), b) == Without(s, a + b)
  {
    if s != [] {
      WithoutTwice(s[1..], a, b);
    }
  }

  lemma {:induction false} WithoutOldest(s: seq<Slot>)
    requires s != [] && DistinctKeys(s)
    ensures Without(s, {s[0].key}) == s[1..]
  {
    WithoutNothing(s[1..], {s[0].key});
  }

  /** Removing one present key reclaims exactly its bytes. */
  lemma {:induction false} WithoutBytes(s: seq<Slot>, key: string)
    requires DistinctKeys(s)
    ensures TotalBytes(s) == TotalBytes(Without(s, {key})) +
      (if Find(s, key).Some? then Find(s, key).value.bytes else 0)
  {
    if s == [] {
    } else if s[0].key == key {
      WithoutOldest(s);
    } else {
      WithoutBytes(s[1..], key);
    }
  }

  lemma {:induction false} TotalBytesAppend(s: seq<Slot>, t: seq<Slot>)
    ensures TotalBytes(s + t) == TotalBytes(s) + TotalBytes(t)
  {
    if s == [] {
      assert s + t == t;
    } else {
      assert (s + t)[1..] == s[1..] + t;
      TotalBytesAppend(s[1..], t);
    }
  }

  lemma WithoutThenAppendDistinct(s: seq<Slot>, key: string, e: Entry)
    requires DistinctKeys(s)
    ensures DistinctKeys(Without(s, {key}) + [Slot(key, e)])
  {
    WithoutDistinct(s, {key});
    WithoutMembers(s, {key});
    var t := Without(s, {key});
    assert forall i :: 0 <= i < |t| ==> t[i] in t;
  }

  // Eviction

  /** t is the longest suffix of s that fits both budgets. */
  ghost predicate LongestFittingSuffix(lim: Limits, t: seq<Slot>, s: seq<Slot>) {
    && TotalBytes(t) <= lim.maxBytes && |t| <= lim.maxEntries
    && exists k :: 0 <= k <= |s| && t == s[k..] &&
         forall j :: 0 <= j < k ==> TotalBytes(s[j..]) > lim.maxBytes || |s[j..]| > lim.maxEntries
  }

  lemma {:induction false} EvictIsLongestFittingSuffix(lim: Limits, s: seq<Slot>)
    ensures LongestFittingSuffix(lim, Evict(lim, s), s)
  {
    if s == [] || Fits(lim, s) {
      assert s[0..] == s;
    } else {
      EvictIsLongestFittingSuffix(lim, s[1..]);
      var k :| 0 <= k <= |s[1..]| && Evict(lim, s[1..]) == s[1..][k..] && Fits(lim, s[1..][k..]) &&
        forall j :: 0 <= j < k ==> !Fits(lim, s[1..][j..]);
      assert s[1..][k..] == s[k + 1..];
      forall j | 0 <= j < k + 1 ensures !Fits(lim, s[j..]) {
        if j == 0 { assert s[0..] == s; } else { assert s[1..][j - 1..] == s[j..]; }
      }
    }
  }

  lemma {:induction false} EvictKeepsFittingSuffix(lim: Limits, s: seq<Slot>, k: nat)
    requires k <= |s| && Fits(lim, s[k..])
    ensures exists j :: 0 <= j <= k && Evict(lim, s) == s[j..]
  {
    EvictIsLongestFittingSuffix(lim, s);
  }

  // Main properties of the operations on the recency list.

  /**
    Storing an entry that fits keeps exactly the longest suffix of the old list
    without the key, followed by the key, that fits both budgets; the new entry
    itself always survives. An entry larger than the budget only removes the old
    one.
  */
  lemma InsertRefinesLru(lim: Limits, s: seq<Slot>, key: string, e: Entry)
    requires lim.maxEntries >= 1
    ensures e.bytes <= lim.maxBytes ==>
      && LongestFittingSuffix(lim, Insert(lim, s, key, e), Without(s, {key}) + [Slot(key, e)])
      && Insert(lim, s, key, e) != []
      && Insert(lim, s, key, e)[|Insert(lim, s, key, e)| - 1] == Slot(key, e)
    ensures e.bytes > lim.maxBytes ==> Insert(lim, s, key, e) == Without(s, {key})
  {
    if e.bytes <= lim.maxBytes {
      var full := Without(s, {key}) + [Slot(key, e)];
      EvictIsLongestFittingSuffix(lim, full);
      assert full[|full| - 1..] == [Slot(key, e)];
      EvictKeepsFittingSuffix(lim, full, |full| - 1);
    }
  }

  // Order

  /** Slot x stands somewhere before slot y. */
  ghost predicate Before(s: seq<Slot>, x: Slot, y: Slot) {
    exists i, j :: 0 <= i < j < |s| && s[i] == x && s[j] == y
  }

  lemma {:induction false} BeforeInTail(s: seq<Slot>, x: Slot, y: Slot)
    requires s != [] && (Before(s[1..], x, y) || (x == s[0] && y in s[1..]))
    ensures Before(s, x, y)
  {
    if Before(s[1..], x, y) {
      var i, j :| 0 <= i < j < |s[1..]| && s[1..][i] == x && s[1..][j] == y;
      assert s[i + 1] == x && s[j + 1] == y;
    } else {
      var j :| 0 <= j < |s[1..]| && s[1..][j] == y;
      assert s[0] == x && s[j + 1] == y;
    }
  }

  lemma BeforeAppend(s: seq<Slot>, z: Slot, x: Slot, y: Slot)
    requires Before(s, x, y) || (x in s && y == z)
    ensures Before(s + [z], x, y)
  {
    if Before(s, x, y) {
      var i, j :| 0 <= i < j < |s| && s[i] == x && s[j] == y;
      assert (s + [z])[i] == x && (s + [z])[j] == y;
    } else {
      var i :| 0 <= i < |s| && s[i] == x;
      assert (s + [z])[i] == x && (s + [z])[|s|] == y;
    }
  }

  /** Deleting keys keeps exactly the other slots, in their order. */
  lemma {:induction false} WithoutKeepsOrder(s: seq<Slot>, keys: set<string>, a: int, b: int)
    requires 0 <= a < b < |s| && s[a].key !in keys && s[b].key !in keys
    ensures Before(Without(s, keys), s[a], s[b])
  {
    var r := Without(s[1..], keys);
    if a == 0 {
      WithoutMembers(s[1..], keys);
      assert s[1..][b - 1] == s[b];
    } else {
      WithoutKeepsOrder(s[1..], keys, a - 1, b - 1);
    }
    if s[0].key !in keys {
      assert Without(s, keys)[1..] == r;
      BeforeInTail(Without(s, keys), s[a], s[b]);
    }
  }

  /** Purging a tag removes exactly the entries that list it and reorders nothing. */
  lemma {:induction false} PurgeIsExact(s: seq<Slot>, tag: string)
    ensures forall x :: x in WithoutTag(s, tag) <==> x in s && tag !in x.entry.tags
    ensures forall a, b :: 0 <= a < b < |s| && tag !in s[a].entry.tags && tag !in s[b].entry.tags ==>
      Before(WithoutTag(s, tag), s[a], s[b])
  {
    if s != [] {
      PurgeIsExact(s[1..], tag);
      assert s == [s[0]] + s[1..];
      forall a, b | 0 <= a < b < |s| && tag !in s[a].entry.tags && tag !in s[b].entry.tags
        ensures Before(WithoutTag(s, tag), s[a], s[b])
      {
        assert s[b] == s[1..][b - 1] && (a > 0 ==> s[a] == s[1..][a - 1]);
        if tag !in s[0].entry.tags {
          assert WithoutTag(s, tag)[1..] == WithoutTag(s[1..], tag);
          BeforeInTail(WithoutTag(s, tag), s[a], s[b]);
        }
      }
    }
  }

  /** Dropping the indexed keys one by one is the same as purging the tag. */
  lemma {:induction false} PurgeByIndex(s: seq<Slot>, tag: string, keys: set<string>)
    requires forall x :: x in s ==> (x.key in keys <==> tag in x.entry.tags)
    ensures Without(s, keys) == WithoutTag(s, tag)
  {
    if s != [] {
      assert s == [s[0]] + s[1..];
      PurgeByIndex(s[1..], tag, keys);
    }
  }

  lemma KeysForMatches(s: seq<Slot>, tag: string)
    requires DistinctKeys(s)
    ensures forall x :: x in s ==> (x.key in KeysFor(s, tag) <==> tag in x.entry.tags)
  {
  }

  /**
    Looking a key up moves its slot to the recent end and changes nothing else: the
    other entries keep their order, and a key that is not there changes nothing.
  */
  lemma TouchReorders(s: seq<Slot>, key: string)
    requires DistinctKeys(s)
    ensures !HasKey(s, key) ==> Touch(s, key) == s
    ensures forall a, b :: 0 <= a < b < |s| && s[a].key != key && s[b].key != key ==>
      Before(Touch(s, key), s[a], s[b])
    ensures DistinctKeys(Touch(s, key))
    ensures forall x :: x in Touch(s, key) <==> x in s
    ensures |Touch(s, key)| == |s| && TotalBytes(Touch(s, key)) == TotalBytes(s)
    ensures HasKey(s, key) ==> Touch(s, key)[|s| - 1].key == key
  {
    FindIsTheSlot(s, key);
    if Find(s, key).Some? {
      var x := Slot(key, Find(s, key).value);
      WithoutMembers(s, {key});
      WithoutThenAppendDistinct(s, key, x.entry);
      WithoutBytes(s, key);
      TotalBytesAppend(Without(s, {key}), [x]);
      WithoutLength(s, key);
      forall y | y in s && y.key == key ensures y == x {
        FindInDistinct(s, y);
      }
      forall a, b | 0 <= a < b < |s| && s[a].key != key && s[b].key != key
        ensures Before(Touch(s, key), s[a], s[b])
      {
        WithoutKeepsOrder(s, {key}, a, b);
        BeforeAppend(Without(s, {key}), x, s[a], s[b]);
      }
    }
  }

  lemma {:induction false} WithoutLength(s: seq<Slot>, key: string)
    requires DistinctKeys(s) && Find(s, key).Some?
    ensures |Without(s, {key})| == |s| - 1
  {
    if s[0].key == key {
      WithoutOldest(s);
    } else {
      WithoutLength(s[1..], key);
    }
  }

  lemma SlotFits(lim: Limits, s: seq<Slot>, x: Slot)
    requires x in s && Fits(lim, s)
    ensures x.entry.bytes <= lim.maxBytes && lim.maxEntries >= 1
  {
    SlotBytes(s, x);
  }

  lemma {:induction false} SlotBytes(s: seq<Slot>, x: Slot)
    requires x in s
    ensures x.entry.bytes <= TotalBytes(s)
  {
    if s[0] != x {
      SlotBytes(s[1..], x);
    }
  }
}
