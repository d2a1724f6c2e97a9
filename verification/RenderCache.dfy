/**
  The content-tag render cache: an ordered map of pages whose insertion order is
  the recency order, an inverted tag index and a running byte total, all three
  updated in place.
*/
module RenderCache {
  import opened Wrappers
  import opened Recency

  const DEFAULT_MAX_BYTES := 24 * 1024 * 1024
  const DEFAULT_MAX_ENTRIES := 5000

  datatype CachedPage = CachedPage(html: string, version: string)

  /** Length of a string in UTF-8, in bytes. */
  function Utf8Length(s: string): nat {
    if s == [] then 0
    else
      (if s[0] as int < 0x80 then 1 else if s[0] as int < 0x800 then 2 else if s[0] as int < 0x1_0000 then 3 else 4)
      + Utf8Length(s[1..])
  }

  function TagBytes(tags: seq<string>): nat {
    if tags == [] then 0 else TagBytes(tags[..|tags| - 1]) + Utf8Length(tags[|tags| - 1])
  }

  function Footprint(key: string, html: string, tags: seq<string>): nat {
    Utf8Length(html) + Utf8Length(key) + TagBytes(tags)
  }

  /** Approximate resident bytes of one entry; a tag listed twice counts twice. */
  method EntrySize(key: string, html: string, tags: seq<string>) returns (bytes: nat)
    ensures bytes == Footprint(key, html, tags)
  {
    bytes := Utf8Length(html) + Utf8Length(key);
    for i := 0 to |tags|
      invariant bytes == Footprint(key, html, tags[..i])
    {
      assert tags[..i + 1][..i] == tags[..i];
      bytes := bytes + Utf8Length(tags[i]);
    }
    assert tags[..|tags|] == tags;
  }

  type TagIndex = map<string, set<string>>

  function Indexed(index: TagIndex, tag: string): set<string> {
    if tag in index then index[tag] else {}
  }

  /** The index lists for every tag exactly the keys whose entry lists it, and no empty set is kept. */
  ghost predicate IndexExact(index: TagIndex, s: seq<Slot>) {
    && (forall t :: Indexed(index, t) == KeysFor(s, t))
    && (forall t :: t in index ==> index[t] != {})
  }

  function Max(a: int, b: int): int {
    if a > b then a else b
  }

  class RenderCache {
    const maxBytes: int
    const maxEntries: int
    var entries: seq<Slot>
    var tagToKeys: TagIndex
    var totalBytes: int

    /** The three structures agree with each other. */
    ghost predicate Consistent()
      reads this
    {
      && maxBytes >= 1 && maxEntries >= 1
      && DistinctKeys(entries)
      && totalBytes == TotalBytes(entries)
      && IndexExact(tagToKeys, entries)
    }

    ghost predicate Valid()
      reads this
    {
      Consistent() && Fits(Budget(), entries)
    }

    ghost function Budget(): Limits
      requires maxBytes >= 1 && maxEntries >= 1
    {
      Limits(maxBytes, maxEntries)
    }

    /**
      The budgets of the options, the environment or the defaults, but never less
      than one byte and one entry.
    */
    constructor (maxBytes: Option<int>, maxEntries: Option<int>, envMaxBytes: Option<int>)
      ensures Valid()
      ensures entries == []
      ensures maxBytes.Some? ==> this.maxBytes == Max(1, maxBytes.value)
      ensures maxBytes.None? && envMaxBytes.Some? ==> this.maxBytes == Max(1, envMaxBytes.value)
      ensures maxBytes.None? && envMaxBytes.None? ==> this.maxBytes == DEFAULT_MAX_BYTES
      ensures this.maxEntries == if maxEntries.Some? then Max(1, maxEntries.value) else DEFAULT_MAX_ENTRIES
    {
      this.maxBytes := Max(1,
        if maxBytes.Some? then maxBytes.value
        else if envMaxBytes.Some? then envMaxBytes.value
        else DEFAULT_MAX_BYTES);
      this.maxEntries := Max(1, if maxEntries.Some? then maxEntries.value else DEFAULT_MAX_ENTRIES);
      entries, tagToKeys, totalBytes := [], map[], 0;
    }

    method DropKey(key: string)
      requires Consistent()
      modifies this
      ensures Consistent()
      ensures entries == Without(old(entries), {key})
    {
      var found := Find(entries, key);
      ghost var before := entries;
      FindIsTheSlot(before, key);
      WithoutDistinct(before, {key});
      WithoutMembers(before, {key});
      WithoutBytes(before, key);
      entries := Without(entries, {key});
      if found == None {
        WithoutNothing(before, {key});
        return;
      }
      var entry := found.value;
      totalBytes := totalBytes - entry.bytes;
      UnindexTags(key, entry.tags, before);
      DroppedFromIndex(before, key, entry);
    }

    /** Takes the key out of each of its tags; a tag left empty is dropped, a duplicate tag is skipped. */
    method UnindexTags(key: string, tags: seq<string>, ghost before: seq<Slot>)
      requires IndexExact(tagToKeys, before)
      modifies this`tagToKeys
      ensures forall t :: t in tagToKeys ==> tagToKeys[t] != {}
      ensures forall t :: Indexed(tagToKeys, t) ==
                          if t in tags then KeysFor(before, t) - {key} else KeysFor(before, t)
    {
      for i := 0 to |tags|
        invariant forall t :: t in tagToKeys ==> tagToKeys[t] != {}
        invariant forall t :: Indexed(tagToKeys, t) ==
                              if t in tags[..i] then KeysFor(before, t) - {key} else KeysFor(before, t)
      {
        var tag := tags[i];
        assert tags[..i + 1] == tags[..i] + [tag];
        if tag in tagToKeys {
          var keys := tagToKeys[tag] - {key};
          if keys == {} {
            tagToKeys := tagToKeys - {tag};
          } else {
            tagToKeys := tagToKeys[tag := keys];
          }
        }
      }
      assert tags[..|tags|] == tags;
    }

    /** Serves a cached page and makes it the most recently used one. */
    method Get(key: string) returns (page: Option<CachedPage>)
      requires Valid()
      modifies this`entries
      ensures Valid()
      ensures entries == Touch(old(entries), key)
      ensures page.Some? <==> HasKey(old(entries), key)
      ensures page.Some? ==>
        exists e :: Slot(key, e) in old(entries) && page.value == CachedPage(e.html, e.version)
      ensures page.None? ==> entries == old(entries)
      ensures page.Some? ==> entries != [] && entries[|entries| - 1].key == key
      ensures |entries| == |old(entries)| && forall x :: x in entries <==> x in old(entries)
      ensures forall a, b :: 0 <= a < b < |entries| && old(entries)[a].key != key && old(entries)[b].key != key ==>
        Before(entries, old(entries)[a], old(entries)[b])
    {
      var found := Find(entries, key);
      FindIsTheSlot(entries, key);
      if found == None {
        return None;
      }
      var entry := found.value;
      TouchReorders(entries, key);
      SameSlotsSameIndex(entries, Touch(entries, key));
      entries := Without(entries, {key});
      entries := entries + [Slot(key, entry)];
      page := Some(CachedPage(entry.html, entry.version));
    }

    /** Stores a page, replacing the old one, then evicts from the old end. */
    method Set(key: string, html: string, version: string, tags: seq<string>)
      requires Valid()
      modifies this
      ensures Valid()
      ensures entries ==
        Insert(Budget(), old(entries), key, Entry(html, version, tags, Footprint(key, html, tags)))
    {
      DropKey(key);
      WithoutMembers(old(entries), {key});
      var bytes := EntrySize(key, html, tags);
      if bytes > maxBytes {
        return;
      }
      ghost var rest := entries;
      var slot := Slot(key, Entry(html, version, tags, bytes));
      TotalBytesAppend(entries, [slot]);
      WithoutThenAppendDistinct(old(entries), key, slot.entry);
      entries := entries + [slot];
      totalBytes := totalBytes + bytes;
      IndexTags(key, tags, rest);
      AddedToIndex(rest, slot);
      EvictOldest();
    }

    /** Lists the key under each of its tags; a duplicate tag is listed once. */
    method IndexTags(key: string, tags: seq<string>, ghost rest: seq<Slot>)
      requires IndexExact(tagToKeys, rest)
      modifies this`tagToKeys
      ensures forall t :: t in tagToKeys ==> tagToKeys[t] != {}
      ensures forall t :: Indexed(tagToKeys, t) ==
                          if t in tags then KeysFor(rest, t) + {key} else KeysFor(rest, t)
    {
      for i := 0 to |tags|
        invariant forall t :: t in tagToKeys ==> tagToKeys[t] != {}
        invariant forall t :: Indexed(tagToKeys, t) ==
                              if t in tags[..i] then KeysFor(rest, t) + {key} else KeysFor(rest, t)
      {
        assert tags[..i + 1] == tags[..i] + [tags[i]];
        var keys := Indexed(tagToKeys, tags[i]) + {key};
        tagToKeys := tagToKeys[tags[i] := keys];
      }
      assert tags[..|tags|] == tags;
    }

    /** Evicts from the least recently used end until both budgets hold. */
    method EvictOldest()
      requires Consistent()
      modifies this
      ensures Valid()
      ensures entries == Evict(Budget(), old(entries))
    {
      while totalBytes > maxBytes || |entries| > maxEntries
        invariant Consistent()
        invariant Evict(Budget(), entries) == Evict(Budget(), old(entries))
        decreases |entries|
      {
        if |entries| == 0 {
          break;
        }
        WithoutOldest(entries);
        DropKey(entries[0].key);
      }
    }

    /** Purges every page that carries the tag. */
    method InvalidateTag(tag: string)
      requires Valid()
      modifies this
      ensures Valid()
      ensures entries == WithoutTag(old(entries), tag)
    {
      PurgeIsDropAll(entries, tag);
      assert Indexed(tagToKeys, tag) == KeysFor(entries, tag);
      if tag !in tagToKeys {
        WithoutNothing(entries, {});
        return;
      }
      DropKeys(tagToKeys[tag]);
      assert Indexed(tagToKeys, tag) == {};
      tagToKeys := tagToKeys - {tag};
    }

    /** Drops a snapshot of keys one by one, while dropping changes the index it was taken from. */
    method DropKeys(snapshot: set<string>)
      requires Valid()
      modifies this
      ensures Valid()
      ensures entries == Without(old(entries), snapshot)
    {
      ghost var done := {};
      WithoutNothing(entries, done);
      var todo := snapshot;
      while todo != {}
        invariant Consistent()
        invariant done + todo == snapshot
        invariant entries == Without(old(entries), done)
        decreases |todo|
      {
        var key :| key in todo;
        DropKey(key);
        WithoutTwice(old(entries), done, {key});
        todo, done := todo - {key}, done + {key};
      }
      WithoutMembers(old(entries), done);
      assert done == snapshot;
    }

    method Clear()
      requires Valid()
      modifies this
      ensures Valid()
      ensures entries == []
    {
      entries, tagToKeys, totalBytes := [], map[], 0;
    }
  }

  // What the footprint measures

  /** The bytes of a character in UTF-8 (RFC 3629, section 3). */
  function Utf8Bytes(c: char): seq<nat> {
    var u := c as int;
    if u < 0x80 then [u]
    else if u < 0x800 then [0xC0 + u / 0x40, 0x80 + u % 0x40]
    else if u < 0x1_0000 then [0xE0 + u / 0x1000, 0x80 + u / 0x40 % 0x40, 0x80 + u % 0x40]
    else [0xF0 + u / 0x4_0000, 0x80 + u / 0x1000 % 0x40, 0x80 + u / 0x40 % 0x40, 0x80 + u % 0x40]
  }

  /** The first byte alone tells how many bytes there are, and the others are continuation bytes. */
  lemma LeadByteTellsLength(c: char)
    ensures var b := Utf8Bytes(c);
      && (|b| == 1 <==> b[0] < 0x80) && (|b| == 2 <==> 0xC0 <= b[0] < 0xE0)
      && (|b| == 3 <==> 0xE0 <= b[0] < 0xF0) && (|b| == 4 <==> 0xF0 <= b[0] < 0xF8)
      && forall i :: 1 <= i < |b| ==> 0x80 <= b[i] < 0xC0
  {
  }

  function Utf8(s: string): seq<nat> {
    if s == [] then [] else Utf8Bytes(s[0]) + Utf8(s[1..])
  }

  function Concat(tags: seq<string>): string {
    if tags == [] then "" else tags[0] + Concat(tags[1..])
  }

  lemma {:induction false} Utf8Append(a: string, b: string)
    ensures Utf8(a + b) == Utf8(a) + Utf8(b)
  {
    if a == [] {
      assert a + b == b;
    } else {
      assert (a + b)[1..] == a[1..] + b;
      Utf8Append(a[1..], b);
    }
  }

  lemma {:induction false} Utf8LengthIsBytes(s: string)
    ensures Utf8Length(s) == |Utf8(s)|
  {
    if s != [] { Utf8LengthIsBytes(s[1..]); }
  }

  lemma {:induction false} TagBytesFront(tags: seq<string>)
    requires tags != []
    ensures TagBytes(tags) == Utf8Length(tags[0]) + TagBytes(tags[1..])
  {
    var n := |tags| - 1;
    if n > 0 {
      TagBytesFront(tags[..n]);
      assert tags[..n][1..] == tags[1..][..n - 1];
    }
  }

  lemma {:induction false} TagBytesAreBytes(tags: seq<string>)
    ensures TagBytes(tags) == |Utf8(Concat(tags))|
  {
    if tags != [] {
      TagBytesFront(tags);
      TagBytesAreBytes(tags[1..]);
      Utf8LengthIsBytes(tags[0]);
      Utf8Append(tags[0], Concat(tags[1..]));
    }
  }

  /** The footprint of an entry is the number of bytes of its page, its key and all its tags, one after the other. */
  lemma FootprintIsBytes(key: string, html: string, tags: seq<string>)
    ensures Footprint(key, html, tags) == |Utf8(html + (key + Concat(tags)))|
  {
    Utf8LengthIsBytes(html);
    Utf8LengthIsBytes(key);
    TagBytesAreBytes(tags);
    Utf8Append(html, key + Concat(tags));
    Utf8Append(key, Concat(tags));
  }

  // The index against the list of entries

  lemma DroppedFromIndex(s: seq<Slot>, key: string, e: Entry)
    requires DistinctKeys(s) && Find(s, key) == Some(e)
    ensures forall t :: KeysFor(Without(s, {key}), t) ==
                        if t in e.tags then KeysFor(s, t) - {key} else KeysFor(s, t)
  {
    var r := Without(s, {key});
    WithoutMembers(s, {key});
    FindIsTheSlot(s, key);
    forall t
      ensures KeysFor(r, t) == if t in e.tags then KeysFor(s, t) - {key} else KeysFor(s, t)
    {
      KeysForIs(s, t);
      KeysForIs(r, t);
      forall x | x in s && x.key == key ensures x.entry == e { FindInDistinct(s, x); }
    }
  }

  lemma AddedToIndex(s: seq<Slot>, x: Slot)
    requires forall y :: y in s ==> y.key != x.key
    ensures forall t :: KeysFor(s + [x], t) ==
                        if t in x.entry.tags then KeysFor(s, t) + {x.key} else KeysFor(s, t)
  {
    forall t
      ensures KeysFor(s + [x], t) == if t in x.entry.tags then KeysFor(s, t) + {x.key} else KeysFor(s, t)
    {
      KeysForIs(s, t);
      KeysForIs(s + [x], t);
      assert forall y :: y in s + [x] <==> y in s || y == x;
    }
  }

  lemma SameSlotsSameIndex(s: seq<Slot>, r: seq<Slot>)
    requires forall x :: x in r <==> x in s
    ensures forall t :: KeysFor(r, t) == KeysFor(s, t)
  {
    forall t ensures KeysFor(r, t) == KeysFor(s, t) {
      KeysForIs(s, t);
      KeysForIs(r, t);
    }
  }

  lemma KeysForIs(s: seq<Slot>, t: string)
    ensures forall k :: k in KeysFor(s, t) <==> exists x :: x in s && x.key == k && t in x.entry.tags
  {
    forall x | x in s && t in x.entry.tags ensures x.key in KeysFor(s, t) {
      var i :| 0 <= i < |s| && s[i] == x;
    }
  }

  lemma PurgeIsDropAll(s: seq<Slot>, tag: string)
    requires DistinctKeys(s)
    ensures Without(s, KeysFor(s, tag)) == WithoutTag(s, tag)
    ensures KeysFor(WithoutTag(s, tag), tag) == {}
  {
    KeysForMatches(s, tag);
    PurgeByIndex(s, tag, KeysFor(s, tag));
    PurgeIsExact(s, tag);
    NoKeysLeft(WithoutTag(s, tag), tag);
  }

  lemma NoKeysLeft(s: seq<Slot>, tag: string)
    requires forall x :: x in s ==> tag !in x.entry.tags
    ensures KeysFor(s, tag) == {}
  {
    KeysForIs(s, tag);
  }
}
