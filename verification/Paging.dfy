/**
  Cursor pagination: each page asks for the matching ids after the last one seen,
  in id order, one more than it returns.
*/
module Paging {
  import opened Wrappers
  import opened Ordering

  const DEFAULT_LIMIT := 50
  const MAX_LIMIT := 500

  /** Math.min(Math.max(limit ?? 50, 1), 500) */
  function ClampLimit(limit: Option<int>): (n: nat)
    ensures 1 <= n <= MAX_LIMIT
    ensures limit.None? ==> n == DEFAULT_LIMIT
    ensures limit.Some? ==> (n == limit.value <==> 1 <= limit.value <= MAX_LIMIT)
    ensures limit.Some? && limit.value < 1 ==> n == 1
    ensures limit.Some? && limit.value > MAX_LIMIT ==> n == MAX_LIMIT
  {
    var l := if limit.Some? then limit.value else DEFAULT_LIMIT;
    if l < 1 then 1 else if l > MAX_LIMIT then MAX_LIMIT else l
  }

  datatype IdPage = IdPage(ids: seq<string>, next: Option<string>)

  predicate IsAfter(id: string, after: Option<string>) {
    after.None? || Less(after.value, id)
  }

  function Remaining(matching: set<string>, after: Option<string>): set<string> {
    set id | id in matching && IsAfter(id, after)
  }

  function Take(s: seq<string>, n: nat): seq<string> {
    if |s| <= n then s else s[..n]
  }

  /** One page: LIMIT n + 1 rows, of which the last only tells that there is more. */
  function PageOf(matching: set<string>, after: Option<string>, limit: nat): IdPage
    requires limit >= 1
  {
    var rows := Take(Sorted(Remaining(matching, after)), limit + 1);
    if |rows| > limit then IdPage(rows[..limit], Some(rows[limit - 1])) else IdPage(rows, None)
  }

  // One page

  lemma PageFacts(matching: set<string>, after: Option<string>, limit: nat)
    requires limit >= 1
    ensures var p := PageOf(matching, after, limit);
      && Ascending(p.ids)
      && (forall id :: id in p.ids ==> id in matching && IsAfter(id, after))
      && |p.ids| <= limit && (p.next.Some? ==> |p.ids| == limit && p.next.value == p.ids[limit - 1])
  {
    var all := Sorted(Remaining(matching, after));
    SortedIsAscending(Remaining(matching, after));
    var p := PageOf(matching, after, limit);
    assert p.ids == if |all| <= limit then all else all[..limit];
    forall id | id in p.ids ensures id in matching && IsAfter(id, after) {
      assert id in all;
    }
  }

  lemma CutLeavesTail(all: seq<string>, limit: nat, id: string)
    requires 1 <= limit && Ascending(all) && id in all
    ensures |all| > limit ==> id in all[..limit] || Less(all[limit - 1], id)
    ensures |all| > limit ==> Take(all, limit + 1)[..limit] == all[..limit]
  {
    if |all| > limit {
      assert all == all[..limit] + all[limit..];
      AfterPosition(all, limit - 1, id);
    }
  }

  /** A page leaves out a matching id after its cursor only by stopping short of it. */
  lemma PageLeavesNothingOut(matching: set<string>, after: Option<string>, limit: nat, id: string)
    requires limit >= 1 && id in matching && IsAfter(id, after)
    ensures var p := PageOf(matching, after, limit);
      id in p.ids || (p.next.Some? && Less(p.next.value, id))
  {
    var rest := Remaining(matching, after);
    SortedIsAscending(rest);
    assert id in rest;
    CutLeavesTail(Sorted(rest), limit, id);
  }

  /** A page with a cursor stops short of some matching id. */
  lemma PageStopsShort(matching: set<string>, after: Option<string>, limit: nat) returns (id: string)
    requires limit >= 1 && PageOf(matching, after, limit).next.Some?
    ensures id in matching && Less(PageOf(matching, after, limit).next.value, id)
  {
    var all := Sorted(Remaining(matching, after));
    SortedIsAscending(Remaining(matching, after));
    id := all[limit];
    assert id in all && Less(all[limit - 1], all[limit]);
  }

  lemma PageOfRest(matching: set<string>, after: Option<string>, limit: nat)
    requires limit >= 1
    ensures var rest := Sorted(Remaining(matching, after));
      PageOf(matching, after, limit) ==
      if limit < |rest| then IdPage(rest[..limit], Some(rest[limit - 1])) else IdPage(rest, None)
  {
    var rest := Sorted(Remaining(matching, after));
    if limit < |rest| {
      assert rest[..limit + 1][..limit] == rest[..limit];
    }
  }

  // Walks under concurrent writes

  /** One page of a walk: the ids that matched when it was read, the cursor it was asked for, and what came back. */
  datatype Visit = Visit(matching: set<string>, after: Option<string>, page: IdPage)

  /**
    Matching ids after the cursor in ascending order, none left out but those after the
    next cursor, which is the last id of the page.
  */
  ghost predicate InOrder(v: Visit) {
    var p := v.page;
    && Ascending(p.ids)
    && (forall id :: id in p.ids ==> id in v.matching && IsAfter(id, v.after))
    && (forall id :: id in v.matching && IsAfter(id, v.after) ==>
          id in p.ids || (p.next.Some? && Less(p.next.value, id)))
    && (p.next.Some? ==> p.ids != [] && p.next.value == p.ids[|p.ids| - 1])
  }

  lemma PageOfIsInOrder(matching: set<string>, after: Option<string>, limit: nat)
    requires limit >= 1
    ensures InOrder(Visit(matching, after, PageOf(matching, after, limit)))
  {
    var p := PageOf(matching, after, limit);
    PageFacts(matching, after, limit);
    forall id | id in matching && IsAfter(id, after)
      ensures id in p.ids || (p.next.Some? && Less(p.next.value, id))
    {
      PageLeavesNothingOut(matching, after, limit, id);
    }
  }

  /** Page k starts where the one before it stopped, and is followed by another exactly if it has a cursor. */
  ghost predicate Linked(visits: seq<Visit>, k: nat)
    requires k < |visits|
  {
    visits[k].after == CursorAt(visits, k) && (k < |visits| - 1 ==> visits[k].page.next.Some?)
  }

  ghost predicate Walk(visits: seq<Visit>) {
    forall k {:trigger Linked(visits, k)} :: 0 <= k < |visits| ==> InOrder(visits[k]) && Linked(visits, k)
  }

  /** The cursor before page k. */
  function CursorAt(visits: seq<Visit>, k: nat): Option<string>
    requires k <= |visits|
  {
    if k == 0 then None else visits[k - 1].page.next
  }

  ghost predicate Completed(visits: seq<Visit>) {
    Walk(visits) && visits != [] && visits[|visits| - 1].page.next.None?
  }

  /** The ids of the first k pages. */
  function Collected(visits: seq<Visit>, k: nat): seq<string>
    requires k <= |visits|
  {
    if k == 0 then [] else Collected(visits, k - 1) + visits[k - 1].page.ids
  }

  /** Everything collected so far is at or before the cursor, in ascending order. */
  lemma {:induction false} CollectedAscends(visits: seq<Visit>, k: nat)
    requires Walk(visits) && k <= |visits|
    ensures Ascending(Collected(visits, k))
    ensures k > 0 && CursorAt(visits, k).Some? ==> forall id :: id in Collected(visits, k) ==>
      id == CursorAt(visits, k).value || Less(id, CursorAt(visits, k).value)
  {
    if k > 0 {
      CollectedAscends(visits, k - 1);
      var before, v := Collected(visits, k - 1), visits[k - 1];
      assert Linked(visits, k - 1) && InOrder(v);
      if k > 1 {
        assert Linked(visits, k - 2);
        AllBeforePage(before, v.after.value, v.page.ids);
      }
      AppendAscends(before, v.page.ids);
      if v.page.next.Some? { AllUpToLast(before, v.page.ids); }
    }
  }

  lemma AllBeforePage(before: seq<string>, c: string, ids: seq<string>)
    requires forall a :: a in before ==> a == c || Less(a, c)
    requires forall b :: b in ids ==> Less(c, b)
    ensures forall a, b :: a in before && b in ids ==> Less(a, b)
  {
    forall a, b | a in before && b in ids ensures Less(a, b) {
      if a != c { LessTransitive(a, c, b); }
    }
  }

  lemma AllUpToLast(before: seq<string>, ids: seq<string>)
    requires ids != [] && Ascending(ids) && forall a, b :: a in before && b in ids ==> Less(a, b)
    ensures forall id :: id in before + ids ==> id == ids[|ids| - 1] || Less(id, ids[|ids| - 1])
  {
    var last := ids[|ids| - 1];
    assert last in ids;
    forall id | id in ids ensures id == last || Less(id, last) {
      var i :| 0 <= i < |ids| && ids[i] == id;
    }
  }

  lemma AppendAscends(a: seq<string>, b: seq<string>)
    requires Ascending(a) && Ascending(b) && forall x, y :: x in a && y in b ==> Less(x, y)
    ensures Ascending(a + b)
  {
    forall i, j | 0 <= i < j < |a + b| ensures Less((a + b)[i], (a + b)[j]) {
      if i < |a| <= j { assert a[i] in a && b[j - |a|] in b; }
    }
  }

  /** An id that matches at every page is collected as soon as the cursor has passed it. */
  lemma {:induction false} StayingIdIsCollected(visits: seq<Visit>, k: nat, id: string)
    requires Walk(visits) && k <= |visits|
    requires forall i :: 0 <= i < |visits| ==> id in visits[i].matching
    ensures id in Collected(visits, k) || (k == 0 || (CursorAt(visits, k).Some? && Less(CursorAt(visits, k).value, id)))
  {
    if k > 0 {
      StayingIdIsCollected(visits, k - 1, id);
      assert Linked(visits, k - 1) && InOrder(visits[k - 1]) && id in visits[k - 1].matching;
    }
  }

  lemma {:induction false} CollectedFromPages(visits: seq<Visit>, n: nat, id: string)
    requires Walk(visits) && n <= |visits| && id in Collected(visits, n)
    ensures exists k :: 0 <= k < n && id in visits[k].matching && id in visits[k].page.ids
  {
    if id in Collected(visits, n - 1) {
      CollectedFromPages(visits, n - 1, id);
    } else {
      assert Linked(visits, n - 1) && InOrder(visits[n - 1]);
    }
  }

  /**
    Main result: in a completed walk with any puts and deletes between its pages
    (and any limits), ids come out strictly ascending over the whole walk, so none
    twice; each was stored and matching when its page was read; and every id that
    matched throughout is returned.
  */
  lemma WalkUnderWrites(visits: seq<Visit>)
    requires Completed(visits)
    ensures Ascending(Collected(visits, |visits|))
    ensures forall id :: id in Collected(visits, |visits|) ==>
      exists k :: 0 <= k < |visits| && id in visits[k].matching && id in visits[k].page.ids
    ensures forall id :: (forall k :: 0 <= k < |visits| ==> id in visits[k].matching) ==>
      id in Collected(visits, |visits|)
  {
    CollectedAscends(visits, |visits|);
    forall id | id in Collected(visits, |visits|)
      ensures exists k :: 0 <= k < |visits| && id in visits[k].matching && id in visits[k].page.ids
    {
      CollectedFromPages(visits, |visits|, id);
    }
    forall id | forall k :: 0 <= k < |visits| ==> id in visits[k].matching
      ensures id in Collected(visits, |visits|)
    {
      StayingIdIsCollected(visits, |visits|, id);
    }
  }

  // Walks over an unchanged store

  /** The same ids match at every page, and every page has the same limit. */
  ghost predicate Unchanged(matching: set<string>, limit: nat, visits: seq<Visit>)
    requires limit >= 1
  {
    forall k {:trigger Queried(matching, limit, visits[k])} :: 0 <= k < |visits| ==>
      Queried(matching, limit, visits[k])
  }

  /** The page is what the ids and the limit make of its cursor. */
  predicate Queried(matching: set<string>, limit: nat, v: Visit)
    requires limit >= 1
  {
    v == PageVisit(matching, limit, v.after)
  }

  function PageVisit(matching: set<string>, limit: nat, after: Option<string>): Visit
    requires limit >= 1
  {
    Visit(matching, after, PageOf(matching, after, limit))
  }

  /** max(1, ceil(count / limit)) */
  function PageCount(count: nat, limit: nat): nat
    requires limit >= 1
  {
    if count == 0 then 1 else (count - 1) / limit + 1
  }

  lemma RemainingAfter(matching: set<string>, i: nat)
    requires i < |Sorted(matching)|
    ensures Sorted(Remaining(matching, Some(Sorted(matching)[i]))) == Sorted(matching)[i + 1..]
  {
    var all := Sorted(matching);
    SortedIsAscending(matching);
    SortedIsAscending(Remaining(matching, Some(all[i])));
    TailIsAfter(all, i, Sorted(Remaining(matching, Some(all[i]))));
  }

  /** The ids after position i of an ascending list, in ascending order, are its tail. */
  lemma TailIsAfter(all: seq<string>, i: nat, rest: seq<string>)
    requires Ascending(all) && i < |all| && Ascending(rest)
    requires forall id :: id in rest <==> id in all && Less(all[i], id)
    ensures rest == all[i + 1..]
  {
    forall id ensures id in rest <==> id in all[i + 1..] {
      if id in all[i + 1..] { assert id in all; }
      if id in all { AfterPosition(all, i, id); }
    }
    AscendingIsUnique(rest, all[i + 1..]);
  }

  /** The page that starts at position i of the sorted ids. */
  function PageAtPosition(all: seq<string>, limit: nat, i: nat): IdPage
    requires limit >= 1 && i <= |all|
  {
    if i + limit < |all| then IdPage(all[i..i + limit], Some(all[i + limit - 1])) else IdPage(all[i..], None)
  }

  lemma PageFrom(matching: set<string>, after: Option<string>, limit: nat, i: nat)
    requires limit >= 1 && i <= |Sorted(matching)|
    requires if i == 0 then after == None else after == Some(Sorted(matching)[i - 1])
    ensures PageOf(matching, after, limit) == PageAtPosition(Sorted(matching), limit, i)
  {
    var all := Sorted(matching);
    RestFrom(matching, after, i);
    PageOfRest(matching, after, limit);
    PageOfTail(all, limit, i);
  }

  lemma RestFrom(matching: set<string>, after: Option<string>, i: nat)
    requires i <= |Sorted(matching)|
    requires if i == 0 then after == None else after == Some(Sorted(matching)[i - 1])
    ensures Sorted(Remaining(matching, after)) == Sorted(matching)[i..]
  {
    if i == 0 {
      assert Remaining(matching, after) == matching;
      assert Sorted(matching)[0..] == Sorted(matching);
    } else {
      RemainingAfter(matching, i - 1);
    }
  }

  lemma PageOfTail(all: seq<string>, limit: nat, i: nat)
    requires limit >= 1 && i <= |all|
    ensures var rest := all[i..];
      PageAtPosition(all, limit, i) ==
      if limit < |rest| then IdPage(rest[..limit], Some(rest[limit - 1])) else IdPage(rest, None)
  {
    var rest := all[i..];
    if limit < |rest| {
      assert rest[..limit] == all[i..i + limit];
    }
  }

  /** Before page k, the first `done` ids have been collected and the cursor stands on the last of them. */
  ghost predicate Progress(all: seq<string>, visits: seq<Visit>, k: nat, done: nat)
    requires k <= |visits|
  {
    && done <= |all| && Collected(visits, k) == all[..done]
    && (if k == 0 then done == 0 else 0 < done < |all| && CursorAt(visits, k) == Some(all[done - 1]))
  }

  /** Where page k starts. */
  function Offset(k: nat, limit: nat): nat {
    if k == 0 then 0 else Offset(k - 1, limit) + limit
  }

  lemma {:induction false} OffsetIsProduct(k: nat, limit: nat)
    ensures Offset(k, limit) == limit * k
  {
    if k > 0 {
      OffsetIsProduct(k - 1, limit);
      assert limit * k == limit * (k - 1) + limit;
    }
  }

  /** Page k is needed exactly when the pages before it do not hold everything. */
  lemma PageCountBounds(count: nat, limit: nat, k: nat)
    requires limit >= 1
    ensures k < PageCount(count, limit) <==> k == 0 || Offset(k, limit) < count
  {
    if count > 0 && k > 0 {
      OffsetIsProduct(k, limit);
      DivAtLeast(count - 1, limit, k);
    }
  }

  lemma DivAtLeast(n: nat, limit: nat, k: nat)
    requires limit >= 1
    ensures k <= n / limit <==> limit * k <= n
  {
    var q := n / limit;
    assert n == limit * q + n % limit;
    if k <= q {
      assert limit * k <= limit * q;
    } else {
      assert limit * k >= limit * (q + 1);
    }
  }

  /** One more page, from its position on. */
  lemma OnePageOn(all: seq<string>, limit: nat, visits: seq<Visit>, k: nat, done: nat)
    requires limit >= 1 && k < |visits| && Progress(all, visits, k, done)
    requires visits[k].page == PageAtPosition(all, limit, done)
    ensures visits[k].page.next.Some? <==> done + limit < |all|
    ensures done + limit < |all| ==> Progress(all, visits, k + 1, done + limit)
    ensures done + limit >= |all| ==> Collected(visits, k + 1) == all
  {
    if done + limit < |all| {
      assert all[..done] + all[done..done + limit] == all[..done + limit];
    } else {
      assert all[..done] + all[done..] == all;
    }
  }

  /** The page starts behind its cursor in the list of all ids. */
  ghost predicate Listed(all: seq<string>, limit: nat, v: Visit)
    requires limit >= 1
  {
    forall i: nat :: i <= |all| && v.after == (if i == 0 then None else Some(all[i - 1])) ==>
      v.page == PageAtPosition(all, limit, i)
  }

  lemma QueriedIsListed(matching: set<string>, limit: nat, v: Visit)
    requires limit >= 1 && Queried(matching, limit, v)
    ensures Listed(Sorted(matching), limit, v)
  {
    var all := Sorted(matching);
    forall i: nat | i <= |all| && v.after == (if i == 0 then None else Some(all[i - 1]))
      ensures v.page == PageAtPosition(all, limit, i)
    {
      PageFrom(matching, v.after, limit, i);
    }
  }

  ghost predicate AllListed(all: seq<string>, limit: nat, visits: seq<Visit>)
    requires limit >= 1
  {
    forall k {:trigger Linked(visits, k)} :: 0 <= k < |visits| ==> Linked(visits, k) && Listed(all, limit, visits[k])
  }

  lemma UnchangedIsListed(matching: set<string>, limit: nat, visits: seq<Visit>)
    requires limit >= 1 && Walk(visits) && Unchanged(matching, limit, visits)
    ensures AllListed(Sorted(matching), limit, visits)
  {
    forall k | 0 <= k < |visits| ensures Linked(visits, k) && Listed(Sorted(matching), limit, visits[k]) {
      assert Linked(visits, k) && Queried(matching, limit, visits[k]);
      QueriedIsListed(matching, limit, visits[k]);
    }
  }

  lemma {:induction false} ListedProgress(all: seq<string>, limit: nat, visits: seq<Visit>, k: nat)
    requires limit >= 1 && k < |visits| && AllListed(all, limit, visits)
    ensures Progress(all, visits, k, Offset(k, limit))
    ensures visits[k].page == PageAtPosition(all, limit, Offset(k, limit))
  {
    if k > 0 {
      ListedProgress(all, limit, visits, k - 1);
      assert Linked(visits, k - 1);
      OnePageOn(all, limit, visits, k - 1, Offset(k - 1, limit));
    }
    assert Linked(visits, k);
  }

  /** A walk that has ended has come to the end of the list, page by page. */
  lemma ListedEnd(all: seq<string>, limit: nat, visits: seq<Visit>)
    requires limit >= 1 && visits != [] && AllListed(all, limit, visits)
    requires visits[|visits| - 1].page.next.None?
    ensures |visits| == PageCount(|all|, limit) && Collected(visits, |visits|) == all
  {
    var n := |visits| - 1;
    ListedProgress(all, limit, visits, n);
    OnePageOn(all, limit, visits, n, Offset(n, limit));
    assert Offset(n + 1, limit) == Offset(n, limit) + limit;
    PageCountBounds(|all|, limit, n);
    PageCountBounds(|all|, limit, n + 1);
  }

  /**
    Main result: a completed walk over an unchanged store has max(1, ceil(n / limit))
    pages for n matching ids, and they are together all matching ids in order.
  */
  lemma WalkOverUnchangedStore(matching: set<string>, limit: nat, visits: seq<Visit>)
    requires limit >= 1 && Completed(visits) && Unchanged(matching, limit, visits)
    ensures |visits| == PageCount(|matching|, limit)
    ensures Collected(visits, |visits|) == Sorted(matching)
  {
    SortedIsAscending(matching);
    UnchangedIsListed(matching, limit, visits);
    ListedEnd(Sorted(matching), limit, visits);
  }

  /** One more page keeps a walk over an unchanged store one. */
  lemma WalkGoesOn(matching: set<string>, limit: nat, visits: seq<Visit>) returns (next: seq<Visit>)
    requires limit >= 1 && Walk(visits) && Unchanged(matching, limit, visits)
    requires visits != [] ==> visits[|visits| - 1].page.next.Some?
    ensures |next| == |visits| + 1 && Walk(next) && Unchanged(matching, limit, next)
  {
    var v := PageVisit(matching, limit, CursorAt(visits, |visits|));
    next := visits + [v];
    PageOfIsInOrder(matching, v.after, limit);
    OneMoreVisit(visits, v);
    OneMoreQueried(matching, limit, visits, v);
  }

  lemma OneMoreVisit(visits: seq<Visit>, v: Visit)
    requires Walk(visits) && (visits != [] ==> visits[|visits| - 1].page.next.Some?)
    requires InOrder(v) && v.after == CursorAt(visits, |visits|)
    ensures Walk(visits + [v])
  {
    var next := visits + [v];
    forall k | 0 <= k < |next| ensures InOrder(next[k]) && Linked(next, k) {
      if k < |visits| { assert Linked(visits, k) && next[k] == visits[k]; }
    }
  }

  lemma OneMoreQueried(matching: set<string>, limit: nat, visits: seq<Visit>, v: Visit)
    requires limit >= 1 && Unchanged(matching, limit, visits) && Queried(matching, limit, v)
    ensures Unchanged(matching, limit, visits + [v])
  {
    var next := visits + [v];
    forall k | 0 <= k < |next| ensures Queried(matching, limit, next[k]) {
      if k < |visits| { assert next[k] == visits[k] && Queried(matching, limit, visits[k]); }
    }
  }

  /** Every walk over an unchanged store comes to its end. */
  lemma WalkEnds(matching: set<string>, limit: nat) returns (visits: seq<Visit>)
    requires limit >= 1
    ensures Completed(visits) && Unchanged(matching, limit, visits)
  {
    visits := WalkGoesOn(matching, limit, []);
    while visits[|visits| - 1].page.next.Some?
      invariant visits != [] && Walk(visits) && Unchanged(matching, limit, visits)
      decreases |Sorted(matching)| - Offset(|visits| - 1, limit)
    {
      MoreToCome(matching, limit, visits);
      visits := WalkGoesOn(matching, limit, visits);
    }
  }

  lemma MoreToCome(matching: set<string>, limit: nat, visits: seq<Visit>)
    requires limit >= 1 && visits != [] && Walk(visits) && Unchanged(matching, limit, visits)
    requires visits[|visits| - 1].page.next.Some?
    ensures Offset(|visits| - 1, limit) < Offset(|visits|, limit) < |Sorted(matching)|
  {
    var n := |visits| - 1;
    UnchangedIsListed(matching, limit, visits);
    ListedProgress(Sorted(matching), limit, visits, n);
    OnePageOn(Sorted(matching), limit, visits, n, Offset(n, limit));
    assert Offset(n + 1, limit) == Offset(n, limit) + limit;
  }
}
