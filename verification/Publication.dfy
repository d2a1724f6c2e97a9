/**
  What the public gets to see: every part of every response was published, at its
  address, when the request came for it; and a visit is answered exactly when a page is.
*/
module Publication {
  import opened Wrappers
  import opened Recency
  import CacheRuns
  import opened ContentService
  import opened FrontController
  import opened Histories
  import opened Visits
  import opened Transparency

  // Nothing else is shown

  ghost predicate PartWas(
      site: Site, h: seq<EditEvent>, since: nat, path: string, part: Part, result: Option<Resolved>)
  {
    exists t: Span :: t.sought >= since && PartIs(site, h, path, part, t, result)
  }

  /**
    Main result: in every run, overlaps and deletes included, each part of each response
    is what was public at the part's address at a moment after the request could first
    come for it, with a content that was on record then or later; a header or footer is
    left out only if at such a moment there was none to be shown.
  */
  lemma AnswerWasPublic(site: Site, before: seq<Event>, after: seq<Event>, part: Part, k: nat)
    requires k < |Run(site, EMPTY, before + after).responses|
    requires !HasSought(Run(site, EMPTY, before), Run(site, EMPTY, before + after).responses[k].request, part)
    ensures var r := Run(site, EMPTY, before + after).responses[k];
      PartWas(site, EditsOf(before + after), |EditsOf(before)|, r.path, part, SeenPart(r.seen, part))
  {
    var s, h := Run(site, EMPTY, before + after), EditsOf(before + after);
    var r, b := s.responses[k], Bound(SoughtBy(Run(site, EMPTY, before)), |EditsOf(before)|);
    BoundFromNow(site, before);
    RunTimed(site, b, before, after);
    assert r in s.responses;
    var q := Rendering(r.path, r.seen);
    assert HasTimes(site, h, b, r.request, q);
    var t :| RequestShown(site, h, q, t) && RequestSince(b, r.request, q, t);
    assert (r.request, part) !in b.early && !NotSought(q, part);
    ShowsPartExactly(site, h, r.path, part, SpanOf(t, part), SeenPart(r.seen, part));
  }

  ghost predicate NothingPublished(store: Store, a: Address) {
    forall id :: id in store.entries && store.entries[id].address == a ==> !store.entries[id].published
  }

  ghost predicate Unpublished(h: seq<EditEvent>, since: nat, a: Address) {
    forall i: nat :: since <= i <= |h| ==> NothingPublished(At(h, i).store, a)
  }

  lemma UnpublishedWasNot(
      site: Site, h: seq<EditEvent>, since: nat, path: string, part: Part, result: Option<Resolved>)
    requires Unpublished(h, since, AddressOf(site, path, part)) && PartWas(site, h, since, path, part, result)
    ensures result == None
  {
    var t: Span :| t.sought >= since && PartIs(site, h, path, part, t, result);
    assert NothingPublished(At(h, t.sought).store, AddressOf(site, path, part));
  }

  /** While nothing is published at a path's address, no request that comes for the page is answered. */
  lemma UnpublishedIsNotAnswered(site: Site, before: seq<Event>, after: seq<Event>, k: nat)
    requires k < |Run(site, EMPTY, before + after).responses|
    requires Unpublished(EditsOf(before + after), |EditsOf(before)|,
                         site.route(Run(site, EMPTY, before + after).responses[k].path))
    ensures HasSought(Run(site, EMPTY, before), Run(site, EMPTY, before + after).responses[k].request, Page)
  {
    var r := Run(site, EMPTY, before + after).responses[k];
    if !HasSought(Run(site, EMPTY, before), r.request, Page) {
      AnswerWasPublic(site, before, after, Page, k);
      UnpublishedWasNot(site, EditsOf(before + after), |EditsOf(before)|, r.path, Page, SeenPart(r.seen, Page));
    }
  }

  // A visit with nothing in between

  function Sequence(q: nat, path: string): seq<Event> {
    [Begin(q, path), SeekPart(q, Header), ReadPart(q, Header), SeekPart(q, Footer), ReadPart(q, Footer),
     SeekPart(q, Page), ReadPart(q, Page), Lookup(q), FinishRender(q)]
  }

  /** What a part is at this store. */
  ghost predicate PartNow(site: Site, store: Store, path: string, part: Part, result: Option<Resolved>) {
    match result
    case Some(r) =>
      && Public(store, AddressOf(site, path, part), r.id, r.revision) && Usable(site, store, part, r.id, r.revision)
      && store.revisions[(r.id, r.revision)] == r.content
    case None =>
      forall id, revision: nat :: Public(store, AddressOf(site, path, part), id, revision) ==>
        !Usable(site, store, part, id, revision)
  }

  function Now(site: Site, store: Store, path: string, part: Part): Option<Resolved> {
    match Seek(store, AddressOf(site, path, part))
    case None => None
    case Some((id, revision)) => ReadFound(site, store, part, id, revision)
  }

  lemma NowIsPublic(site: Site, store: Store, path: string, part: Part)
    ensures PartNow(site, store, path, part, Now(site, store, path, part))
  {
    var a := AddressOf(site, path, part);
    forall id, revision: nat ensures Seek(store, a) == Some((id, revision)) <==> Public(store, a, id, revision) {
      SeekExactly(store, a, id, revision);
    }
  }

  /** Coming for a header or a footer, and reading it if there is one. */
  lemma FragmentTaken(site: Site, s: State, q: nat, part: Part)
    requires q in s.requests && s.requests[q].Started? && part != Page && LookOf(s.requests[q], part).Unread?
    ensures Step(site, Step(site, s, SeekPart(q, part)), ReadPart(q, part)) ==
      s.(requests := s.requests[q := WithLook(s.requests[q], part,
                                              Seen(Now(site, s.studio.store, s.requests[q].path, part)))])
  {
    var r, s1 := s.requests[q], Step(site, s, SeekPart(q, part));
    var seen := WithLook(r, part, Seen(Now(site, s.studio.store, r.path, part)));
    assert s1.requests[q := seen] == s.requests[q := seen];
    assert Step(site, s1, ReadPart(q, part)).requests == s.requests[q := seen];
  }

  /** Coming for the page. */
  lemma PageTaken(site: Site, s: State, q: nat)
    requires q in s.requests && s.requests[q].Started? && s.requests[q].page.Unread?
    requires s.requests[q].header.Seen? && s.requests[q].footer.Seen?
    ensures var r := s.requests[q]; var page := Now(site, s.studio.store, r.path, Page);
      Step(site, Step(site, s, SeekPart(q, Page)), ReadPart(q, Page)) ==
      s.(requests := if page.None? then s.requests - {q}
                     else s.requests[q := Resolving(r.path, Snapshot(page.value, r.header.result, r.footer.result))])
  {
    var r, s1 := s.requests[q], Step(site, s, SeekPart(q, Page));
    var page := Now(site, s.studio.store, r.path, Page);
    if page.Some? {
      var done := Resolving(r.path, Snapshot(page.value, r.header.result, r.footer.result));
      assert s1.requests[q := done] == s.requests[q := done];
    } else {
      assert Step(site, s1, ReadPart(q, Page)).requests == s.requests - {q};
    }
  }

  /** A request that has read everything is answered, from the cache or by rendering. */
  lemma ReadIsAnswered(site: Site, s: State, q: nat) returns (html: string, hit: bool)
    requires q in s.requests && s.requests[q].Resolving?
    ensures Step(site, Step(site, s, Lookup(q)), FinishRender(q)).responses ==
      s.responses + [Response(q, s.requests[q].path, s.requests[q].seen, html, hit)]
    ensures !hit ==> html == Fresh(site, s.requests[q].path, s.requests[q].seen)
  {
    var r := s.requests[q];
    var cached := Find(s.cache, r.path);
    hit := cached.Some? && cached.value.version == Version(r.seen);
    html := if hit then cached.value.html else Fresh(site, r.path, r.seen);
  }

  lemma NobodyIsAnswered(site: Site, s: State, q: nat)
    requires q !in s.requests
    ensures Step(site, Step(site, s, Lookup(q)), FinishRender(q)).responses == s.responses
  {
  }

  lemma RunSequence(site: Site, s: State, q: nat, path: string)
    ensures var s1 := Step(site, s, Begin(q, path));
      var s2 := Step(site, Step(site, s1, SeekPart(q, Header)), ReadPart(q, Header));
      var s3 := Step(site, Step(site, s2, SeekPart(q, Footer)), ReadPart(q, Footer));
      var s4 := Step(site, Step(site, s3, SeekPart(q, Page)), ReadPart(q, Page));
      Run(site, s, Sequence(q, path)) == Step(site, Step(site, s4, Lookup(q)), FinishRender(q))
  {
    var all := Sequence(q, path);
    var s1 := Step(site, s, Begin(q, path));
    assert all[..1] == [Begin(q, path)];
    RunOne(site, s, Begin(q, path));
    RunTwoMore(site, s, all, 1, SeekPart(q, Header), ReadPart(q, Header));
    RunTwoMore(site, s, all, 3, SeekPart(q, Footer), ReadPart(q, Footer));
    RunTwoMore(site, s, all, 5, SeekPart(q, Page), ReadPart(q, Page));
    RunTwoMore(site, s, all, 7, Lookup(q), FinishRender(q));
    assert all[..9] == all;
  }

  lemma RunTwoMore(site: Site, s: State, all: seq<Event>, n: nat, x: Event, y: Event)
    requires n + 2 <= |all| && all[n] == x && all[n + 1] == y
    ensures Run(site, s, all[..n + 2]) == Step(site, Step(site, Run(site, s, all[..n]), x), y)
  {
    assert all[..n + 2][..n + 1] == all[..n + 1] && all[..n + 1][..n] == all[..n];
  }

  /** The page that is public at the path's address, on record. */
  ghost predicate PageIsThere(site: Site, store: Store, path: string, id: EntryId, revision: nat) {
    Public(store, site.route(path), id, revision) && (id, revision) in store.revisions
  }

  /** The one new response of a visit is from what is public now. */
  ghost predicate AnsweredFrom(site: Site, s: State, q: nat, path: string, r: Response) {
    && r.request == q && r.path == path
    && PartNow(site, s.studio.store, path, Page, Some(r.seen.page))
    && PartNow(site, s.studio.store, path, Header, r.seen.header)
    && PartNow(site, s.studio.store, path, Footer, r.seen.footer)
    && (!r.hit ==> r.html == site.render(site.route(path), r.seen.page.content,
                                         if r.seen.header.Some? then Some(r.seen.header.value.content) else None,
                                         if r.seen.footer.Some? then Some(r.seen.footer.value.content) else None))
  }

  /**
    Main result: at any point of any run, a visit of a path with nothing in between is
    answered if and only if the first entry at its address is published and its current
    revision is on record, and then from that page and from the header and the footer
    that are public then; otherwise there is no answer.
  */
  lemma VisitAnsweredExactly(site: Site, events: seq<Event>, q: nat, path: string)
    requires q !in Run(site, EMPTY, events).asked
    ensures var s := Run(site, EMPTY, events); var rs := Run(site, EMPTY, events + Sequence(q, path)).responses;
      if exists id, revision: nat :: PageIsThere(site, s.studio.store, path, id, revision)
      then |rs| == |s.responses| + 1 && rs[..|s.responses|] == s.responses &&
           AnsweredFrom(site, s, q, path, rs[|s.responses|])
      else rs == s.responses
  {
    var s := Run(site, EMPTY, events);
    RunUsesNumbers(site, events);
    RunAppend(site, EMPTY, events, Sequence(q, path));
    VisitAnswered(site, s, q, path);
  }

  lemma VisitAnswered(site: Site, s: State, q: nat, path: string)
    requires q !in s.asked && q !in s.requests
    ensures var rs := Run(site, s, Sequence(q, path)).responses;
      if exists id, revision: nat :: PageIsThere(site, s.studio.store, path, id, revision)
      then |rs| == |s.responses| + 1 && rs[..|s.responses|] == s.responses &&
           AnsweredFrom(site, s, q, path, rs[|s.responses|])
      else rs == s.responses
  {
    var store := s.studio.store;
    var header, footer := Now(site, store, path, Header), Now(site, store, path, Footer);
    var page := Now(site, store, path, Page);
    NowIsPublic(site, store, path, Header);
    NowIsPublic(site, store, path, Footer);
    NowIsPublic(site, store, path, Page);
    RunSequence(site, s, q, path);
    var s1 := Step(site, s, Begin(q, path));
    FragmentTaken(site, s1, q, Header);
    var s2 := With(s1, q, Started(path, Seen(header), Unread, Unread));
    FragmentTaken(site, s2, q, Footer);
    var s3 := With(s2, q, Started(path, Seen(header), Seen(footer), Unread));
    PageTaken(site, s3, q);
    if page.Some? {
      assert PageIsThere(site, store, path, page.value.id, page.value.revision);
      var s4 := With(s3, q, Resolving(path, Snapshot(page.value, header, footer)));
      var html, hit := ReadIsAnswered(site, s4, q);
    } else {
      NobodyIsAnswered(site, s3.(requests := s3.requests - {q}), q);
      assert forall id, revision: nat :: PageIsThere(site, store, path, id, revision) ==>
        !Usable(site, store, Page, id, revision);
    }
  }

  /**
    With no delete and no overlapping edits, a page that has once been there is there
    whenever its entry is published, in the middle of a save too: the entry is then what
    the visit above is answered from.
  */
  lemma PublishedPageStaysUp(site: Site, before: seq<Event>, after: seq<Event>, path: string, id: EntryId)
    requires OrderlyHistory(EditsOf(before + after))
    requires Readable(Run(site, EMPTY, before).studio.store, id)
    requires Run(site, EMPTY, before).studio.store.entries[id].address == site.route(path)
    requires var store := Run(site, EMPTY, before + after).studio.store;
      id in store.entries ==> store.entries[id].published
    ensures var store := Run(site, EMPTY, before + after).studio.store;
      id in store.entries && PageIsThere(site, store, path, id, store.entries[id].revision)
  {
    var h, i := EditsOf(before + after), |EditsOf(before)|;
    EditsOfAppend(before, after);
    RunStudio(site, before);
    RunStudio(site, before + after);
    assert h[..i] == EditsOf(before) && h[..|h|] == h;
    StaysReadable(h, i, |h|, id);
    OnwardAt(h, i, |h|);
    TidyAt(h, |h|);
  }

  // The site's use of the cache

  /** What a step does to the cache: a lookup of the request's path, or a store of its page. */
  function CacheOps(site: Site, s: State, e: Event): seq<CacheRuns.Op> {
    if e.Lookup? && e.request in s.requests && s.requests[e.request].Resolving? then
      [CacheRuns.Get(s.requests[e.request].path)]
    else if e.FinishRender? && e.request in s.requests && s.requests[e.request].Rendering? then
      var r := s.requests[e.request];
      [CacheRuns.Set(r.path, PageSlotEntry(site, r.path, r.seen))]
    else []
  }

  function AllCacheOps(site: Site, events: seq<Event>): seq<CacheRuns.Op> {
    if events == [] then []
    else
      var n := |events| - 1;
      AllCacheOps(site, events[..n]) + CacheOps(site, Run(site, EMPTY, events[..n]), events[n])
  }

  lemma StepCache(site: Site, s: State, e: Event)
    ensures var ops := CacheOps(site, s, e);
      && Step(site, s, e).cache == (if ops == [] then s.cache else CacheRuns.Apply(site.limits, s.cache, ops[0]))
      && |ops| <= 1 && forall op :: op in ops ==> (op.Get? || op.Set?) && CacheRuns.Measured(op)
  {
  }

  /** The site's cache goes through a run of lookups and stores, of which all that is proved of such runs holds. */
  lemma {:induction false} SiteCacheRuns(site: Site, events: seq<Event>)
    ensures Run(site, EMPTY, events).cache == CacheRuns.Run(site.limits, [], AllCacheOps(site, events))
    ensures forall op :: op in AllCacheOps(site, events) ==> (op.Get? || op.Set?) && CacheRuns.Measured(op)
  {
    if events != [] {
      var n := |events| - 1;
      SiteCacheRuns(site, events[..n]);
      var s := Run(site, EMPTY, events[..n]);
      var before, more := AllCacheOps(site, events[..n]), CacheOps(site, s, events[n]);
      StepCache(site, s, events[n]);
      if more == [] {
        assert before + more == before;
      } else {
        assert more == [more[0]] && (before + more)[..|before + more| - 1] == before;
      }
    }
  }

  /** Purging an entry's tag leaves only pages that were rendered from other entries. */
  lemma PurgedPagesAreGone(site: Site, events: seq<Event>, id: EntryId, x: Slot)
    requires x in WithoutTag(Run(site, EMPTY, events).cache, "content:" + id)
    ensures exists r :: r in Run(site, EMPTY, events).responses && RenderedBy(site, x, r) && r.seen.page.id != id
  {
    var s := Run(site, EMPTY, events);
    RunSourced(site, events);
    PurgeIsExact(s.cache, "content:" + id);
    assert x in s.cache;
    var j :| 0 <= j < |s.responses| && RenderedBy(site, x, s.responses[j]);
    assert x.entry.tags == ["content:" + s.responses[j].seen.page.id];
    assert "content:" + id in ["content:" + id];
  }
}
