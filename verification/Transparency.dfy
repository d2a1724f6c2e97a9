/**
  Exactly when the cache is invisible under a history of edits, and exactly when an
  edit is live at once; with what orderly editing guarantees as the special case.
*/
module Transparency {
  import opened Wrappers
  import opened Recency
  import opened ContentService
  import opened FrontController
  import opened Histories
  import opened Visits

  // When every response is a fresh render

  /** This response of this run, if its edits are those of the history and it is for the path, is a fresh render. */
  ghost predicate FreshIn(site: Site, h: seq<EditEvent>, path: string, events: seq<Event>, k: nat) {
    var rs := Run(site, EMPTY, events).responses;
    EditsOf(events) == h && k < |rs| && rs[k].path == path ==> rs[k].html == Fresh(site, path, rs[k].seen)
  }

  /** However requests interleave with the edits of the history, every response for the path is a fresh render. */
  ghost predicate AlwaysFresh(site: Site, h: seq<EditEvent>, path: string) {
    forall events, k: nat :: FreshIn(site, h, path, events, k)
  }

  /** The history shows two snapshots under one stamp, of which the first can be cached. */
  ghost predicate OneStamp(
      site: Site, h: seq<EditEvent>, path: string, t: Times, a: Snapshot, u: Times, b: Snapshot)
  {
    Shows(site, h, path, t, a) && Shows(site, h, path, u, b) && SameRevisions(a, b) && Cacheable(site, path, a)
  }

  ghost predicate OneRendering(site: Site, h: seq<EditEvent>, path: string) {
    forall t, a, u, b :: OneStamp(site, h, path, t, a, u, b) ==> Fresh(site, path, a) == Fresh(site, path, b)
  }

  /** No two snapshots that the history shows agree in all three revision numbers and differ in a content. */
  ghost predicate OneContent(site: Site, h: seq<EditEvent>, path: string) {
    forall t, a, u, b :: OneStamp(site, h, path, t, a, u, b) ==> SameContents(a, b)
  }

  /** A response was read at times that the history has. */
  lemma ResponseShown(site: Site, events: seq<Event>, k: nat) returns (t: Times)
    requires k < |Run(site, EMPTY, events).responses|
    ensures var r := Run(site, EMPTY, events).responses[k]; Shows(site, EditsOf(events), r.path, t, r.seen)
  {
    var s := Run(site, EMPTY, events);
    var r := s.responses[k];
    RunFromStartTimed(site, events);
    assert r in s.responses;
    assert HasTimes(site, EditsOf(events), ANY_TIME, r.request, Rendering(r.path, r.seen));
    t :| RequestShown(site, EditsOf(events), Rendering(r.path, r.seen), t) &&
         RequestSince(ANY_TIME, r.request, Rendering(r.path, r.seen), t);
  }

  lemma OneRenderingSuffices(site: Site, events: seq<Event>, k: nat)
    requires k < |Run(site, EMPTY, events).responses|
    requires OneRendering(site, EditsOf(events), Run(site, EMPTY, events).responses[k].path)
    ensures var r := Run(site, EMPTY, events).responses[k]; r.html == Fresh(site, r.path, r.seen)
  {
    var rs := Run(site, EMPTY, events).responses;
    RunSourced(site, events);
    if rs[k].hit {
      HitHasSameRevisions(site, events, k);
      var j: nat :| HitSource(site, rs, k, j) && SameRevisions(rs[j].seen, rs[k].seen);
      var t := ResponseShown(site, events, j);
      var u := ResponseShown(site, events, k);
      assert OneStamp(site, EditsOf(events), rs[k].path, t, rs[j].seen, u, rs[k].seen);
    }
  }

  /** Two requests are answered, one after the other. */
  function BothAnswered(): seq<Event> {
    [Lookup(0)] + ([FinishRender(0)] + [Lookup(1)])
  }

  /** Two requests that have read snapshots under one stamp: the second is served the page of the first. */
  lemma SecondIsServedFirst(site: Site, s: State, path: string, a: Snapshot, b: Snapshot)
    requires 0 in s.requests && s.requests[0] == Resolving(path, a)
    requires 1 in s.requests && s.requests[1] == Resolving(path, b)
    requires s.cache == [] && s.responses == [] && SameRevisions(a, b) && Cacheable(site, path, a)
    ensures Run(site, s, BothAnswered()).responses ==
      [Response(0, path, a, Fresh(site, path, a), false), Response(1, path, b, Fresh(site, path, a), true)]
  {
    var s1 := Step(site, s, Lookup(0));
    var s2 := Step(site, s1, FinishRender(0));
    RunOn(site, s, [], Lookup(0), [FinishRender(0)] + [Lookup(1)]);
    RunOn(site, s1, [], FinishRender(0), [Lookup(1)]);
    RunOne(site, s2, Lookup(1));
    assert [] + ([Lookup(0)] + ([FinishRender(0)] + [Lookup(1)])) == [Lookup(0)] + ([FinishRender(0)] + [Lookup(1)]);
    assert [] + ([FinishRender(0)] + [Lookup(1)]) == [FinishRender(0)] + [Lookup(1)];
    FirstRendered(site, s, 0, path, a);
  }

  /** Both snapshots can be taken before anything is cached. */
  lemma BothVisit(site: Site, h: seq<EditEvent>, path: string, t: Times, a: Snapshot, u: Times, b: Snapshot)
    returns (w: seq<Event>)
    requires Shows(site, h, path, t, a) && Shows(site, h, path, u, b)
    ensures EditsOf(w) == h
    ensures var s := Run(site, EMPTY, w);
      s.requests == map[0 := Resolving(path, a), 1 := Resolving(path, b)] && s.cache == [] && s.responses == []
  {
    EditsOfEditing(h);
    RunEditing(site, EMPTY, h);
    var v := VisitRuns(site, Editing(h), 0, 0, path, t, a);
    assert Untouched(Editing(h), 1);
    w := VisitRuns(site, v, 0, 1, path, u, b);
  }

  lemma AnswersEditNothing(visit: seq<Event>, last: seq<Event>)
    requires forall e :: e in last ==> !e.Edits?
    ensures EditsOf(visit + last) == EditsOf(visit)
  {
    NoEdits(last);
    EditsOfAppend(visit, last);
  }

  /** A run and some steps of requests after it. */
  lemma GoOn(site: Site, w: seq<Event>, last: seq<Event>) returns (events: seq<Event>)
    requires forall e :: e in last ==> !e.Edits?
    ensures EditsOf(events) == EditsOf(w)
    ensures Run(site, EMPTY, events) == Run(site, Run(site, EMPTY, w), last)
    ensures |events| >= |w| && events[..|w|] == w
  {
    events := w + last;
    AnswersEditNothing(w, last);
    RunAppend(site, EMPTY, w, last);
  }

  lemma AnswersAreNoEdits()
    ensures forall e :: e in BothAnswered() ==> !e.Edits?
  {
  }

  /** The run in which the second visitor is served the page of the first. */
  lemma StaleRun(site: Site, h: seq<EditEvent>, path: string, t: Times, a: Snapshot, u: Times, b: Snapshot)
    returns (events: seq<Event>)
    requires OneStamp(site, h, path, t, a, u, b)
    ensures EditsOf(events) == h
    ensures Run(site, EMPTY, events).responses ==
      [Response(0, path, a, Fresh(site, path, a), false), Response(1, path, b, Fresh(site, path, a), true)]
  {
    var w := BothVisit(site, h, path, t, a, u, b);
    SecondIsServedFirst(site, Run(site, EMPTY, w), path, a, b);
    AnswersAreNoEdits();
    events := GoOn(site, w, BothAnswered());
  }

  lemma OneRenderingNeeded(site: Site, h: seq<EditEvent>, path: string, t: Times, a: Snapshot, u: Times, b: Snapshot)
    requires OneStamp(site, h, path, t, a, u, b) && AlwaysFresh(site, h, path)
    ensures Fresh(site, path, a) == Fresh(site, path, b)
  {
    var events := StaleRun(site, h, path, t, a, u, b);
    assert FreshIn(site, h, path, events, 1);
  }

  /**
    The cache stays invisible for a path in every interleaving with a history of edits
    if and only if the snapshots that the history shows under one stamp render alike.
  */
  lemma FreshIfRenderedAlike(site: Site, h: seq<EditEvent>, path: string)
    ensures AlwaysFresh(site, h, path) <==> OneRendering(site, h, path)
  {
    if AlwaysFresh(site, h, path) {
      forall t, a, u, b | OneStamp(site, h, path, t, a, u, b)
        ensures Fresh(site, path, a) == Fresh(site, path, b)
      {
        OneRenderingNeeded(site, h, path, t, a, u, b);
      }
    }
    if OneRendering(site, h, path) {
      forall events, k: nat ensures FreshIn(site, h, path, events, k) {
        var rs := Run(site, EMPTY, events).responses;
        if EditsOf(events) == h && k < |rs| && rs[k].path == path {
          OneRenderingSuffices(site, events, k);
        }
      }
    }
  }

  /**
    Main result: for a renderer that makes contents visible, every response of every
    interleaving with a history of edits is a fresh render if and only if no two
    snapshots that the history shows for the path agree in all three revision numbers
    and differ in a content.
  */
  lemma FreshExactly(site: Site, h: seq<EditEvent>, path: string)
    requires Distinguishes(site)
    ensures AlwaysFresh(site, h, path) <==> OneContent(site, h, path)
  {
    FreshIfRenderedAlike(site, h, path);
    forall t, a, u, b | OneStamp(site, h, path, t, a, u, b)
      ensures Fresh(site, path, a) == Fresh(site, path, b) <==> SameContents(a, b)
    {
    }
  }

  // Orderly editing

  /** In an orderly history, what a part showed is on record in the end. */
  lemma ShownIsOnRecord(site: Site, h: seq<EditEvent>, path: string, part: Part, t: Span, r: Resolved)
    requires OrderlyHistory(h) && ShowsPart(site, h, path, part, t, Some(r))
    ensures var store := At(h, |h|).store;
      OnRecord(store, r.id, r.revision, r.content) && store.entries[r.id].address == AddressOf(site, path, part)
  {
    var a := AddressOf(site, path, part);
    SeekFinds(At(h, t.sought).store, a);
    TidyAt(h, t.sought);
    OnwardAt(h, t.sought, t.read);
    assert OnRecord(At(h, t.read).store, r.id, r.revision, r.content);
    OnwardAt(h, t.sought, |h|);
    OnwardAt(h, t.read, |h|);
  }

  lemma SamePart(site: Site, h: seq<EditEvent>, path: string, part: Part, t: Span, u: Span, a: Resolved, b: Resolved)
    requires OrderlyHistory(h) && a.revision == b.revision
    requires ShowsPart(site, h, path, part, t, Some(a)) && ShowsPart(site, h, path, part, u, Some(b))
    ensures a == b
  {
    ShownIsOnRecord(site, h, path, part, t, a);
    ShownIsOnRecord(site, h, path, part, u, b);
    TidyAt(h, |h|);
  }

  lemma OrderlyMeansOneContent(site: Site, h: seq<EditEvent>, path: string)
    requires OrderlyHistory(h)
    ensures OneContent(site, h, path)
  {
    forall t, a, u, b | OneStamp(site, h, path, t, a, u, b) ensures SameContents(a, b) {
      SamePart(site, h, path, Page, t.page, u.page, a.page, b.page);
      if a.header.Some? { SamePart(site, h, path, Header, t.header, u.header, a.header.value, b.header.value); }
      if a.footer.Some? { SamePart(site, h, path, Footer, t.footer, u.footer, a.footer.value, b.footer.value); }
    }
  }

  /**
    As long as no entry is deleted underneath the content service and no two edits of
    one entry or address overlap, the cache is invisible: every response, hit or miss,
    in any interleaving, is byte for byte what rendering the request's own header,
    footer and page gives.
  */
  lemma CacheIsTransparent(site: Site, events: seq<Event>, k: nat)
    requires OrderlyHistory(EditsOf(events))
    requires k < |Run(site, EMPTY, events).responses|
    ensures var r := Run(site, EMPTY, events).responses[k]; var seen := r.seen;
      r.html == site.render(site.route(r.path), seen.page.content,
                            if seen.header.Some? then Some(seen.header.value.content) else None,
                            if seen.footer.Some? then Some(seen.footer.value.content) else None)
  {
    var path := Run(site, EMPTY, events).responses[k].path;
    OrderlyMeansOneContent(site, EditsOf(events), path);
    assert OneRendering(site, EditsOf(events), path);
    OneRenderingSuffices(site, events, k);
  }

  // When an edit is live

  /** The page's revision is public after p edit steps and on record after q. */
  ghost predicate PageThen(site: Site, h: seq<EditEvent>, path: string, p: nat, q: nat) {
    && p <= q <= |h|
    && exists id, revision: nat :: Public(At(h, p).store, site.route(path), id, revision) &&
                              Usable(site, At(h, q).store, Page, id, revision)
  }

  ghost predicate PageFollows(site: Site, h: seq<EditEvent>, path: string, j: nat) {
    exists p, q :: j <= p && PageThen(site, h, path, p, q)
  }

  /**
    After i edit steps, `since` or more, this revision of this entry is public at the
    part's address, and it is on record and of use after j steps; and a header or footer
    matters only if a page can still be read then.
  */
  ghost predicate LeadsTo(
      site: Site, h: seq<EditEvent>, since: nat, path: string, part: Part, i: nat, j: nat, id: EntryId, revision: nat)
  {
    && since <= i <= j <= |h|
    && Public(At(h, i).store, AddressOf(site, path, part), id, revision)
    && Usable(site, At(h, j).store, part, id, revision)
    && (part != Page ==> PageFollows(site, h, path, j))
  }

  /** A header or footer that is absent shows nothing older. */
  predicate AtLeast(r: Option<Resolved>, id: EntryId, revision: nat) {
    r.Some? ==> r.value.id == id && r.value.revision >= revision
  }

  /** This response, if its request had not sought the part when the first edits were done, is up to date in it. */
  ghost predicate LiveIn(
      site: Site, g: seq<EditEvent>, h: seq<EditEvent>, path: string, part: Part, id: EntryId, revision: nat,
      before: seq<Event>, after: seq<Event>, k: nat)
  {
    var rs := Run(site, EMPTY, before + after).responses;
    (&& EditsOf(before) == g && EditsOf(after) == h && k < |rs| && rs[k].path == path
     && !HasSought(Run(site, EMPTY, before), rs[k].request, part)) ==>
      AtLeast(SeenPart(rs[k].seen, part), id, revision)
  }

  /** After the edits g the revision is live for the path, whatever happens while the edits h go on. */
  ghost predicate AlwaysLive(
      site: Site, g: seq<EditEvent>, h: seq<EditEvent>, path: string, part: Part, id: EntryId, revision: nat)
  {
    forall before, after, k: nat :: LiveIn(site, g, h, path, part, id, revision, before, after, k)
  }

  /** From g on the address leads to no other entry and no lower revision that can be read then or later. */
  ghost predicate LeadsOn(
      site: Site, g: seq<EditEvent>, h: seq<EditEvent>, path: string, part: Part, id: EntryId, revision: nat)
  {
    forall i: nat, j: nat, other, n: nat ::
      LeadsTo(site, g + h, |g|, path, part, i, j, other, n) ==> other == id && n >= revision
  }

  /** The parts that requests have sought by now. */
  function SoughtBy(s: State): set<(nat, Part)> {
    set q, part | q in s.asked && part in {Header, Footer, Page} && HasSought(s, q, part) :: (q, part)
  }

  /** Times of any request are early or late enough if the parts it has sought count as early. */
  lemma EarlyEnough(site: Site, h: seq<EditEvent>, b: Bound, n: nat, q: Request)
    requires HasTimes(site, h, ANY_TIME, n, q)
    requires forall part :: !NotSought(q, part) ==> (n, part) in b.early
    ensures HasTimes(site, h, b, n, q)
  {
    var t :| RequestShown(site, h, q, t) && RequestSince(ANY_TIME, n, q, t);
    assert RequestSince(b, n, q, t);
  }

  lemma SoughtIsEarly(s: State, q: nat, part: Part)
    requires HasSought(s, q, part)
    ensures (q, part) in SoughtBy(s)
  {
    assert part in {Header, Footer, Page};
  }

  lemma BoundFromNow(site: Site, before: seq<Event>)
    ensures var s := Run(site, EMPTY, before);
      AllTimed(site, EditsOf(before), Bound(SoughtBy(s), |EditsOf(before)|), s)
  {
    var s, h := Run(site, EMPTY, before), EditsOf(before);
    var b := Bound(SoughtBy(s), |h|);
    RunFromStartTimed(site, before);
    RunUsesNumbers(site, before);
    forall q | q in s.requests ensures HasTimes(site, h, b, q, s.requests[q]) {
      forall part | !NotSought(s.requests[q], part) ensures (q, part) in b.early { SoughtIsEarly(s, q, part); }
      EarlyEnough(site, h, b, q, s.requests[q]);
    }
    forall r | r in s.responses ensures HasTimes(site, h, b, r.request, Rendering(r.path, r.seen)) {
      forall part | !NotSought(Rendering(r.path, r.seen), part) ensures (r.request, part) in b.early {
        SoughtIsEarly(s, r.request, part);
      }
      EarlyEnough(site, h, b, r.request, Rendering(r.path, r.seen));
    }
  }

  /** What a snapshot shows of a part, the part's address led to. */
  lemma ShownWasLedTo(site: Site, h: seq<EditEvent>, since: nat, path: string, part: Part, t: Times, r: Snapshot)
    requires Shows(site, h, path, t, r) && SpanOf(t, part).sought >= since && SeenPart(r, part).Some?
    ensures var seen, span := SeenPart(r, part).value, SpanOf(t, part);
      LeadsTo(site, h, since, path, part, span.sought, span.read, seen.id, seen.revision)
  {
    ShowsPartExactly(site, h, path, part, SpanOf(t, part), SeenPart(r, part));
    ShowsPartExactly(site, h, path, Page, t.page, Some(r.page));
    if part != Page {
      assert PageThen(site, h, path, t.page.sought, t.page.read);
    }
  }

  ghost predicate LedTo(
      site: Site, h: seq<EditEvent>, since: nat, path: string, part: Part, id: EntryId, revision: nat)
  {
    exists i: nat, j: nat :: LeadsTo(site, h, since, path, part, i, j, id, revision)
  }

  /**
    In every run at all, overlaps and deletes included: what a response shows of a part
    that its request had not sought before is what the part's address led to afterwards.
  */
  lemma AnswerLedTo(site: Site, before: seq<Event>, after: seq<Event>, part: Part, k: nat)
    requires k < |Run(site, EMPTY, before + after).responses|
    requires !HasSought(Run(site, EMPTY, before), Run(site, EMPTY, before + after).responses[k].request, part)
    ensures var r := Run(site, EMPTY, before + after).responses[k]; var seen := SeenPart(r.seen, part);
      seen.Some? ==>
        LedTo(site, EditsOf(before + after), |EditsOf(before)|, r.path, part, seen.value.id, seen.value.revision)
  {
    var s, h := Run(site, EMPTY, before + after), EditsOf(before + after);
    var r, b := s.responses[k], Bound(SoughtBy(Run(site, EMPTY, before)), |EditsOf(before)|);
    BoundFromNow(site, before);
    RunTimed(site, b, before, after);
    assert r in s.responses;
    var q := Rendering(r.path, r.seen);
    assert HasTimes(site, h, b, r.request, q);
    var t :| RequestShown(site, h, q, t) && RequestSince(b, r.request, q, t);
    assert (r.request, part) !in b.early && !NotSought(q, part);
    if SeenPart(r.seen, part).Some? {
      ShownWasLedTo(site, h, b.since, r.path, part, t, r.seen);
    }
  }

  /** What a part comes out like at these times. */
  function Result(site: Site, h: seq<EditEvent>, path: string, part: Part, t: Span): Option<Resolved>
    requires t.sought <= t.read <= |h|
  {
    match Seek(At(h, t.sought).store, AddressOf(site, path, part))
    case None => None
    case Some((id, revision)) => ReadFound(site, At(h, t.read).store, part, id, revision)
  }

  /** What is public and on record is what a part comes out like. */
  lemma PublicIsResult(
      site: Site, h: seq<EditEvent>, path: string, part: Part, t: Span, id: EntryId, revision: nat)
    requires t.sought <= t.read <= |h| && Public(At(h, t.sought).store, AddressOf(site, path, part), id, revision)
    requires Usable(site, At(h, t.read).store, part, id, revision)
    ensures var result := Result(site, h, path, part, t);
      result.Some? && result.value.id == id && result.value.revision == revision
  {
    SeekExactly(At(h, t.sought).store, AddressOf(site, path, part), id, revision);
  }

  /** Where a part's address leads, a visit can follow. */
  lemma LedToIsShown(
      site: Site, h: seq<EditEvent>, since: nat, path: string, part: Part, i: nat, j: nat, id: EntryId, revision: nat)
    returns (t: Times, r: Snapshot)
    requires LeadsTo(site, h, since, path, part, i, j, id, revision)
    ensures Shows(site, h, path, t, r) && NotBefore(t, since)
    ensures var seen := SeenPart(r, part); seen.Some? && seen.value.id == id && seen.value.revision == revision
  {
    if part == Page {
      t := Times(Span(i, i), Span(i, i), Span(i, j));
    } else {
      var p, q :| j <= p && PageThen(site, h, path, p, q);
      t := Times(Span(i, j), Span(i, j), Span(p, q));
      var other, n: nat :| Public(At(h, p).store, site.route(path), other, n) &&
        Usable(site, At(h, q).store, Page, other, n);
      PublicIsResult(site, h, path, Page, t.page, other, n);
    }
    PublicIsResult(site, h, path, part, Span(i, j), id, revision);
    r := Snapshot(Result(site, h, path, Page, t.page).value, Result(site, h, path, Header, t.header),
                  Result(site, h, path, Footer, t.footer));
  }

  /** The edits g and then h with nothing else. */
  lemma EditingBoth(site: Site, g: seq<EditEvent>, h: seq<EditEvent>) returns (before: seq<Event>, all: seq<Event>)
    ensures EditsOf(before) == g && EditsOf(all) == g + h && |before| <= |all| && all[..|before|] == before
    ensures Count(all, |before|) == |g| && Untouched(all, 0) && Run(site, EMPTY, before).asked == {}
    ensures var s := Run(site, EMPTY, all); s.requests == map[] && s.cache == [] && s.responses == []
  {
    before, all := Editing(g), Editing(g) + Editing(h);
    EditsOfEditing(g);
    EditsOfEditing(h);
    EditsOfAppend(Editing(g), Editing(h));
    assert all[..|g|] == Editing(g);
    EditsCounted(all, |g|);
    RunEditing(site, EMPTY, g);
    RunEditing(site, Run(site, EMPTY, Editing(g)), h);
    RunAppend(site, EMPTY, Editing(g), Editing(h));
  }

  /** The rest of a run after its first steps. */
  lemma SplitAt(w: seq<Event>, before: seq<Event>, g: seq<EditEvent>, h: seq<EditEvent>) returns (rest: seq<Event>)
    requires |before| <= |w| && w[..|before|] == before && EditsOf(w) == g + h && EditsOf(before) == g
    ensures w == before + rest && EditsOf(rest) == h
  {
    rest := w[|before|..];
    EditsOfAppend(before, rest);
    assert EditsOf(w)[|g|..] == h;
  }

  /** A visit after the edits g, while the edits h go on, that reads what is shown at its times. */
  lemma VisitAfter(site: Site, g: seq<EditEvent>, h: seq<EditEvent>, path: string, t: Times, r: Snapshot)
    returns (before: seq<Event>, w: seq<Event>)
    requires Shows(site, g + h, path, t, r) && NotBefore(t, |g|)
    ensures EditsOf(before) == g && EditsOf(w) == g + h && Run(site, EMPTY, before).asked == {}
    ensures |before| <= |w| && w[..|before|] == before
    ensures var s := Run(site, EMPTY, w);
      s.requests == map[0 := Resolving(path, r)] && s.cache == [] && s.responses == []
  {
    var all;
    before, all := EditingBoth(site, g, h);
    w := VisitRuns(site, all, |before|, 0, path, t, r);
  }

  lemma VisitIsAnswered(site: Site, s: State, path: string, r: Snapshot)
    requires s.requests == map[0 := Resolving(path, r)] && s.cache == [] && s.responses == []
    ensures Run(site, s, [Lookup(0)] + [FinishRender(0)]).responses ==
      [Response(0, path, r, Fresh(site, path, r), false)]
  {
    RunOne(site, s, Lookup(0));
    RunOne(site, Step(site, s, Lookup(0)), FinishRender(0));
    RunAppend(site, s, [Lookup(0)], [FinishRender(0)]);
  }

  /** A run whose one visitor has read a snapshot goes on to answer it. */
  lemma AnswerAfter(
      site: Site, before: seq<Event>, w: seq<Event>, g: seq<EditEvent>, h: seq<EditEvent>, path: string, r: Snapshot)
    returns (after: seq<Event>)
    requires EditsOf(before) == g && EditsOf(w) == g + h && |before| <= |w| && w[..|before|] == before
    requires var s := Run(site, EMPTY, w);
      s.requests == map[0 := Resolving(path, r)] && s.cache == [] && s.responses == []
    ensures EditsOf(after) == h
    ensures Run(site, EMPTY, before + after).responses == [Response(0, path, r, Fresh(site, path, r), false)]
  {
    VisitIsAnswered(site, Run(site, EMPTY, w), path, r);
    var events := GoOn(site, w, [Lookup(0)] + [FinishRender(0)]);
    assert events[..|before|] == events[..|w|][..|before|];
    after := SplitAt(events, before, g, h);
  }

  /** The one visitor of the run answers from where the part's address led. */
  lemma LedToIsAnswered(
      site: Site, g: seq<EditEvent>, h: seq<EditEvent>, path: string, part: Part, i: nat, j: nat, id: EntryId,
      revision: nat)
    returns (before: seq<Event>, after: seq<Event>)
    requires LeadsTo(site, g + h, |g|, path, part, i, j, id, revision)
    ensures EditsOf(before) == g && EditsOf(after) == h
    ensures var rs := Run(site, EMPTY, before + after).responses;
      && |rs| == 1 && rs[0].path == path && !HasSought(Run(site, EMPTY, before), rs[0].request, part)
      && var seen := SeenPart(rs[0].seen, part); seen.Some? && seen.value.id == id && seen.value.revision == revision
  {
    var t, r := LedToIsShown(site, g + h, |g|, path, part, i, j, id, revision);
    var w;
    before, w := VisitAfter(site, g, h, path, t, r);
    after := AnswerAfter(site, before, w, g, h, path, r);
  }

  /**
    Main result: an edit is live at once for a part, in every interleaving with the
    edits that follow, if and only if from then on the part's address leads to no other
    entry and no lower revision that can be read then or later.
  */
  lemma GoesLiveExactly(
      site: Site, g: seq<EditEvent>, h: seq<EditEvent>, path: string, part: Part, id: EntryId, revision: nat)
    ensures AlwaysLive(site, g, h, path, part, id, revision) <==> LeadsOn(site, g, h, path, part, id, revision)
  {
    if AlwaysLive(site, g, h, path, part, id, revision) {
      forall i: nat, j: nat, other, n: nat | LeadsTo(site, g + h, |g|, path, part, i, j, other, n)
        ensures other == id && n >= revision
      {
        var before, after := LedToIsAnswered(site, g, h, path, part, i, j, other, n);
        assert LiveIn(site, g, h, path, part, id, revision, before, after, 0);
      }
    }
    if LeadsOn(site, g, h, path, part, id, revision) {
      forall before, after, k: nat ensures LiveIn(site, g, h, path, part, id, revision, before, after, k) {
        var rs := Run(site, EMPTY, before + after).responses;
        if && EditsOf(before) == g && EditsOf(after) == h && k < |rs| && rs[k].path == path
           && !HasSought(Run(site, EMPTY, before), rs[k].request, part)
        {
          EditsOfAppend(before, after);
          AnswerLedTo(site, before, after, part, k);
        }
      }
    }
  }

  /** In an orderly history an address leads on to its entry, and its revisions only count up. */
  lemma OrderlyLeadsOn(
      site: Site, h: seq<EditEvent>, since: nat, path: string, part: Part, id: EntryId, i: nat, other: EntryId, n: nat)
    requires OrderlyHistory(h) && since <= i <= |h| && id in At(h, since).store.entries
    requires At(h, since).store.entries[id].address == AddressOf(site, path, part)
    requires Public(At(h, i).store, AddressOf(site, path, part), other, n)
    ensures other == id && n >= At(h, since).store.entries[id].revision
  {
    OnwardAt(h, since, i);
    TidyAt(h, i);
  }

  /**
    Publishing is instant: with no delete and no overlapping edits, once an edit has
    made a revision of a page, a header or a footer current, every request that has not
    yet asked for it answers from that revision of that entry or a later one, cached or
    not.
  */
  lemma EditGoesLive(site: Site, before: seq<Event>, after: seq<Event>, part: Part, id: EntryId, k: nat)
    requires OrderlyHistory(EditsOf(before + after))
    requires id in Run(site, EMPTY, before).studio.store.entries
    requires k < |Run(site, EMPTY, before + after).responses|
    requires var r := Run(site, EMPTY, before + after).responses[k];
      && !HasSought(Run(site, EMPTY, before), r.request, part)
      && AddressOf(site, r.path, part) == Run(site, EMPTY, before).studio.store.entries[id].address
    ensures var r := Run(site, EMPTY, before + after).responses[k];
      AtLeast(SeenPart(r.seen, part), id, Run(site, EMPTY, before).studio.store.entries[id].revision)
  {
    var h, since := EditsOf(before + after), |EditsOf(before)|;
    var r := Run(site, EMPTY, before + after).responses[k];
    EditsOfAppend(before, after);
    RunStudio(site, before);
    assert h[..since] == EditsOf(before);
    AnswerLedTo(site, before, after, part, k);
    var seen := SeenPart(r.seen, part);
    if seen.Some? {
      var i: nat, j: nat :| LeadsTo(site, h, since, r.path, part, i, j, seen.value.id, seen.value.revision);
      OrderlyLeadsOn(site, h, since, r.path, part, id, i, seen.value.id, seen.value.revision);
    }
  }
}
