/**
  Runs that are not orderly: a delete underneath the content service, or two edits of
  one entry or address at a time, and what visitors then get.
*/
module StaleHits {
  import opened Wrappers
  import opened Ordering
  import opened Recency
  import opened RenderCache
  import opened ContentService
  import opened FrontController
  import opened Histories

  // Running pieces of a run

  lemma RunCons(site: Site, s: State, e: Event, rest: seq<Event>)
    ensures Run(site, s, [e] + rest) == Run(site, Step(site, s, e), rest)
  {
    RunOne(site, s, e);
    RunAppend(site, s, [e], rest);
  }

  // One visit of a page

  /** A whole visit with nothing in between; finishing a render is no step of a visit that hit. */
  function Visit(q: nat, path: string): seq<Event> {
    [Begin(q, path)] + ([SeekPart(q, Header)] + ([SeekPart(q, Footer)] + ([SeekPart(q, Page)] +
    ([ReadPart(q, Page)] + ([Lookup(q)] + [FinishRender(q)])))))
  }

  /** The site has neither header nor footer, and the address leads to this page. */
  ghost predicate LeadsTo(site: Site, store: Store, path: string, page: Resolved) {
    && EntriesAt(store, site.header) == {} && EntriesAt(store, site.footer) == {}
    && Seek(store, site.route(path)) == Some((page.id, page.revision))
    && (page.id, page.revision) in store.revisions && store.revisions[(page.id, page.revision)] == page.content
  }

  /** A visit up to its lookup. */
  function Arrived(s: State, q: nat, path: string, page: Resolved): State {
    s.(requests := s.requests[q := Resolving(path, Snapshot(page, None, None))], asked := s.asked + {q})
  }

  lemma FragmentAbsent(site: Site, s: State, q: nat, part: Part, rest: seq<Event>)
    requires q in s.requests && MaySeek(s.requests[q], part) && part != Page
    requires EntriesAt(s.studio.store, AddressOf(site, s.requests[q].path, part)) == {}
    ensures Run(site, s, [SeekPart(q, part)] + rest) ==
      Run(site, s.(requests := s.requests[q := WithLook(s.requests[q], part, Seen(None))]), rest)
  {
    RunCons(site, s, SeekPart(q, part), rest);
  }

  /** No header, no footer. */
  lemma FragmentsAbsent(site: Site, s: State, q: nat, path: string, rest: seq<Event>)
    requires q !in s.asked
    requires EntriesAt(s.studio.store, site.header) == {} && EntriesAt(s.studio.store, site.footer) == {}
    ensures Run(site, s, [Begin(q, path)] + ([SeekPart(q, Header)] + ([SeekPart(q, Footer)] + rest))) ==
      Run(site,
          s.(requests := s.requests[q := Started(path, Seen(None), Seen(None), Unread)], asked := s.asked + {q}),
          rest)
  {
    RunCons(site, s, Begin(q, path), [SeekPart(q, Header)] + ([SeekPart(q, Footer)] + rest));
    var s1 := Step(site, s, Begin(q, path));
    FragmentAbsent(site, s1, q, Header, [SeekPart(q, Footer)] + rest);
    var s2 := s1.(requests := s1.requests[q := Started(path, Seen(None), Unread, Unread)]);
    FragmentAbsent(site, s2, q, Footer, rest);
    assert s2.requests[q := Started(path, Seen(None), Seen(None), Unread)] ==
      s.requests[q := Started(path, Seen(None), Seen(None), Unread)];
  }

  lemma PageArrives(site: Site, s: State, q: nat, path: string, page: Resolved, rest: seq<Event>)
    requires q in s.requests && s.requests[q] == Started(path, Seen(None), Seen(None), Unread)
    requires LeadsTo(site, s.studio.store, path, page)
    ensures Run(site, s, [SeekPart(q, Page)] + ([ReadPart(q, Page)] + rest)) ==
      Run(site, s.(requests := s.requests[q := Resolving(path, Snapshot(page, None, None))]), rest)
  {
    var s1 := Step(site, s, SeekPart(q, Page));
    RunCons(site, s, SeekPart(q, Page), [ReadPart(q, Page)] + rest);
    assert s1.requests[q] == Started(path, Seen(None), Seen(None), Found(page.id, page.revision));
    var s2 := Step(site, s1, ReadPart(q, Page));
    RunCons(site, s1, ReadPart(q, Page), rest);
    assert s2.requests == s.requests[q := Resolving(path, Snapshot(page, None, None))];
  }

  lemma VisitArrives(site: Site, s: State, q: nat, path: string, page: Resolved)
    requires q !in s.asked && LeadsTo(site, s.studio.store, path, page)
    ensures Run(site, s, Visit(q, path)) ==
      Step(site, Step(site, Arrived(s, q, path, page), Lookup(q)), FinishRender(q))
  {
    var last := [Lookup(q)] + [FinishRender(q)];
    FragmentsAbsent(site, s, q, path, [SeekPart(q, Page)] + ([ReadPart(q, Page)] + last));
    var s1 := s.(requests := s.requests[q := Started(path, Seen(None), Seen(None), Unread)], asked := s.asked + {q});
    PageArrives(site, s1, q, path, page, last);
    var s2 := Arrived(s, q, path, page);
    assert s2 == s1.(requests := s1.requests[q := Resolving(path, Snapshot(page, None, None))]);
    RunCons(site, s2, Lookup(q), [FinishRender(q)]);
    RunCons(site, Step(site, s2, Lookup(q)), FinishRender(q), []);
    assert [FinishRender(q)] + [] == [FinishRender(q)];
  }

  /** The first visit of a path renders and caches it. */
  lemma FirstVisit(site: Site, s: State, q: nat, path: string, page: Resolved)
    requires q !in s.asked && q !in s.requests && LeadsTo(site, s.studio.store, path, page)
    requires s.cache == [] && site.limits.maxEntries >= 1
    requires PageSlotEntry(site, path, Snapshot(page, None, None)).bytes <= site.limits.maxBytes
    ensures var seen := Snapshot(page, None, None); var t := Run(site, s, Visit(q, path));
      && t.studio == s.studio && t.requests == s.requests && t.asked == s.asked + {q}
      && t.cache == [Slot(path, PageSlotEntry(site, path, seen))]
      && t.responses == s.responses + [Response(q, path, seen, Fresh(site, path, seen), false)]
  {
    var seen := Snapshot(page, None, None);
    VisitArrives(site, s, q, path, page);
    var arrived := Arrived(s, q, path, page);
    FirstRendered(site, arrived, q, path, seen);
    assert arrived.requests - {q} == s.requests;
  }

  /** A later visit that resolves the revision numbers of the cached page hits, whatever was rendered then. */
  lemma SecondVisit(site: Site, s: State, q: nat, path: string, page: Resolved, cached: Snapshot)
    requires q !in s.asked && LeadsTo(site, s.studio.store, path, page)
    requires s.cache == [Slot(path, PageSlotEntry(site, path, cached))]
    requires Version(cached) == Version(Snapshot(page, None, None))
    ensures Run(site, s, Visit(q, path)).responses ==
      s.responses + [Response(q, path, Snapshot(page, None, None), Fresh(site, path, cached), true)]
  {
    VisitArrives(site, s, q, path, page);
  }

  // Two visits with edits before and between

  function TwoVisits(path: string, first: seq<EditEvent>, between: seq<EditEvent>): seq<Event> {
    Editing(first) + (Visit(0, path) + (Editing(between) + Visit(1, path)))
  }

  /** The second visit is a hit on the page of the first, although its own page has another content. */
  ghost predicate ServedStale(site: Site, events: seq<Event>, path: string, former: Resolved, latter: Resolved) {
    var rs := Run(site, EMPTY, events).responses;
    && |rs| == 2 && rs[1].hit && rs[1].path == path && rs[1].seen == Snapshot(latter, None, None)
    && rs[1].html == Fresh(site, path, Snapshot(former, None, None))
    && (Distinguishes(site) && former.content != latter.content ==> rs[1].html != Fresh(site, path, rs[1].seen))
  }

  /** The page has an address of its own and can be cached when rendered without header and footer. */
  ghost predicate Bare(site: Site, path: string, page: Resolved) {
    && site.route(path) != site.header && site.route(path) != site.footer
    && Cacheable(site, path, Snapshot(page, None, None))
  }

  lemma SameRevisionServesStale(
      site: Site, path: string, first: seq<EditEvent>, between: seq<EditEvent>, former: Resolved, latter: Resolved)
    requires Bare(site, path, former) && former.revision == latter.revision
    requires LeadsTo(site, RunEdits(NO_CONTENT, first).store, path, former)
    requires LeadsTo(site, RunEdits(RunEdits(NO_CONTENT, first), between).store, path, latter)
    ensures ServedStale(site, TwoVisits(path, first, between), path, former, latter)
  {
    var s1 := Run(site, EMPTY, Editing(first));
    RunEditing(site, EMPTY, first);
    FirstVisit(site, s1, 0, path, former);
    var s2 := Run(site, s1, Visit(0, path));
    RunEditing(site, s2, between);
    var s3 := Run(site, s2, Editing(between));
    SecondVisit(site, s3, 1, path, latter, Snapshot(former, None, None));
    RunAppend(site, EMPTY, Editing(first), Visit(0, path) + (Editing(between) + Visit(1, path)));
    RunAppend(site, s1, Visit(0, path), Editing(between) + Visit(1, path));
    RunAppend(site, s2, Editing(between), Visit(1, path));
  }

  // The edits

  function Publish(id: EntryId): seq<EditEvent> {
    [BeginTransition(0, id, true), Continue(0)]
  }

  function CreateAndPublish(at: Address, id: EntryId, content: Content): seq<EditEvent> {
    [BeginCreate(0, at, id, content, false), Continue(0), Continue(0)] + Publish(id)
  }

  lemma Created(s: Studio, at: Address, id: EntryId, content: Content)
    requires s.edits == map[] && id !in s.drawn && EntriesAt(s.store, at) == {}
    ensures RunEdits(s, CreateAndPublish(at, id, content)) ==
      Studio(Store(s.store.entries[id := PageEntry(at, 1, true)], s.store.revisions[(id, 1) := content]),
             map[], s.drawn + {id})
  {
    var begin := BeginCreate(0, at, id, content, false);
    RunThreeEdits(s, begin, Continue(0), Continue(0));
    var t := EditStep(EditStep(EditStep(s, begin), Continue(0)), Continue(0));
    assert t.edits == map[];
    RunTwoEdits(t, BeginTransition(0, id, true), Continue(0));
    RunEditsAppend(s, [begin, Continue(0), Continue(0)], Publish(id));
    assert EditStep(EditStep(t, BeginTransition(0, id, true)), Continue(0)).edits == map[];
  }

  lemma OnlyEntry(store: Store, id: EntryId, at: Address, revision: nat)
    requires store.entries == map[id := PageEntry(at, revision, true)]
    ensures Seek(store, at) == Some((id, revision))
    ensures forall a :: a != at ==> EntriesAt(store, a) == {}
  {
    assert EntriesAt(store, at) == {id};
    assert Least(EntriesAt(store, at)) in EntriesAt(store, at);
  }

  /** No delete in these steps. */
  predicate NothingErased(edits: seq<EditEvent>) {
    forall e :: e in edits ==> !e.Erase?
  }

  /** No overlap in these steps. */
  predicate NothingOverlaps(s: Studio, edits: seq<EditEvent>)
    decreases |edits|
  {
    edits == [] || (!Overlaps(s, edits[0]) && NothingOverlaps(EditStep(s, edits[0]), edits[1..]))
  }

  lemma {:induction false} NothingOverlapsAppend(s: Studio, a: seq<EditEvent>, b: seq<EditEvent>)
    requires NothingOverlaps(s, a) && NothingOverlaps(RunEdits(s, a), b)
    ensures NothingOverlaps(s, a + b)
    decreases |a|
  {
    if a == [] {
      assert a + b == b;
    } else {
      assert (a + b)[1..] == a[1..] + b && a == [a[0]] + a[1..];
      RunEditsCons(s, a[0], a[1..]);
      NothingOverlapsAppend(EditStep(s, a[0]), a[1..], b);
    }
  }

  lemma CreatedAlone(s: Studio, at: Address, id: EntryId, content: Content)
    requires s.edits == map[] && id !in s.drawn && EntriesAt(s.store, at) == {}
    ensures NothingOverlaps(s, CreateAndPublish(at, id, content))
  {
    var begin := BeginCreate(0, at, id, content, false);
    var first := [begin, Continue(0), Continue(0)];
    RunThreeEdits(s, begin, Continue(0), Continue(0));
    assert first[1..] == [Continue(0), Continue(0)] && [Continue(0), Continue(0)][1..] == [Continue(0)];
    assert NothingOverlaps(EditStep(EditStep(s, begin), Continue(0)), [Continue(0)]);
    assert NothingOverlaps(EditStep(s, begin), [Continue(0), Continue(0)]);
    assert NothingOverlaps(s, first);
    var t := RunEdits(s, first);
    assert t.edits == map[];
    assert Publish(id)[1..] == [Continue(0)];
    assert NothingOverlaps(t, Publish(id));
    NothingOverlapsAppend(s, first, Publish(id));
  }

  // First condition: no delete underneath the content service

  /** The entry is erased and another one created at its address. */
  function Recreation(at: Address, id: EntryId, id': EntryId, latter: Content): seq<EditEvent> {
    [Erase(id)] + CreateAndPublish(at, id', latter)
  }

  /**
    An entry erased and created again at its address between two visits: both are at
    revision 1, so the second visit is a hit on the erased page, although no two edits
    overlap.
  */
  lemma StaleAfterRecreate(site: Site, path: string, id: EntryId, former: Content, id': EntryId, latter: Content)
    requires id != id' && Bare(site, path, Resolved(id, 1, former))
    ensures var first := CreateAndPublish(site.route(path), id, former);
      var between := Recreation(site.route(path), id, id', latter);
      && ServedStale(site, TwoVisits(path, first, between), path, Resolved(id, 1, former), Resolved(id', 1, latter))
      && NothingOverlaps(NO_CONTENT, first + between)
  {
    var at := site.route(path);
    var first, again := CreateAndPublish(at, id, former), CreateAndPublish(at, id', latter);
    Created(NO_CONTENT, at, id, former);
    var s1 := RunEdits(NO_CONTENT, first);
    assert s1.store.entries == map[id := PageEntry(at, 1, true)];
    OnlyEntry(s1.store, id, at, 1);
    var s2 := EditStep(s1, Erase(id));
    assert s2.store.entries == map[];
    RunEditsCons(s1, Erase(id), again);
    Created(s2, at, id', latter);
    var s3 := RunEdits(s2, again);
    assert s3.store.entries == map[id' := PageEntry(at, 1, true)];
    OnlyEntry(s3.store, id', at, 1);
    SameRevisionServesStale(site, path, first, [Erase(id)] + again, Resolved(id, 1, former), Resolved(id', 1, latter));
    CreatedAlone(NO_CONTENT, at, id, former);
    CreatedAlone(s2, at, id', latter);
    assert ([Erase(id)] + again)[1..] == again;
    NothingOverlapsAppend(NO_CONTENT, first, [Erase(id)] + again);
  }

  // Second condition: no two edits of one entry overlap

  /** A page is created, then two saves both read its revision 1; one of them completes. */
  function OneOfTwoSaves(at: Address, id: EntryId, original: Content, x: Content, y: Content): seq<EditEvent> {
    CreateAndPublish(at, id, original) + ([BeginSave(0, id, x), BeginSave(1, id, y)] + [Continue(0), Continue(0)])
  }

  lemma TwoSaves(s: Studio, at: Address, id: EntryId, x: Content, y: Content)
    requires s.edits == map[] && s.store.entries == map[id := PageEntry(at, 1, true)]
    ensures var t := RunEdits(s, [BeginSave(0, id, x), BeginSave(1, id, y)] + [Continue(0), Continue(0)]);
      && t.store.entries == map[id := PageEntry(at, 2, true)] && t.store.revisions == s.store.revisions[(id, 2) := x]
      && t.edits == map[1 := Saving(id, PageEntry(at, 1, true), y)]
  {
    var entry := PageEntry(at, 1, true);
    RunTwoEdits(s, BeginSave(0, id, x), BeginSave(1, id, y));
    var t := EditStep(EditStep(s, BeginSave(0, id, x)), BeginSave(1, id, y));
    assert t == s.(edits := map[0 := Saving(id, entry, x), 1 := Saving(id, entry, y)]);
    RunTwoEdits(t, Continue(0), Continue(0));
    RunEditsAppend(s, [BeginSave(0, id, x), BeginSave(1, id, y)], [Continue(0), Continue(0)]);
    var u := EditStep(EditStep(t, Continue(0)), Continue(0));
    assert u.edits == map[1 := Saving(id, entry, y)];
  }

  lemma LateSave(s: Studio, at: Address, id: EntryId, y: Content)
    requires s.edits == map[1 := Saving(id, PageEntry(at, 1, true), y)]
    requires s.store.entries == map[id := PageEntry(at, 2, true)]
    ensures var t := RunEdits(s, [Continue(1), Continue(1)]);
      t.store.entries == s.store.entries && t.store.revisions == s.store.revisions[(id, 2) := y]
  {
    RunTwoEdits(s, Continue(1), Continue(1));
  }

  lemma SavesLeadTo(site: Site, path: string, id: EntryId, original: Content, x: Content, y: Content)
    requires site.route(path) != site.header && site.route(path) != site.footer
    ensures var s := RunEdits(NO_CONTENT, OneOfTwoSaves(site.route(path), id, original, x, y));
      && LeadsTo(site, s.store, path, Resolved(id, 2, x))
      && LeadsTo(site, RunEdits(s, [Continue(1), Continue(1)]).store, path, Resolved(id, 2, y))
  {
    var at := site.route(path);
    var saves := [BeginSave(0, id, x), BeginSave(1, id, y)] + [Continue(0), Continue(0)];
    Created(NO_CONTENT, at, id, original);
    var s1 := RunEdits(NO_CONTENT, CreateAndPublish(at, id, original));
    assert s1.store.entries == map[id := PageEntry(at, 1, true)];
    TwoSaves(s1, at, id, x, y);
    RunEditsAppend(NO_CONTENT, CreateAndPublish(at, id, original), saves);
    var s2 := RunEdits(s1, saves);
    LateSave(s2, at, id, y);
    OnlyEntry(s2.store, id, at, 2);
    OnlyEntry(RunEdits(s2, [Continue(1), Continue(1)]).store, id, at, 2);
  }

  lemma SavesEraseNothing(at: Address, id: EntryId, original: Content, x: Content, y: Content)
    ensures NothingErased(OneOfTwoSaves(at, id, original, x, y) + [Continue(1), Continue(1)])
  {
  }

  /**
    Two saves of one page that both read revision 1 write revision 2 twice. A visitor
    in between gets the first content; every later one gets a hit on it, although the
    second content is the current one. Nothing was deleted.
  */
  lemma StaleAfterOverlappingSaves(
      site: Site, path: string, id: EntryId, original: Content, x: Content, y: Content)
    requires Bare(site, path, Resolved(id, 2, x))
    ensures var first := OneOfTwoSaves(site.route(path), id, original, x, y); var between := [Continue(1), Continue(1)];
      && ServedStale(site, TwoVisits(path, first, between), path, Resolved(id, 2, x), Resolved(id, 2, y))
      && NothingErased(first + between)
  {
    SavesLeadTo(site, path, id, original, x, y);
    SavesEraseNothing(site.route(path), id, original, x, y);
    SameRevisionServesStale(site, path, OneOfTwoSaves(site.route(path), id, original, x, y), [Continue(1), Continue(1)],
                            Resolved(id, 2, x), Resolved(id, 2, y));
  }

  // ... or of one address

  /** Two creates both find the address free; one of them completes and is published. */
  function OneOfTwoCreates(at: Address, id: EntryId, x: Content, id': EntryId, y: Content): seq<EditEvent> {
    [BeginCreate(0, at, id, x, false), BeginCreate(1, at, id', y, false)] + ([Continue(0), Continue(0)] + Publish(id))
  }

  /** The other one completes and is published as well. */
  function OtherCreate(id': EntryId): seq<EditEvent> {
    [Continue(1), Continue(1)] + Publish(id')
  }

  lemma BothCreating(at: Address, id: EntryId, x: Content, id': EntryId, y: Content)
    requires id != id'
    ensures RunEdits(NO_CONTENT, [BeginCreate(0, at, id, x, false), BeginCreate(1, at, id', y, false)]) ==
      Studio(Store(map[], map[]),
             map[0 := Creating(id, PageEntry(at, 1, false), x), 1 := Creating(id', PageEntry(at, 1, false), y)],
             {id, id'})
  {
    RunTwoEdits(NO_CONTENT, BeginCreate(0, at, id, x, false), BeginCreate(1, at, id', y, false));
  }

  lemma FirstCompletes(s: Studio, at: Address, id: EntryId, x: Content, other: Edit)
    requires s.store == Store(map[], map[]) && s.edits == map[0 := Creating(id, PageEntry(at, 1, false), x), 1 := other]
    ensures var t := RunEdits(s, [Continue(0), Continue(0)] + Publish(id));
      && t.store == Store(map[id := PageEntry(at, 1, true)], map[(id, 1) := x])
      && t.edits == map[1 := other]
  {
    RunTwoEdits(s, Continue(0), Continue(0));
    var t := EditStep(EditStep(s, Continue(0)), Continue(0));
    assert t.edits == map[1 := other];
    RunTwoEdits(t, BeginTransition(0, id, true), Continue(0));
    assert EditStep(EditStep(t, BeginTransition(0, id, true)), Continue(0)).edits == map[1 := other];
    RunEditsAppend(s, [Continue(0), Continue(0)], Publish(id));
  }

  lemma TwoCreates(at: Address, id: EntryId, x: Content, id': EntryId, y: Content)
    requires id != id'
    ensures var t := RunEdits(NO_CONTENT, OneOfTwoCreates(at, id, x, id', y));
      && t.store == Store(map[id := PageEntry(at, 1, true)], map[(id, 1) := x])
      && t.edits == map[1 := Creating(id', PageEntry(at, 1, false), y)]
  {
    var begins := [BeginCreate(0, at, id, x, false), BeginCreate(1, at, id', y, false)];
    BothCreating(at, id, x, id', y);
    FirstCompletes(RunEdits(NO_CONTENT, begins), at, id, x, Creating(id', PageEntry(at, 1, false), y));
    RunEditsAppend(NO_CONTENT, begins, [Continue(0), Continue(0)] + Publish(id));
  }

  lemma LateCreate(s: Studio, at: Address, id: EntryId, id': EntryId, y: Content)
    requires id != id' && s.edits == map[1 := Creating(id', PageEntry(at, 1, false), y)]
    requires s.store.entries == map[id := PageEntry(at, 1, true)]
    ensures var t := RunEdits(s, OtherCreate(id'));
      && t.store.entries == map[id := PageEntry(at, 1, true), id' := PageEntry(at, 1, true)]
      && (id', 1) in t.store.revisions && t.store.revisions[(id', 1)] == y
  {
    var e, s0 := PageEntry(at, 1, false), s.(edits := map[]);
    var s1 := s0.(store := WithEntry(s.store, id', e));
    var t := s1.(store := WithRevision(s1.store, id', 1, y));
    assert s == Begun(s0, 1, Creating(id', e, y));
    CreatingGoesOn(s0, 1, id', e, y);
    RecordingEnds(s1, 1, id', y);
    RunTwoEdits(s, Continue(1), Continue(1));
    TransitionEffect(t, 0, id', true);
    RunEditsAppend(s, [Continue(1), Continue(1)], Publish(id'));
  }

  /** Of two entries at an address the lesser id is resolved. */
  lemma LesserEntry(store: Store, at: Address, id: EntryId, id': EntryId)
    requires store.entries == map[id := PageEntry(at, 1, true), id' := PageEntry(at, 1, true)] && Less(id', id)
    ensures Seek(store, at) == Some((id', 1))
    ensures forall a :: a != at ==> EntriesAt(store, a) == {}
  {
    LessAsymmetric(id', id);
    var found := EntriesAt(store, at);
    assert found == {id, id'};
    assert IsLeast(id', found);
    LeastIsUnique(Least(found), id', found);
  }

  lemma CreatesLeadTo(site: Site, path: string, id: EntryId, x: Content, id': EntryId, y: Content)
    requires Less(id', id) && site.route(path) != site.header && site.route(path) != site.footer
    ensures var s := RunEdits(NO_CONTENT, OneOfTwoCreates(site.route(path), id, x, id', y));
      && LeadsTo(site, s.store, path, Resolved(id, 1, x))
      && LeadsTo(site, RunEdits(s, OtherCreate(id')).store, path, Resolved(id', 1, y))
  {
    var at := site.route(path);
    LessAsymmetric(id', id);
    TwoCreates(at, id, x, id', y);
    var s := RunEdits(NO_CONTENT, OneOfTwoCreates(at, id, x, id', y));
    OnlyEntry(s.store, id, at, 1);
    LateCreate(s, at, id, id', y);
    LesserEntry(RunEdits(s, OtherCreate(id')).store, at, id, id');
  }

  lemma CreatesEraseNothing(at: Address, id: EntryId, x: Content, id': EntryId, y: Content)
    ensures NothingErased(OneOfTwoCreates(at, id, x, id', y) + OtherCreate(id'))
  {
  }

  /**
    Two creates at one address that both find it free leave two entries at revision 1.
    When the one that sorts first comes second, a page cached in between is served
    although the address now leads to the other entry. Nothing was deleted.
  */
  lemma StaleAfterOverlappingCreates(site: Site, path: string, id: EntryId, x: Content, id': EntryId, y: Content)
    requires Less(id', id) && Bare(site, path, Resolved(id, 1, x))
    ensures var first, between := OneOfTwoCreates(site.route(path), id, x, id', y), OtherCreate(id');
      && ServedStale(site, TwoVisits(path, first, between), path, Resolved(id, 1, x), Resolved(id', 1, y))
      && NothingErased(first + between)
  {
    CreatesLeadTo(site, path, id, x, id', y);
    CreatesEraseNothing(site.route(path), id, x, id', y);
    SameRevisionServesStale(site, path, OneOfTwoCreates(site.route(path), id, x, id', y), OtherCreate(id'),
                            Resolved(id, 1, x), Resolved(id', 1, y));
  }

  // Publishing is not instant either when edits overlap

  /** A draft is being published while a save of it completes. */
  function SaveDuringPublish(at: Address, id: EntryId, x: Content, y: Content): seq<EditEvent> {
    [BeginCreate(0, at, id, x, false), Continue(0), Continue(0)] +
    ([BeginTransition(1, id, true), BeginSave(0, id, y)] + [Continue(0), Continue(0)])
  }

  lemma DraftCreated(at: Address, id: EntryId, x: Content)
    ensures RunEdits(NO_CONTENT, [BeginCreate(0, at, id, x, false), Continue(0), Continue(0)]) ==
      Studio(Store(map[id := PageEntry(at, 1, false)], map[(id, 1) := x]), map[], {id})
  {
    RunThreeEdits(NO_CONTENT, BeginCreate(0, at, id, x, false), Continue(0), Continue(0));
  }

  lemma SavedMeanwhile(s: Studio, at: Address, id: EntryId, x: Content, y: Content)
    requires s.store == Store(map[id := PageEntry(at, 1, false)], map[(id, 1) := x]) && s.edits == map[]
    ensures var t := RunEdits(s, [BeginTransition(1, id, true), BeginSave(0, id, y)] + [Continue(0), Continue(0)]);
      && t.store == Store(map[id := PageEntry(at, 2, false)], map[(id, 1) := x, (id, 2) := y])
      && t.edits == map[1 := Storing(id, PageEntry(at, 1, true))]
  {
    RunTwoEdits(s, BeginTransition(1, id, true), BeginSave(0, id, y));
    var t := EditStep(EditStep(s, BeginTransition(1, id, true)), BeginSave(0, id, y));
    assert t.edits == map[1 := Storing(id, PageEntry(at, 1, true)), 0 := Saving(id, PageEntry(at, 1, false), y)];
    RunTwoEdits(t, Continue(0), Continue(0));
    assert EditStep(EditStep(t, Continue(0)), Continue(0)).edits == map[1 := Storing(id, PageEntry(at, 1, true))];
    RunEditsAppend(s, [BeginTransition(1, id, true), BeginSave(0, id, y)], [Continue(0), Continue(0)]);
  }

  lemma SavedDuringPublish(at: Address, id: EntryId, x: Content, y: Content)
    ensures var t := RunEdits(NO_CONTENT, SaveDuringPublish(at, id, x, y));
      && t.store == Store(map[id := PageEntry(at, 2, false)], map[(id, 1) := x, (id, 2) := y])
      && t.edits == map[1 := Storing(id, PageEntry(at, 1, true))]
  {
    var draft := [BeginCreate(0, at, id, x, false), Continue(0), Continue(0)];
    DraftCreated(at, id, x);
    SavedMeanwhile(RunEdits(NO_CONTENT, draft), at, id, x, y);
    RunEditsAppend(NO_CONTENT, draft,
                   [BeginTransition(1, id, true), BeginSave(0, id, y)] + [Continue(0), Continue(0)]);
  }

  /** The transition puts back the entry as it read it. */
  lemma LatePublish(site: Site, path: string, id: EntryId, x: Content, y: Content)
    requires site.route(path) != site.header && site.route(path) != site.footer
    ensures var s := RunEdits(NO_CONTENT, SaveDuringPublish(site.route(path), id, x, y));
      && id in s.store.entries && s.store.entries[id].revision == 2
      && LeadsTo(site, RunEdits(s, [Continue(1)]).store, path, Resolved(id, 1, x))
  {
    var at := site.route(path);
    SavedDuringPublish(at, id, x, y);
    var s := RunEdits(NO_CONTENT, SaveDuringPublish(at, id, x, y));
    RunOneEdit(s, Continue(1));
    var t := RunEdits(s, [Continue(1)]);
    assert t.store.entries == map[id := PageEntry(at, 1, true)];
    OnlyEntry(t.store, id, at, 1);
  }

  lemma SaveErasesNothing(at: Address, id: EntryId, x: Content, y: Content)
    ensures NothingErased(SaveDuringPublish(at, id, x, y))
  {
  }

  /**
    A transition that read the entry before a save and puts it back after it takes the
    revision number back: revision 2 was current, yet a visitor who comes later gets
    revision 1. Nothing was deleted.
  */
  lemma SaveLostToTransition(site: Site, path: string, id: EntryId, x: Content, y: Content)
    requires Bare(site, path, Resolved(id, 1, x))
    ensures var edits := SaveDuringPublish(site.route(path), id, x, y);
      var s := Run(site, EMPTY, Editing(edits));
      var t := Run(site, EMPTY, Editing(edits) + (Editing([Continue(1)]) + Visit(0, path)));
      && id in s.studio.store.entries && s.studio.store.entries[id].revision == 2
      && |t.responses| == 1 && t.responses[0].seen.page == Resolved(id, 1, x)
      && !HasSought(s, t.responses[0].request, Page) && NothingErased(edits)
  {
    var edits := SaveDuringPublish(site.route(path), id, x, y);
    LatePublish(site, path, id, x, y);
    SaveErasesNothing(site.route(path), id, x, y);
    RunEditing(site, EMPTY, edits);
    var s := Run(site, EMPTY, Editing(edits));
    RunEditing(site, s, [Continue(1)]);
    var u := Run(site, s, Editing([Continue(1)]));
    FirstVisit(site, u, 0, path, Resolved(id, 1, x));
    RunAppend(site, s, Editing([Continue(1)]), Visit(0, path));
    RunAppend(site, EMPTY, Editing(edits), Editing([Continue(1)]) + Visit(0, path));
  }
}
