/**
  The front controller of the site beside the content service of the studio, as one
  state machine: requests resolve a header, a footer and a page in separate storage
  calls, look the page up in the render cache and render on a miss, while editors
  create, save, publish and restore content in between.
*/
module FrontController {
  import opened Wrappers
  import opened Recency
  import opened RenderCache
  import opened CacheRuns
  import opened ContentService
  import opened Stamp

  datatype Resolved = Resolved(id: EntryId, revision: nat, content: Content)

  /**
    What the site is built with: where a path leads, which content has layout nodes,
    where header and footer live, and the renderer, as a function of the address
    and the contents it is given.
  */
  datatype Site = Site(
    route: string -> Address,
    hasLayout: Content -> bool,
    header: Address,
    footer: Address,
    render: (Address, Content, Option<Content>, Option<Content>) -> string,
    limits: Limits)

  datatype Part = Header | Footer | Page

  /** How far a request is with a part: its entry found, its revision to be read; or read, None for nothing usable. */
  datatype Look = Unread | Found(id: EntryId, revision: nat) | Seen(result: Option<Resolved>)

  /** The three things a request has read. */
  datatype Snapshot = Snapshot(page: Resolved, header: Option<Resolved>, footer: Option<Resolved>)

  datatype Request =
    | Started(path: string, header: Look, footer: Look, page: Look)
    | Resolving(path: string, seen: Snapshot)
    | Rendering(path: string, seen: Snapshot)

  datatype Response = Response(request: nat, path: string, seen: Snapshot, html: string, hit: bool)

  /** Requests under way by number; a number is used once. */
  datatype State = State(
    studio: Studio,
    cache: seq<Slot>,
    requests: map<nat, Request>,
    asked: set<nat>,
    responses: seq<Response>)

  datatype Event =
    | Edits(edit: EditEvent)
    | Begin(request: nat, path: string)
    | SeekPart(request: nat, part: Part)
    | ReadPart(request: nat, part: Part)
    | Lookup(request: nat)
    | FinishRender(request: nat)

  function RevisionOf(r: Option<Resolved>): nat {
    if r.Some? then r.value.revision else 0
  }

  function Version(r: Snapshot): string {
    StampOf(r.page.revision, RevisionOf(r.header), RevisionOf(r.footer))
  }

  function ContentOf(r: Option<Resolved>): Option<Content> {
    if r.Some? then Some(r.value.content) else None
  }

  /** For instance, revision 12 of the page with revision 3 of the header and no footer. */
  lemma VersionExample(r: Snapshot)
    requires r.page.revision == 12 && r.header.Some? && r.header.value.revision == 3 && r.footer == None
    ensures Version(r) == "12:h3:f0"
  {
    StampExample();
  }

  /** What rendering makes of the reads of a request. */
  function Fresh(site: Site, path: string, r: Snapshot): string {
    site.render(site.route(path), r.page.content, ContentOf(r.header), ContentOf(r.footer))
  }

  function CacheTags(r: Snapshot): seq<string> {
    ["content:" + r.page.id]
  }

  function PageSlotEntry(site: Site, path: string, r: Snapshot): Entry {
    var html := Fresh(site, path, r);
    Entry(html, Version(r), CacheTags(r), Footprint(path, html, CacheTags(r)))
  }

  function AddressOf(site: Site, path: string, part: Part): Address {
    match part
    case Header => site.header
    case Footer => site.footer
    case Page => site.route(path)
  }

  function LookOf(r: Request, part: Part): Look
    requires r.Started?
  {
    match part
    case Header => r.header
    case Footer => r.footer
    case Page => r.page
  }

  function WithLook(r: Request, part: Part, look: Look): Request
    requires r.Started?
  {
    match part
    case Header => r.(header := look)
    case Footer => r.(footer := look)
    case Page => r.(page := look)
  }

  /** The header and the footer are resolved side by side, the page after both. */
  predicate MaySeek(r: Request, part: Part) {
    r.Started? && LookOf(r, part).Unread? && (part == Page ==> r.header.Seen? && r.footer.Seen?)
  }

  /** The revision that was found; a header or footer without layout nodes counts as absent. */
  function ReadFound(site: Site, store: Store, part: Part, id: EntryId, revision: nat): Option<Resolved> {
    if (id, revision) !in store.revisions then None
    else
      var content := store.revisions[(id, revision)];
      if part != Page && !site.hasLayout(content) then None else Some(Resolved(id, revision, content))
  }

  /** A part has been read; a page that is not there ends the request. */
  function PartRead(s: State, q: nat, part: Part, result: Option<Resolved>): State
    requires q in s.requests && s.requests[q].Started?
    requires part == Page ==> s.requests[q].header.Seen? && s.requests[q].footer.Seen?
  {
    var r := s.requests[q];
    if part != Page then s.(requests := s.requests[q := WithLook(r, part, Seen(result))])
    else if result == None then s.(requests := s.requests - {q})
    else s.(requests := s.requests[q := Resolving(r.path, Snapshot(result.value, r.header.result, r.footer.result))])
  }

  /** The site's steps; an event that does not apply to its request changes nothing. */
  function Serve(site: Site, s: State, e: Event): State {
    match e
    case Begin(q, path) =>
      if q in s.asked then s
      else s.(requests := s.requests[q := Started(path, Unread, Unread, Unread)], asked := s.asked + {q})
    case SeekPart(q, part) =>
      if q in s.requests && MaySeek(s.requests[q], part) then
        var r := s.requests[q];
        match Seek(s.studio.store, AddressOf(site, r.path, part))
        case None => PartRead(s, q, part, None)
        case Some((id, revision)) => s.(requests := s.requests[q := WithLook(r, part, Found(id, revision))])
      else s
    case ReadPart(q, part) =>
      if q in s.requests && s.requests[q].Started? && LookOf(s.requests[q], part).Found? &&
         (part == Page ==> s.requests[q].header.Seen? && s.requests[q].footer.Seen?)
      then
        var found := LookOf(s.requests[q], part);
        PartRead(s, q, part, ReadFound(site, s.studio.store, part, found.id, found.revision))
      else s
    case Lookup(q) =>
      if q in s.requests && s.requests[q].Resolving? then
        var r := s.requests[q];
        var touched := s.(cache := Touch(s.cache, r.path));
        var cached := Find(s.cache, r.path);
        if cached.Some? && cached.value.version == Version(r.seen) then
          touched.(requests := s.requests - {q},
                   responses := s.responses + [Response(q, r.path, r.seen, cached.value.html, true)])
        else touched.(requests := s.requests[q := Rendering(r.path, r.seen)])
      else s
    case FinishRender(q) =>
      if q in s.requests && s.requests[q].Rendering? then
        var r := s.requests[q];
        s.(cache := Insert(site.limits, s.cache, r.path, PageSlotEntry(site, r.path, r.seen)),
           requests := s.requests - {q},
           responses := s.responses + [Response(q, r.path, r.seen, Fresh(site, r.path, r.seen), false)])
      else s
    case Edits(_) => s
  }

  function Step(site: Site, s: State, e: Event): State {
    if e.Edits? then s.(studio := EditStep(s.studio, e.edit)) else Serve(site, s, e)
  }

  function Run(site: Site, s: State, events: seq<Event>): State {
    if events == [] then s else Step(site, Run(site, s, events[..|events| - 1]), events[|events| - 1])
  }

  lemma {:induction false} RunAppend(site: Site, s: State, a: seq<Event>, b: seq<Event>)
    ensures Run(site, s, a + b) == Run(site, Run(site, s, a), b)
  {
    if b == [] {
      assert a + b == a;
    } else {
      var n := |b| - 1;
      assert (a + b)[..|a + b| - 1] == a + b[..n];
      RunAppend(site, s, a, b[..n]);
    }
  }

  lemma RunOne(site: Site, s: State, e: Event)
    ensures Run(site, s, [e]) == Step(site, s, e)
  {
    assert [e][..0] == [];
  }

  const EMPTY := State(NO_CONTENT, [], map[], {}, [])

  /** A cacheable page stored in an empty cache is what the cache then holds. */
  lemma FirstStored(site: Site, path: string, seen: Snapshot)
    requires Cacheable(site, path, seen)
    ensures Insert(site.limits, [], path, PageSlotEntry(site, path, seen)) ==
      [Slot(path, PageSlotEntry(site, path, seen))]
  {
    InsertRefinesLru(site.limits, [], path, PageSlotEntry(site, path, seen));
  }

  /** A request that finds an empty cache renders and caches its page. */
  lemma FirstRendered(site: Site, s: State, q: nat, path: string, seen: Snapshot)
    requires q in s.requests && s.requests[q] == Resolving(path, seen) && s.cache == [] && Cacheable(site, path, seen)
    ensures Step(site, Step(site, s, Lookup(q)), FinishRender(q)) ==
      s.(cache := [Slot(path, PageSlotEntry(site, path, seen))], requests := s.requests - {q},
         responses := s.responses + [Response(q, path, seen, Fresh(site, path, seen), false)])
  {
    FirstStored(site, path, seen);
    var rendering := Step(site, s, Lookup(q));
    assert rendering == s.(requests := s.requests[q := Rendering(path, seen)]);
    assert s.requests[q := Rendering(path, seen)] - {q} == s.requests - {q};
  }

  // Where cached pages come from

  ghost predicate RenderedBy(site: Site, x: Slot, r: Response) {
    !r.hit && r.path == x.key && x.entry == PageSlotEntry(site, r.path, r.seen) && r.html == x.entry.html
  }

  /** The page of a rendered snapshot can be cached at all. */
  predicate Cacheable(site: Site, path: string, r: Snapshot) {
    PageSlotEntry(site, path, r).bytes <= site.limits.maxBytes && site.limits.maxEntries >= 1
  }

  /** A hit repeats an earlier render of the same path under the same stamp. */
  ghost predicate HitSource(site: Site, responses: seq<Response>, k: nat, j: nat) {
    && j < k < |responses| && Cacheable(site, responses[j].path, responses[j].seen)
    && !responses[j].hit && responses[j].path == responses[k].path
    && responses[j].html == responses[k].html == Fresh(site, responses[j].path, responses[j].seen)
    && Version(responses[j].seen) == Version(responses[k].seen)
  }

  ghost predicate Sourced(site: Site, s: State) {
    && WithinBudget(site.limits, s.cache)
    && (forall x :: x in s.cache ==> exists j :: 0 <= j < |s.responses| && RenderedBy(site, x, s.responses[j]))
    && (forall k :: 0 <= k < |s.responses| ==>
          if s.responses[k].hit then exists j :: HitSource(site, s.responses, k, j)
          else s.responses[k].html == Fresh(site, s.responses[k].path, s.responses[k].seen))
  }

  lemma SourcesKeep(site: Site, responses: seq<Response>, r: Response)
    ensures forall x, j :: 0 <= j < |responses| && RenderedBy(site, x, responses[j]) ==>
      RenderedBy(site, x, (responses + [r])[j])
    ensures forall k, j :: HitSource(site, responses, k, j) ==> HitSource(site, responses + [r], k, j)
  {
  }

  lemma LookupSourced(site: Site, s: State, q: nat)
    requires Sourced(site, s)
    ensures Sourced(site, Step(site, s, Lookup(q)))
  {
    var t := Step(site, s, Lookup(q));
    if q in s.requests && s.requests[q].Resolving? {
      TouchSourced(site, s, s.requests[q].path);
      if |t.responses| > |s.responses| {
        SourcesKeep(site, s.responses, t.responses[|s.responses|]);
        LookupHit(site, s, q);
      }
    }
  }

  lemma TouchSourced(site: Site, s: State, path: string)
    requires Sourced(site, s)
    ensures WithinBudget(site.limits, Touch(s.cache, path))
    ensures forall x :: x in Touch(s.cache, path) ==>
      exists j :: 0 <= j < |s.responses| && RenderedBy(site, x, s.responses[j])
  {
    ApplyKeepsBudget(site.limits, s.cache, Get(path));
    forall x | x in Touch(s.cache, path) ensures x in s.cache {
      ApplyProvenance(site.limits, s.cache, Get(path), x);
    }
  }

  /** A hit is served a page that an earlier response was rendered to. */
  lemma LookupHit(site: Site, s: State, q: nat)
    requires Sourced(site, s) && q in s.requests && s.requests[q].Resolving?
    requires |Step(site, s, Lookup(q)).responses| > |s.responses|
    ensures var rs := Step(site, s, Lookup(q)).responses;
      forall k :: 0 <= k < |rs| ==>
        if rs[k].hit then exists j :: HitSource(site, rs, k, j)
        else rs[k].html == Fresh(site, rs[k].path, rs[k].seen)
  {
    var t, path := Step(site, s, Lookup(q)), s.requests[q].path;
    var r, x := t.responses[|s.responses|], Slot(path, Find(s.cache, path).value);
    FindIsTheSlot(s.cache, path);
    var j :| 0 <= j < |s.responses| && RenderedBy(site, x, s.responses[j]);
    SlotFits(site.limits, s.cache, x);
    assert HitSource(site, t.responses, |s.responses|, j);
    ResponsesSourced(site, s, t, r);
  }

  lemma FinishSourced(site: Site, s: State, q: nat)
    requires Sourced(site, s)
    ensures Sourced(site, Step(site, s, FinishRender(q)))
  {
    var t := Step(site, s, FinishRender(q));
    if q in s.requests && s.requests[q].Rendering? {
      var path, e := s.requests[q].path, PageSlotEntry(site, s.requests[q].path, s.requests[q].seen);
      var r := t.responses[|s.responses|];
      ApplyKeepsBudget(site.limits, s.cache, Set(path, e));
      SourcesKeep(site, s.responses, r);
      forall x | x in t.cache
        ensures exists j :: 0 <= j < |t.responses| && RenderedBy(site, x, t.responses[j])
      {
        ApplyProvenance(site.limits, s.cache, Set(path, e), x);
        if x == Slot(path, e) {
          assert RenderedBy(site, x, t.responses[|s.responses|]);
        } else {
          var j :| 0 <= j < |s.responses| && RenderedBy(site, x, s.responses[j]);
          assert RenderedBy(site, x, t.responses[j]);
        }
      }
      ResponsesSourced(site, s, t, r);
    }
  }

  lemma ResponsesSourced(site: Site, s: State, t: State, r: Response)
    requires Sourced(site, s) && t.responses == s.responses + [r]
    requires if r.hit then exists j :: HitSource(site, t.responses, |s.responses|, j)
             else r.html == Fresh(site, r.path, r.seen)
    ensures forall k :: 0 <= k < |t.responses| ==>
      if t.responses[k].hit then exists j :: HitSource(site, t.responses, k, j)
      else t.responses[k].html == Fresh(site, t.responses[k].path, t.responses[k].seen)
  {
    SourcesKeep(site, s.responses, r);
    forall k | 0 <= k < |t.responses|
      ensures if t.responses[k].hit then exists j :: HitSource(site, t.responses, k, j)
              else t.responses[k].html == Fresh(site, t.responses[k].path, t.responses[k].seen)
    {
      if k < |s.responses| {
        assert t.responses[k] == s.responses[k];
        if s.responses[k].hit {
          var j :| HitSource(site, s.responses, k, j);
          assert HitSource(site, t.responses, k, j);
        }
      }
    }
  }

  lemma {:induction false} RunSourced(site: Site, events: seq<Event>)
    ensures Sourced(site, Run(site, EMPTY, events))
  {
    if events != [] {
      var n := |events| - 1;
      RunSourced(site, events[..n]);
      var s := Run(site, EMPTY, events[..n]);
      match events[n]
      case Lookup(q) => LookupSourced(site, s, q);
      case FinishRender(q) => FinishSourced(site, s, q);
      case _ =>
    }
  }

  // What every run keeps

  ghost predicate LookNumbered(l: Look) {
    match l
    case Unread => true
    case Found(_, revision) => revision >= 1
    case Seen(result) => result.Some? ==> result.value.revision >= 1
  }

  ghost predicate SnapshotNumbered(r: Snapshot) {
    r.page.revision >= 1 && LookNumbered(Seen(r.header)) && LookNumbered(Seen(r.footer))
  }

  ghost predicate RequestNumbered(q: Request) {
    match q
    case Started(_, header, footer, page) => LookNumbered(header) && LookNumbered(footer) && LookNumbered(page)
    case Resolving(_, seen) => SnapshotNumbered(seen)
    case Rendering(_, seen) => SnapshotNumbered(seen)
  }

  /** No revision that a request has read is numbered 0, the mark of an absent header or footer. */
  ghost predicate AllNumbered(s: State) {
    && Numbered(s.studio)
    && (forall q :: q in s.requests ==> RequestNumbered(s.requests[q]))
    && (forall r :: r in s.responses ==> SnapshotNumbered(r.seen))
  }

  lemma StepNumbered(site: Site, s: State, e: Event)
    requires AllNumbered(s)
    ensures AllNumbered(Step(site, s, e))
  {
    match e
    case Edits(edit) => EditKeepsNumbered(s.studio, edit);
    case SeekPart(q, part) =>
      if q in s.requests && MaySeek(s.requests[q], part) {
        var a := AddressOf(site, s.requests[q].path, part);
        if Seek(s.studio.store, a).Some? { SeekFinds(s.studio.store, a); }
      }
    case _ =>
  }

  lemma {:induction false} RunNumbered(site: Site, events: seq<Event>)
    ensures AllNumbered(Run(site, EMPTY, events))
  {
    if events != [] {
      RunNumbered(site, events[..|events| - 1]);
      StepNumbered(site, Run(site, EMPTY, events[..|events| - 1]), events[|events| - 1]);
    }
  }

  predicate SameRevision(a: Option<Resolved>, b: Option<Resolved>) {
    a.Some? == b.Some? && (a.Some? ==> a.value.revision == b.value.revision)
  }

  /** The same revision numbers, and a header or footer absent in one is absent in the other. */
  predicate SameRevisions(a: Snapshot, b: Snapshot) {
    a.page.revision == b.page.revision && SameRevision(a.header, b.header) && SameRevision(a.footer, b.footer)
  }

  lemma VersionDetermines(a: Snapshot, b: Snapshot)
    requires SnapshotNumbered(a) && SnapshotNumbered(b)
    ensures Version(a) == Version(b) <==> SameRevisions(a, b)
  {
    if Version(a) == Version(b) {
      StampInjective(a.page.revision, RevisionOf(a.header), RevisionOf(a.footer),
                     b.page.revision, RevisionOf(b.header), RevisionOf(b.footer));
    }
  }

  /**
    Over every interleaving of edits and requests, overlapping edits and storage
    deletes included: the body of a cache hit was rendered earlier for the same path,
    from a page, a header and a footer with exactly the revision numbers this request
    resolved.
  */
  lemma HitHasSameRevisions(site: Site, events: seq<Event>, k: nat)
    requires k < |Run(site, EMPTY, events).responses| && Run(site, EMPTY, events).responses[k].hit
    ensures var rs := Run(site, EMPTY, events).responses;
      exists j: nat :: HitSource(site, rs, k, j) && SameRevisions(rs[j].seen, rs[k].seen)
  {
    RunSourced(site, events);
    RunNumbered(site, events);
    var s := Run(site, EMPTY, events);
    var j: nat :| HitSource(site, s.responses, k, j);
    assert s.responses[j] in s.responses && s.responses[k] in s.responses;
    VersionDetermines(s.responses[j].seen, s.responses[k].seen);
  }

  predicate SameContents(a: Snapshot, b: Snapshot) {
    && a.page.content == b.page.content
    && ContentOf(a.header) == ContentOf(b.header) && ContentOf(a.footer) == ContentOf(b.footer)
  }

  /** A renderer that makes different contents visible. */
  ghost predicate Distinguishes(site: Site) {
    forall a, p, h, f, p', h', f' ::
      site.render(a, p, h, f) == site.render(a, p', h', f') ==> p == p' && h == h' && f == f'
  }

  // Request numbers

  /** The request has asked for the entry of the part, now or earlier. */
  predicate HasSought(s: State, q: nat, part: Part) {
    q in s.asked && !(q in s.requests && s.requests[q].Started? && LookOf(s.requests[q], part).Unread?)
  }

  ghost predicate NumbersUsed(s: State) {
    && (forall q :: q in s.requests ==> q in s.asked)
    && (forall r :: r in s.responses ==> r.request in s.asked && r.request !in s.requests)
  }

  lemma StepUsesNumbers(site: Site, s: State, e: Event)
    requires NumbersUsed(s)
    ensures NumbersUsed(Step(site, s, e))
  {
  }

  lemma {:induction false} RunUsesNumbers(site: Site, events: seq<Event>)
    ensures NumbersUsed(Run(site, EMPTY, events))
  {
    if events != [] {
      RunUsesNumbers(site, events[..|events| - 1]);
      StepUsesNumbers(site, Run(site, EMPTY, events[..|events| - 1]), events[|events| - 1]);
    }
  }
}
