/**
  What a history of edits lets visitors see: which snapshots requests can read while
  it happens, exactly when the cache stays invisible under it, and exactly when an
  edit is live at once.
*/
module Histories {
  import opened Wrappers
  import opened Recency
  import opened ContentService
  import opened FrontController

  /** The edit steps of a run, in order. */
  function EditsOf(events: seq<Event>): seq<EditEvent> {
    if events == [] then []
    else
      var n := |events| - 1;
      EditsOf(events[..n]) + (if events[n].Edits? then [events[n].edit] else [])
  }

  /** Steps of the studio with nothing in between. */
  function Editing(edits: seq<EditEvent>): seq<Event> {
    if edits == [] then [] else Editing(edits[..|edits| - 1]) + [Edits(edits[|edits| - 1])]
  }

  lemma {:induction false} RunEditing(site: Site, s: State, edits: seq<EditEvent>)
    ensures Run(site, s, Editing(edits)) == s.(studio := RunEdits(s.studio, edits))
  {
    if edits != [] {
      var n := |edits| - 1;
      RunEditing(site, s, edits[..n]);
      assert Editing(edits)[..|Editing(edits)| - 1] == Editing(edits[..n]);
    }
  }

  lemma {:induction false} EditsOfEditing(h: seq<EditEvent>)
    ensures EditsOf(Editing(h)) == h && |Editing(h)| == |h|
    ensures forall e :: e in Editing(h) ==> e.Edits?
  {
    if h != [] {
      var n := |h| - 1;
      EditsOfEditing(h[..n]);
      assert Editing(h)[..n] == Editing(h[..n]) && h == h[..n] + [h[n]];
    }
  }

  // What can be read

  /** When a part's entry is sought and when its revision is read, in edit steps so far. */
  datatype Span = Span(sought: nat, read: nat)

  datatype Times = Times(header: Span, footer: Span, page: Span)

  function SpanOf(t: Times, part: Part): Span {
    match part
    case Header => t.header
    case Footer => t.footer
    case Page => t.page
  }

  /** Sought and read at these times, the part comes out like this. */
  predicate ShowsPart(
      site: Site, h: seq<EditEvent>, path: string, part: Part, t: Span, result: Option<Resolved>)
  {
    && t.sought <= t.read <= |h|
    && match Seek(At(h, t.sought).store, AddressOf(site, path, part))
       case None => result == None
       case Some((id, revision)) => result == ReadFound(site, At(h, t.read).store, part, id, revision)
  }

  function SeenPart(r: Snapshot, part: Part): Option<Resolved> {
    match part
    case Header => r.header
    case Footer => r.footer
    case Page => Some(r.page)
  }

  /** The history shows this snapshot to a visitor who comes at these times; the page is sought last. */
  ghost predicate Shows(site: Site, h: seq<EditEvent>, path: string, t: Times, r: Snapshot) {
    && ShowsPart(site, h, path, Header, t.header, r.header)
    && ShowsPart(site, h, path, Footer, t.footer, r.footer)
    && ShowsPart(site, h, path, Page, t.page, Some(r.page))
    && t.header.read <= t.page.sought && t.footer.read <= t.page.sought
  }

  /** The revision is on record and of use for the part: a header or footer needs layout nodes. */
  predicate Usable(site: Site, store: Store, part: Part, id: EntryId, revision: nat) {
    && (id, revision) in store.revisions
    && (part != Page ==> site.hasLayout(store.revisions[(id, revision)]))
  }

  /**
    Sought and read at these times, the part is what was public at its address at the
    one time with the content that was on record at the other; it is absent only if
    nothing was public there or what was public was not of use.
  */
  ghost predicate PartIs(
      site: Site, h: seq<EditEvent>, path: string, part: Part, t: Span, result: Option<Resolved>)
  {
    && t.sought <= t.read <= |h|
    && var a, sought, read := AddressOf(site, path, part), At(h, t.sought).store, At(h, t.read).store;
      match result
      case Some(r) =>
        && Public(sought, a, r.id, r.revision) && Usable(site, read, part, r.id, r.revision)
        && read.revisions[(r.id, r.revision)] == r.content
      case None =>
        forall id, revision: nat :: Public(sought, a, id, revision) ==> !Usable(site, read, part, id, revision)
  }

  lemma ShowsPartExactly(
      site: Site, h: seq<EditEvent>, path: string, part: Part, t: Span, result: Option<Resolved>)
    ensures ShowsPart(site, h, path, part, t, result) <==> PartIs(site, h, path, part, t, result)
  {
    if t.sought <= t.read <= |h| {
      var a, sought := AddressOf(site, path, part), At(h, t.sought).store;
      forall id, revision: nat
        ensures Seek(sought, a) == Some((id, revision)) <==> Public(sought, a, id, revision)
      {
        SeekExactly(sought, a, id, revision);
      }
      if Seek(sought, a).Some? {
        var (id, revision) := Seek(sought, a).value;
        assert Public(sought, a, id, revision);
      }
    }
  }

  // Every request reads what its history shows

  ghost predicate LookShown(site: Site, h: seq<EditEvent>, path: string, part: Part, l: Look, t: Span) {
    match l
    case Unread => true
    case Found(id, revision) =>
      t.sought <= |h| && Seek(At(h, t.sought).store, AddressOf(site, path, part)) == Some((id, revision))
    case Seen(result) => ShowsPart(site, h, path, part, t, result)
  }

  ghost predicate RequestShown(site: Site, h: seq<EditEvent>, q: Request, t: Times) {
    match q
    case Started(path, header, footer, page) =>
      && LookShown(site, h, path, Header, header, t.header)
      && LookShown(site, h, path, Footer, footer, t.footer)
      && LookShown(site, h, path, Page, page, t.page)
      && !page.Seen?
      && (page.Found? ==>
            header.Seen? && footer.Seen? && t.header.read <= t.page.sought && t.footer.read <= t.page.sought)
    case Resolving(path, seen) => Shows(site, h, path, t, seen)
    case Rendering(path, seen) => Shows(site, h, path, t, seen)
  }

  /** Parts of requests that may have been sought at any time; all others are sought at `since` or later. */
  datatype Bound = Bound(early: set<(nat, Part)>, since: nat)

  predicate NotSought(q: Request, part: Part) {
    q.Started? && LookOf(q, part).Unread?
  }

  ghost predicate RequestSince(b: Bound, n: nat, q: Request, t: Times) {
    forall part :: !NotSought(q, part) && (n, part) !in b.early ==> SpanOf(t, part).sought >= b.since
  }

  ghost predicate HasTimes(site: Site, h: seq<EditEvent>, b: Bound, n: nat, q: Request) {
    exists t :: RequestShown(site, h, q, t) && RequestSince(b, n, q, t)
  }

  ghost predicate AllTimed(site: Site, h: seq<EditEvent>, b: Bound, s: State) {
    && s.studio == RunEdits(NO_CONTENT, h) && b.since <= |h|
    && (forall q :: q in s.requests ==> HasTimes(site, h, b, q, s.requests[q]))
    && (forall r :: r in s.responses ==> HasTimes(site, h, b, r.request, Rendering(r.path, r.seen)))
  }

  lemma NowIsLast(h: seq<EditEvent>)
    ensures At(h, |h|) == RunEdits(NO_CONTENT, h)
  {
    assert h[..|h|] == h;
  }

  lemma ShownStays(
      site: Site, h: seq<EditEvent>, e: EditEvent, path: string, part: Part, t: Span, result: Option<Resolved>)
    requires ShowsPart(site, h, path, part, t, result)
    ensures ShowsPart(site, h + [e], path, part, t, result)
  {
    AtPrefix(h, [e], t.sought);
    AtPrefix(h, [e], t.read);
  }

  lemma LookStays(site: Site, h: seq<EditEvent>, e: EditEvent, path: string, part: Part, l: Look, t: Span)
    requires LookShown(site, h, path, part, l, t)
    ensures LookShown(site, h + [e], path, part, l, t)
  {
    match l
    case Unread =>
    case Found(_, _) => AtPrefix(h, [e], t.sought);
    case Seen(result) => ShownStays(site, h, e, path, part, t, result);
  }

  lemma SnapshotStays(site: Site, h: seq<EditEvent>, e: EditEvent, path: string, t: Times, r: Snapshot)
    requires Shows(site, h, path, t, r)
    ensures Shows(site, h + [e], path, t, r)
  {
    ShownStays(site, h, e, path, Header, t.header, r.header);
    ShownStays(site, h, e, path, Footer, t.footer, r.footer);
    ShownStays(site, h, e, path, Page, t.page, Some(r.page));
  }

  lemma TimesStay(site: Site, h: seq<EditEvent>, e: EditEvent, b: Bound, n: nat, q: Request)
    requires HasTimes(site, h, b, n, q)
    ensures HasTimes(site, h + [e], b, n, q)
  {
    var t :| RequestShown(site, h, q, t) && RequestSince(b, n, q, t);
    match q
    case Started(path, header, footer, page) =>
      LookStays(site, h, e, path, Header, header, t.header);
      LookStays(site, h, e, path, Footer, footer, t.footer);
      LookStays(site, h, e, path, Page, page, t.page);
    case Resolving(path, seen) => SnapshotStays(site, h, e, path, t, seen);
    case Rendering(path, seen) => SnapshotStays(site, h, e, path, t, seen);
    assert RequestShown(site, h + [e], q, t);
  }

  lemma EditTimed(site: Site, h: seq<EditEvent>, b: Bound, s: State, e: EditEvent)
    requires AllTimed(site, h, b, s)
    ensures AllTimed(site, h + [e], b, Step(site, s, Edits(e)))
  {
    assert (h + [e])[..|h|] == h;
    forall q | q in s.requests ensures HasTimes(site, h + [e], b, q, s.requests[q]) {
      TimesStay(site, h, e, b, q, s.requests[q]);
    }
    forall r | r in s.responses ensures HasTimes(site, h + [e], b, r.request, Rendering(r.path, r.seen)) {
      TimesStay(site, h, e, b, r.request, Rendering(r.path, r.seen));
    }
  }

  function WithSpan(t: Times, part: Part, span: Span): Times {
    match part
    case Header => t.(header := span)
    case Footer => t.(footer := span)
    case Page => t.(page := span)
  }

  /** A request moves on, the others stay as they are. */
  lemma RequestMoved(site: Site, h: seq<EditEvent>, b: Bound, s: State, q: nat, r: Request)
    requires AllTimed(site, h, b, s) && HasTimes(site, h, b, q, r)
    ensures AllTimed(site, h, b, s.(requests := s.requests[q := r]))
  {
  }

  lemma RequestDropped(site: Site, h: seq<EditEvent>, b: Bound, s: State, q: nat)
    requires AllTimed(site, h, b, s)
    ensures AllTimed(site, h, b, s.(requests := s.requests - {q}))
  {
  }

  /** The look at a part that is sought at this store. */
  function Sought(site: Site, store: Store, path: string, part: Part): Look {
    match Seek(store, AddressOf(site, path, part))
    case None => Seen(None)
    case Some((id, revision)) => Found(id, revision)
  }

  lemma SoughtIsShown(site: Site, h: seq<EditEvent>, path: string, part: Part)
    ensures LookShown(site, h, path, part, Sought(site, RunEdits(NO_CONTENT, h).store, path, part), Span(|h|, |h|))
  {
    NowIsLast(h);
  }

  lemma SoughtRequestShown(site: Site, h: seq<EditEvent>, r: Request, part: Part, look: Look, t: Times)
    requires RequestShown(site, h, r, t) && MaySeek(r, part)
    requires LookShown(site, h, r.path, part, look, Span(|h|, |h|)) && (look.Found? || (look.Seen? && part != Page))
    ensures RequestShown(site, h, WithLook(r, part, look), WithSpan(t, part, Span(|h|, |h|)))
  {
  }

  lemma SoughtHasTimes(site: Site, h: seq<EditEvent>, b: Bound, n: nat, r: Request, part: Part, look: Look)
    requires HasTimes(site, h, b, n, r) && b.since <= |h| && MaySeek(r, part)
    requires LookShown(site, h, r.path, part, look, Span(|h|, |h|)) && (look.Found? || (look.Seen? && part != Page))
    ensures HasTimes(site, h, b, n, WithLook(r, part, look))
  {
    var t :| RequestShown(site, h, r, t) && RequestSince(b, n, r, t);
    SoughtRequestShown(site, h, r, part, look, t);
    SinceNow(b, n, r, part, t, h, look);
  }

  lemma SinceNow(b: Bound, n: nat, r: Request, part: Part, t: Times, h: seq<EditEvent>, look: Look)
    requires RequestSince(b, n, r, t) && b.since <= |h| && r.Started?
    ensures RequestSince(b, n, WithLook(r, part, look), WithSpan(t, part, Span(|h|, |h|)))
  {
    var u := WithSpan(t, part, Span(|h|, |h|));
    forall other | !NotSought(WithLook(r, part, look), other) && (n, other) !in b.early
      ensures SpanOf(u, other).sought >= b.since
    {
      if other != part { assert !NotSought(r, other); }
    }
  }

  lemma SeekStep(site: Site, s: State, q: nat, part: Part)
    requires q in s.requests && MaySeek(s.requests[q], part)
    ensures var r := s.requests[q]; var look := Sought(site, s.studio.store, r.path, part);
      Step(site, s, SeekPart(q, part)) ==
      s.(requests := if part != Page || look.Found? then s.requests[q := WithLook(r, part, look)] else s.requests - {q})
  {
  }

  /** Seeking a part now. */
  lemma SeekTimed(site: Site, h: seq<EditEvent>, b: Bound, s: State, q: nat, part: Part)
    requires AllTimed(site, h, b, s) && q in s.requests && MaySeek(s.requests[q], part)
    ensures AllTimed(site, h, b, Step(site, s, SeekPart(q, part)))
  {
    var r := s.requests[q];
    var look := Sought(site, s.studio.store, r.path, part);
    SeekStep(site, s, q, part);
    SoughtIsShown(site, h, r.path, part);
    if part != Page || look.Found? {
      SoughtHasTimes(site, h, b, q, r, part, look);
      RequestMoved(site, h, b, s, q, WithLook(r, part, look));
    } else {
      RequestDropped(site, h, b, s, q);
    }
  }

  /** The spans of a request whose found revision of a part is read now. */
  function ReadNow(h: seq<EditEvent>, t: Times, part: Part): Times {
    WithSpan(t, part, Span(SpanOf(t, part).sought, |h|))
  }

  lemma ReadIsShown(site: Site, h: seq<EditEvent>, path: string, part: Part, l: Look, t: Span)
    requires l.Found? && LookShown(site, h, path, part, l, t)
    ensures var result := ReadFound(site, RunEdits(NO_CONTENT, h).store, part, l.id, l.revision);
      ShowsPart(site, h, path, part, Span(t.sought, |h|), result)
  {
    NowIsLast(h);
  }

  lemma FragmentCompletes(site: Site, h: seq<EditEvent>, r: Request, part: Part, t: Times, result: Option<Resolved>)
    requires RequestShown(site, h, r, t) && r.Started? && part != Page && LookOf(r, part).Found?
    requires ShowsPart(site, h, r.path, part, Span(SpanOf(t, part).sought, |h|), result)
    ensures RequestShown(site, h, WithLook(r, part, Seen(result)), ReadNow(h, t, part))
  {
  }

  lemma SinceSought(b: Bound, n: nat, r: Request, part: Part, t: Times, h: seq<EditEvent>, look: Look)
    requires RequestSince(b, n, r, t) && r.Started? && LookOf(r, part).Found?
    ensures RequestSince(b, n, WithLook(r, part, look), ReadNow(h, t, part))
  {
    var next := WithLook(r, part, look);
    forall other | !NotSought(next, other) && (n, other) !in b.early
      ensures SpanOf(ReadNow(h, t, part), other).sought >= b.since
    {
      assert !NotSought(r, other);
    }
  }

  lemma FragmentHasTimes(site: Site, h: seq<EditEvent>, b: Bound, n: nat, r: Request, part: Part)
    requires HasTimes(site, h, b, n, r) && r.Started? && part != Page && LookOf(r, part).Found?
    ensures var l := LookOf(r, part);
      var result := ReadFound(site, RunEdits(NO_CONTENT, h).store, part, l.id, l.revision);
      HasTimes(site, h, b, n, WithLook(r, part, Seen(result)))
  {
    var t :| RequestShown(site, h, r, t) && RequestSince(b, n, r, t);
    var l := LookOf(r, part);
    ReadIsShown(site, h, r.path, part, l, SpanOf(t, part));
    var result := ReadFound(site, RunEdits(NO_CONTENT, h).store, part, l.id, l.revision);
    FragmentCompletes(site, h, r, part, t, result);
    SinceSought(b, n, r, part, t, h, Seen(result));
  }

  /** A started request whose page is found and whose page is then shown has a whole snapshot. */
  lemma PageCompletes(site: Site, h: seq<EditEvent>, r: Request, t: Times, page: Resolved, read: nat)
    requires RequestShown(site, h, r, t) && r.Started? && r.page.Found? && r.header.Seen? && r.footer.Seen?
    requires ShowsPart(site, h, r.path, Page, Span(t.page.sought, read), Some(page))
    ensures Shows(site, h, r.path, t.(page := Span(t.page.sought, read)),
                  Snapshot(page, r.header.result, r.footer.result))
  {
  }

  lemma SinceAllSought(b: Bound, n: nat, r: Request, t: Times, done: Request, read: nat)
    requires RequestSince(b, n, r, t) && !done.Started?
    requires r.Started? && r.page.Found? && r.header.Seen? && r.footer.Seen?
    ensures RequestSince(b, n, done, t.(page := Span(t.page.sought, read)))
  {
    var u := t.(page := Span(t.page.sought, read));
    forall part | (n, part) !in b.early ensures SpanOf(u, part).sought >= b.since {
      assert !NotSought(r, part);
    }
  }

  lemma PageHasTimes(site: Site, h: seq<EditEvent>, b: Bound, n: nat, r: Request, page: Resolved)
    requires HasTimes(site, h, b, n, r) && r.Started? && r.page.Found? && r.header.Seen? && r.footer.Seen?
    requires ReadFound(site, RunEdits(NO_CONTENT, h).store, Page, r.page.id, r.page.revision) == Some(page)
    ensures HasTimes(site, h, b, n, Resolving(r.path, Snapshot(page, r.header.result, r.footer.result)))
  {
    var t :| RequestShown(site, h, r, t) && RequestSince(b, n, r, t);
    var done := Resolving(r.path, Snapshot(page, r.header.result, r.footer.result));
    ReadIsShown(site, h, r.path, Page, r.page, t.page);
    PageCompletes(site, h, r, t, page, |h|);
    SinceAllSought(b, n, r, t, done, |h|);
    assert RequestShown(site, h, done, t.(page := Span(t.page.sought, |h|)));
  }

  /** Reading a part now. */
  lemma ReadTimed(site: Site, h: seq<EditEvent>, b: Bound, s: State, q: nat, part: Part)
    requires AllTimed(site, h, b, s) && q in s.requests && s.requests[q].Started? && LookOf(s.requests[q], part).Found?
    requires part == Page ==> s.requests[q].header.Seen? && s.requests[q].footer.Seen?
    ensures AllTimed(site, h, b, Step(site, s, ReadPart(q, part)))
  {
    var r := s.requests[q];
    var result := ReadFound(site, s.studio.store, part, LookOf(r, part).id, LookOf(r, part).revision);
    if part != Page {
      FragmentHasTimes(site, h, b, q, r, part);
      RequestMoved(site, h, b, s, q, WithLook(r, part, Seen(result)));
    } else if result.Some? {
      PageHasTimes(site, h, b, q, r, result.value);
      RequestMoved(site, h, b, s, q, Resolving(r.path, Snapshot(result.value, r.header.result, r.footer.result)));
    } else {
      RequestDropped(site, h, b, s, q);
    }
  }

  lemma NewHasTimes(site: Site, h: seq<EditEvent>, b: Bound, n: nat, path: string)
    ensures HasTimes(site, h, b, n, Started(path, Unread, Unread, Unread))
  {
    var t, r := Times(Span(0, 0), Span(0, 0), Span(0, 0)), Started(path, Unread, Unread, Unread);
    assert RequestShown(site, h, r, t);
    assert RequestSince(b, n, r, t);
  }

  lemma RenderingHasTimes(site: Site, h: seq<EditEvent>, b: Bound, n: nat, path: string, seen: Snapshot)
    requires HasTimes(site, h, b, n, Resolving(path, seen))
    ensures HasTimes(site, h, b, n, Rendering(path, seen))
  {
    var t :| RequestShown(site, h, Resolving(path, seen), t) && RequestSince(b, n, Resolving(path, seen), t);
    assert RequestShown(site, h, Rendering(path, seen), t);
    forall part | (n, part) !in b.early ensures SpanOf(t, part).sought >= b.since {
      assert !NotSought(Resolving(path, seen), part);
    }
  }

  /** A request is answered from what it has read. */
  lemma ResponseAdded(site: Site, h: seq<EditEvent>, b: Bound, s: State, r: Response, cache: seq<Slot>)
    requires AllTimed(site, h, b, s) && HasTimes(site, h, b, r.request, Rendering(r.path, r.seen))
    ensures AllTimed(site, h, b,
                     s.(cache := cache, requests := s.requests - {r.request}, responses := s.responses + [r]))
  {
  }

  lemma CacheIsFree(site: Site, h: seq<EditEvent>, b: Bound, s: State, cache: seq<Slot>)
    requires AllTimed(site, h, b, s)
    ensures AllTimed(site, h, b, s.(cache := cache))
  {
  }

  /** A lookup answers with a cached page or leaves the request to be rendered. */
  lemma LookupStep(site: Site, s: State, q: nat) returns (html: Option<string>)
    requires q in s.requests && s.requests[q].Resolving?
    ensures var r := s.requests[q]; var touched := s.(cache := Touch(s.cache, r.path));
      Step(site, s, Lookup(q)) ==
      if html.Some? then
        touched.(requests := s.requests - {q},
                 responses := s.responses + [Response(q, r.path, r.seen, html.value, true)])
      else touched.(requests := s.requests[q := Rendering(r.path, r.seen)])
  {
    var cached := Find(s.cache, s.requests[q].path);
    if cached.Some? && cached.value.version == Version(s.requests[q].seen) {
      html := Some(cached.value.html);
    } else {
      html := None;
    }
  }

  lemma LookupTimed(site: Site, h: seq<EditEvent>, b: Bound, s: State, q: nat)
    requires AllTimed(site, h, b, s) && q in s.requests && s.requests[q].Resolving?
    ensures AllTimed(site, h, b, Step(site, s, Lookup(q)))
  {
    var r, cache := s.requests[q], Touch(s.cache, s.requests[q].path);
    var html := LookupStep(site, s, q);
    RenderingHasTimes(site, h, b, q, r.path, r.seen);
    if html.Some? {
      ResponseAdded(site, h, b, s, Response(q, r.path, r.seen, html.value, true), cache);
    } else {
      RequestMoved(site, h, b, s, q, Rendering(r.path, r.seen));
      CacheIsFree(site, h, b, s.(requests := s.requests[q := Rendering(r.path, r.seen)]), cache);
    }
  }

  lemma FinishStep(site: Site, s: State, q: nat) returns (answer: Response, cache: seq<Slot>)
    requires q in s.requests && s.requests[q].Rendering?
    ensures answer.request == q && answer.path == s.requests[q].path && answer.seen == s.requests[q].seen
    ensures Step(site, s, FinishRender(q)) ==
      s.(cache := cache, requests := s.requests - {q}, responses := s.responses + [answer])
  {
    var r := s.requests[q];
    answer := Response(q, r.path, r.seen, Fresh(site, r.path, r.seen), false);
    cache := Insert(site.limits, s.cache, r.path, PageSlotEntry(site, r.path, r.seen));
  }

  lemma FinishTimed(site: Site, h: seq<EditEvent>, b: Bound, s: State, q: nat)
    requires AllTimed(site, h, b, s) && q in s.requests && s.requests[q].Rendering?
    ensures AllTimed(site, h, b, Step(site, s, FinishRender(q)))
  {
    var answer, cache := FinishStep(site, s, q);
    assert HasTimes(site, h, b, q, s.requests[q]);
    assert s.requests[q] == Rendering(answer.path, answer.seen);
    ResponseAdded(site, h, b, s, answer, cache);
  }

  lemma AnswerTimed(site: Site, h: seq<EditEvent>, b: Bound, s: State, e: Event)
    requires AllTimed(site, h, b, s) && (e.Begin? || e.Lookup? || e.FinishRender?)
    ensures AllTimed(site, h, b, Step(site, s, e))
  {
    match e
    case Begin(q, path) =>
      NewHasTimes(site, h, b, q, path);
      RequestMoved(site, h, b, s, q, Started(path, Unread, Unread, Unread));
    case Lookup(q) => if q in s.requests && s.requests[q].Resolving? { LookupTimed(site, h, b, s, q); }
    case FinishRender(q) => if q in s.requests && s.requests[q].Rendering? { FinishTimed(site, h, b, s, q); }
  }

  lemma StepTimed(site: Site, h: seq<EditEvent>, b: Bound, s: State, e: Event)
    requires AllTimed(site, h, b, s)
    ensures AllTimed(site, h + (if e.Edits? then [e.edit] else []), b, Step(site, s, e))
  {
    assert h + [] == h;
    match e
    case Edits(edit) => EditTimed(site, h, b, s, edit);
    case SeekPart(q, part) => if q in s.requests && MaySeek(s.requests[q], part) { SeekTimed(site, h, b, s, q, part); }
    case ReadPart(q, part) =>
      if && q in s.requests && s.requests[q].Started? && LookOf(s.requests[q], part).Found?
         && (part == Page ==> s.requests[q].header.Seen? && s.requests[q].footer.Seen?)
      {
        ReadTimed(site, h, b, s, q, part);
      }
    case _ => AnswerTimed(site, h, b, s, e);
  }

  lemma {:induction false} RunTimed(site: Site, b: Bound, before: seq<Event>, after: seq<Event>)
    requires AllTimed(site, EditsOf(before), b, Run(site, EMPTY, before))
    ensures AllTimed(site, EditsOf(before + after), b, Run(site, EMPTY, before + after))
  {
    if after == [] {
      assert before + after == before;
    } else {
      var n := |after| - 1;
      assert (before + after)[..|before + after| - 1] == before + after[..n];
      RunTimed(site, b, before, after[..n]);
      StepTimed(site, EditsOf(before + after[..n]), b, Run(site, EMPTY, before + after[..n]), after[n]);
    }
  }

  const ANY_TIME := Bound({}, 0)

  lemma RunFromStartTimed(site: Site, events: seq<Event>)
    ensures AllTimed(site, EditsOf(events), ANY_TIME, Run(site, EMPTY, events))
  {
    assert [] + events == events;
    RunTimed(site, ANY_TIME, [], events);
  }
}
