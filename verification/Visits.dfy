/**
  Whatever a history of edits shows can be read: a visit with given times can be
  worked into any run with that history, beside everything else in it.
*/
module Visits {
  import opened Wrappers
  import opened ContentService
  import opened FrontController
  import opened Histories

  /** A further request beside everything else. */
  function Beside(s: State, q: nat, r: Request): State {
    s.(requests := s.requests[q := r], asked := s.asked + {q})
  }

  predicate Touches(e: Event, q: nat) {
    !e.Edits? && e.request == q
  }

  ghost predicate Untouched(events: seq<Event>, q: nat) {
    forall e :: e in events ==> !Touches(e, q)
  }

  lemma SwapUpdates(requests: map<nat, Request>, q: nat, r: Request, m: nat, x: Request)
    requires m != q
    ensures requests[q := r][m := x] == requests[m := x][q := r]
  {
  }

  lemma ServeBeside(site: Site, s: State, q: nat, r: Request, e: Event)
    requires !e.Edits? && e.request != q
    ensures Serve(site, Beside(s, q, r), e) == Beside(Serve(site, s, e), q, r)
  {
    var m, after := e.request, Serve(site, s, e);
    if m in after.requests { SwapUpdates(s.requests, q, r, m, after.requests[m]); }
    assert s.requests[q := r] - {m} == (s.requests - {m})[q := r];
    assert (s.asked + {q}) + {m} == (s.asked + {m}) + {q};
  }

  lemma StepBeside(site: Site, s: State, q: nat, r: Request, e: Event)
    requires !Touches(e, q)
    ensures Step(site, Beside(s, q, r), e) == Beside(Step(site, s, e), q, r)
  {
    if !e.Edits? {
      ServeBeside(site, s, q, r, e);
    }
  }

  lemma {:induction false} UntouchedNotAsked(site: Site, events: seq<Event>, q: nat)
    requires Untouched(events, q)
    ensures q !in Run(site, EMPTY, events).asked
  {
    if events != [] {
      var n := |events| - 1;
      assert events[n] in events && forall e :: e in events[..n] ==> e in events;
      UntouchedNotAsked(site, events[..n], q);
    }
  }

  // The steps of a visit

  /** What a visit does about a part after k edit steps. */
  function DuePart(q: nat, part: Part, t: Span, k: nat): seq<Event> {
    (if t.sought == k then [SeekPart(q, part)] else []) + (if t.read == k then [ReadPart(q, part)] else [])
  }

  function Due(q: nat, t: Times, k: nat): seq<Event> {
    DuePart(q, Header, t.header, k) + (DuePart(q, Footer, t.footer, k) + DuePart(q, Page, t.page, k))
  }

  /** The edit steps among the first m steps of a run. */
  function Count(all: seq<Event>, m: nat): nat
    requires m <= |all|
  {
    if m == 0 then 0 else Count(all, m - 1) + (if all[m - 1].Edits? then 1 else 0)
  }

  function Dues(q: nat, t: Times, n: nat): (dues: seq<seq<Event>>)
    ensures |dues| == n
    ensures forall k :: 0 <= k < n ==> dues[k] == Due(q, t, k)
  {
    seq(n, k requires 0 <= k < n => Due(q, t, k))
  }

  /** How far the visit is with a part when everything due after k edit steps is done. */
  function LookAfter(site: Site, h: seq<EditEvent>, path: string, part: Part, t: Span, k: int): Look {
    if k < t.sought || !(t.sought <= t.read <= |h|) then Unread
    else match Seek(At(h, t.sought).store, AddressOf(site, path, part))
      case None => Seen(None)
      case Some((id, revision)) =>
        if k < t.read then Found(id, revision) else Seen(ReadFound(site, At(h, t.read).store, part, id, revision))
  }

  function RequestAfter(site: Site, h: seq<EditEvent>, path: string, t: Times, r: Snapshot, k: int): Request {
    if k >= t.page.read then Resolving(path, r)
    else Started(path, LookAfter(site, h, path, Header, t.header, k), LookAfter(site, h, path, Footer, t.footer, k),
                 LookAfter(site, h, path, Page, t.page, k))
  }

  /** A run, one more step, and more of the run. */
  lemma RunOn(site: Site, s: State, a: seq<Event>, e: Event, b: seq<Event>)
    ensures Run(site, s, a + ([e] + b)) == Run(site, Step(site, Run(site, s, a), e), b)
  {
    RunOne(site, Run(site, s, a), e);
    RunAppend(site, Run(site, s, a), [e], b);
    RunAppend(site, s, a, [e] + b);
  }

  lemma RunMaybe(site: Site, s: State, c: bool, e: Event)
    ensures Run(site, s, if c then [e] else []) == if c then Step(site, s, e) else s
  {
    RunOne(site, s, e);
  }

  /** The header or the footer after k edit steps. */
  lemma FragmentDue(
      site: Site, s: State, q: nat, part: Part, t: Span, h: seq<EditEvent>, k: nat)
    requires t.sought <= t.read <= |h| && k <= |h| && s.studio == At(h, k) && part != Page
    requires q in s.requests && s.requests[q].Started?
    requires LookOf(s.requests[q], part) == LookAfter(site, h, s.requests[q].path, part, t, k - 1)
    ensures var r := s.requests[q];
      Run(site, s, DuePart(q, part, t, k)) ==
      s.(requests := s.requests[q := WithLook(r, part, LookAfter(site, h, r.path, part, t, k))])
  {
    var u := if t.sought == k then Step(site, s, SeekPart(q, part)) else s;
    var v := if t.read == k then Step(site, u, ReadPart(q, part)) else u;
    RunMaybe(site, s, t.sought == k, SeekPart(q, part));
    RunMaybe(site, u, t.read == k, ReadPart(q, part));
    RunAppend(site, s, if t.sought == k then [SeekPart(q, part)] else [],
              if t.read == k then [ReadPart(q, part)] else []);
    var r := s.requests[q];
    assert v.requests == s.requests[q := WithLook(r, part, LookAfter(site, h, r.path, part, t, k))];
  }

  /** The page's entry as the history has it when it is sought. */
  function PageFound(site: Site, h: seq<EditEvent>, path: string, t: Span, k: int): Look
    requires t.sought <= |h|
  {
    var found := Seek(At(h, t.sought).store, site.route(path));
    if k < t.sought || found == None then Unread else Found(found.value.0, found.value.1)
  }

  lemma PageSeekDue(site: Site, s: State, q: nat, t: Times, h: seq<EditEvent>, path: string, seen: Snapshot, k: nat)
    requires Shows(site, h, path, t, seen) && k <= |h| && s.studio == At(h, k)
    requires q in s.requests && s.requests[q].Started? && s.requests[q].path == path
    requires s.requests[q].page == PageFound(site, h, path, t.page, k - 1)
    requires t.page.sought <= k ==> s.requests[q].header.Seen? && s.requests[q].footer.Seen?
    ensures Run(site, s, if t.page.sought == k then [SeekPart(q, Page)] else []) ==
      s.(requests := s.requests[q := s.requests[q].(page := PageFound(site, h, path, t.page, k))])
  {
    RunMaybe(site, s, t.page.sought == k, SeekPart(q, Page));
    assert s.requests[q := s.requests[q]] == s.requests;
  }

  lemma PageReadDue(site: Site, s: State, q: nat, t: Times, h: seq<EditEvent>, path: string, seen: Snapshot, k: nat)
    requires Shows(site, h, path, t, seen) && k <= |h| && s.studio == At(h, k) && k <= t.page.read
    requires q in s.requests && s.requests[q].Started? && s.requests[q].path == path
    requires s.requests[q].page == PageFound(site, h, path, t.page, k)
    requires t.page.sought <= k ==>
      s.requests[q].header == Seen(seen.header) && s.requests[q].footer == Seen(seen.footer)
    ensures Run(site, s, if t.page.read == k then [ReadPart(q, Page)] else []) ==
      s.(requests := s.requests[q := if k == t.page.read then Resolving(path, seen) else s.requests[q]])
  {
    RunMaybe(site, s, t.page.read == k, ReadPart(q, Page));
    assert s.requests[q := s.requests[q]] == s.requests;
  }

  /** Header and footer are done when the page is sought. */
  lemma FragmentsDone(site: Site, h: seq<EditEvent>, path: string, t: Times, seen: Snapshot, k: nat)
    requires Shows(site, h, path, t, seen) && t.page.sought <= k
    ensures LookAfter(site, h, path, Header, t.header, k) == Seen(seen.header)
    ensures LookAfter(site, h, path, Footer, t.footer, k) == Seen(seen.footer)
  {
  }

  lemma PageLooks(site: Site, h: seq<EditEvent>, path: string, t: Times, seen: Snapshot, k: int)
    requires Shows(site, h, path, t, seen) && k < t.page.read
    ensures LookAfter(site, h, path, Page, t.page, k) == PageFound(site, h, path, t.page, k)
  {
  }

  /** The page after k edit steps, with header and footer done before it is sought. */
  lemma PageDue(site: Site, s: State, q: nat, t: Times, h: seq<EditEvent>, path: string, seen: Snapshot, k: nat)
    requires Shows(site, h, path, t, seen) && k <= |h| && s.studio == At(h, k) && k <= t.page.read
    requires q in s.requests
    requires s.requests[q] == Started(path, LookAfter(site, h, path, Header, t.header, k),
                                      LookAfter(site, h, path, Footer, t.footer, k),
                                      LookAfter(site, h, path, Page, t.page, k - 1))
    ensures Run(site, s, DuePart(q, Page, t.page, k)) ==
      s.(requests := s.requests[q := RequestAfter(site, h, path, t, seen, k)])
  {
    var seek := if t.page.sought == k then [SeekPart(q, Page)] else [];
    var read := if t.page.read == k then [ReadPart(q, Page)] else [];
    var r := s.requests[q].(page := PageFound(site, h, path, t.page, k));
    var u := s.(requests := s.requests[q := r]);
    if t.page.sought <= k { FragmentsDone(site, h, path, t, seen, k); }
    PageLooks(site, h, path, t, seen, k - 1);
    PageSeekDue(site, s, q, t, h, path, seen, k);
    PageReadDue(site, u, q, t, h, path, seen, k);
    RunAppend(site, s, seek, read);
    if k < t.page.read { PageLooks(site, h, path, t, seen, k); }
    assert RequestAfter(site, h, path, t, seen, k) == if k == t.page.read then Resolving(path, seen) else r;
    assert u.requests[q := RequestAfter(site, h, path, t, seen, k)] ==
      s.requests[q := RequestAfter(site, h, path, t, seen, k)];
  }

  function With(s: State, q: nat, r: Request): State {
    s.(requests := s.requests[q := r])
  }

  lemma RunThree(
      site: Site, s: State, q: nat, a: seq<Event>, b: seq<Event>, c: seq<Event>, r1: Request, r2: Request, r3: Request)
    requires Run(site, s, a) == With(s, q, r1)
    requires Run(site, With(s, q, r1), b) == With(s, q, r2) && Run(site, With(s, q, r2), c) == With(s, q, r3)
    ensures Run(site, s, a + (b + c)) == With(s, q, r3)
  {
    RunAppend(site, With(s, q, r1), b, c);
    RunAppend(site, s, a, b + c);
  }

  lemma WithTwice(s: State, q: nat, r: Request, next: Request)
    ensures With(With(s, q, r), q, next) == With(s, q, next)
  {
  }

  /** While the page is unread, everything due after k edit steps takes the visit where it should be then. */
  lemma DueRuns(
      site: Site, s: State, q: nat, t: Times, h: seq<EditEvent>, path: string, seen: Snapshot, k: nat)
    requires Shows(site, h, path, t, seen) && k <= |h| && s.studio == At(h, k) && k <= t.page.read
    requires q in s.requests && s.requests[q] == RequestAfter(site, h, path, t, seen, k - 1)
    ensures Run(site, s, Due(q, t, k)) == With(s, q, RequestAfter(site, h, path, t, seen, k))
  {
    var r := s.requests[q];
    var r1 := r.(header := LookAfter(site, h, path, Header, t.header, k));
    var r2 := r1.(footer := LookAfter(site, h, path, Footer, t.footer, k));
    FragmentDue(site, s, q, Header, t.header, h, k);
    FragmentDue(site, With(s, q, r1), q, Footer, t.footer, h, k);
    WithTwice(s, q, r1, r2);
    PageDue(site, With(s, q, r2), q, t, h, path, seen, k);
    var r3 := RequestAfter(site, h, path, t, seen, k);
    WithTwice(s, q, r2, r3);
    RunThree(site, s, q, DuePart(q, Header, t.header, k), DuePart(q, Footer, t.footer, k),
             DuePart(q, Page, t.page, k), r1, r2, r3);
  }

  /** No part is sought before this many edit steps. */
  predicate NotBefore(t: Times, k: nat) {
    t.header.sought >= k && t.footer.sought >= k && t.page.sought >= k
  }

  /** What is due after k edit steps takes the visit from one stage to the next. */
  ghost predicate StageWorks(site: Site, s: State, q: nat, due: seq<Event>, r: Request, next: Request) {
    Run(site, Beside(s, q, r), due) == Beside(s, q, next)
  }

  lemma DueBeside(
      site: Site, s: State, q: nat, t: Times, h: seq<EditEvent>, path: string, seen: Snapshot, k: nat)
    requires Shows(site, h, path, t, seen) && k <= |h| && s.studio == At(h, k)
    ensures StageWorks(site, s, q, Due(q, t, k), RequestAfter(site, h, path, t, seen, k - 1),
                       RequestAfter(site, h, path, t, seen, k))
  {
    var r, next := RequestAfter(site, h, path, t, seen, k - 1), RequestAfter(site, h, path, t, seen, k);
    var beside := Beside(s, q, r);
    if k <= t.page.read {
      DueRuns(site, beside, q, t, h, path, seen, k);
      assert With(beside, q, next) == Beside(s, q, next) by { WithTwice(s, q, r, next); }
    } else {
      assert Due(q, t, k) == [];
    }
  }

  /** At the studio after k edit steps, what is due then takes the visit to its next stage. */
  ghost predicate Stage(
      site: Site, s: State, k: nat, q: nat, dues: seq<seq<Event>>, studios: seq<Studio>, stages: seq<Request>)
    requires |dues| == |studios| && |stages| == |studios| + 1
  {
    k < |studios| && s.studio == studios[k] ==> StageWorks(site, s, q, dues[k], stages[k], stages[k + 1])
  }

  /** The request of a visit before what is due after 0, 1, 2 and more edit steps, and at the end. */
  ghost predicate Works(
      site: Site, q: nat, dues: seq<seq<Event>>, studios: seq<Studio>, stages: seq<Request>)
  {
    && |stages| == |studios| + 1 && |dues| == |studios|
    && forall s, k :: Stage(site, s, k, q, dues, studios, stages)
  }

  function StateAt(site: Site, all: seq<Event>, m: nat): State
    requires m <= |all|
  {
    Run(site, EMPTY, all[..m])
  }

  lemma StateNext(site: Site, all: seq<Event>, m: nat)
    requires m < |all|
    ensures StateAt(site, all, m + 1) == Step(site, StateAt(site, all, m), all[m])
  {
    assert all[..m + 1][..m] == all[..m];
  }

  /** The studio at this point of the run is the one that its edit steps so far make. */
  ghost predicate StudioIs(site: Site, all: seq<Event>, m: nat, studios: seq<Studio>)
    requires m <= |all|
  {
    Count(all, m) < |studios| && StateAt(site, all, m).studio == studios[Count(all, m)]
  }

  lemma {:induction false} EditsOfAppend(a: seq<Event>, b: seq<Event>)
    ensures EditsOf(a + b) == EditsOf(a) + EditsOf(b)
  {
    if b == [] {
      assert a + b == a;
    } else {
      assert (a + b)[..|a + b| - 1] == a + b[..|b| - 1];
      EditsOfAppend(a, b[..|b| - 1]);
    }
  }

  lemma {:induction false} NoEdits(events: seq<Event>)
    requires forall e :: e in events ==> !e.Edits?
    ensures EditsOf(events) == []
  {
    if events != [] {
      var n := |events| - 1;
      assert events[n] in events && forall e :: e in events[..n] ==> e in events;
      NoEdits(events[..n]);
    }
  }

  lemma EditsOn(a: seq<Event>, e: Event, b: seq<Event>)
    requires forall x :: x in b ==> !x.Edits?
    ensures EditsOf(a + ([e] + b)) == EditsOf(a) + (if e.Edits? then [e.edit] else [])
  {
    NoEdits(b);
    EditsOfAppend([e], b);
    EditsOfAppend(a, [e] + b);
    assert [e][..0] == [];
    assert EditsOf([e]) == [] + (if e.Edits? then [e.edit] else []);
  }

  lemma EditsNext(all: seq<Event>, m: nat)
    requires m < |all|
    ensures EditsOf(all[..m + 1]) == EditsOf(all[..m]) + (if all[m].Edits? then [all[m].edit] else [])
  {
    assert all[..m + 1][..m] == all[..m];
  }

  /** The steps belong to one request. */
  predicate Own(events: seq<Event>, q: nat) {
    forall e :: e in events ==> Touches(e, q)
  }

  /** A run with one more step and what the visit does after it. */
  lemma Extend(site: Site, w: seq<Event>, e: Event, q: nat, due: seq<Event>) returns (v: seq<Event>)
    requires Own(due, q)
    ensures Run(site, EMPTY, v) == Run(site, Step(site, Run(site, EMPTY, w), e), due)
    ensures EditsOf(v) == EditsOf(w) + (if e.Edits? then [e.edit] else [])
    ensures |w| <= |v| && v[..|w|] == w
    ensures forall other :: other != q && Untouched(w, other) && !Touches(e, other) ==> Untouched(v, other)
  {
    v := w + ([e] + due);
    RunOn(site, EMPTY, w, e, due);
    EditsOn(w, e, due);
  }

  /** Other requests that the one run leaves alone, the other one leaves alone as well. */
  ghost predicate TouchesNoMore(all: seq<Event>, q: nat, w: seq<Event>) {
    forall other :: other != q && Untouched(all, other) ==> Untouched(w, other)
  }

  /** A run in which the first m steps of another run happen beside a visit, unchanged before step b. */
  ghost predicate Beholds(site: Site, all: seq<Event>, b: nat, m: nat, q: nat, r: Request, w: seq<Event>)
    requires b <= m <= |all|
  {
    && Run(site, EMPTY, w) == Beside(StateAt(site, all, m), q, r)
    && EditsOf(w) == EditsOf(all[..m])
    && b <= |w| && w[..b] == all[..b]
    && TouchesNoMore(all, q, w)
  }

  lemma VisitBegins(
      site: Site, all: seq<Event>, b: nat, q: nat, path: string, due: seq<Event>, next: Request) returns (w: seq<Event>)
    requires b <= |all| && q !in StateAt(site, all, b).asked && Own(due, q)
    requires StageWorks(site, StateAt(site, all, b), q, due, Started(path, Unread, Unread, Unread), next)
    ensures Beholds(site, all, b, b, q, next, w)
  {
    var s := StateAt(site, all, b);
    w := Extend(site, all[..b], Begin(q, path), q, due);
    assert Step(site, s, Begin(q, path)) == Beside(s, q, Started(path, Unread, Unread, Unread));
    assert EditsOf(all[..b]) + [] == EditsOf(all[..b]);
    assert forall e :: e in all[..b] ==> e in all;
  }

  /** The next step of the run, and what the visit does after it. */
  lemma VisitGoesOn(
      site: Site, all: seq<Event>, b: nat, m: nat, q: nat, due: seq<Event>, r: Request, next: Request, w: seq<Event>)
    returns (v: seq<Event>)
    requires b <= m < |all| && Beholds(site, all, b, m, q, r, w) && Own(due, q) && !Touches(all[m], q)
    requires StageWorks(site, StateAt(site, all, m + 1), q, due, r, next)
    ensures Beholds(site, all, b, m + 1, q, next, v)
  {
    v := Extend(site, w, all[m], q, due);
    StateNext(site, all, m);
    StepBeside(site, StateAt(site, all, m), q, r, all[m]);
    EditsNext(all, m);
    assert v[..b] == v[..|w|][..b];
    assert all[m] in all;
  }

  lemma NothingDue(site: Site, s: State, q: nat, r: Request)
    ensures StageWorks(site, s, q, [], r, r)
  {
  }

  ghost predicate AllOwn(dues: seq<seq<Event>>, q: nat) {
    forall k :: 0 <= k < |dues| ==> Own(dues[k], q)
  }

  ghost predicate StudiosAre(site: Site, all: seq<Event>, studios: seq<Studio>) {
    forall m: nat :: m <= |all| ==> StudioIs(site, all, m, studios)
  }

  ghost predicate NoneTouches(all: seq<Event>, q: nat) {
    forall i :: 0 <= i < |all| ==> !Touches(all[i], q)
  }

  /** Everything a visit that begins after b steps needs to run beside all of the run. */
  ghost predicate Ready(
      site: Site, all: seq<Event>, b: nat, q: nat, path: string, dues: seq<seq<Event>>, studios: seq<Studio>,
      stages: seq<Request>)
    requires b <= |all|
  {
    && Works(site, q, dues, studios, stages) && AllOwn(dues, q) && StudiosAre(site, all, studios)
    && q !in StateAt(site, all, b).asked && NoneTouches(all, q)
    && Count(all, b) < |stages| && stages[Count(all, b)] == Started(path, Unread, Unread, Unread)
  }

  /** What the visit does after one more step of the run: nothing unless that was an edit. */
  function DueAfter(all: seq<Event>, m: nat, dues: seq<seq<Event>>): seq<Event>
    requires m < |all|
  {
    if all[m].Edits? && Count(all, m + 1) < |dues| then dues[Count(all, m + 1)] else []
  }

  lemma NextStage(
      site: Site, all: seq<Event>, b: nat, m: nat, q: nat, path: string, dues: seq<seq<Event>>,
      studios: seq<Studio>, stages: seq<Request>)
    requires b <= m < |all| && Ready(site, all, b, q, path, dues, studios, stages)
    ensures Count(all, m + 1) + 1 < |stages| && Own(DueAfter(all, m, dues), q) && !Touches(all[m], q)
    ensures StageWorks(site, StateAt(site, all, m + 1), q, DueAfter(all, m, dues), stages[Count(all, m) + 1],
                       stages[Count(all, m + 1) + 1])
  {
    var s, k := StateAt(site, all, m + 1), Count(all, m + 1);
    assert StudioIs(site, all, m + 1, studios);
    if all[m].Edits? {
      assert Stage(site, s, k, q, dues, studios, stages);
    } else {
      NothingDue(site, s, q, stages[k + 1]);
    }
  }

  /** A run in which the visit is at the stage that it should be at after m steps. */
  ghost predicate AtStage(
      site: Site, all: seq<Event>, b: nat, m: nat, q: nat, stages: seq<Request>, w: seq<Event>)
    requires b <= m <= |all|
  {
    Count(all, m) + 1 < |stages| && Beholds(site, all, b, m, q, stages[Count(all, m) + 1], w)
  }

  lemma VisitFirstStage(
      site: Site, all: seq<Event>, b: nat, q: nat, path: string, dues: seq<seq<Event>>,
      studios: seq<Studio>, stages: seq<Request>) returns (w: seq<Event>)
    requires b <= |all| && Ready(site, all, b, q, path, dues, studios, stages)
    ensures AtStage(site, all, b, b, q, stages, w)
  {
    var s, k := StateAt(site, all, b), Count(all, b);
    assert StudioIs(site, all, b, studios);
    assert Stage(site, s, k, q, dues, studios, stages);
    w := VisitBegins(site, all, b, q, path, dues[k], stages[k + 1]);
  }

  lemma VisitNextStage(
      site: Site, all: seq<Event>, b: nat, m: nat, q: nat, path: string, dues: seq<seq<Event>>,
      studios: seq<Studio>, stages: seq<Request>, w: seq<Event>) returns (v: seq<Event>)
    requires b <= m < |all| && Ready(site, all, b, q, path, dues, studios, stages)
    requires AtStage(site, all, b, m, q, stages, w)
    ensures AtStage(site, all, b, m + 1, q, stages, v)
  {
    NextStage(site, all, b, m, q, path, dues, studios, stages);
    v := VisitGoesOn(site, all, b, m, q, DueAfter(all, m, dues), stages[Count(all, m) + 1],
                     stages[Count(all, m + 1) + 1], w);
  }

  /** The visit runs beside everything else, stage by stage. */
  lemma VisitAdvances(
      site: Site, all: seq<Event>, b: nat, q: nat, path: string, dues: seq<seq<Event>>,
      studios: seq<Studio>, stages: seq<Request>) returns (w: seq<Event>)
    requires b <= |all| && Ready(site, all, b, q, path, dues, studios, stages)
    ensures AtStage(site, all, b, |all|, q, stages, w)
  {
    w := VisitFirstStage(site, all, b, q, path, dues, studios, stages);
    for m := b to |all|
      invariant AtStage(site, all, b, m, q, stages, w)
    {
      w := VisitNextStage(site, all, b, m, q, path, dues, studios, stages, w);
    }
  }

  // The stages of a visit

  function Stages(site: Site, h: seq<EditEvent>, path: string, t: Times, seen: Snapshot): (stages: seq<Request>)
    ensures |stages| == |h| + 2
    ensures forall k :: 0 <= k < |h| + 2 ==> stages[k] == RequestAfter(site, h, path, t, seen, k - 1)
  {
    seq(|h| + 2, k requires 0 <= k < |h| + 2 => RequestAfter(site, h, path, t, seen, k - 1))
  }

  function Studios(h: seq<EditEvent>): (studios: seq<Studio>)
    ensures |studios| == |h| + 1
    ensures forall k :: 0 <= k <= |h| ==> studios[k] == At(h, k)
  {
    seq(|h| + 1, k requires 0 <= k < |h| + 1 => At(h, k))
  }

  lemma StageDue(site: Site, s: State, k: nat, q: nat, h: seq<EditEvent>, path: string, t: Times, seen: Snapshot)
    requires Shows(site, h, path, t, seen)
    ensures Stage(site, s, k, q, Dues(q, t, |h| + 1), Studios(h), Stages(site, h, path, t, seen))
  {
    if k < |h| + 1 && s.studio == At(h, k) {
      DueBeside(site, s, q, t, h, path, seen, k);
    }
  }

  lemma StagesWork(site: Site, q: nat, h: seq<EditEvent>, path: string, t: Times, seen: Snapshot)
    requires Shows(site, h, path, t, seen)
    ensures Works(site, q, Dues(q, t, |h| + 1), Studios(h), Stages(site, h, path, t, seen))
  {
    var studios, stages := Studios(h), Stages(site, h, path, t, seen);
    var dues := Dues(q, t, |h| + 1);
    forall s: State, k: nat ensures Stage(site, s, k, q, dues, studios, stages) {
      StageDue(site, s, k, q, h, path, t, seen);
    }
  }

  lemma FirstStage(site: Site, h: seq<EditEvent>, path: string, t: Times, seen: Snapshot, k: nat)
    requires Shows(site, h, path, t, seen) && NotBefore(t, k) && k <= |h|
    ensures Stages(site, h, path, t, seen)[k] == Started(path, Unread, Unread, Unread)
  {
  }

  lemma LastStage(site: Site, h: seq<EditEvent>, path: string, t: Times, seen: Snapshot)
    requires Shows(site, h, path, t, seen)
    ensures Stages(site, h, path, t, seen)[|h| + 1] == Resolving(path, seen)
  {
  }

  // The trace of a run

  lemma {:induction false} EditsCounted(all: seq<Event>, m: nat)
    requires m <= |all|
    ensures |EditsOf(all[..m])| == Count(all, m)
  {
    if m > 0 {
      assert all[..m][..m - 1] == all[..m - 1];
      EditsCounted(all, m - 1);
    }
  }

  lemma {:induction false} RunStudio(site: Site, events: seq<Event>)
    ensures Run(site, EMPTY, events).studio == RunEdits(NO_CONTENT, EditsOf(events))
  {
    if events != [] {
      var n := |events| - 1;
      RunStudio(site, events[..n]);
      var h := EditsOf(events[..n]);
      if events[n].Edits? {
        assert (h + [events[n].edit])[..|h|] == h;
      } else {
        assert h + [] == h;
      }
    }
  }

  /** The studio of a run is what its part of the history makes of it. */
  lemma StudioAt(site: Site, all: seq<Event>, m: nat)
    requires m <= |all|
    ensures Count(all, m) <= |EditsOf(all)|
    ensures Run(site, EMPTY, all[..m]).studio == At(EditsOf(all), Count(all, m))
  {
    RunStudio(site, all[..m]);
    EditsCounted(all, m);
    EditsOfAppend(all[..m], all[m..]);
    assert all[..m] + all[m..] == all;
    assert EditsOf(all)[..Count(all, m)] == EditsOf(all[..m]);
  }

  lemma StudiosAgree(site: Site, all: seq<Event>)
    ensures StudiosAre(site, all, Studios(EditsOf(all)))
  {
    forall m: nat | m <= |all| ensures StudioIs(site, all, m, Studios(EditsOf(all))) {
      StudioAt(site, all, m);
    }
  }

  lemma UntouchedThroughout(site: Site, all: seq<Event>, q: nat, b: nat)
    requires Untouched(all, q) && b <= |all|
    ensures q !in Run(site, EMPTY, all[..b]).asked
    ensures NoneTouches(all, q)
  {
    assert forall e :: e in all[..b] ==> e in all;
    UntouchedNotAsked(site, all[..b], q);
  }

  lemma DuesOwn(q: nat, t: Times, n: nat)
    ensures AllOwn(Dues(q, t, n), q)
  {
    forall k | 0 <= k < n ensures Own(Dues(q, t, n)[k], q) {
      assert Own(Due(q, t, k), q);
    }
  }

  lemma VisitIsReady(site: Site, all: seq<Event>, b: nat, q: nat, path: string, t: Times, seen: Snapshot)
    requires Untouched(all, q) && b <= |all|
    requires Shows(site, EditsOf(all), path, t, seen) && NotBefore(t, Count(all, b))
    ensures var h := EditsOf(all);
      Ready(site, all, b, q, path, Dues(q, t, |h| + 1), Studios(h), Stages(site, h, path, t, seen))
  {
    var h := EditsOf(all);
    StudiosAgree(site, all);
    StagesWork(site, q, h, path, t, seen);
    DuesOwn(q, t, |h| + 1);
    VisitStarts(site, all, b, path, t, seen);
    UntouchedThroughout(site, all, q, b);
  }

  lemma VisitStarts(site: Site, all: seq<Event>, b: nat, path: string, t: Times, seen: Snapshot)
    requires b <= |all| && Shows(site, EditsOf(all), path, t, seen) && NotBefore(t, Count(all, b))
    ensures var stages := Stages(site, EditsOf(all), path, t, seen);
      Count(all, b) < |stages| && stages[Count(all, b)] == Started(path, Unread, Unread, Unread)
  {
    StudioAt(site, all, b);
    FirstStage(site, EditsOf(all), path, t, seen, Count(all, b));
  }

  lemma WholeRun(site: Site, all: seq<Event>)
    ensures StateAt(site, all, |all|) == Run(site, EMPTY, all) && EditsOf(all[..|all|]) == EditsOf(all)
  {
    assert all[..|all|] == all;
  }

  /** At the end the visit has read the whole snapshot. */
  lemma LastStageReached(
      site: Site, all: seq<Event>, b: nat, q: nat, r: Request, w: seq<Event>)
    requires b <= |all| && Beholds(site, all, b, |all|, q, r, w)
    ensures Run(site, EMPTY, w) == Beside(Run(site, EMPTY, all), q, r)
    ensures EditsOf(w) == EditsOf(all) && b <= |w| && w[..b] == all[..b] && TouchesNoMore(all, q, w)
  {
    WholeRun(site, all);
  }

  lemma AllCounted(all: seq<Event>)
    ensures Count(all, |all|) == |EditsOf(all)|
  {
    EditsCounted(all, |all|);
    assert all[..|all|] == all;
  }

  /**
    Main lemma: into any run a visit can be worked that begins after b steps and reads
    what the history of the run shows at its times; nothing else in the run changes.
  */
  lemma VisitRuns(site: Site, all: seq<Event>, b: nat, q: nat, path: string, t: Times, seen: Snapshot)
    returns (w: seq<Event>)
    requires Untouched(all, q) && b <= |all|
    requires Shows(site, EditsOf(all), path, t, seen) && NotBefore(t, Count(all, b))
    ensures Run(site, EMPTY, w) == Beside(Run(site, EMPTY, all), q, Resolving(path, seen))
    ensures EditsOf(w) == EditsOf(all) && b <= |w| && w[..b] == all[..b] && TouchesNoMore(all, q, w)
  {
    var h := EditsOf(all);
    var stages := Stages(site, h, path, t, seen);
    VisitIsReady(site, all, b, q, path, t, seen);
    w := VisitAdvances(site, all, b, q, path, Dues(q, t, |h| + 1), Studios(h), stages);
    LastStage(site, h, path, t, seen);
    AllCounted(all);
    LastStageReached(site, all, b, q, stages[Count(all, |all|) + 1], w);
  }
}
