/**
  The maintenance switch of the site: a stored flag behind a cache with a short
  time to live, asked by requests whose storage reads overlap in any order.
*/
module Maintenance {
  import opened Wrappers

  const TTL_MS := 3000

  /**
    What was true at one moment: the clock, the stored flag, and whether a storage read
    succeeded or failed just then.
  */
  datatype Moment = Moment(time: int, flag: bool, read: Option<bool>)

  /** A cached value; `ok` tells whether the read behind it succeeded. Only `on` and `at` exist in the program. */
  datatype CachedFlag = CachedFlag(on: bool, at: int, ok: bool)

  /** A request past the cache: waiting for storage, or holding what storage said. */
  datatype Pending = Reading(start: int) | Holding(start: int, on: bool, ok: bool)

  /**
    An answer, resting on a successful read or not, given to a request that asked at
    `asked` when `seen` moments had passed.
  */
  datatype Answer = Answer(asked: int, on: bool, ok: bool, seen: nat)

  datatype State = State(
    clock: int,
    flag: bool,
    maintCache: Option<CachedFlag>,
    pending: map<nat, Pending>,
    answers: seq<Answer>,
    history: seq<Moment>)

  datatype Event =
    | Wait(ms: nat)
    | Store(flag: bool)
    | Ask(request: nat)
    | Read(request: nat, ok: bool)
    | Finish(request: nat)

  function Init(clock: int, flag: bool): State {
    State(clock, flag, None, map[], [], [Moment(clock, flag, None)])
  }

  /** One step; an event that does not apply to its request changes nothing. */
  function Act(s: State, e: Event): State {
    match e
    case Wait(ms) => s.(clock := s.clock + ms)
    case Store(flag) => s.(flag := flag)
    case Ask(r) =>
      if r in s.pending then s
      else if s.maintCache.Some? && s.clock - s.maintCache.value.at < TTL_MS then
        s.(answers := s.answers + [Answer(s.clock, s.maintCache.value.on, s.maintCache.value.ok, |s.history|)])
      else s.(pending := s.pending[r := Reading(s.clock)])
    case Read(r, ok) =>
      if r in s.pending && s.pending[r].Reading? then
        s.(pending := s.pending[r := Holding(s.pending[r].start, if ok then s.flag else false, ok)])
      else s
    case Finish(r) =>
      if r in s.pending && s.pending[r].Holding? then
        var p := s.pending[r];
        s.(maintCache := Some(CachedFlag(p.on, p.start, p.ok)),
           answers := s.answers + [Answer(p.start, p.on, p.ok, |s.history|)],
           pending := s.pending - {r})
      else s
  }

  function ReadNow(s: State, e: Event): Option<bool> {
    if e.Read? && e.request in s.pending && s.pending[e.request].Reading? then Some(e.ok) else None
  }

  function Step(s: State, e: Event): State {
    var t := Act(s, e);
    t.(history := s.history + [Moment(t.clock, t.flag, ReadNow(s, e))])
  }

  function Run(s: State, events: seq<Event>): State {
    if events == [] then s else Step(Run(s, events[..|events| - 1]), events[|events| - 1])
  }

  /** A read at that moment would come out like this: a failed one as off, another one as the flag. */
  predicate ReadAt(m: Moment, on: bool, ok: bool) {
    m.read == Some(ok) && on == (ok && m.flag)
  }

  /** At some moment not before `since` a read came out like this. */
  ghost predicate Backed(h: seq<Moment>, on: bool, ok: bool, since: int) {
    exists i :: 0 <= i < |h| && h[i].time >= since && ReadAt(h[i], on, ok)
  }

  ghost predicate AnswersBacked(h: seq<Moment>, answers: seq<Answer>) {
    forall a :: a in answers ==> a.seen <= |h| && Backed(h[..a.seen], a.on, a.ok, a.asked - TTL_MS + 1)
  }

  ghost predicate Good(s: State) {
    && (s.maintCache.Some? ==> Backed(s.history, s.maintCache.value.on, s.maintCache.value.ok, s.maintCache.value.at))
    && (forall r :: r in s.pending && s.pending[r].Reading? ==> s.pending[r].start <= s.clock)
    && (forall r :: r in s.pending && s.pending[r].Holding? ==>
          Backed(s.history, s.pending[r].on, s.pending[r].ok, s.pending[r].start))
    && AnswersBacked(s.history, s.answers)
  }

  lemma BackedLater(h: seq<Moment>, m: Moment, on: bool, ok: bool, since: int, earlier: int)
    requires Backed(h, on, ok, since) && earlier <= since
    ensures Backed(h + [m], on, ok, earlier)
    ensures Backed(h, on, ok, earlier)
  {
    var i :| 0 <= i < |h| && h[i].time >= since && ReadAt(h[i], on, ok);
    assert (h + [m])[i] == h[i];
  }

  lemma AnswersKeep(h: seq<Moment>, m: Moment, answers: seq<Answer>)
    requires AnswersBacked(h, answers)
    ensures AnswersBacked(h + [m], answers)
  {
    forall a | a in answers
      ensures a.seen <= |h + [m]| && Backed((h + [m])[..a.seen], a.on, a.ok, a.asked - TTL_MS + 1)
    {
      assert (h + [m])[..a.seen] == h[..a.seen];
    }
  }

  lemma AnswerAdded(h: seq<Moment>, m: Moment, answers: seq<Answer>, a: Answer)
    requires AnswersBacked(h, answers) && a.seen == |h| && Backed(h, a.on, a.ok, a.asked - TTL_MS + 1)
    ensures AnswersBacked(h + [m], answers + [a])
  {
    AnswersKeep(h, m, answers);
    assert (h + [m])[..a.seen] == h;
  }

  lemma CacheAndHeldKeep(s: State, m: Moment)
    requires Good(s)
    ensures s.maintCache.Some? ==>
      Backed(s.history + [m], s.maintCache.value.on, s.maintCache.value.ok, s.maintCache.value.at)
    ensures forall r :: r in s.pending && s.pending[r].Holding? ==>
      Backed(s.history + [m], s.pending[r].on, s.pending[r].ok, s.pending[r].start)
  {
    if s.maintCache.Some? {
      var c := s.maintCache.value;
      BackedLater(s.history, m, c.on, c.ok, c.at, c.at);
    }
    forall r | r in s.pending && s.pending[r].Holding?
      ensures Backed(s.history + [m], s.pending[r].on, s.pending[r].ok, s.pending[r].start)
    {
      var p := s.pending[r];
      BackedLater(s.history, m, p.on, p.ok, p.start, p.start);
    }
  }

  lemma StepKeepsGood(s: State, e: Event)
    requires Good(s)
    ensures Good(Step(s, e))
  {
    var t := Step(s, e);
    var m := t.history[|s.history|];
    CacheAndHeldKeep(s, m);
    if |t.answers| == |s.answers| {
      AnswersKeep(s.history, m, s.answers);
    }
    match e
    case Wait(_) =>
    case Store(_) =>
    case Ask(r) =>
      if |t.answers| > |s.answers| {
        var c := s.maintCache.value;
        BackedLater(s.history, m, c.on, c.ok, c.at, s.clock - TTL_MS + 1);
        AnswerAdded(s.history, m, s.answers, Answer(s.clock, c.on, c.ok, |s.history|));
      }
    case Read(r, ok) =>
      assert t.history[|s.history|] == m;
    case Finish(r) =>
      if |t.answers| > |s.answers| {
        var p := s.pending[r];
        BackedLater(s.history, m, p.on, p.ok, p.start, p.start - TTL_MS + 1);
        AnswerAdded(s.history, m, s.answers, Answer(p.start, p.on, p.ok, |s.history|));
      }
  }

  lemma {:induction false} RunKeepsGood(s: State, events: seq<Event>)
    requires Good(s)
    ensures Good(Run(s, events))
  {
    if events != [] {
      RunKeepsGood(s, events[..|events| - 1]);
      StepKeepsGood(Run(s, events[..|events| - 1]), events[|events| - 1]);
    }
  }

  /** The moments an answer may stem from: those after 3000 ms before its request asked, up to the answer. */
  predicate InSpan(s: State, a: Answer, i: nat) {
    i < a.seen && i < |s.history| && s.history[i].time > a.asked - TTL_MS
  }

  /**
    Main result: over every interleaving, an answer is what one storage read gave at
    some moment less than 3000 ms before the request asked, or later: the stored flag
    of that moment if the read succeeded, and `off` if it failed. Other reads, failed
    or slow ones that replace a newer cached value included, change nothing about this.
  */
  lemma AnswersAreRecent(clock: int, flag: bool, events: seq<Event>, k: nat)
    requires k < |Run(Init(clock, flag), events).answers|
    ensures var s := Run(Init(clock, flag), events); var a := s.answers[k];
      exists i: nat :: InSpan(s, a, i) && ReadAt(s.history[i], a.on, a.ok)
  {
    RunKeepsGood(Init(clock, flag), events);
    var s := Run(Init(clock, flag), events);
    var a := s.answers[k];
    assert a in s.answers;
    var h := s.history[..a.seen];
    var i :| 0 <= i < |h| && h[i].time >= a.asked - TTL_MS + 1 && ReadAt(h[i], a.on, a.ok);
    assert h[i] == s.history[i];
    assert InSpan(s, a, i);
  }

  /** The stored flag had this value at every moment of the answer's span. */
  ghost predicate FlagThroughout(s: State, a: Answer, on: bool) {
    forall i: nat :: InSpan(s, a, i) ==> s.history[i].flag == on
  }

  /**
    Exactly when an answer is wrong, in that it differs from the flag throughout its
    span: when it rests on a failed read although the flag was on throughout.
  */
  lemma WrongExactly(clock: int, flag: bool, events: seq<Event>, k: nat)
    requires k < |Run(Init(clock, flag), events).answers|
    ensures var s := Run(Init(clock, flag), events); var a := s.answers[k];
      FlagThroughout(s, a, !a.on) <==> !a.ok && FlagThroughout(s, a, true)
  {
    AnswersAreRecent(clock, flag, events, k);
    var s := Run(Init(clock, flag), events);
    var a := s.answers[k];
    var i: nat :| InSpan(s, a, i) && ReadAt(s.history[i], a.on, a.ok);
    assert FlagThroughout(s, a, !a.on) ==> s.history[i].flag == !a.on;
    assert FlagThroughout(s, a, true) ==> s.history[i].flag == true;
  }

  /**
    A switch takes effect within the time to live: for every later request the answer
    is the new flag, unless it rests on a failed read, which answers off.
  */
  lemma SwitchTakesEffect(clock: int, flag: bool, events: seq<Event>, k: nat, on: bool, since: int)
    requires k < |Run(Init(clock, flag), events).answers|
    requires forall m :: m in Run(Init(clock, flag), events).history && m.time > since ==> m.flag == on
    requires Run(Init(clock, flag), events).answers[k].asked >= since + TTL_MS
    ensures var a := Run(Init(clock, flag), events).answers[k]; a.on == (a.ok && on)
  {
    AnswersAreRecent(clock, flag, events, k);
    var s := Run(Init(clock, flag), events);
    var i: nat :| InSpan(s, s.answers[k], i) && ReadAt(s.history[i], s.answers[k].on, s.answers[k].ok);
    assert s.history[i] in s.history;
  }

  /** The bound is tight: an answer can be 2999 ms out of date. */
  lemma BoundIsTight()
    ensures var s := Run(Init(0, false), [Ask(0), Read(0, true), Finish(0), Store(true), Wait(2999), Ask(1)]);
      s.answers == [Answer(0, false, true, 3), Answer(2999, false, true, 6)]
  {
    var first, later := [Ask(0), Read(0, true), Finish(0)], [Store(true), Wait(2999), Ask(1)];
    var s0 := Init(0, false);
    RunThree(s0, Ask(0), Read(0, true), Finish(0));
    var s3 := Run(s0, first);
    assert s3.clock == 0 && s3.maintCache == Some(CachedFlag(false, 0, true)) && s3.pending == map[];
    assert s3.answers == [Answer(0, false, true, 3)] && |s3.history| == 4;
    LateAsk(s3);
    RunAppend(s0, first, later);
    assert first + later == [Ask(0), Read(0, true), Finish(0), Store(true), Wait(2999), Ask(1)];
  }

  lemma LateAsk(s: State)
    requires s.clock == 0 && s.maintCache == Some(CachedFlag(false, 0, true)) && s.pending == map[] && |s.history| == 4
    ensures Run(s, [Store(true), Wait(2999), Ask(1)]).answers == s.answers + [Answer(2999, false, true, 6)]
  {
    RunThree(s, Store(true), Wait(2999), Ask(1));
  }

  lemma {:induction false} RunAppend(s: State, a: seq<Event>, b: seq<Event>)
    ensures Run(s, a + b) == Run(Run(s, a), b)
  {
    if b == [] {
      assert a + b == a;
    } else {
      assert (a + b)[..|a + b| - 1] == a + b[..|b| - 1];
      RunAppend(s, a, b[..|b| - 1]);
    }
  }

  lemma RunThree(s: State, x: Event, y: Event, z: Event)
    ensures Run(s, [x, y, z]) == Step(Step(Step(s, x), y), z)
  {
    assert [x, y, z][..2] == [x, y] && [x, y][..1] == [x] && [x][..0] == [];
    assert Run(s, [x]) == Step(s, x);
    assert Run(s, [x, y]) == Step(Step(s, x), y);
  }

  /** Wrong answers do occur: after a failed read, off although the flag has been on all along. */
  lemma FailedReadAnswersOff()
    ensures var s := Run(Init(0, true), [Ask(0), Read(0, false), Finish(0)]);
      s.answers == [Answer(0, false, false, 3)] && FlagThroughout(s, s.answers[0], true)
  {
    RunThree(Init(0, true), Ask(0), Read(0, false), Finish(0));
  }
}
