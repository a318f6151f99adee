/**
 * The reconnecting event stream. `State` is the effect's closure variables together with what the browser holds for it:
 * the `connect` calls that have not returned, the timers that are pending and the controllers that were aborted.
 * `Step` says what each network outcome, timer or clean-up does; the class below performs the same steps in place.
 */
module SseStream {
  import opened Text
  import opened SseFraming

  const STALE_AFTER_MS: nat := 60_000
  const WATCHDOG_EVERY_MS: nat := 10_000
  const MAX_BACKOFF_MS: nat := 30_000

  /** How far one call of `connect` has got: its response is awaited, or its body is read into its own buffer. */
  datatype Phase = Fetching | Reading(buffer: string)

  datatype State<T> = State(
    stopped: bool,
    controller: Option<nat>,
    retryTimer: Option<nat>,
    lastChunkAt: int,
    attempt: nat,
    live: map<nat, Phase>,
    aborted: set<nat>,
    timers: map<nat, nat>,
    nextId: nat,
    fetches: nat,
    waits: seq<nat>,
    delivered: seq<T>)

  datatype Event =
    | Responded(c: nat, status: int, hasBody: bool)
    | Chunk(c: nat, text: string, at: int)
    | Ended(c: nat)
    | Rejected(c: nat)
    | TimerFired(t: nat, at: int)
    | Watchdog(at: int)
    | Cleanup

  predicate IsRefusal(e: Event) { e.Responded? && (e.status == 401 || e.status == 403) }

  predicate IsAccept(e: Event) { e.Responded? && 200 <= e.status <= 299 && e.hasBody }

  /** The outcomes after which `connect` falls through to its retry. */
  predicate IsFailure(e: Event) {
    e.Ended? || e.Rejected? || (e.Responded? && !IsRefusal(e) && !IsAccept(e))
  }

  /** Each event is a refusal, an accepted response, a failure, or none of these. */
  lemma KindsOfEvents(e: Event)
    ensures IsRefusal(e) <==> e.Responded? && e.status in {401, 403}
    ensures IsAccept(e) <==> e.Responded? && 200 <= e.status < 300 && e.hasBody
    ensures IsFailure(e) <==> e.Ended? || e.Rejected? || (e.Responded? && e.status !in {401, 403} && !(200 <= e.status < 300 && e.hasBody))
  {
  }

  function Pow2(k: nat): nat { if k == 0 then 1 else 2 * Pow2(k - 1) }

  function Backoff(attempt: nat): nat {
    if MAX_BACKOFF_MS < 1000 * Pow2(attempt) then MAX_BACKOFF_MS else 1000 * Pow2(attempt)
  }

  // ---------- one step ----------

  function Connect<T>(s: State<T>, at: int): State<T> {
    s.(live := s.live[s.nextId := Fetching], controller := Some(s.nextId), lastChunkAt := at,
       nextId := s.nextId + 1, fetches := s.fetches + 1)
  }

  function Retry<T>(s: State<T>, c: nat): State<T> {
    var returned := s.(live := s.live - {c});
    if s.stopped then returned
    else
      var wait := Backoff(s.attempt);
      returned.(timers := s.timers[s.nextId := wait], retryTimer := Some(s.nextId), nextId := s.nextId + 1,
                attempt := s.attempt + 1, waits := s.waits + [wait])
  }

  function Start<T>(at: int): State<T> {
    Connect(State(false, None, None, at, 0, map[], {}, map[], 0, 0, [], []), at)
  }

  /** What the browser can report: outcomes of calls in flight, timers that are pending, the watchdog until clean-up. */
  predicate Possible<T>(s: State<T>, e: Event) {
    match e
    case Responded(c, _, _) => c in s.live && s.live[c] == Fetching
    case Chunk(c, _, _) => c in s.live && s.live[c].Reading?
    case Ended(c) => c in s.live && s.live[c].Reading?
    case Rejected(c) => c in s.live
    case TimerFired(t, _) => t in s.timers
    case Watchdog(_) => !s.stopped
    case Cleanup => !s.stopped
  }

  function Abort(aborted: set<nat>, controller: Option<nat>): set<nat> {
    match controller case Some(c) => aborted + {c} case None => aborted
  }

  function Step<T>(parse: string -> Option<T>, s: State<T>, e: Event): State<T>
    requires Possible(s, e)
  {
    match e
    case Responded(c, _, _) =>
      if IsRefusal(e) then s.(live := s.live - {c})
      else if IsAccept(e) then s.(attempt := 0, live := s.live[c := Reading("")])
      else Retry(s, c)
    case Chunk(c, text, at) =>
      var buffer := s.live[c].buffer + text;
      s.(lastChunkAt := at, live := s.live[c := Reading(Rest(buffer))], delivered := s.delivered + Delivered(parse, buffer))
    case Ended(c) => Retry(s, c)
    case Rejected(c) => Retry(s, c)
    case TimerFired(t, at) => Connect(s.(timers := s.timers - {t}), at)
    case Watchdog(at) =>
      if at - s.lastChunkAt > STALE_AFTER_MS then s.(aborted := Abort(s.aborted, s.controller)) else s
    case Cleanup =>
      s.(stopped := true,
         timers := match s.retryTimer case Some(t) => s.timers - {t} case None => s.timers,
         aborted := Abort(s.aborted, s.controller))
  }

  // ---------- whole runs ----------

  ghost predicate Run<T(!new)>(parse: string -> Option<T>, at: int, es: seq<Event>)
    decreases |es|, 0
  {
    es == [] || (Run(parse, at, es[..|es| - 1]) && Possible(After(parse, at, es[..|es| - 1]), es[|es| - 1]))
  }

  ghost function After<T(!new)>(parse: string -> Option<T>, at: int, es: seq<Event>): State<T>
    requires Run(parse, at, es)
    decreases |es|, 1
  {
    if es == [] then Start(at) else Step(parse, After(parse, at, es[..|es| - 1]), es[|es| - 1])
  }

  predicate Stopped(es: seq<Event>) { exists i :: 0 <= i < |es| && es[i] == Cleanup }

  predicate Refused(es: seq<Event>) { exists i :: 0 <= i < |es| && IsRefusal(es[i]) }

  /** At most one connection or one timer is pending; the handles in hand are theirs; nothing is pending only if halted. */
  ghost predicate Inv<T(!new)>(s: State<T>, stopped: bool, refused: bool) {
    && s.stopped == stopped
    && (s.stopped ==> s.timers == map[])
    && (forall c :: c in s.live ==>
          s.live == map[c := s.live[c]] && s.timers == map[] && s.controller == Some(c) && (stopped ==> c in s.aborted))
    && (forall t :: t in s.timers ==> s.timers == map[t := s.timers[t]] && s.live == map[] && s.retryTimer == Some(t))
    && (refused ==> s.live == map[] && s.timers == map[])
    && (s.live == map[] && s.timers == map[] ==> stopped || refused)
  }

  lemma StepKeepsInv<T(!new)>(parse: string -> Option<T>, s: State<T>, e: Event, stopped: bool, refused: bool)
    requires Inv(s, stopped, refused) && Possible(s, e)
    ensures Inv(Step(parse, s, e), stopped || e == Cleanup, refused || IsRefusal(e))
  {
    var r := Step(parse, s, e);
    match e
    case Responded(c, _, _) => assert s.live - {c} == map[];
    case Ended(c) => assert s.live - {c} == map[];
    case Rejected(c) => assert s.live - {c} == map[];
    case Chunk(_, _, _) =>
    case TimerFired(t, _) => assert s.timers - {t} == map[];
    case Watchdog(_) =>
    case Cleanup => assert r.timers == map[];
  }

  lemma {:induction false} InvHolds<T(!new)>(parse: string -> Option<T>, at: int, es: seq<Event>)
    requires Run(parse, at, es)
    ensures Inv(After(parse, at, es), Stopped(es), Refused(es))
  {
    if es != [] {
      var init, last := es[..|es| - 1], es[|es| - 1];
      InvHolds(parse, at, init);
      StepKeepsInv(parse, After(parse, at, init), last, Stopped(init), Refused(init));
      assert es == init + [last];
      assert Stopped(es) == (Stopped(init) || last == Cleanup);
      assert Refused(es) == (Refused(init) || IsRefusal(last));
    }
  }

  /**
   * In every run there is exactly one live connection attempt or one pending retry timer, unless the stream was stopped
   * (then no timer is left and a call still in flight is being aborted) or refused (then nothing is left).
   */
  lemma ExactlyOnePending<T(!new)>(parse: string -> Option<T>, at: int, es: seq<Event>)
    requires Run(parse, at, es)
    ensures var s := After(parse, at, es);
            && |s.live| + |s.timers| <= 1
            && (|s.live| + |s.timers| == 0 ==> Stopped(es) || Refused(es))
            && (Stopped(es) ==> s.timers == map[] && s.live.Keys <= s.aborted)
            && (Refused(es) ==> s.live == map[] && s.timers == map[])
  {
    InvHolds(parse, at, es);
    var s := After(parse, at, es);
    if c :| c in s.live {
      assert s.live.Keys == {c};
    } else if t :| t in s.timers {
      assert s.timers.Keys == {t};
    }
  }

  /** Until it is halted the stream is never stuck: its one connection or its one timer can still go on, whatever happens next. */
  lemma NeverStuck<T(!new)>(parse: string -> Option<T>, at: int, es: seq<Event>) returns (id: nat)
    requires Run(parse, at, es) && !Stopped(es) && !Refused(es)
    ensures var s := After(parse, at, es);
            || (s.live.Keys == {id} && s.live[id] == Fetching && Possible(s, Rejected(id))
                && forall status, hasBody :: Possible(s, Responded(id, status, hasBody)))
            || (s.live.Keys == {id} && s.live[id].Reading? && Possible(s, Rejected(id)) && Possible(s, Ended(id))
                && forall text, u :: Possible(s, Chunk(id, text, u)))
            || (s.timers.Keys == {id} && forall u :: Possible(s, TimerFired(id, u)))
  {
    InvHolds(parse, at, es);
    var s := After(parse, at, es);
    hide After;
    if s.live != map[] {
      id :| id in s.live;
      assert s.live.Keys == {id};
    } else {
      id :| id in s.timers;
      assert s.timers.Keys == {id};
    }
  }

  /** After clean-up or a 401/403 no connection is started and no retry is scheduled, whatever still happens. */
  lemma {:induction false} NothingStartsAfterHalt<T(!new)>(parse: string -> Option<T>, at: int, es: seq<Event>, more: seq<Event>)
    requires Stopped(es) || Refused(es)
    requires Run(parse, at, es + more) && Run(parse, at, es)
    ensures After(parse, at, es + more).fetches == After(parse, at, es).fetches
    ensures After(parse, at, es + more).waits == After(parse, at, es).waits
  {
    if more == [] {
      assert es + more == es;
    } else {
      var all, init, last := es + more, more[..|more| - 1], more[|more| - 1];
      assert all[..|all| - 1] == es + init && all[|all| - 1] == last;
      NothingStartsAfterHalt(parse, at, es, init);
      assert forall i :: 0 <= i < |es| ==> (es + init)[i] == es[i];
      assert Stopped(es) ==> Stopped(es + init);
      assert Refused(es) ==> Refused(es + init);
      InvHolds(parse, at, es + init);
    }
  }

  // ---------- backoff ----------

  /** Failures since the last accepted response (none counts once the stream is stopped). */
  function Streak(es: seq<Event>): nat {
    if es == [] then 0 else
    var init, last := es[..|es| - 1], es[|es| - 1];
    if IsAccept(last) then 0
    else if IsFailure(last) && !Stopped(init) then Streak(init) + 1
    else Streak(init)
  }

  /** 1 s, 2 s, 4 s, 8 s, 16 s and then 30 s for as long as it takes. */
  function Schedule(k: nat): (r: seq<nat>)
    ensures |r| == k
  {
    if k == 0 then [] else
    Schedule(k - 1) +
    [if k == 1 then 1_000 else if k == 2 then 2_000 else if k == 3 then 4_000 else if k == 4 then 8_000
     else if k == 5 then 16_000 else 30_000]
  }

  lemma {:induction false} Pow2Grows(k: nat)
    requires k >= 5
    ensures Pow2(k) >= 32
  {
    if k == 5 {
      assert Pow2(1) == 2;
      assert Pow2(3) == 8;
    } else {
      Pow2Grows(k - 1);
    }
  }

  lemma BackoffIsScheduled(k: nat)
    ensures Schedule(k + 1) == Schedule(k) + [Backoff(k)]
    ensures 1000 <= Backoff(k) <= MAX_BACKOFF_MS
  {
    if k >= 5 {
      Pow2Grows(k);
    } else {
      assert Pow2(1) == 2 && Pow2(2) == 4 && Pow2(3) == 8 && Pow2(4) == 16;
    }
  }

  ghost predicate OnSchedule(waits: seq<nat>, streak: nat) {
    streak <= |waits| && waits[|waits| - streak..] == Schedule(streak)
  }

  lemma ScheduleExtends(waits: seq<nat>, streak: nat)
    requires OnSchedule(waits, streak)
    ensures OnSchedule(waits + [Backoff(streak)], streak + 1)
  {
    BackoffIsScheduled(streak);
    var longer := waits + [Backoff(streak)];
    assert longer[|longer| - (streak + 1)..] == waits[|waits| - streak..] + [Backoff(streak)];
  }

  /** The waits since the last accepted response are the schedule, one entry per consecutive failure. */
  lemma {:induction false} BackoffFollowsTheSchedule<T(!new)>(parse: string -> Option<T>, at: int, es: seq<Event>)
    requires Run(parse, at, es)
    ensures var s := After(parse, at, es);
            s.attempt == Streak(es) && OnSchedule(s.waits, Streak(es))
  {
    if es != [] {
      var init, last := es[..|es| - 1], es[|es| - 1];
      var s := After(parse, at, init);
      BackoffFollowsTheSchedule(parse, at, init);
      InvHolds(parse, at, init);
      StepKeepsSchedule(parse, s, last);
    }
  }

  lemma StepKeepsSchedule<T(!new)>(parse: string -> Option<T>, s: State<T>, e: Event)
    requires Possible(s, e) && OnSchedule(s.waits, s.attempt)
    ensures var t := Step(parse, s, e);
            && t.attempt == (if IsAccept(e) then 0 else if IsFailure(e) && !s.stopped then s.attempt + 1 else s.attempt)
            && OnSchedule(t.waits, t.attempt)
  {
    hide Schedule;
    hide OnSchedule;
    hide Backoff;
    ScheduleExtends(s.waits, s.attempt);
    EmptyStreak(s.waits);
  }

  lemma EmptyStreak(waits: seq<nat>)
    ensures OnSchedule(waits, 0)
  {
  }

  // ---------- what is delivered over reconnects ----------

  /** The text received by each accepted connection, in order. */
  function Sessions(es: seq<Event>): seq<string> {
    if es == [] then [] else
    var init, last := es[..|es| - 1], es[|es| - 1];
    var before := Sessions(init);
    if IsAccept(last) then before + [""]
    else if last.Chunk? && before != [] then before[|before| - 1 := before[|before| - 1] + last.text]
    else before
  }

  function DeliveredBy<T>(parse: string -> Option<T>): string -> seq<T> {
    text => Delivered(parse, text)
  }

  lemma DeliveredLast<T>(parse: string -> Option<T>, init: seq<string>, last: string)
    ensures FlatMap(DeliveredBy(parse), init + [last]) == FlatMap(DeliveredBy(parse), init) + Delivered(parse, last)
  {
    var f := DeliveredBy(parse);
    FlatMapConcat(f, init, [last]);
    assert FlatMap(f, []) == [] && [last][1..] == [];
    assert FlatMap(f, [last]) == f(last) + FlatMap(f, [last][1..]);
  }

  lemma DeliveredAfterChunk<T>(parse: string -> Option<T>, texts: seq<string>, more: string)
    requires texts != []
    ensures var last := texts[|texts| - 1];
            FlatMap(DeliveredBy(parse), texts[|texts| - 1 := last + more]) ==
            FlatMap(DeliveredBy(parse), texts) + Delivered(parse, Rest(last) + more)
  {
    hide Delivered;
    hide Rest;
    hide FlatMap;
    hide DeliveredBy;
    var f, init, last := DeliveredBy(parse), texts[..|texts| - 1], texts[|texts| - 1];
    DeliveredLast(parse, init, last);
    DeliveredLast(parse, init, last + more);
    DeliveredResumes(parse, last, more);
    ConcatAssociates(FlatMap(f, init), Delivered(parse, last), Delivered(parse, Rest(last) + more));
    assert texts == init + [last] && texts[|texts| - 1 := last + more] == init + [last + more];
  }

  ghost predicate SessionsTold<T(!new)>(parse: string -> Option<T>, s: State<T>, texts: seq<string>) {
    && s.delivered == FlatMap(DeliveredBy(parse), texts)
    && forall c :: c in s.live && s.live[c].Reading? ==> texts != [] && s.live[c].buffer == Rest(texts[|texts| - 1])
  }

  lemma ChunkKeepsSessions<T(!new)>(parse: string -> Option<T>, s: State<T>, e: Event, texts: seq<string>)
    requires e.Chunk? && Possible(s, e) && SessionsTold(parse, s, texts)
    requires forall c :: c in s.live ==> c == e.c
    ensures texts != [] && SessionsTold(parse, Step(parse, s, e), texts[|texts| - 1 := texts[|texts| - 1] + e.text])
  {
    DeliveredAfterChunk(parse, texts, e.text);
    FramingResumes(texts[|texts| - 1], e.text);
  }

  /**
   * Over any run of reconnects the handler has seen, connection after connection, exactly the events of the text that
   * connection received; a block cut off by a lost connection is never completed from the next one.
   */
  lemma {:induction false} EventsAreThoseOfTheSessions<T(!new)>(parse: string -> Option<T>, at: int, es: seq<Event>)
    requires Run(parse, at, es)
    ensures SessionsTold(parse, After(parse, at, es), Sessions(es))
  {
    if es != [] {
      var init, last := es[..|es| - 1], es[|es| - 1];
      var s, texts := After(parse, at, init), Sessions(init);
      EventsAreThoseOfTheSessions(parse, at, init);
      InvHolds(parse, at, init);
      StepKeepsSessions(parse, s, last, texts);
    }
  }

  lemma StepKeepsSessions<T(!new)>(parse: string -> Option<T>, s: State<T>, e: Event, texts: seq<string>)
    requires Possible(s, e) && SessionsTold(parse, s, texts)
    requires forall c, d :: c in s.live && d in s.live ==> c == d
    ensures SessionsTold(parse, Step(parse, s, e),
              if IsAccept(e) then texts + [""]
              else if e.Chunk? && texts != [] then texts[|texts| - 1 := texts[|texts| - 1] + e.text]
              else texts)
  {
    hide Delivered;
    hide Rest;
    if e.Chunk? {
      ChunkKeepsSessions(parse, s, e, texts);
    } else if IsAccept(e) {
      DeliveredLast(parse, texts, "");
      NothingDelivered(parse);
    }
  }

  lemma NothingDelivered<T>(parse: string -> Option<T>)
    ensures Delivered(parse, "") == [] && Rest("") == ""
  {
  }

  // ---------- what a run leaves behind ----------

  /** When the newest connection was started or its newest chunk arrived. */
  function LastSign(at: int, es: seq<Event>): int {
    if es == [] then at
    else match es[|es| - 1]
      case Chunk(_, _, t) => t
      case TimerFired(_, t) => t
      case _ => LastSign(at, es[..|es| - 1])
  }

  function TimersFired(es: seq<Event>): nat {
    if es == [] then 0 else TimersFired(es[..|es| - 1]) + if es[|es| - 1].TimerFired? then 1 else 0
  }

  /** The failures that are followed by a retry: those before the clean-up. */
  function Failures(es: seq<Event>): nat {
    if es == [] then 0 else
    Failures(es[..|es| - 1]) + if IsFailure(es[|es| - 1]) && !Stopped(es[..|es| - 1]) then 1 else 0
  }

  /**
   * One connection is made at the start and one by each timer that fires; one wait is scheduled by each failure before the
   * clean-up, and the pending timer has the last of them; silence is counted from the newest sign of the connection.
   */
  lemma {:induction false} RunIsRecorded<T(!new)>(parse: string -> Option<T>, at: int, es: seq<Event>)
    requires Run(parse, at, es)
    ensures var s := After(parse, at, es);
            && s.fetches == 1 + TimersFired(es) && |s.waits| == Failures(es) && s.lastChunkAt == LastSign(at, es)
            && forall t :: t in s.timers ==> s.waits != [] && s.timers[t] == s.waits[|s.waits| - 1]
  {
    hide IsFailure;
    hide Delivered;
    hide Rest;
    if es != [] {
      var init, last := es[..|es| - 1], es[|es| - 1];
      RunIsRecorded(parse, at, init);
      InvHolds(parse, at, init);
      StepIsRecorded(parse, After(parse, at, init), last);
    }
  }

  lemma StepIsRecorded<T(!new)>(parse: string -> Option<T>, s: State<T>, e: Event)
    requires Possible(s, e) && (forall c :: c in s.live ==> s.timers == map[])
    requires forall t :: t in s.timers ==> s.waits != [] && s.timers[t] == s.waits[|s.waits| - 1]
    ensures var t := Step(parse, s, e);
            && t.fetches == s.fetches + (if e.TimerFired? then 1 else 0)
            && |t.waits| == |s.waits| + (if IsFailure(e) && !s.stopped then 1 else 0)
            && t.lastChunkAt == (if e.Chunk? || e.TimerFired? then e.at else s.lastChunkAt)
            && forall k :: k in t.timers ==> t.waits != [] && t.timers[k] == t.waits[|t.waits| - 1]
  {
    hide Delivered;
    hide Rest;
    hide Backoff;
  }

  // ---------- the watchdog ----------

  /**
   * With a watchdog tick at least every 10 s, a connection that stays silent is aborted more than 60 s and at most 70 s after its
   * start or last chunk, and ticks before that change nothing.
   */
  lemma {:induction false} SilenceIsAborted<T(!new)>(parse: string -> Option<T>, at: int, es: seq<Event>, c: nat, ticks: seq<int>)
    returns (i: nat)
    requires Run(parse, at, es) && !Stopped(es) && c in After(parse, at, es).live
    requires |ticks| > 0 && ticks[0] <= LastSign(at, es) + 60_000 < ticks[|ticks| - 1]
    requires forall k :: 0 < k < |ticks| ==> ticks[k] <= ticks[k - 1] + 10_000
    ensures !After(parse, at, es).stopped
    ensures i < |ticks| && 60_000 < ticks[i] - LastSign(at, es) <= 70_000
    ensures c in Step(parse, After(parse, at, es), Watchdog(ticks[i])).aborted
    ensures forall k :: 0 <= k < i ==> Step(parse, After(parse, at, es), Watchdog(ticks[k])) == After(parse, at, es)
  {
    RunIsRecorded(parse, at, es);
    InvHolds(parse, at, es);
    ghost var s := After(parse, at, es);
    assert s.controller == Some(c) && s.lastChunkAt == LastSign(at, es);
    hide After;
    hide LastSign;
    i := 1;
    while ticks[i] <= s.lastChunkAt + 60_000
      invariant 0 < i < |ticks|
      invariant forall k :: 0 <= k < i ==> ticks[k] <= s.lastChunkAt + 60_000
      decreases |ticks| - i
    {
      i := i + 1;
    }
    assert ticks[i] <= ticks[i - 1] + WATCHDOG_EVERY_MS;
  }

  // ---------- the effect itself ----------

  /** One run of the effect: the closure variables first, then what the browser and the handler hold. */
  class EventStream<T(!new)> {
    const parse: string -> Option<T>
    var stopped: bool
    var controller: Option<nat>
    var retryTimer: Option<nat>
    var lastChunkAt: int
    var attempt: nat

    var live: map<nat, Phase>
    var aborted: set<nat>
    var timers: map<nat, nat>
    var nextId: nat
    var fetches: nat
    var waits: seq<nat>
    var delivered: seq<T>

    ghost function View(): State<T>
      reads this
    {
      State(stopped, controller, retryTimer, lastChunkAt, attempt, live, aborted, timers, nextId, fetches, waits, delivered)
    }

    constructor (parse: string -> Option<T>, at: int)
      ensures this.parse == parse
      ensures View() == Start(at)
    {
      this.parse := parse;
      stopped, controller, retryTimer, lastChunkAt, attempt := false, None, None, at, 0;
      live, aborted, timers, nextId, fetches, waits, delivered := map[], {}, map[], 0, 0, [], [];
      new;
      OpenConnection(at);
    }

    /** The synchronous beginning of `connect`. */
    method OpenConnection(at: int)
      modifies this
      ensures View() == Connect(old(View()), at)
    {
      controller := Some(nextId);
      live := live[nextId := Fetching];
      nextId := nextId + 1;
      fetches := fetches + 1;
      lastChunkAt := at;
    }

    /** The end of `connect`, reached after an error or the end of the body. */
    method ScheduleRetry(c: nat)
      modifies this
      ensures View() == Retry(old(View()), c)
    {
      live := live - {c};
      if !stopped {
        var wait := 1000 * Pow2(attempt);
        if MAX_BACKOFF_MS < wait {
          wait := MAX_BACKOFF_MS;
        }
        timers := timers[nextId := wait];
        retryTimer := Some(nextId);
        nextId := nextId + 1;
        waits := waits + [wait];
        attempt := attempt + 1;
      }
    }

    method OnResponse(c: nat, status: int, hasBody: bool)
      requires Possible(View(), Responded(c, status, hasBody))
      modifies this
      ensures View() == Step(parse, old(View()), Responded(c, status, hasBody))
    {
      if status == 401 || status == 403 {
        live := live - {c};
        return;
      }
      if !(200 <= status <= 299) || !hasBody {
        ScheduleRetry(c);
        return;
      }
      attempt := 0;
      live := live[c := Reading("")];
    }

    /** One block: a `data:` payload that parses goes to the handler, anything else is skipped. */
    method Handle(raw: string)
      modifies `delivered
      ensures delivered == old(delivered) + BlockEvents(parse, raw)
    {
      if "data:" <= raw {
        match parse(Trim(raw[5..]))
        case Some(v) => delivered := delivered + [v];
        case None =>
      }
    }

    /** One chunk: the buffer grows and every complete block is cut off its front and handled. */
    method OnChunk(c: nat, text: string, at: int)
      requires Possible(View(), Chunk(c, text, at))
      modifies this
      ensures View() == Step(parse, old(View()), Chunk(c, text, at))
    {
      lastChunkAt := at;
      var buffer := live[c].buffer + text;
      ghost var whole := buffer;
      var sep := IndexOfBlankLine(buffer);
      while sep != -1
        invariant sep == IndexOfBlankLine(buffer)
        invariant Rest(buffer) == Rest(whole)
        invariant delivered + Delivered(parse, buffer) == old(delivered) + Delivered(parse, whole)
        invariant lastChunkAt == at
        invariant unchanged(`stopped, `controller, `retryTimer, `attempt, `live, `aborted, `timers, `nextId, `fetches, `waits)
        decreases |buffer|
      {
        var raw := buffer[..sep];
        DeliveredFront(parse, buffer);
        ConcatAssociates(delivered, BlockEvents(parse, raw), Delivered(parse, buffer[sep + 2..]));
        buffer := buffer[sep + 2..];
        Handle(raw);
        sep := IndexOfBlankLine(buffer);
      }
      live := live[c := Reading(buffer)];
      assert delivered == old(delivered) + Delivered(parse, whole);
    }

    method OnEnd(c: nat)
      requires Possible(View(), Ended(c))
      modifies this
      ensures View() == Step(parse, old(View()), Ended(c))
    {
      ScheduleRetry(c);
    }

    method OnRejection(c: nat)
      requires Possible(View(), Rejected(c))
      modifies this
      ensures View() == Step(parse, old(View()), Rejected(c))
    {
      ScheduleRetry(c);
    }

    method OnTimer(t: nat, at: int)
      requires Possible(View(), TimerFired(t, at))
      modifies this
      ensures View() == Step(parse, old(View()), TimerFired(t, at))
    {
      timers := timers - {t};
      OpenConnection(at);
    }

    method AbortController()
      modifies this
      ensures View() == old(View()).(aborted := Abort(old(aborted), old(controller)))
    {
      match controller
      case Some(c) => aborted := aborted + {c};
      case None =>
    }

    /** Run every ten seconds and whenever the tab becomes visible. */
    method DropIfStale(at: int)
      requires Possible(View(), Watchdog(at))
      modifies this
      ensures View() == Step(parse, old(View()), Watchdog(at))
    {
      if at - lastChunkAt > STALE_AFTER_MS {
        AbortController();
      }
    }

    method Unmount()
      requires Possible(View(), Cleanup)
      modifies this
      ensures View() == Step(parse, old(View()), Cleanup)
    {
      stopped := true;
      match retryTimer {
        case Some(t) => timers := timers - {t};
        case None =>
      }
      AbortController();
    }
  }
}
