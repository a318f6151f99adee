/**
 * The database readiness probe: a cached result with one shared query in flight. `State` holds the closure variables `last`
 * and `inflight`, the queries started so far and those whose `finally` has run, the callers still waiting and the replies given.
 */
module DatabaseProbe {
  import opened Text

  datatype Reason = Quota | Unavailable | Timeout

  datatype Health = Healthy(ms: int) | Unhealthy(ms: int, reason: Reason)

  /** One call of `checkDatabase`: when it started and, once it has settled, when and with what. */
  datatype Query = Query(startedAt: int, result: Option<Settled>)

  datatype Settled = Settled(at: int, health: Health)

  /** What a caller was given: a remembered result of some age, or the result of the query it joined. */
  datatype Reply = Cached(caller: nat, health: Health, age: int) | Fresh(caller: nat, query: nat, health: Health)

  datatype State = State(
    last: Option<Settled>,
    inflight: Option<nat>,
    queries: seq<Query>,
    cleared: set<nat>,
    waiting: map<nat, nat>,
    replies: seq<Reply>)

  /** `Settle` runs the `then` callback, `Clear` the `finally` callback, `Resume` a caller's code after its `await`. */
  datatype Event =
    | Call(caller: nat, now: int)
    | Settle(query: nat, health: Health, now: int)
    | Clear(query: nat)
    | Resume(caller: nat)

  function Initial(): State { State(None, None, [], {}, map[], []) }

  predicate Possible(s: State, e: Event) {
    match e
    case Call(c, _) => c !in s.waiting
    case Settle(q, _, _) => q < |s.queries| && s.queries[q].result == None
    case Clear(q) => q < |s.queries| && s.queries[q].result.Some? && q !in s.cleared
    case Resume(c) =>
      c in s.waiting && s.waiting[c] in s.cleared && s.waiting[c] < |s.queries| && s.queries[s.waiting[c]].result.Some?
  }

  function Step(s: State, ttl: int, e: Event): State
    requires Possible(s, e)
  {
    match e
    case Call(c, now) =>
      if s.last.Some? && now - s.last.value.at < ttl then
        s.(replies := s.replies + [Cached(c, s.last.value.health, now - s.last.value.at)])
      else if s.inflight == None then
        s.(inflight := Some(|s.queries|), queries := s.queries + [Query(now, None)], waiting := s.waiting[c := |s.queries|])
      else
        s.(waiting := s.waiting[c := s.inflight.value])
    case Settle(q, health, now) =>
      s.(last := Some(Settled(now, health)), queries := s.queries[q := s.queries[q].(result := Some(Settled(now, health)))])
    case Clear(q) => s.(inflight := None, cleared := s.cleared + {q})
    case Resume(c) =>
      var q := s.waiting[c];
      s.(waiting := s.waiting - {c}, replies := s.replies + [Fresh(c, q, s.queries[q].result.value.health)])
  }

  // ---------- every interleaving ----------

  ghost predicate Run(ttl: int, es: seq<Event>)
    decreases |es|, 0
  {
    es == [] || (Run(ttl, es[..|es| - 1]) && Possible(After(ttl, es[..|es| - 1]), es[|es| - 1]))
  }

  ghost function After(ttl: int, es: seq<Event>): State
    requires Run(ttl, es)
    decreases |es|, 1
  {
    if es == [] then Initial() else Step(After(ttl, es[..|es| - 1]), ttl, es[|es| - 1])
  }

  ghost predicate Follows(before: Query, after: Query, ttl: int) {
    before.result.Some? && after.startedAt - before.result.value.at >= ttl
  }

  /** Every query but the last one has settled, and its successor started at least `ttl` after that. */
  ghost predicate OneAtATime(queries: seq<Query>, ttl: int) {
    forall i, j :: 0 <= i && j == i + 1 && j < |queries| ==> Follows(queries[i], queries[j], ttl)
  }

  /** The result of the newest query that has settled, if only the last one may be unsettled. */
  function NewestResult(queries: seq<Query>): Option<Settled> {
    var n := |queries|;
    if n == 0 then None
    else if queries[n - 1].result.Some? || n == 1 then queries[n - 1].result
    else queries[n - 2].result
  }

  ghost predicate Flight(s: State, ttl: int) {
    && OneAtATime(s.queries, ttl)
    && s.last == NewestResult(s.queries)
    // the query in flight is the newest one; without one, the newest has settled
    && (s.inflight.Some? ==> s.inflight.value == |s.queries| - 1)
    && (s.inflight == None && s.queries != [] ==> s.queries[|s.queries| - 1].result.Some?)
    // `finally` has run for exactly the queries that are no longer in flight
    && (forall q :: 0 <= q < |s.queries| ==> (q in s.cleared <==> s.inflight != Some(q)))
    && (forall q :: q in s.cleared ==> q < |s.queries| && s.queries[q].result.Some?)
    && forall c :: c in s.waiting ==> s.waiting[c] < |s.queries|
  }

  lemma UnsettledIsLast(queries: seq<Query>, ttl: int, q: nat)
    requires OneAtATime(queries, ttl) && q < |queries| && queries[q].result == None
    ensures q == |queries| - 1
  {
    assert q + 1 < |queries| ==> Follows(queries[q], queries[q + 1], ttl);
  }

  lemma StepKeepsFlight(s: State, ttl: int, e: Event)
    requires Flight(s, ttl) && Possible(s, e)
    ensures Flight(Step(s, ttl, e), ttl)
  {
    var t := Step(s, ttl, e);
    match e
    case Call(_, _) =>
      if |t.queries| > 1 && |t.queries| > |s.queries| {
        assert Follows(t.queries[|t.queries| - 2], t.queries[|t.queries| - 1], ttl);
      }
    case Settle(q, _, _) => UnsettledIsLast(s.queries, ttl, q);
    case Clear(_) =>
    case Resume(_) =>
  }

  lemma {:induction false} InvHolds(ttl: int, es: seq<Event>)
    requires Run(ttl, es)
    ensures Flight(After(ttl, es), ttl)
  {
    if es != [] {
      InvHolds(ttl, es[..|es| - 1]);
      StepKeepsFlight(After(ttl, es[..|es| - 1]), ttl, es[|es| - 1]);
    }
  }

  // ---------- queries and events ----------

  /** The results that the queries have are those they settled with. */
  ghost predicate Told(queries: seq<Query>, es: seq<Event>) {
    forall q: nat, health, at :: Settle(q, health, at) in es <==> q < |queries| && queries[q].result == Some(Settled(at, health))
  }

  /** What the newest query that has settled, settled with, and when. */
  function NewestSettle(es: seq<Event>): Option<Settled> {
    if es == [] then None
    else match es[|es| - 1]
      case Settle(_, health, at) => Some(Settled(at, health))
      case _ => NewestSettle(es[..|es| - 1])
  }

  /** A query's result is what its `Settle` event says, and `last` is what the newest of these events says. */
  lemma {:induction false} ResultsAreThoseOfTheEvents(ttl: int, es: seq<Event>)
    requires Run(ttl, es)
    ensures Told(After(ttl, es).queries, es)
    ensures NewestResult(After(ttl, es).queries) == After(ttl, es).last == NewestSettle(es)
  {
    InvHolds(ttl, es);
    if es != [] {
      var init, e := es[..|es| - 1], es[|es| - 1];
      ResultsAreThoseOfTheEvents(ttl, init);
      InvHolds(ttl, init);
      assert es == init + [e];
      hide NewestResult;
      StepTells(After(ttl, init), ttl, init, e);
    }
  }

  lemma StepTells(s: State, ttl: int, es: seq<Event>, e: Event)
    requires Possible(s, e) && Told(s.queries, es)
    ensures Told(Step(s, ttl, e).queries, es + [e])
  {
  }

  /** The call that starts the q-th query is the one whose time is its `startedAt`. */
  lemma {:induction false} QueriesAreStartedByCalls(ttl: int, es: seq<Event>, q: nat) returns (i: nat)
    requires Run(ttl, es) && q < |After(ttl, es).queries|
    ensures i < |es| && es[i].Call? && es[i].now == After(ttl, es).queries[q].startedAt
    ensures Run(ttl, es[..i]) && |After(ttl, es[..i]).queries| == q
    ensures After(ttl, es[..i]).inflight == None
  {
    var n := |es| - 1;
    var init := es[..n];
    if q < |After(ttl, init).queries| {
      i := QueriesAreStartedByCalls(ttl, init, q);
      assert init[..i] == es[..i];
    } else {
      i := n;
    }
  }

  /** In every interleaving at most one query is unsettled, and each query starts no sooner than `ttl` after the one before it settled. */
  lemma SingleFlight(ttl: int, es: seq<Event>)
    requires Run(ttl, es)
    ensures var queries := After(ttl, es).queries;
            && OneAtATime(queries, ttl)
            && forall i, j :: 0 <= i < |queries| && 0 <= j < |queries| && queries[i].result == None && queries[j].result == None ==> i == j
  {
    InvHolds(ttl, es);
    var queries := After(ttl, es).queries;
    forall i | 0 <= i < |queries| && queries[i].result == None
      ensures i == |queries| - 1
    {
      UnsettledIsLast(queries, ttl, i);
    }
  }

  /**
   * `finally` empties the slot whatever is in it, but when it runs for a query that query is the one in the slot: no newer
   * query can have been started in between.
   */
  lemma FinallyMeetsItsOwnQuery(ttl: int, es: seq<Event>, q: nat)
    requires Run(ttl, es) && Possible(After(ttl, es), Clear(q))
    ensures After(ttl, es).inflight == Some(q) && q == |After(ttl, es).queries| - 1
  {
    InvHolds(ttl, es);
  }

  /**
   * No caller is stuck: the query it waits for can settle with any result, or its `finally` can run, or the caller can go on. A
   * caller who is not waiting can always call.
   */
  lemma NobodyIsStuck(ttl: int, es: seq<Event>, c: nat)
    requires Run(ttl, es)
    ensures var s := After(ttl, es);
            if c !in s.waiting then forall now :: Possible(s, Call(c, now))
            else
              var q := s.waiting[c];
              || (forall health, now :: Possible(s, Settle(q, health, now)))
              || Possible(s, Clear(q))
              || Possible(s, Resume(c))
  {
    InvHolds(ttl, es);
  }

  /** How many replies a caller has been given. */
  function Answers(replies: seq<Reply>, c: nat): nat {
    if replies == [] then 0 else
    Answers(replies[..|replies| - 1], c) + if replies[|replies| - 1].caller == c then 1 else 0
  }

  function Calls(es: seq<Event>, c: nat): nat {
    if es == [] then 0 else
    Calls(es[..|es| - 1], c) + if es[|es| - 1].Call? && es[|es| - 1].caller == c then 1 else 0
  }

  /** Every call is answered exactly once or is still waiting. */
  lemma {:induction false} EveryCallerIsServed(ttl: int, es: seq<Event>, c: nat)
    requires Run(ttl, es)
    ensures var s := After(ttl, es);
            Answers(s.replies, c) + (if c in s.waiting then 1 else 0) == Calls(es, c)
  {
    if es != [] {
      EveryCallerIsServed(ttl, es[..|es| - 1], c);
      StepServes(After(ttl, es[..|es| - 1]), ttl, es[|es| - 1], c);
    }
  }

  lemma StepServes(s: State, ttl: int, e: Event, c: nat)
    requires Possible(s, e)
    ensures var t := Step(s, ttl, e);
            Answers(t.replies, c) + (if c in t.waiting then 1 else 0) ==
            Answers(s.replies, c) + (if c in s.waiting then 1 else 0) + (if e.Call? && e.caller == c then 1 else 0)
  {
    var t := Step(s, ttl, e);
    if |t.replies| > |s.replies| {
      AnswersOneMore(s.replies, t.replies[|t.replies| - 1], c);
      hide Answers;
      assert t.replies == s.replies + [t.replies[|t.replies| - 1]];
    }
  }

  lemma AnswersOneMore(replies: seq<Reply>, r: Reply, c: nat)
    ensures Answers(replies + [r], c) == Answers(replies, c) + if r.caller == c then 1 else 0
  {
    assert (replies + [r])[..|replies|] == replies;
  }

  /**
   * A reply given at the i-th event. A cached one is given to a call: the newest result settled by then, younger than `ttl`. Any
   * other is given to a caller who goes on: what the query it joined settled with.
   */
  ghost predicate GivenAt(r: Reply, ttl: int, es: seq<Event>, i: nat)
    requires i < |es|
  {
    match r
    case Cached(c, health, age) =>
      exists now, at ::
        es[i] == Call(c, now) && NewestSettle(es[..i]) == Some(Settled(at, health)) && age == now - at && age < ttl
    case Fresh(c, q, health) => es[i] == Resume(c) && exists at :: Settle(q, health, at) in es[..i]
  }

  /** Every reply that was ever given is what the events say. */
  lemma {:induction false} RepliesAreTruthful(ttl: int, es: seq<Event>, k: nat) returns (i: nat)
    requires Run(ttl, es) && k < |After(ttl, es).replies|
    ensures i < |es| && GivenAt(After(ttl, es).replies[k], ttl, es, i)
  {
    var n := |es| - 1;
    var init, e := es[..n], es[n];
    var s := After(ttl, init);
    if k < |s.replies| {
      i := RepliesAreTruthful(ttl, init, k);
      GivenBefore(s.replies[k], ttl, es, i);
    } else {
      i := n;
      ResultsAreThoseOfTheEvents(ttl, init);
      LastReply(s, ttl, init, e);
    }
  }

  lemma GivenBefore(r: Reply, ttl: int, es: seq<Event>, i: nat)
    requires i < |es| - 1 && GivenAt(r, ttl, es[..|es| - 1], i)
    ensures GivenAt(r, ttl, es, i)
  {
    assert es[..|es| - 1][..i] == es[..i];
  }

  lemma LastReply(s: State, ttl: int, init: seq<Event>, e: Event)
    requires Possible(s, e) && Told(s.queries, init) && s.last == NewestSettle(init)
    requires |Step(s, ttl, e).replies| > |s.replies|
    ensures GivenAt(Step(s, ttl, e).replies[|s.replies|], ttl, init + [e], |init|)
  {
    var es, i := init + [e], |init|;
    assert es[..i] == init;
    match e
    case Call(c, now) =>
      assert e == Call(c, now) && NewestSettle(init) == Some(Settled(s.last.value.at, s.last.value.health));
    case Resume(c) =>
      var q := s.waiting[c];
      var result := s.queries[q].result.value;
      assert Settle(q, result.health, result.at) in init;
    case _ =>
  }

  /**
   * A caller who was not served from the cache is given the result of the query that was in flight when it called, or of the
   * one it started: never of an earlier one and never of a later one.
   */
  lemma {:induction false} JoinersGetTheJoinedResult(ttl: int, es: seq<Event>, c: nat, more: seq<Event>)
    requires Run(ttl, es) && Run(ttl, es + more)
    requires c in After(ttl, es).waiting
    requires forall i :: 0 <= i < |more| ==> more[i] != Resume(c)
    ensures c in After(ttl, es + more).waiting
    ensures After(ttl, es + more).waiting[c] == After(ttl, es).waiting[c]
    ensures Possible(After(ttl, es + more), Resume(c)) ==>
              var replies := Step(After(ttl, es + more), ttl, Resume(c)).replies;
              exists health, at :: Settle(After(ttl, es).waiting[c], health, at) in es + more
                                   && replies[|replies| - 1] == Fresh(c, After(ttl, es).waiting[c], health)
  {
    JoinersStay(ttl, es, c, more);
    hide After;
    hide Step;
    if Possible(After(ttl, es + more), Resume(c)) { JoinerIsAnswered(ttl, es + more, c); }
  }

  lemma {:induction false} JoinersStay(ttl: int, es: seq<Event>, c: nat, more: seq<Event>)
    requires Run(ttl, es) && Run(ttl, es + more)
    requires c in After(ttl, es).waiting
    requires forall i :: 0 <= i < |more| ==> more[i] != Resume(c)
    ensures c in After(ttl, es + more).waiting
    ensures After(ttl, es + more).waiting[c] == After(ttl, es).waiting[c]
  {
    if more == [] {
      assert es + more == es;
    } else {
      var all, init := es + more, more[..|more| - 1];
      assert all[..|all| - 1] == es + init && all[|all| - 1] == more[|more| - 1];
      JoinersStay(ttl, es, c, init);
    }
  }

  lemma JoinerIsAnswered(ttl: int, es: seq<Event>, c: nat)
    requires Run(ttl, es) && Possible(After(ttl, es), Resume(c))
    ensures var s := After(ttl, es);
            var replies := Step(s, ttl, Resume(c)).replies;
            exists health, at :: Settle(s.waiting[c], health, at) in es && replies[|replies| - 1] == Fresh(c, s.waiting[c], health)
  {
    ResultsAreThoseOfTheEvents(ttl, es);
    var s := After(ttl, es);
    var result := s.queries[s.waiting[c]].result.value;
    assert Settle(s.waiting[c], result.health, result.at) in es;
  }

  /**
   * What a call gets: the newest settled result if that is younger than `ttl`, else the newest query, which is unsettled unless
   * its own result is already `ttl` old. Nothing but a missing query in flight starts one, at the time of the call.
   */
  lemma WhatACallGets(ttl: int, es: seq<Event>, c: nat, now: int)
    requires Run(ttl, es) && Possible(After(ttl, es), Call(c, now))
    ensures var s := After(ttl, es);
            var t := Step(s, ttl, Call(c, now));
            var newest := NewestSettle(es);
            if newest.Some? && now - newest.value.at < ttl then
              t == s.(replies := s.replies + [Cached(c, newest.value.health, now - newest.value.at)])
            else
              && t.inflight == Some(|t.queries| - 1) && t.waiting == s.waiting[c := |t.queries| - 1]
              && t.queries == (if s.inflight == None then s.queries + [Query(now, None)] else s.queries)
              && (var joined := t.queries[|t.queries| - 1]; joined.result.Some? ==> now - joined.result.value.at >= ttl)
  {
    InvHolds(ttl, es);
    ResultsAreThoseOfTheEvents(ttl, es);
    hide Told;
  }

  // ---------- the closure ----------

  /** What `createCachedDatabaseCheck` returns: `last` and `inflight` are its variables, the rest is held by its promises. */
  class CachedDatabaseCheck {
    const ttl: int
    var last: Option<Settled>
    var inflight: Option<nat>
    var queries: seq<Query>
    var cleared: set<nat>
    var waiting: map<nat, nat>
    var replies: seq<Reply>

    ghost function View(): State
      reads this
    {
      State(last, inflight, queries, cleared, waiting, replies)
    }

    constructor (ttl: int)
      ensures this.ttl == ttl && View() == Initial()
    {
      this.ttl := ttl;
      last, inflight, queries, cleared, waiting, replies := None, None, [], {}, map[], [];
    }

    /** A call up to its first `await`. */
    method Check(caller: nat, now: int)
      requires Possible(View(), Call(caller, now))
      modifies this
      ensures View() == Step(old(View()), ttl, Call(caller, now))
    {
      if last.Some? && now - last.value.at < ttl {
        replies := replies + [Cached(caller, last.value.health, now - last.value.at)];
        return;
      }
      if inflight == None {
        inflight := Some(|queries|);
        queries := queries + [Query(now, None)];
      }
      waiting := waiting[caller := inflight.value];
    }

    method OnSettled(query: nat, health: Health, now: int)
      requires Possible(View(), Settle(query, health, now))
      modifies this
      ensures View() == Step(old(View()), ttl, Settle(query, health, now))
    {
      queries := queries[query := queries[query].(result := Some(Settled(now, health)))];
      last := Some(Settled(now, health));
    }

    method OnFinally(query: nat)
      requires Possible(View(), Clear(query))
      modifies this
      ensures View() == Step(old(View()), ttl, Clear(query))
    {
      inflight := None;
      cleared := cleared + {query};
    }

    method OnAwaited(caller: nat)
      requires Possible(View(), Resume(caller))
      modifies this
      ensures View() == Step(old(View()), ttl, Resume(caller))
    {
      var query := waiting[caller];
      replies := replies + [Fresh(caller, query, queries[query].result.value.health)];
      waiting := waiting - {caller};
    }
  }
}
