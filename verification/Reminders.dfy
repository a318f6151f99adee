/**
 * The follow-up reminders of one tab: a tick fires a heads-up and a due alert per reminder, remembered in a set that
 * survives a reload. `time` gives the instant a `scheduledAt` text stands for.
 */
module Reminders {
  import opened Text
  import opened SessionSet

  const HEADS_UP_MS: nat := 300_000
  const DUE_POPUP_WINDOW_MS: nat := 7_200_000

  datatype Task = Task(id: string, scheduledAt: string)

  function ReminderKey(t: Task): string { t.id + ['@'] + t.scheduledAt }

  function SoonKey(t: Task): string { "soon:" + ReminderKey(t) }

  function DueKey(t: Task): string { "due:" + ReminderKey(t) }

  predicate PlainTime(t: Task) { '@' !in t.scheduledAt }

  /** A reminder is its task and its time: snoozing gives a new key, and no two reminders share an alert. */
  lemma KeysIdentifyReminders(t: Task, u: Task)
    requires PlainTime(t) && PlainTime(u)
    ensures ReminderKey(t) == ReminderKey(u) <==> t == u
    ensures SoonKey(t) == SoonKey(u) <==> t == u
    ensures DueKey(t) == DueKey(u) <==> t == u
    ensures SoonKey(t) != DueKey(u)
  {
    assert SoonKey(t)[5..] == ReminderKey(t) && SoonKey(u)[5..] == ReminderKey(u);
    assert DueKey(t)[4..] == ReminderKey(t) && DueKey(u)[4..] == ReminderKey(u);
    assert SoonKey(t)[0] != DueKey(u)[0];
    if ReminderKey(t) == ReminderKey(u) {
      SplitAtLast(t.id, t.scheduledAt, u.id, u.scheduledAt, '@');
    }
  }

  predicate IsSoon(at: int, now: int) { at > now && at - now <= HEADS_UP_MS }

  /** The heads-up is open for the five minutes before a reminder, the pop-up for the two hours from its time on. */
  lemma WindowsAre(at: int, now: int)
    ensures IsSoon(at, now) <==> 0 < at - now <= 5 * 60 * 1000
    ensures IsDue(at, now) <==> 0 <= now - at < 2 * 60 * 60 * 1000
  {
  }

  predicate IsDue(at: int, now: int) { at <= now && now - at < DUE_POPUP_WINDOW_MS }

  // ---------- one tick ----------

  function Add(fired: seq<string>, key: string): seq<string> { if key in fired then fired else fired + [key] }

  /** What one task adds to the fired set. */
  function FireTask(time: string -> int, fired: seq<string>, t: Task, now: int): seq<string> {
    var at := time(t.scheduledAt);
    var soon := if IsSoon(at, now) then Add(fired, SoonKey(t)) else fired;
    if IsDue(at, now) then Add(soon, DueKey(t)) else soon
  }

  function FireAll(time: string -> int, fired: seq<string>, tasks: seq<Task>, now: int): seq<string> {
    if tasks == [] then fired
    else
      var init := FireAll(time, fired, tasks[..|tasks| - 1], now);
      FireTask(time, init, tasks[|tasks| - 1], now)
  }

  lemma FireNothing(time: string -> int, fired: seq<string>, tasks: seq<Task>, now: int)
    ensures FireAll(time, fired, tasks[..0], now) == fired
  {
  }

  lemma FireNext(time: string -> int, fired: seq<string>, tasks: seq<Task>, i: nat, now: int)
    requires i < |tasks|
    ensures FireAll(time, fired, tasks[..i + 1], now) == FireTask(time, FireAll(time, fired, tasks[..i], now), tasks[i], now)
  {
    assert tasks[..i + 1][..i] == tasks[..i];
  }

  lemma {:induction false} FireAllExtends(time: string -> int, fired: seq<string>, tasks: seq<Task>, now: int)
    ensures fired <= FireAll(time, fired, tasks, now)
  {
    if tasks != [] { FireAllExtends(time, fired, tasks[..|tasks| - 1], now); }
  }

  /** The alerts of the tab: the set in memory (None until the first tick), what storage holds, and every alert given so far. */
  datatype State = State(alerted: Option<seq<string>>, stored: Option<string>, log: seq<string>)

  datatype Event = Tick(tasks: seq<Task>, now: int) | Reload

  function FiredBefore(s: State): seq<string> {
    match s.alerted case Some(fired) => fired case None => Load(s.stored)
  }

  function Step(time: string -> int, s: State, e: Event): State {
    match e
    case Reload => s.(alerted := None)
    case Tick(tasks, now) =>
      var before := FiredBefore(s);
      var after := FireAll(time, before, tasks, now);
      FireAllExtends(time, before, tasks, now);
      State(Some(after), if |after| > |before| then Some(Save(after)) else s.stored, s.log + after[|before|..])
  }

  function After(time: string -> int, es: seq<Event>): State {
    if es == [] then State(None, None, []) else Step(time, After(time, es[..|es| - 1]), es[|es| - 1])
  }

  // ---------- no alert is repeated ----------

  /** Two equal alerts are more than 200 alerts apart. */
  predicate Spaced(log: seq<string>) {
    forall i, j :: 0 <= i < j < |log| && log[i] == log[j] ==> j - i > 200
  }

  /** The set in memory is the newest part of the log, and at least its 200 newest entries. */
  ghost predicate Remembers(log: seq<string>, fired: seq<string>) {
    && Distinct(fired)
    && |fired| <= |log| && log[|log| - |fired|..] == fired
    && (|fired| >= KEPT || fired == log)
    && Spaced(log)
  }

  lemma AddKeepsMemory(log: seq<string>, fired: seq<string>, key: string)
    requires Remembers(log, fired) && key !in fired
    ensures Remembers(log + [key], fired + [key])
  {
    var longer := log + [key];
    var d := |log| - |fired|;
    RecentAreFired(log, fired);
    assert forall i :: d <= i < |log| ==> log[i] != key;
    assert forall i :: 0 <= i < |log| ==> longer[i] == log[i];
    assert longer[d..] == fired + [key];
  }

  lemma RecentAreFired(log: seq<string>, fired: seq<string>)
    requires |fired| <= |log| && log[|log| - |fired|..] == fired
    ensures forall i :: |log| - |fired| <= i < |log| ==> log[i] in fired
  {
    var d := |log| - |fired|;
    forall i | d <= i < |log|
      ensures log[i] in fired
    {
      assert log[i] == log[d..][i - d];
    }
  }

  lemma NewestIsDistinct(log: seq<string>)
    requires Spaced(log)
    ensures Distinct(Newest(log, KEPT))
    ensures Remembers(log, Newest(log, KEPT))
  {
    var recent := Newest(log, KEPT);
    forall i, j | 0 <= i < j < |recent|
      ensures recent[i] != recent[j]
    {
      var d := |log| - |recent|;
      assert log[d + i] == recent[i] && log[d + j] == recent[j];
    }
  }

  lemma AppendedInTwoSteps<A>(log: seq<A>, a: seq<A>, b: seq<A>, c: seq<A>)
    requires a <= b <= c
    ensures log + b[|a|..] + c[|b|..] == log + c[|a|..]
  {
    assert c[|a|..] == b[|a|..] + c[|b|..];
  }

  lemma {:induction false} TickKeepsMemory(time: string -> int, log: seq<string>, fired: seq<string>, tasks: seq<Task>, now: int)
    requires Remembers(log, fired)
    ensures var after := FireAll(time, fired, tasks, now);
            fired <= after && Remembers(log + after[|fired|..], after)
  {
    FireAllExtends(time, fired, tasks, now);
    if tasks == [] {
      assert log + fired[|fired|..] == log;
    } else {
      var init, t := FireAll(time, fired, tasks[..|tasks| - 1], now), tasks[|tasks| - 1];
      TickKeepsMemory(time, log, fired, tasks[..|tasks| - 1], now);
      FireTaskKeepsMemory(time, log + init[|fired|..], init, t, now);
      var after := FireTask(time, init, t, now);
      AppendedInTwoSteps(log, fired, init, after);
    }
  }

  lemma FireTaskKeepsMemory(time: string -> int, log: seq<string>, fired: seq<string>, t: Task, now: int)
    requires Remembers(log, fired)
    ensures var after := FireTask(time, fired, t, now);
            fired <= after && Remembers(log + after[|fired|..], after)
  {
    var after := FireTask(time, fired, t, now);
    if after == fired {
      assert log + fired[|fired|..] == log;
    } else {
      var key := if IsSoon(time(t.scheduledAt), now) then SoonKey(t) else DueKey(t);
      AddKeepsMemory(log, fired, key);
      assert after == fired + [key] && after[|fired|..] == [key];
    }
  }

  ghost predicate Inv(s: State) {
    && Spaced(s.log)
    && (s.alerted.Some? ==> Remembers(s.log, s.alerted.value))
    && (s.stored == if s.log == [] then None else Some(Save(s.log)))
  }

  lemma NewestOfSuffix(log: seq<string>, fired: seq<string>)
    requires Remembers(log, fired)
    ensures Newest(fired, KEPT) == Newest(log, KEPT)
  {
    if |log| > KEPT {
      var d := |log| - |fired|;
      assert forall k :: 0 <= k < |fired| ==> fired[k] == log[d + k];
    }
  }

  lemma InvGivesMemory(s: State)
    requires Inv(s)
    ensures Remembers(s.log, FiredBefore(s))
    ensures Load(s.stored) == Newest(s.log, KEPT)
  {
    NewestIsDistinct(s.log);
    if s.log != [] { LoadGivesTheNewest(s.log); }
  }

  lemma SavedAlike(log: seq<string>, fired: seq<string>)
    requires Remembers(log, fired)
    ensures Save(fired) == Save(log) && Spaced(log)
  {
    NewestOfSuffix(log, fired);
  }

  lemma StepKeepsInv(time: string -> int, s: State, e: Event)
    requires Inv(s)
    ensures Inv(Step(time, s, e))
  {
    hide FireAll;
    hide Spaced;
    hide Remembers;
    hide Save;
    hide Load;
    if e.Tick? {
      var before := FiredBefore(s);
      var after := FireAll(time, before, e.tasks, e.now);
      FireAllExtends(time, before, e.tasks, e.now);
      var log := s.log + after[|before|..];
      InvGivesMemory(s);
      TickKeepsMemory(time, s.log, before, e.tasks, e.now);
      SavedAlike(log, after);
      if |after| == |before| { assert log == s.log; } else { assert |log| > 0; }
    }
  }

  lemma {:induction false} InvHolds(time: string -> int, es: seq<Event>)
    ensures Inv(After(time, es))
  {
    if es != [] {
      InvHolds(time, es[..|es| - 1]);
      StepKeepsInv(time, After(time, es[..|es| - 1]), es[|es| - 1]);
    }
  }

  /** In every run of ticks and reloads, an alert is repeated only after at least 200 others were given in between. */
  lemma NoAlertIsRepeated(time: string -> int, es: seq<Event>)
    ensures Spaced(After(time, es).log)
  {
    InvHolds(time, es);
  }

  lemma LogIsAlerted(time: string -> int, s: State, e: Event)
    requires e.Tick? && FiredBefore(s) == s.log
    ensures Step(time, s, e).alerted == Some(Step(time, s, e).log)
  {
    FireAllExtends(time, s.log, e.tasks, e.now);
    var after := FireAll(time, s.log, e.tasks, e.now);
    assert after == s.log + after[|s.log|..];
  }

  /** Without a reload no alert is ever repeated. */
  lemma {:induction false} NoRepeatWithoutReload(time: string -> int, es: seq<Event>)
    requires Reload !in es
    ensures Distinct(After(time, es).log)
    ensures FiredBefore(After(time, es)) == After(time, es).log
  {
    if es != [] {
      var init := es[..|es| - 1];
      NoRepeatWithoutReload(time, init);
      InvHolds(time, es);
      var s, e := After(time, init), es[|es| - 1];
      assert e in es && e.Tick?;
      LogIsAlerted(time, s, e);
    }
  }

  /** After a reload a tick fires exactly those alerts of the moment that are not among the 200 newest. */
  lemma ReloadForgetsOnlyOldAlerts(time: string -> int, es: seq<Event>)
    ensures var log := After(time, es).log;
            FiredBefore(Step(time, After(time, es), Reload)) == Newest(log, 200) == if |log| <= 200 then log else log[|log| - 200..]
  {
    InvHolds(time, es);
    NewestMeans(After(time, es).log);
    hide After;
    hide Newest;
    hide Load;
    hide Inv;
    InvGivesMemory(After(time, es));
  }

  lemma NewestMeans(log: seq<string>)
    ensures Newest(log, 200) == if |log| <= 200 then log else log[|log| - 200..]
  {
  }

  // ---------- what a tick gives ----------

  lemma {:induction false} TickFiresOnlyTheCurrent(time: string -> int, fired: seq<string>, tasks: seq<Task>, now: int, t: Task)
    requires PlainTime(t) && forall u :: u in tasks ==> PlainTime(u)
    ensures var after := FireAll(time, fired, tasks, now);
            && (SoonKey(t) in after <==> SoonKey(t) in fired || (t in tasks && IsSoon(time(t.scheduledAt), now)))
            && (DueKey(t) in after <==> DueKey(t) in fired || (t in tasks && IsDue(time(t.scheduledAt), now)))
  {
    if tasks != [] {
      var n := |tasks| - 1;
      assert tasks == tasks[..n] + [tasks[n]];
      assert forall u :: u in tasks[..n] ==> u in tasks;
      TickFiresOnlyTheCurrent(time, fired, tasks[..n], now, t);
      KeysIdentifyReminders(t, tasks[n]);
      KeysIdentifyReminders(tasks[n], t);
    }
  }

  predicate PlainTimes(tasks: seq<Task>) { forall u :: u in tasks ==> PlainTime(u) }

  /** The alerts an event gives. */
  function Given(time: string -> int, s: State, e: Event): (r: seq<string>)
    ensures Step(time, s, e).log == s.log + r
  {
    match e
    case Reload => []
    case Tick(tasks, now) =>
      FireAllExtends(time, FiredBefore(s), tasks, now);
      FireAll(time, FiredBefore(s), tasks, now)[|FiredBefore(s)|..]
  }

  /** What a tick gives in any state of the tab: the alerts whose window is open and that are not among those remembered. */
  lemma TickGives(time: string -> int, s: State, e: Event, t: Task)
    requires Inv(s) && e.Tick? && PlainTime(t) && PlainTimes(e.tasks)
    ensures var given := Given(time, s, e);
            && (SoonKey(t) in given <==> t in e.tasks && IsSoon(time(t.scheduledAt), e.now) && SoonKey(t) !in FiredBefore(s))
            && (DueKey(t) in given <==> t in e.tasks && IsDue(time(t.scheduledAt), e.now) && DueKey(t) !in FiredBefore(s))
  {
    var before := FiredBefore(s);
    var after := FireAll(time, before, e.tasks, e.now);
    FireAllExtends(time, before, e.tasks, e.now);
    InvGivesMemory(s);
    TickKeepsMemory(time, s.log, before, e.tasks, e.now);
    TickFiresOnlyTheCurrent(time, before, e.tasks, e.now, t);
    NewPart(before, after, SoonKey(t));
    NewPart(before, after, DueKey(t));
  }

  lemma NewPart(before: seq<string>, after: seq<string>, key: string)
    requires before <= after && Distinct(after)
    ensures key in after[|before|..] <==> key in after && key !in before
  {
    assert after == before + after[|before|..];
    assert forall i, j :: 0 <= i < |before| && |before| <= j < |after| ==> before[i] == after[i] != after[j];
  }

  lemma OneMoreEvent(time: string -> int, es: seq<Event>, e: Event)
    ensures After(time, es + [e]) == Step(time, After(time, es), e)
  {
    assert (es + [e])[..|es + [e]| - 1] == es;
  }

  /**
   * A tick after a reload gives an alert exactly if its window is open and it is not among the 200 newest of the whole run:
   * so an older one whose window is still open is given again.
   */
  lemma GivenAfterReload(time: string -> int, es: seq<Event>, e: Event, t: Task)
    requires e.Tick? && PlainTime(t) && PlainTimes(e.tasks)
    ensures var log := After(time, es).log;
            var given := Given(time, After(time, es + [Reload]), e);
            && After(time, es + [Reload] + [e]).log == log + given
            && (SoonKey(t) in given <==> t in e.tasks && IsSoon(time(t.scheduledAt), e.now) && SoonKey(t) !in Newest(log, 200))
            && (DueKey(t) in given <==> t in e.tasks && IsDue(time(t.scheduledAt), e.now) && DueKey(t) !in Newest(log, 200))
  {
    OneMoreEvent(time, es, Reload);
    OneMoreEvent(time, es + [Reload], e);
    InvHolds(time, es + [Reload]);
    ReloadForgetsOnlyOldAlerts(time, es);
    TickGives(time, After(time, es + [Reload]), e, t);
  }

  predicate AllDue(time: string -> int, tasks: seq<Task>, now: int) {
    && PlainTimes(tasks) && (forall i, j :: 0 <= i < j < |tasks| ==> tasks[i] != tasks[j])
    && forall u :: u in tasks ==> IsDue(time(u.scheduledAt), now)
  }

  /** More than 200 reminders due at once are enough: after a reload the first of them is announced a second time. */
  lemma ReloadCanRepeat(time: string -> int, tasks: seq<Task>, now: int)
    requires |tasks| > 200 && AllDue(time, tasks, now)
    ensures var e := Tick(tasks, now);
            && After(time, [e]).log == Map(DueKey, tasks)
            && DueKey(tasks[0]) in Given(time, After(time, [e] + [Reload]), e)
            && After(time, [e] + [Reload] + [e]).log == Map(DueKey, tasks) + Given(time, After(time, [e] + [Reload]), e)
  {
    var e, t := Tick(tasks, now), tasks[0];
    FirstTickGives(time, tasks, now);
    FirstIsDue(time, tasks, now);
    hide *;
    ForgottenIsRepeated(time, [e], e, t);
  }

  lemma FirstIsDue(time: string -> int, tasks: seq<Task>, now: int)
    requires tasks != [] && AllDue(time, tasks, now)
    ensures PlainTimes(tasks) && tasks[0] in tasks && PlainTime(tasks[0]) && IsDue(time(tasks[0].scheduledAt), now)
  {
  }

  lemma ForgottenIsRepeated(time: string -> int, es: seq<Event>, e: Event, t: Task)
    requires e.Tick? && PlainTimes(e.tasks) && PlainTime(t) && t in e.tasks && IsDue(time(t.scheduledAt), e.now)
    requires var log := After(time, es).log; |log| > KEPT && Distinct(log) && log[0] == DueKey(t)
    ensures var given := Given(time, After(time, es + [Reload]), e);
            DueKey(t) in given && After(time, es + [Reload] + [e]).log == After(time, es).log + given
  {
    hide After;
    hide Given;
    FirstIsForgotten(After(time, es).log);
    hide Newest;
    hide Distinct;
    GivenAfterReload(time, es, e, t);
  }

  lemma FirstTickGives(time: string -> int, tasks: seq<Task>, now: int)
    requires AllDue(time, tasks, now)
    ensures var log := After(time, [Tick(tasks, now)]).log;
            log == Map(DueKey, tasks) && |log| == |tasks| && Distinct(log) && (tasks != [] ==> log[0] == DueKey(tasks[0]))
  {
    hide AllDue;
    hide DueKey;
    var e := Tick(tasks, now);
    NoRepeatWithoutReload(time, [e]);
    hide Distinct;
    OneMoreEvent(time, [], e);
    assert [] + [e] == [e];
    AllDueAreGiven(time, tasks, now);
    var all := FireAll(time, [], tasks, now);
    assert all[0..] == all && [] + all == all;
  }

  lemma {:induction false} AllDueAreGiven(time: string -> int, tasks: seq<Task>, now: int)
    requires AllDue(time, tasks, now)
    ensures FireAll(time, [], tasks, now) == Map(DueKey, tasks)
  {
    if tasks != [] {
      var n := |tasks| - 1;
      var init, t := tasks[..n], tasks[n];
      LastIsDue(time, tasks, now);
      MapLast(DueKey, tasks);
      AllDueAreGiven(time, init, now);
      assert FireAll(time, [], tasks, now) == FireTask(time, FireAll(time, [], init, now), t, now);
      hide *;
      DueIsAdded(time, Map(DueKey, init), t, now);
    }
  }

  lemma DueIsAdded(time: string -> int, fired: seq<string>, t: Task, now: int)
    requires IsDue(time(t.scheduledAt), now) && DueKey(t) !in fired
    ensures FireTask(time, fired, t, now) == fired + [DueKey(t)]
  {
  }

  lemma LastIsDue(time: string -> int, tasks: seq<Task>, now: int)
    requires tasks != [] && AllDue(time, tasks, now)
    ensures var init, t := tasks[..|tasks| - 1], tasks[|tasks| - 1];
            AllDue(time, init, now) && IsDue(time(t.scheduledAt), now) && DueKey(t) !in Map(DueKey, init)
  {
    var init, t := tasks[..|tasks| - 1], tasks[|tasks| - 1];
    assert t in tasks && forall u :: u in init ==> u in tasks;
    hide DueKey;
    NewKey(init, t);
  }

  lemma NewKey(init: seq<Task>, t: Task)
    requires PlainTimes(init) && PlainTime(t) && t !in init
    ensures DueKey(t) !in Map(DueKey, init)
  {
    forall i | 0 <= i < |init|
      ensures DueKey(init[i]) != DueKey(t)
    {
      assert init[i] in init;
      KeysIdentifyReminders(init[i], t);
    }
  }

  lemma FirstIsForgotten(log: seq<string>)
    requires |log| > KEPT && Distinct(log)
    ensures log[0] !in Newest(log, KEPT)
  {
    var d := |log| - KEPT;
    assert forall i :: 0 <= i < KEPT ==> Newest(log, KEPT)[i] == log[d + i];
  }

  // ---------- every reminder is announced ----------

  predicate Lists(e: Event, t: Task) { e.Tick? && t in e.tasks && PlainTimes(e.tasks) }

  predicate SomeSoon(time: string -> int, events: seq<Event>, t: Task) {
    exists i :: 0 <= i < |events| && Lists(events[i], t) && IsSoon(time(t.scheduledAt), events[i].now)
  }

  predicate SomeDue(time: string -> int, events: seq<Event>, t: Task) {
    exists i :: 0 <= i < |events| && Lists(events[i], t) && IsDue(time(t.scheduledAt), events[i].now)
  }

  lemma SomeInLast(time: string -> int, init: seq<Event>, e: Event, t: Task)
    ensures SomeSoon(time, init + [e], t) <==> SomeSoon(time, init, t) || (Lists(e, t) && IsSoon(time(t.scheduledAt), e.now))
    ensures SomeDue(time, init + [e], t) <==> SomeDue(time, init, t) || (Lists(e, t) && IsDue(time(t.scheduledAt), e.now))
  {
    hide Lists;
    hide IsSoon;
    hide IsDue;
    var all := init + [e];
    assert all[|init|] == e && forall i :: 0 <= i < |init| ==> all[i] == init[i];
  }

  /** An alert has been given exactly if it had been given before, or some tick since then listed it inside its window. */
  lemma {:induction false} GivenIffSomeTickInWindow(time: string -> int, es: seq<Event>, more: seq<Event>, t: Task)
    requires PlainTime(t) && forall e :: e in more ==> e == Reload || PlainTimes(e.tasks)
    ensures SoonKey(t) in After(time, es + more).log <==> SoonKey(t) in After(time, es).log || SomeSoon(time, more, t)
    ensures DueKey(t) in After(time, es + more).log <==> DueKey(t) in After(time, es).log || SomeDue(time, more, t)
  {
    hide After;
    hide Step;
    hide Lists;
    hide PlainTimes;
    if more == [] {
      assert es + more == es;
    } else {
      var n := |more| - 1;
      var init, e := more[..n], more[n];
      assert more == init + [e];
      assert e in more && forall d :: d in init ==> d in more;
      SomeInLast(time, init, e, t);
      hide SomeSoon;
      hide SomeDue;
      hide IsSoon;
      hide IsDue;
      GivenIffSomeTickInWindow(time, es, init, t);
      assert es + more == es + init + [e];
      OneMoreEvent(time, es + init, e);
      InvHolds(time, es + init);
      NextEventGives(time, After(time, es + init), e, t);
    }
  }

  lemma NextEventGives(time: string -> int, s: State, e: Event, t: Task)
    requires Inv(s) && PlainTime(t) && (e == Reload || PlainTimes(e.tasks))
    ensures var at, log := time(t.scheduledAt), Step(time, s, e).log;
            && (SoonKey(t) in log <==> SoonKey(t) in s.log || (Lists(e, t) && IsSoon(at, e.now)))
            && (DueKey(t) in log <==> DueKey(t) in s.log || (Lists(e, t) && IsDue(at, e.now)))
  {
    hide Inv;
    hide Step;
    hide Given;
    hide FiredBefore;
    hide IsSoon;
    hide IsDue;
    hide SoonKey;
    hide DueKey;
    hide PlainTimes;
    if e.Tick? {
      TickGives(time, s, e, t);
      if SoonKey(t) in FiredBefore(s) { RememberedWereGiven(s, SoonKey(t)); }
      if DueKey(t) in FiredBefore(s) { RememberedWereGiven(s, DueKey(t)); }
      assert Step(time, s, e).log == s.log + Given(time, s, e);
    } else {
      ReloadGivesNothing(time, s);
    }
  }

  lemma ReloadGivesNothing(time: string -> int, s: State)
    ensures Step(time, s, Reload).log == s.log
  {
  }

  lemma RememberedWereGiven(s: State, key: string)
    requires Inv(s) && key in FiredBefore(s)
    ensures key in s.log
  {
    InvGivesMemory(s);
    var fired := FiredBefore(s);
    var i :| 0 <= i < |fired| && fired[i] == key;
    assert s.log[|s.log| - |fired| + i] == key;
  }

  /** Two ticks with nothing but reloads between them. */
  predicate NextTick(events: seq<Event>, k: nat, l: nat) {
    k < l < |events| && events[k].Tick? && events[l].Tick? && forall m :: k < m < l ==> events[m] == Reload
  }

  /** Ticks at most 10 s apart that list `t` from before its heads-up window until its time has come, and reloads between them. */
  ghost predicate Watched(time: string -> int, events: seq<Event>, t: Task) {
    && |events| > 0 && PlainTime(t)
    && (forall e :: e in events ==> e == Reload || Lists(e, t))
    && (forall k: nat, l: nat :: NextTick(events, k, l) ==> events[l].now <= events[k].now + 10_000)
    && events[0].Tick? && events[0].now < time(t.scheduledAt) - 300_000
    && events[|events| - 1].Tick? && time(t.scheduledAt) <= events[|events| - 1].now
  }

  /** The first tick of a watch at or after a moment of the heads-up time, which it misses by less than 10 s. */
  lemma FirstTickAtOrAfter(time: string -> int, events: seq<Event>, t: Task, bound: int) returns (i: nat)
    requires Watched(time, events, t) && time(t.scheduledAt) - 300_000 <= bound <= time(t.scheduledAt)
    ensures 0 < i < |events| && Lists(events[i], t) && bound <= events[i].now < bound + 10_000
    ensures forall k :: 0 <= k < i && events[k].Tick? ==> events[k].now < bound
  {
    i := 1;
    ghost var last := 0;
    while events[i] == Reload || events[i].now < bound
      invariant 0 <= last < i < |events|
      invariant events[last].Tick? && events[last].now < bound
      invariant forall m :: last < m < i ==> events[m] == Reload
      invariant forall k :: 0 <= k < i && events[k].Tick? ==> events[k].now < bound
      decreases |events| - i
    {
      if events[i].Tick? {
        last := i;
      }
      i := i + 1;
    }
    assert NextTick(events, last, i);
    assert events[i] in events;
  }

  /**
   * In a run of ticks and reloads, a reminder that was not announced before and is watched is announced by the first tick in its
   * heads-up window, 290 to 300 s ahead, and again by the first tick at or after its time, less than 10 s late.
   */
  lemma EveryReminderIsAnnounced(time: string -> int, es: seq<Event>, more: seq<Event>, t: Task) returns (i: nat, j: nat)
    requires Watched(time, more, t) && SoonKey(t) !in After(time, es).log && DueKey(t) !in After(time, es).log
    ensures 0 < i < j < |more| && more[i].Tick? && more[j].Tick?
    ensures var at := time(t.scheduledAt);
            && 290_000 < at - more[i].now <= 300_000
            && 0 <= more[j].now - at < 10_000
    ensures SoonKey(t) !in After(time, es + more[..i]).log && SoonKey(t) in After(time, es + more[..i + 1]).log
    ensures DueKey(t) !in After(time, es + more[..j]).log && DueKey(t) in After(time, es + more[..j + 1]).log
  {
    hide Watched;
    hide Lists;
    hide After;
    var at := time(t.scheduledAt);
    i := FirstTickAtOrAfter(time, more, t, at - 300_000);
    j := FirstTickAtOrAfter(time, more, t, at);
    AreTicks(more[i], more[j], t);
    WindowEntered(time, es, more, t, i);
    WindowEntered(time, es, more, t, j);
  }

  lemma AreTicks(e: Event, f: Event, t: Task)
    requires Lists(e, t) && Lists(f, t)
    ensures e.Tick? && f.Tick?
  {
  }

  /** An alert is given for the first time by the tick that enters its window. */
  lemma WindowEntered(time: string -> int, es: seq<Event>, more: seq<Event>, t: Task, i: nat)
    requires Watched(time, more, t) && i < |more| && Lists(more[i], t)
    ensures var at := time(t.scheduledAt);
            var (before, after) := (After(time, es + more[..i]).log, After(time, es + more[..i + 1]).log);
            && (SoonKey(t) !in After(time, es).log && IsSoon(at, more[i].now)
                && (forall k :: 0 <= k < i && more[k].Tick? ==> !IsSoon(at, more[k].now)) ==>
                  SoonKey(t) !in before && SoonKey(t) in after)
            && (DueKey(t) !in After(time, es).log && IsDue(at, more[i].now)
                && (forall k :: 0 <= k < i && more[k].Tick? ==> !IsDue(at, more[k].now)) ==>
                  DueKey(t) !in before && DueKey(t) in after)
  {
    assert forall e :: e in more[..i + 1] ==> e in more;
    assert forall e :: e in more[..i] ==> e in more;
    GivenIffSomeTickInWindow(time, es, more[..i], t);
    GivenIffSomeTickInWindow(time, es, more[..i + 1], t);
    assert more[..i + 1][i] == more[i];
  }

  /**
   * A watched reminder is announced exactly once ahead and exactly once when it is due, in every run without a reload, and with
   * any number of reloads as long as no more than 201 alerts have been given.
   */
  lemma AnnouncedExactlyOnce(time: string -> int, es: seq<Event>, more: seq<Event>, t: Task)
    requires Watched(time, more, t)
    requires Reload !in es + more || |After(time, es + more).log| <= 201
    ensures multiset(After(time, es + more).log)[SoonKey(t)] == 1
    ensures multiset(After(time, es + more).log)[DueKey(t)] == 1
  {
    var at, log := time(t.scheduledAt), After(time, es + more).log;
    var i := FirstTickAtOrAfter(time, more, t, at - 300_000);
    var j := FirstTickAtOrAfter(time, more, t, at);
    GivenIffSomeTickInWindow(time, es, more, t);
    assert Lists(more[i], t) && IsSoon(at, more[i].now) && Lists(more[j], t) && IsDue(at, more[j].now);
    if Reload !in es + more {
      NoRepeatWithoutReload(time, es + more);
    } else {
      NoAlertIsRepeated(time, es + more);
    }
    assert Distinct(log);
    CountedOnce(log, SoonKey(t));
    CountedOnce(log, DueKey(t));
  }

  lemma CountedOnce(log: seq<string>, key: string)
    requires Distinct(log) && key in log
    ensures multiset(log)[key] == 1
  {
    var i :| 0 <= i < |log| && log[i] == key;
    assert log == log[..i] + [key] + log[i + 1..];
    assert key !in log[..i] && key !in log[i + 1..];
  }

  // ---------- the pop-up ----------

  /** The first listed reminder that is due and not dismissed; none during a call. */
  function DueTask(time: string -> int, tasks: seq<Task>, now: int, dismissed: seq<string>, inCall: bool): (r: Option<Task>)
    ensures r.Some? ==> r.value in tasks && !inCall && IsDue(time(r.value.scheduledAt), now) && ReminderKey(r.value) !in dismissed
    ensures r == None && !inCall ==> forall t :: t in tasks && IsDue(time(t.scheduledAt), now) ==> ReminderKey(t) in dismissed
  {
    if inCall || tasks == [] then None
    else if IsDue(time(tasks[0].scheduledAt), now) && ReminderKey(tasks[0]) !in dismissed then Some(tasks[0])
    else DueTask(time, tasks[1..], now, dismissed, inCall)
  }

  predicate PopsUp(time: string -> int, t: Task, now: int, dismissed: seq<string>) {
    IsDue(time(t.scheduledAt), now) && ReminderKey(t) !in dismissed
  }

  /** One pop-up at a time: no reminder listed before the one shown would pop up. */
  lemma {:induction false} DueTaskIsFirst(time: string -> int, tasks: seq<Task>, now: int, dismissed: seq<string>) returns (i: nat)
    ensures i <= |tasks| && forall j :: 0 <= j < i ==> !PopsUp(time, tasks[j], now, dismissed)
    ensures if i < |tasks| then PopsUp(time, tasks[i], now, dismissed) && DueTask(time, tasks, now, dismissed, false) == Some(tasks[i])
            else DueTask(time, tasks, now, dismissed, false) == None
  {
    if tasks == [] || PopsUp(time, tasks[0], now, dismissed) {
      i := 0;
    } else {
      var k := DueTaskIsFirst(time, tasks[1..], now, dismissed);
      i := k + 1;
    }
  }

  /** A dismissed reminder does not pop up again, before or after a reload, until 200 others have been dismissed. */
  lemma DismissedStaysAway(
    time: string -> int, tasks: seq<Task>, now: int, dismissed: seq<string>, t: Task, later: seq<string>, inCall: bool)
    requires Distinct(dismissed + [ReminderKey(t)] + later)
    ensures var all := dismissed + [ReminderKey(t)] + later;
            && DueTask(time, tasks, now, all, inCall) != Some(t)
            && (|later| < 200 ==> DueTask(time, tasks, now, Load(Some(Save(all))), inCall) != Some(t))
  {
    var all := dismissed + [ReminderKey(t)] + later;
    assert all[|dismissed|] == ReminderKey(t);
    if |later| < KEPT {
      var recent := Newest(all, KEPT);
      var d := |all| - |recent|;
      assert forall k :: 0 <= k < |recent| ==> recent[k] == all[d + k];
      assert recent[|dismissed| - d] == ReminderKey(t);
      LoadGivesTheNewest(all);
    }
  }

  // ---------- the component ----------

  /** The loop of the effect: the alerts that are given now, and the set with them. */
  method FireEach(time: string -> int, before: seq<string>, tasks: seq<Task>, now: int) returns (fired: seq<string>, given: seq<string>)
    ensures fired == FireAll(time, before, tasks, now) == before + given
  {
    hide FireAll;
    hide SoonKey;
    hide DueKey;
    FireNothing(time, before, tasks, now);
    fired, given := before, [];
    for i := 0 to |tasks|
      invariant fired == FireAll(time, before, tasks[..i], now) == before + given
    {
      ghost var init := fired;
      var at := time(tasks[i].scheduledAt);
      var soonKey := SoonKey(tasks[i]);
      if at > now && at - now <= HEADS_UP_MS && soonKey !in fired {
        fired, given := fired + [soonKey], given + [soonKey];
      }
      var dueKey := DueKey(tasks[i]);
      if at <= now && now - at < DUE_POPUP_WINDOW_MS && dueKey !in fired {
        fired, given := fired + [dueKey], given + [dueKey];
      }
      assert fired == FireTask(time, init, tasks[i], now);
      FireNext(time, before, tasks, i, now);
    }
    assert tasks[..|tasks|] == tasks;
  }

  const ALERTED_KEY := "follow-ups:alerted"
  const DISMISSED_KEY := "follow-ups:dismissed"

  /** The mounted component; `log` lists the alerts it has given since the session began. */
  class FollowUpReminders {
    const time: string -> int
    const storage: SessionStorage
    var alerted: Option<seq<string>>
    var dismissed: seq<string>
    var log: seq<string>

    function Stored(key: string): Option<string>
      reads this, storage
    {
      if key in storage.items then Some(storage.items[key]) else None
    }

    ghost function View(): State
      reads this, storage
    {
      State(alerted, Stored(ALERTED_KEY), log)
    }

    /** A mount on a page whose session has given the alerts `log` so far. */
    constructor (time: string -> int, storage: SessionStorage, log: seq<string>)
      ensures this.time == time && this.storage == storage
      ensures View() == State(None, Stored(ALERTED_KEY), log) && dismissed == Load(Stored(DISMISSED_KEY))
    {
      this.time, this.storage := time, storage;
      alerted, this.log := None, log;
      dismissed := [];
      new;
      dismissed := storage.LoadSessionSet(DISMISSED_KEY);
    }

    /** The effect that runs on every clock tick and every refetched list. */
    method Tick(tasks: seq<Task>, now: int)
      modifies this, storage
      ensures View() == Step(time, old(View()), Event.Tick(tasks, now))
      ensures dismissed == old(dismissed) && Stored(DISMISSED_KEY) == old(Stored(DISMISSED_KEY))
    {
      hide FireAll;
      if alerted == None {
        var loaded := storage.LoadSessionSet(ALERTED_KEY);
        alerted := Some(loaded);
      }
      var before := alerted.value;
      var fired, given := FireEach(time, before, tasks, now);
      assert fired[|before|..] == given;
      alerted := Some(fired);
      log := log + given;
      if given != [] {
        storage.SaveSessionSet(ALERTED_KEY, fired);
      }
    }

    method Dismiss(t: Task)
      modifies this, storage
      ensures dismissed == if ReminderKey(t) in old(dismissed) then old(dismissed) else old(dismissed) + [ReminderKey(t)]
      ensures Stored(DISMISSED_KEY) == Some(Save(dismissed))
      ensures View() == old(View())
    {
      var key := ReminderKey(t);
      if key !in dismissed {
        dismissed := dismissed + [key];
      }
      storage.SaveSessionSet(DISMISSED_KEY, dismissed);
    }
  }
}
