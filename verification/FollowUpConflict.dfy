/**
 * Whether a chosen follow-up time is too close to another lead's reminder, which reminder is named, and the next free time.
 * Times are milliseconds.
 */
module FollowUpConflict {
  import opened Text

  const MIN_GAP_MS: nat := 300_000
  const MINUTE_MS: nat := 60_000
  const MAX_HOPS: nat := 100

  datatype FollowUp = FollowUp(id: string, leadId: string, at: int)

  function Distance(a: int, b: int): nat { if a < b then b - a else a - b }

  predicate Clashes(o: FollowUp, t: int) { Distance(o.at, t) < MIN_GAP_MS }

  /** No other reminder is closer than the minimum gap. */
  predicate IsFree(others: seq<FollowUp>, t: int) { forall i :: 0 <= i < |others| ==> !Clashes(others[i], t) }

  /** A time is free exactly if every reminder is at least five minutes away from it. */
  lemma FreeMeans(others: seq<FollowUp>, t: int)
    ensures IsFree(others, t) <==> forall o :: o in others ==> o.at - t <= -300_000 || o.at - t >= 300_000
  {
    assert forall i :: 0 <= i < |others| ==> others[i] in others;
  }

  function OthersOf(followUps: seq<FollowUp>, leadId: Option<string>): (r: seq<FollowUp>)
    ensures forall f :: f in r <==> f in followUps && Some(f.leadId) != leadId
  {
    if followUps == [] then [] else
    (if Some(followUps[0].leadId) != leadId then [followUps[0]] else []) + OthersOf(followUps[1..], leadId)
  }

  function ClashAt(others: seq<FollowUp>, t: int): (r: seq<FollowUp>)
    ensures forall f :: f in r <==> f in others && Clashes(f, t)
    ensures forall i :: 0 <= i < |r| ==> r[i] in others && Clashes(r[i], t)
    ensures r == [] <==> IsFree(others, t)
  {
    if others == [] then [] else (if Clashes(others[0], t) then [others[0]] else []) + ClashAt(others[1..], t)
  }

  function LatestOf(blockers: seq<FollowUp>): (r: int)
    requires blockers != []
    ensures exists i :: 0 <= i < |blockers| && blockers[i].at == r
    ensures forall i :: 0 <= i < |blockers| ==> blockers[i].at <= r
  {
    if |blockers| == 1 then blockers[0].at else
    var rest := LatestOf(blockers[1..]);
    assert exists i :: 0 <= i < |blockers| && blockers[i].at == (if blockers[0].at > rest then blockers[0].at else rest) by {
      var k :| 0 <= k < |blockers[1..]| && blockers[1..][k].at == rest;
      assert blockers[k + 1].at == rest;
    }
    if blockers[0].at > rest then blockers[0].at else rest
  }

  /** The `reduce` that names the closest clash: `best` so far against the rest. */
  function Closest(best: FollowUp, rest: seq<FollowUp>, ms: int): (r: FollowUp)
    ensures r in [best] + rest
    ensures Distance(r.at, ms) <= Distance(best.at, ms)
    ensures forall i :: 0 <= i < |rest| ==> Distance(r.at, ms) <= Distance(rest[i].at, ms)
    decreases |rest|
  {
    if rest == [] then best
    else Closest(if Distance(best.at, ms) <= Distance(rest[0].at, ms) then best else rest[0], rest[1..], ms)
  }

  // ---------- hopping to the next free time ----------

  /** A reminder that is closest to `ms`, and the first such in the list. */
  ghost predicate IsFirstClosest(r: FollowUp, s: seq<FollowUp>, ms: int) {
    && (forall j :: 0 <= j < |s| ==> Distance(r.at, ms) <= Distance(s[j].at, ms))
    && exists i :: 0 <= i < |s| && FirstAt(r, s, ms, i)
  }

  ghost predicate FirstAt(r: FollowUp, s: seq<FollowUp>, ms: int, i: nat)
    requires i < |s|
  {
    s[i] == r && forall j :: 0 <= j < i ==> Distance(r.at, ms) < Distance(s[j].at, ms)
  }

  /** Of two equally close reminders the reduce keeps the earlier in the list. */
  lemma {:induction false} ClosestIsFirst(best: FollowUp, rest: seq<FollowUp>, ms: int)
    ensures IsFirstClosest(Closest(best, rest, ms), [best] + rest, ms)
    decreases |rest|
  {
    if rest == [] {
      assert FirstAt(best, [best] + rest, ms, 0);
    } else {
      hide Distance;
      if Distance(best.at, ms) <= Distance(rest[0].at, ms) {
        ClosestIsFirst(best, rest[1..], ms);
        NextIsNoCloser(Closest(best, rest, ms), best, rest, ms);
      } else {
        ClosestIsFirst(rest[0], rest[1..], ms);
        NextIsCloser(Closest(best, rest, ms), best, rest, ms);
      }
    }
  }

  lemma NextIsNoCloser(r: FollowUp, best: FollowUp, rest: seq<FollowUp>, ms: int)
    requires rest != [] && Distance(best.at, ms) <= Distance(rest[0].at, ms)
    requires IsFirstClosest(r, [best] + rest[1..], ms)
    ensures IsFirstClosest(r, [best] + rest, ms)
  {
    hide Distance;
    var s, t := [best] + rest, [best] + rest[1..];
    assert s[0] == t[0] && s[1] == rest[0];
    assert forall j :: 2 <= j < |s| ==> s[j] == t[j - 1];
    var i :| 0 <= i < |t| && FirstAt(r, t, ms, i);
    assert FirstAt(r, s, ms, if i > 0 then i + 1 else 0);
  }

  lemma NextIsCloser(r: FollowUp, best: FollowUp, rest: seq<FollowUp>, ms: int)
    requires rest != [] && Distance(best.at, ms) > Distance(rest[0].at, ms)
    requires IsFirstClosest(r, [rest[0]] + rest[1..], ms)
    ensures IsFirstClosest(r, [best] + rest, ms)
  {
    hide Distance;
    var s := [best] + rest;
    assert [rest[0]] + rest[1..] == rest;
    var i :| 0 <= i < |rest| && FirstAt(r, rest, ms, i);
    assert s[0] == best && forall j :: 1 <= j < |s| ==> s[j] == rest[j - 1];
    assert FirstAt(r, s, ms, i + 1);
  }

  /** One hop: past the latest reminder that blocks `t`. */
  function Hop(others: seq<FollowUp>, t: int): (r: int)
    requires !IsFree(others, t)
    ensures r > t
  {
    LatestOf(ClashAt(others, t)) + MIN_GAP_MS
  }

  /** The reminder times that can still block `t` or anything after it. */
  function Ahead(others: seq<FollowUp>, t: int): set<int> {
    set o | o in others && o.at > t - MIN_GAP_MS :: o.at
  }

  lemma LatestClash(others: seq<FollowUp>, t: int) returns (b: FollowUp)
    requires !IsFree(others, t)
    ensures b in others && Clashes(b, t) && b.at + MIN_GAP_MS == Hop(others, t)
  {
    var blockers := ClashAt(others, t);
    var i :| 0 <= i < |blockers| && blockers[i].at == LatestOf(blockers);
    b := blockers[i];
  }

  /** A hop leaves the reminder it passed behind for good, and skips only blocked times. */
  lemma HopPassesAReminder(others: seq<FollowUp>, t: int)
    requires !IsFree(others, t)
    ensures var r := Hop(others, t);
            && (exists o :: o in others && -300_000 < o.at - t < 300_000 && r == o.at + 300_000)
            && (forall o :: o in others && -300_000 < o.at - t < 300_000 ==> o.at + 300_000 <= r)
            && r - 300_000 in Ahead(others, t) && Ahead(others, r) <= Ahead(others, t) - {r - 300_000}
            && |Ahead(others, r)| < |Ahead(others, t)|
            && forall u :: t <= u < r ==> !IsFree(others, u)
  {
    var r := Hop(others, t);
    var b := LatestClash(others, t);
    Smaller(Ahead(others, r), Ahead(others, t), b.at);
    var i :| 0 <= i < |others| && others[i] == b;
    assert forall u :: t <= u < r ==> Clashes(others[i], u);
    assert forall o: FollowUp :: -300_000 < o.at - t < 300_000 <==> Clashes(o, t);
    assert b in others && Clashes(b, t);
  }

  lemma Smaller(a: set<int>, b: set<int>, x: int)
    requires x in b && a <= b - {x}
    ensures |a| < |b|
  {
    assert |b - a| == |b| - |b * a| && b * a == a;
    assert x in b - a;
  }

  /** The least free time at or after `t`. */
  function LeastFree(others: seq<FollowUp>, t: int): (r: int)
    ensures t <= r
    decreases |Ahead(others, t)|
  {
    if IsFree(others, t) then t else
    HopPassesAReminder(others, t);
    LeastFree(others, Hop(others, t))
  }

  /** It is at least the minimum gap from every other reminder, and no earlier time is. */
  lemma {:induction false} LeastFreeIsLeast(others: seq<FollowUp>, t: int)
    ensures IsFree(others, LeastFree(others, t))
    ensures forall o :: o in others ==> o.at - LeastFree(others, t) <= -300_000 || o.at - LeastFree(others, t) >= 300_000
    ensures forall u :: t <= u < LeastFree(others, t) ==> !IsFree(others, u)
    decreases |Ahead(others, t)|
  {
    if !IsFree(others, t) {
      HopPassesAReminder(others, t);
      LeastFreeIsLeast(others, Hop(others, t));
    } else {
      FreeMeans(others, t);
    }
  }

  function HopsNeeded(others: seq<FollowUp>, t: int): (n: nat)
    ensures n <= |Ahead(others, t)|
    decreases |Ahead(others, t)|
  {
    if IsFree(others, t) then 0 else
    HopPassesAReminder(others, t);
    1 + HopsNeeded(others, Hop(others, t))
  }

  /** `t` after at most `n` steps of `next`, stopping where there is none. */
  function Iterate(next: int -> Option<int>, t: int, n: nat): int
    decreases n
  {
    if n == 0 || next(t) == None then t else Iterate(next, next(t).value, n - 1)
  }

  lemma {:induction false} OneMoreStep(next: int -> Option<int>, t: int, n: nat)
    ensures var r := Iterate(next, t, n);
            Iterate(next, t, n + 1) == if next(r) == None then r else next(r).value
    decreases n
  {
    if n > 0 && next(t).Some? { OneMoreStep(next, next(t).value, n - 1); }
  }

  lemma {:induction false} StaysPut(next: int -> Option<int>, t: int, n: nat, m: nat)
    requires n <= m && next(Iterate(next, t, n)) == None
    ensures Iterate(next, t, m) == Iterate(next, t, n)
    decreases m - n
  {
    if n < m {
      OneMoreStep(next, t, n);
      StaysPut(next, t, n + 1, m);
    }
  }

  function NextHop(others: seq<FollowUp>): int -> Option<int> {
    t => if IsFree(others, t) then None else Some(Hop(others, t))
  }

  /** `t` after at most `n` hops. */
  function AfterHops(others: seq<FollowUp>, t: int, n: nat): int { Iterate(NextHop(others), t, n) }

  lemma FirstHop(others: seq<FollowUp>, t: int, n: nat)
    ensures IsFree(others, t) || n == 0 ==> AfterHops(others, t, n) == t
    ensures !IsFree(others, t) && n > 0 ==> AfterHops(others, t, n) == AfterHops(others, Hop(others, t), n - 1)
  {
  }

  lemma LastHop(others: seq<FollowUp>, t: int, n: nat)
    ensures var r := AfterHops(others, t, n);
            AfterHops(others, t, n + 1) == if IsFree(others, r) then r else Hop(others, r)
  {
    OneMoreStep(NextHop(others), t, n);
  }

  lemma NoMoreHops(others: seq<FollowUp>, t: int, n: nat, m: nat)
    requires n <= m && IsFree(others, AfterHops(others, t, n))
    ensures AfterHops(others, t, m) == AfterHops(others, t, n)
  {
    StaysPut(NextHop(others), t, n, m);
  }

  lemma FirstHopTowardsFree(others: seq<FollowUp>, t: int)
    ensures IsFree(others, t) ==> LeastFree(others, t) == t && HopsNeeded(others, t) == 0
    ensures !IsFree(others, t) ==>
              && LeastFree(others, t) == LeastFree(others, Hop(others, t)) != t
              && HopsNeeded(others, t) == 1 + HopsNeeded(others, Hop(others, t))
  {
  }

  lemma {:induction false} HopsUntilFree(others: seq<FollowUp>, t: int, n: nat)
    ensures IsFree(others, AfterHops(others, t, n)) <==> HopsNeeded(others, t) <= n
    decreases n
  {
    hide IsFree;
    hide Hop;
    hide AfterHops;
    hide HopsNeeded;
    FirstHop(others, t, n);
    FirstHopTowardsFree(others, t);
    if !IsFree(others, t) && n > 0 { HopsUntilFree(others, Hop(others, t), n - 1); }
  }

  lemma {:induction false} HopsKeepTheGoal(others: seq<FollowUp>, t: int, n: nat)
    ensures LeastFree(others, AfterHops(others, t, n)) == LeastFree(others, t)
  {
    hide IsFree;
    hide Hop;
    hide AfterHops;
    hide LeastFree;
    if n == 0 {
      FirstHop(others, t, 0);
    } else {
      HopsKeepTheGoal(others, t, n - 1);
      LastHop(others, t, n - 1);
      FirstHopTowardsFree(others, AfterHops(others, t, n - 1));
    }
  }

  /** Hopping finds the least free time exactly when it is allowed as many hops as that takes. */
  lemma HopsFindTheLeastFree(others: seq<FollowUp>, t: int, n: nat)
    ensures IsFree(others, AfterHops(others, t, n)) <==> HopsNeeded(others, t) <= n
    ensures IsFree(others, AfterHops(others, t, n)) <==> AfterHops(others, t, n) == LeastFree(others, t)
  {
    HopsUntilFree(others, t, n);
    HopsKeepTheGoal(others, t, n);
    FirstHopTowardsFree(others, AfterHops(others, t, n));
    LeastFreeIsLeast(others, t);
  }

  /** A hundred hops are enough for up to a hundred reminder times that can still be in the way. */
  lemma HundredHopsSuffice(others: seq<FollowUp>, ms: int)
    requires |Ahead(others, ms)| <= 100
    ensures AfterHops(others, ms, 100) == LeastFree(others, ms)
  {
    HopsFindTheLeastFree(others, ms, MAX_HOPS);
  }

  /** A caller can simply count: with at most a hundred other reminders the hops suffice. */
  lemma HundredRemindersSuffice(others: seq<FollowUp>, ms: int)
    requires |others| <= 100
    ensures AfterHops(others, ms, 100) == LeastFree(others, ms)
  {
    AheadAreOthers(others, ms);
    HundredHopsSuffice(others, ms);
  }

  lemma {:induction false} AheadAreOthers(others: seq<FollowUp>, t: int)
    ensures |Ahead(others, t)| <= |others|
  {
    if others == [] {
      assert Ahead(others, t) == {};
    } else {
      var last, init := others[|others| - 1], others[..|others| - 1];
      AheadAreOthers(init, t);
      assert forall o :: o in others <==> o in init || o == last;
      FewerThanOneMore(Ahead(others, t), Ahead(init, t), last.at);
    }
  }

  lemma FewerThanOneMore(a: set<int>, b: set<int>, x: int)
    requires a <= b + {x}
    ensures |a| <= |b| + 1
  {
    if a <= b {
      assert |b - a| == |b| - |b * a| && b * a == a;
    } else {
      Smaller(a - {x}, a, x);
      assert |b - (a - {x})| == |b| - |b * (a - {x})| && b * (a - {x}) == a - {x};
    }
  }

  /** The loop of the hook. */
  method NextFree(others: seq<FollowUp>, ms: int) returns (next: int)
    ensures next == AfterHops(others, ms, 100)
  {
    next := ms;
    for i := 0 to MAX_HOPS
      invariant next == AfterHops(others, ms, i)
    {
      var blockers := ClashAt(others, next);
      if blockers == [] {
        NoMoreHops(others, ms, i, MAX_HOPS);
        break;
      }
      LastHop(others, ms, i);
      next := LatestOf(blockers) + MIN_GAP_MS;
    }
  }

  /** Reminders of other leads, each exactly the minimum gap after the one before, the first at the chosen time. */
  ghost predicate BackToBack(others: seq<FollowUp>, ms: int) {
    forall i :: 0 <= i < |others| ==> others[i].at == ms + i * 300_000
  }

  /** At the n-th reminder only that reminder is in the way, so a hop leads to the next one. */
  lemma BackToBackHop(others: seq<FollowUp>, ms: int, n: nat)
    requires BackToBack(others, ms) && n < |others|
    ensures var t := ms + n * 300_000;
            !IsFree(others, t) && Hop(others, t) == t + 300_000
  {
    hide Hop;
    assert Clashes(others[n], ms + n * 300_000);
    var b := LatestClash(others, ms + n * 300_000);
    var i :| 0 <= i < |others| && others[i] == b;
    OnlyOneClashes(others, ms, n, i);
  }

  lemma OnlyOneClashes(others: seq<FollowUp>, ms: int, n: nat, i: nat)
    requires BackToBack(others, ms) && i < |others| && Clashes(others[i], ms + n * 300_000)
    ensures i == n
  {
  }

  lemma {:induction false} BackToBackHops(others: seq<FollowUp>, ms: int, n: nat)
    requires BackToBack(others, ms) && n < |others|
    ensures AfterHops(others, ms, n) == ms + n * 300_000
  {
    if n == 0 {
      FirstHop(others, ms, 0);
    } else {
      BackToBackHops(others, ms, n - 1);
      NextInLine(others, ms, n - 1);
    }
  }

  lemma NextInLine(others: seq<FollowUp>, ms: int, n: nat)
    requires BackToBack(others, ms) && n < |others| && AfterHops(others, ms, n) == ms + n * 300_000
    ensures AfterHops(others, ms, n + 1) == ms + (n + 1) * 300_000
  {
    hide IsFree;
    hide Hop;
    hide AfterHops;
    BackToBackHop(others, ms, n);
    LastHop(others, ms, n);
  }

  /** The bound is sharp: 101 reminders back to back defeat the hundred hops, and the suggestion is itself blocked. */
  lemma HundredHopsCanFail(others: seq<FollowUp>, ms: int)
    requires BackToBack(others, ms) && |others| == 101
    ensures !IsFree(others, AfterHops(others, ms, 100))
  {
    BackToBackHops(others, ms, MAX_HOPS);
    BackToBackHop(others, ms, MAX_HOPS);
  }

  // ---------- the suggestion as it is shown ----------

  /** What `toLocalInputValue` keeps of a time: its whole minute (zone offsets are whole minutes). */
  function ToMinute(t: int): (r: int)
    ensures r % 60_000 == 0 && r <= t < r + 60_000
  {
    t - t % MINUTE_MS
  }

  /** From a whole-minute choice, the shown suggestion is free exactly when the free time is itself a whole minute. */
  lemma ShownSuggestionIsFree(others: seq<FollowUp>, ms: int)
    requires ms % 60_000 == 0
    ensures IsFree(others, ToMinute(LeastFree(others, ms))) <==> LeastFree(others, ms) % 60_000 == 0
  {
    var f := LeastFree(others, ms);
    LeastFreeIsLeast(others, ms);
    assert ms <= ToMinute(f) <= f;
  }

  /** Reminders set to whole minutes never spoil the suggestion. */
  lemma {:induction false} WholeMinutesSuffice(others: seq<FollowUp>, ms: int)
    requires ms % 60_000 == 0 && forall o :: o in others ==> o.at % 60_000 == 0
    ensures LeastFree(others, ms) % 60_000 == 0
    decreases |Ahead(others, ms)|
  {
    if !IsFree(others, ms) {
      HopPassesAReminder(others, ms);
      HopLandsOnAMinute(others, ms);
      WholeMinutesSuffice(others, Hop(others, ms));
    }
  }

  lemma HopLandsOnAMinute(others: seq<FollowUp>, ms: int)
    requires !IsFree(others, ms) && forall o :: o in others ==> o.at % 60_000 == 0
    ensures Hop(others, ms) % 60_000 == 0
  {
    var b := LatestClash(others, ms);
    FiveMinutesOn(b.at);
  }

  lemma FiveMinutesOn(t: int)
    ensures (t + 300_000) % 60_000 == t % 60_000
  {
  }

  // ---------- the hook ----------

  /** A reminder of another lead less than five minutes from the chosen time. */
  predicate TooClose(f: FollowUp, leadId: Option<string>, ms: int) { Some(f.leadId) != leadId && -300_000 < f.at - ms < 300_000 }

  /** The i-th follow-up is named: it is too close, no other that is too close is closer, and none before it is as close. */
  ghost predicate NamedAt(followUps: seq<FollowUp>, leadId: Option<string>, ms: int, named: FollowUp, i: nat)
    requires i < |followUps|
  {
    && followUps[i] == named && TooClose(named, leadId, ms)
    && (forall j :: 0 <= j < |followUps| && TooClose(followUps[j], leadId, ms) ==> Distance(named.at, ms) <= Distance(followUps[j].at, ms))
    && (forall j :: 0 <= j < i && TooClose(followUps[j], leadId, ms) ==> Distance(named.at, ms) < Distance(followUps[j].at, ms))
  }

  /** The filters keep the order, so the first closest clash is named. */
  lemma {:induction false} FirstClosestIsNamed(followUps: seq<FollowUp>, leadId: Option<string>, ms: int, named: FollowUp)
    returns (i: nat)
    requires IsFirstClosest(named, ClashAt(OthersOf(followUps, leadId), ms), ms)
    ensures i < |followUps| && NamedAt(followUps, leadId, ms, named, i)
  {
    hide *;
    var clashing := ClashAt(OthersOf(followUps, leadId), ms);
    SomeClosest(named, clashing, ms);
    FilteredFrom(followUps, leadId, ms);
    FiltersFront(followUps, leadId, ms);
    var f := followUps[0];
    if TooClose(f, leadId, ms) && f == named {
      i := 0;
      NamedFirst(followUps, leadId, ms, clashing);
    } else {
      if TooClose(f, leadId, ms) { TailOfClosest(named, clashing, ms); }
      var k := FirstClosestIsNamed(followUps[1..], leadId, ms, named);
      NamedLater(followUps, leadId, ms, named, k);
      i := k + 1;
    }
  }

  lemma SomeClosest(r: FollowUp, s: seq<FollowUp>, ms: int)
    requires IsFirstClosest(r, s, ms)
    ensures s != []
  {
  }

  lemma NamedFirst(followUps: seq<FollowUp>, leadId: Option<string>, ms: int, clashing: seq<FollowUp>)
    requires followUps != [] && TooClose(followUps[0], leadId, ms) && IsFirstClosest(followUps[0], clashing, ms)
    requires forall f :: f in clashing <==> f in followUps && TooClose(f, leadId, ms)
    ensures NamedAt(followUps, leadId, ms, followUps[0], 0)
  {
    hide Distance;
    hide TooClose;
    forall j | 0 <= j < |followUps| && TooClose(followUps[j], leadId, ms)
      ensures Distance(followUps[0].at, ms) <= Distance(followUps[j].at, ms)
    {
      assert followUps[j] in clashing;
      var k :| 0 <= k < |clashing| && clashing[k] == followUps[j];
    }
  }

  lemma NamedLater(followUps: seq<FollowUp>, leadId: Option<string>, ms: int, named: FollowUp, k: nat)
    requires followUps != [] && k < |followUps[1..]| && NamedAt(followUps[1..], leadId, ms, named, k)
    requires TooClose(followUps[0], leadId, ms) ==> Distance(named.at, ms) < Distance(followUps[0].at, ms)
    ensures NamedAt(followUps, leadId, ms, named, k + 1)
  {
    hide Distance;
    hide TooClose;
    assert forall j :: 0 < j < |followUps| ==> followUps[j] == followUps[1..][j - 1];
  }

  lemma FilteredFrom(followUps: seq<FollowUp>, leadId: Option<string>, ms: int)
    ensures var clashing := ClashAt(OthersOf(followUps, leadId), ms);
            && (forall f :: f in clashing <==> f in followUps && TooClose(f, leadId, ms))
            && (clashing != [] ==> followUps != [])
  {
    hide OthersOf;
    hide ClashAt;
    var clashing := ClashAt(OthersOf(followUps, leadId), ms);
    assert forall f: FollowUp :: Clashes(f, ms) <==> -300_000 < f.at - ms < 300_000;
    if clashing != [] { assert clashing[0] in clashing; }
  }

  lemma FiltersFront(followUps: seq<FollowUp>, leadId: Option<string>, ms: int)
    requires followUps != []
    ensures var (all, more) := (ClashAt(OthersOf(followUps, leadId), ms), ClashAt(OthersOf(followUps[1..], leadId), ms));
            if TooClose(followUps[0], leadId, ms) then all == [followUps[0]] + more && all[0] == followUps[0] && all[1..] == more
            else all == more
  {
    var f, rest := followUps[0], OthersOf(followUps[1..], leadId);
    if Some(f.leadId) != leadId {
      assert OthersOf(followUps, leadId) == [f] + rest;
      assert ([f] + rest)[1..] == rest;
    } else {
      assert OthersOf(followUps, leadId) == rest;
    }
  }

  lemma TailOfClosest(r: FollowUp, s: seq<FollowUp>, ms: int)
    requires s != [] && s[0] != r && IsFirstClosest(r, s, ms)
    ensures IsFirstClosest(r, s[1..], ms) && Distance(r.at, ms) < Distance(s[0].at, ms)
  {
    hide Distance;
    var i :| 0 <= i < |s| && FirstAt(r, s, ms, i);
    assert FirstAt(r, s[1..], ms, i - 1);
  }

  /** The warning for a chosen time: the closest clashing reminder and the suggested time, or nothing. */
  method Conflict(followUps: seq<FollowUp>, leadId: Option<string>, chosen: Option<int>)
    returns (conflict: Option<FollowUp>, nextFree: Option<int>)
    ensures conflict.Some? <==> chosen.Some? && exists f :: f in followUps && TooClose(f, leadId, chosen.value)
    ensures conflict.Some? <==> nextFree.Some?
    ensures conflict.Some? ==> exists i :: 0 <= i < |followUps| && NamedAt(followUps, leadId, chosen.value, conflict.value, i)
    ensures nextFree.Some? ==> nextFree.value == ToMinute(AfterHops(OthersOf(followUps, leadId), chosen.value, 100))
    ensures nextFree.Some? && |Ahead(OthersOf(followUps, leadId), chosen.value)| <= 100 ==>
              nextFree.value == ToMinute(LeastFree(OthersOf(followUps, leadId), chosen.value))
  {
    hide IsFree;
    hide LeastFree;
    hide Ahead;
    hide OthersOf;
    hide ClashAt;
    hide AfterHops;
    hide Closest;
    hide IsFirstClosest;
    conflict, nextFree := None, None;
    if chosen == None {
      return;
    }
    var others := OthersOf(followUps, leadId);
    var clashing := ClashAt(others, chosen.value);
    FilteredFrom(followUps, leadId, chosen.value);
    if clashing == [] {
      return;
    }
    assert clashing[0] in clashing;
    hide TooClose;
    hide NamedAt;
    var closest := Closest(clashing[0], clashing[1..], chosen.value);
    ClosestIsFirst(clashing[0], clashing[1..], chosen.value);
    assert clashing == [clashing[0]] + clashing[1..];
    conflict := Some(closest);
    var next := NextFree(others, chosen.value);
    ghost var i := FirstClosestIsNamed(followUps, leadId, chosen.value, closest);
    if |Ahead(others, chosen.value)| <= 100 { HundredHopsSuffice(others, chosen.value); }
    nextFree := Some(ToMinute(next));
  }
}
