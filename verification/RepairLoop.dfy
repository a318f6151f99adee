/**
 * The address repair run: every order is previewed and, in an apply run, re-synced, each with up to three attempts. Calls to
 * the order service are oracles: what the n-th attempt of a call does is part of the input.
 */
module RepairLoop {

  const ATTEMPTS: nat := 3
  const MAX_CONSECUTIVE_FAILURES: nat := 5

  datatype Attempt<+T> = Threw | Returned(value: T)

  datatype Address = AddressOk | AddressSkip | AddressRepairable

  /** An order and what the service answers: the state of its address, and whether a re-sync left nothing missing. */
  datatype Order = Order(number: string, preview: nat -> Attempt<Address>, resync: nat -> Attempt<bool>)

  datatype Outcome = Ok | WouldRepair | Repaired | Skipped | Failed

  datatype Line = Line(number: string, outcome: Outcome)

  /** `--max-repairs`: absent, not a number, or a number that is not negative. */
  datatype Cap = Unlimited | NotANumber | Limit(max: real)

  predicate Capped(cap: Cap) { cap != Unlimited }

  predicate WellFormed(cap: Cap) { cap.Limit? ==> cap.max >= 0.0 }

  /** `written >= maxRepairs`; a comparison with NaN is false. */
  predicate Reached(written: nat, cap: Cap) { cap.Limit? && written as real >= cap.max }

  // ---------- retries ----------

  /** The answer of a call from its k-th attempt on, and how many attempts are made in all. */
  function Retried<T>(call: nat -> Attempt<T>, k: nat): (r: (Attempt<T>, nat))
    requires 1 <= k <= ATTEMPTS
    ensures k <= r.1 <= ATTEMPTS
    decreases ATTEMPTS - k
  {
    if call(k - 1).Returned? || k >= ATTEMPTS then (call(k - 1), k) else Retried(call, k + 1)
  }

  method WithRetry<T>(call: nat -> Attempt<T>) returns (answer: Attempt<T>, attempts: nat)
    ensures (answer, attempts) == Retried(call, 1)
  {
    attempts := 1;
    answer := call(0);
    while answer == Threw && attempts < ATTEMPTS
      invariant 1 <= attempts <= ATTEMPTS && answer == call(attempts - 1)
      invariant Retried(call, attempts) == Retried(call, 1)
      decreases ATTEMPTS - attempts
    {
      attempts := attempts + 1;
      answer := call(attempts - 1);
    }
  }

  /** A call fails for good exactly when all three attempts throw; otherwise its first answer counts. */
  lemma RetriedMeaning<T>(call: nat -> Attempt<T>)
    ensures var (answer, n) := Retried(call, 1);
            && (answer == Threw <==> call(0) == Threw && call(1) == Threw && call(2) == Threw)
            && answer == call(n - 1) && forall k: nat :: k < n - 1 ==> call(k) == Threw
  {
    assert Retried(call, 2) == if call(1).Returned? then (call(1), 2) else Retried(call, 3);
    assert Retried(call, 3) == (call(2), 3);
  }

  // ---------- one order ----------

  datatype State = State(written: nat, failures: nat, stopped: bool, lines: seq<Line>, previewCalls: nat, resyncCalls: nat)

  const INITIAL := State(0, 0, false, [], 0, 0)

  /** What happens to one order: its outcome, how many orders were written, and how many calls were made. */
  function Examine(s: State, o: Order, apply: bool, cap: Cap): (r: (Outcome, nat, nat, nat))
    ensures r.2 <= ATTEMPTS && r.3 <= ATTEMPTS * (r.1 - s.written)
    ensures s.written <= r.1 <= s.written + 1
  {
    var (preview, n) := Retried(o.preview, 1);
    match preview
    case Threw => (Failed, s.written, n, 0)
    case Returned(address) =>
      if address == AddressOk then (Ok, s.written, n, 0)
      else if address == AddressSkip then (Skipped, s.written, n, 0)
      else if !apply then (WouldRepair, s.written, n, 0)
      else if Reached(s.written, cap) then (Skipped, s.written, n, 0)
      else
        var (result, m) := Retried(o.resync, 1);
        (if result == Returned(true) then Repaired else Failed, s.written + 1, n, m)
  }

  function Process(s: State, o: Order, apply: bool, cap: Cap): State {
    var (outcome, written, n, m) := Examine(s, o, apply, cap);
    var failures := if outcome == Failed then s.failures + 1 else 0;
    State(
      written, failures,
      (apply && outcome == Failed && Capped(cap)) || failures >= MAX_CONSECUTIVE_FAILURES,
      s.lines + [Line(o.number, outcome)],
      s.previewCalls + n, s.resyncCalls + m)
  }

  /** The run over the first orders, up to the one it stops at. */
  function Run(orders: seq<Order>, apply: bool, cap: Cap): State {
    if orders == [] then INITIAL else
    var s := Run(orders[..|orders| - 1], apply, cap);
    if s.stopped then s else Process(s, orders[|orders| - 1], apply, cap)
  }

  /** The body of the loop's `try`: preview, and re-sync if there is something to repair and the cap allows it. */
  method ExamineOrder(ghost s: State, order: Order, soFar: nat, apply: bool, cap: Cap)
    returns (outcome: Outcome, written: nat, n: nat, m: nat)
    requires s.written == soFar
    ensures (outcome, written, n, m) == Examine(s, order, apply, cap)
  {
    written, m := soFar, 0;
    var preview: Attempt<Address>;
    preview, n := WithRetry(order.preview);
    match preview {
      case Threw => outcome := Failed;
      case Returned(address) =>
        if address == AddressOk {
          outcome := Ok;
        } else if address == AddressSkip {
          outcome := Skipped;
        } else if !apply {
          outcome := WouldRepair;
        } else if Reached(written, cap) {
          outcome := Skipped;
        } else {
          written := written + 1;
          var result: Attempt<bool>;
          result, m := WithRetry(order.resync);
          outcome := if result == Returned(true) then Repaired else Failed;
        }
    }
  }

  /** The run over one more order. */
  lemma RunNext(orders: seq<Order>, i: nat, apply: bool, cap: Cap)
    requires i < |orders| && !Run(orders[..i], apply, cap).stopped
    ensures Run(orders[..i + 1], apply, cap) == Process(Run(orders[..i], apply, cap), orders[i], apply, cap)
  {
    assert orders[..i + 1][..i] == orders[..i];
  }

  /** The main loop. */
  method Repair(orders: seq<Order>, apply: bool, cap: Cap) returns (s: State)
    ensures s == Run(orders, apply, cap)
  {
    hide Run;
    hide Examine;
    hide Reached;
    hide Capped;
    hide WellFormed;
    InitialRun(orders, apply, cap);
    var written: nat, previewCalls: nat, resyncCalls: nat := 0, 0, 0;
    var lines: seq<Line> := [];
    var consecutiveFailures: nat, stopped := 0, false;
    var i := 0;
    while i < |orders|
      invariant i <= |orders| && !stopped
      invariant Run(orders[..i], apply, cap) == State(written, consecutiveFailures, stopped, lines, previewCalls, resyncCalls)
    {
      ghost var before := Run(orders[..i], apply, cap);
      RunNext(orders, i, apply, cap);
      var outcome, n, m;
      outcome, written, n, m := ExamineOrder(before, orders[i], written, apply, cap);
      previewCalls := previewCalls + n;
      resyncCalls := resyncCalls + m;
      consecutiveFailures := if outcome == Failed then consecutiveFailures + 1 else 0;
      lines := lines + [Line(orders[i].number, outcome)];
      i := i + 1;
      if apply && outcome == Failed && Capped(cap) {
        stopped := true;
        break;
      }
      if consecutiveFailures >= MAX_CONSECUTIVE_FAILURES {
        stopped := true;
        break;
      }
    }
    s := State(written, consecutiveFailures, stopped, lines, previewCalls, resyncCalls);
    StoppedStays(orders, i, apply, cap);
  }

  lemma InitialRun(orders: seq<Order>, apply: bool, cap: Cap)
    ensures Run(orders[..0], apply, cap) == INITIAL
  {
  }

  lemma {:induction false} StoppedStays(orders: seq<Order>, i: nat, apply: bool, cap: Cap)
    requires i <= |orders| && (Run(orders[..i], apply, cap).stopped || i == |orders|)
    ensures Run(orders, apply, cap) == Run(orders[..i], apply, cap)
    decreases |orders|
  {
    if i == |orders| {
      assert orders[..i] == orders;
    } else {
      var init := orders[..|orders| - 1];
      assert init[..i] == orders[..i];
      StoppedStays(init, i, apply, cap);
    }
  }

  // ---------- what every run keeps ----------

  function CountOf(lines: seq<Line>, o: Outcome): nat {
    if lines == [] then 0 else CountOf(lines[..|lines| - 1], o) + if lines[|lines| - 1].outcome == o then 1 else 0
  }

  /** How many lines at the end are failures. */
  function FailingSuffix(lines: seq<Line>): nat {
    if lines == [] || lines[|lines| - 1].outcome != Failed then 0 else FailingSuffix(lines[..|lines| - 1]) + 1
  }

  ghost predicate Budget(s: State, apply: bool, cap: Cap) {
    && CountOf(s.lines, Repaired) <= s.written
    && s.resyncCalls <= 3 * s.written
    && s.previewCalls <= 3 * |s.lines|
    && (!apply ==> s.written == 0 && s.resyncCalls == 0 && CountOf(s.lines, Repaired) == 0)
    && (apply ==> CountOf(s.lines, WouldRepair) == 0)
    && (cap.Limit? ==> s.written == 0 || (s.written - 1) as real < cap.max)
    && CountOf(s.lines, Ok) + CountOf(s.lines, WouldRepair) + CountOf(s.lines, Repaired)
       + CountOf(s.lines, Skipped) + CountOf(s.lines, Failed) == |s.lines|
  }

  ghost predicate Stopping(s: State, apply: bool, cap: Cap) {
    && s.failures == FailingSuffix(s.lines) <= 5
    && (s.stopped <==> s.failures == 5 || (apply && cap != Unlimited && s.failures > 0))
    && (forall i :: 0 <= i < |s.lines| ==> FailingSuffix(s.lines[..i]) < 5)
    && (apply && cap != Unlimited ==> forall i :: 0 <= i < |s.lines| - 1 ==> s.lines[i].outcome != Failed)
  }

  lemma ProcessKeepsBudget(s: State, o: Order, apply: bool, cap: Cap)
    requires Budget(s, apply, cap)
    ensures Budget(Process(s, o, apply, cap), apply, cap)
  {
    var t := Process(s, o, apply, cap);
    assert t.lines[..|t.lines| - 1] == s.lines;
  }

  lemma ProcessKeepsStopping(s: State, o: Order, apply: bool, cap: Cap)
    requires Stopping(s, apply, cap) && !s.stopped
    ensures Stopping(Process(s, o, apply, cap), apply, cap)
  {
    var t := Process(s, o, apply, cap);
    var n := |s.lines|;
    assert t.lines[..n] == s.lines;
    assert forall i :: 0 <= i < n ==> t.lines[..i] == s.lines[..i];
    if n > 0 && s.lines[n - 1].outcome == Failed {
      assert FailingSuffix(s.lines) > 0;
    }
  }

  /** For every list of orders, every behaviour of the service and every cap: the budget and the stopping rules hold. */
  lemma {:induction false} RunKeepsRules(orders: seq<Order>, apply: bool, cap: Cap)
    ensures Budget(Run(orders, apply, cap), apply, cap)
    ensures Stopping(Run(orders, apply, cap), apply, cap)
  {
    if orders != [] {
      var init := orders[..|orders| - 1];
      RunKeepsRules(init, apply, cap);
      var s := Run(init, apply, cap);
      if !s.stopped {
        ProcessKeepsBudget(s, orders[|orders| - 1], apply, cap);
        ProcessKeepsStopping(s, orders[|orders| - 1], apply, cap);
      }
    }
  }

  /** The lines are those of the first orders, in order; unless the run stopped, of all of them. */
  lemma {:induction false} LinesFollowOrders(orders: seq<Order>, apply: bool, cap: Cap)
    ensures var s := Run(orders, apply, cap);
            && |s.lines| <= |orders| && (!s.stopped ==> |s.lines| == |orders|)
            && forall i :: 0 <= i < |s.lines| ==> s.lines[i].number == orders[i].number
  {
    if orders != [] {
      LinesFollowOrders(orders[..|orders| - 1], apply, cap);
    }
  }

  /** The first attempt that does not throw, of at most three, gives this answer. */
  predicate Answers<T(==)>(call: nat -> Attempt<T>, value: T) {
    || call(0) == Returned(value)
    || (call(0) == Threw && (call(1) == Returned(value) || (call(1) == Threw && call(2) == Returned(value))))
  }

  lemma AnswersOf<T>(call: nat -> Attempt<T>, value: T)
    ensures Retried(call, 1).0 == Returned(value) <==> Answers(call, value)
  {
    RetriedMeaning(call);
  }

  /** What each outcome says about the order and the service. */
  lemma OutcomeMeaning(s: State, o: Order, apply: bool, cap: Cap)
    ensures var outcome := Examine(s, o, apply, cap).0;
            var due := apply && Answers(o.preview, AddressRepairable);
            var full := cap.Limit? && s.written as real >= cap.max;
            && (outcome == Ok <==> Answers(o.preview, AddressOk))
            && (outcome == WouldRepair <==> !apply && Answers(o.preview, AddressRepairable))
            && (outcome == Skipped <==> Answers(o.preview, AddressSkip) || (due && full))
            && (outcome == Repaired <==> due && !full && Answers(o.resync, true))
            && Examine(s, o, apply, cap).1 == s.written + if due && !full then 1 else 0
  {
    hide Retried;
    hide Answers;
    AnswersOf(o.preview, AddressOk);
    AnswersOf(o.preview, AddressSkip);
    AnswersOf(o.preview, AddressRepairable);
    AnswersOf(o.resync, true);
  }

  /** Every line tells the outcome of its order, examined in the state the run had reached. */
  lemma {:induction false} LinesTellOutcomes(orders: seq<Order>, apply: bool, cap: Cap, i: nat)
    requires i < |Run(orders, apply, cap).lines|
    ensures i < |orders| && Run(orders, apply, cap).lines[i].outcome == Examine(Run(orders[..i], apply, cap), orders[i], apply, cap).0
  {
    hide Examine;
    hide Process;
    hide Run;
    LinesFollowOrders(orders, apply, cap);
    if orders != [] {
      var n := |orders| - 1;
      var init, s := orders[..n], Run(orders[..n], apply, cap);
      LinesFollowOrders(init, apply, cap);
      RunLast(orders, apply, cap);
      if !s.stopped { ProcessAddsLine(s, orders[n], apply, cap); }
      if i < |s.lines| {
        LinesTellOutcomes(init, apply, cap, i);
        assert init[..i] == orders[..i] && init[i] == orders[i];
      }
    }
  }

  lemma RunLast(orders: seq<Order>, apply: bool, cap: Cap)
    requires orders != []
    ensures var n := |orders| - 1;
            var s := Run(orders[..n], apply, cap);
            Run(orders, apply, cap) == if s.stopped then s else Process(s, orders[n], apply, cap)
  {
  }

  lemma ProcessAddsLine(s: State, o: Order, apply: bool, cap: Cap)
    ensures Process(s, o, apply, cap).lines == s.lines + [Line(o.number, Examine(s, o, apply, cap).0)]
  {
  }

  /** The calls an order makes: its preview until it answers, and a re-sync until that answers if it is attempted. */
  function CallsOf(s: State, o: Order, apply: bool, cap: Cap): (nat, nat) {
    var due := apply && Answers(o.preview, AddressRepairable) && !Reached(s.written, cap);
    (AttemptsOf(o.preview), if due then AttemptsOf(o.resync) else 0)
  }

  /** Three attempts at most, and none after one that does not throw. */
  function AttemptsOf<T(==)>(call: nat -> Attempt<T>): nat {
    if call(0) != Threw then 1 else if call(1) != Threw then 2 else 3
  }

  lemma AttemptsAre<T>(call: nat -> Attempt<T>)
    ensures Retried(call, 1).1 == AttemptsOf(call)
  {
    assert Retried(call, 2) == if call(1).Returned? then (call(1), 2) else Retried(call, 3);
    assert Retried(call, 3) == (call(2), 3);
  }

  lemma CallsAre(s: State, o: Order, apply: bool, cap: Cap)
    ensures var (_, written, n, m) := Examine(s, o, apply, cap); (n, m) == CallsOf(s, o, apply, cap)
  {
    hide Retried;
    hide Answers;
    hide Reached;
    AnswersOf(o.preview, AddressRepairable);
    AttemptsAre(o.preview);
    AttemptsAre(o.resync);
  }

  /** The calls of all these orders, each in the state the run had reached. */
  function AllCalls(orders: seq<Order>, apply: bool, cap: Cap): (nat, nat) {
    if orders == [] then (0, 0) else
    var init := orders[..|orders| - 1];
    var (previews, resyncs) := AllCalls(init, apply, cap);
    var (p, r) := CallsOf(Run(init, apply, cap), orders[|orders| - 1], apply, cap);
    (previews + p, resyncs + r)
  }

  /** The calls of a run are those of the orders that have lines. */
  lemma {:induction false} CallsAddUp(orders: seq<Order>, apply: bool, cap: Cap)
    ensures var s := Run(orders, apply, cap);
            |s.lines| <= |orders| && s.previewCalls == AllCalls(orders[..|s.lines|], apply, cap).0
            && s.resyncCalls == AllCalls(orders[..|s.lines|], apply, cap).1
  {
    LineCount(orders, apply, cap);
    if orders != [] {
      hide *;
      var init := orders[..|orders| - 1];
      CallsAddUp(init, apply, cap);
      if Run(init, apply, cap).stopped {
        StoppedCalls(orders, apply, cap);
      } else {
        LineCount(init, apply, cap);
        assert init[..|init|] == init;
        MoreCalls(orders, apply, cap);
        NotStoppedLines(orders, apply, cap);
        assert orders[..|orders|] == orders;
      }
    }
  }

  lemma NotStoppedLines(orders: seq<Order>, apply: bool, cap: Cap)
    requires orders != [] && !Run(orders[..|orders| - 1], apply, cap).stopped
    ensures |Run(orders, apply, cap).lines| == |orders|
  {
    LineCount(orders[..|orders| - 1], apply, cap);
  }

  lemma StoppedCalls(orders: seq<Order>, apply: bool, cap: Cap)
    requires orders != [] && Run(orders[..|orders| - 1], apply, cap).stopped
    ensures var init, s := orders[..|orders| - 1], Run(orders[..|orders| - 1], apply, cap);
            && Run(orders, apply, cap) == s && |s.lines| <= |init| && orders[..|s.lines|] == init[..|s.lines|]
  {
    LineCount(orders[..|orders| - 1], apply, cap);
  }

  lemma MoreCalls(orders: seq<Order>, apply: bool, cap: Cap)
    requires orders != [] && !Run(orders[..|orders| - 1], apply, cap).stopped
    requires var init, s := orders[..|orders| - 1], Run(orders[..|orders| - 1], apply, cap);
             s.previewCalls == AllCalls(init, apply, cap).0 && s.resyncCalls == AllCalls(init, apply, cap).1
    ensures var t := Run(orders, apply, cap);
            t.previewCalls == AllCalls(orders, apply, cap).0 && t.resyncCalls == AllCalls(orders, apply, cap).1
  {
    hide *;
    RunLast(orders, apply, cap);
    ProcessAddsCalls(Run(orders[..|orders| - 1], apply, cap), orders[|orders| - 1], apply, cap);
    LastCalls(orders, apply, cap);
  }

  lemma LastCalls(orders: seq<Order>, apply: bool, cap: Cap)
    requires orders != []
    ensures var init := orders[..|orders| - 1];
            var (before, more) := (AllCalls(init, apply, cap), CallsOf(Run(init, apply, cap), orders[|orders| - 1], apply, cap));
            AllCalls(orders, apply, cap) == (before.0 + more.0, before.1 + more.1)
  {
    hide CallsOf;
    hide Run;
  }

  lemma LineCount(orders: seq<Order>, apply: bool, cap: Cap)
    ensures var s := Run(orders, apply, cap); |s.lines| <= |orders| && (!s.stopped ==> |s.lines| == |orders|)
  {
    LinesFollowOrders(orders, apply, cap);
  }

  lemma ProcessAddsCalls(s: State, o: Order, apply: bool, cap: Cap)
    ensures var t, calls := Process(s, o, apply, cap), CallsOf(s, o, apply, cap);
            |t.lines| == |s.lines| + 1 && t.previewCalls == s.previewCalls + calls.0 && t.resyncCalls == s.resyncCalls + calls.1
  {
    hide Examine;
    hide CallsOf;
    CallsAre(s, o, apply, cap);
  }

  // ---------- the cap ----------

  predicate IsWhole(x: real) { x == x.Floor as real }

  function Ceiling(x: real): int { if IsWhole(x) then x.Floor else x.Floor + 1 }

  /** An order whose preview asks for a repair and whose re-sync succeeds, both at once. */
  predicate Repairable(o: Order) { o.preview(0) == Returned(AddressRepairable) && o.resync(0) == Returned(true) }

  /** With nothing but repairable orders, an apply run writes as many as the cap rounded up, or all of them without a number. */
  lemma {:induction false} RepairableRun(orders: seq<Order>, cap: Cap)
    requires WellFormed(cap) && forall i :: 0 <= i < |orders| ==> Repairable(orders[i])
    ensures var s := Run(orders, true, cap);
            && !s.stopped && s.failures == 0
            && s.written == if cap.Limit? && Ceiling(cap.max) < |orders| then Ceiling(cap.max) else |orders|
  {
    if orders != [] {
      RepairableRun(orders[..|orders| - 1], cap);
      var o := orders[|orders| - 1];
      assert Repairable(o);
      assert Retried(o.preview, 1) == (Returned(AddressRepairable), 1) && Retried(o.resync, 1) == (Returned(true), 1);
    }
  }

  ghost predicate CapIsKept(cap: Cap) {
    forall orders, apply :: cap.Limit? ==> Run(orders, apply, cap).written as real <= cap.max
  }

  /** No run writes more than the cap rounded up. */
  lemma {:induction false} WrittenIsBelowCeiling(orders: seq<Order>, apply: bool, cap: Cap)
    requires WellFormed(cap) && cap.Limit?
    ensures Run(orders, apply, cap).written <= Ceiling(cap.max)
  {
    RunKeepsRules(orders, apply, cap);
  }

  /** So the cap is kept by every run exactly when it is a whole number; a fraction lets one more order be written. */
  lemma CapIsKeptIffWhole(cap: Cap)
    requires WellFormed(cap) && cap.Limit?
    ensures CapIsKept(cap) <==> IsWhole(cap.max)
  {
    if IsWhole(cap.max) {
      forall orders, apply
        ensures Run(orders, apply, cap).written as real <= cap.max
      {
        WrittenIsBelowCeiling(orders, apply, cap);
      }
    } else {
      var o := Order("", _ => Returned(AddressRepairable), _ => Returned(true));
      var orders := seq(Ceiling(cap.max), _ => o);
      RepairableRun(orders, cap);
      assert Run(orders, true, cap).written as real > cap.max;
    }
  }

  /** A cap that is not a number is no cap: any number of repairable orders is written. */
  lemma NotANumberIsNoCap(orders: seq<Order>)
    requires forall i :: 0 <= i < |orders| ==> Repairable(orders[i])
    ensures Run(orders, true, NotANumber).written == |orders|
  {
    RepairableRun(orders, NotANumber);
  }
}
