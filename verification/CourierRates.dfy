/**
 * The courier-rate lookup: inputs are edited, their key is debounced, requests go out for settled inputs and answers
 * come back in any order. The hook's outputs are computed from this state exactly as the source does.
 */
module CourierRates {
  import opened Text
  import opened RateKey
  import D = DebouncedValue

  const RATE_DEBOUNCE_MS: nat := 600

  /** The arguments a rate query is made with. */
  datatype QueryArgs = QueryArgs(pincode: string, cod: bool, weightKg: Num, dims: Option<Dimensions>, value: Option<Num>)

  datatype KeyPart = Word(s: string) | Flag(b: bool) | Figure(n: Num) | Null

  type QueryKey = seq<KeyPart>

  /** The flat list that data, failures and requests in flight are filed under; what is missing is null. */
  function QueryKeyOf(args: QueryArgs): QueryKey {
    [Word("delivery"), Word("serviceability"), Word(args.pincode), Flag(args.cod), Figure(args.weightKg)] +
    (match args.dims case Some(d) => [Figure(d.length), Figure(d.breadth), Figure(d.height)] case None => [Null, Null, Null]) +
    [match args.value case Some(v) => Figure(v) case None => Null]
  }

  /** Though it is flat, no two argument lists have the same key. */
  lemma QueryKeysAreInjective(a: QueryArgs, b: QueryArgs)
    ensures QueryKeyOf(a) == QueryKeyOf(b) <==> a == b
  {
    var k, l := QueryKeyOf(a), QueryKeyOf(b);
    if k == l {
      assert k[2] == l[2] && k[3] == l[3] && k[4] == l[4];
      assert k[5] == l[5] && k[6] == l[6] && k[7] == l[7] && k[8] == l[8];
    }
  }

  datatype State<R> = State(
    inputs: Option<RateInputs>,
    enabled: bool,
    debounce: D.State<Option<string>>,
    fetching: multiset<QueryKey>,
    data: map<QueryKey, R>,
    failed: set<QueryKey>,
    requests: seq<QueryArgs>)

  datatype Outcome<R> = Success(result: R) | Failure

  datatype Event<R> =
    | Edit(inputs: Option<RateInputs>, enabled: bool, at: int)
    | Timer(at: int)
    | Fetch(refresh: bool)
    | Answer(args: QueryArgs, outcome: Outcome<R>)

  function KeyOf(inputs: Option<RateInputs>): Option<string> {
    match inputs case Some(i) => Some(Key(i)) case None => None
  }

  function ArgsOf(settled: Option<RateInputs>): QueryArgs {
    match settled
    case Some(i) => QueryArgs(i.pincode, i.cod, i.weightKg, i.dims, Some(i.value))
    case None => QueryArgs("", false, Zero(), None, None)
  }

  // ---------- what the hook returns ----------

  function SettledInputs<R>(s: State<R>): Option<RateInputs> {
    if s.inputs.Some? && s.debounce.debounced == KeyOf(s.inputs) then s.inputs else None
  }

  predicate Waiting<R>(s: State<R>) { s.enabled && s.inputs.Some? && s.debounce.debounced != KeyOf(s.inputs) }

  /** The query key the hook is subscribed to. */
  function KeyInUse<R>(s: State<R>): QueryKey { QueryKeyOf(ArgsOf(SettledInputs(s))) }

  predicate Calculating<R>(s: State<R>) {
    s.enabled && s.inputs.Some? && (Waiting(s) || KeyInUse(s) in s.fetching)
  }

  function Result<R>(s: State<R>): Option<R> {
    if SettledInputs(s).Some? && !Waiting(s) && KeyInUse(s) in s.data then Some(s.data[KeyInUse(s)]) else None
  }

  predicate Failed<R>(s: State<R>) {
    SettledInputs(s).Some? && KeyInUse(s) in s.failed && KeyInUse(s) !in s.fetching
  }

  // ---------- runs ----------

  function Initial<R>(inputs: Option<RateInputs>, enabled: bool, at: int): State<R> {
    State(inputs, enabled, D.Mount(KeyOf(inputs), RATE_DEBOUNCE_MS, at), multiset{}, map[], {}, [])
  }

  predicate Possible<R>(s: State<R>, e: Event<R>) {
    match e
    case Edit(_, _, _) => true
    case Timer(at) => D.CanFire(s.debounce, at)
    case Fetch(refresh) => refresh || (s.enabled && SettledInputs(s).Some?)
    case Answer(args, _) => QueryKeyOf(args) in s.fetching
  }

  function Step<R>(s: State<R>, e: Event<R>): State<R>
    requires Possible(s, e)
  {
    match e
    case Edit(inputs, enabled, at) =>
      s.(inputs := inputs, enabled := enabled, debounce := D.Render(s.debounce, KeyOf(inputs), RATE_DEBOUNCE_MS, at))
    case Timer(at) => s.(debounce := D.Fire(s.debounce, at))
    case Fetch(_) =>
      var args := ArgsOf(SettledInputs(s));
      s.(fetching := s.fetching + multiset{QueryKeyOf(args)}, requests := s.requests + [args])
    case Answer(args, outcome) =>
      var key := QueryKeyOf(args);
      var t := s.(fetching := s.fetching - multiset{key});
      match outcome
      case Success(result) => t.(data := s.data[key := result], failed := s.failed - {key})
      case Failure => t.(failed := s.failed + {key})
  }

  ghost predicate Run<R(!new)>(inputs: Option<RateInputs>, enabled: bool, at: int, es: seq<Event<R>>)
    decreases |es|, 0
  {
    es == [] || (Run(inputs, enabled, at, es[..|es| - 1]) && Possible(After(inputs, enabled, at, es[..|es| - 1]), es[|es| - 1]))
  }

  ghost function After<R(!new)>(inputs: Option<RateInputs>, enabled: bool, at: int, es: seq<Event<R>>): State<R>
    requires Run(inputs, enabled, at, es)
    decreases |es|, 1
  {
    if es == [] then Initial(inputs, enabled, at) else Step(After(inputs, enabled, at, es[..|es| - 1]), es[|es| - 1])
  }

  /** The newest successful answer to a request with these arguments. */
  function NewestAnswer<R>(es: seq<Event<R>>, args: QueryArgs): Option<R> {
    if es == [] then None
    else if es[|es| - 1].Answer? && es[|es| - 1].args == args && es[|es| - 1].outcome.Success? then Some(es[|es| - 1].outcome.result)
    else NewestAnswer(es[..|es| - 1], args)
  }

  ghost predicate Inv<R(!new)>(s: State<R>, first: Option<string>, es: seq<Event<R>>) {
    && s.debounce.value == KeyOf(s.inputs)
    && D.Inv(s.debounce, first, RATE_DEBOUNCE_MS)
    && (forall a :: QueryKeyOf(a) in s.fetching ==> a in s.requests)
    && (forall a :: QueryKeyOf(a) in s.data ==> a in s.requests)
    && Filed(s, es)
  }

  /** Under the key of every argument list lies the newest answer to it. */
  ghost predicate Filed<R(!new)>(s: State<R>, es: seq<Event<R>>) {
    forall a :: NewestAnswer(es, a) == if QueryKeyOf(a) in s.data then Some(s.data[QueryKeyOf(a)]) else None
  }

  lemma {:induction false} InvHolds<R(!new)>(inputs: Option<RateInputs>, enabled: bool, at: int, es: seq<Event<R>>)
    requires Run(inputs, enabled, at, es)
    ensures Inv(After(inputs, enabled, at, es), KeyOf(inputs), es)
  {
    if es != [] {
      var init, e := es[..|es| - 1], es[|es| - 1];
      var s := After(inputs, enabled, at, init);
      InvHolds(inputs, enabled, at, init);
      assert es == init + [e];
      StepKeepsInv(s, KeyOf(inputs), init, e);
    }
  }

  lemma StepKeepsInv<R(!new)>(s: State<R>, first: Option<string>, es: seq<Event<R>>, e: Event<R>)
    requires Inv(s, first, es) && Possible(s, e)
    ensures Inv(Step(s, e), first, es + [e])
  {
    hide KeyOf;
    hide ArgsOf;
    hide NewestAnswer;
    hide D.Inv;
    hide QueryKeyOf;
    hide Filed;
    var value := if e.Edit? then KeyOf(e.inputs) else s.debounce.value;
    D.StepsKeepInv(s.debounce, first, RATE_DEBOUNCE_MS, value, if e.Edit? || e.Timer? then e.at else 0);
    StepAnswers(s, es, e);
    if e.Fetch? || e.Answer? {
      StepKeepsRequests(s, e);
    }
  }

  lemma StepKeepsRequests<R(!new)>(s: State<R>, e: Event<R>)
    requires Possible(s, e) && (e.Fetch? || e.Answer?)
    requires forall a :: QueryKeyOf(a) in s.fetching || QueryKeyOf(a) in s.data ==> a in s.requests
    ensures var t := Step(s, e);
            forall a :: QueryKeyOf(a) in t.fetching || QueryKeyOf(a) in t.data ==> a in t.requests
  {
    hide KeyOf;
    hide ArgsOf;
    hide QueryKeyOf;
    var t := Step(s, e);
    forall a | QueryKeyOf(a) in t.fetching || QueryKeyOf(a) in t.data
      ensures a in t.requests
    {
      QueryKeysAreInjective(a, if e.Answer? then e.args else ArgsOf(SettledInputs(s)));
    }
  }

  lemma StepAnswers<R(!new)>(s: State<R>, es: seq<Event<R>>, e: Event<R>)
    requires Possible(s, e) && Filed(s, es)
    ensures Filed(Step(s, e), es + [e])
  {
    hide KeyOf;
    hide ArgsOf;
    hide QueryKeyOf;
    assert (es + [e])[..|es + [e]| - 1] == es;
    if e.Answer? {
      forall a
        ensures QueryKeyOf(a) == QueryKeyOf(e.args) <==> a == e.args
      {
        QueryKeysAreInjective(a, e.args);
      }
    }
  }

  // ---------- runs told by their events ----------

  /** The inputs, and whether requests are enabled, after the newest edit. */
  function InputsAfter<R>(inputs: Option<RateInputs>, es: seq<Event<R>>): Option<RateInputs> {
    if es == [] then inputs
    else if es[|es| - 1].Edit? then es[|es| - 1].inputs
    else InputsAfter(inputs, es[..|es| - 1])
  }

  function EnabledAfter<R>(enabled: bool, es: seq<Event<R>>): bool {
    if es == [] then enabled
    else if es[|es| - 1].Edit? then es[|es| - 1].enabled
    else EnabledAfter(enabled, es[..|es| - 1])
  }

  /** When the inputs last changed. */
  function ChangedAt<R>(inputs: Option<RateInputs>, at: int, es: seq<Event<R>>): int {
    if es == [] then at else
    var init, e := es[..|es| - 1], es[|es| - 1];
    if e.Edit? && e.inputs != InputsAfter(inputs, init) then e.at else ChangedAt(inputs, at, init)
  }

  /** The inputs at the newest firing of the timer, or those of the mount. */
  function SettledAfter<R>(inputs: Option<RateInputs>, es: seq<Event<R>>): Option<RateInputs> {
    if es == [] then inputs
    else if es[|es| - 1].Timer? then InputsAfter(inputs, es[..|es| - 1])
    else SettledAfter(inputs, es[..|es| - 1])
  }

  /** The request for some inputs. */
  function RequestFor(i: RateInputs): QueryArgs {
    QueryArgs(pincode := i.pincode, cod := i.cod, weightKg := i.weightKg, dims := i.dims, value := Some(i.value))
  }

  /** How many answers a request with these arguments has had, and what the newest of them was. */
  function AnswersTo<R>(es: seq<Event<R>>, args: QueryArgs): nat {
    if es == [] then 0 else
    AnswersTo(es[..|es| - 1], args) + if es[|es| - 1].Answer? && es[|es| - 1].args == args then 1 else 0
  }

  function NewestOutcome<R>(es: seq<Event<R>>, args: QueryArgs): Option<Outcome<R>> {
    if es == [] then None
    else if es[|es| - 1].Answer? && es[|es| - 1].args == args then Some(es[|es| - 1].outcome)
    else NewestOutcome(es[..|es| - 1], args)
  }

  ghost predicate EditsTold<R(!new)>(s: State<R>, inputs: Option<RateInputs>, enabled: bool, at: int, es: seq<Event<R>>) {
    && s.inputs == InputsAfter(inputs, es) && s.enabled == EnabledAfter(enabled, es)
    && s.debounce.value == KeyOf(s.inputs) && s.debounce.debounced == KeyOf(SettledAfter(inputs, es))
    && s.debounce.since == ChangedAt(inputs, at, es)
    && (s.debounce.timer.Some? ==> s.debounce.timer.value == s.debounce.since + 600)
  }

  /** Requests are in flight until they are answered, and have failed if their newest answer was a failure. */
  ghost predicate AnswersTold<R(!new)>(s: State<R>, es: seq<Event<R>>) { forall a :: AnswerTold(s, es, a) }

  ghost predicate AnswerTold<R(!new)>(s: State<R>, es: seq<Event<R>>, a: QueryArgs) {
    && s.fetching[QueryKeyOf(a)] + AnswersTo(es, a) == multiset(s.requests)[a]
    && (QueryKeyOf(a) in s.failed <==> NewestOutcome(es, a) == Some(Failure))
  }

  lemma {:induction false} RunIsTold<R(!new)>(inputs: Option<RateInputs>, enabled: bool, at: int, es: seq<Event<R>>)
    requires Run(inputs, enabled, at, es)
    ensures EditsTold(After(inputs, enabled, at, es), inputs, enabled, at, es)
    ensures AnswersTold(After(inputs, enabled, at, es), es)
  {
    if es != [] {
      var init, e := es[..|es| - 1], es[|es| - 1];
      var s := After(inputs, enabled, at, init);
      assert es == init + [e];
      assert After(inputs, enabled, at, es) == Step(s, e);
      hide *;
      RunIsTold(inputs, enabled, at, init);
      EditIsTold(s, inputs, enabled, at, init, e);
      AnswerIsTold(s, init, e);
    }
  }

  lemma EditIsTold<R(!new)>(s: State<R>, inputs: Option<RateInputs>, enabled: bool, at: int, es: seq<Event<R>>, e: Event<R>)
    requires Possible(s, e) && EditsTold(s, inputs, enabled, at, es)
    ensures EditsTold(Step(s, e), inputs, enabled, at, es + [e])
  {
    hide KeyOf;
    hide ArgsOf;
    hide QueryKeyOf;
    assert (es + [e])[..|es|] == es;
    if e.Edit? { KeysOfInputs(e.inputs, s.inputs); }
  }

  lemma AnswerIsTold<R(!new)>(s: State<R>, es: seq<Event<R>>, e: Event<R>)
    requires Possible(s, e) && AnswersTold(s, es)
    ensures AnswersTold(Step(s, e), es + [e])
  {
    forall a
      ensures AnswerTold(Step(s, e), es + [e], a)
    {
      assert AnswerTold(s, es, a);
      hide *;
      AnswerToOne(s, es, e, a);
    }
  }

  lemma AnswerToOne<R(!new)>(s: State<R>, es: seq<Event<R>>, e: Event<R>, a: QueryArgs)
    requires Possible(s, e) && AnswerTold(s, es, a)
    ensures AnswerTold(Step(s, e), es + [e], a)
  {
    hide Step;
    hide QueryKeyOf;
    hide ArgsOf;
    hide SettledInputs;
    hide AnswersTo;
    hide NewestOutcome;
    OneMoreAnswer(es, e, a);
    StepOnKey(s, e, QueryKeyOf(a));
    if e.Answer? { QueryKeysAreInjective(e.args, a); }
    if e.Fetch? {
      QueryKeysAreInjective(ArgsOf(SettledInputs(s)), a);
      OneMoreRequest(s.requests, ArgsOf(SettledInputs(s)), a);
    }
  }

  lemma StepOnKey<R(!new)>(s: State<R>, e: Event<R>, k: QueryKey)
    requires Possible(s, e)
    ensures var t := Step(s, e);
            && t.fetching[k] == (if e.Fetch? && k == KeyInUse(s) then s.fetching[k] + 1
                                 else if e.Answer? && k == QueryKeyOf(e.args) then s.fetching[k] - 1 else s.fetching[k])
            && (k in t.failed <==> if e.Answer? && k == QueryKeyOf(e.args) then e.outcome.Failure? else k in s.failed)
            && t.requests == if e.Fetch? then s.requests + [ArgsOf(SettledInputs(s))] else s.requests
  {
    hide QueryKeyOf;
    hide ArgsOf;
    hide SettledInputs;
    hide KeyOf;
  }

  lemma OneMoreRequest(requests: seq<QueryArgs>, last: QueryArgs, a: QueryArgs)
    ensures multiset(requests + [last])[a] == multiset(requests)[a] + if last == a then 1 else 0
  {
  }

  lemma OneMoreAnswer<R(!new)>(es: seq<Event<R>>, e: Event<R>, a: QueryArgs)
    ensures var answers := e.Answer? && e.args == a;
            && AnswersTo(es + [e], a) == AnswersTo(es, a) + (if answers then 1 else 0)
            && NewestOutcome(es + [e], a) == if answers then Some(e.outcome) else NewestOutcome(es, a)
  {
    assert (es + [e])[..|es|] == es;
  }

  /**
   * What the hook returns in every run, told by its events alone. A result is shown exactly if the current inputs are those of
   * the newest firing of the timer (or of the mount) and a request for exactly these inputs has been answered: it is the newest
   * answer. Anything else shows no result, and a request that is still open or a change that has not settled says so.
   */
  lemma ShownResultIsForTheCurrentInputs<R(!new)>(inputs: Option<RateInputs>, enabled: bool, at: int, es: seq<Event<R>>)
    requires Run(inputs, enabled, at, es)
    ensures var s, now := After(inputs, enabled, at, es), InputsAfter(inputs, es);
            if now == None then s.inputs == None && Result(s) == None && !Calculating(s) && !Failed(s)
            else
              var i := now.value;
              var request := QueryArgs(pincode := i.pincode, cod := i.cod, weightKg := i.weightKg, dims := i.dims, value := Some(i.value));
              var settled, open := SettledAfter(inputs, es) == now, multiset(s.requests)[request] > AnswersTo(es, request);
              && s.inputs == now
              && Result(s) == (if settled then NewestAnswer(es, request) else None)
              && (Result(s).Some? ==> request in s.requests)
              && (Calculating(s) <==> EnabledAfter(enabled, es) && (!settled || open))
              && (Failed(s) <==> settled && NewestOutcome(es, request) == Some(Failure) && !open)
  {
    InvHolds(inputs, enabled, at, es);
    RunIsTold(inputs, enabled, at, es);
    var s, now := After(inputs, enabled, at, es), InputsAfter(inputs, es);
    hide After;
    hide QueryKeyOf;
    hide KeyOf;
    KeysOfInputs(SettledAfter(inputs, es), now);
    if now.Some? {
      assert AnswerTold(s, es, RequestFor(now.value));
    }
  }

  /** Different inputs share neither the key that is debounced nor the key their data is filed under. */
  lemma InputsAreSeparated(i: RateInputs, j: RateInputs)
    ensures Key(i) == Key(j) <==> i == j
    ensures QueryKeyOf(RequestFor(i)) == QueryKeyOf(RequestFor(j)) <==> i == j
    ensures QueryKeyOf(RequestFor(i)) != QueryKeyOf(ArgsOf(None))
  {
    KeyIsInjective(i, j);
    QueryKeysAreInjective(RequestFor(i), RequestFor(j));
    QueryKeysAreInjective(RequestFor(i), ArgsOf(None));
  }

  /**
   * Nothing stays unsettled or open for ever: 600 ms after the last change the timer can fire, which settles the inputs, and an open
   * request can be answered with anything.
   */
  lemma ChangesSettle<R(!new)>(
    inputs: Option<RateInputs>, enabled: bool, at: int, es: seq<Event<R>>, u: int, a: QueryArgs, outcome: Outcome<R>)
    requires Run(inputs, enabled, at, es)
    ensures var s := After(inputs, enabled, at, es);
            && (SettledAfter(inputs, es) != InputsAfter(inputs, es) && u >= ChangedAt(inputs, at, es) + 600 ==>
                  Possible(s, Timer(u)) && SettledAfter(inputs, es + [Timer(u)]) == InputsAfter(inputs, es + [Timer(u)]))
            && (multiset(s.requests)[a] > AnswersTo(es, a) ==> Possible(s, Answer(a, outcome)))
  {
    InvHolds(inputs, enabled, at, es);
    RunIsTold(inputs, enabled, at, es);
    var s := After(inputs, enabled, at, es);
    assert AnswerTold(s, es, a);
    assert (es + [Timer(u)])[..|es|] == es;
    hide After;
    hide QueryKeyOf;
    hide KeyOf;
    KeysOfInputs(SettledAfter(inputs, es), InputsAfter(inputs, es));
  }

  /** The inputs the screen is mounted with are settled at once, so their request need not wait. */
  lemma MountRequestsAtOnce<R(!new)>(i: RateInputs, at: int)
    ensures Run<R>(Some(i), true, at, [Fetch(false)])
    ensures After<R>(Some(i), true, at, [Fetch(false)]).requests ==
            [QueryArgs(pincode := i.pincode, cod := i.cod, weightKg := i.weightKg, dims := i.dims, value := Some(i.value))]
  {
    var es: seq<Event<R>> := [Fetch(false)];
    assert es[..0] == [];
    assert Run<R>(Some(i), true, at, es[..0]);
  }

  /** The settled inputs are those of the mount, or had been unchanged for 600 ms when some timer fired. */
  lemma {:induction false} SettledInputsWereHeld<R(!new)>(inputs: Option<RateInputs>, enabled: bool, at: int, es: seq<Event<R>>)
    returns (j: nat)
    requires Run(inputs, enabled, at, es) && SettledAfter(inputs, es) != inputs
    ensures j < |es| && es[j].Timer? && InputsAfter(inputs, es[..j]) == SettledAfter(inputs, es)
    ensures es[j].at - ChangedAt(inputs, at, es[..j]) >= 600
  {
    var n := |es| - 1;
    var init := es[..n];
    if es[n].Timer? {
      RunIsTold(inputs, enabled, at, init);
      j := n;
    } else {
      j := SettledInputsWereHeld(inputs, enabled, at, init);
      assert init[..j] == es[..j];
    }
  }

  /**
   * When a request leaves on its own, it is for exactly the current inputs, and these are the ones the screen was mounted with or
   * inputs that had stayed unchanged for 600 ms when a timer fired.
   */
  lemma RequestsWaitForTheDebounce<R(!new)>(inputs: Option<RateInputs>, enabled: bool, at: int, es: seq<Event<R>>)
    requires Run(inputs, enabled, at, es + [Fetch(false)])
    ensures Run(inputs, enabled, at, es) && EnabledAfter(enabled, es)
    ensures var s, now := After(inputs, enabled, at, es), InputsAfter(inputs, es);
            && now.Some? && var i := now.value;
            After(inputs, enabled, at, es + [Fetch(false)]).requests ==
            s.requests + [QueryArgs(pincode := i.pincode, cod := i.cod, weightKg := i.weightKg, dims := i.dims, value := Some(i.value))]
    ensures var now := InputsAfter(inputs, es);
            now == inputs || exists j :: 0 <= j < |es| && es[j].Timer? && InputsAfter(inputs, es[..j]) == now
                                         && es[j].at - ChangedAt(inputs, at, es[..j]) >= 600
  {
    var all := es + [Fetch(false)];
    assert all[..|all| - 1] == es && all[|all| - 1] == Fetch(false);
    RunIsTold(inputs, enabled, at, es);
    var s, now := After(inputs, enabled, at, es), InputsAfter(inputs, es);
    hide KeyOf;
    hide QueryKeyOf;
    hide ChangedAt;
    KeysOfInputs(SettledAfter(inputs, es), now);
    if now != inputs {
      var j := SettledInputsWereHeld(inputs, enabled, at, es);
    }
  }

  /** A request made by hand is for the settled inputs too, or for nothing at all if the inputs have not settled. */
  lemma RefreshAsksForTheSettledInputs<R(!new)>(inputs: Option<RateInputs>, enabled: bool, at: int, es: seq<Event<R>>)
    requires Run(inputs, enabled, at, es)
    ensures var s, now := After(inputs, enabled, at, es), InputsAfter(inputs, es);
            Step(s, Fetch(true)).requests ==
            s.requests + [if now.Some? && SettledAfter(inputs, es) == now then RequestFor(now.value)
                          else QueryArgs(pincode := "", cod := false, weightKg := Zero(), dims := None, value := None)]
  {
    RunIsTold(inputs, enabled, at, es);
    hide KeyOf;
    hide QueryKeyOf;
    KeysOfInputs(SettledAfter(inputs, es), InputsAfter(inputs, es));
  }

  lemma KeysOfInputs(i: Option<RateInputs>, j: Option<RateInputs>)
    ensures KeyOf(i) == KeyOf(j) <==> i == j
    ensures i.Some? ==> KeyOf(i) == Some(Key(i.value))
  {
    if i.Some? && j.Some? { KeyIsInjective(i.value, j.value); }
  }

  /** Waiting 600 ms is not needed to come back: inputs edited away and back are settled again at once. */
  lemma ReturningSettlesAtOnce<R(!new)>(s: State<R>, other: Option<RateInputs>, t: int, u: int)
    requires s.debounce.value == KeyOf(s.inputs) && SettledInputs(s).Some?
    ensures var there := Step(s, Edit(other, s.enabled, t));
            var back := Step(there, Edit(s.inputs, s.enabled, u));
            && (other != s.inputs ==> Result(there) == None)
            && SettledInputs(back) == s.inputs && Result(back) == Result(s)
  {
    if other.Some? {
      KeyIsInjective(other.value, s.inputs.value);
    }
  }
}
