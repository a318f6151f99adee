/**
 * The dialog that assigns leads: the salespeople ticked, in order, and the manual choice for each lead ("" is none). What the
 * screen has at the moment of an action, such as the team that may have been fetched again, comes with the action.
 */
module AssignDialog {
  import opened Text
  import opened RoundRobin

  datatype Mode = Manual | RoundRobin

  datatype State = State(mode: Mode, chosen: seq<string>, manual: map<string, string>)

  datatype Op =
    | Toggle(id: string, checked: bool)
    | SelectAll(team: seq<string>)
    | ClearPeople
    | Choose(lead: string, person: string)
    | AllTo(leads: seq<string>, person: string)
    | SplitEvenly(leads: seq<string>)
    | ClearChoices
    | SetMode(m: Mode)
    | Reopen

  const OPENED := State(RoundRobin, [], map[])

  function Remove(s: seq<string>, x: string): (r: seq<string>)
    ensures forall y :: y in r <==> y in s && y != x
    ensures Distinct(s) ==> Distinct(r)
  {
    if s == [] then [] else
    var n := |s| - 1;
    var init := Remove(s[..n], x);
    assert forall y :: y in s <==> y in s[..n] || y == s[n];
    assert Distinct(s) ==> s[n] !in s[..n];
    if s[n] == x then init else init + [s[n]]
  }

  /** `Object.fromEntries` of a plan: a later entry for the same lead wins. */
  function FromEntries(plan: seq<Planned>): map<string, string> {
    if plan == [] then map[] else FromEntries(plan[..|plan| - 1])[plan[|plan| - 1].lead := plan[|plan| - 1].person]
  }

  function AllOf(leads: seq<string>, person: string): map<string, string> {
    map lead | lead in leads :: person
  }

  /** What the screen offers: a team without repetitions to tick, and ticked people to choose. */
  predicate Offered(s: State, op: Op) {
    match op
    case SelectAll(team) => Distinct(team)
    case Choose(_, person) => person == "" || person in s.chosen
    case AllTo(_, person) => person in s.chosen
    case SplitEvenly(_) => s.chosen != []
    case _ => true
  }

  function Step(s: State, op: Op): State {
    match op
    case Toggle(id, checked) =>
      if checked then s.(chosen := if id in s.chosen then s.chosen else s.chosen + [id])
      else
        s.(chosen := Remove(s.chosen, id),
           manual := map lead | lead in s.manual :: if s.manual[lead] == id then "" else s.manual[lead])
    case SelectAll(team) => s.(chosen := team)
    case ClearPeople => s.(chosen := [], manual := map[])
    case Choose(lead, person) => s.(manual := s.manual[lead := person])
    case AllTo(leads, person) => if person == "" then s else s.(manual := AllOf(leads, person))
    case SplitEvenly(leads) => s.(manual := FromEntries(Plan(leads, s.chosen)))
    case ClearChoices => s.(manual := map[])
    case SetMode(m) => s.(mode := m)
    case Reopen => OPENED
  }

  /** What is chosen for a lead, "" for nobody. */
  function ChoiceFor(s: State, lead: string): string { if lead in s.manual then s.manual[lead] else "" }

  /** What an action does to the list of ticked people. */
  lemma TickingMeans(s: State, op: Op)
    ensures op.Toggle? && op.checked ==>
              Step(s, op).chosen == s.chosen + (if op.id in s.chosen then [] else [op.id]) && Step(s, op).manual == s.manual
    ensures op.Toggle? && !op.checked && Distinct(s.chosen) ==>
              && (forall a, b :: s.chosen == a + [op.id] + b ==> Step(s, op).chosen == a + b)
              && (op.id !in s.chosen ==> Step(s, op).chosen == s.chosen)
    ensures op.SelectAll? ==> Step(s, op).chosen == op.team && Step(s, op).manual == s.manual
    ensures op.ClearPeople? || op.Reopen? ==> Step(s, op).chosen == [] && Step(s, op).manual == map[]
    ensures op.Choose? || op.AllTo? || op.SplitEvenly? || op.ClearChoices? || op.SetMode? ==> Step(s, op).chosen == s.chosen
    ensures Step(s, op).mode == if op.SetMode? then op.m else if op.Reopen? then RoundRobin else s.mode
  {
    if op.Toggle? && !op.checked && Distinct(s.chosen) {
      forall a, b | s.chosen == a + [op.id] + b
        ensures Step(s, op).chosen == a + b
      {
        OnlyOnce(s.chosen, a, op.id, b);
        RemovedFrom(a, op.id, b);
      }
      if op.id !in s.chosen { NothingRemoved(s.chosen, op.id); }
    }
    assert s.chosen + [] == s.chosen;
  }

  lemma OnlyOnce(s: seq<string>, a: seq<string>, x: string, b: seq<string>)
    requires Distinct(s) && s == a + [x] + b
    ensures x !in a && x !in b
  {
    assert s[|a|] == x;
    assert forall i :: 0 <= i < |a| ==> s[i] == a[i];
    assert forall i :: 0 <= i < |b| ==> s[|a| + 1 + i] == b[i];
  }

  lemma {:induction false} NothingRemoved(s: seq<string>, x: string)
    requires x !in s
    ensures Remove(s, x) == s
  {
    if s != [] {
      NothingRemoved(s[..|s| - 1], x);
      assert s == s[..|s| - 1] + [s[|s| - 1]];
    }
  }

  lemma {:induction false} RemovedFrom(a: seq<string>, x: string, b: seq<string>)
    requires x !in a && x !in b
    ensures Remove(a + [x] + b, x) == a + b
  {
    var s, n := a + [x] + b, |a| + |b|;
    if b == [] {
      assert s[..n] == a && s[n] == x && a + b == a;
      NothingRemoved(a, x);
    } else {
      var m := |b| - 1;
      assert s[..n] == a + [x] + b[..m] && s[n] == b[m];
      RemovedFrom(a, x, b[..m]);
      assert a + b[..m] + [b[m]] == a + b;
    }
  }

  /** What an action does to the choice for any lead. */
  lemma ChoosingMeans(s: State, op: Op, lead: string)
    ensures var (before, after) := (ChoiceFor(s, lead), ChoiceFor(Step(s, op), lead));
            match op
            case Toggle(id, checked) => after == if !checked && before == id then "" else before
            case Choose(l, person) => after == if l == lead then person else before
            case AllTo(leads, person) => after == if person == "" then before else if lead in leads then person else ""
            case ClearPeople => after == ""
            case ClearChoices => after == ""
            case Reopen => after == ""
            case SplitEvenly(leads) => after != "" ==> lead in leads && after in s.chosen
            case _ => after == before
  {
    if op.SplitEvenly? {
      EntriesArePeople(op.leads, s.chosen);
      EntriesAreLeads(op.leads, s.chosen);
    }
  }

  lemma {:induction false} EntriesAreLeads(leads: seq<string>, people: seq<string>)
    ensures forall lead :: lead in FromEntries(Plan(leads, people)) ==> lead in leads
  {
    var plan := Plan(leads, people);
    if plan != [] {
      var n := |leads| - 1;
      assert plan[..n] == Plan(leads[..n], people);
      EntriesAreLeads(leads[..n], people);
    }
  }

  /** Whether somebody who is ticked has been chosen for a lead. */
  predicate HasChoice(s: State, lead: string) { lead in s.manual && s.manual[lead] != "" && s.manual[lead] in s.chosen }

  function ManualPlan(s: State, leads: seq<string>): seq<Planned> {
    if leads == [] then [] else
    var id := leads[|leads| - 1];
    ManualPlan(s, leads[..|leads| - 1]) + if HasChoice(s, id) then [Planned(id, s.manual[id])] else []
  }

  function PlanOf(s: State, leads: seq<string>): seq<Planned> {
    if s.mode == RoundRobin then Plan(leads, s.chosen) else ManualPlan(s, leads)
  }

  // ---------- every reachable state ----------

  ghost predicate Run(ops: seq<Op>) {
    ops == [] || (Run(ops[..|ops| - 1]) && Offered(After(ops[..|ops| - 1]), ops[|ops| - 1]))
  }

  function After(ops: seq<Op>): State {
    if ops == [] then OPENED else Step(After(ops[..|ops| - 1]), ops[|ops| - 1])
  }

  /** Every manual choice is empty or someone ticked. */
  ghost predicate ChoicesAreTicked(s: State) {
    forall lead :: lead in s.manual ==> s.manual[lead] == "" || s.manual[lead] in s.chosen
  }

  lemma {:induction false} EntriesArePeople(leads: seq<string>, people: seq<string>)
    ensures forall lead :: lead in FromEntries(Plan(leads, people)) ==> FromEntries(Plan(leads, people))[lead] in people
  {
    var plan := Plan(leads, people);
    if plan != [] {
      var n := |leads| - 1;
      assert plan[..n] == Plan(leads[..n], people);
      EntriesArePeople(leads[..n], people);
    }
  }

  /**
   * Every action keeps the ticked people distinct and the manual choices among them, with one exception: "Select all" of a team
   * that has lost somebody who is still chosen.
   */
  lemma StepKeepsInv(s: State, op: Op)
    requires Distinct(s.chosen) && Offered(s, op)
    ensures Distinct(Step(s, op).chosen)
    ensures ChoicesAreTicked(s) ==>
              (ChoicesAreTicked(Step(s, op)) <==>
               (op.SelectAll? ==> forall lead :: lead in s.manual ==> s.manual[lead] == "" || s.manual[lead] in op.team))
  {
    if op.SplitEvenly? {
      EntriesArePeople(op.leads, s.chosen);
    }
  }

  /** The exception can be reached: the choice stays, but the plan leaves the lead out. */
  lemma LostChoice(lead: string, person: string, team: seq<string>)
    requires person != "" && person !in team && Distinct(team)
    ensures var ops := [SetMode(Manual), Toggle(person, true), Choose(lead, person), SelectAll(team)];
            Run(ops) && !ChoicesAreTicked(After(ops)) && PlanOf(After(ops), [lead]) == []
  {
    FourOps(SetMode(Manual), Toggle(person, true), Choose(lead, person), SelectAll(team));
    hide Run;
    hide After;
    var s := State(Manual, [person], map[lead := person]);
    assert Step(Step(OPENED, SetMode(Manual)), Toggle(person, true)) == State(Manual, [person], map[]);
    assert Step(State(Manual, [person], map[]), Choose(lead, person)) == s;
    LeftOut(State(Manual, team, map[lead := person]), lead);
  }

  lemma LeftOut(s: State, lead: string)
    requires s.mode == Manual && !HasChoice(s, lead)
    ensures PlanOf(s, [lead]) == []
  {
    var leads := [lead];
    assert leads[..|leads| - 1] == [] && ManualPlan(s, []) == [];
    assert ManualPlan(s, leads) == ManualPlan(s, leads[..|leads| - 1]) + [];
  }

  lemma FourOps(a: Op, b: Op, c: Op, d: Op)
    ensures var (s, t) := (Step(OPENED, a), Step(Step(OPENED, a), b));
            && (Run([a, b, c, d]) <==> Offered(OPENED, a) && Offered(s, b) && Offered(t, c) && Offered(Step(t, c), d))
            && After([a, b, c, d]) == Step(Step(t, c), d)
  {
    OneMoreOp([], a);
    OneMoreOp([a], b);
    OneMoreOp([a, b], c);
    OneMoreOp([a, b, c], d);
    hide Step;
    hide Offered;
    assert [] + [a] == [a] && [a] + [b] == [a, b] && [a, b] + [c] == [a, b, c] && [a, b, c] + [d] == [a, b, c, d];
    assert Run([]) && After([]) == OPENED;
    hide Run;
    hide After;
  }

  lemma OneMoreOp(ops: seq<Op>, op: Op)
    ensures Run(ops + [op]) <==> Run(ops) && Offered(After(ops), op)
    ensures After(ops + [op]) == Step(After(ops), op)
  {
    assert (ops + [op])[..|ops|] == ops;
  }

  lemma {:induction false} InvHolds(ops: seq<Op>)
    requires Run(ops)
    ensures Distinct(After(ops).chosen)
  {
    if ops != [] {
      InvHolds(ops[..|ops| - 1]);
      StepKeepsInv(After(ops[..|ops| - 1]), ops[|ops| - 1]);
    }
  }

  /** How many of the selected leads are left without a choice. */
  function Unchosen(s: State, leads: seq<string>): (n: nat)
    ensures n <= |leads|
  {
    if leads == [] then 0 else
    Unchosen(s, leads[..|leads| - 1]) + if HasChoice(s, leads[|leads| - 1]) then 0 else 1
  }

  /** The manual plan has one entry, with the choice that was made, for each selected lead with a choice, and no other. */
  lemma {:induction false} ManualPlanIsComplete(s: State, leads: seq<string>)
    ensures |ManualPlan(s, leads)| + Unchosen(s, leads) == |leads|
    ensures forall i :: 0 <= i < |ManualPlan(s, leads)| ==>
              var p := ManualPlan(s, leads)[i]; p.lead in leads && HasChoice(s, p.lead) && s.manual[p.lead] == p.person
    ensures forall lead :: lead in leads && HasChoice(s, lead) ==> Planned(lead, s.manual[lead]) in ManualPlan(s, leads)
  {
    if leads != [] {
      var n := |leads| - 1;
      ManualPlanIsComplete(s, leads[..n]);
      assert forall lead :: lead in leads <==> lead in leads[..n] || lead == leads[n];
    }
  }

  /** `unassignedManual` */
  function Unassigned(s: State, leads: seq<string>): nat { if s.mode == Manual then Unchosen(s, leads) else 0 }

  /**
   * In every reachable state nobody is ticked twice, the plan names only ticked people, and assigned plus unassigned is the
   * selection (without anybody ticked the round robin has no plan at all).
   */
  lemma ReachableDialogIsSound(ops: seq<Op>, leads: seq<string>)
    requires Run(ops)
    ensures var s := After(ops);
            && Distinct(s.chosen)
            && (forall i :: 0 <= i < |PlanOf(s, leads)| ==> PlanOf(s, leads)[i].person in s.chosen)
            && |PlanOf(s, leads)| + Unassigned(s, leads) == if s.mode == RoundRobin && s.chosen == [] then 0 else |leads|
  {
    InvHolds(ops);
    ManualPlanIsComplete(After(ops), leads);
  }

  lemma {:induction false} EntriesOfPlan(leads: seq<string>, people: seq<string>)
    requires Distinct(leads) && people != []
    ensures var entries := FromEntries(Plan(leads, people));
            forall i :: 0 <= i < |leads| ==> leads[i] in entries && entries[leads[i]] == people[i % |people|]
  {
    var plan := Plan(leads, people);
    if plan != [] {
      var n := |leads| - 1;
      assert plan[..n] == Plan(leads[..n], people);
      EntriesOfPlan(leads[..n], people);
    }
  }

  lemma {:induction false} ManualPlanFollows(s: State, leads: seq<string>, people: seq<string>)
    requires people != [] && s.chosen == people && "" !in people
    requires forall i :: 0 <= i < |leads| ==> leads[i] in s.manual && s.manual[leads[i]] == people[i % |people|]
    ensures ManualPlan(s, leads) == Plan(leads, people)
  {
    hide Plan;
    if leads != [] {
      var n := |leads| - 1;
      assert forall i :: 0 <= i < n ==> leads[..n][i] == leads[i];
      ManualPlanFollows(s, leads[..n], people);
      LastManual(s, leads, people[n % |people|]);
      PlanLast(leads, people);
    }
  }

  lemma LastManual(s: State, leads: seq<string>, person: string)
    requires leads != [] && person != "" && person in s.chosen
    requires leads[|leads| - 1] in s.manual && s.manual[leads[|leads| - 1]] == person
    ensures ManualPlan(s, leads) == ManualPlan(s, leads[..|leads| - 1]) + [Planned(leads[|leads| - 1], person)]
  {
  }

  lemma PlanLast(leads: seq<string>, people: seq<string>)
    requires leads != [] && people != []
    ensures var n := |leads| - 1; Plan(leads, people) == Plan(leads[..n], people) + [Planned(leads[n], people[n % |people|])]
  {
  }

  /** "Split evenly" fills the manual choices with exactly the round-robin plan. */
  lemma SplitIsRoundRobin(s: State, leads: seq<string>)
    requires s.chosen != [] && "" !in s.chosen && Distinct(leads)
    ensures ManualPlan(Step(s, SplitEvenly(leads)), leads) == Plan(leads, s.chosen)
  {
    EntriesOfPlan(leads, s.chosen);
    ManualPlanFollows(Step(s, SplitEvenly(leads)), leads, s.chosen);
  }

  // ---------- the component ----------

  class Dialog {
    var mode: Mode
    var chosen: seq<string>
    var manual: map<string, string>

    ghost function View(): State
      reads this
    {
      State(mode, chosen, manual)
    }

    constructor ()
      ensures View() == OPENED
    {
      mode, chosen, manual := RoundRobin, [], map[];
    }

    method OnToggle(id: string, checked: bool)
      modifies this
      ensures View() == Step(old(View()), Toggle(id, checked))
    {
      if checked {
        if id !in chosen {
          chosen := chosen + [id];
        }
      } else {
        chosen := Remove(chosen, id);
        manual := map lead | lead in manual :: if manual[lead] == id then "" else manual[lead];
      }
    }

    method OnSelectAll(team: seq<string>)
      modifies this
      ensures View() == Step(old(View()), SelectAll(team))
    {
      chosen := team;
    }

    method OnClearPeople()
      modifies this
      ensures View() == Step(old(View()), ClearPeople)
    {
      chosen := [];
      manual := map[];
    }

    method OnChoose(lead: string, person: string)
      modifies this
      ensures View() == Step(old(View()), Choose(lead, person))
    {
      manual := manual[lead := person];
    }

    method OnAllTo(leads: seq<string>, person: string)
      modifies this
      ensures View() == Step(old(View()), AllTo(leads, person))
    {
      if person != "" {
        manual := AllOf(leads, person);
      }
    }

    method OnSplitEvenly(leads: seq<string>)
      modifies this
      ensures View() == Step(old(View()), SplitEvenly(leads))
    {
      manual := FromEntries(Plan(leads, chosen));
    }

    /** What the dialog shows: a row per ticked person, in their order, with the leads they get, and how many leads get nobody. */
    method Summary(leads: seq<string>) returns (rows: seq<Row>, unassigned: nat)
      requires Distinct(chosen)
      ensures Tally(rows, PlanOf(View(), leads))
      ensures |rows| == |chosen| && forall i :: 0 <= i < |chosen| ==> rows[i].person == chosen[i]
      ensures unassigned == Unassigned(View(), leads)
      ensures Total(rows) + unassigned == if mode == RoundRobin && chosen == [] then 0 else |leads|
    {
      var s := State(mode, chosen, manual);
      var plan := PlanOf(s, leads);
      ManualPlanIsComplete(s, leads);
      rows := CountByPerson(plan, chosen);
      unassigned := if mode == Manual then |leads| - |plan| else 0;
    }
  }
}
