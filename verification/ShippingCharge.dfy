/**
 * The shipping charge of an order: the rate of the courier the operator picked, or else of the cheapest one, passed on
 * unchanged. `show` stands for the text of a number; of the rates that are offered it is taken to be injective and free of `|`.
 */
module ShippingCharge {
  import opened Text
  import CourierRates
  import RateKey

  datatype Courier = Courier(name: Option<string>, rate: Option<real>)

  datatype Status = Serviceable | NotServiceable | Unavailable

  datatype Serviceability = Serviceability(status: Status, options: Option<seq<Courier>>)

  datatype Charge = Idle | Calculating | Rate(amount: real, courier: Option<string>) | NotAvailable

  /** `show` tells these rates apart, and none of their texts has the separator. */
  predicate ShowsRates(show: real -> string, rates: set<real>) {
    && (forall x, y :: x in rates && y in rates && show(x) == show(y) ==> x == y)
    && (forall x :: x in rates ==> '|' !in show(x))
  }

  function RatesOf(options: Option<seq<Courier>>): set<real> {
    match options case Some(list) => (set o | o in list && o.rate.Some? :: o.rate.value) case None => {}
  }

  function CourierKey(show: real -> string, o: Courier): string {
    (match o.name case Some(n) => n case None => "courier") + "|" + (match o.rate case Some(r) => show(r) case None => "")
  }

  function WithRate(options: seq<Courier>): (r: seq<Courier>)
    ensures forall o :: o in r <==> o in options && o.rate.Some?
  {
    if options == [] then [] else (if options[0].rate.Some? then [options[0]] else []) + WithRate(options[1..])
  }

  predicate AllPriced(s: seq<Courier>) { forall i :: 0 <= i < |s| ==> s[i].rate.Some? }

  predicate CheapestFirst(s: seq<Courier>)
    requires AllPriced(s)
  {
    forall i, j :: 0 <= i < j < |s| ==> s[i].rate.value <= s[j].rate.value
  }

  /** Puts a courier before the first one that is not cheaper, which keeps the sort stable. */
  function Insert(o: Courier, s: seq<Courier>): (r: seq<Courier>)
    requires o.rate.Some? && AllPriced(s) && CheapestFirst(s)
    ensures AllPriced(r) && CheapestFirst(r)
    ensures forall x :: x in r <==> x == o || x in s
  {
    if s == [] || o.rate.value <= s[0].rate.value then [o] + s
    else
      var rest := Insert(o, s[1..]);
      assert forall x :: x in rest ==> s[0].rate.value <= x.rate.value by {
        forall x | x in rest ensures s[0].rate.value <= x.rate.value {
          if x != o { var i :| 0 <= i < |s[1..]| && s[1..][i] == x; assert s[i + 1] == x; }
        }
      }
      [s[0]] + rest
  }

  function Sorted(s: seq<Courier>): (r: seq<Courier>)
    requires AllPriced(s)
    ensures AllPriced(r) && CheapestFirst(r)
    ensures forall x :: x in r <==> x in s
  {
    if s == [] then [] else Insert(s[0], Sorted(s[1..]))
  }

  function Priced(options: Option<seq<Courier>>): (r: seq<Courier>)
    ensures AllPriced(r) && CheapestFirst(r)
    ensures forall o :: o in r <==> options.Some? && o in options.value && o.rate.Some?
  {
    match options case Some(list) => Sorted(WithRate(list)) case None => []
  }

  function FindKey(show: real -> string, s: seq<Courier>, key: string): (r: Option<Courier>)
    ensures r.Some? ==> r.value in s && CourierKey(show, r.value) == key
    ensures r == None ==> forall o :: o in s ==> CourierKey(show, o) != key
  {
    if s == [] then None
    else if CourierKey(show, s[0]) == key then Some(s[0])
    else FindKey(show, s[1..], key)
  }

  function SelectedCourier(show: real -> string, options: Option<seq<Courier>>, pick: Option<string>): Option<Courier> {
    var list := Priced(options);
    var picked := if pick.Some? && pick.value != "" then FindKey(show, list, pick.value) else None;
    if picked.Some? then picked else if list != [] then Some(list[0]) else None
  }

  function ChargeState(
    show: real -> string, requested: bool, calculating: bool, failed: bool, result: Option<Serviceability>, pick: Option<string>): Charge
  {
    if !requested then Idle
    else if calculating then Calculating
    else if failed then NotAvailable
    else if result == None then Calculating
    else if result.value.status != Serviceable then NotAvailable
    else
      match SelectedCourier(show, result.value.options, pick)
      case Some(o) => Rate(if o.rate.Some? then o.rate.value else 0.0, o.name)
      case None => NotAvailable
  }

  /** Couriers with one key have one charge and one name, however the name is written. */
  lemma EqualKeysEqualCharges(show: real -> string, a: Courier, b: Courier)
    requires a.rate.Some? && b.rate.Some? && ShowsRates(show, {a.rate.value, b.rate.value})
    requires CourierKey(show, a) == CourierKey(show, b)
    ensures a.rate == b.rate && NameOf(a) == NameOf(b)
  {
    SplitAtLast(NameOf(a), show(a.rate.value), NameOf(b), show(b.rate.value), '|');
  }

  function NameOf(o: Courier): string { if o.name.Some? then o.name.value else "courier" }

  /** Whether a courier is still offered with a charge. */
  predicate Offered(options: Option<seq<Courier>>, o: Courier) {
    options.Some? && o in options.value && o.rate.Some?
  }

  /**
   * A courier is selected exactly when one is offered with a charge; it is an offered one. If the courier the operator
   * picked is still offered, the charge is that courier's; if not, no offered courier is cheaper.
   */
  lemma SelectionIsPickedOrCheapest(show: real -> string, options: Option<seq<Courier>>, pick: Option<string>)
    requires ShowsRates(show, RatesOf(options))
    ensures var chosen := SelectedCourier(show, options, pick);
            && (chosen.Some? <==> exists o :: Offered(options, o))
            && (chosen.Some? ==> Offered(options, chosen.value))
            && (forall o :: Offered(options, o) && pick == Some(CourierKey(show, o)) ==>
                  chosen.value.rate == o.rate && NameOf(chosen.value) == NameOf(o))
            && (chosen.Some? && (forall o :: Offered(options, o) ==> pick != Some(CourierKey(show, o))) ==>
                  forall o :: Offered(options, o) ==> chosen.value.rate.value <= o.rate.value)
  {
    hide CourierKey;
    hide ShowsRates;
    hide RatesOf;
    hide Priced;
    var list, chosen := Priced(options), SelectedCourier(show, options, pick);
    assert forall o :: o in list <==> Offered(options, o);
    if list != [] {
      assert list[0] in list;
    }
    forall o | Offered(options, o) && pick == Some(CourierKey(show, o))
      ensures chosen.value.rate == o.rate && NameOf(chosen.value) == NameOf(o)
    {
      KeyIsNotEmpty(show, o);
      OfferedRatesAreShown(show, options, chosen.value, o);
      EqualKeysEqualCharges(show, chosen.value, o);
    }
  }

  lemma OfferedRatesAreShown(show: real -> string, options: Option<seq<Courier>>, a: Courier, b: Courier)
    requires ShowsRates(show, RatesOf(options)) && Offered(options, a) && Offered(options, b)
    ensures ShowsRates(show, {a.rate.value, b.rate.value})
  {
  }

  lemma KeyIsNotEmpty(show: real -> string, o: Courier)
    ensures CourierKey(show, o) != ""
  {
    assert CourierKey(show, o)[|match o.name case Some(n) => n case None => "courier"|] == '|';
  }

  /** The first of the cheapest couriers, in the order they were returned. */
  function FirstCheapest(options: seq<Courier>): (r: Option<Courier>)
    ensures r.Some? ==> r.value.rate.Some?
  {
    if options == [] then None else
    var rest := FirstCheapest(options[1..]);
    if options[0].rate.Some? && (rest == None || options[0].rate.value <= rest.value.rate.value) then Some(options[0]) else rest
  }

  lemma {:induction false} SortedStartsWithFirstCheapest(options: seq<Courier>)
    ensures var list := Sorted(WithRate(options));
            FirstCheapest(options) == if list == [] then None else Some(list[0])
  {
    hide Sorted;
    hide CheapestFirst;
    if options == [] {
      NothingSorted();
    } else {
      var w := WithRate(options[1..]);
      SortedStartsWithFirstCheapest(options[1..]);
      if options[0].rate.Some? {
        assert WithRate(options) == [options[0]] + w;
        SortedFront(options[0], w);
      } else {
        assert WithRate(options) == w;
      }
    }
  }

  lemma NothingSorted()
    ensures Sorted([]) == []
  {
  }

  lemma SortedFront(o: Courier, w: seq<Courier>)
    requires o.rate.Some? && AllPriced(w)
    ensures AllPriced([o] + w)
    ensures var s, t := Sorted(w), Sorted([o] + w);
            t != [] && t[0] == if s == [] || o.rate.value <= s[0].rate.value then o else s[0]
  {
    var all := [o] + w;
    assert all[0] == o && all[1..] == w;
    assert Sorted(all) == Insert(o, Sorted(w));
  }

  /** Unless the picked courier is offered, the first of the cheapest couriers is selected. */
  lemma DefaultIsFirstCheapest(show: real -> string, options: Option<seq<Courier>>, pick: Option<string>)
    requires forall o :: Offered(options, o) ==> pick != Some(CourierKey(show, o))
    ensures SelectedCourier(show, options, pick) == match options case Some(list) => FirstCheapest(list) case None => None
  {
    hide CourierKey;
    assert forall o :: o in Priced(options) <==> Offered(options, o);
    if options.Some? {
      SortedStartsWithFirstCheapest(options.value);
    }
  }

  /** What each kind of charge means, for whatever the hook returns. */
  lemma ChargeMeaning(
    show: real -> string, requested: bool, calculating: bool, failed: bool, result: Option<Serviceability>, pick: Option<string>)
    ensures var charge := ChargeState(show, requested, calculating, failed, result, pick);
            && (charge == Idle <==> !requested)
            && (charge == Calculating <==> requested && (calculating || (!failed && result == None)))
            && (charge == NotAvailable <==>
                requested && !calculating
                && (failed || (result.Some? && (result.value.status != Serviceable || !exists o :: Offered(result.value.options, o)))))
            && (forall amount, courier :: charge == Rate(amount, courier) <==>
                && requested && !calculating && !failed && result.Some? && result.value.status == Serviceable
                && SelectedCourier(show, result.value.options, pick) == Some(Courier(courier, Some(amount))))
  {
    if result.Some? {
      SelectedIsOffered(show, result.value.options, pick);
      hide SelectedCourier;
    }
  }

  /**
   * The charge on the screen, in every run of edits, timers and answers: a rate is shown exactly if requests are not open for the
   * current inputs, these have settled, and the newest answer to a request for exactly these inputs is serviceable with a courier
   * to select; it is that courier's rate.
   */
  lemma ShownChargeIsTheCourierRate(
    show: real -> string, inputs: Option<RateKey.RateInputs>, enabled: bool, at: int,
    es: seq<CourierRates.Event<Serviceability>>, pick: Option<string>, amount: real, courier: Option<string>)
    requires CourierRates.Run(inputs, enabled, at, es)
    ensures var s, now := CourierRates.After(inputs, enabled, at, es), CourierRates.InputsAfter(inputs, es);
            var (calculating, failed) := (CourierRates.Calculating(s), CourierRates.Failed(s));
            var shown := ChargeState(show, s.inputs.Some?, calculating, failed, CourierRates.Result(s), pick);
            shown == Rate(amount, courier) <==>
              && !calculating && !failed && now.Some? && CourierRates.SettledAfter(inputs, es) == now
              && var i := now.value;
                 var answer := CourierRates.NewestAnswer(es, CourierRates.QueryArgs(
                   pincode := i.pincode, cod := i.cod, weightKg := i.weightKg, dims := i.dims, value := Some(i.value)));
                 && answer.Some? && answer.value.status == Serviceable
                 && SelectedCourier(show, answer.value.options, pick) == Some(Courier(courier, Some(amount)))
  {
    CourierRates.ShownResultIsForTheCurrentInputs(inputs, enabled, at, es);
    var s := CourierRates.After(inputs, enabled, at, es);
    ChargeMeaning(show, s.inputs.Some?, CourierRates.Calculating(s), CourierRates.Failed(s), CourierRates.Result(s), pick);
    hide CourierRates.After;
    hide CourierRates.NewestAnswer;
    hide CourierRates.NewestOutcome;
    hide CourierRates.SettledAfter;
    hide CourierRates.InputsAfter;
    hide CourierRates.Calculating;
    hide CourierRates.Failed;
    hide CourierRates.Result;
    hide SelectedCourier;
    hide ChargeState;
    hide Offered;
  }

  lemma SelectedIsOffered(show: real -> string, options: Option<seq<Courier>>, pick: Option<string>)
    ensures var chosen := SelectedCourier(show, options, pick);
            chosen.Some? ==> Offered(options, chosen.value) && chosen.value.rate.Some?
  {
    hide CourierKey;
    var list := Priced(options);
    assert list != [] ==> list[0] in list;
  }
}
