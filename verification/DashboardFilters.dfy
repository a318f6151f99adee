/** The dashboard's filters, their URL and the API query they stand for, for one fixed today. */
module DashboardFilters {
  import opened Text
  import opened Calendar
  import opened DatePresets
  import opened UrlQuery

  /** The filters as the source types them: every choice is a string. */
  datatype Filters = Filters(
    preset: string, customFrom: string, customTo: string, singleDate: string, salespersonId: string, sourceId: string,
    callStatus: string, leadStatus: string, paymentMode: string, orderStatus: string)

  const PRESETS: seq<string> :=
    ["today", "yesterday", "dayBefore", "5d", "7d", "30d", "thisWeek", "lastWeek", "month", "lastMonth", "single", "custom"]
  const CALL_STATUSES: seq<string> := ["ALL", "CONNECTED", "NOT_CONNECTED", "FAILED"]
  const LEAD_STATUSES: seq<string> := ["ALL", "NOT_CONTACTED", "CONTACTED", "INTERESTED", "CONVERTED"]
  const PAYMENT_MODES: seq<string> := ["ALL", "COD", "PREPAID"]
  const ORDER_STATUSES: seq<string> := ["ALL", "CONFIRMED", "PROCESSING", "SHIPPED", "OUT_FOR_DELIVERY", "DELIVERED"]

  predicate WellTyped(f: Filters) {
    && f.preset in PRESETS && f.callStatus in CALL_STATUSES && f.leadStatus in LEAD_STATUSES
    && f.paymentMode in PAYMENT_MODES && f.orderStatus in ORDER_STATUSES
  }

  function PresetOf(name: string): Preset {
    if name == "today" then Today else if name == "yesterday" then Yesterday else if name == "dayBefore" then DayBefore
    else if name == "5d" then Last5 else if name == "7d" then Last7 else if name == "30d" then Last30
    else if name == "thisWeek" then ThisWeek else if name == "lastWeek" then LastWeek
    else if name == "month" then ThisMonth else if name == "lastMonth" then LastMonth
    else if name == "single" then Single else Custom
  }

  // ---------- the API query ----------

  datatype Query = Query(
    range: Range, callStatus: string, leadStatus: string, paymentMode: string, orderStatus: string,
    salespersonId: Option<string>, sourceId: Option<string>)

  function NonEmpty(s: string): Option<string> { if s != "" then Some(s) else None }

  function ToQuery(f: Filters, today: string): Query
    requires IsDate(today)
  {
    Query(
      Resolve(PresetOf(f.preset), f.singleDate, f.customFrom, f.customTo, today),
      f.callStatus, f.leadStatus, f.paymentMode, f.orderStatus, NonEmpty(f.salespersonId), NonEmpty(f.sourceId))
  }

  // ---------- the URL ----------

  function If(condition: bool, name: string, value: string): seq<Param> {
    if condition then [Param(name, value)] else []
  }

  function Params(f: Filters): seq<Param> {
    [Param("range", f.preset), Param("callStatus", f.callStatus), Param("leadStatus", f.leadStatus)]
    + (If(f.paymentMode != "ALL", "payment", f.paymentMode)
    + (If(f.orderStatus != "ALL", "orderStatus", f.orderStatus)
    + (If(f.sourceId != "", "source", f.sourceId)
    + (If(f.preset == "custom", "from", f.customFrom)
    + (If(f.preset == "custom", "to", f.customTo)
    + If(f.preset == "single", "date", f.singleDate))))))
  }

  function FiltersToSearch(f: Filters): string { Serialize(Params(f)) }

  /** `name in LABELS` on an object literal, which also finds what every object inherits. */
  predicate Known(name: Option<string>, labels: seq<string>, inherited: seq<string>) {
    name.Some? && name.value != "" && (name.value in labels || name.value in inherited)
  }

  function OrElse(a: Option<string>, b: string): string { match a case Some(v) => v case None => b }

  function Pick(name: Option<string>, labels: seq<string>, inherited: seq<string>, fallback: string): string {
    if Known(name, labels, inherited) then name.value else fallback
  }

  /** `inherited` are the property names every JavaScript object inherits. */
  function FromParams(p: seq<Param>, today: string, inherited: seq<string>): Filters {
    Filters(
      Pick(Get(p, "range"), PRESETS, inherited, "today"),
      OrElse(Get(p, "from"), today), OrElse(Get(p, "to"), today), OrElse(Get(p, "date"), today),
      "", OrElse(Get(p, "source"), ""),
      Pick(Get(p, "callStatus"), CALL_STATUSES, inherited, "ALL"),
      Pick(Get(p, "leadStatus"), LEAD_STATUSES, inherited, "ALL"),
      Pick(Get(p, "payment"), PAYMENT_MODES, inherited, "ALL"),
      Pick(Get(p, "orderStatus"), ORDER_STATUSES, inherited, "ALL"))
  }

  function FiltersFromSearch(search: string, today: string, inherited: seq<string>): Filters {
    FromParams(ParseQuery(search), today, inherited)
  }

  // ---------- the round trip ----------

  lemma GetIf(condition: bool, name: string, value: string, rest: seq<Param>, wanted: string)
    ensures Get(If(condition, name, value) + rest, wanted) ==
            if condition && name == wanted then Some(value) else Get(rest, wanted)
  {
    GetConcat(If(condition, name, value), rest, wanted);
    assert [Param(name, value)][1..] == [];
  }

  lemma GetHead(name: string, value: string, rest: seq<Param>, wanted: string)
    ensures Get([Param(name, value)] + rest, wanted) == if name == wanted then Some(value) else Get(rest, wanted)
  {
    GetIf(true, name, value, rest, wanted);
  }

  /** What each name gives in a written parameter list. */
  lemma ParamsTell(f: Filters, wanted: string)
    ensures Get(Params(f), wanted) ==
            if wanted == "range" then Some(f.preset)
            else if wanted == "callStatus" then Some(f.callStatus)
            else if wanted == "leadStatus" then Some(f.leadStatus)
            else if wanted == "payment" && f.paymentMode != "ALL" then Some(f.paymentMode)
            else if wanted == "orderStatus" && f.orderStatus != "ALL" then Some(f.orderStatus)
            else if wanted == "source" && f.sourceId != "" then Some(f.sourceId)
            else if wanted == "from" && f.preset == "custom" then Some(f.customFrom)
            else if wanted == "to" && f.preset == "custom" then Some(f.customTo)
            else if wanted == "date" && f.preset == "single" then Some(f.singleDate)
            else None
  {
    hide Get;
    hide If;
    var p9 := If(f.preset == "single", "date", f.singleDate);
    var p8 := If(f.preset == "custom", "to", f.customTo) + p9;
    var p7 := If(f.preset == "custom", "from", f.customFrom) + p8;
    var p6 := If(f.sourceId != "", "source", f.sourceId) + p7;
    var p5 := If(f.orderStatus != "ALL", "orderStatus", f.orderStatus) + p6;
    var p4 := If(f.paymentMode != "ALL", "payment", f.paymentMode) + p5;
    var p3 := [Param("leadStatus", f.leadStatus)] + p4;
    var p2 := [Param("callStatus", f.callStatus)] + p3;
    assert Params(f) == [Param("range", f.preset)] + p2;
    GetHead("range", f.preset, p2, wanted);
    GetHead("callStatus", f.callStatus, p3, wanted);
    GetHead("leadStatus", f.leadStatus, p4, wanted);
    GetIf(f.paymentMode != "ALL", "payment", f.paymentMode, p5, wanted);
    GetIf(f.orderStatus != "ALL", "orderStatus", f.orderStatus, p6, wanted);
    GetIf(f.sourceId != "", "source", f.sourceId, p7, wanted);
    GetIf(f.preset == "custom", "from", f.customFrom, p8, wanted);
    GetIf(f.preset == "custom", "to", f.customTo, p9, wanted);
    GetIf(f.preset == "single", "date", f.singleDate, [], wanted);
    assert p9 + [] == p9;
    NoParams(wanted);
  }

  lemma NoParams(wanted: string)
    ensures Get([], wanted) == None
  {
  }

  /** Filters read back from their own URL: the choices survive; dates the preset does not use, and the salesperson, do not. */
  function Remembered(f: Filters, today: string): Filters {
    var custom := f.preset == "custom";
    Filters(
      f.preset, if custom then f.customFrom else today, if custom then f.customTo else today,
      if f.preset == "single" then f.singleDate else today, "", f.sourceId,
      f.callStatus, f.leadStatus, f.paymentMode, f.orderStatus)
  }

  lemma LabelsAreNotEmpty()
    ensures "" !in PRESETS && "" !in CALL_STATUSES && "" !in LEAD_STATUSES && "" !in PAYMENT_MODES && "" !in ORDER_STATUSES
  {
  }

  /**
   * Filters read back from the URL they wrote have the same choices and source, the dates their preset uses and today for the
   * others, and no salesperson.
   */
  lemma UrlRemembers(f: Filters, today: string, inherited: seq<string>)
    requires WellTyped(f)
    ensures FiltersFromSearch(FiltersToSearch(f), today, inherited) == Remembered(f, today)
    ensures var g := FiltersFromSearch(FiltersToSearch(f), today, inherited);
            && g.preset == f.preset && g.callStatus == f.callStatus && g.leadStatus == f.leadStatus
            && g.paymentMode == f.paymentMode && g.orderStatus == f.orderStatus
            && g.sourceId == f.sourceId && g.salespersonId == ""
            && g.singleDate == (if f.preset == "single" then f.singleDate else today)
            && (if f.preset == "custom" then g.customFrom == f.customFrom && g.customTo == f.customTo
                else g.customFrom == g.customTo == today)
  {
    hide Get;
    hide Params;
    ParseUndoesSerialize(Params(f));
    ParamsTell(f, "range");
    ParamsTell(f, "callStatus");
    ParamsTell(f, "leadStatus");
    ParamsTell(f, "payment");
    ParamsTell(f, "orderStatus");
    ParamsTell(f, "source");
    ParamsTell(f, "from");
    ParamsTell(f, "to");
    ParamsTell(f, "date");
    LabelsAreNotEmpty();
  }

  /** The URL a filter state writes reads back as filters for the same API query, except for the salesperson, whom it leaves out. */
  lemma UrlKeepsTheQuery(f: Filters, today: string, inherited: seq<string>)
    requires WellTyped(f) && IsDate(today)
    ensures ToQuery(FiltersFromSearch(FiltersToSearch(f), today, inherited), today) ==
            ToQuery(f, today).(salespersonId := None)
  {
    hide FiltersFromSearch;
    hide FiltersToSearch;
    UrlRemembers(f, today, inherited);
    UnusedDatesDoNotMatter(f, today);
  }

  lemma UnusedDatesDoNotMatter(f: Filters, today: string)
    requires IsDate(today) && f.preset in PRESETS
    ensures var g := Remembered(f, today);
            Resolve(PresetOf(g.preset), g.singleDate, g.customFrom, g.customTo, today) ==
            Resolve(PresetOf(f.preset), f.singleDate, f.customFrom, f.customTo, today)
  {
    PresetNames(f.preset);
    OnlyTheirOwnDates(PresetOf(f.preset), f.singleDate, today, f.customFrom, today, f.customTo, today, today);
  }

  lemma PresetNames(name: string)
    requires name in PRESETS
    ensures PresetOf(name) == Custom <==> name == "custom"
    ensures PresetOf(name) == Single <==> name == "single"
  {
  }

  /** The preset each name stands for. */
  lemma NamesOfPresets()
    ensures PresetOf("today") == Today && PresetOf("yesterday") == Yesterday && PresetOf("dayBefore") == DayBefore
    ensures PresetOf("5d") == Last5 && PresetOf("7d") == Last7 && PresetOf("30d") == Last30
    ensures PresetOf("thisWeek") == ThisWeek && PresetOf("lastWeek") == LastWeek
    ensures PresetOf("month") == ThisMonth && PresetOf("lastMonth") == LastMonth
    ensures PresetOf("single") == Single && PresetOf("custom") == Custom
  {
  }

  /** What the API is asked for: the choices as they are, the days of the preset, and ids only if they are not empty. */
  lemma QueryMeaning(f: Filters, today: string, p: Preset)
    requires IsDate(today) && PresetOf(f.preset) == p
    ensures var q := ToQuery(f, today);
            && q.callStatus == f.callStatus && q.leadStatus == f.leadStatus
            && q.paymentMode == f.paymentMode && q.orderStatus == f.orderStatus
            && (if f.salespersonId == "" then q.salespersonId == None else q.salespersonId == Some(f.salespersonId))
            && (if f.sourceId == "" then q.sourceId == None else q.sourceId == Some(f.sourceId))
            && (p == Single ==> q.range.from == q.range.to == if f.singleDate == "" then today else f.singleDate)
            && (p == Custom && f.customFrom != "" && f.customTo != "" && AtMost(f.customFrom, f.customTo) ==>
                  q.range == Range(f.customFrom, f.customTo))
            && (p == Today ==> q.range == Range(today, today))
            && (p == Last7 && InRange(Day(today) - 6) ==> IsDate(q.range.from) && DayCount(q.range.from, today) == 7 && q.range.to == today)
            && q.range == Resolve(p, f.singleDate, f.customFrom, f.customTo, today)
  {
    hide IsDate;
    hide Day;
    hide IsoDate;
    hide PresetOf;
    if InRange(Day(today) - 6) { RollingPresets(Last7, today, f.singleDate, f.customFrom, f.customTo); }
  }

  /** A URL without parameters is read as the filters the page starts with. */
  lemma NoParametersAreTheDefaults(today: string, inherited: seq<string>)
    ensures FromParams([], today, inherited) == Filters(
      preset := "today", customFrom := today, customTo := today, singleDate := today, salespersonId := "", sourceId := "",
      callStatus := "ALL", leadStatus := "ALL", paymentMode := "ALL", orderStatus := "ALL")
  {
  }

  lemma OnlyTheirOwnDates(p: Preset, single: string, single': string, from: string, from': string, to: string, to': string, today: string)
    requires IsDate(today)
    ensures p != Custom ==> Resolve(p, single, from, to, today) == Resolve(p, single, from', to', today)
    ensures p != Single ==> Resolve(p, single, from, to, today) == Resolve(p, single', from, to, today)
  {
  }

  /** Any URL at all is read as well-typed filters, unless a choice in it is a name every object inherits, such as "toString". */
  lemma AnyUrlIsWellTyped(p: seq<Param>, today: string, inherited: seq<string>)
    ensures var range := Get(p, "range");
            FromParams(p, today, inherited).preset ==
            if range.Some? && range.value != "" && (range.value in PRESETS || range.value in inherited) then range.value else "today"
    ensures WellTyped(FromParams(p, today, inherited)) <==>
            && !Inherits(Get(p, "range"), PRESETS, inherited)
            && !Inherits(Get(p, "callStatus"), CALL_STATUSES, inherited)
            && !Inherits(Get(p, "leadStatus"), LEAD_STATUSES, inherited)
            && !Inherits(Get(p, "payment"), PAYMENT_MODES, inherited)
            && !Inherits(Get(p, "orderStatus"), ORDER_STATUSES, inherited)
  {
    hide Get;
    FallbacksAreLabels();
  }

  predicate Inherits(name: Option<string>, labels: seq<string>, inherited: seq<string>) {
    name.Some? && name.value != "" && name.value in inherited && name.value !in labels
  }

  lemma FallbacksAreLabels()
    ensures "today" in PRESETS && "ALL" in CALL_STATUSES && "ALL" in LEAD_STATUSES && "ALL" in PAYMENT_MODES && "ALL" in ORDER_STATUSES
  {
    assert PRESETS[0] == "today" && CALL_STATUSES[0] == LEAD_STATUSES[0] == PAYMENT_MODES[0] == ORDER_STATUSES[0] == "ALL";
  }
}
