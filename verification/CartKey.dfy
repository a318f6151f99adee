/** The identity of a checkout's contents. `lower` is `toLowerCase`; `num` is the value of a numeric text, None when not finite. */
module CartKey {
  import opened Text
  import opened JsonText
  import opened Sorting

  /** A JSON value as far as the key looks at it; numbers by their text. */
  datatype Value = Str(s: string) | Number(text: string, finite: bool) | Other

  datatype Item = Item(variantId: Value, sku: Value, productId: Value, name: Value, quantity: Value)

  /** `items` and `itemNames` are None when they are not arrays; an item that is not an object has only `Other` fields. */
  datatype Snapshot = Snapshot(items: Option<seq<Item>>, itemNames: Option<seq<Value>>, itemCount: Value)

  /** Who an item is and how many of it there are, None when that is not a finite number. */
  datatype Pair = Pair(id: string, quantity: Option<string>)

  predicate WellFormedItem(i: Item) { i.quantity.Number? && i.quantity.finite ==> IsNumberText(i.quantity.text) }

  predicate WellFormed(s: Snapshot) {
    s.items.Some? ==> forall k :: 0 <= k < |s.items.value| ==> WellFormedItem(s.items.value[k])
  }

  function TextOf(v: Value): string {
    match v case Str(s) => Trim(s) case Number(text, _) => text case Other => ""
  }

  function FirstNonEmpty(a: string, b: string): string { if a != "" then a else b }

  function Identity(lower: string -> string, i: Item): string {
    FirstNonEmpty(TextOf(i.variantId), FirstNonEmpty(TextOf(i.sku), FirstNonEmpty(TextOf(i.productId), lower(TextOf(i.name)))))
  }

  function PairOf(lower: string -> string, i: Item): Pair {
    Pair(Identity(lower, i), if i.quantity.Number? && i.quantity.finite then Some(i.quantity.text) else None)
  }

  function PairWith(lower: string -> string): Item -> Pair { i => PairOf(lower, i) }

  function Pairs(lower: string -> string, items: seq<Item>): seq<Pair> { Map(PairWith(lower), items) }

  function PartOf(p: Pair): string {
    if p.id == "" then "" else p.id + "x" + (match p.quantity case Some(q) => q case None => "?")
  }

  function Parts(pairs: seq<Pair>): seq<string> { Map(PartOf, pairs) }

  function NonEmptyNames(lower: string -> string, names: seq<Value>): seq<string> {
    if names == [] then [] else
    var n := lower(TextOf(names[0]));
    (if n == "" then [] else [n]) + NonEmptyNames(lower, names[1..])
  }

  function Names(lower: string -> string, s: Snapshot): seq<string> {
    match s.itemNames case Some(names) => NonEmptyNames(lower, names) case None => []
  }

  function Count(num: string -> Option<real>, s: Snapshot): Option<real> {
    match s.itemCount
    case Number(text, finite) => if finite then num(text) else None
    case Str(t) => if Trim(t) != "" then num(t) else None
    case Other => None
  }

  predicate HasFullList(s: Snapshot) { s.items.Some? && |s.items.value| > 0 }

  function Key(lower: string -> string, num: string -> Option<real>, s: Snapshot): Option<string> {
    if HasFullList(s) then
      var parts := Parts(Pairs(lower, s.items.value));
      if "" in parts then None else Some(Stringify(Sort(parts)))
    else
      var names, count := Names(lower, s), Count(num, s);
      if names == [] || count == None || count.value > |names| as real then None
      else Some(Stringify(Sort(names)))
  }

  // ---------- what the key tells apart ----------

  predicate GoodPair(p: Pair) { p.id != "" && (p.quantity.Some? ==> IsNumberText(p.quantity.value)) }

  lemma PartIsInjective(p: Pair, q: Pair)
    requires GoodPair(p) && GoodPair(q) && PartOf(p) == PartOf(q)
    ensures p == q
  {
    SplitAtLast(
      p.id, match p.quantity case Some(t) => t case None => "?",
      q.id, match q.quantity case Some(t) => t case None => "?", 'x');
    assert !IsNumberText("?");
  }

  lemma PairsAreGood(lower: string -> string, items: seq<Item>)
    requires forall k :: 0 <= k < |items| ==> WellFormedItem(items[k])
    requires "" !in Parts(Pairs(lower, items))
    ensures forall p :: p in Pairs(lower, items) ==> GoodPair(p)
  {
    var pairs := Pairs(lower, items);
    forall k | 0 <= k < |items|
      ensures GoodPair(pairs[k])
    {
      assert Parts(pairs)[k] == PartOf(pairs[k]);
    }
  }

  lemma PartsAreInjective(a: seq<Pair>, b: seq<Pair>)
    requires forall p :: p in a + b ==> GoodPair(p)
    ensures InjectiveOn(PartOf, a, b)
  {
    forall p, q | p in a + b && q in a + b && PartOf(p) == PartOf(q)
      ensures p == q
    {
      PartIsInjective(p, q);
    }
  }

  /** The text of a string is the string without the white space around it, that of a number its digits; nothing else has one. */
  lemma TextMeaning(a: string, s: string, b: string, finite: bool)
    requires AllSpace(a) && AllSpace(b) && (s != "" ==> !IsSpace(s[0]) && !IsSpace(s[|s| - 1]))
    ensures TextOf(Str(a + s + b)) == s && TextOf(Number(s, finite)) == s && TextOf(Other) == ""
  {
    TrimTakesOffSpace(a, s, b);
  }

  /** `id` is the first of the texts that is not empty. */
  ghost predicate IsFirstNonEmpty(texts: seq<string>, id: string) {
    exists k :: 0 <= k < |texts| && texts[k] == id != "" && forall j :: 0 <= j < k ==> texts[j] == ""
  }

  /** An item is known by its variant id, else its SKU, else its product id, else its lower-cased name, and by its finite quantity. */
  ghost predicate Describes(lower: string -> string, i: Item, p: Pair) {
    && IsFirstNonEmpty([TextOf(i.variantId), TextOf(i.sku), TextOf(i.productId), lower(TextOf(i.name))], p.id)
    && match i.quantity
       case Number(text, true) => p.quantity == Some(text)
       case _ => p.quantity == None
  }

  ghost predicate Described(lower: string -> string, items: seq<Item>, pairs: seq<Pair>) {
    |pairs| == |items| && forall k :: 0 <= k < |items| ==> Describes(lower, items[k], pairs[k])
  }

  lemma DescribesIsPairOf(lower: string -> string, i: Item, p: Pair)
    ensures Describes(lower, i, p) <==> p == PairOf(lower, i) && p.id != ""
  {
    hide TextOf;
    var texts := [TextOf(i.variantId), TextOf(i.sku), TextOf(i.productId), lower(TextOf(i.name))];
    assert texts[0] == TextOf(i.variantId) && texts[1] == TextOf(i.sku) && texts[2] == TextOf(i.productId);
    assert texts[3] == lower(TextOf(i.name));
    if Identity(lower, i) != "" {
      var k := if texts[0] != "" then 0 else if texts[1] != "" then 1 else if texts[2] != "" then 2 else 3;
      assert texts[k] == Identity(lower, i) && forall j :: 0 <= j < k ==> texts[j] == "";
    }
  }

  lemma DescribedArePairs(lower: string -> string, items: seq<Item>, pairs: seq<Pair>)
    requires Described(lower, items, pairs)
    ensures pairs == Pairs(lower, items) && "" !in Parts(pairs)
  {
    forall k | 0 <= k < |items|
      ensures pairs[k] == Pairs(lower, items)[k] && PartOf(pairs[k]) != ""
    {
      DescribesIsPairOf(lower, items[k], pairs[k]);
      assert |PartOf(pairs[k])| > |pairs[k].id|;
    }
  }

  /**
   * Two full lists whose items are known by `a` and `b` have keys, and the same key exactly if `a` and `b` hold the same items in
   * the same quantities, in any order.
   */
  lemma FullListsAreIdentifiedUpToOrder(
    lower: string -> string, num: string -> Option<real>, s: Snapshot, t: Snapshot, a: seq<Pair>, b: seq<Pair>)
    requires WellFormed(s) && WellFormed(t) && HasFullList(s) && HasFullList(t)
    requires Described(lower, s.items.value, a) && Described(lower, t.items.value, b)
    ensures Key(lower, num, s).Some? && Key(lower, num, t).Some?
    ensures Key(lower, num, s) == Key(lower, num, t) <==> multiset(a) == multiset(b)
  {
    DescribedArePairs(lower, s.items.value, a);
    DescribedArePairs(lower, t.items.value, b);
    hide Described;
    PairsAreGood(lower, s.items.value);
    PairsAreGood(lower, t.items.value);
    hide WellFormed;
    hide Pairs;
    hide Parts;
    SameParts(a, b);
  }

  lemma SameParts(a: seq<Pair>, b: seq<Pair>)
    requires (forall p :: p in a ==> GoodPair(p)) && forall p :: p in b ==> GoodPair(p)
    ensures Stringify(Sort(Parts(a))) == Stringify(Sort(Parts(b))) <==> multiset(a) == multiset(b)
  {
    hide GoodPair;
    StringifyIsInjective(Sort(Parts(a)), Sort(Parts(b)));
    SortIsCanonical(Parts(a), Parts(b));
    PartsAreInjective(a, b);
    MapKeepsMultisets(PartOf, a, b);
  }

  /** A full list has a key exactly when every item is known by something. */
  lemma FullListKeyExists(lower: string -> string, num: string -> Option<real>, s: Snapshot)
    requires HasFullList(s)
    ensures Key(lower, num, s).Some? <==> exists a :: Described(lower, s.items.value, a)
  {
    var items := s.items.value;
    var pairs := Pairs(lower, items);
    if Key(lower, num, s).Some? {
      forall k | 0 <= k < |items|
        ensures Describes(lower, items[k], pairs[k])
      {
        assert Parts(pairs)[k] == PartOf(pairs[k]) != "";
        DescribesIsPairOf(lower, items[k], pairs[k]);
      }
      assert Described(lower, items, pairs);
    }
    if a :| Described(lower, items, a) {
      DescribedArePairs(lower, items, a);
    }
  }

  /** How many items the snapshot says there are: a finite number, or a text that is not blank and reads as one. */
  ghost predicate Counts(num: string -> Option<real>, itemCount: Value, n: real) {
    match itemCount
    case Number(text, finite) => finite && num(text) == Some(n)
    case Str(text) => !AllSpace(text) && num(text) == Some(n)
    case Other => false
  }

  /** The lower-cased texts of the names, empty ones included; none if there is no list of names. */
  ghost predicate Lowered(lower: string -> string, names: Option<seq<Value>>, a: seq<string>) {
    match names
    case Some(values) => |a| == |values| && forall k :: 0 <= k < |a| ==> a[k] == lower(TextOf(values[k]))
    case None => a == []
  }

  lemma {:induction false} NonEmptyNamesAre(lower: string -> string, names: seq<Value>, a: seq<string>)
    requires Lowered(lower, Some(names), a)
    ensures multiset(NonEmptyNames(lower, names)) == multiset(a)["" := 0]
  {
    if names != [] {
      NonEmptyNamesAre(lower, names[1..], a[1..]);
      assert a == [a[0]] + a[1..];
    }
  }

  lemma NamesAre(lower: string -> string, s: Snapshot, a: seq<string>)
    requires Lowered(lower, s.itemNames, a)
    ensures multiset(Names(lower, s)) == multiset(a)["" := 0]
    ensures |Names(lower, s)| == |a| - multiset(a)[""]
  {
    if s.itemNames.Some? {
      NonEmptyNamesAre(lower, s.itemNames.value, a);
    }
    assert |multiset(Names(lower, s))| == |multiset(a)["" := 0]|;
    assert multiset(a) == multiset(a)["" := 0][""  := multiset(a)[""]];
  }

  lemma CountsAre(num: string -> Option<real>, s: Snapshot)
    ensures forall n :: Counts(num, s.itemCount, n) <==> Count(num, s) == Some(n)
  {
    if s.itemCount.Str? { BlankIsAllSpace(s.itemCount.s); }
  }

  /**
   * Without a full list there is a key only if the display names are provably complete, that is, if the snapshot counts no more
   * items than there are names that are not empty, and then it identifies the lower-cased names up to order.
   */
  lemma NamesAreIdentifiedUpToOrder(
    lower: string -> string, num: string -> Option<real>, s: Snapshot, t: Snapshot, a: seq<string>, b: seq<string>)
    requires !HasFullList(s) && !HasFullList(t) && Lowered(lower, s.itemNames, a) && Lowered(lower, t.itemNames, b)
    ensures Key(lower, num, s).Some? <==>
            var named := |a| - multiset(a)[""]; named > 0 && exists n :: Counts(num, s.itemCount, n) && n <= named as real
    ensures Key(lower, num, s).Some? && Key(lower, num, t).Some? ==>
              (Key(lower, num, s) == Key(lower, num, t) <==> multiset(a)["" := 0] == multiset(b)["" := 0])
  {
    NamesAre(lower, s, a);
    NamesAre(lower, t, b);
    NamesKeyExists(lower, num, s);
    hide *;
    if Key(lower, num, s).Some? && Key(lower, num, t).Some? { NamesKeysAgree(lower, num, s, t); }
  }

  lemma NamesKeyExists(lower: string -> string, num: string -> Option<real>, s: Snapshot)
    requires !HasFullList(s)
    ensures Key(lower, num, s).Some? <==>
            var named := |Names(lower, s)|; named > 0 && exists n :: Counts(num, s.itemCount, n) && n <= named as real
  {
    CountsAre(num, s);
    hide Names;
    hide Count;
    hide Counts;
    if Count(num, s).Some? { assert Counts(num, s.itemCount, Count(num, s).value); }
  }

  lemma NamesKeysAgree(lower: string -> string, num: string -> Option<real>, s: Snapshot, t: Snapshot)
    requires !HasFullList(s) && !HasFullList(t) && Key(lower, num, s).Some? && Key(lower, num, t).Some?
    ensures Key(lower, num, s) == Key(lower, num, t) <==> multiset(Names(lower, s)) == multiset(Names(lower, t))
  {
    hide Names;
    hide Count;
    StringifyIsInjective(Sort(Names(lower, s)), Sort(Names(lower, t)));
    SortIsCanonical(Names(lower, s), Names(lower, t));
  }

  /** What an item's part of the key reads like. */
  function PartText(p: Pair): string { p.id + "x" + (if p.quantity.Some? then p.quantity.value else "?") }

  /** A key does not say which list it came from: the two kinds collide exactly when the names read like items with quantities. */
  lemma MixedKeysCollide(
    lower: string -> string, num: string -> Option<real>, s: Snapshot, t: Snapshot, a: seq<Pair>, b: seq<string>)
    requires HasFullList(s) && Described(lower, s.items.value, a)
    requires !HasFullList(t) && Lowered(lower, t.itemNames, b) && Key(lower, num, t).Some?
    ensures Key(lower, num, s) == Key(lower, num, t) <==> multiset(Map(PartText, a)) == multiset(b)["" := 0]
  {
    DescribedArePairs(lower, s.items.value, a);
    NamesAre(lower, t, b);
    hide Lowered;
    hide Names;
    PartsRead(a);
    hide Pairs;
    hide Parts;
    hide Described;
    StringifyIsInjective(Sort(Parts(a)), Sort(Names(lower, t)));
    SortIsCanonical(Parts(a), Names(lower, t));
  }

  lemma PartsRead(a: seq<Pair>)
    requires "" !in Parts(a)
    ensures Parts(a) == Map(PartText, a)
  {
    forall k | 0 <= k < |a|
      ensures PartOf(a[k]) == PartText(a[k])
    {
      assert Parts(a)[k] == PartOf(a[k]);
    }
  }

  /** Any one item and a single product whose name reads like that item's part, such as "7x1", have the same key. */
  lemma MixedKeysCanCollide(
    lower: string -> string, num: string -> Option<real>, i: Item, p: Pair, name: Value, s: Snapshot, t: Snapshot)
    requires Describes(lower, i, p) && lower(TextOf(name)) == PartText(p)
    requires s.items == Some([i]) && t.items == None && t.itemNames == Some([name]) && Counts(num, t.itemCount, 1.0)
    ensures Key(lower, num, s).Some? && Key(lower, num, s) == Key(lower, num, t)
  {
    DescribesIsPairOf(lower, i, p);
    CountsAre(num, t);
    assert PartText(p) != "";
    OnePart(lower, i);
    OneName(lower, name);
    hide Describes;
    hide Counts;
    hide Identity;
    SameSingleText(lower, num, PartOf(p), s, t);
  }

  lemma SameSingleText(lower: string -> string, num: string -> Option<real>, text: string, s: Snapshot, t: Snapshot)
    requires HasFullList(s) && !HasFullList(t) && text != "" && Count(num, t) == Some(1.0)
    requires Parts(Pairs(lower, s.items.value)) == [text] && Names(lower, t) == [text]
    ensures Key(lower, num, s).Some? && Key(lower, num, s) == Key(lower, num, t)
  {
  }

  lemma OnePart(lower: string -> string, i: Item)
    ensures Parts(Pairs(lower, [i])) == [PartOf(PairOf(lower, i))]
  {
    assert Pairs(lower, [i]) == [PairOf(lower, i)];
  }

  lemma OneName(lower: string -> string, v: Value)
    requires lower(TextOf(v)) != ""
    ensures NonEmptyNames(lower, [v]) == [lower(TextOf(v))]
  {
    assert [v][1..] == [];
  }
}
