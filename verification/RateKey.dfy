/** The inputs of a courier-rate request and the one string that identifies them. */
module RateKey {
  import opened Text

  /** A finite number, represented by its text. */
  type Num = s: string | IsNumberText(s) witness Zero()

  function Zero(): (s: string)
    ensures IsNumberText(s) && s == "0"
  {
    assert IsDigit("0"[0]);
    "0"
  }

  datatype Dimensions = Dimensions(length: Num, breadth: Num, height: Num)

  datatype RateInputs = RateInputs(pincode: string, cod: bool, weightKg: Num, dims: Option<Dimensions>, value: Num)

  /** The last six fields of the key; none of them can contain the separator. */
  function Fields(i: RateInputs): (r: seq<string>)
    ensures |r| == 6
    ensures forall k :: 0 <= k < |r| ==> '|' !in r[k]
  {
    [if i.cod then "cod" else "prepaid", i.weightKg] +
    (match i.dims case Some(d) => [d.length, d.breadth, d.height] case None => ["-", "-", "-"]) +
    [i.value]
  }

  function Key(i: RateInputs): string { Join([i.pincode] + Fields(i), "|") }

  lemma {:induction false} JoinLast(parts: seq<string>, last: string, sep: string)
    requires parts != []
    ensures Join(parts + [last], sep) == Join(parts, sep) + sep + last
  {
    var all := parts + [last];
    assert all[0] == parts[0] && all[1..] == parts[1..] + [last];
    if |parts| > 1 {
      JoinLast(parts[1..], last, sep);
    }
  }

  /** Fields without the separator can be told apart from the right, whatever the first part contains. */
  lemma {:induction false} JoinedFieldsAreUnique(first: string, fields: seq<string>, first': string, fields': seq<string>)
    requires |fields| == |fields'|
    requires forall k :: 0 <= k < |fields| ==> '|' !in fields[k] && '|' !in fields'[k]
    requires Join([first] + fields, "|") == Join([first'] + fields', "|")
    ensures first == first' && fields == fields'
  {
    if fields == [] {
      assert [first] + fields == [first] && [first'] + fields' == [first'];
    } else {
      var n := |fields| - 1;
      assert [first] + fields == ([first] + fields[..n]) + [fields[n]];
      assert [first'] + fields' == ([first'] + fields'[..n]) + [fields'[n]];
      JoinLast([first] + fields[..n], fields[n], "|");
      JoinLast([first'] + fields'[..n], fields'[n], "|");
      SplitAtLast(Join([first] + fields[..n], "|"), fields[n], Join([first'] + fields'[..n], "|"), fields'[n], '|');
      JoinedFieldsAreUnique(first, fields[..n], first', fields'[..n]);
      assert fields == fields[..n] + [fields[n]] && fields' == fields'[..n] + [fields'[n]];
    }
  }

  /** The key identifies the inputs completely. Only the pincode is free text and it comes first, so even a `|` in it does no harm. */
  lemma KeyIsInjective(i: RateInputs, j: RateInputs)
    ensures Key(i) == Key(j) <==> i == j
  {
    if Key(i) == Key(j) {
      JoinedFieldsAreUnique(i.pincode, Fields(i), j.pincode, Fields(j));
      FieldsAreInjective(i, j);
    }
  }

  lemma FieldsAreInjective(i: RateInputs, j: RateInputs)
    requires Fields(i) == Fields(j) && i.pincode == j.pincode
    ensures i == j
  {
    var f, g := Fields(i), Fields(j);
    assert f[0] == g[0] && f[1] == g[1] && f[2] == g[2] && f[3] == g[3] && f[4] == g[4] && f[5] == g[5];
  }
}
