/** A set of strings kept in session storage as JSON, bounded to its newest entries. A JavaScript Set is its insertion order. */
module SessionSet {
  import opened Text
  import opened JsonText

  const KEPT: nat := 200

  /** `slice(-n)`. */
  function Newest<A>(s: seq<A>, n: nat): seq<A> { if |s| <= n then s else s[|s| - n..] }

  /** `new Set(array)`: first occurrences, in order. */
  function ToSet(s: seq<string>): seq<string> {
    if s == [] then [] else
    var init := ToSet(s[..|s| - 1]);
    if s[|s| - 1] in init then init else init + [s[|s| - 1]]
  }

  lemma {:induction false} DistinctIsASet(s: seq<string>)
    requires Distinct(s)
    ensures ToSet(s) == s
  {
    if s != [] {
      DistinctIsASet(s[..|s| - 1]);
      assert s == s[..|s| - 1] + [s[|s| - 1]];
    }
  }

  function Load(stored: Option<string>): seq<string> {
    if stored == None || stored.value == "" then [] else
    match Parse(stored.value) case Some(items) => ToSet(items) case None => []
  }

  function Save(entries: seq<string>): string { Stringify(Newest(entries, KEPT)) }

  /** Whatever is stored, a set is loaded: the strings of the array, each once, in the order they first come. */
  lemma {:induction false} SetKeepsFirsts(s: seq<string>, x: string)
    ensures Distinct(ToSet(s))
    ensures forall e :: e in ToSet(s) <==> e in s
    ensures ToSet(s + [x]) == if x in s then ToSet(s) else ToSet(s) + [x]
  {
    if s != [] {
      var n := |s| - 1;
      SetKeepsFirsts(s[..n], x);
      assert s == s[..n] + [s[n]];
    }
    assert (s + [x])[..|s|] == s;
  }

  /** What is loaded again is exactly the 200 newest entries, in order. */
  lemma LoadGivesTheNewest(entries: seq<string>)
    requires Distinct(Newest(entries, 200))
    ensures Load(Some(Save(entries))) == Newest(entries, 200) == if |entries| <= 200 then entries else entries[|entries| - 200..]
    ensures Load(None) == []
  {
    ParseUndoesStringify(Newest(entries, KEPT));
    DistinctIsASet(Newest(entries, KEPT));
  }

  /** The tab's session storage, as the two helpers use it. */
  class SessionStorage {
    var items: map<string, string>

    constructor ()
      ensures items == map[]
    {
      items := map[];
    }

    method LoadSessionSet(key: string) returns (entries: seq<string>)
      ensures entries == Load(if key in items then Some(items[key]) else None)
    {
      entries := [];
      if key in items && items[key] != "" {
        var parsed := Parse(items[key]);
        if parsed.Some? {
          entries := ToSet(parsed.value);
        }
      }
    }

    method SaveSessionSet(key: string, entries: seq<string>)
      modifies this
      ensures items == old(items)[key := Save(entries)]
    {
      var newest := if |entries| <= KEPT then entries else entries[|entries| - KEPT..];
      items := items[key := Stringify(newest)];
    }
  }
}
