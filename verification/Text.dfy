/** Strings the way the JavaScript sources use them: trimming, prefixes, joining, and `<` on strings. */
module Text {

  datatype Option<+T> = None | Some(value: T)

  predicate IsDigit(c: char) { '0' <= c <= '9' }

  predicate AllDigits(s: string) { forall i :: 0 <= i < |s| ==> IsDigit(s[i]) }

  function Digit(n: int): (c: char)
    requires 0 <= n <= 9
    ensures IsDigit(c)
  {
    ('0' as int + n) as char
  }

  /** A hexadecimal digit whose letters begin at `a`, in lower or upper case. */
  function HexDigit(n: int, a: char): (c: char)
    requires 0 <= n < 16 && (a == 'a' || a == 'A')
    ensures HexValue(c) == Some(n)
    ensures IsDigit(c) || a <= c <= 'z'
  {
    if n < 10 then ('0' as int + n) as char else (a as int + n - 10) as char
  }

  function HexValue(c: char): (r: Option<int>)
    ensures r.Some? ==> 0 <= r.value < 16
  {
    if '0' <= c <= '9' then Some(c as int - '0' as int)
    else if 'A' <= c <= 'F' then Some(c as int - 'A' as int + 10)
    else if 'a' <= c <= 'f' then Some(c as int - 'a' as int + 10)
    else None
  }

  /** The number that two digits stand for. */
  function Value2(s: string): int
    requires |s| == 2
  {
    (s[0] as int - '0' as int) * 10 + (s[1] as int - '0' as int)
  }

  predicate Distinct(s: seq<string>) { forall i, j :: 0 <= i < j < |s| ==> s[i] != s[j] }

  lemma ConcatAssociates<A>(a: seq<A>, b: seq<A>, c: seq<A>)
    ensures a + (b + c) == a + b + c
  {
  }

  /** WhiteSpace and LineTerminator of ECMA-262: what `String.prototype.trim` removes. */
  predicate IsSpace(c: char) {
    || '\t' <= c <= '\r'
    || c == ' '
    || c == '\U{00A0}'
    || c == '\U{1680}'
    || '\U{2000}' <= c <= '\U{200A}'
    || c == '\U{2028}'
    || c == '\U{2029}'
    || c == '\U{202F}'
    || c == '\U{205F}'
    || c == '\U{3000}'
    || c == '\U{FEFF}'
  }

  function TrimStart(s: string): (r: string)
    ensures |r| <= |s| && r == s[|s| - |r|..]
    ensures r != "" ==> !IsSpace(r[0])
    ensures s != "" && !IsSpace(s[0]) ==> r == s
  {
    if s != "" && IsSpace(s[0]) then TrimStart(s[1..]) else s
  }

  function TrimEnd(s: string): (r: string)
    ensures |r| <= |s| && r == s[..|r|]
    ensures r != "" ==> !IsSpace(r[|r| - 1])
    ensures s != "" && !IsSpace(s[|s| - 1]) ==> r == s
  {
    if s != "" && IsSpace(s[|s| - 1]) then TrimEnd(s[..|s| - 1]) else s
  }

  function Trim(s: string): (r: string)
    ensures s != "" && !IsSpace(s[0]) && !IsSpace(s[|s| - 1]) ==> r == s
  {
    TrimEnd(TrimStart(s))
  }

  predicate AllSpace(s: string) { forall i :: 0 <= i < |s| ==> IsSpace(s[i]) }

  /** The 25 characters that ECMA-262 calls WhiteSpace or LineTerminator, written out. */
  lemma SpacesAre(c: char)
    ensures IsSpace(c) <==>
            c in "\t\n\U{000B}\U{000C}\r \U{00A0}\U{1680}\U{2000}\U{2001}\U{2002}\U{2003}\U{2004}\U{2005}\U{2006}\U{2007}\U{2008}\U{2009}"
            || c in "\U{200A}\U{2028}\U{2029}\U{202F}\U{205F}\U{3000}\U{FEFF}"
  {
  }

  /** Trimming takes off white space at both ends and nothing else. */
  lemma TrimTakesOffSpace(a: string, t: string, b: string)
    requires AllSpace(a) && AllSpace(b) && (t != "" ==> !IsSpace(t[0]) && !IsSpace(t[|t| - 1]))
    ensures Trim(a + t + b) == t
  {
    hide IsSpace;
    StartOf(a, t + b);
    ConcatAssociates(a, t, b);
    if t == "" {
      NothingButSpace(b);
      assert t + b == b;
    } else {
      EndOf(t, b);
      assert (t + b)[0] == t[0];
      hide AllSpace;
      hide TrimStart;
      hide TrimEnd;
      assert TrimStart(t + b) == t + b;
      assert TrimEnd(t) == t;
    }
  }

  lemma NothingButSpace(b: string)
    requires AllSpace(b)
    ensures Trim(b) == "" && TrimStart(b) == ""
  {
    StartOf(b, "");
    assert b + "" == b;
  }

  lemma {:induction false} StartOf(a: string, s: string)
    requires AllSpace(a)
    ensures TrimStart(a + s) == TrimStart(s)
  {
    hide IsSpace;
    if a == "" {
      assert a + s == s;
    } else {
      assert (a + s)[1..] == a[1..] + s;
      StartOf(a[1..], s);
    }
  }

  lemma {:induction false} EndOf(s: string, b: string)
    requires AllSpace(b)
    ensures TrimEnd(s + b) == TrimEnd(s)
  {
    hide IsSpace;
    if b == "" {
      assert s + b == s;
    } else {
      assert (s + b)[..|s + b| - 1] == s + b[..|b| - 1];
      EndOf(s, b[..|b| - 1]);
    }
  }

  /** A text is blank if nothing is left after trimming. */
  lemma BlankIsAllSpace(s: string)
    ensures Trim(s) == "" <==> AllSpace(s)
  {
    hide IsSpace;
    if AllSpace(s) {
      NothingButSpace(s);
    } else {
      var i :| 0 <= i < |s| && !IsSpace(s[i]);
      TrimKeeps(s, i);
    }
  }

  lemma TrimKeeps(s: string, i: nat)
    requires i < |s| && !IsSpace(s[i])
    ensures Trim(s) != ""
  {
    hide IsSpace;
    hide TrimStart;
    hide TrimEnd;
    StartKeeps(s, i);
    var t := TrimStart(s);
    EndKeeps(t, |t| - (|s| - i));
  }

  lemma {:induction false} StartKeeps(s: string, i: nat)
    requires i < |s| && !IsSpace(s[i])
    ensures |TrimStart(s)| >= |s| - i && TrimStart(s)[|TrimStart(s)| - (|s| - i)] == s[i]
  {
    hide IsSpace;
    if IsSpace(s[0]) { StartKeeps(s[1..], i - 1); }
  }

  lemma {:induction false} EndKeeps(s: string, i: nat)
    requires i < |s| && !IsSpace(s[i])
    ensures |TrimEnd(s)| > i
  {
    hide IsSpace;
    if IsSpace(s[|s| - 1]) { EndKeeps(s[..|s| - 1], i); }
  }

  /** `Array.prototype.join`. */
  function Join(parts: seq<string>, sep: string): string {
    if parts == [] then "" else
    if |parts| == 1 then parts[0] else parts[0] + sep + Join(parts[1..], sep)
  }

  function Map<A, B>(f: A -> B, s: seq<A>): (r: seq<B>)
    ensures |r| == |s|
    ensures forall i :: 0 <= i < |s| ==> r[i] == f(s[i])
  {
    if s == [] then [] else [f(s[0])] + Map(f, s[1..])
  }

  lemma {:induction false} MapLast<A, B>(f: A -> B, s: seq<A>)
    requires s != []
    ensures Map(f, s) == Map(f, s[..|s| - 1]) + [f(s[|s| - 1])]
  {
    var n := |s| - 1;
    if n == 0 {
      assert s[1..] == [] && s[..n] == [];
    } else {
      var middle := Map(f, s[1..][..n - 1]);
      assert s[..n][0] == s[0] && s[..n][1..] == s[1..][..n - 1];
      MapLast(f, s[1..]);
      hide Map;
      ConcatAssociates([f(s[0])], middle, [f(s[n])]);
    }
  }

  ghost predicate InjectiveOn<A, B>(f: A -> B, s: seq<A>, t: seq<A>) {
    forall x, y :: x in s + t && y in s + t && f(x) == f(y) ==> x == y
  }

  lemma {:induction false} MapCounts<A, B>(f: A -> B, s: seq<A>, x: A)
    requires forall y :: y in s && f(y) == f(x) ==> y == x
    ensures multiset(Map(f, s))[f(x)] == multiset(s)[x]
  {
    if s != [] {
      assert forall y :: y in s[1..] ==> y in s;
      MapCounts(f, s[1..], x);
      assert s[0] in s;
      assert s == [s[0]] + s[1..];
      assert Map(f, s) == [f(s[0])] + Map(f, s[1..]);
    }
  }

  lemma MapReflectsMultisets<A, B>(f: A -> B, s: seq<A>, t: seq<A>)
    requires InjectiveOn(f, s, t) && multiset(Map(f, s)) == multiset(Map(f, t))
    ensures multiset(s) == multiset(t)
  {
    forall x | x in s + t
      ensures multiset(s)[x] == multiset(t)[x]
    {
      MapCounts(f, s, x);
      MapCounts(f, t, x);
    }
    SameCounts(s, t);
  }

  function Without<A>(s: seq<A>, k: nat): seq<A>
    requires k < |s|
  {
    s[..k] + s[k + 1..]
  }

  lemma CountWithout<A>(s: seq<A>, k: nat)
    requires k < |s|
    ensures multiset(s) == multiset(Without(s, k)) + multiset{s[k]}
  {
    assert s == s[..k] + ([s[k]] + s[k + 1..]);
  }

  lemma MapWithout<A, B>(f: A -> B, s: seq<A>, k: nat)
    requires k < |s|
    ensures multiset(Map(f, s)) == multiset(Map(f, Without(s, k))) + multiset{f(s[k])}
  {
    hide Map;
    hide Without;
    CountWithout(Map(f, s), k);
    WithoutCommutes(f, s, k);
  }

  lemma WithoutCommutes<A, B>(f: A -> B, s: seq<A>, k: nat)
    requires k < |s|
    ensures Map(f, Without(s, k)) == Without(Map(f, s), k)
  {
    hide Map;
    var a, b := Map(f, Without(s, k)), Without(Map(f, s), k);
    assert |a| == |b|;
    forall i | 0 <= i < |a|
      ensures a[i] == b[i]
    {
      assert Without(s, k)[i] == s[if i < k then i else i + 1];
    }
  }

  lemma {:induction false} MapFollowsMultisets<A, B>(f: A -> B, s: seq<A>, t: seq<A>)
    requires multiset(s) == multiset(t)
    ensures multiset(Map(f, s)) == multiset(Map(f, t))
  {
    if s == [] {
      assert |t| == |multiset(t)| == 0;
    } else {
      assert s[0] in multiset(t);
      var k :| 0 <= k < |t| && t[k] == s[0];
      CountWithout(s, 0);
      CountWithout(t, k);
      assert multiset(Without(s, 0)) == multiset(s) - multiset{s[0]};
      assert multiset(Without(t, k)) == multiset(t) - multiset{t[k]};
      MapFollowsMultisets(f, Without(s, 0), Without(t, k));
      MapWithout(f, s, 0);
      MapWithout(f, t, k);
    }
  }

  /** An injective function makes two lists rearrangements of each other exactly when they already were. */
  lemma MapKeepsMultisets<A, B>(f: A -> B, s: seq<A>, t: seq<A>)
    requires InjectiveOn(f, s, t)
    ensures multiset(Map(f, s)) == multiset(Map(f, t)) <==> multiset(s) == multiset(t)
  {
    if multiset(s) == multiset(t) { MapFollowsMultisets(f, s, t); }
    if multiset(Map(f, s)) == multiset(Map(f, t)) { MapReflectsMultisets(f, s, t); }
  }

  lemma SameCounts<A>(s: seq<A>, t: seq<A>)
    requires forall x :: x in s + t ==> multiset(s)[x] == multiset(t)[x]
    ensures multiset(s) == multiset(t)
  {
    forall x
      ensures multiset(s)[x] == multiset(t)[x]
    {
      if x !in s + t { assert x !in multiset(s) && x !in multiset(t); }
    }
  }

  function FlatMap<A, B>(f: A -> seq<B>, s: seq<A>): seq<B> {
    if s == [] then [] else f(s[0]) + FlatMap(f, s[1..])
  }

  lemma {:induction false} FlatMapConcat<A, B>(f: A -> seq<B>, s: seq<A>, t: seq<A>)
    ensures FlatMap(f, s + t) == FlatMap(f, s) + FlatMap(f, t)
  {
    if s == [] {
      assert s + t == t;
    } else {
      assert (s + t)[0] == s[0] && (s + t)[1..] == s[1..] + t;
      FlatMapConcat(f, s[1..], t);
    }
  }

  function Flatten<A>(parts: seq<seq<A>>): seq<A> {
    if parts == [] then [] else parts[0] + Flatten(parts[1..])
  }

  lemma {:induction false} FlattenAppend<A>(parts: seq<seq<A>>, last: seq<A>)
    ensures Flatten(parts + [last]) == Flatten(parts) + last
  {
    if parts == [] {
      assert [] + [last] == [last];
    } else {
      FlattenAppend(parts[1..], last);
      assert (parts + [last])[1..] == parts[1..] + [last];
    }
  }

  // ---------- `<` on strings ----------

  /** The strict lexicographic order of JavaScript's `<` on two strings. */
  predicate Less(a: string, b: string) {
    b != "" && (a == "" || a[0] < b[0] || (a[0] == b[0] && Less(a[1..], b[1..])))
  }

  predicate AtMost(a: string, b: string) { !Less(b, a) }

  lemma {:induction false} LessIrreflexive(a: string)
    ensures !Less(a, a)
  {
    if a != "" { LessIrreflexive(a[1..]); }
  }

  lemma {:induction false} LessTransitive(a: string, b: string, c: string)
    requires Less(a, b) && Less(b, c)
    ensures Less(a, c)
  {
    if a != "" && a[0] == b[0] && b[0] == c[0] { LessTransitive(a[1..], b[1..], c[1..]); }
  }

  lemma {:induction false} LessTotal(a: string, b: string)
    ensures Less(a, b) || Less(b, a) || a == b
  {
    if a != "" && b != "" && a[0] == b[0] {
      LessTotal(a[1..], b[1..]);
      if a[1..] == b[1..] { assert a == [a[0]] + a[1..] && b == [b[0]] + b[1..]; }
    }
  }

  /** Strings that start with parts of the same length compare by those parts first. */
  lemma {:induction false} LessConcat(a: string, b: string, s: string, t: string)
    requires |a| == |b|
    ensures Less(a + s, b + t) <==> Less(a, b) || (a == b && Less(s, t))
  {
    if a == "" {
      assert a + s == s && b + t == t;
    } else {
      assert (a + s)[1..] == a[1..] + s && (b + t)[1..] == b[1..] + t;
      LessConcat(a[1..], b[1..], s, t);
      if a[0] == b[0] {
        assert a == b <==> a[1..] == b[1..] by { assert a == [a[0]] + a[1..] && b == [b[0]] + b[1..]; }
      }
    }
  }

  // ---------- numbers as text ----------

  /**
   * A finite JavaScript number is represented by the text `String(n)` gives it, which is injective on numbers (-0 and 0 are
   * one number here). The shapes are those of Number::toString in ECMA-262: "12", "-0.5", "1e+21".
   */
  predicate IsNumberText(s: string) {
    && (exists i :: 0 <= i < |s| && IsDigit(s[i]))
    && (forall i :: 0 <= i < |s| ==> IsDigit(s[i]) || s[i] in "+-.e")
  }

  /** The last occurrence of a separator that the second part cannot contain splits a text uniquely. */
  lemma SplitAtLast(a: string, b: string, a': string, b': string, sep: char)
    requires sep !in b && sep !in b'
    requires a + [sep] + b == a' + [sep] + b'
    ensures a == a' && b == b'
  {
    var s := a + [sep] + b;
    var t := a' + [sep] + b';
    assert s[|a|] == sep && t[|a'|] == sep;
    assert forall i :: |a| < i < |s| ==> s[i] == b[i - |a| - 1];
    assert forall i :: |a'| < i < |t| ==> t[i] == b'[i - |a'| - 1];
    assert |a| == |a'|;
    assert a == s[..|a|] && a' == t[..|a|];
    assert b == s[|a| + 1..] && b' == t[|a| + 1..];
  }
}
