/**
 * application/x-www-form-urlencoded text, as URLSearchParams writes and reads it (section 5 of the WHATWG URL Standard):
 * UTF-8 bytes, percent-encoding and `+` for a space.
 */
module UrlQuery {
  import opened Text

  // ---------- UTF-8 ----------

  type Byte = b: int | 0 <= b < 256

  function Utf8(c: char): seq<Byte> {
    var n := c as int;
    if n < 0x80 then [n]
    else if n < 0x800 then [0xC0 + n / 64, 0x80 + n % 64]
    else if n < 0x1_0000 then [0xE0 + n / 4096, 0x80 + n / 64 % 64, 0x80 + n % 64]
    else [0xF0 + n / 262_144, 0x80 + n / 4096 % 64, 0x80 + n / 64 % 64, 0x80 + n % 64]
  }

  predicate IsScalar(n: int) { 0 <= n < 0xD800 || 0xE000 <= n < 0x11_0000 }

  predicate Continues(b: seq<Byte>, count: nat) {
    count < |b| && forall i :: 1 <= i <= count ==> 0x80 <= b[i] < 0xC0
  }

  /** The first character of a byte text and how many bytes it takes; a byte that begins none is U+FFFD. */
  function FirstChar(b: seq<Byte>): (r: (char, nat))
    requires b != []
    ensures 0 < r.1 <= |b|
  {
    var bad := ('\U{FFFD}', 1);
    if b[0] < 0x80 then (b[0] as char, 1)
    else if 0xC0 <= b[0] < 0xE0 && Continues(b, 1) then
      var n := (b[0] as int - 0xC0) * 64 + (b[1] as int - 0x80);
      if IsScalar(n) then (n as char, 2) else bad
    else if 0xE0 <= b[0] < 0xF0 && Continues(b, 2) then
      var n := (b[0] as int - 0xE0) * 4096 + (b[1] as int - 0x80) * 64 + (b[2] as int - 0x80);
      if IsScalar(n) then (n as char, 3) else bad
    else if 0xF0 <= b[0] < 0xF8 && Continues(b, 3) then
      var n := (b[0] as int - 0xF0) * 262_144 + (b[1] as int - 0x80) * 4096 + (b[2] as int - 0x80) * 64 + (b[3] as int - 0x80);
      if IsScalar(n) then (n as char, 4) else bad
    else bad
  }

  function Decode(b: seq<Byte>): string
    decreases |b|
  {
    if b == [] then "" else var (c, n) := FirstChar(b); [c] + Decode(b[n..])
  }

  lemma FirstCharOfUtf8(c: char, rest: seq<Byte>)
    ensures FirstChar(Utf8(c) + rest) == (c, |Utf8(c)|)
  {
    var n := c as int;
    if 0x80 <= n < 0x800 {
      TwoBytes(c, rest);
    } else if 0x800 <= n < 0x1_0000 {
      ThreeBytes(c, rest);
    } else if n >= 0x1_0000 {
      FourBytes(c, rest);
    }
  }

  lemma TwoBytes(c: char, rest: seq<Byte>)
    requires 0x80 <= c as int < 0x800
    ensures FirstChar(Utf8(c) + rest) == (c, 2)
  {
    var b := Utf8(c) + rest;
    assert Continues(b, 1);
    assert (b[0] as int - 0xC0) * 64 + (b[1] as int - 0x80) == c as int;
  }

  lemma ThreeBytes(c: char, rest: seq<Byte>)
    requires 0x800 <= c as int < 0x1_0000
    ensures FirstChar(Utf8(c) + rest) == (c, 3)
  {
    var b, n := Utf8(c) + rest, c as int;
    assert n / 64 == n / 4096 * 64 + n / 64 % 64;
    assert Continues(b, 2);
    assert (b[0] as int - 0xE0) * 4096 + (b[1] as int - 0x80) * 64 + (b[2] as int - 0x80) == n;
  }

  lemma FourDigits(n: int)
    requires 0 <= n < 0x11_0000
    ensures n == n / 262_144 * 262_144 + n / 4096 % 64 * 4096 + n / 64 % 64 * 64 + n % 64
    ensures n / 262_144 < 8
  {
    assert n / 64 == n / 4096 * 64 + n / 64 % 64;
    assert n / 4096 == n / 262_144 * 64 + n / 4096 % 64;
  }

  lemma FourBytes(c: char, rest: seq<Byte>)
    requires 0x1_0000 <= c as int
    ensures FirstChar(Utf8(c) + rest) == (c, 4)
  {
    var b, n := Utf8(c) + rest, c as int;
    FourDigits(n);
    assert Continues(b, 3);
    assert (b[0] as int - 0xF0) * 262_144 + (b[1] as int - 0x80) * 4096 + (b[2] as int - 0x80) * 64 + (b[3] as int - 0x80) == n;
  }

  function Encode(s: string): seq<Byte> { if s == "" then [] else Utf8(s[0]) + Encode(s[1..]) }

  lemma {:induction false} DecodeUndoesEncode(s: string)
    ensures Decode(Encode(s)) == s
  {
    if s != "" {
      var b := Encode(s);
      FirstCharOfUtf8(s[0], Encode(s[1..]));
      assert b[|Utf8(s[0])|..] == Encode(s[1..]);
      DecodeUndoesEncode(s[1..]);
    }
  }

  // ---------- percent-encoding ----------

  predicate IsPlain(c: char) {
    '0' <= c <= '9' || 'A' <= c <= 'Z' || 'a' <= c <= 'z' || c == '*' || c == '-' || c == '.' || c == '_'
  }

  function EscapeByte(b: Byte): string { ['%', HexDigit(b / 16, 'A'), HexDigit(b % 16, 'A')] }

  function EscapeBytes(b: seq<Byte>): string { if b == [] then "" else EscapeByte(b[0]) + EscapeBytes(b[1..]) }

  function EscapeChar(c: char): string {
    if IsPlain(c) then [c] else if c == ' ' then "+" else EscapeBytes(Utf8(c))
  }

  function Escape(s: string): string { if s == "" then "" else EscapeChar(s[0]) + Escape(s[1..]) }

  /** The bytes an encoded text stands for. */
  function UnescapeBytes(s: string): seq<Byte>
    decreases |s|
  {
    if s == "" then []
    else if s[0] == '+' then [0x20] + UnescapeBytes(s[1..])
    else if s[0] == '%' && |s| >= 3 && HexValue(s[1]).Some? && HexValue(s[2]).Some? then
      [HexValue(s[1]).value * 16 + HexValue(s[2]).value] + UnescapeBytes(s[3..])
    else Utf8(s[0]) + UnescapeBytes(s[1..])
  }

  function Unescape(s: string): string { Decode(UnescapeBytes(s)) }

  lemma {:induction false} BytesComeBack(b: seq<Byte>, rest: string)
    ensures UnescapeBytes(EscapeBytes(b) + rest) == b + UnescapeBytes(rest)
  {
    hide EscapeByte;
    hide UnescapeBytes;
    if b == [] {
      assert EscapeBytes(b) + rest == rest;
    } else {
      var tail := EscapeBytes(b[1..]) + rest;
      assert EscapeBytes(b) + rest == EscapeByte(b[0]) + tail;
      ByteComesBack(b[0], tail);
      BytesComeBack(b[1..], rest);
      assert b == [b[0]] + b[1..];
    }
  }

  lemma ByteComesBack(b: Byte, tail: string)
    ensures UnescapeBytes(EscapeByte(b) + tail) == [b] + UnescapeBytes(tail)
  {
    hide HexDigit;
    var s := EscapeByte(b) + tail;
    assert s[0] == '%' && s[1] == HexDigit(b / 16, 'A') && s[2] == HexDigit(b % 16, 'A') && s[3..] == tail;
  }

  lemma CharComesBack(c: char, rest: string)
    ensures UnescapeBytes(EscapeChar(c) + rest) == Utf8(c) + UnescapeBytes(rest)
  {
    var s := EscapeChar(c) + rest;
    if IsPlain(c) || c == ' ' {
      assert s[1..] == rest;
    } else {
      BytesComeBack(Utf8(c), rest);
    }
  }

  lemma {:induction false} TextComesBack(s: string)
    ensures UnescapeBytes(Escape(s)) == Encode(s)
  {
    if s != "" {
      CharComesBack(s[0], Escape(s[1..]));
      TextComesBack(s[1..]);
    }
  }

  lemma UnescapeUndoesEscape(s: string)
    ensures Unescape(Escape(s)) == s
  {
    TextComesBack(s);
    DecodeUndoesEncode(s);
  }

  /** An encoded text has none of the separators. */
  predicate Separated(s: string) { '&' !in s && '=' !in s }

  lemma {:induction false} BytesAreSeparated(b: seq<Byte>)
    ensures Separated(EscapeBytes(b))
  {
    if b != [] { BytesAreSeparated(b[1..]); }
  }

  lemma {:induction false} EscapedIsSeparated(s: string)
    ensures Separated(Escape(s))
  {
    if s != "" {
      BytesAreSeparated(Utf8(s[0]));
      EscapedIsSeparated(s[1..]);
    }
  }

  // ---------- parameter lists ----------

  datatype Param = Param(name: string, value: string)

  function PairText(p: Param): string { Escape(p.name) + ['='] + Escape(p.value) }

  /** `URLSearchParams.toString()`. */
  function Serialize(params: seq<Param>): string {
    if params == [] then "" else
    if |params| == 1 then PairText(params[0]) else PairText(params[0]) + ['&'] + Serialize(params[1..])
  }

  /** Where a character first occurs, or the length. */
  function IndexOf(s: string, c: char): (i: nat)
    ensures i <= |s| && (i < |s| ==> s[i] == c)
    ensures forall k :: 0 <= k < i ==> s[k] != c
  {
    if s == "" || s[0] == c then 0 else IndexOf(s[1..], c) + 1
  }

  function ParsePair(s: string): Param {
    var i := IndexOf(s, '=');
    Param(Unescape(s[..i]), if i < |s| then Unescape(s[i + 1..]) else Unescape(""))
  }

  /** The parameters of a query text; empty pieces between separators are skipped. */
  function ParseQuery(s: string): seq<Param>
    decreases |s|
  {
    if s == "" then [] else
    var i := IndexOf(s, '&');
    (if i == 0 then [] else [ParsePair(s[..i])]) + (if i < |s| then ParseQuery(s[i + 1..]) else [])
  }

  lemma IndexAfter(a: string, c: char, b: string)
    requires c !in a
    ensures IndexOf(a + [c] + b, c) == |a| && (a + [c] + b)[..|a|] == a && (a + [c] + b)[|a| + 1..] == b
  {
    var s := a + [c] + b;
    assert s[|a|] == c;
    assert forall k :: 0 <= k < |a| ==> s[k] == a[k];
  }

  lemma NoIndex(a: string, c: char)
    requires c !in a
    ensures IndexOf(a, c) == |a| && a[..|a|] == a
  {
  }

  lemma PairComesBack(p: Param)
    ensures ParsePair(PairText(p)) == p && PairText(p) != "" && '&' !in PairText(p)
  {
    EscapedIsSeparated(p.name);
    EscapedIsSeparated(p.value);
    IndexAfter(Escape(p.name), '=', Escape(p.value));
    UnescapeUndoesEscape(p.name);
    UnescapeUndoesEscape(p.value);
  }

  /** Reading back a written query gives its parameters, whatever characters they contain. */
  lemma {:induction false} ParseUndoesSerialize(params: seq<Param>)
    ensures ParseQuery(Serialize(params)) == params
  {
    hide PairText;
    if |params| == 1 {
      LastPairReads(params[0]);
      assert params == [params[0]];
    } else if |params| > 1 {
      FirstPairReads(params[0], Serialize(params[1..]));
      ParseUndoesSerialize(params[1..]);
      assert params == [params[0]] + params[1..];
    }
  }

  lemma LastPairReads(p: Param)
    ensures ParseQuery(PairText(p)) == [p]
  {
    hide PairText;
    hide ParsePair;
    hide IndexOf;
    PairComesBack(p);
    NoIndex(PairText(p), '&');
  }

  lemma FirstPairReads(p: Param, rest: string)
    ensures ParseQuery(PairText(p) + ['&'] + rest) == [p] + ParseQuery(rest)
  {
    hide PairText;
    hide ParsePair;
    hide IndexOf;
    PairComesBack(p);
    IndexAfter(PairText(p), '&', rest);
  }

  /** Equals signs inside pairs and ampersands between them. */
  lemma WrittenQuery(a: Param, b: Param)
    ensures Serialize([a, b]) == Escape(a.name) + "=" + Escape(a.value) + "&" + (Escape(b.name) + "=" + Escape(b.value))
  {
    hide Escape;
    assert [a, b][1..] == [b];
    assert Serialize([b]) == PairText(b);
  }

  /** A plus for a blank, and upper-case hexadecimal for the bytes of what is not plain. */
  lemma EscapedAscii()
    ensures EscapeChar(' ') == "+" && EscapeChar('x') == "x" && EscapeChar('-') == "-"
    ensures EscapeChar('&') == "%26" && EscapeChar('+') == "%2B"
  {
    OneByte(0x26);
    OneByte(0x2B);
  }

  lemma EscapedEAcute()
    ensures EscapeChar('\U{00E9}') == "%C3%A9"
  {
    TwoBytesOf(0xC3, 0xA9);
  }

  lemma OneByte(a: Byte)
    ensures EscapeBytes([a]) == EscapeByte(a)
  {
    assert [a][1..] == [];
  }

  lemma TwoBytesOf(a: Byte, b: Byte)
    ensures EscapeBytes([a, b]) == EscapeByte(a) + EscapeByte(b)
  {
    assert [a, b][1..] == [b];
    OneByte(b);
  }

  /** `URLSearchParams.get`: the value of the first parameter of that name. */
  function Get(params: seq<Param>, name: string): Option<string> {
    if params == [] then None
    else if params[0].name == name then Some(params[0].value)
    else Get(params[1..], name)
  }

  lemma {:induction false} GetConcat(a: seq<Param>, b: seq<Param>, name: string)
    ensures Get(a + b, name) == if Get(a, name).Some? then Get(a, name) else Get(b, name)
  {
    if a == [] {
      assert a + b == b;
    } else {
      assert (a + b)[0] == a[0] && (a + b)[1..] == a[1..] + b;
      GetConcat(a[1..], b, name);
    }
  }
}
