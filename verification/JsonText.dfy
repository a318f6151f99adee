/**
 * JSON text of an array of strings: what `JSON.stringify` prints (escapes of section 7 of RFC 8259) and a reader for it.
 * The reader takes every escape of the section except those of surrogate halves, which are not characters here.
 */
module JsonText {
  import opened Text

  /** The escaped form of one character. */
  function Escape(c: char): string {
    if c == '"' then "\\\""
    else if c == '\\' then "\\\\"
    else if c == '\U{0008}' then "\\b"
    else if c == '\U{000C}' then "\\f"
    else if c == '\n' then "\\n"
    else if c == '\r' then "\\r"
    else if c == '\t' then "\\t"
    else if c < ' ' then "\\u00" + [HexDigit(c as nat / 16, 'a'), HexDigit(c as nat % 16, 'a')]
    else [c]
  }

  function EscapeAll(s: string): string {
    if s == "" then "" else Escape(s[0]) + EscapeAll(s[1..])
  }

  function Quote(s: string): string { "\"" + EscapeAll(s) + "\"" }

  function Items(parts: seq<string>): string {
    if parts == [] then "]"
    else Quote(parts[0]) + (if |parts| == 1 then "" else ",") + Items(parts[1..])
  }

  /** `JSON.stringify` of an array of strings. */
  function Stringify(parts: seq<string>): string { "[" + Items(parts) }

  // ---------- reading it back ----------

  function SimpleEscape(c: char): Option<char> {
    if c == '"' || c == '\\' || c == '/' then Some(c)
    else if c == 'b' then Some('\U{0008}')
    else if c == 'f' then Some('\U{000C}')
    else if c == 'n' then Some('\n')
    else if c == 'r' then Some('\r')
    else if c == 't' then Some('\t')
    else None
  }

  function FourHex(s: string): Option<char>
    requires |s| >= 4
  {
    var a, b, c, d := HexValue(s[0]), HexValue(s[1]), HexValue(s[2]), HexValue(s[3]);
    if a == None || b == None || c == None || d == None then None
    else
      var n := ((a.value * 16 + b.value) * 16 + c.value) * 16 + d.value;
      if n < 0xD800 || n > 0xDFFF then Some(n as char) else None
  }

  /** One character of a string literal: the character and how much text it took. */
  function ReadChar(s: string): (r: Option<(char, nat)>)
    ensures r.Some? ==> 0 < r.value.1 <= |s|
  {
    if s == "" || s[0] == '"' || s[0] < ' ' then None
    else if s[0] != '\\' then Some((s[0], 1))
    else if |s| < 2 then None
    else if s[1] == 'u' then
      if |s| < 6 then None else
      match FourHex(s[2..6]) case Some(c) => Some((c, 6)) case None => None
    else match SimpleEscape(s[1]) case Some(c) => Some((c, 2)) case None => None
  }

  /** The rest of a string literal after its opening quote: its value and the text behind it. */
  function ReadString(s: string): (r: Option<(string, string)>)
    ensures r.Some? ==> |r.value.1| < |s|
    decreases |s|
  {
    if s != "" && s[0] == '"' then Some(("", s[1..])) else
    match ReadChar(s)
    case None => None
    case Some((c, n)) =>
      match ReadString(s[n..])
      case None => None
      case Some((tail, rest)) => Some(([c] + tail, rest))
  }

  /** The items of an array after `[` or a comma, up to the closing bracket at the very end. */
  function ReadItems(s: string): Option<seq<string>>
    decreases |s|
  {
    if s == "" || s[0] != '"' then None else
    match ReadString(s[1..])
    case None => None
    case Some((item, rest)) =>
      if rest == "]" then Some([item])
      else if rest != "" && rest[0] == ',' then
        match ReadItems(rest[1..]) case Some(items) => Some([item] + items) case None => None
      else None
  }

  /** The strings of a JSON array, or None if the text is not one. */
  function Parse(s: string): Option<seq<string>> {
    if s == "[]" then Some([])
    else if s != "" && s[0] == '[' then ReadItems(s[1..])
    else None
  }

  // ---------- reading undoes printing ----------

  lemma ReadEscaped(c: char, rest: string)
    ensures ReadChar(Escape(c) + rest) == Some((c, |Escape(c)|))
  {
    var s := Escape(c) + rest;
    if c < ' ' && |Escape(c)| == 6 {
      var n := c as nat;
      assert s[2..6] == ['0', '0', HexDigit(n / 16, 'a'), HexDigit(n % 16, 'a')];
      assert HexValue('0') == Some(0);
      assert FourHex(s[2..6]) == Some(c);
    }
  }

  lemma {:induction false} ReadQuoted(s: string, rest: string)
    ensures ReadString(EscapeAll(s) + "\"" + rest) == Some((s, rest))
  {
    var tail := "\"" + rest;
    if s == "" {
      assert EscapeAll(s) + "\"" + rest == tail;
      assert tail[1..] == rest;
    } else {
      var more := EscapeAll(s[1..]) + "\"" + rest;
      assert EscapeAll(s) + "\"" + rest == Escape(s[0]) + more;
      ReadQuoted(s[1..], rest);
      ReadOneMore(s[0], more);
      assert s == [s[0]] + s[1..];
    }
  }

  lemma ReadOneMore(c: char, more: string)
    requires ReadString(more).Some?
    ensures var (tail, rest) := ReadString(more).value; ReadString(Escape(c) + more) == Some(([c] + tail, rest))
  {
    hide Escape;
    hide ReadChar;
    ReadEscaped(c, more);
    EscapeIsNotAQuote(c, more);
    assert (Escape(c) + more)[|Escape(c)|..] == more;
  }

  lemma EscapeIsNotAQuote(c: char, more: string)
    ensures Escape(c) + more != "" && (Escape(c) + more)[0] != '"'
  {
  }

  lemma ReadFirstItem(item: string, rest: string)
    ensures Quote(item) + rest != "" && (Quote(item) + rest)[0] == '"'
    ensures ReadString((Quote(item) + rest)[1..]) == Some((item, rest))
  {
    var s := Quote(item) + rest;
    assert s[1..] == EscapeAll(item) + "\"" + rest;
    ReadQuoted(item, rest);
  }

  lemma {:induction false} ReadPrintedItems(parts: seq<string>)
    requires parts != []
    ensures ReadItems(Items(parts)) == Some(parts)
  {
    hide Quote;
    hide ReadString;
    var more := Items(parts[1..]);
    if |parts| == 1 {
      ReadFirstItem(parts[0], "]");
      assert Items(parts) == Quote(parts[0]) + "]";
      assert parts == [parts[0]];
    } else {
      ReadFirstItem(parts[0], "," + more);
      assert Items(parts) == Quote(parts[0]) + ("," + more);
      assert ("," + more)[1..] == more;
      ReadPrintedItems(parts[1..]);
      assert parts == [parts[0]] + parts[1..];
    }
  }

  /** Brackets around, commas between and quotes around each string, whose special characters are escaped. */
  lemma PrintedArray(a: string, b: string)
    ensures Stringify([]) == "[]" && Stringify([a, b]) == "[" + (Quote(a) + "," + (Quote(b) + "" + "]"))
    ensures Escape('"') == "\\\"" && Escape('\\') == "\\\\" && Escape('\n') == "\\n" && Escape('\t') == "\\t" && Escape('x') == "x"
  {
    assert [a, b][1..] == [b] && [b][1..] == [];
    hide Quote;
    assert Items([]) == "]" && Items([b]) == Quote(b) + "" + "]";
  }

  /** Reading a printed array gives it back, so different arrays are printed differently. */
  lemma ParseUndoesStringify(parts: seq<string>)
    ensures Parse(Stringify(parts)) == Some(parts)
  {
    if parts != [] {
      ReadPrintedItems(parts);
      assert Stringify(parts)[1..] == Items(parts);
    }
  }

  lemma StringifyIsInjective(a: seq<string>, b: seq<string>)
    ensures Stringify(a) == Stringify(b) <==> a == b
  {
    ParseUndoesStringify(a);
    ParseUndoesStringify(b);
  }
}
