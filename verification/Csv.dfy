/**
 * The two CSV writers and a reader for section 2 of RFC 4180. The reader takes an optional line break after the last record.
 * It comes for three grammars: the RFC's, whose text is printable ASCII; the same with any other characters, except a bare CR
 * outside quotes; and one that takes a bare CR as text, as many readers do.
 */
module Csv {
  import opened Text

  const CRLF := "\r\n"
  const BOM := "\U{FEFF}"

  // ---------- the reader ----------

  datatype Grammar = Rfc4180 | NoBareCr | Lenient

  /** What can stand inside quotes: in the RFC's grammar TEXTDATA, comma, quote, CR and LF, otherwise everything. */
  predicate InQuotes(c: char, g: Grammar) { g == Rfc4180 ==> ' ' <= c <= '~' || c == '\r' || c == '\n' }

  /** The rest of a quoted field after its opening quote: the value, with doubled quotes undone, and what follows. */
  function ReadQuoted(s: string, g: Grammar): (r: Option<(string, string)>)
    ensures r.Some? ==> |r.value.1| < |s|
    decreases |s|
  {
    if s == "" then None
    else if s[0] != '"' then
      if !InQuotes(s[0], g) then None else
      match ReadQuoted(s[1..], g) case Some((v, rest)) => Some(([s[0]] + v, rest)) case None => None
    else if |s| > 1 && s[1] == '"' then
      match ReadQuoted(s[2..], g) case Some((v, rest)) => Some((['"'] + v, rest)) case None => None
    else Some(("", s[1..]))
  }

  /** Whether the first character of `s` is text of an unquoted field. */
  predicate IsTextData(s: string, g: Grammar) {
    && s != "" && s[0] != ',' && s[0] != '"' && s[0] != '\n' && InQuotes(s[0], g)
    && (s[0] == '\r' ==> g == Lenient && !(CRLF <= s))
  }

  function ReadBare(s: string, g: Grammar): (r: (string, string))
    ensures |r.1| <= |s| && s == r.0 + r.1
    decreases |s|
  {
    if IsTextData(s, g) then var (v, rest) := ReadBare(s[1..], g); ([s[0]] + v, rest)
    else ("", s)
  }

  function ReadField(s: string, g: Grammar): (r: Option<(string, string)>)
    ensures r.Some? ==> |r.value.1| <= |s|
  {
    if s != "" && s[0] == '"' then ReadQuoted(s[1..], g) else Some(ReadBare(s, g))
  }

  /** One record: fields separated by commas, and what follows the last of them. */
  function ReadRecord(s: string, g: Grammar): (r: Option<(seq<string>, string)>)
    ensures r.Some? ==> |r.value.1| <= |s|
    decreases |s|
  {
    match ReadField(s, g)
    case None => None
    case Some((v, rest)) =>
      if rest != "" && rest[0] == ',' then
        match ReadRecord(rest[1..], g) case Some((more, end)) => Some(([v] + more, end)) case None => None
      else Some(([v], rest))
  }

  /** A file: records separated by CRLF; a line break at the very end does not begin another record. */
  function ReadFile(s: string, g: Grammar): Option<seq<seq<string>>>
    decreases |s|
  {
    match ReadRecord(s, g)
    case None => None
    case Some((record, rest)) =>
      if rest == "" || rest == CRLF then Some([record])
      else if CRLF <= rest then
        match ReadFile(rest[2..], g) case Some(records) => Some([record] + records) case None => None
      else None
  }

  /** A byte order mark, then a file. */
  function Read(s: string, g: Grammar): Option<seq<seq<string>>> {
    if BOM <= s then ReadFile(s[1..], g) else ReadFile(s, g)
  }

  // ---------- the writers ----------

  function DoubleQuotes(s: string): string {
    if s == "" then "" else (if s[0] == '"' then "\"\"" else [s[0]]) + DoubleQuotes(s[1..])
  }

  function Quoted(s: string): string { ['"'] + DoubleQuotes(s) + ['"'] }

  /** The analytics writer quotes on a comma, a quote or a line feed. */
  function ManagerCell(s: string): string {
    if ',' in s || '"' in s || '\n' in s then Quoted(s) else s
  }

  /** A cell of the attendance sheets: a number by its text, or a text. */
  datatype Cell = Number(text: string) | Txt(s: string)

  predicate StartsFormula(s: string) { s != "" && s[0] in "=+-@\t\r" }

  /** Text a spreadsheet would run as a formula gets an apostrophe in front. */
  function Guarded(c: Cell): string {
    match c case Number(text) => text case Txt(s) => if StartsFormula(s) then ['\''] + s else s
  }

  /** The attendance writer quotes on a carriage return as well. */
  function AttendanceCell(c: Cell): string {
    var s := Guarded(c);
    if c.Txt? && (',' in s || '"' in s || '\n' in s || '\r' in s) then Quoted(s) else s
  }

  function Rows<C>(cell: C -> string, rows: seq<seq<C>>): string {
    Join(Map(RowText(cell), rows), CRLF)
  }

  function RowText<C>(cell: C -> string): seq<C> -> string {
    row => Join(Map(cell, row), ",")
  }

  function ManagerCsv(rows: seq<seq<string>>): string { BOM + Rows(ManagerCell, rows) }

  function AttendanceCsv(rows: seq<seq<Cell>>): string { BOM + Rows(AttendanceCell, rows) + CRLF }

  /** A table has at least one row and every row at least one cell. */
  predicate IsTable<C>(rows: seq<seq<C>>) { rows != [] && forall i :: 0 <= i < |rows| ==> rows[i] != [] }

  /** What a file looks like: a byte order mark, commas between cells, CRLF between rows, and for attendance at the end too. */
  lemma PrintedTable(a: string, b: string, c: string, d: string)
    requires forall s :: s in {a, b, c, d} ==> !(',' in s || '"' in s || '\n' in s || '\r' in s) && !StartsFormula(s)
    ensures ManagerCsv([[a, b], [c, d]]) == "\U{FEFF}" + (a + "," + b + "\r\n" + (c + "," + d))
    ensures AttendanceCsv([[Txt(a), Txt(b)], [Txt(c), Txt(d)]]) == "\U{FEFF}" + (a + "," + b + "\r\n" + (c + "," + d)) + "\r\n"
  {
    TwoCells(ManagerCell, a, b);
    TwoCells(ManagerCell, c, d);
    TwoCells(AttendanceCell, Txt(a), Txt(b));
    TwoCells(AttendanceCell, Txt(c), Txt(d));
    TwoRows(ManagerCell, [a, b], [c, d]);
    TwoRows(AttendanceCell, [Txt(a), Txt(b)], [Txt(c), Txt(d)]);
  }

  lemma TwoCells<C>(cell: C -> string, a: C, b: C)
    ensures RowText(cell)([a, b]) == cell(a) + "," + cell(b)
  {
    var texts := Map(cell, [a, b]);
    assert texts[1..] == [cell(b)] && Join(texts[1..], ",") == cell(b);
  }

  lemma TwoRows<C>(cell: C -> string, a: seq<C>, b: seq<C>)
    ensures Rows(cell, [a, b]) == RowText(cell)(a) + "\r\n" + RowText(cell)(b)
  {
    var texts := Map(RowText(cell), [a, b]);
    assert texts[1..] == [RowText(cell)(b)] && Join(texts[1..], CRLF) == RowText(cell)(b);
  }

  // ---------- one field ----------

  /** Where a field can end. */
  predicate AtEnd(rest: string) { rest == "" || rest[0] == ',' || CRLF <= rest }

  predicate AllInQuotes(v: string, g: Grammar) { forall i :: 0 <= i < |v| ==> InQuotes(v[i], g) }

  lemma {:induction false} ReadsQuoted(v: string, rest: string, g: Grammar)
    requires rest == "" || rest[0] != '"'
    ensures ReadQuoted(DoubleQuotes(v) + ['"'] + rest, g) == if AllInQuotes(v, g) then Some((v, rest)) else None
  {
    if v == "" {
      assert DoubleQuotes(v) + ['"'] + rest == ['"'] + rest;
    } else {
      FirstInQuotes(v, g);
      assert InQuotes('"', g);
      hide InQuotes;
      hide AllInQuotes;
      ReadsQuoted(v[1..], rest, g);
      var tail := DoubleQuotes(v[1..]) + ['"'] + rest;
      assert v == [v[0]] + v[1..];
      if v[0] == '"' {
        assert DoubleQuotes(v) + ['"'] + rest == ['"', '"'] + tail;
        assert (['"', '"'] + tail)[2..] == tail;
      } else {
        assert DoubleQuotes(v) + ['"'] + rest == [v[0]] + tail;
        assert ([v[0]] + tail)[1..] == tail;
      }
    }
  }

  lemma FirstInQuotes(v: string, g: Grammar)
    requires v != ""
    ensures AllInQuotes(v, g) <==> InQuotes(v[0], g) && AllInQuotes(v[1..], g)
  {
    assert v == [v[0]] + v[1..];
    assert forall i :: 0 < i < |v| ==> v[i] == v[1..][i - 1];
  }

  lemma ReadsQuotedField(v: string, rest: string, g: Grammar)
    requires AtEnd(rest)
    ensures ReadField(Quoted(v) + rest, g) == if AllInQuotes(v, g) then Some((v, rest)) else None
  {
    ReadsQuoted(v, rest, g);
    assert (Quoted(v) + rest)[1..] == DoubleQuotes(v) + ['"'] + rest;
  }

  /** Text without a separator, a quote or a line feed, which the writers may leave outside quotes. */
  predicate IsPlain(v: string) { ',' !in v && '"' !in v && '\n' !in v }

  /** Text outside quotes is read up to its end, or only to the first character that cannot stand there. */
  lemma {:induction false} ReadsBare(v: string, rest: string, g: Grammar)
    requires IsPlain(v) && AtEnd(rest)
    ensures if AllInQuotes(v, g) && ('\r' in v ==> g == Lenient) then ReadBare(v + rest, g) == (v, rest)
            else !AtEnd(ReadBare(v + rest, g).1)
  {
    if v == "" {
      assert v + rest == rest;
    } else {
      hide AllInQuotes;
      hide InQuotes;
      hide ReadBare;
      var s := v + rest;
      assert s[0] == v[0] && s[1..] == v[1..] + rest;
      FirstInQuotes(v, g);
      ReadsBare(v[1..], rest, g);
      StartsText(v, rest, g);
      BareStep(s, g);
      assert v == [v[0]] + v[1..];
    }
  }

  lemma StartsText(v: string, rest: string, g: Grammar)
    requires v != "" && IsPlain(v) && AtEnd(rest)
    ensures IsTextData(v + rest, g) <==> InQuotes(v[0], g) && (v[0] == '\r' ==> g == Lenient)
    ensures !AtEnd(v + rest)
  {
    assert |v + rest| > 1 ==> (v + rest)[1] == if |v| > 1 then v[1] else rest[0];
  }

  lemma BareStep(s: string, g: Grammar)
    requires s != ""
    ensures ReadBare(s, g) == if IsTextData(s, g) then var (v, rest) := ReadBare(s[1..], g); ([s[0]] + v, rest) else ("", s)
  {
  }

  lemma ReadsPlainField(v: string, rest: string, g: Grammar)
    requires IsPlain(v) && AtEnd(rest)
    ensures if AllInQuotes(v, g) && ('\r' in v ==> g == Lenient) then ReadField(v + rest, g) == Some((v, rest))
            else IsDead(ReadField(v + rest, g))
  {
    ReadsBare(v, rest, g);
    hide AllInQuotes;
    hide ReadBare;
    assert v != "" ==> (v + rest)[0] == v[0];
    assert v == "" ==> v + rest == rest;
  }

  /** Nothing was read, or what was read does not end where a field can end: the file is no file. */
  predicate IsDead<X>(r: Option<(X, string)>) { r == None || !AtEnd(r.value.1) }

  // ---------- whole files ----------

  /** A way of writing cells that the reader can undo, giving `value` back. */
  ghost predicate UndoesCell<C>(cell: C -> string, value: C -> string, g: Grammar, c: C) {
    forall rest :: AtEnd(rest) ==> ReadField(cell(c) + rest, g) == Some((value(c), rest))
  }

  ghost predicate Undoes<C>(cell: C -> string, value: C -> string, g: Grammar, row: seq<C>) {
    forall i :: 0 <= i < |row| ==> UndoesCell(cell, value, g, row[i])
  }

  /** A cell that no reader of this grammar gets past. */
  ghost predicate KillsCell<C>(cell: C -> string, g: Grammar, c: C) {
    forall rest :: AtEnd(rest) ==> IsDead(ReadField(cell(c) + rest, g))
  }

  /** A record of such cells reads back, up to a line break or the end. */
  lemma {:induction false} ReadsRow<C>(cell: C -> string, value: C -> string, g: Grammar, row: seq<C>, rest: string)
    requires row != [] && Undoes(cell, value, g, row) && (rest == "" || CRLF <= rest)
    ensures ReadRecord(RowText(cell)(row) + rest, g) == Some((Map(value, row), rest))
  {
    var c := row[0];
    assert UndoesCell(cell, value, g, c);
    if |row| == 1 {
      assert row == [c] && RowText(cell)(row) == cell(c);
      assert ReadField(cell(c) + rest, g) == Some((value(c), rest));
      assert Map(value, row) == [value(c)];
    } else {
      var more := RowText(cell)(row[1..]) + rest;
      RowFront(cell, row, rest);
      assert AtEnd("," + more);
      assert ReadField(cell(c) + ("," + more), g) == Some((value(c), "," + more));
      assert Map(value, row) == [value(c)] + Map(value, row[1..]);
      ReadsRow(cell, value, g, row[1..], rest);
      hide *;
      RecordGoesOn(cell(c) + ("," + more), g, value(c), more, Map(value, row[1..]), rest);
    }
  }

  lemma RecordGoesOn(s: string, g: Grammar, v: string, more: string, values: seq<string>, rest: string)
    requires ReadField(s, g) == Some((v, "," + more)) && ReadRecord(more, g) == Some((values, rest))
    ensures ReadRecord(s, g) == Some(([v] + values, rest))
  {
    assert ("," + more)[1..] == more;
  }

  lemma RowFront<C>(cell: C -> string, row: seq<C>, rest: string)
    requires |row| > 1
    ensures RowText(cell)(row) + rest == cell(row[0]) + ("," + (RowText(cell)(row[1..]) + rest))
  {
    var c, more := cell(row[0]), RowText(cell)(row[1..]);
    assert RowText(cell)(row) == c + "," + more by {
      var texts := Map(cell, row);
      assert texts[1..] == Map(cell, row[1..]);
    }
    hide RowText;
    ConcatAssociates(c + ",", more, rest);
    ConcatAssociates(c, ",", more + rest);
  }

  lemma RowsFront<C>(cell: C -> string, rows: seq<seq<C>>)
    requires rows != []
    ensures |rows| == 1 ==> Rows(cell, rows) == RowText(cell)(rows[0])
    ensures |rows| > 1 ==> Rows(cell, rows) == RowText(cell)(rows[0]) + (CRLF + Rows(cell, rows[1..]))
  {
    var texts := Map(RowText(cell), rows);
    assert |rows| > 1 ==> texts[1..] == Map(RowText(cell), rows[1..]);
  }

  function MapRow<C>(value: C -> string): seq<C> -> seq<string> { row => Map(value, row) }

  /** The first record of a file, and what it leaves for the others. */
  lemma ReadsFirstRow<C>(cell: C -> string, value: C -> string, g: Grammar, row: seq<C>, rest: string)
    requires row != [] && Undoes(cell, value, g, row) && (rest == "" || CRLF <= rest)
    ensures var all := ReadFile(RowText(cell)(row) + rest, g);
            if |rest| <= 2 then all == Some([Map(value, row)])
            else match ReadFile(rest[2..], g)
                 case Some(more) => all == Some([Map(value, row)] + more)
                 case None => all == None
  {
    ReadsRow(cell, value, g, row, rest);
    assert 0 < |rest| <= 2 ==> rest == CRLF;
  }

  lemma MapRowFront<C>(value: C -> string, rows: seq<seq<C>>)
    requires rows != []
    ensures Map(MapRow(value), rows) == [Map(value, rows[0])] + Map(MapRow(value), rows[1..])
    ensures |rows| == 1 ==> Map(MapRow(value), rows) == [Map(value, rows[0])]
  {
  }

  /** Written with a final line break, a table reads back exactly. */
  lemma {:induction false} ReadsTerminatedTable<C>(cell: C -> string, value: C -> string, g: Grammar, rows: seq<seq<C>>)
    requires IsTable(rows) && forall i :: 0 <= i < |rows| ==> Undoes(cell, value, g, rows[i])
    ensures ReadFile(Rows(cell, rows) + CRLF, g) == Some(Map(MapRow(value), rows))
  {
    RowsFront(cell, rows);
    MapRowFront(value, rows);
    if |rows| == 1 {
      ReadsFirstRow(cell, value, g, rows[0], CRLF);
    } else {
      var more := Rows(cell, rows[1..]) + CRLF;
      assert Rows(cell, rows) + CRLF == RowText(cell)(rows[0]) + (CRLF + more);
      assert (CRLF + more)[2..] == more;
      ReadsTerminatedTable(cell, value, g, rows[1..]);
      ReadsFirstRow(cell, value, g, rows[0], CRLF + more);
    }
  }

  /** Without a final line break, a last record that prints as nothing is read as the line break of the one before it. */
  function Kept<C>(cell: C -> string, rows: seq<seq<C>>): seq<seq<C>> {
    if |rows| > 1 && RowText(cell)(rows[|rows| - 1]) == "" then rows[..|rows| - 1] else rows
  }

  lemma KeptFront<C>(cell: C -> string, value: C -> string, rows: seq<seq<C>>)
    requires |rows| > 1
    ensures Rows(cell, rows[1..]) == "" ==> Map(MapRow(value), Kept(cell, rows)) == [Map(value, rows[0])]
    ensures Rows(cell, rows[1..]) != "" ==>
              Map(MapRow(value), Kept(cell, rows)) == [Map(value, rows[0])] + Map(MapRow(value), Kept(cell, rows[1..]))
  {
    var tail := rows[1..];
    RowsFront(cell, tail);
    assert tail[|tail| - 1] == rows[|rows| - 1];
    MapRowFront(value, Kept(cell, rows));
    if |tail| > 1 {
      assert Kept(cell, rows)[1..] == Kept(cell, tail);
    } else if Rows(cell, tail) == "" {
      assert Kept(cell, rows) == [rows[0]];
    } else {
      assert Kept(cell, rows)[1..] == Kept(cell, tail);
    }
  }

  lemma {:induction false} ReadsOpenTable<C>(cell: C -> string, value: C -> string, g: Grammar, rows: seq<seq<C>>)
    requires IsTable(rows) && forall i :: 0 <= i < |rows| ==> Undoes(cell, value, g, rows[i])
    ensures ReadFile(Rows(cell, rows), g) == Some(Map(MapRow(value), Kept(cell, rows)))
  {
    RowsFront(cell, rows);
    if |rows| == 1 {
      MapRowFront(value, rows);
      assert RowText(cell)(rows[0]) + "" == RowText(cell)(rows[0]);
      ReadsFirstRow(cell, value, g, rows[0], "");
    } else {
      var more := Rows(cell, rows[1..]);
      assert (CRLF + more)[2..] == more;
      ReadsFirstRow(cell, value, g, rows[0], CRLF + more);
      ReadsOpenTable(cell, value, g, rows[1..]);
      KeptFront(cell, value, rows);
    }
  }

  // ---------- files that are rejected ----------

  /** `bad` says which cells the grammar rejects; all others are undone. */
  ghost predicate Judged<C>(cell: C -> string, value: C -> string, g: Grammar, bad: C -> bool, rows: seq<seq<C>>) {
    forall i :: 0 <= i < |rows| ==> RowJudged(cell, value, g, bad, rows[i])
  }

  ghost predicate RowJudged<C>(cell: C -> string, value: C -> string, g: Grammar, bad: C -> bool, row: seq<C>) {
    forall j :: 0 <= j < |row| ==> if bad(row[j]) then KillsCell(cell, g, row[j]) else UndoesCell(cell, value, g, row[j])
  }

  predicate RowHas<C>(bad: C -> bool, row: seq<C>) { exists j :: 0 <= j < |row| && bad(row[j]) }

  predicate TableHas<C>(bad: C -> bool, rows: seq<seq<C>>) { exists i :: 0 <= i < |rows| && RowHas(bad, rows[i]) }

  lemma {:induction false} KilledRow<C>(
    cell: C -> string, value: C -> string, g: Grammar, bad: C -> bool, row: seq<C>, rest: string, j: nat)
    requires RowJudged(cell, value, g, bad, row) && j < |row| && bad(row[j]) && (rest == "" || CRLF <= rest)
    ensures IsDead(ReadRecord(RowText(cell)(row) + rest, g))
  {
    hide ReadField;
    hide ReadRecord;
    hide IsDead;
    var c, s := row[0], RowText(cell)(row) + rest;
    if |row| == 1 {
      assert RowText(cell)(row) == cell(c);
      DeadField(s, g);
    } else {
      var more := RowText(cell)(row[1..]) + rest;
      RowFront(cell, row, rest);
      assert AtEnd("," + more);
      if bad(c) {
        DeadField(s, g);
      } else {
        NextField(s, value(c), more, g);
        assert row[1..][j - 1] == row[j];
        KilledRow(cell, value, g, bad, row[1..], rest, j - 1);
      }
    }
  }

  lemma DeadField(s: string, g: Grammar)
    requires IsDead(ReadField(s, g))
    ensures IsDead(ReadRecord(s, g))
  {
  }

  lemma NextField(s: string, v: string, more: string, g: Grammar)
    requires ReadField(s, g) == Some((v, "," + more))
    ensures IsDead(ReadRecord(s, g)) <==> IsDead(ReadRecord(more, g))
  {
    assert ("," + more)[1..] == more;
  }

  lemma DeadRecord(s: string, g: Grammar)
    requires IsDead(ReadRecord(s, g))
    ensures ReadFile(s, g) == None
  {
  }

  /** One such cell anywhere makes the reader reject the whole file. */
  lemma {:induction false} TableIsRejected<C>(
    cell: C -> string, value: C -> string, g: Grammar, bad: C -> bool, rows: seq<seq<C>>, end: string)
    requires IsTable(rows) && Judged(cell, value, g, bad, rows) && TableHas(bad, rows) && (end == "" || end == CRLF)
    ensures ReadFile(Rows(cell, rows) + end, g) == None
  {
    hide ReadFile;
    hide Rows;
    var first := rows[0];
    var rest := AfterFirstRow(cell, rows, end);
    if RowHas(bad, first) {
      var j :| 0 <= j < |first| && bad(first[j]);
      KilledRow(cell, value, g, bad, first, rest, j);
      DeadRecord(RowText(cell)(first) + rest, g);
    } else {
      TailHas(cell, value, g, bad, rows);
      TableIsRejected(cell, value, g, bad, rows[1..], end);
      assert (CRLF + (Rows(cell, rows[1..]) + end))[2..] == Rows(cell, rows[1..]) + end;
      EmptyFileReads(g);
      ReadsFirstRow(cell, value, g, first, rest);
    }
  }

  lemma AfterFirstRow<C>(cell: C -> string, rows: seq<seq<C>>, end: string) returns (rest: string)
    requires rows != [] && (end == "" || end == CRLF)
    ensures rest == if |rows| == 1 then end else CRLF + (Rows(cell, rows[1..]) + end)
    ensures (rest == "" || CRLF <= rest) && Rows(cell, rows) + end == RowText(cell)(rows[0]) + rest
  {
    hide Rows;
    hide RowText;
    RowsFront(cell, rows);
    rest := if |rows| == 1 then end else CRLF + (Rows(cell, rows[1..]) + end);
    if |rows| > 1 {
      var more := Rows(cell, rows[1..]);
      ConcatAssociates(RowText(cell)(rows[0]), CRLF + more, end);
      ConcatAssociates(CRLF, more, end);
    }
  }

  lemma TailHas<C>(cell: C -> string, value: C -> string, g: Grammar, bad: C -> bool, rows: seq<seq<C>>)
    requires IsTable(rows) && Judged(cell, value, g, bad, rows) && TableHas(bad, rows) && !RowHas(bad, rows[0])
    ensures |rows| > 1 && IsTable(rows[1..]) && Judged(cell, value, g, bad, rows[1..]) && TableHas(bad, rows[1..])
    ensures Undoes(cell, value, g, rows[0])
  {
    var i :| 0 <= i < |rows| && RowHas(bad, rows[i]);
    assert rows[1..][i - 1] == rows[i];
    assert RowJudged(cell, value, g, bad, rows[0]);
  }

  lemma EmptyFileReads(g: Grammar)
    ensures ReadFile("", g) == Some([[""]])
  {
  }

  lemma AllUndone<C>(cell: C -> string, value: C -> string, g: Grammar, bad: C -> bool, rows: seq<seq<C>>)
    requires Judged(cell, value, g, bad, rows) && !TableHas(bad, rows)
    ensures forall i :: 0 <= i < |rows| ==> Undoes(cell, value, g, rows[i])
  {
    forall i | 0 <= i < |rows|
      ensures Undoes(cell, value, g, rows[i])
    {
      assert RowJudged(cell, value, g, bad, rows[i]) && !RowHas(bad, rows[i]);
    }
  }

  // ---------- the attendance file ----------

  /** Numbers are written as they are; their texts contain nothing special. */
  predicate IsCell(c: Cell) { c.Number? ==> IsNumberText(c.text) }

  /** A cell with a character that the grammar does not know. */
  function Foreign(g: Grammar): Cell -> bool { c => !AllInQuotes(Guarded(c), g) }

  lemma AttendanceCellReads(c: Cell, g: Grammar)
    requires IsCell(c)
    ensures if Foreign(g)(c) then KillsCell(AttendanceCell, g, c) else UndoesCell(AttendanceCell, Guarded, g, c)
  {
    var s := Guarded(c);
    forall rest | AtEnd(rest)
      ensures if Foreign(g)(c) then IsDead(ReadField(AttendanceCell(c) + rest, g))
              else ReadField(AttendanceCell(c) + rest, g) == Some((s, rest))
    {
      if c.Txt? && (',' in s || '"' in s || '\n' in s || '\r' in s) {
        ReadsQuotedField(s, rest, g);
      } else {
        NumberIsPlain(c);
        ReadsPlainField(s, rest, g);
      }
    }
  }

  lemma NumberIsPlain(c: Cell)
    requires IsCell(c)
    ensures c.Number? ==> IsPlain(c.text) && '\r' !in c.text
  {
  }

  /**
   * Any table the attendance writer prints reads back cell for cell, numbers as written and texts with their apostrophe guard,
   * also where a bare carriage return is forbidden. In the RFC's own grammar it does exactly if every character is printable
   * ASCII, a carriage return or a line feed; otherwise the file is rejected.
   */
  lemma AttendanceCsvReadsBack(rows: seq<seq<Cell>>, g: Grammar)
    requires IsTable(rows) && forall i, j :: 0 <= i < |rows| && 0 <= j < |rows[i]| ==> IsCell(rows[i][j])
    ensures Read(AttendanceCsv(rows), g) == if TableHas(Foreign(g), rows) then None else Some(Map(MapRow(Guarded), rows))
    ensures g != Rfc4180 ==> !TableHas(Foreign(g), rows)
  {
    hide ReadFile;
    hide Rows;
    hide TableHas;
    hide Judged;
    AttendanceJudged(rows, g);
    NothingIsForeign(rows, g);
    hide Foreign;
    assert AttendanceCsv(rows)[1..] == Rows(AttendanceCell, rows) + CRLF;
    if TableHas(Foreign(g), rows) {
      TableIsRejected(AttendanceCell, Guarded, g, Foreign(g), rows, CRLF);
    } else {
      AllUndone(AttendanceCell, Guarded, g, Foreign(g), rows);
      ReadsTerminatedTable(AttendanceCell, Guarded, g, rows);
    }
  }

  lemma AttendanceJudged(rows: seq<seq<Cell>>, g: Grammar)
    requires forall i, j :: 0 <= i < |rows| && 0 <= j < |rows[i]| ==> IsCell(rows[i][j])
    ensures Judged(AttendanceCell, Guarded, g, Foreign(g), rows)
  {
    forall i, j | 0 <= i < |rows| && 0 <= j < |rows[i]|
      ensures if Foreign(g)(rows[i][j]) then KillsCell(AttendanceCell, g, rows[i][j])
              else UndoesCell(AttendanceCell, Guarded, g, rows[i][j])
    {
      AttendanceCellReads(rows[i][j], g);
    }
  }

  lemma NothingIsForeign(rows: seq<seq<Cell>>, g: Grammar)
    ensures g != Rfc4180 ==> !TableHas(Foreign(g), rows)
  {
  }

  /**
   * A text gets an apostrophe exactly if it begins with one of six characters. So no text that is read back is a formula, and two
   * texts are confused only if one is the other with an apostrophe.
   */
  lemma GuardIsSafe(a: string, b: string)
    ensures var c := if a == "" then ' ' else a[0];
            Guarded(Txt(a)) == if c == '=' || c == '+' || c == '-' || c == '@' || c == '\t' || c == '\r' then "'" + a else a
    ensures !StartsFormula(Guarded(Txt(a)))
    ensures Guarded(Txt(a)) == Guarded(Txt(b)) && a != b ==>
              (StartsFormula(a) && b == ['\''] + a) || (StartsFormula(b) && a == ['\''] + b)
  {
    if Guarded(Txt(a)) == Guarded(Txt(b)) && StartsFormula(a) && StartsFormula(b) {
      assert (['\''] + a)[1..] == a && (['\''] + b)[1..] == b;
    }
  }

  // ---------- the analytics file ----------

  function Same(s: string): string { s }

  /** A carriage return that the analytics writer leaves outside quotes. */
  predicate BareCr(s: string) { '\r' in s && IsPlain(s) }

  /** A cell with a character that the grammar does not know, or with a bare carriage return where that is forbidden. */
  function Unreadable(g: Grammar): string -> bool { s => !AllInQuotes(s, g) || (g != Lenient && BareCr(s)) }

  lemma ManagerCellReads(s: string, g: Grammar)
    ensures if Unreadable(g)(s) then KillsCell(ManagerCell, g, s) else UndoesCell(ManagerCell, Same, g, s)
  {
    forall rest | AtEnd(rest)
      ensures if Unreadable(g)(s) then IsDead(ReadField(ManagerCell(s) + rest, g))
              else ReadField(ManagerCell(s) + rest, g) == Some((s, rest))
    {
      if IsPlain(s) {
        ReadsPlainField(s, rest, g);
      } else {
        ReadsQuotedField(s, rest, g);
      }
    }
  }

  lemma {:induction false} SameRow(row: seq<string>)
    ensures Map(Same, row) == row
  {
  }

  lemma SameRows(rows: seq<seq<string>>)
    ensures Map(MapRow(Same), rows) == rows
  {
    forall i | 0 <= i < |rows|
      ensures MapRow(Same)(rows[i]) == rows[i]
    {
      SameRow(rows[i]);
    }
  }

  lemma PrintsAsNothing(row: seq<string>)
    requires row != []
    ensures RowText(ManagerCell)(row) == "" <==> row == [""]
  {
    var texts := Map(ManagerCell, row);
    assert |row| > 1 ==> Join(texts, ",") == texts[0] + "," + Join(texts[1..], ",");
  }

  /** The table without a last row that is one empty cell, unless that is its only row. */
  function WithoutEmptyLastRow(rows: seq<seq<string>>): seq<seq<string>> {
    if |rows| > 1 && rows[|rows| - 1] == [""] then rows[..|rows| - 1] else rows
  }

  /**
   * What becomes of any table the analytics writer prints: it is rejected if a cell has a bare carriage return and the grammar
   * forbids that, or a character the grammar does not know; otherwise its rows come back, except for a last row that is one
   * empty cell.
   */
  lemma ManagerCsvReadsBack(rows: seq<seq<string>>, g: Grammar)
    requires IsTable(rows)
    ensures Read(ManagerCsv(rows), g) == if TableHas(Unreadable(g), rows) then None else Some(WithoutEmptyLastRow(rows))
  {
    hide ReadFile;
    hide Rows;
    hide Unreadable;
    hide TableHas;
    hide Judged;
    hide Kept;
    ManagerJudged(rows, g);
    var text := Rows(ManagerCell, rows);
    assert ManagerCsv(rows)[1..] == text && text + "" == text;
    if TableHas(Unreadable(g), rows) {
      TableIsRejected(ManagerCell, Same, g, Unreadable(g), rows, "");
    } else {
      AllUndone(ManagerCell, Same, g, Unreadable(g), rows);
      ReadsOpenTable(ManagerCell, Same, g, rows);
      SameRows(Kept(ManagerCell, rows));
      KeptRows(rows);
    }
  }

  lemma ManagerJudged(rows: seq<seq<string>>, g: Grammar)
    ensures Judged(ManagerCell, Same, g, Unreadable(g), rows)
  {
    forall i, j | 0 <= i < |rows| && 0 <= j < |rows[i]|
      ensures if Unreadable(g)(rows[i][j]) then KillsCell(ManagerCell, g, rows[i][j])
              else UndoesCell(ManagerCell, Same, g, rows[i][j])
    {
      ManagerCellReads(rows[i][j], g);
    }
  }

  lemma KeptRows(rows: seq<seq<string>>)
    requires IsTable(rows)
    ensures Kept(ManagerCell, rows) == WithoutEmptyLastRow(rows)
  {
    PrintsAsNothing(rows[|rows| - 1]);
  }

  /** So the round trip holds exactly for tables without such a last row and without such cells. */
  lemma ManagerCsvRoundTrip(rows: seq<seq<string>>, g: Grammar)
    requires IsTable(rows)
    ensures Read(ManagerCsv(rows), g) == Some(rows) <==>
            !(|rows| > 1 && rows[|rows| - 1] == [""]) && !TableHas(Unreadable(g), rows)
    ensures g == Lenient ==> !TableHas(Unreadable(g), rows)
  {
    ManagerCsvReadsBack(rows, g);
  }

  /** One bare carriage return anywhere makes any reader that forbids it reject the file. */
  lemma BareTableIsRejected(rows: seq<seq<string>>, g: Grammar, i: nat, j: nat)
    requires IsTable(rows) && g != Lenient && i < |rows| && j < |rows[i]| && BareCr(rows[i][j])
    ensures Read(ManagerCsv(rows), g) == None
  {
    assert Unreadable(g)(rows[i][j]);
    assert RowHas(Unreadable(g), rows[i]);
    ManagerCsvReadsBack(rows, g);
  }
}
