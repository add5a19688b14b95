/** The CSV printer, and a reader of section 2 of RFC 4180 that recovers what it
    printed. */
module Csv {
  import opened Wrappers

  const BOM: string := "\U{FEFF}"
  const CRLF: string := "\r\n"

  /** A row's values under its keys; a null value is None. */
  type Row = map<string, Option<string>>

  // --------------------------------------------------------------------- printing

  predicate IsSpecial(c: char) { c == ',' || c == '"' || c == '\n' || c == '\r' }

  predicate Plain(s: string) {
    forall i :: 0 <= i < |s| ==> !IsSpecial(s[i])
  }

  function Doubled(s: string): string {
    if s == "" then ""
    else (if s[0] == '"' then "\"\"" else [s[0]]) + Doubled(s[1..])
  }

  function EscapeCell(value: Option<string>): string {
    match value
    case None => ""
    case Some(s) => if Plain(s) then s else ['"'] + (Doubled(s) + ['"'])
  }

  function Join(parts: seq<string>, separator: string): string {
    if parts == [] then ""
    else if |parts| == 1 then parts[0]
    else parts[0] + (separator + Join(parts[1..], separator))
  }

  function Lookup(row: Row, key: string): Option<string> {
    if key in row then row[key] else None
  }

  function Present(headers: seq<string>): seq<Option<string>> {
    seq(|headers|, i requires 0 <= i < |headers| => Some(headers[i]))
  }

  function Values(headers: seq<string>, row: Row): seq<Option<string>> {
    seq(|headers|, i requires 0 <= i < |headers| => Lookup(row, headers[i]))
  }

  function Line(values: seq<Option<string>>): string {
    Join(seq(|values|, i requires 0 <= i < |values| => EscapeCell(values[i])), ",")
  }

  function Lines(headers: seq<string>, rows: seq<Row>): seq<string> {
    [Line(Present(headers))] + seq(|rows|, i requires 0 <= i < |rows| => Line(Values(headers, rows[i])))
  }

  function ToCsv(headers: seq<string>, rows: seq<Row>): string { BOM + Join(Lines(headers, rows), CRLF) }

  // ---------------------------------------------------------------------- reading

  datatype Read<T> = Failed | Got(value: T, rest: string)

  /** The inside of a quoted field, from after its opening quote. */
  function ReadQuoted(s: string): (r: Read<string>)
    ensures r.Got? ==> |r.rest| < |s|
  {
    if s == "" then Failed
    else if s[0] == '"' && !(|s| > 1 && s[1] == '"') then Got("", s[1..])
    else
      match ReadQuoted(if s[0] == '"' then s[2..] else s[1..])
      case Failed => Failed
      case Got(t, rest) => Got([s[0]] + t, rest)
  }

  function ReadBare(s: string): (r: Read<string>)
    ensures r.Got? && |r.rest| <= |s|
  {
    if s == "" || IsSpecial(s[0]) then Got("", s)
    else
      var tail := ReadBare(s[1..]);
      Got([s[0]] + tail.value, tail.rest)
  }

  function ReadField(s: string): (r: Read<string>)
    ensures r.Got? ==> |r.rest| <= |s|
  {
    if s != "" && s[0] == '"' then ReadQuoted(s[1..]) else ReadBare(s)
  }

  function ReadRecord(s: string): (r: Read<seq<string>>)
    ensures r.Got? ==> |r.rest| <= |s|
    decreases |s|
  {
    match ReadField(s)
    case Failed => Failed
    case Got(field, rest) =>
      if rest != "" && rest[0] == ',' then
        match ReadRecord(rest[1..])
        case Failed => Failed
        case Got(fields, after) => Got([field] + fields, after)
      else Got([field], rest)
  }

  /** Records between line breaks.  With `closed`, a line break at the very end closes
      the last record instead of opening an empty one. */
  function ReadFile(s: string, closed: bool): Option<seq<seq<string>>>
    decreases |s|
  {
    match ReadRecord(s)
    case Failed => None
    case Got(record, rest) =>
      if rest == "" then Some([record])
      else if |rest| >= 2 && rest[..2] == CRLF then
        if closed && |rest| == 2 then Some([record])
        else
          match ReadFile(rest[2..], closed)
          case None => None
          case Some(records) => Some([record] + records)
      else None
  }

  // ------------------------------------------------------------- reading what is printed

  function Shown(value: Option<string>): string { if value.Some? then value.value else "" }

  function ShownAll(values: seq<Option<string>>): seq<string> {
    seq(|values|, i requires 0 <= i < |values| => Shown(values[i]))
  }

  /** The cells that a table stands for. */
  function Cells(headers: seq<string>, rows: seq<Row>): seq<seq<string>> {
    [headers] + seq(|rows|, i requires 0 <= i < |rows| => ShownAll(Values(headers, rows[i])))
  }

  /** A place where a field can end. */
  predicate EndsField(rest: string) { rest == "" || rest[0] == ',' || rest[0] == '\r' }

  predicate EndsRecord(rest: string) { rest == "" || rest[0] == '\r' }

  lemma {:induction false} QuotedRead(s: string, rest: string)
    requires rest == "" || rest[0] != '"'
    ensures ReadQuoted(Doubled(s) + (['"'] + rest)) == Got(s, rest)
  {
    var text := Doubled(s) + (['"'] + rest);
    if s == "" {
      assert text == ['"'] + rest;
      assert text[1..] == rest;
    } else {
      QuotedRead(s[1..], rest);
      var tail := Doubled(s[1..]) + (['"'] + rest);
      if s[0] == '"' {
        assert text == ['"', '"'] + tail;
        assert text[2..] == tail;
      } else {
        assert text == [s[0]] + tail;
        assert text[1..] == tail;
      }
      assert s == [s[0]] + s[1..];
    }
  }

  lemma {:induction false} BareRead(s: string, rest: string)
    requires Plain(s) && EndsField(rest)
    ensures ReadBare(s + rest) == Got(s, rest)
  {
    if s == "" {
      assert s + rest == rest;
    } else {
      BareRead(s[1..], rest);
      assert (s + rest)[1..] == s[1..] + rest;
      assert s == [s[0]] + s[1..];
    }
  }

  lemma PlainFieldRead(s: string, rest: string)
    requires Plain(s) && EndsField(rest)
    ensures ReadField(s + rest) == Got(s, rest)
  {
    BareRead(s, rest);
    var text := s + rest;
    if text != "" {
      assert text[0] == if s != "" then s[0] else rest[0];
    }
  }

  lemma QuotedText(d: string, rest: string)
    ensures
      var text := (['"'] + (d + ['"'])) + rest;
      text != "" && text[0] == '"' && text[1..] == d + (['"'] + rest)
  {}

  lemma QuotedFieldRead(s: string, rest: string)
    requires EndsField(rest)
    ensures ReadField((['"'] + (Doubled(s) + ['"'])) + rest) == Got(s, rest)
  {
    QuotedRead(s, rest);
    QuotedText(Doubled(s), rest);
  }

  lemma FieldRead(value: Option<string>, rest: string)
    requires EndsField(rest)
    ensures ReadField(EscapeCell(value) + rest) == Got(Shown(value), rest)
  {
    if Plain(Shown(value)) {
      PlainFieldRead(Shown(value), rest);
    } else {
      QuotedFieldRead(Shown(value), rest);
    }
  }

  function Escaped(values: seq<Option<string>>): seq<string> {
    seq(|values|, i requires 0 <= i < |values| => EscapeCell(values[i]))
  }

  lemma LineMore(values: seq<Option<string>>)
    requires |values| > 1
    ensures Line(values) == EscapeCell(values[0]) + ("," + Line(values[1..]))
    ensures ShownAll(values) == [Shown(values[0])] + ShownAll(values[1..])
  {
    assert Escaped(values)[1..] == Escaped(values[1..]);
  }

  lemma LastFieldRead(value: Option<string>, rest: string)
    requires EndsRecord(rest)
    ensures ReadRecord(EscapeCell(value) + rest) == Got([Shown(value)], rest)
  {
    FieldRead(value, rest);
  }

  /** Reading on after a comma. */
  lemma FieldThenRead(value: Option<string>, tail: string)
    ensures ReadRecord(EscapeCell(value) + ("," + tail)) ==
            match ReadRecord(tail)
            case Failed => Failed
            case Got(fields, after) => Got([Shown(value)] + fields, after)
  {
    FieldRead(value, "," + tail);
    assert ("," + tail)[1..] == tail;
  }

  lemma {:induction false} RecordRead(values: seq<Option<string>>, rest: string)
    requires values != [] && EndsRecord(rest)
    ensures ReadRecord(Line(values) + rest) == Got(ShownAll(values), rest)
  {
    if |values| == 1 {
      LastFieldRead(values[0], rest);
      assert ShownAll(values) == [Shown(values[0])];
    } else {
      var tail := Line(values[1..]);
      LineMore(values);
      RecordRead(values[1..], rest);
      FieldThenRead(values[0], tail + rest);
      CommaAfter(EscapeCell(values[0]), tail, rest);
    }
  }

  lemma CommaAfter(cell: string, tail: string, rest: string)
    ensures cell + ("," + tail) + rest == cell + ("," + (tail + rest))
  {}

  function Printed(table: seq<seq<Option<string>>>): string {
    Join(seq(|table|, i requires 0 <= i < |table| => Line(table[i])), CRLF)
  }

  function ShownTable(table: seq<seq<Option<string>>>): seq<seq<string>> {
    seq(|table|, i requires 0 <= i < |table| => ShownAll(table[i]))
  }

  /** A table whose last line is empty, after another line. */
  predicate EndsInEmptyLine(table: seq<seq<Option<string>>>) {
    |table| > 1 && Line(table[|table| - 1]) == ""
  }

  lemma PrintedMore(table: seq<seq<Option<string>>>)
    requires |table| > 1
    ensures Printed(table) == Line(table[0]) + (CRLF + Printed(table[1..]))
    ensures ShownTable(table) == [ShownAll(table[0])] + ShownTable(table[1..])
  {
    var lines := seq(|table|, i requires 0 <= i < |table| => Line(table[i]));
    assert lines[1..] == seq(|table[1..]|, i requires 0 <= i < |table[1..]| => Line(table[1..][i]));
  }

  lemma LastRecordRead(values: seq<Option<string>>, closed: bool)
    requires values != []
    ensures ReadFile(Line(values), closed) == Some([ShownAll(values)])
  {
    RecordRead(values, "");
    assert Line(values) + "" == Line(values);
  }

  lemma PrintedEmpty(table: seq<seq<Option<string>>>)
    requires table != []
    ensures Printed(table) == "" <==> |table| == 1 && Line(table[0]) == ""
  {
    if |table| > 1 {
      PrintedMore(table);
    }
  }

  /** Reading on after a line break. */
  lemma LineThenRead(values: seq<Option<string>>, tail: string, closed: bool)
    requires values != []
    ensures ReadFile(Line(values) + (CRLF + tail), closed) ==
            if closed && tail == "" then Some([ShownAll(values)])
            else
              match ReadFile(tail, closed)
              case None => None
              case Some(records) => Some([ShownAll(values)] + records)
  {
    var rest := CRLF + tail;
    RecordRead(values, rest);
    assert rest[..2] == CRLF && rest[2..] == tail;
  }

  predicate NoEmptyRecord(table: seq<seq<Option<string>>>) {
    forall i :: 0 <= i < |table| ==> table[i] != []
  }

  lemma {:induction false} TableRead(table: seq<seq<Option<string>>>)
    requires table != [] && NoEmptyRecord(table)
    ensures ReadFile(Printed(table), false) == Some(ShownTable(table))
  {
    if |table| == 1 {
      LastRecordRead(table[0], false);
      assert ShownTable(table) == [ShownAll(table[0])];
    } else {
      PrintedMore(table);
      LineThenRead(table[0], Printed(table[1..]), false);
      TableRead(table[1..]);
    }
  }

  /** The records left when an empty last line is taken to close the one before it. */
  function Closed(table: seq<seq<Option<string>>>): seq<seq<string>> {
    if EndsInEmptyLine(table) then ShownTable(table)[..|table| - 1] else ShownTable(table)
  }

  lemma {:induction false} TableReadClosed(table: seq<seq<Option<string>>>)
    requires table != [] && NoEmptyRecord(table)
    ensures ReadFile(Printed(table), true) == Some(Closed(table))
  {
    if |table| == 1 {
      LastRecordRead(table[0], true);
      assert ShownTable(table) == [ShownAll(table[0])];
    } else {
      PrintedMore(table);
      LineThenRead(table[0], Printed(table[1..]), true);
      PrintedEmpty(table[1..]);
      TableReadClosed(table[1..]);
      ClosedMore(table);
    }
  }

  lemma ClosedMore(table: seq<seq<Option<string>>>)
    requires |table| > 1
    ensures Closed(table) ==
            if |table| == 2 && Line(table[1]) == "" then [ShownAll(table[0])]
            else [ShownAll(table[0])] + Closed(table[1..])
  {
    PrintedMore(table);
    var shown, tail := ShownTable(table), ShownTable(table[1..]);
    assert shown[..|table| - 1] == [ShownAll(table[0])] + tail[..|table| - 2];
  }

  // ------------------------------------------------------------------- main results

  function Table(headers: seq<string>, rows: seq<Row>): seq<seq<Option<string>>> {
    [Present(headers)] + seq(|rows|, i requires 0 <= i < |rows| => Values(headers, rows[i]))
  }

  /** What stands after the byte-order mark. */
  function Body(csv: string): string
    requires BOM <= csv
  {
    csv[|BOM|..]
  }

  lemma BodyIsPrinted(headers: seq<string>, rows: seq<Row>)
    ensures BOM <= ToCsv(headers, rows) && Body(ToCsv(headers, rows)) == Printed(Table(headers, rows))
    ensures ShownTable(Table(headers, rows)) == Cells(headers, rows)
  {
    var table := Table(headers, rows);
    assert Lines(headers, rows) == seq(|table|, i requires 0 <= i < |table| => Line(table[i]));
    assert ShownAll(Present(headers)) == headers;
  }

  /** The round trip: a reader recovers the header and every cell, whatever commas,
      quotes and line breaks they hold, exactly when there is a column at all. */
  lemma RoundTripExact(headers: seq<string>, rows: seq<Row>)
    ensures BOM <= ToCsv(headers, rows)
    ensures ReadFile(Body(ToCsv(headers, rows)), false) == Some(Cells(headers, rows)) <==> headers != []
  {
    var table := Table(headers, rows);
    BodyIsPrinted(headers, rows);
    if headers != [] {
      TableRead(table);
    } else {
      assert forall s, closed :: ReadFile(s, closed).Some? ==> ReadFile(s, closed).value[0] != [];
    }
  }

  /** A single column whose last cell is empty. */
  predicate LastCellAlone(headers: seq<string>, rows: seq<Row>) {
    |headers| == 1 && rows != [] && Shown(Lookup(rows[|rows| - 1], headers[0])) == ""
  }

  /** A reader that lets a line break close the last record recovers the same, except
      for the last row of a single column whose last cell is empty: that row it loses. */
  lemma ClosedRoundTripExact(headers: seq<string>, rows: seq<Row>)
    requires headers != []
    ensures BOM <= ToCsv(headers, rows)
    ensures
      var cells := Cells(headers, rows);
      ReadFile(Body(ToCsv(headers, rows)), true) ==
        Some(if LastCellAlone(headers, rows) then cells[..|rows|] else cells)
  {
    var table := Table(headers, rows);
    BodyIsPrinted(headers, rows);
    TableReadClosed(table);
    if rows != [] {
      EmptyLineExact(Values(headers, rows[|rows| - 1]));
    }
  }

  lemma EmptyLineExact(values: seq<Option<string>>)
    requires values != []
    ensures Line(values) == "" <==> |values| == 1 && Shown(values[0]) == ""
  {
    if |values| > 1 {
      assert Escaped(values) != [];
    }
  }

  // ------------------------------------------------------------- characters and cells

  /** A cell is quoted exactly when it holds a comma, a quote or a line break; a null cell
      is empty. */
  lemma QuotedExact(s: string)
    ensures EscapeCell(Some(s)) == s <==> ',' !in s && '"' !in s && '\n' !in s && '\r' !in s
    ensures
      var t := EscapeCell(Some(s));
      t != s ==> |t| >= 2 && t[0] == '"' && t[|t| - 1] == '"' && t[1..|t| - 1] == Doubled(s)
    ensures EscapeCell(None) == ""
  {
    if !Plain(s) {
      var t := ['"'] + (Doubled(s) + ['"']);
      assert t[1..|t| - 1] == Doubled(s);
      DoubledLonger(s);
    }
  }

  lemma {:induction false} DoubledLonger(s: string)
    ensures |Doubled(s)| >= |s|
  {
    if s != "" {
      DoubledLonger(s[1..]);
    }
  }

  /** The cells recovered are the headers, and under each header what the row has for it:
      nothing where the key is missing or the value null. */
  lemma CellsExact(headers: seq<string>, rows: seq<Row>)
    ensures
      var cells := Cells(headers, rows);
      && |cells| == |rows| + 1 && cells[0] == headers
      && forall i, j :: 0 <= i < |rows| && 0 <= j < |headers| ==>
           && |cells[i + 1]| == |headers|
           && cells[i + 1][j] ==
              if headers[j] in rows[i] && rows[i][headers[j]].Some? then rows[i][headers[j]].value else ""
  {}

  lemma JoinTwo(a: string, b: string, separator: string)
    ensures Join([a, b], separator) == a + (separator + b)
  {
    assert [a, b][1..] == [b];
  }

  lemma JoinThree(a: string, b: string, c: string, separator: string)
    ensures Join([a, b, c], separator) == a + (separator + (b + (separator + c)))
  {
    assert [a, b, c][1..] == [b, c];
    JoinTwo(b, c, separator);
  }

  lemma LineOfTwo(values: seq<Option<string>>, a: string, b: string)
    requires |values| == 2 && EscapeCell(values[0]) == a && EscapeCell(values[1]) == b
    ensures Line(values) == a + ("," + b)
  {
    assert seq(|values|, i requires 0 <= i < |values| => EscapeCell(values[i])) == [a, b];
    JoinTwo(a, b, ",");
  }

  lemma SampleQuoted()
    ensures EscapeCell(Some("x,\"")) == "\"x,\"\"\""
  {
    var s := "x,\"";
    assert s[1..] == ",\"" && s[1..][1..] == "\"" && s[1..][1..][1..] == "";
    assert Doubled("\"") == "\"\"" && Doubled(",\"") == ",\"\"" && Doubled(s) == "x,\"\"";
    assert IsSpecial(s[1]);
  }

  /** One file in full: a byte-order mark, lines that end in CR LF but for the last, a
      quoted cell and a missing one. */
  lemma SampleFile()
    ensures ToCsv(["a", "b"], [map["a" := Some("x,\"")], map["b" := Some("y")]]) ==
            "\U{FEFF}" + ("a,b" + ("\r\n" + ("\"x,\"\"\"," + ("\r\n" + ",y"))))
  {
    var headers, first, second: Row := ["a", "b"], map["a" := Some("x,\"")], map["b" := Some("y")];
    SampleQuoted();
    assert Plain("a") && Plain("b") && Plain("y");
    LineOfTwo(Present(headers), "a", "b");
    LineOfTwo(Values(headers, first), "\"x,\"\"\"", "");
    LineOfTwo(Values(headers, second), "", "y");
    assert Lines(headers, [first, second]) == [Line(Present(headers)), Line(Values(headers, first)), Line(Values(headers, second))];
    JoinThree(Line(Present(headers)), Line(Values(headers, first)), Line(Values(headers, second)), "\r\n");
  }
}
