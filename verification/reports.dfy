/** The CSV writer of `src/lib/reports.ts` (`ReportGenerator.generateCSV`):
    a header line of the unquoted header names, then one line per data row
    with every field in double quotes and inner quotes doubled (the quoting
    of section 2 of RFC 4180), lines separated by LF. A small reader for
    such lines is defined alongside as the writer's inverse. */
module Reports {
  import opened Common
  import opened Decimal

  /** The values a row may hold. Numbers are integers here. */
  datatype JsValue = Undefined | Null | Str(s: string) | Num(n: int) | Bool(b: bool)

  /** JavaScript truthiness. */
  predicate Truthy(v: JsValue) {
    match v
    case Undefined => false
    case Null => false
    case Str(s) => s != ""
    case Num(n) => n != 0
    case Bool(b) => b
  }

  /** A data row: a missing key reads as `undefined`. */
  type Row = map<string, JsValue>

  function Get(row: Row, key: string): JsValue {
    if key in row then row[key] else Undefined
  }

  /** `String(row[header] || '')`. */
  function CellText(v: JsValue): (t: string)
    ensures !Truthy(v) ==> t == ""
    ensures v.Str? ==> t == v.s
    ensures v.Num? ==> t == (if v.n == 0 then "" else IntToString(v.n))
    ensures v.Bool? ==> t == (if v.b then "true" else "")
  {
    match v
    case Str(s) => s
    case Num(n) => if n == 0 then "" else IntToString(n)
    case Bool(b) => if b then "true" else ""
    case _ => ""
  }

  /** `.replace(/"/g, '""')`. */
  function EscapeQuotes(s: string): (r: string)
    ensures |r| >= |s|
    decreases |s|
  {
    if |s| == 0 then ""
    else (if s[0] == '"' then "\"\"" else [s[0]]) + EscapeQuotes(s[1..])
  }

  /** A field as written: `"${escaped}"`. */
  function QuoteField(s: string): (r: string)
    ensures |r| >= 2 && r[0] == '"' && r[|r| - 1] == '"'
  {
    "\"" + EscapeQuotes(s) + "\""
  }

  /** The cell texts of a row, in header order. */
  function CellTexts(row: Row, headers: seq<string>): (cells: seq<string>)
    ensures |cells| == |headers|
    ensures forall i :: 0 <= i < |headers| ==> cells[i] == CellText(Get(row, headers[i]))
    decreases |headers|
  {
    if |headers| == 0 then []
    else [CellText(Get(row, headers[0]))] + CellTexts(row, headers[1..])
  }

  function QuoteFields(cells: seq<string>): (fields: seq<string>)
    ensures |fields| == |cells|
    ensures forall i :: 0 <= i < |cells| ==> fields[i] == QuoteField(cells[i])
    decreases |cells|
  {
    if |cells| == 0 then [] else [QuoteField(cells[0])] + QuoteFields(cells[1..])
  }

  /** One record line. */
  function RecordLine(row: Row, headers: seq<string>): string {
    Join(QuoteFields(CellTexts(row, headers)), ',')
  }

  function RecordLines(data: seq<Row>, headers: seq<string>): (lines: seq<string>)
    ensures |lines| == |data|
    ensures forall i :: 0 <= i < |data| ==> lines[i] == RecordLine(data[i], headers)
    decreases |data|
  {
    if |data| == 0 then [] else [RecordLine(data[0], headers)] + RecordLines(data[1..], headers)
  }

  /** `generateCSV(data, headers)`. */
  function GenerateCSV(data: seq<Row>, headers: seq<string>): string {
    Join([Join(headers, ',')] + RecordLines(data, headers), '\n')
  }

  // ---------------------------------------------------------------------
  // Reading a record line back
  // ---------------------------------------------------------------------

  /** Reads the body of a quoted field (after its opening quote) up to the
      lone closing quote, collapsing `""` to `"`; gives the content and what
      follows the closing quote. */
  function ParseQuoted(s: string): (r: Option<(string, string)>)
    ensures r.Some? ==> |r.value.1| < |s|
    decreases |s|
  {
    if |s| == 0 then None
    else if s[0] == '"' then
      if |s| >= 2 && s[1] == '"' then
        match ParseQuoted(s[2..])
        case None => None
        case Some(p) => Some(("\"" + p.0, p.1))
      else Some(("", s[1..]))
    else
      match ParseQuoted(s[1..])
      case None => None
      case Some(p) => Some(([s[0]] + p.0, p.1))
  }

  /** Reads a non-empty sequence of comma-separated quoted fields. */
  function ParseFields(s: string): Option<seq<string>>
    decreases |s|
  {
    if |s| == 0 || s[0] != '"' then None
    else
      match ParseQuoted(s[1..])
      case None => None
      case Some(p) =>
        if p.1 == "" then Some([p.0])
        else if p.1[0] == ',' then
          match ParseFields(p.1[1..])
          case None => None
          case Some(rest) => Some([p.0] + rest)
        else None
  }

  /** Reads a record line; the empty line has no fields. */
  function ParseRecord(line: string): Option<seq<string>> {
    if line == "" then Some([]) else ParseFields(line)
  }

  /** The escaped text followed by the closing quote reads back as the
      original text, whatever follows when it does not start with a quote. */
  lemma {:induction false} ParseQuotedEscape(x: string, rest: string)
    requires rest == "" || rest[0] != '"'
    ensures ParseQuoted(EscapeQuotes(x) + "\"" + rest) == Some((x, rest))
    decreases |x|
  {
    var s := EscapeQuotes(x) + "\"" + rest;
    if |x| == 0 {
      assert s == "\"" + rest;
      assert s[1..] == rest;
    } else {
      ParseQuotedEscape(x[1..], rest);
      var tail := EscapeQuotes(x[1..]) + "\"" + rest;
      if x[0] == '"' {
        assert s == "\"\"" + tail;
        assert s[2..] == tail;
        assert "\"" + x[1..] == x;
      } else {
        assert s == [x[0]] + tail;
        assert s[1..] == tail;
        assert [x[0]] + x[1..] == x;
      }
    }
  }

  /** The fields' line is the first quoted field, a comma and the rest's line. */
  lemma QuotedLineCons(cells: seq<string>)
    requires |cells| >= 2
    ensures Join(QuoteFields(cells), ',') == QuoteField(cells[0]) + [','] + Join(QuoteFields(cells[1..]), ',')
  {
    assert QuoteFields(cells)[1..] == QuoteFields(cells[1..]);
  }

  /** A quoted text followed by `rest` reads back as the text and `rest`. */
  lemma ParseFieldHead(x: string, rest: string)
    requires rest == "" || rest[0] != '"'
    ensures var s := QuoteField(x) + rest;
      && s[0] == '"' && ParseQuoted(s[1..]) == Some((x, rest))
  {
    var body := EscapeQuotes(x) + "\"" + rest;
    ParseQuotedEscape(x, rest);
    assert QuoteField(x) + rest == ['"'] + body;
  }

  /** A quoted field, a comma and a readable line read back as the field
      followed by that line's fields. */
  lemma ParseFieldsCons(x: string, tail: string, rest: seq<string>)
    requires ParseFields(tail) == Some(rest)
    ensures ParseFields(QuoteField(x) + ([','] + tail)) == Some([x] + rest)
  {
    ParseFieldHead(x, [','] + tail);
    assert ([','] + tail)[1..] == tail;
  }

  /** Concatenation regroups freely. */
  lemma ConcatAssoc(a: string, b: string, c: string)
    ensures a + b + c == a + (b + c)
  {
  }

  /** One quoted field reads back as that field. */
  lemma ParseFieldsSingle(x: string)
    ensures ParseFields(Join(QuoteFields([x]), ',')) == Some([x])
  {
    ParseFieldHead(x, "");
    assert Join(QuoteFields([x]), ',') == QuoteField(x) + "";
  }

  /** Quoting fields and joining them with commas reads back as the fields. */
  lemma {:induction false} ParseFieldsJoin(cells: seq<string>)
    requires |cells| >= 1
    ensures ParseFields(Join(QuoteFields(cells), ',')) == Some(cells)
    decreases |cells|
  {
    if |cells| == 1 {
      ParseFieldsSingle(cells[0]);
      assert cells == [cells[0]];
    } else {
      var tail := Join(QuoteFields(cells[1..]), ',');
      QuotedLineCons(cells);
      ConcatAssoc(QuoteField(cells[0]), [','], tail);
      ParseFieldsJoin(cells[1..]);
      ParseFieldsCons(cells[0], tail, cells[1..]);
      assert [cells[0]] + cells[1..] == cells;
    }
  }

  /** Every record line reads back as the row's cell texts in header order:
      falsy values as empty fields, others as their string form. */
  lemma RecordLineRoundTrip(row: Row, headers: seq<string>)
    ensures ParseRecord(RecordLine(row, headers)) == Some(CellTexts(row, headers))
  {
    var cells := CellTexts(row, headers);
    if |cells| >= 1 {
      ParseFieldsJoin(cells);
      assert RecordLine(row, headers)[0] == '"';
    }
  }

  // ---------------------------------------------------------------------
  // The line structure of the file
  // ---------------------------------------------------------------------

  /** Joining pieces that avoid a character other than the separator
      avoids it too. */
  lemma {:induction false} JoinKeepsAbsent(parts: seq<string>, sep: char, c: char)
    requires c != sep
    requires forall i :: 0 <= i < |parts| ==> c !in parts[i]
    ensures c !in Join(parts, sep)
    decreases |parts|
  {
    if |parts| > 1 {
      JoinKeepsAbsent(parts[1..], sep, c);
    }
  }

  /** Escaping adds only quotes. */
  lemma {:induction false} EscapeKeepsAbsent(s: string, c: char)
    requires c != '"' && c !in s
    ensures c !in EscapeQuotes(s)
    decreases |s|
  {
    if |s| > 0 {
      assert c !in s[1..];
      EscapeKeepsAbsent(s[1..], c);
    }
  }

  /** A record line has a line break only if some cell text has one. */
  lemma RecordLineSingle(row: Row, headers: seq<string>)
    requires forall h :: h in headers ==> '\n' !in CellText(Get(row, h))
    ensures '\n' !in RecordLine(row, headers)
  {
    var cells := CellTexts(row, headers);
    var q := QuoteFields(cells);
    forall i | 0 <= i < |q|
      ensures '\n' !in q[i]
    {
      assert headers[i] in headers;
      assert cells[i] == CellText(Get(row, headers[i]));
      EscapeKeepsAbsent(cells[i], '\n');
      assert q[i] == "\"" + EscapeQuotes(cells[i]) + "\"";
    }
    JoinKeepsAbsent(q, ',', '\n');
  }

  /** No cell text of any row contains a line break. */
  predicate SingleLineCells(data: seq<Row>, headers: seq<string>) {
    forall k, h :: 0 <= k < |data| && h in headers ==> '\n' !in CellText(Get(data[k], h))
  }

  /** When no header and no cell text contains a line break, the file's
      lines are the unquoted header line followed by exactly one record
      line per data row, in order. */
  lemma CsvLines(data: seq<Row>, headers: seq<string>)
    requires forall i :: 0 <= i < |headers| ==> '\n' !in headers[i]
    requires SingleLineCells(data, headers)
    ensures Split(GenerateCSV(data, headers), '\n') == [Join(headers, ',')] + RecordLines(data, headers)
    ensures |Split(GenerateCSV(data, headers), '\n')| == |data| + 1
  {
    var lines := [Join(headers, ',')] + RecordLines(data, headers);
    JoinKeepsAbsent(headers, ',', '\n');
    forall i | 0 <= i < |lines|
      ensures '\n' !in lines[i]
    {
      if i > 0 {
        RecordLineSingle(data[i - 1], headers);
      }
    }
    SplitJoin(lines, '\n');
  }

  /** Every field of a record line, read back, is the corresponding row's
      value for that header; a falsy value is the empty field. */
  lemma CsvFieldValue(data: seq<Row>, headers: seq<string>, k: nat, i: nat)
    requires k < |data| && i < |headers|
    ensures ParseRecord(RecordLines(data, headers)[k]).Some?
    ensures |ParseRecord(RecordLines(data, headers)[k]).value| == |headers|
    ensures ParseRecord(RecordLines(data, headers)[k]).value[i] == CellText(Get(data[k], headers[i]))
    ensures !Truthy(Get(data[k], headers[i])) ==> ParseRecord(RecordLines(data, headers)[k]).value[i] == ""
  {
    RecordLineRoundTrip(data[k], headers);
  }
}
