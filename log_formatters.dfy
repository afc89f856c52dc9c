/**
 * The CSV log formatter: each log record that carries a `csv_data` dictionary
 * becomes one CSV row over a fixed list of fields, with a header row before
 * the first record when asked for. Every cell is quoted (`csv.QUOTE_ALL`):
 * wrapped in double quotes, inner double quotes doubled, cells joined by
 * commas and every row ended by "\r\n", as in section 2 of RFC 4180. The text
 * returned is the written rows with surrounding whitespace stripped.
 */
module LogFormatters {
  import opened Wrappers

  const LineTerminator: string := "\r\n"

  /** The characters Python's `str.isspace` accepts, which `str.strip()` removes. */
  predicate IsSpace(c: char) {
    var n := c as int;
    || 0x09 <= n <= 0x0d || 0x1c <= n <= 0x20 || n == 0x85 || n == 0xa0 || n == 0x1680
    || 0x2000 <= n <= 0x200a || n == 0x2028 || n == 0x2029 || n == 0x202f || n == 0x205f || n == 0x3000
  }

  /** s without its leading whitespace. */
  function TrimLeft(s: string): (r: string)
    ensures |r| <= |s| && r == s[|s| - |r|..]
    ensures r == [] || !IsSpace(r[0])
    ensures forall i :: 0 <= i < |s| - |r| ==> IsSpace(s[i])
  {
    if s != [] && IsSpace(s[0]) then TrimLeft(s[1..]) else s
  }

  /** s without its trailing whitespace. */
  function TrimRight(s: string): (r: string)
    ensures |r| <= |s| && r == s[..|r|]
    ensures r == [] || !IsSpace(r[|r| - 1])
    ensures forall i :: |r| <= i < |s| ==> IsSpace(s[i])
  {
    if s != [] && IsSpace(s[|s| - 1]) then TrimRight(s[..|s| - 1]) else s
  }

  /** `str.strip()` with no argument. */
  function Strip(s: string): string {
    TrimRight(TrimLeft(s))
  }

  /** Stripping text that does not start or end with whitespace, followed by whitespace, leaves that text. */
  lemma StripTrailingSpace(x: string, ws: string)
    requires x != [] && !IsSpace(x[0]) && !IsSpace(x[|x| - 1])
    requires forall i :: 0 <= i < |ws| ==> IsSpace(ws[i])
    ensures Strip(x + ws) == x
  {
    var s := x + ws;
    assert s[0] == x[0] && s[|x| - 1] == x[|x| - 1];
    assert TrimLeft(s) == s;
    var r := TrimRight(s);
    assert |r| == |x|;
    assert r == s[..|x|] == x;
  }

  /** A cell's content with every double quote doubled. */
  function EscapeQuotes(s: string): (r: string)
    ensures |r| >= |s|
  {
    if s == [] then []
    else (if s[0] == '"' then "\"\"" else [s[0]]) + EscapeQuotes(s[1..])
  }

  /** One cell under QUOTE_ALL. */
  function QuoteCell(s: string): string {
    "\"" + EscapeQuotes(s) + "\""
  }

  /** The cells of one row, quoted and comma-separated, without the line terminator. */
  function EncodeRow(cells: seq<string>): string {
    if cells == [] then ""
    else if |cells| == 1 then QuoteCell(cells[0])
    else QuoteCell(cells[0]) + "," + EncodeRow(cells[1..])
  }

  /** What `writer.writerow(cells)` appends to the buffer. */
  function WriteRow(cells: seq<string>): string {
    EncodeRow(cells) + LineTerminator
  }

  /** A row of at least one cell starts and ends with a double quote. */
  lemma {:induction false} EncodeRowQuoted(cells: seq<string>)
    requires cells != []
    ensures var e := EncodeRow(cells); |e| >= 2 && e[0] == '"' && e[|e| - 1] == '"'
  {
    if |cells| > 1 {
      EncodeRowQuoted(cells[1..]);
    }
  }

  /**
   * Reads one quoted cell's content after its opening quote: up to the first
   * quote that is not doubled. Gives the content and the text after the
   * closing quote.
   */
  function UnquoteCell(s: string): (r: Option<(string, string)>)
    ensures r.Some? ==> |r.value.1| < |s|
  {
    if s == [] then None
    else if s[0] == '"' then
      if |s| >= 2 && s[1] == '"' then
        var t := UnquoteCell(s[2..]);
        if t.None? then None else Some(("\"" + t.value.0, t.value.1))
      else Some(("", s[1..]))
    else
      var t := UnquoteCell(s[1..]);
      if t.None? then None else Some(([s[0]] + t.value.0, t.value.1))
  }

  /** Reads one or more quoted, comma-separated cells. */
  function DecodeCells(s: string): Option<seq<string>>
    decreases |s|
  {
    if s == [] || s[0] != '"' then None
    else
      var t := UnquoteCell(s[1..]);
      if t.None? then None
      else if t.value.1 == [] then Some([t.value.0])
      else if t.value.1[0] == ',' then
        var rest := DecodeCells(t.value.1[1..]);
        if rest.None? then None else Some([t.value.0] + rest.value)
      else None
  }

  /** Reads a row written under QUOTE_ALL back into its cells. */
  function DecodeRow(line: string): Option<seq<string>> {
    if line == [] then Some([]) else DecodeCells(line)
  }

  lemma {:induction false} UnquoteEscaped(body: string, rest: string)
    requires rest == [] || rest[0] != '"'
    ensures UnquoteCell(EscapeQuotes(body) + "\"" + rest) == Some((body, rest))
  {
    var s := EscapeQuotes(body) + "\"" + rest;
    if body == [] {
      assert s == "\"" + rest;
      assert s[1..] == rest;
    } else if body[0] == '"' {
      UnquoteEscaped(body[1..], rest);
      assert s == "\"\"" + (EscapeQuotes(body[1..]) + "\"" + rest);
      assert s[2..] == EscapeQuotes(body[1..]) + "\"" + rest;
      assert body == "\"" + body[1..];
    } else {
      UnquoteEscaped(body[1..], rest);
      assert s == [body[0]] + (EscapeQuotes(body[1..]) + "\"" + rest);
      assert s[1..] == EscapeQuotes(body[1..]) + "\"" + rest;
      assert body == [body[0]] + body[1..];
    }
  }

  /** A quoted cell alone reads back as that one cell. */
  lemma DecodeLastCell(c: string)
    ensures DecodeCells(QuoteCell(c)) == Some([c])
  {
    var s := QuoteCell(c);
    assert s[1..] == EscapeQuotes(c) + "\"" + "";
    UnquoteEscaped(c, "");
  }

  /** A quoted cell, a comma and more text read back as that cell before whatever the text reads as. */
  lemma DecodeCellThenMore(c: string, more: string)
    ensures DecodeCells(QuoteCell(c) + "," + more) ==
              if DecodeCells(more).Some? then Some([c] + DecodeCells(more).value) else None
  {
    var s := QuoteCell(c) + "," + more;
    var tail := "," + more;
    assert s[1..] == EscapeQuotes(c) + "\"" + tail;
    UnquoteEscaped(c, tail);
    assert tail[1..] == more;
  }

  lemma {:induction false} DecodeCellsOfEncoded(cells: seq<string>)
    requires cells != []
    ensures DecodeCells(EncodeRow(cells)) == Some(cells)
  {
    if |cells| == 1 {
      DecodeLastCell(cells[0]);
      assert cells == [cells[0]];
    } else {
      DecodeCellsOfEncoded(cells[1..]);
      DecodeCellThenMore(cells[0], EncodeRow(cells[1..]));
      assert cells == [cells[0]] + cells[1..];
    }
  }

  /** Reading back a written row gives exactly its cells, whatever quotes, commas or line breaks they hold. */
  lemma RowRoundTrip(cells: seq<string>)
    ensures DecodeRow(EncodeRow(cells)) == Some(cells)
  {
    if cells != [] {
      DecodeCellsOfEncoded(cells);
      EncodeRowQuoted(cells);
    }
  }

  /** `[csv_data.get(field, '') for field in fields]`. */
  function RowFor(fields: seq<string>, csvData: map<string, string>): (row: seq<string>)
    ensures |row| == |fields|
    ensures forall i :: 0 <= i < |fields| ==>
              row[i] == (if fields[i] in csvData then csvData[fields[i]] else "")
  {
    if fields == [] then []
    else [if fields[0] in csvData then csvData[fields[0]] else ""] + RowFor(fields[1..], csvData)
  }

  /**
   * A log record as the formatter sees it: `csvData` is the record's
   * `csv_data` dictionary, or None when the record has no such attribute or
   * it is not a dictionary.
   */
  datatype LogRecord = LogRecord(csvData: Option<map<string, string>>)

  /** The text one `format` call returns, given whether the header is still to be written. */
  function FormattedText(fields: seq<string>, writeHeader: bool, csvData: Option<map<string, string>>): string {
    var header := if writeHeader then WriteRow(fields) else "";
    var data := if csvData.Some? then WriteRow(RowFor(fields, csvData.value)) else "";
    Strip(header + data)
  }

  /** A row that starts and ends with a quote, followed by the line terminator, strips back to the row. */
  lemma StripTerminatedRow(x: string)
    requires |x| >= 2 && x[0] == '"' && x[|x| - 1] == '"'
    ensures Strip(x + LineTerminator) == x
  {
    var crlf := LineTerminator;
    assert IsSpace(crlf[0]) && IsSpace(crlf[1]);
    StripTrailingSpace(x, crlf);
  }

  /** Two quoted rows, each followed by the line terminator, strip to the two rows joined by one terminator. */
  lemma StripTwoRows(x: string, y: string)
    requires |x| >= 2 && x[0] == '"' && x[|x| - 1] == '"'
    requires |y| >= 2 && y[0] == '"' && y[|y| - 1] == '"'
    ensures Strip((x + LineTerminator) + (y + LineTerminator)) == x + LineTerminator + y
  {
    var z := x + LineTerminator + y;
    assert (x + LineTerminator) + (y + LineTerminator) == z + LineTerminator;
    assert z[0] == x[0] && z[|z| - 1] == y[|y| - 1];
    StripTerminatedRow(z);
  }

  /**
   * With at least one field: the header row, the data row, both separated by
   * exactly one "\r\n", or nothing, and never a trailing line terminator.
   */
  lemma FormattedTextShape(fields: seq<string>, writeHeader: bool, csvData: Option<map<string, string>>)
    requires fields != []
    ensures var out := FormattedText(fields, writeHeader, csvData);
      && (writeHeader && csvData.Some? ==>
            out == EncodeRow(fields) + LineTerminator + EncodeRow(RowFor(fields, csvData.value)))
      && (writeHeader && csvData.None? ==> out == EncodeRow(fields))
      && (!writeHeader && csvData.Some? ==> out == EncodeRow(RowFor(fields, csvData.value)))
      && (!writeHeader && csvData.None? ==> out == "")
  {
    var h := EncodeRow(fields);
    EncodeRowQuoted(fields);
    if csvData.Some? {
      var d := EncodeRow(RowFor(fields, csvData.value));
      EncodeRowQuoted(RowFor(fields, csvData.value));
      if writeHeader {
        StripTwoRows(h, d);
      } else {
        assert "" + (d + LineTerminator) == d + LineTerminator;
        StripTerminatedRow(d);
      }
    } else if writeHeader {
      assert (h + LineTerminator) + "" == h + LineTerminator;
      StripTerminatedRow(h);
    } else {
      assert Strip("" + "") == "";
    }
  }

  /** Stripped text neither starts nor ends with whitespace. */
  lemma StripTrims(s: string)
    ensures var out := Strip(s); out == [] || (!IsSpace(out[0]) && !IsSpace(out[|out| - 1]))
  {
    var l := TrimLeft(s);
    var out := TrimRight(l);
    if out != [] {
      assert out[0] == l[0];
    }
  }

  /** Whatever the fields and the record, the text returned neither starts nor ends with whitespace. */
  lemma FormattedTextTrimmed(fields: seq<string>, writeHeader: bool, csvData: Option<map<string, string>>)
    ensures var out := FormattedText(fields, writeHeader, csvData);
      out == [] || (!IsSpace(out[0]) && !IsSpace(out[|out| - 1]))
  {
    var header := if writeHeader then WriteRow(fields) else "";
    var data := if csvData.Some? then WriteRow(RowFor(fields, csvData.value)) else "";
    StripTrims(header + data);
  }

  class CsvFormatter {
    var fields: seq<string>
    var header: bool
    var headerWritten: bool

    /** With header=False the header counts as already written, so it is never emitted. */
    constructor (fields: seq<string>, header: bool)
      ensures this.fields == fields && this.header == header
      ensures headerWritten == !header
    {
      this.fields := fields;
      this.header := header;
      this.headerWritten := !header;
    }

    /**
     * Writes the header row into a fresh buffer if it is still due (and marks
     * it written), then the record's data row if it carries a dictionary, and
     * returns the buffer stripped.
     */
    method Format(record: LogRecord) returns (out: string)
      modifies this`headerWritten
      ensures headerWritten
      ensures out == FormattedText(fields, !old(headerWritten), record.csvData)
      ensures fields == old(fields) && header == old(header)
    {
      var buffer := "";
      if !headerWritten {
        buffer := buffer + WriteRow(fields);
        headerWritten := true;
      }
      ghost var headerText := buffer;
      if record.csvData.Some? {
        var row := RowFor(fields, record.csvData.value);
        buffer := buffer + WriteRow(row);
      } else {
        assert buffer == headerText + "";
      }
      assert buffer == (if !old(headerWritten) then WriteRow(fields) else "") +
                       (if record.csvData.Some? then WriteRow(RowFor(fields, record.csvData.value)) else "");
      out := Strip(buffer);
    }
  }

  /**
   * A formatter created with header=True: the first call returns the header
   * (and the first record's row, if any), the second only the second record's row.
   */
  method HeaderOnlyOnFirstCall(fields: seq<string>, first: LogRecord, second: LogRecord)
    returns (out1: string, out2: string)
    requires fields != []
    ensures first.csvData.Some? ==>
              out1 == EncodeRow(fields) + LineTerminator + EncodeRow(RowFor(fields, first.csvData.value))
    ensures first.csvData.None? ==> out1 == EncodeRow(fields)
    ensures second.csvData.Some? ==> out2 == EncodeRow(RowFor(fields, second.csvData.value))
    ensures second.csvData.None? ==> out2 == ""
  {
    var formatter := new CsvFormatter(fields, true);
    out1 := formatter.Format(first);
    out2 := formatter.Format(second);
    FormattedTextShape(fields, true, first.csvData);
    FormattedTextShape(fields, false, second.csvData);
  }
}
