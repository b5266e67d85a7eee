/**
 * The CSV text the two export buttons build: every field wrapped in double
 * quotes with its inner quotes doubled (the quoting of RFC 4180, section 2,
 * rules 5 to 7), fields joined by `,` and rows joined by a bare LF. A reader
 * for exactly that shape is given beside the writer, and reading back what
 * was written gives the rows again.
 */
module Csv {
  import opened JsText
  import opened Wrappers

  /** `String(f).replace(/"/g, '""')`: every double quote is doubled. */
  function Escape(f: string): (r: string)
    ensures |r| >= |f|
  {
    if f == [] then []
    else (if f[0] == '"' then "\"\"" else [f[0]]) + Escape(f[1..])
  }

  /** `"${...}"`: the escaped field between two double quotes. */
  function Quote(f: string): (r: string)
    ensures |r| >= 2 && r[0] == '"' && r[|r| - 1] == '"'
  {
    "\"" + Escape(f) + "\""
  }

  /** A field without double quotes is written as it is, between two quotes. */
  lemma {:induction false} EscapeWithoutQuotes(f: string)
    requires '"' !in f
    ensures Escape(f) == f
    decreases |f|
  {
    if f != [] {
      assert f[0] != '"' && '"' !in f[1..];
      EscapeWithoutQuotes(f[1..]);
      assert f == [f[0]] + f[1..];
    }
  }

  function QuoteAll(fields: seq<string>): (r: seq<string>)
    ensures |r| == |fields|
  {
    if fields == [] then [] else [Quote(fields[0])] + QuoteAll(fields[1..])
  }

  /** Fields without double quotes are only wrapped in quotes. */
  lemma {:induction false} QuoteAllWithoutQuotes(fields: seq<string>)
    requires forall i :: 0 <= i < |fields| ==> '"' !in fields[i]
    ensures forall i :: 0 <= i < |fields| ==> QuoteAll(fields)[i] == "\"" + fields[i] + "\""
    decreases |fields|
  {
    if fields != [] {
      EscapeWithoutQuotes(fields[0]);
      QuoteAllWithoutQuotes(fields[1..]);
      forall i | 0 <= i < |fields| ensures QuoteAll(fields)[i] == "\"" + fields[i] + "\"" {
        if i > 0 { assert fields[1..][i - 1] == fields[i]; }
      }
    }
  }

  /** One row: `r.map(quote).join(',')`. */
  function Line(fields: seq<string>): string {
    Join(QuoteAll(fields), ',')
  }

  function Lines(rows: seq<seq<string>>): (r: seq<string>)
    ensures |r| == |rows|
  {
    if rows == [] then [] else [Line(rows[0])] + Lines(rows[1..])
  }

  /** The whole file: the rows joined by `\n`. */
  function Document(rows: seq<seq<string>>): string {
    Join(Lines(rows), '\n')
  }

  // ----- Reading the text back

  /** A field's text and what follows its closing quote. */
  datatype Field = Field(text: string, rest: string)

  /** Reads a quoted field after its opening quote: `""` stands for `"`, a lone `"` closes it. */
  function ReadQuoted(s: string): (r: Option<Field>)
    ensures r.Some? ==> |r.value.rest| < |s|
    decreases |s|
  {
    if s == [] then None
    else if s[0] == '"' then
      if |s| >= 2 && s[1] == '"' then
        match ReadQuoted(s[2..])
        case None => None
        case Some(f) => Some(Field("\"" + f.text, f.rest))
      else Some(Field([], s[1..]))
    else
      match ReadQuoted(s[1..])
      case None => None
      case Some(f) => Some(Field([s[0]] + f.text, f.rest))
  }

  /** Reads rows of quoted fields separated by `,`, the rows separated by `\n`. */
  function ParseRows(s: string): (r: Option<seq<seq<string>>>)
    ensures r.Some? ==> |r.value| >= 1 && |r.value[0]| >= 1
    decreases |s|
  {
    if s == [] || s[0] != '"' then None
    else
      match ReadQuoted(s[1..])
      case None => None
      case Some(f) =>
        if f.rest == [] then Some([[f.text]])
        else if f.rest[0] == ',' then
          match ParseRows(f.rest[1..])
          case None => None
          case Some(rows) => Some([[f.text] + rows[0]] + rows[1..])
        else if f.rest[0] == '\n' then
          match ParseRows(f.rest[1..])
          case None => None
          case Some(rows) => Some([[f.text]] + rows)
        else None
  }

  lemma ReadClosing(rest: string)
    requires rest == [] || rest[0] != '"'
    ensures ReadQuoted("\"" + rest) == Some(Field([], rest))
  {
    assert ("\"" + rest)[1..] == rest;
  }

  lemma ReadDoubled(e: string, f: Field)
    requires ReadQuoted(e) == Some(f)
    ensures ReadQuoted("\"\"" + e) == Some(Field("\"" + f.text, f.rest))
  {
    assert ("\"\"" + e)[2..] == e;
  }

  lemma ReadPlain(c: char, e: string, f: Field)
    requires c != '"' && ReadQuoted(e) == Some(f)
    ensures ReadQuoted([c] + e) == Some(Field([c] + f.text, f.rest))
  {
    assert ([c] + e)[1..] == e;
  }

  lemma EscapedQuote(f: string, rest: string)
    requires f != [] && f[0] == '"'
    requires ReadQuoted(Escape(f[1..]) + "\"" + rest) == Some(Field(f[1..], rest))
    ensures ReadQuoted(Escape(f) + "\"" + rest) == Some(Field(f, rest))
  {
    var e := Escape(f[1..]) + "\"" + rest;
    assert Escape(f) + "\"" + rest == "\"\"" + e;
    ReadDoubled(e, Field(f[1..], rest));
    assert "\"" + f[1..] == f;
  }

  lemma EscapedPlain(f: string, rest: string)
    requires f != [] && f[0] != '"'
    requires ReadQuoted(Escape(f[1..]) + "\"" + rest) == Some(Field(f[1..], rest))
    ensures ReadQuoted(Escape(f) + "\"" + rest) == Some(Field(f, rest))
  {
    var e := Escape(f[1..]) + "\"" + rest;
    assert Escape(f) + "\"" + rest == [f[0]] + e;
    ReadPlain(f[0], e, Field(f[1..], rest));
    assert [f[0]] + f[1..] == f;
  }

  /** Un-quoting an escaped field gives the field back, and stops right after its closing quote. */
  lemma {:induction false} ReadEscaped(f: string, rest: string)
    requires rest == [] || rest[0] != '"'
    ensures ReadQuoted(Escape(f) + "\"" + rest) == Some(Field(f, rest))
    decreases |f|
  {
    if f == [] {
      assert Escape(f) + "\"" + rest == "\"" + rest;
      ReadClosing(rest);
    } else {
      ReadEscaped(f[1..], rest);
      if f[0] == '"' {
        EscapedQuote(f, rest);
      } else {
        EscapedPlain(f, rest);
      }
    }
  }

  /** A quoted field, read back, is the field. */
  lemma Unquote(f: string)
    ensures ReadQuoted(Quote(f)[1..]) == Some(Field(f, []))
  {
    assert Quote(f)[1..] == Escape(f) + "\"" + [];
    ReadEscaped(f, []);
  }

  lemma RowsEnd(s: string, fld: Field)
    requires |s| >= 1 && s[0] == '"' && ReadQuoted(s[1..]) == Some(fld) && fld.rest == []
    ensures ParseRows(s) == Some([[fld.text]])
  {
  }

  lemma RowsNewline(s: string, fld: Field, more: seq<seq<string>>)
    requires |s| >= 1 && s[0] == '"' && ReadQuoted(s[1..]) == Some(fld)
    requires fld.rest != [] && fld.rest[0] == '\n' && ParseRows(fld.rest[1..]) == Some(more)
    ensures ParseRows(s) == Some([[fld.text]] + more)
  {
  }

  lemma RowsComma(s: string, fld: Field, row: seq<string>, more: seq<seq<string>>)
    requires |s| >= 1 && s[0] == '"' && ReadQuoted(s[1..]) == Some(fld)
    requires fld.rest != [] && fld.rest[0] == ',' && ParseRows(fld.rest[1..]) == Some([row] + more)
    ensures ParseRows(s) == Some([[fld.text] + row] + more)
  {
    assert ([row] + more)[1..] == more;
  }

  /** A quoted field followed by anything that does not start with a quote reads back as the field. */
  lemma QuotedThen(f: string, tail: string)
    requires tail == [] || tail[0] != '"'
    ensures |Quote(f) + tail| >= 1 && (Quote(f) + tail)[0] == '"'
    ensures ReadQuoted((Quote(f) + tail)[1..]) == Some(Field(f, tail))
  {
    assert (Quote(f) + tail)[1..] == Escape(f) + "\"" + tail;
    ReadEscaped(f, tail);
  }

  /** A row's last field, then nothing or a newline and rows `more`. */
  lemma LastField(f: string, tail: string, more: seq<seq<string>>)
    requires (tail == [] && more == []) || (|tail| >= 1 && tail[0] == '\n' && ParseRows(tail[1..]) == Some(more))
    ensures ParseRows(Quote(f) + tail) == Some([[f]] + more)
  {
    QuotedThen(f, tail);
    if tail == [] {
      RowsEnd(Quote(f) + tail, Field(f, tail));
      assert [[f]] + more == [[f]];
    } else {
      RowsNewline(Quote(f) + tail, Field(f, tail), more);
    }
  }

  /** A field followed by a comma and the rest of its row. */
  lemma NextField(f: string, others: string, row: seq<string>, more: seq<seq<string>>)
    requires ParseRows(others) == Some([row] + more)
    ensures ParseRows(Quote(f) + [','] + others) == Some([[f] + row] + more)
  {
    var rest := [','] + others;
    QuotedThen(f, rest);
    assert Quote(f) + [','] + others == Quote(f) + rest;
    assert rest[1..] == others;
    RowsComma(Quote(f) + rest, Field(f, rest), row, more);
  }

  lemma LineCons(fields: seq<string>)
    requires |fields| >= 2
    ensures Line(fields) == Quote(fields[0]) + [','] + Line(fields[1..])
  {
    var q := QuoteAll(fields);
    assert q == [Quote(fields[0])] + QuoteAll(fields[1..]);
    assert q[1..] == QuoteAll(fields[1..]);
  }

  lemma DocumentCons(rows: seq<seq<string>>)
    requires |rows| >= 2
    ensures Document(rows) == Line(rows[0]) + ['\n'] + Document(rows[1..])
  {
    var l := Lines(rows);
    assert l == [Line(rows[0])] + Lines(rows[1..]);
    assert l[1..] == Lines(rows[1..]);
  }

  /** Reading a row, followed by nothing or by a newline and rows `more`, gives the row and then `more`. */
  lemma {:induction false} ReadLine(fields: seq<string>, tail: string, more: seq<seq<string>>)
    requires |fields| >= 1
    requires (tail == [] && more == []) || (|tail| >= 1 && tail[0] == '\n' && ParseRows(tail[1..]) == Some(more))
    ensures ParseRows(Line(fields) + tail) == Some([fields] + more)
    decreases |fields|
  {
    var f := fields[0];
    if |fields| == 1 {
      assert QuoteAll(fields) == [Quote(f)];
      LastField(f, tail, more);
      assert fields == [f];
    } else {
      var others := Line(fields[1..]);
      LineCons(fields);
      assert Line(fields) + tail == Quote(f) + [','] + (others + tail);
      ReadLine(fields[1..], tail, more);
      NextField(f, others + tail, fields[1..], more);
      assert [f] + fields[1..] == fields;
    }
  }

  /** Reading a written file gives its rows back, provided no row is empty. */
  lemma {:induction false} ParseDocument(rows: seq<seq<string>>)
    requires |rows| >= 1
    requires forall i :: 0 <= i < |rows| ==> |rows[i]| >= 1
    ensures ParseRows(Document(rows)) == Some(rows)
    decreases |rows|
  {
    if |rows| == 1 {
      SingleRow(rows);
    } else {
      assert forall i :: 0 <= i < |rows[1..]| ==> rows[1..][i] == rows[i + 1];
      ParseDocument(rows[1..]);
      RowThenRows(rows);
    }
  }

  lemma SingleRow(rows: seq<seq<string>>)
    requires |rows| == 1 && |rows[0]| >= 1
    ensures ParseRows(Document(rows)) == Some(rows)
  {
    assert Lines(rows) == [Line(rows[0])];
    ReadLine(rows[0], [], []);
    assert Line(rows[0]) + [] == Line(rows[0]);
    assert [rows[0]] + [] == rows;
  }

  lemma RowThenRows(rows: seq<seq<string>>)
    requires |rows| >= 2 && |rows[0]| >= 1
    requires ParseRows(Document(rows[1..])) == Some(rows[1..])
    ensures ParseRows(Document(rows)) == Some(rows)
  {
    var more := rows[1..];
    var tail := ['\n'] + Document(more);
    assert Document(rows) == Line(rows[0]) + tail by {
      DocumentCons(rows);
    }
    assert [rows[0]] + more == rows;
    assert ParseRows(Line(rows[0]) + tail) == Some([rows[0]] + more) by {
      assert tail[1..] == Document(more);
      ReadLine(rows[0], tail, more);
    }
  }

  /** No row is empty. */
  predicate RowsHaveFields(rows: seq<seq<string>>) {
    forall i :: 0 <= i < |rows| ==> |rows[i]| >= 1
  }

  /** A file of a header and body rows reads back as the header and the rows. */
  lemma HeaderAndRows(header: seq<string>, body: seq<seq<string>>)
    requires |header| >= 1 && RowsHaveFields(body)
    ensures ParseRows(Document([header] + body)) == Some([header] + body)
  {
    var all := [header] + body;
    forall i | 0 <= i < |all| ensures |all[i]| >= 1 {
      if i > 0 { assert all[i] == body[i - 1]; }
    }
    ParseDocument(all);
  }

  /** The first line of a file is its first row, ended by a newline when more rows follow. */
  lemma DocumentStartsWithFirstRow(rows: seq<seq<string>>)
    requires |rows| >= 1
    ensures var first := Line(rows[0]);
      |Document(rows)| >= |first| && Document(rows)[..|first|] == first
      && (|rows| > 1 ==> |Document(rows)| > |first| && Document(rows)[|first|] == '\n')
  {
    var first := Line(rows[0]);
    if |rows| == 1 {
      assert Lines(rows) == [first];
    } else {
      assert Lines(rows) == [first] + Lines(rows[1..]);
      assert Document(rows) == first + ['\n'] + Document(rows[1..]);
    }
  }
}
