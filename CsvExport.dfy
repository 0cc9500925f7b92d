/**
 * The text `exportToCsv` builds: the header line `Content,Fixed`, then one
 * row per note, rows joined by a line feed with none after the last. A row is
 * the content between double quotes, each inner quote doubled, a comma, and
 * the pin state as `true` or `false`.
 *
 * A reader for that text is defined beside it (`ParseCsv`) only to state what
 * the export promises: reading the text back gives each note's content and
 * pin state, in list order, whatever quotes, commas or line breaks the content
 * holds.
 */
module CsvExport {
  import opened Wrappers
  import opened Notes

  const Header: string := "Content,Fixed\n"

  /** `content.replace(/"/g, '""')`. */
  function Escape(s: string): string
  {
    if s == [] then []
    else if s[0] == '"' then "\"\"" + Escape(s[1..])
    else [s[0]] + Escape(s[1..])
  }

  /** A boolean as a template literal renders it. */
  function BoolText(b: bool): string
  {
    if b then "true" else "false"
  }

  function Row(n: Note): string
  {
    "\"" + Escape(n.content) + "\"" + "," + BoolText(n.fixed)
  }

  function Rows(notes: seq<Note>): seq<string>
  {
    if notes == [] then [] else [Row(notes[0])] + Rows(notes[1..])
  }

  /** `parts.join(sep)`. */
  function Join(parts: seq<string>, sep: string): string
  {
    if parts == [] then ""
    else if |parts| == 1 then parts[0]
    else parts[0] + sep + Join(parts[1..], sep)
  }

  function Csv(notes: seq<Note>): string
  {
    Header + Join(Rows(notes), "\n")
  }

  // ---------------------------------------------------------------------------
  // Reading the text back

  /**
   * Reads a quoted field whose opening quote has been consumed: the content
   * with every doubled quote undone, and the text after the closing quote.
   */
  function ScanQuoted(s: string): (r: Option<(string, string)>)
    ensures r.Some? ==> |r.value.1| < |s|
  {
    if s == [] then None
    else if s[0] == '"' then
      if |s| >= 2 && s[1] == '"' then
        match ScanQuoted(s[2..])
        case None => None
        case Some(p) => Some(("\"" + p.0, p.1))
      else Some(("", s[1..]))
    else
      match ScanQuoted(s[1..])
      case None => None
      case Some(p) => Some(([s[0]] + p.0, p.1))
  }

  /** Reads `,true` or `,false`: the pin state and the text after it. */
  function ScanFixed(s: string): (r: Option<(bool, string)>)
    ensures r.Some? ==> |r.value.1| < |s|
  {
    if ",true" <= s then Some((true, s[5..]))
    else if ",false" <= s then Some((false, s[6..]))
    else None
  }

  /** Reads one or more rows separated by line feeds. */
  function ParseRows(s: string): Option<seq<(string, bool)>>
    decreases |s|
  {
    if s == [] || s[0] != '"' then None
    else
      match ScanQuoted(s[1..])
      case None => None
      case Some(field) =>
        match ScanFixed(field.1)
        case None => None
        case Some(flag) =>
          var row := (field.0, flag.0);
          if flag.1 == [] then Some([row])
          else if flag.1[0] != '\n' then None
          else
            match ParseRows(flag.1[1..])
            case None => None
            case Some(more) => Some([row] + more)
  }

  function ParseCsv(text: string): Option<seq<(string, bool)>>
  {
    if !(Header <= text) then None
    else if text == Header then Some([])
    else ParseRows(text[|Header|..])
  }

  /** What the export carries of each note: its content and its pin state. */
  function Records(notes: seq<Note>): seq<(string, bool)>
  {
    if notes == [] then [] else [(notes[0].content, notes[0].fixed)] + Records(notes[1..])
  }

  // ---------------------------------------------------------------------------
  // Round trip

  /** The closing quote of an escaped field is found, the doubled quotes are undone. */
  lemma {:induction false} ScanEscaped(content: string, rest: string)
    requires rest == [] || rest[0] != '"'
    ensures ScanQuoted(Escape(content) + "\"" + rest) == Some((content, rest))
  {
    var s := Escape(content) + "\"" + rest;
    if content == [] {
      assert s == "\"" + rest;
      assert s[1..] == rest;
    } else if content[0] == '"' {
      ScanEscaped(content[1..], rest);
      assert s == "\"\"" + (Escape(content[1..]) + "\"" + rest);
      assert s[2..] == Escape(content[1..]) + "\"" + rest;
      assert "\"" + content[1..] == content;
    } else {
      ScanEscaped(content[1..], rest);
      assert s == [content[0]] + (Escape(content[1..]) + "\"" + rest);
      assert s[1..] == Escape(content[1..]) + "\"" + rest;
      assert [content[0]] + content[1..] == content;
    }
  }

  /** The quoted field of a row followed by `rest` reads back as the note's content. */
  lemma ScanRow(n: Note, rest: string)
    ensures ScanQuoted((Row(n) + rest)[1..]) == Some((n.content, "," + BoolText(n.fixed) + rest))
  {
    var tail := "," + BoolText(n.fixed) + rest;
    assert (Row(n) + rest)[1..] == Escape(n.content) + "\"" + tail;
    ScanEscaped(n.content, tail);
  }

  /** The `,true`/`,false` column reads back as the pin state. */
  lemma ScanFlag(fixed: bool, rest: string)
    ensures ScanFixed("," + BoolText(fixed) + rest) == Some((fixed, rest))
  {
    var tail := "," + BoolText(fixed) + rest;
    if fixed {
      assert ",true" <= tail && tail[5..] == rest;
    } else {
      assert tail[1] == 'f';
      assert ",false" <= tail && tail[6..] == rest;
    }
  }

  /** A last row reads back as the one record of its note. */
  lemma ParseLastRow(n: Note)
    ensures ParseRows(Row(n)) == Some([(n.content, n.fixed)])
  {
    var s := Row(n);
    assert s + "" == s && s[0] == '"';
    ScanRow(n, "");
    ScanFlag(n.fixed, "");
  }

  /** A row followed by a line feed reads back as its note's record, then the rows after it. */
  lemma ParseRowThenMore(n: Note, more: string)
    ensures ParseRows(Row(n) + ("\n" + more)) ==
              match ParseRows(more)
              case None => None
              case Some(rest) => Some([(n.content, n.fixed)] + rest)
  {
    var s := Row(n) + ("\n" + more);
    assert s[0] == '"';
    ScanRow(n, "\n" + more);
    ScanFlag(n.fixed, "\n" + more);
    assert ("\n" + more)[1..] == more;
  }

  lemma {:induction false} RowsRoundTrip(notes: seq<Note>)
    requires notes != []
    ensures ParseRows(Join(Rows(notes), "\n")) == Some(Records(notes))
  {
    var n := notes[0];
    var rows := Rows(notes);
    assert rows[0] == Row(n) && rows[1..] == Rows(notes[1..]);
    assert Records(notes) == [(n.content, n.fixed)] + Records(notes[1..]);
    if |notes| == 1 {
      assert Join(rows, "\n") == Row(n);
      ParseLastRow(n);
      assert Records(notes[1..]) == [];
      assert Records(notes) == [(n.content, n.fixed)];
    } else {
      var more := Join(Rows(notes[1..]), "\n");
      assert Join(rows, "\n") == Row(n) + ("\n" + more);
      ParseRowThenMore(n, more);
      RowsRoundTrip(notes[1..]);
    }
  }

  /**
   * Reading the exported text gives back every note's content and pin state in
   * list order; the empty list exports the header alone.
   */
  lemma CsvRoundTrip(notes: seq<Note>)
    ensures ParseCsv(Csv(notes)) == Some(Records(notes))
    ensures notes == [] <==> Csv(notes) == Header
  {
    var body := Join(Rows(notes), "\n");
    assert Csv(notes)[|Header|..] == body;
    if notes != [] {
      RowsRoundTrip(notes);
      assert body != [];
    }
  }

  /** The rows are joined by line feeds with none after the last row. */
  lemma {:induction false} NoTrailingNewline(notes: seq<Note>)
    requires notes != []
    ensures Csv(notes)[|Csv(notes)| - 1] != '\n'
  {
    var j := Join(Rows(notes), "\n");
    var t := "," + BoolText(notes[|notes| - 1].fixed);
    LastRowEnds(notes);
    assert j[|j| - 1] == t[|t| - 1] == 'e';
    assert Csv(notes)[|Csv(notes)| - 1] == j[|j| - 1];
  }

  /** The joined rows end with the last note's `,true` or `,false`. */
  lemma {:induction false} LastRowEnds(notes: seq<Note>)
    requires notes != []
    ensures var j := Join(Rows(notes), "\n");
            var t := "," + BoolText(notes[|notes| - 1].fixed);
            |t| <= |j| && j[|j| - |t|..] == t
  {
    var rows := Rows(notes);
    assert rows[0] == Row(notes[0]) && rows[1..] == Rows(notes[1..]);
    if |notes| > 1 {
      LastRowEnds(notes[1..]);
      assert notes[1..][|notes[1..]| - 1] == notes[|notes| - 1];
    }
  }

  /** Escaping works piece by piece. */
  lemma {:induction false} EscapeAppend(a: string, b: string)
    ensures Escape(a + b) == Escape(a) + Escape(b)
  {
    if a == [] {
      assert a + b == b;
    } else {
      var ab := a + b;
      assert ab[0] == a[0] && ab[1..] == a[1..] + b;
      EscapeAppend(a[1..], b);
      var head := if a[0] == '"' then "\"\"" else [a[0]];
      assert Escape(a) == head + Escape(a[1..]);
      assert Escape(ab) == head + Escape(ab[1..]);
    }
  }

  /** Text without double quotes is exported as it is. */
  lemma {:induction false} EscapeWithoutQuotes(s: string)
    requires forall i :: 0 <= i < |s| ==> s[i] != '"'
    ensures Escape(s) == s
  {
    if s != [] {
      EscapeWithoutQuotes(s[1..]);
    }
  }

  /** `a"b"` escapes to `a""b""` when escaping leaves `a` and `b` as they are. */
  lemma EscapeQuotedWord(a: string, b: string)
    requires Escape(a) == a && Escape(b) == b
    ensures Escape(a + "\"" + b + "\"") == a + "\"\"" + b + "\"\""
  {
    var q := "\"";
    assert Escape(q) == "\"\"";
    EscapeAppend(a, q);
    EscapeAppend(a + q, b);
    EscapeAppend(a + q + b, q);
  }

  /** The export of a single note is the header and that note's row. */
  lemma CsvOfOne(n: Note)
    ensures Csv([n]) == Header + Row(n)
  {
    assert [n][1..] == [];
    assert Rows([n]) == [Row(n)];
  }

  /**
   * A pinned note whose content is `a`, a quoted `b`, with no quotes in `a` or
   * `b`, exports as the header and the row with both quotes doubled.
   */
  lemma CsvQuotedExample(n: Note, a: string, b: string)
    requires forall i :: 0 <= i < |a| ==> a[i] != '"'
    requires forall i :: 0 <= i < |b| ==> b[i] != '"'
    requires n.content == a + "\"" + b + "\"" && n.fixed
    ensures Csv([n]) == Header + "\"" + (a + "\"\"" + b + "\"\"") + "\"" + ",true"
  {
    EscapeWithoutQuotes(a);
    EscapeWithoutQuotes(b);
    EscapeQuotedWord(a, b);
    CsvOfOne(n);
  }

  /** The note `He said "hi"`, pinned, exports with both quotes doubled. */
  lemma CsvExample(n: Note)
    requires n.content == "He said \"hi\"" && n.fixed
    ensures Csv([n]) == "Content,Fixed\n\"He said \"\"hi\"\"\",true"
  {
    var a, b := "He said ", "hi";
    assert n.content == a + "\"" + b + "\"";
    CsvQuotedExample(n, a, b);
    ExampleText();
  }

  /** The pieces of the example's export put together. */
  lemma ExampleText()
    ensures Header + "\"" + ("He said " + "\"\"" + "hi" + "\"\"") + "\"" + ",true" ==
            "Content,Fixed\n\"He said \"\"hi\"\"\",true"
  {
  }
}
