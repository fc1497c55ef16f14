/** The library export (`api/export/route.ts`): CSV rows quoted as in
    section 2 of RFC 4180 with a guard against spreadsheet formulas, BibTeX
    entries with escaped text and cite keys kept unique within one export,
    and the request checks that pick the format and the scope. */
module Export {
  import opened Text
  import opened Library

  // ---------------------------------------------------------------------
  // CSV fields
  // ---------------------------------------------------------------------

  /** The characters that make a spreadsheet read a cell as a formula. */
  predicate IsFormulaStart(c: char) {
    c == '=' || c == '+' || c == '-' || c == '@' || c == '\t' || c == '\r'
  }

  /** A field is quoted when it holds a comma, a double quote or a line
      feed; a carriage return alone does not count. */
  predicate NeedsQuotes(s: string) {
    ',' in s || '"' in s || '\n' in s
  }

  /** A value starting with a formula character gets a leading `'`. */
  function Defused(s: string): (r: string)
    ensures r != [] ==> !IsFormulaStart(r[0])
    ensures r == s || r == "'" + s
    ensures NeedsQuotes(r) <==> NeedsQuotes(s)
  {
    if s != [] && IsFormulaStart(s[0]) then
      assert forall c :: c in "'" + s <==> c == '\'' || c in s;
      "'" + s
    else s
  }

  /** Every double quote written twice. */
  function DoubleQuotes(s: string): (r: string)
    ensures |r| >= |s|
    ensures '"' !in s ==> r == s
  {
    if s == [] then []
    else (if s[0] == '"' then "\"\"" else [s[0]]) + DoubleQuotes(s[1..])
  }

  /** What a reader makes of the inside of a quoted field: each pair of
      double quotes stands for one. */
  function Undouble(s: string): string {
    if s == [] then []
    else if |s| >= 2 && s[0] == '"' && s[1] == '"' then "\"" + Undouble(s[2..])
    else [s[0]] + Undouble(s[1..])
  }

  lemma {:induction false} UndoubleDoubleQuotes(s: string)
    ensures Undouble(DoubleQuotes(s)) == s
  {
    if s != [] {
      UndoubleDoubleQuotes(s[1..]);
      if s[0] == '"' {
        assert DoubleQuotes(s) == "\"\"" + DoubleQuotes(s[1..]);
        assert DoubleQuotes(s)[2..] == DoubleQuotes(s[1..]);
      } else {
        assert DoubleQuotes(s) == [s[0]] + DoubleQuotes(s[1..]);
        assert DoubleQuotes(s)[1..] == DoubleQuotes(s[1..]);
      }
      assert s == [s[0]] + s[1..];
    }
  }

  /** `csvEscape`: the empty field for a missing value; otherwise the
      defused text, quoted with doubled quotes when it needs quoting. */
  function CsvEscape(v: Option<string>): (r: string)
    ensures v.None? ==> r == ""
    ensures r != [] ==> !IsFormulaStart(r[0])
    ensures v.Some? && !NeedsQuotes(v.value) ==> r == Defused(v.value)
    ensures v.Some? && NeedsQuotes(v.value) ==>
              |r| >= 2 && r[0] == '"' && r[|r| - 1] == '"' && Undouble(r[1..|r| - 1]) == Defused(v.value)
  {
    match v
    case None => ""
    case Some(s) =>
      var d := Defused(s);
      if NeedsQuotes(d) then
        var r := "\"" + DoubleQuotes(d) + "\"";
        assert r[1..|r| - 1] == DoubleQuotes(d);
        UndoubleDoubleQuotes(d);
        r
      else d
  }

  /** The text a reader recovers from an escaped value. */
  function Plain(v: Option<string>): string {
    if v.None? then "" else Defused(v.value)
  }

  function Escapes(vs: seq<Option<string>>): (r: seq<string>)
    ensures |r| == |vs| && forall i :: 0 <= i < |vs| ==> r[i] == CsvEscape(vs[i])
  {
    if vs == [] then [] else [CsvEscape(vs[0])] + Escapes(vs[1..])
  }

  function Plains(vs: seq<Option<string>>): (r: seq<string>)
    ensures |r| == |vs| && forall i :: 0 <= i < |vs| ==> r[i] == Plain(vs[i])
  {
    if vs == [] then [] else [Plain(vs[0])] + Plains(vs[1..])
  }

  /** A carriage return inside a value leaves it unquoted. */
  lemma CarriageReturnIsNotQuoted()
    ensures CsvEscape(Some("a\rb")) == "a\rb"
  {
    assert !NeedsQuotes("a\rb");
  }

  // ---------------------------------------------------------------------
  // Reading CSV back (section 2 of RFC 4180)
  // ---------------------------------------------------------------------

  /** Reads the inside of a quoted field up to its closing quote; none when
      the quote is never closed. */
  function ReadQuoted(s: string): (r: Option<(string, string)>)
    decreases |s|
    ensures r.Some? ==> |r.value.1| < |s|
  {
    if s == [] then None
    else if s[0] == '"' then
      if |s| >= 2 && s[1] == '"' then
        match ReadQuoted(s[2..])
        case None => None
        case Some((inner, rest)) => Some(("\"" + inner, rest))
      else Some(("", s[1..]))
    else
      match ReadQuoted(s[1..])
      case None => None
      case Some((inner, rest)) => Some(([s[0]] + inner, rest))
  }

  /** Reads an unquoted field up to the next comma or line feed. */
  function ReadBare(s: string): (r: (string, string))
    ensures r.0 + r.1 == s
    ensures ',' !in r.0 && '\n' !in r.0
    ensures r.1 == [] || r.1[0] == ',' || r.1[0] == '\n'
  {
    if s == [] || s[0] == ',' || s[0] == '\n' then ([], s)
    else
      var (f, rest) := ReadBare(s[1..]);
      assert s == [s[0]] + s[1..];
      ([s[0]] + f, rest)
  }

  function ReadField(s: string): (r: Option<(string, string)>)
    ensures r.Some? ==> |r.value.1| <= |s|
  {
    if s != [] && s[0] == '"' then ReadQuoted(s[1..]) else Some(ReadBare(s))
  }

  /** Reads the fields of one record, consuming the line feed that ends it. */
  function ReadRecord(s: string): (r: Option<(seq<string>, string)>)
    decreases |s|
    ensures r.Some? ==> |r.value.1| <= |s| && (s != [] ==> |r.value.1| < |s|)
  {
    match ReadField(s)
    case None => None
    case Some((f, rest)) =>
      if rest == [] then Some(([f], []))
      else if rest[0] == ',' then
        match ReadRecord(rest[1..])
        case None => None
        case Some((fs, rest')) => Some(([f] + fs, rest'))
      else if rest[0] == '\n' then Some(([f], rest[1..]))
      else None
  }

  /** Reads a whole CSV text into its records. */
  function ParseCsv(s: string): Option<seq<seq<string>>>
    decreases |s|
  {
    if s == [] then Some([])
    else match ReadRecord(s)
      case None => None
      case Some((record, rest)) =>
        if rest == [] then Some([record])
        else match ParseCsv(rest)
          case None => None
          case Some(records) => Some([record] + records)
  }

  predicate EndsField(rest: string) {
    rest == [] || rest[0] == ',' || rest[0] == '\n'
  }

  lemma {:induction false} ReadQuotedDoubled(x: string, rest: string)
    requires rest == [] || rest[0] != '"'
    ensures ReadQuoted(DoubleQuotes(x) + "\"" + rest) == Some((x, rest))
    decreases |x|, 1
  {
    if x == [] {
      assert DoubleQuotes(x) + "\"" + rest == "\"" + rest;
      assert ("\"" + rest)[1..] == rest;
    } else if x[0] == '"' {
      ReadQuotedDoubledQuote(x, rest);
    } else {
      ReadQuotedDoubledOther(x, rest);
    }
  }

  /** The step of `ReadQuotedDoubled` for a value starting with a quote. */
  lemma {:induction false} ReadQuotedDoubledQuote(x: string, rest: string)
    requires rest == [] || rest[0] != '"'
    requires x != [] && x[0] == '"'
    ensures ReadQuoted(DoubleQuotes(x) + "\"" + rest) == Some((x, rest))
    decreases |x|, 0
  {
    ReadQuotedDoubled(x[1..], rest);
    var tail := DoubleQuotes(x[1..]) + "\"" + rest;
    assert DoubleQuotes(x) + "\"" + rest == "\"\"" + tail;
    ReadQuotedPair(tail);
    assert x == "\"" + x[1..];
  }

  /** The step of `ReadQuotedDoubled` for a value starting with another
      character. */
  lemma {:induction false} ReadQuotedDoubledOther(x: string, rest: string)
    requires rest == [] || rest[0] != '"'
    requires x != [] && x[0] != '"'
    ensures ReadQuoted(DoubleQuotes(x) + "\"" + rest) == Some((x, rest))
    decreases |x|, 0
  {
    ReadQuotedDoubled(x[1..], rest);
    var tail := DoubleQuotes(x[1..]) + "\"" + rest;
    assert DoubleQuotes(x) + "\"" + rest == [x[0]] + tail;
    ReadQuotedChar(x[0], tail);
    assert x == [x[0]] + x[1..];
  }

  /** A doubled quote reads as one quote of the value. */
  lemma ReadQuotedPair(tail: string)
    ensures ReadQuoted("\"\"" + tail) ==
              match ReadQuoted(tail)
              case None => None
              case Some((inner, rest)) => Some(("\"" + inner, rest))
  {
    assert ("\"\"" + tail)[2..] == tail;
  }

  /** Any other character is part of the value. */
  lemma ReadQuotedChar(c: char, tail: string)
    requires c != '"'
    ensures ReadQuoted([c] + tail) ==
              match ReadQuoted(tail)
              case None => None
              case Some((inner, rest)) => Some(([c] + inner, rest))
  {
    assert ([c] + tail)[1..] == tail;
  }

  /** Every escaped value reads back as its plain text, whatever field or
      record boundary follows it. */
  lemma ReadEscaped(v: Option<string>, rest: string)
    requires EndsField(rest)
    ensures ReadField(CsvEscape(v) + rest) == Some((Plain(v), rest))
  {
    if v.Some? && NeedsQuotes(v.value) {
      ReadQuotedField(Defused(v.value), rest);
    } else {
      var e := CsvEscape(v);
      assert e == Plain(v);
      ReadBareField(e, rest);
    }
  }

  lemma ReadQuotedField(d: string, rest: string)
    requires EndsField(rest)
    ensures ReadField("\"" + DoubleQuotes(d) + "\"" + rest) == Some((d, rest))
  {
    var tail := DoubleQuotes(d) + "\"" + rest;
    assert "\"" + DoubleQuotes(d) + "\"" + rest == "\"" + tail;
    assert ("\"" + tail)[1..] == tail;
    assert rest == [] || rest[0] != '"';
    ReadQuotedDoubled(d, rest);
    assert ReadField("\"" + tail) == ReadQuoted(tail);
  }

  lemma ReadBareField(e: string, rest: string)
    requires EndsField(rest) && !NeedsQuotes(e)
    ensures ReadField(e + rest) == Some((e, rest))
  {
    if e != [] {
      assert e[0] in e;
    }
    ReadBareExact(e, rest);
  }

  lemma {:induction false} ReadBareExact(x: string, rest: string)
    requires ',' !in x && '\n' !in x && EndsField(rest)
    ensures ReadBare(x + rest) == (x, rest)
  {
    if x != [] {
      assert x[0] in x;
      assert forall c :: c in x[1..] ==> c in x;
      ReadBareExact(x[1..], rest);
      assert (x + rest)[1..] == x[1..] + rest;
      assert x == [x[0]] + x[1..];
    } else {
      assert x + rest == rest;
    }
  }

  lemma Regroup(a: string, b: string, c: string, d: string)
    ensures a + b + c + d == a + (b + (c + d))
  {
  }

  lemma ReadRecordAfterComma(s: string, f: string, tail: string)
    requires ReadField(s) == Some((f, "," + tail))
    ensures ReadRecord(s) == match ReadRecord(tail)
                             case None => None
                             case Some((fs, rest)) => Some(([f] + fs, rest))
  {
    assert ("," + tail)[1..] == tail;
  }

  lemma ReadRecordLast(s: string, f: string, rest: string)
    requires ReadField(s) == Some((f, rest)) && (rest == [] || rest[0] == '\n')
    ensures ReadRecord(s) == Some(([f], if rest == [] then [] else rest[1..]))
  {
  }

  /** A record written from values reads back as their plain texts. */
  lemma {:induction false} ReadRecordOfValues(vs: seq<Option<string>>, rest: string)
    requires vs != [] && (rest == [] || rest[0] == '\n')
    ensures ReadRecord(Join(Escapes(vs), ",") + rest) == Some((Plains(vs), if rest == [] then [] else rest[1..]))
  {
    var es := Escapes(vs);
    if |vs| == 1 {
      assert Join(es, ",") == CsvEscape(vs[0]);
      ReadEscaped(vs[0], rest);
      ReadRecordLast(CsvEscape(vs[0]) + rest, Plain(vs[0]), rest);
      assert Plains(vs) == [Plain(vs[0])];
    } else {
      var tail := Join(es[1..], ",") + rest;
      var s := Join(es, ",") + rest;
      var head := CsvEscape(vs[0]);
      assert Join(es, ",") == head + "," + Join(es[1..], ",");
      Regroup(head, ",", Join(es[1..], ","), rest);
      ReadEscaped(vs[0], "," + tail);
      ReadRecordAfterComma(s, Plain(vs[0]), tail);
      assert es[1..] == Escapes(vs[1..]);
      ReadRecordOfValues(vs[1..], rest);
      assert Plains(vs) == [Plain(vs[0])] + Plains(vs[1..]);
    }
  }

  function RowText(vs: seq<Option<string>>): string {
    Join(Escapes(vs), ",")
  }

  function RowTexts(rows: seq<seq<Option<string>>>): (r: seq<string>)
    ensures |r| == |rows| && forall i :: 0 <= i < |rows| ==> r[i] == RowText(rows[i])
  {
    if rows == [] then [] else [RowText(rows[0])] + RowTexts(rows[1..])
  }

  function RowPlains(rows: seq<seq<Option<string>>>): (r: seq<seq<string>>)
    ensures |r| == |rows| && forall i :: 0 <= i < |rows| ==> r[i] == Plains(rows[i])
  {
    if rows == [] then [] else [Plains(rows[0])] + RowPlains(rows[1..])
  }

  /** A record of at least two values is never the empty text. */
  lemma RowTextNotEmpty(vs: seq<Option<string>>)
    requires |vs| >= 2
    ensures RowText(vs) != []
  {
    assert RowText(vs) == CsvEscape(vs[0]) + "," + Join(Escapes(vs)[1..], ",");
  }

  /** Records of at least two values, one per line, read back as the plain
      texts of their values. */
  lemma ParseCsvStep(s: string, record: seq<string>, rest: string)
    requires s != [] && ReadRecord(s) == Some((record, rest))
    ensures ParseCsv(s) == if rest == [] then Some([record])
                           else match ParseCsv(rest)
                                case None => None
                                case Some(records) => Some([record] + records)
  {
  }

  lemma JoinFront(parts: seq<string>, sep: string)
    requires |parts| >= 2
    ensures Join(parts, sep) == parts[0] + (sep + Join(parts[1..], sep))
  {
    assert Join(parts, sep) == parts[0] + sep + Join(parts[1..], sep);
  }

  /** Records of at least two values, one per line, read back as the plain
      texts of their values. */
  lemma {:induction false} ParseRows(rows: seq<seq<Option<string>>>)
    requires forall i :: 0 <= i < |rows| ==> |rows[i]| >= 2
    ensures ParseCsv(Join(RowTexts(rows), "\n")) == Some(RowPlains(rows))
  {
    if rows != [] {
      var texts := RowTexts(rows);
      RowTextNotEmpty(rows[0]);
      if |rows| == 1 {
        var s := RowText(rows[0]);
        assert Join(texts, "\n") == s;
        assert s + [] == s;
        ReadRecordOfValues(rows[0], []);
        ParseCsvStep(s, Plains(rows[0]), []);
        assert RowPlains(rows) == [Plains(rows[0])];
      } else {
        assert texts[1..] == RowTexts(rows[1..]);
        var rest := Join(texts[1..], "\n");
        JoinFront(texts, "\n");
        ReadRecordOfValues(rows[0], "\n" + rest);
        assert ("\n" + rest)[1..] == rest;
        RowTextNotEmpty(rows[1]);
        assert rest != [] by {
          if |rows| > 2 {
            JoinFront(texts[1..], "\n");
          }
        }
        ParseCsvStep(Join(texts, "\n"), Plains(rows[0]), rest);
        ParseRows(rows[1..]);
        assert RowPlains(rows) == [Plains(rows[0])] + RowPlains(rows[1..]);
      }
    }
  }

  // ---------------------------------------------------------------------
  // The CSV export
  // ---------------------------------------------------------------------

  const HeaderNames: seq<string> :=
    ["Title", "Authors", "Year", "DOI", "Source", "Cited By", "Topics", "Abstract", "Open Access URL"]

  /** `CSV_HEADER`: the names joined by commas. */
  const CsvHeader: string := Join(HeaderNames, ",")

  function AuthorNames(p: WorkWithRelations): (r: seq<string>)
    ensures |r| == |p.authors| && forall i :: 0 <= i < |r| ==> r[i] == p.authors[i].displayName
  {
    seq(|p.authors|, i requires 0 <= i < |p.authors| => p.authors[i].displayName)
  }

  /** Topic names as `Array.join` renders them: a missing name is empty. */
  function TopicNames(p: WorkWithRelations): (r: seq<string>)
    ensures |r| == |p.topics| && forall i :: 0 <= i < |r| ==> r[i] == p.topics[i].name.GetOr("")
  {
    seq(|p.topics|, i requires 0 <= i < |p.topics| => p.topics[i].name.GetOr(""))
  }

  /** The nine values of a work's row, in the header's column order. */
  function CsvValues(p: WorkWithRelations): (r: seq<Option<string>>)
    ensures |r| == |HeaderNames|
    ensures r[0] == Some(p.work.title) && r[3] == p.work.doi
    ensures r[1] == Some(Join(AuthorNames(p), "; ")) && r[6] == Some(Join(TopicNames(p), "; "))
    ensures r[5] == Some(IntToString(p.work.citedByCount.GetOr(0)))
  {
    var w := p.work;
    [ Some(w.title),
      Some(Join(AuthorNames(p), "; ")),
      if w.year.Some? then Some(IntToString(w.year.value)) else None,
      w.doi,
      w.sourceDisplayName,
      Some(IntToString(w.citedByCount.GetOr(0))),
      Some(Join(TopicNames(p), "; ")),
      w.abstractText,
      w.openAccessUrl ]
  }

  /** `workToCsvRow`. */
  function WorkToCsvRow(p: WorkWithRelations): string {
    RowText(CsvValues(p))
  }

  /** One work's CSV line reads back, by section 2 of RFC 4180, as a single
      record of its nine values' texts. */
  lemma WorkToCsvRowReadsBack(p: WorkWithRelations)
    ensures ReadRecord(WorkToCsvRow(p)) == Some((Plains(CsvValues(p)), []))
  {
    ReadRecordOfValues(CsvValues(p), []);
    assert WorkToCsvRow(p) + [] == WorkToCsvRow(p);
  }

  function PaperRows(papers: seq<WorkWithRelations>): (r: seq<seq<Option<string>>>)
    ensures |r| == |papers| && forall i :: 0 <= i < |papers| ==> r[i] == CsvValues(papers[i])
  {
    seq(|papers|, i requires 0 <= i < |papers| => CsvValues(papers[i]))
  }

  /** Letters and spaces only. */
  predicate Wordy(n: string) {
    forall i :: 0 <= i < |n| ==> n[i] == ' ' || 'A' <= n[i] <= 'z'
  }

  /** A value of letters and spaces is written as it is. */
  lemma WordyIsWrittenAsIs(n: string)
    requires Wordy(n)
    ensures CsvEscape(Some(n)) == n && Plain(Some(n)) == n
  {
    assert !NeedsQuotes(n) by {
      forall c | c in n
        ensures c != ',' && c != '"' && c != '\n'
      {
        var i :| 0 <= i < |n| && n[i] == c;
      }
    }
  }

  lemma HeaderNamesAreWordy()
    ensures forall i :: 0 <= i < |HeaderNames| ==> Wordy(HeaderNames[i])
  {
    assert Wordy("Title");
    assert Wordy("Authors");
    assert Wordy("Year");
    assert Wordy("DOI");
    assert Wordy("Source");
    assert Wordy("Cited By");
    assert Wordy("Topics");
    assert Wordy("Abstract");
    assert Wordy("Open Access URL");
  }

  function Present(names: seq<string>): (r: seq<Option<string>>)
    ensures |r| == |names| && forall i :: 0 <= i < |names| ==> r[i] == Some(names[i])
  {
    seq(|names|, i requires 0 <= i < |names| => Some(names[i]))
  }

  /** Names of letters and spaces written as a record read as themselves. */
  lemma WordyRecord(names: seq<string>)
    requires forall i :: 0 <= i < |names| ==> Wordy(names[i])
    ensures Escapes(Present(names)) == names && Plains(Present(names)) == names
  {
    var hv := Present(names);
    forall i | 0 <= i < |hv|
      ensures CsvEscape(hv[i]) == names[i] && Plain(hv[i]) == names[i]
    {
      WordyIsWrittenAsIs(names[i]);
    }
  }

  /** The header line is the header names written as a record. */
  lemma HeaderIsRecord()
    ensures RowText(Present(HeaderNames)) == CsvHeader
    ensures Plains(Present(HeaderNames)) == HeaderNames
  {
    HeaderNamesAreWordy();
    WordyRecord(HeaderNames);
  }

  function CsvRows(papers: seq<WorkWithRelations>): (r: seq<string>)
    ensures |r| == |papers| && forall i :: 0 <= i < |papers| ==> r[i] == WorkToCsvRow(papers[i])
  {
    seq(|papers|, i requires 0 <= i < |papers| => WorkToCsvRow(papers[i]))
  }

  /** What a reader makes of each work's row. */
  function ReadBackRows(papers: seq<WorkWithRelations>): (r: seq<seq<string>>)
    ensures |r| == |papers| && forall i :: 0 <= i < |papers| ==> r[i] == Plains(CsvValues(papers[i]))
  {
    seq(|papers|, i requires 0 <= i < |papers| => Plains(CsvValues(papers[i])))
  }

  /** The CSV text: the header line, then one line per work. */
  function ExportCsv(papers: seq<WorkWithRelations>): string {
    Join([CsvHeader] + CsvRows(papers), "\n")
  }

  /** The values of every line of the export, the header's first. */
  function ExportValues(papers: seq<WorkWithRelations>): seq<seq<Option<string>>> {
    [Present(HeaderNames)] + PaperRows(papers)
  }

  lemma PaperRowsWritten(papers: seq<WorkWithRelations>)
    ensures RowTexts(PaperRows(papers)) == CsvRows(papers)
    ensures RowPlains(PaperRows(papers)) == ReadBackRows(papers)
    ensures forall i :: 0 <= i < |papers| ==> |PaperRows(papers)[i]| >= 2
  {
  }

  lemma ExportValuesWritten(papers: seq<WorkWithRelations>)
    ensures forall i :: 0 <= i < |ExportValues(papers)| ==> |ExportValues(papers)[i]| >= 2
    ensures RowTexts(ExportValues(papers)) == [CsvHeader] + CsvRows(papers)
    ensures RowPlains(ExportValues(papers)) == [HeaderNames] + ReadBackRows(papers)
  {
    HeaderIsRecord();
    PaperRowsWritten(papers);
    RowsCons(Present(HeaderNames), PaperRows(papers));
  }

  /** The texts and plain values of a record put in front. */
  lemma RowsCons(h: seq<Option<string>>, rows: seq<seq<Option<string>>>)
    ensures RowTexts([h] + rows) == [RowText(h)] + RowTexts(rows)
    ensures RowPlains([h] + rows) == [Plains(h)] + RowPlains(rows)
  {
    assert ([h] + rows)[1..] == rows;
  }

  /** Reading the export back gives the header names and then, for each
      work in order, the nine values of its row (defused, missing ones
      empty). */
  lemma ExportCsvReadsBack(papers: seq<WorkWithRelations>)
    ensures ParseCsv(ExportCsv(papers)) == Some([HeaderNames] + ReadBackRows(papers))
  {
    ExportValuesWritten(papers);
    ParseRows(ExportValues(papers));
  }

  // ---------------------------------------------------------------------
  // BibTeX
  // ---------------------------------------------------------------------

  predicate IsBibSpecial(c: char) {
    c == '&' || c == '%' || c == '$' || c == '#' || c == '_' || c == '{' || c == '}'
    || c == '~' || c == '^' || c == '\\'
  }

  /** `bibtexEscape`: a backslash before every special character. */
  function BibtexEscape(s: string): (r: string)
    ensures |r| >= |s|
    ensures (forall i :: 0 <= i < |s| ==> !IsBibSpecial(s[i])) ==> r == s
  {
    if s == [] then []
    else (if IsBibSpecial(s[0]) then ['\\', s[0]] else [s[0]]) + BibtexEscape(s[1..])
  }

  /** What a reader of the entry makes of escaped text: a backslash stands
      for the character after it. */
  function BibtexUnescape(s: string): string {
    if s == [] then []
    else if s[0] == '\\' && |s| >= 2 then [s[1]] + BibtexUnescape(s[2..])
    else [s[0]] + BibtexUnescape(s[1..])
  }

  lemma {:induction false} BibtexRoundTrip(s: string)
    ensures BibtexUnescape(BibtexEscape(s)) == s
  {
    if s != [] {
      BibtexRoundTrip(s[1..]);
      var e := BibtexEscape(s);
      if IsBibSpecial(s[0]) {
        assert e == ['\\', s[0]] + BibtexEscape(s[1..]);
        assert e[2..] == BibtexEscape(s[1..]);
      } else {
        assert e == [s[0]] + BibtexEscape(s[1..]);
        assert e[1..] == BibtexEscape(s[1..]);
      }
      assert s == [s[0]] + s[1..];
    }
  }

  /** `OPENALEX_TYPE_TO_BIBTEX`, with `misc` for any other type. */
  function EntryType(workType: Option<string>): (r: string)
    ensures r in {"article", "incollection", "book", "inproceedings", "phdthesis", "techreport", "misc", "unpublished"}
  {
    var t := workType.GetOr("");
    if t == "journal-article" then "article"
    else if t == "book-chapter" then "incollection"
    else if t == "book" then "book"
    else if t == "proceedings-article" then "inproceedings"
    else if t == "dissertation" then "phdthesis"
    else if t == "report" then "techreport"
    else if t == "dataset" then "misc"
    else if t == "preprint" then "unpublished"
    else "misc"
  }

  /** An entry field: its name and its (already escaped) value. */
  datatype BibField = BibField(name: string, value: string)

  /** JavaScript truthiness of an optional number. */
  predicate NonZero(n: Option<int>) {
    n.Some? && n.value != 0
  }

  function EscapedNames(authors: seq<AuthorRef>): (r: seq<string>)
    ensures |r| == |authors| && forall i :: 0 <= i < |r| ==> r[i] == BibtexEscape(authors[i].displayName)
  {
    seq(|authors|, i requires 0 <= i < |authors| => BibtexEscape(authors[i].displayName))
  }

  predicate HasText(s: Option<string>) {
    s.Some? && s.value != ""
  }

  /** A field that is written only when `present` holds. */
  function FieldIf(present: bool, name: string, value: string): (r: seq<BibField>)
    ensures |r| <= 1
  {
    if present then [BibField(name, value)] else []
  }

  function VenueName(entryType: string): string {
    if entryType == "inproceedings" then "booktitle" else "journal"
  }

  /** The fields of an entry in their fixed order, each only when present:
      title, author, year, doi, journal or booktitle, url, abstract. */
  function BibFields(p: WorkWithRelations, entryType: string): seq<BibField> {
    var w := p.work;
    [BibField("title", BibtexEscape(w.title))]
    + FieldIf(p.authors != [], "author", Join(EscapedNames(p.authors), " and "))
    + FieldIf(NonZero(w.year), "year", if w.year.Some? then IntToString(w.year.value) else "")
    + FieldIf(HasText(w.doi), "doi", BibtexEscape(w.doi.GetOr("")))
    + FieldIf(HasText(w.sourceDisplayName), VenueName(entryType), BibtexEscape(w.sourceDisplayName.GetOr("")))
    + FieldIf(HasText(w.openAccessUrl), "url", w.openAccessUrl.GetOr(""))
    + FieldIf(HasText(w.abstractText), "abstract", BibtexEscape(w.abstractText.GetOr("")))
  }

  /** The value of the first field with the given name. */
  function FieldValue(fields: seq<BibField>, name: string): Option<string> {
    if fields == [] then None
    else if fields[0].name == name then Some(fields[0].value)
    else FieldValue(fields[1..], name)
  }

  lemma {:induction false} FieldValueAppend(a: seq<BibField>, b: seq<BibField>, name: string)
    ensures FieldValue(a + b, name) == if FieldValue(a, name).Some? then FieldValue(a, name) else FieldValue(b, name)
  {
    if a != [] {
      assert (a + b)[1..] == a[1..] + b;
      FieldValueAppend(a[1..], b, name);
    } else {
      assert a + b == b;
    }
  }

  /** The value a part of at most one field gives a name. */
  function ValueIn(fs: seq<BibField>, name: string): Option<string>
    requires |fs| <= 1
  {
    if fs != [] && fs[0].name == name then Some(fs[0].value) else None
  }

  lemma ValueInSingle(fs: seq<BibField>, name: string)
    requires |fs| <= 1
    ensures FieldValue(fs, name) == ValueIn(fs, name)
  {
    if fs != [] {
      assert fs[1..] == [];
    }
  }

  /** The first of two optional values that is present. */
  function OrElse(a: Option<string>, b: Option<string>): Option<string> {
    if a.Some? then a else b
  }

  lemma FieldValueThen(a: seq<BibField>, b: seq<BibField>, name: string)
    requires |a| <= 1
    ensures FieldValue(a + b, name) == OrElse(ValueIn(a, name), FieldValue(b, name))
  {
    FieldValueAppend(a, b, name);
    ValueInSingle(a, name);
  }

  lemma FieldValueOfSeven(a: seq<BibField>, b: seq<BibField>, c: seq<BibField>, d: seq<BibField>,
                          e: seq<BibField>, f: seq<BibField>, g: seq<BibField>, name: string)
    requires |a| <= 1 && |b| <= 1 && |c| <= 1 && |d| <= 1 && |e| <= 1 && |f| <= 1 && |g| <= 1
    ensures FieldValue(a + b + c + d + e + f + g, name) ==
            OrElse(ValueIn(a, name), OrElse(ValueIn(b, name), OrElse(ValueIn(c, name), OrElse(ValueIn(d, name),
            OrElse(ValueIn(e, name), OrElse(ValueIn(f, name), ValueIn(g, name)))))))
  {
    assert a + b + c + d + e + f + g == a + (b + (c + (d + (e + (f + g)))));
    ValueInSingle(g, name);
    FieldValueThen(f, g, name);
    FieldValueThen(e, f + g, name);
    FieldValueThen(d, e + (f + g), name);
    FieldValueThen(c, d + (e + (f + g)), name);
    FieldValueThen(b, c + (d + (e + (f + g))), name);
    FieldValueThen(a, b + (c + (d + (e + (f + g)))), name);
  }

  /** The value of a named field of an entry, part by part. */
  lemma BibFieldValue(p: WorkWithRelations, entryType: string, name: string)
    ensures var w := p.work;
            FieldValue(BibFields(p, entryType), name) ==
            OrElse(ValueIn([BibField("title", BibtexEscape(w.title))], name),
            OrElse(ValueIn(FieldIf(p.authors != [], "author", Join(EscapedNames(p.authors), " and ")), name),
            OrElse(ValueIn(FieldIf(NonZero(w.year), "year", if w.year.Some? then IntToString(w.year.value) else ""), name),
            OrElse(ValueIn(FieldIf(HasText(w.doi), "doi", BibtexEscape(w.doi.GetOr(""))), name),
            OrElse(ValueIn(FieldIf(HasText(w.sourceDisplayName), VenueName(entryType),
                                   BibtexEscape(w.sourceDisplayName.GetOr(""))), name),
            OrElse(ValueIn(FieldIf(HasText(w.openAccessUrl), "url", w.openAccessUrl.GetOr("")), name),
                   ValueIn(FieldIf(HasText(w.abstractText), "abstract", BibtexEscape(w.abstractText.GetOr(""))), name)))))))
  {
    var w := p.work;
    FieldValueOfSeven(
      [BibField("title", BibtexEscape(w.title))],
      FieldIf(p.authors != [], "author", Join(EscapedNames(p.authors), " and ")),
      FieldIf(NonZero(w.year), "year", if w.year.Some? then IntToString(w.year.value) else ""),
      FieldIf(HasText(w.doi), "doi", BibtexEscape(w.doi.GetOr(""))),
      FieldIf(HasText(w.sourceDisplayName), VenueName(entryType), BibtexEscape(w.sourceDisplayName.GetOr(""))),
      FieldIf(HasText(w.openAccessUrl), "url", w.openAccessUrl.GetOr("")),
      FieldIf(HasText(w.abstractText), "abstract", BibtexEscape(w.abstractText.GetOr(""))),
      name);
  }

  /** An entry always carries the escaped title, and carries the authors
      joined by ` and ` exactly when there are any. */
  lemma BibTitleAndAuthors(p: WorkWithRelations, entryType: string)
    ensures FieldValue(BibFields(p, entryType), "title") == Some(BibtexEscape(p.work.title))
    ensures FieldValue(BibFields(p, entryType), "author") ==
            (if p.authors != [] then Some(Join(EscapedNames(p.authors), " and ")) else None)
  {
    BibFieldValue(p, entryType, "title");
    BibFieldValue(p, entryType, "author");
  }

  /** The year is written only when it is present and not zero. */
  lemma BibYear(p: WorkWithRelations, entryType: string)
    ensures FieldValue(BibFields(p, entryType), "year") ==
            (if NonZero(p.work.year) then Some(IntToString(p.work.year.value)) else None)
  {
    BibFieldValue(p, entryType, "year");
  }

  /** The URL is written unescaped, and only when it is non-empty. */
  lemma BibUrl(p: WorkWithRelations, entryType: string)
    ensures FieldValue(BibFields(p, entryType), "url") ==
            (if HasText(p.work.openAccessUrl) then p.work.openAccessUrl else None)
  {
    BibFieldValue(p, entryType, "url");
  }

  /** The source is a `booktitle` for proceedings and a `journal` for every
      other entry type, and is written only when non-empty. */
  lemma BibVenue(p: WorkWithRelations, entryType: string)
    ensures FieldValue(BibFields(p, entryType), "booktitle") ==
            (if entryType == "inproceedings" && HasText(p.work.sourceDisplayName)
             then Some(BibtexEscape(p.work.sourceDisplayName.value)) else None)
    ensures FieldValue(BibFields(p, entryType), "journal") ==
            (if entryType != "inproceedings" && HasText(p.work.sourceDisplayName)
             then Some(BibtexEscape(p.work.sourceDisplayName.value)) else None)
  {
    BibFieldValue(p, entryType, "booktitle");
    BibFieldValue(p, entryType, "journal");
  }

  function FieldLine(f: BibField): string {
    "  " + f.name + " = {" + f.value + "}"
  }

  function FieldLines(fs: seq<BibField>): (r: seq<string>)
    ensures |r| == |fs| && forall i :: 0 <= i < |fs| ==> r[i] == FieldLine(fs[i])
  {
    seq(|fs|, i requires 0 <= i < |fs| => FieldLine(fs[i]))
  }

  /** One entry: `@type{key,`, the field lines separated by `,` and a line
      feed, and the closing brace on its own line. */
  function BibEntry(p: WorkWithRelations, key: string): string {
    var t := EntryType(p.work.workType);
    "@" + t + "{" + key + ",\n" + Join(FieldLines(BibFields(p, t)), ",\n") + "\n}"
  }

  // ---------------------------------------------------------------------
  // Cite keys
  // ---------------------------------------------------------------------

  /** The last piece of `s.split(/\s+/)`: the text after the last
      whitespace character. */
  function LastToken(s: string): (r: string)
    ensures |r| <= |s| && r == s[|s| - |r|..]
    ensures forall i :: 0 <= i < |r| ==> !IsJsSpace(r[i])
    ensures |r| < |s| ==> IsJsSpace(s[|s| - |r| - 1])
  {
    if s == [] || IsJsSpace(s[|s| - 1]) then []
    else
      var r := LastToken(s[..|s| - 1]) + [s[|s| - 1]];
      assert s[..|s| - 1][|s| - |r|..] + [s[|s| - 1]] == s[|s| - |r|..];
      r
  }

  predicate IsAsciiAlnum(c: char) {
    ('a' <= c <= 'z') || ('A' <= c <= 'Z') || ('0' <= c <= '9')
  }

  /** `.replace(/[^a-zA-Z0-9]/g, "")`. */
  function KeepAlnum(s: string): (r: string)
    ensures |r| <= |s|
    ensures forall i :: 0 <= i < |r| ==> IsAsciiAlnum(r[i])
    ensures (forall i :: 0 <= i < |s| ==> IsAsciiAlnum(s[i])) ==> r == s
  {
    if s == [] then []
    else (if IsAsciiAlnum(s[0]) then [s[0]] else []) + KeepAlnum(s[1..])
  }

  /** The first author's surname, or `unknown` without authors. */
  function Surname(p: WorkWithRelations): string {
    if p.authors == [] then "unknown" else LastToken(p.authors[0].displayName)
  }

  function YearText(p: WorkWithRelations): string {
    if p.work.year.Some? then IntToString(p.work.year.value) else "nd"
  }

  /** The key a work asks for before collisions are resolved. */
  function CiteBase(p: WorkWithRelations): (r: string)
    ensures forall i :: 0 <= i < |r| ==> IsAsciiAlnum(r[i])
  {
    KeepAlnum(Surname(p) + YearText(p))
  }

  /** The number of suffixes the model can write: `String.fromCharCode`
      from `a` up to the first surrogate code point. */
  const MaxSuffixes: nat := 0xD800 - 97

  function SuffixChar(n: nat): char
    requires n < MaxSuffixes
  {
    (97 + n) as char
  }

  /** `key` is `base`, or `base` followed by a suffix character whose
      predecessors were all taken, `base` itself included. */
  predicate KeyFor(base: string, key: string, used: set<string>) {
    || (key == base)
    || (&& |key| == |base| + 1 && key[..|base|] == base && base in used
        && 97 <= key[|base|] as int < 97 + MaxSuffixes
        && forall m :: 0 <= m < key[|base|] as int - 97 ==> base + [SuffixChar(m)] in used)
  }

  /** `base` and `k` distinct suffixed keys in a set make it hold more than
      `k` keys. */
  lemma {:induction false} SuffixedKeysCount(base: string, k: nat, used: set<string>)
    requires k <= MaxSuffixes
    requires base in used
    requires forall m :: 0 <= m < k ==> base + [SuffixChar(m)] in used
    ensures k + 1 <= |used|
  {
    if k > 0 {
      var last := base + [SuffixChar(k - 1)];
      var rest := used - {last};
      assert |rest| == |used| - 1;
      assert base in rest by {
        assert |base| != |last|;
      }
      forall m | 0 <= m < k - 1
        ensures base + [SuffixChar(m)] in rest
      {
        assert (base + [SuffixChar(m)])[|base|] != last[|base|];
      }
      SuffixedKeysCount(base, k - 1, rest);
    }
  }

  /** The set of keys taken so far in one export (`usedKeys`). */
  class CiteKeys {
    var used: set<string>

    constructor()
      ensures used == {}
    {
      used := {};
    }

    /** `makeCiteKey`: the first of `base`, `base` + "a", `base` + "b", …
        not taken yet, where `base` is what the work asks for; it is taken
        from now on. */
    method MakeCiteKey(p: WorkWithRelations) returns (key: string)
      requires |used| < MaxSuffixes
      modifies this
      ensures key !in old(used) && used == old(used) + {key}
      ensures KeyFor(CiteBase(p), key, old(used))
    {
      key := TakeKey(CiteBase(p));
    }

    /** The suffix loop of `makeCiteKey`. */
    method TakeKey(base: string) returns (key: string)
      requires |used| < MaxSuffixes
      modifies this
      ensures key !in old(used) && used == old(used) + {key}
      ensures KeyFor(base, key, old(used))
    {
      var taken := used;
      key := base;
      var suffix: nat := 0;
      while key in taken
        invariant suffix <= |taken|
        invariant suffix == 0 ==> key == base
        invariant suffix > 0 ==> base in taken && suffix - 1 < MaxSuffixes && key == base + [SuffixChar(suffix - 1)]
        invariant forall m :: 0 <= m < suffix - 1 ==> base + [SuffixChar(m)] in taken
        decreases |taken| - suffix
      {
        SuffixedKeysCount(base, suffix, taken);
        key := base + [SuffixChar(suffix)];
        suffix := suffix + 1;
      }
      if suffix > 0 {
        assert key[..|base|] == base && key[|base|] as int - 97 == suffix - 1;
      }
      used := taken + {key};
    }
  }

  function KeySet(keys: seq<string>): set<string> {
    set k | k in keys
  }

  /** The entries of an export, given the keys chosen for its works. */
  function Entries(papers: seq<WorkWithRelations>, keys: seq<string>): (r: seq<string>)
    requires |keys| == |papers|
    ensures |r| == |papers| && forall i :: 0 <= i < |papers| ==> r[i] == BibEntry(papers[i], keys[i])
  {
    seq(|papers|, i requires 0 <= i < |papers| => BibEntry(papers[i], keys[i]))
  }

  /** The keys the works ask for. */
  function CiteBases(papers: seq<WorkWithRelations>): seq<string> {
    seq(|papers|, i requires 0 <= i < |papers| => CiteBase(papers[i]))
  }

  /** `keys` are distinct, and each is what its base allows given the keys
      before it. */
  predicate KeysChosen(bases: seq<string>, keys: seq<string>)
    requires |keys| <= |bases|
  {
    && (forall i, j :: 0 <= i < j < |keys| ==> keys[i] != keys[j])
    && (forall i :: 0 <= i < |keys| ==> KeyFor(bases[i], keys[i], KeySet(keys[..i])))
  }

  lemma KeysChosenStep(bases: seq<string>, keys: seq<string>, key: string)
    requires |keys| < |bases| && KeysChosen(bases, keys)
    requires key !in KeySet(keys) && KeyFor(bases[|keys|], key, KeySet(keys))
    ensures KeysChosen(bases, keys + [key])
    ensures KeySet(keys + [key]) == KeySet(keys) + {key}
  {
    var keys' := keys + [key];
    forall i | 0 <= i < |keys'|
      ensures KeyFor(bases[i], keys'[i], KeySet(keys'[..i]))
    {
      assert keys'[..i] == if i < |keys| then keys[..i] else keys;
    }
  }

  /** The first `|keys|` works have their keys, and `used` holds exactly
      those keys. */
  predicate KeysProgress(papers: seq<WorkWithRelations>, keys: seq<string>, used: set<string>) {
    && |keys| <= |papers|
    && KeysChosen(CiteBases(papers), keys)
    && used == KeySet(keys) && |used| == |keys|
  }

  /** Takes the key of the next work. */
  method ChooseNextKey(taken: CiteKeys, papers: seq<WorkWithRelations>, keys: seq<string>) returns (key: string)
    requires |keys| < |papers| < MaxSuffixes
    requires KeysProgress(papers, keys, taken.used)
    modifies taken
    ensures KeysProgress(papers, keys + [key], taken.used)
  {
    key := taken.MakeCiteKey(papers[|keys|]);
    KeysChosenStep(CiteBases(papers), keys, key);
  }

  lemma EntriesStep(papers: seq<WorkWithRelations>, keys: seq<string>, entries: seq<string>, key: string)
    requires |keys| < |papers| && entries == Entries(papers[..|keys|], keys)
    ensures entries + [BibEntry(papers[|keys|], key)] == Entries(papers[..|keys| + 1], keys + [key])
  {
    var n := |keys|;
    var lhs := entries + [BibEntry(papers[n], key)];
    var rhs := Entries(papers[..n + 1], keys + [key]);
    forall i | 0 <= i < n + 1
      ensures lhs[i] == rhs[i]
    {
      assert papers[..n + 1][i] == papers[i] && (keys + [key])[i] == if i < n then keys[i] else key;
      if i < n {
        assert papers[..n][i] == papers[i];
      }
    }
  }

  /** `formatBibtex`: one entry per work, in order, separated by a blank
      line; the keys are taken from one shared set, so no two agree. */
  method FormatBibtex(papers: seq<WorkWithRelations>) returns (bib: string, keys: seq<string>)
    requires |papers| < MaxSuffixes
    ensures |keys| == |papers| && KeysChosen(CiteBases(papers), keys)
    ensures bib == Join(Entries(papers, keys), "\n\n")
  {
    var taken := new CiteKeys();
    var entries: seq<string> := [];
    keys := [];
    for i := 0 to |papers|
      invariant |keys| == i && KeysProgress(papers, keys, taken.used)
      invariant entries == Entries(papers[..i], keys)
    {
      var key := ChooseNextKey(taken, papers, keys);
      EntriesStep(papers, keys, entries, key);
      entries := entries + [BibEntry(papers[i], key)];
      keys := keys + [key];
    }
    assert papers[..|papers|] == papers;
    bib := Join(entries, "\n\n");
  }

  // ---------------------------------------------------------------------
  // The request
  // ---------------------------------------------------------------------

  datatype Format = CsvFormat | BibtexFormat

  /** Which works are exported: the user's saved works, or one collection. */
  datatype Scope = SavedLibrary | OneCollection(collectionId: string)

  /** The outcome of the checks of `GET`, in the order it makes them. */
  datatype ExportDecision =
    | Unauthorized
    | LimitReached(reason: string)
    | BadRequest(message: string)
    | Proceed(format: Format, scope: Scope)

  /** The checks of `GET`: the signed-in user, the plan's export limit,
      the format (default `csv`), the scope (default `library`). A
      collection scope without a non-empty id exports the library. */
  function DecideExport(signedIn: bool, allowed: bool, reason: string,
                        format: Option<string>, scope: Option<string>, id: Option<string>): (r: ExportDecision)
    ensures !signedIn <==> r == Unauthorized
    ensures signedIn && !allowed <==> r == LimitReached(reason)
    ensures r == BadRequest("Invalid format") <==>
              signedIn && allowed && format.GetOr("csv") != "csv" && format.GetOr("csv") != "bibtex"
    ensures r == BadRequest("Invalid scope") <==>
              signedIn && allowed && format.GetOr("csv") in {"csv", "bibtex"}
              && scope.GetOr("library") != "library" && scope.GetOr("library") != "collection"
    ensures r.Proceed? ==> (r.format == BibtexFormat <==> format == Some("bibtex"))
    ensures r.Proceed? ==> (r.scope.OneCollection? <==> scope == Some("collection") && HasText(id))
  {
    var f := format.GetOr("csv");
    var s := scope.GetOr("library");
    if !signedIn then Unauthorized
    else if !allowed then LimitReached(reason)
    else if f != "csv" && f != "bibtex" then BadRequest("Invalid format")
    else if s != "library" && s != "collection" then BadRequest("Invalid scope")
    else Proceed(if f == "bibtex" then BibtexFormat else CsvFormat,
                 if s == "collection" && HasText(id) then OneCollection(id.value) else SavedLibrary)
  }
}
