// The byte-level CSV writer behind csv.DictWriter (excel dialect,
// QUOTE_MINIMAL, doubled quotes) and the proof that the reader reads back
// what the writer wrote.

module CsvWriter {
  import opened Wrappers
  import opened PyValues
  import opened CsvReader

  /** The line terminator the writer is given (the platform's line separator). */
  datatype LineSep = Posix | Windows

  function Terminator(sep: LineSep): (t: seq<Byte>)
    ensures |t| > 0 && t[|t| - 1] == Lf
  {
    match sep
    case Posix => [Lf]
    case Windows => [Cr, Lf]
  }

  /** The bytes of a field up to its first NUL, which is all a C string holds. */
  function CString(f: Field): (s: Field)
    ensures s <= f && (forall i :: 0 <= i < |s| ==> s[i] != 0) && (|s| < |f| ==> f[|s|] == 0)
  {
    if f == [] || f[0] == 0 then [] else [f[0]] + CString(f[1..])
  }

  /** A byte that forces quoting: the delimiter, the quote, or a byte of the terminator. */
  predicate Special(c: Byte, sep: LineSep)
    ensures Special(c, sep) <==> c == Comma || c == Quote || c == Lf || (sep == Windows && c == Cr)
  {
    c == Comma || c == Quote || c in Terminator(sep)
  }

  predicate NeedsQuotes(s: Field, sep: LineSep)
  {
    exists i :: 0 <= i < |s| && Special(s[i], sep)
  }

  /** One byte of a quoted field as written: a quote twice, any other byte once. */
  function DoubledByte(c: Byte): (d: seq<Byte>)
    ensures d == (if c == Quote then [Quote, Quote] else [c])
  {
    if c == Quote then [Quote, Quote] else [c]
  }

  /** The field with every quote written twice. */
  function Doubled(s: Field): (d: seq<Byte>)
    ensures |d| >= |s|
  {
    if s == [] then [] else DoubledByte(s[0]) + Doubled(s[1..])
  }

  /** One written field; `quoteEmpty` holds when the row has a single field,
      which is quoted when empty so that the line is not read as blank. */
  function Cell(f: Field, quoteEmpty: bool, sep: LineSep): (c: seq<Byte>)
    ensures |c| >= |CString(f)|
    ensures NeedsQuotes(CString(f), sep) ==> |c| >= |CString(f)| + 2 && c[0] == Quote && c[|c| - 1] == Quote
    ensures c == [] <==> CString(f) == [] && !quoteEmpty
  {
    var s := CString(f);
    if NeedsQuotes(s, sep) || (quoteEmpty && s == []) then [Quote] + Doubled(s) + [Quote] else s
  }

  /** The fields of a row, separated by commas. */
  function Join(fields: Record, quoteEmpty: bool, sep: LineSep): (j: seq<Byte>)
    ensures fields != [] ==> Cell(fields[0], quoteEmpty, sep) <= j
    ensures |fields| >= 2 ==> |j| >= |fields| - 1
    decreases |fields|
  {
    if fields == [] then []
    else if |fields| == 1 then Cell(fields[0], quoteEmpty, sep)
    else Cell(fields[0], quoteEmpty, sep) + [Comma] + Join(fields[1..], quoteEmpty, sep)
  }

  /** One row as the writer emits it, terminator included. */
  function Row(fields: Record, sep: LineSep): (b: seq<Byte>)
    ensures |b| > 0 && b[|b| - 1] == Lf
  {
    Join(fields, |fields| == 1, sep) + Terminator(sep)
  }

  function Rows(rows: seq<Record>, sep: LineSep): (b: seq<Byte>)
    ensures b == [] <==> rows == []
    ensures b != [] ==> b[|b| - 1] == Lf
  {
    if rows == [] then [] else Row(rows[0], sep) + Rows(rows[1..], sep)
  }

  /** A row of one field is that cell and the terminator. */
  lemma SingleRow(f: Field, sep: LineSep)
    ensures Row([f], sep) == Cell(f, true, sep) + Terminator(sep)
  {
    assert Join([f], true, sep) == Cell(f, true, sep);
  }

  /** A row of several fields is its first cell, a comma and the rest of the line. */
  lemma SeveralFieldsRow(fields: Record, sep: LineSep)
    requires |fields| >= 2
    ensures Row(fields, sep) == Cell(fields[0], false, sep) + ([Comma] + (Join(fields[1..], false, sep) + Terminator(sep)))
  {
    var c, rest, t := Cell(fields[0], false, sep), Join(fields[1..], false, sep), Terminator(sep);
    assert Join(fields, false, sep) == c + [Comma] + rest;
    Regroup(c, [Comma], rest);
    Regroup(c, [Comma] + rest, t);
    Regroup([Comma], rest, t);
  }

  /** A line opens with its first cell, followed by a comma or a terminator byte. */
  lemma RowOpening(fields: Record, sep: LineSep)
    ensures fields == [] ==> Row(fields, sep) == Terminator(sep)
    ensures fields != [] ==>
      var r, c := Row(fields, sep), Cell(fields[0], |fields| == 1, sep);
      |r| > |c| && c <= r && (r[|c|] == Comma || r[|c|] == Cr || r[|c|] == Lf)
  {
    if fields != [] {
      var c, t := Cell(fields[0], |fields| == 1, sep), Terminator(sep);
      assert t[0] == Cr || t[0] == Lf;
      var after: seq<Byte>;
      if |fields| == 1 {
        assert fields == [fields[0]];
        SingleRow(fields[0], sep);
        after := t;
      } else {
        SeveralFieldsRow(fields, sep);
        after := [Comma] + (Join(fields[1..], false, sep) + t);
      }
      assert Row(fields, sep) == c + after;
      assert (c + after)[|c|] == after[0];
    }
  }

  /** Three opening bytes that are neither a quote, a comma nor a terminator
      byte can only come from the first cell, written unquoted. */
  lemma OpeningFromFirstCell(fields: Record, sep: LineSep, lead: seq<Byte>, tail: seq<Byte>)
    requires |lead| == 3 && lead[0] != Quote
    requires forall i :: 0 <= i < 3 ==> lead[i] != Comma && lead[i] != Cr && lead[i] != Lf
    requires lead <= Row(fields, sep) + tail
    ensures fields != [] && lead <= CString(fields[0])
  {
    RowOpening(fields, sep);
    var line := Row(fields, sep);
    assert (line + tail)[0] == line[0];
    if fields != [] {
      var c := Cell(fields[0], |fields| == 1, sep);
      assert (line + tail)[|c|] == line[|c|];
      assert forall i :: 0 <= i < 3 ==> c[i] == line[i] == (line + tail)[i];
      assert c[0] != Quote;
    }
  }

  /** The same for the lines of several rows: such bytes come from the first
      row's first cell. */
  lemma RowsOpeningFromFirstCell(header: Record, body: seq<Record>, sep: LineSep, lead: seq<Byte>)
    requires |lead| == 3 && lead[0] != Quote
    requires forall i :: 0 <= i < 3 ==> lead[i] != Comma && lead[i] != Cr && lead[i] != Lf
    requires lead <= Rows([header] + body, sep)
    ensures header != [] && lead <= CString(header[0])
  {
    RowsCons(header, body, sep);
    OpeningFromFirstCell(header, sep, lead, Rows(body, sep));
  }

  /** Writing a row ahead of others puts its line first. */
  lemma RowsCons(row: Record, rows: seq<Record>, sep: LineSep)
    ensures Rows([row] + rows, sep) == Row(row, sep) + Rows(rows, sep)
  {
    assert ([row] + rows)[0] == row && ([row] + rows)[1..] == rows;
  }

  /** Writing one more row appends its line. */
  lemma {:induction false} RowsAppend(rows: seq<Record>, row: Record, sep: LineSep)
    ensures Rows(rows + [row], sep) == Rows(rows, sep) + Row(row, sep)
    decreases |rows|
  {
    if rows == [] {
      assert rows + [row] == [row];
      assert Rows([row], sep) == Row(row, sep) + Rows([], sep);
    } else {
      var all := rows + [row];
      assert all[0] == rows[0];
      assert all[1..] == rows[1..] + [row];
      var head := Row(rows[0], sep);
      var mid := Rows(rows[1..], sep);
      var last := Row(row, sep);
      calc {
        Rows(all, sep);
        head + Rows(rows[1..] + [row], sep);
        { RowsAppend(rows[1..], row, sep); }
        head + (mid + last);
        { Regroup(head, mid, last); }
        head + mid + last;
      }
    }
  }

  // ---------------------------------------------------------------------
  // Reading back what was written

  /** A field the reader gives back unchanged: no NUL and, when the terminator
      is a bare '\n', no '\r' (which the writer would leave unquoted). */
  predicate Clean(f: Field, sep: LineSep)
  {
    forall i :: 0 <= i < |f| ==> f[i] != 0 && (sep == Posix ==> f[i] != Cr)
  }

  predicate CleanRecord(row: Record, sep: LineSep)
  {
    forall j :: 0 <= j < |row| ==> Clean(row[j], sep)
  }

  predicate CleanRows(rows: seq<Record>, sep: LineSep)
  {
    forall i :: 0 <= i < |rows| ==> CleanRecord(rows[i], sep)
  }

  /** A byte that an unquoted field carries through unchanged. */
  predicate Plain(c: Byte)
  {
    c != 0 && !IsNewline(c) && c != Comma && c != Quote
  }

  /** Where a field may start: after a comma, or at the start of a record. */
  predicate Ready(p: Parser)
  {
    p.field == [] && (p.phase == StartField || (p.phase == StartRecord && p.fields == []))
  }

  /** The parser after reading one written field, before what follows it. */
  function AfterCell(p: Parser, f: Field, quoteEmpty: bool, sep: LineSep): Parser
  {
    if NeedsQuotes(f, sep) || (quoteEmpty && f == []) then Parser(QuoteInQuotedField, p.fields, f)
    else if f == [] then p
    else Parser(InField, p.fields, f)
  }

  /** The parser after reading the written fields of a row, before its terminator. */
  function AfterJoin(p: Parser, fields: Record, quoteEmpty: bool, sep: LineSep): Parser
    requires |fields| >= 1
    decreases |fields|
  {
    if |fields| == 1 then AfterCell(p, fields[0], quoteEmpty, sep)
    else AfterJoin(Parser(StartField, p.fields + [fields[0]], []), fields[1..], quoteEmpty, sep)
  }

  lemma {:induction false} CStringClean(f: Field, sep: LineSep)
    requires Clean(f, sep)
    ensures CString(f) == f
    decreases |f|
  {
    if f != [] {
      assert f[0] != 0;
      assert Clean(f[1..], sep);
      CStringClean(f[1..], sep);
      assert [f[0]] + f[1..] == f;
    }
  }

  /** One byte, read without a fault. */
  lemma FeedChar(p: Parser, c: Byte, rest: seq<Event>)
    requires c != 0 && Step(p, c).Success?
    ensures Feed(p, [Char(c)] + rest) == Feed(Step(p, c).value, rest)
  {
    assert ([Char(c)] + rest)[1..] == rest;
  }

  /** An end of line inside a record. */
  lemma FeedLineEnd(p: Parser, rest: seq<Event>)
    requires EndLine(p).phase != StartRecord
    ensures Feed(p, [LineEnd] + rest) == Feed(EndLine(p), rest)
  {
    assert ([LineEnd] + rest)[1..] == rest;
  }

  /** An end of line that completes a record. */
  lemma FeedRecordEnd(p: Parser, rest: seq<Event>)
    requires EndLine(p).phase == StartRecord
    ensures Feed(p, [LineEnd] + rest) ==
      var o := Feed(Fresh, rest); o.(records := [EndLine(p).fields] + o.records)
  {
    assert ([LineEnd] + rest)[1..] == rest;
  }

  /** A byte that is not '\n' is one event. */
  lemma MarkedCons(s: seq<Byte>, tail: seq<Event>)
    requires s != [] && s[0] != Lf
    ensures Marked(s) + tail == [Char(s[0])] + (Marked(s[1..]) + tail)
  {
    Regroup([Char(s[0])], Marked(s[1..]), tail);
  }

  /** A field grown by its first byte and then by the rest is grown by the whole. */
  lemma GrowField(a: Field, s: Field)
    requires s != []
    ensures a + [s[0]] + s[1..] == a + s
  {
    assert [s[0]] + s[1..] == s;
    Regroup(a, [s[0]], s[1..]);
  }

  /** A plain byte inside an unquoted field is added to it. */
  lemma PlainByteRead(p: Parser, c: Byte, rest: seq<Event>)
    requires p.phase == InField && Plain(c)
    ensures Feed(p, [Char(c)] + rest) == Feed(Add(p, c, InField), rest)
  {
    assert Step(p, c) == Success(Add(p, c, InField));
    FeedChar(p, c, rest);
  }

  lemma {:induction false} UnquotedRead(p: Parser, s: Field, tail: seq<Event>)
    requires p.phase == InField
    requires forall i :: 0 <= i < |s| ==> Plain(s[i])
    ensures Feed(p, Marked(s) + tail) == Feed(p.(field := p.field + s), tail)
    decreases |s|
  {
    if s == [] {
      assert p.field + s == p.field;
      assert p.(field := p.field + s) == p;
      assert Marked(s) + tail == tail;
    } else {
      var q := Add(p, s[0], InField);
      assert Plain(s[0]);
      MarkedCons(s, tail);
      PlainByteRead(p, s[0], Marked(s[1..]) + tail);
      assert forall i :: 0 <= i < |s[1..]| ==> Plain(s[1..][i]) by {
        forall i | 0 <= i < |s[1..]| ensures Plain(s[1..][i]) { assert s[1..][i] == s[i + 1]; }
      }
      UnquotedRead(q, s[1..], tail);
      GrowField(p.field, s);
    }
  }

  /** A written quote pair inside a quoted field reads as one quote. */
  lemma QuotePairRead(p: Parser, rest: seq<Event>)
    requires p.phase == InQuotedField
    ensures Feed(p, Marked([Quote, Quote]) + rest) == Feed(Add(p, Quote, InQuotedField), rest)
  {
    assert [Quote, Quote][1..] == [Quote];
    assert Marked([Quote]) == [Char(Quote)];
    assert Marked([Quote, Quote]) == [Char(Quote), Char(Quote)];
    assert Marked([Quote, Quote]) + rest == [Char(Quote)] + ([Char(Quote)] + rest);
    var p' := p.(phase := QuoteInQuotedField);
    assert Step(p, Quote) == Success(p');
    FeedChar(p, Quote, [Char(Quote)] + rest);
    assert Step(p', Quote) == Success(Add(p, Quote, InQuotedField));
    FeedChar(p', Quote, rest);
  }

  /** A '\n' inside a quoted field is kept, and the line end after it does not end the record. */
  lemma QuotedNewlineRead(p: Parser, rest: seq<Event>)
    requires p.phase == InQuotedField
    ensures Feed(p, Marked([Lf]) + rest) == Feed(Add(p, Lf, InQuotedField), rest)
  {
    var q := Add(p, Lf, InQuotedField);
    assert Marked([Lf]) == [Char(Lf), LineEnd];
    assert Marked([Lf]) + rest == [Char(Lf)] + ([LineEnd] + rest);
    assert Step(p, Lf) == Success(q);
    FeedChar(p, Lf, [LineEnd] + rest);
    FeedLineEnd(q, rest);
  }

  /** Any other byte inside a quoted field is added to it. */
  lemma QuotedOtherRead(p: Parser, c: Byte, rest: seq<Event>)
    requires p.phase == InQuotedField && c != 0 && c != Quote && c != Lf
    ensures Feed(p, Marked([c]) + rest) == Feed(Add(p, c, InQuotedField), rest)
  {
    assert Marked([c]) == [Char(c)];
    assert Step(p, c) == Success(Add(p, c, InQuotedField));
    FeedChar(p, c, rest);
  }

  /** The written form of one byte of a quoted field reads back as that byte. */
  lemma QuotedByteRead(p: Parser, c: Byte, rest: seq<Event>)
    requires p.phase == InQuotedField && c != 0
    ensures Feed(p, Marked(DoubledByte(c)) + rest) == Feed(Add(p, c, InQuotedField), rest)
  {
    if c == Quote {
      QuotePairRead(p, rest);
    } else if c == Lf {
      QuotedNewlineRead(p, rest);
    } else {
      QuotedOtherRead(p, c, rest);
    }
  }

  /** The first written byte (or two) of a quoted field body. */
  lemma QuotedStep(p: Parser, s: Field, tail: seq<Event>)
    requires p.phase == InQuotedField && s != [] && s[0] != 0
    ensures Feed(p, Marked(Doubled(s)) + tail) ==
      Feed(Add(p, s[0], InQuotedField), Marked(Doubled(s[1..])) + tail)
  {
    var d := DoubledByte(s[0]);
    var rest := Marked(Doubled(s[1..])) + tail;
    assert Doubled(s) == d + Doubled(s[1..]);
    MarkedAppend(d, Doubled(s[1..]));
    Regroup(Marked(d), Marked(Doubled(s[1..])), tail);
    QuotedByteRead(p, s[0], rest);
  }

  lemma {:induction false} QuotedRead(p: Parser, s: Field, tail: seq<Event>)
    requires p.phase == InQuotedField
    requires forall i :: 0 <= i < |s| ==> s[i] != 0
    ensures Feed(p, Marked(Doubled(s)) + tail) == Feed(p.(field := p.field + s), tail)
    decreases |s|
  {
    if s == [] {
      assert p.field + s == p.field;
      assert p.(field := p.field + s) == p;
      assert Marked(Doubled(s)) + tail == tail;
    } else {
      var q := Add(p, s[0], InQuotedField);
      QuotedStep(p, s, tail);
      assert forall i :: 0 <= i < |s[1..]| ==> s[1..][i] != 0 by {
        forall i | 0 <= i < |s[1..]| ensures s[1..][i] != 0 { assert s[1..][i] == s[i + 1]; }
      }
      QuotedRead(q, s[1..], tail);
      GrowField(p.field, s);
    }
  }

  lemma CellRead(p: Parser, f: Field, quoteEmpty: bool, sep: LineSep, tail: seq<Event>)
    requires Ready(p) && Clean(f, sep)
    ensures Feed(p, Marked(Cell(f, quoteEmpty, sep)) + tail) == Feed(AfterCell(p, f, quoteEmpty, sep), tail)
  {
    CStringClean(f, sep);
    if NeedsQuotes(f, sep) || (quoteEmpty && f == []) {
      QuotedCellRead(p, f, quoteEmpty, sep, tail);
    } else if f == [] {
      assert Marked(Cell(f, quoteEmpty, sep)) + tail == tail;
    } else {
      forall i | 0 <= i < |f|
        ensures Plain(f[i])
      {
        assert !Special(f[i], sep);
      }
      var p1 := Add(p, f[0], InField);
      assert Step(p, f[0]) == Success(p1);
      MarkedCons(f, tail);
      FeedChar(p, f[0], Marked(f[1..]) + tail);
      assert forall i :: 0 <= i < |f[1..]| ==> Plain(f[1..][i]) by {
        forall i | 0 <= i < |f[1..]| ensures Plain(f[1..][i]) { assert f[1..][i] == f[i + 1]; }
      }
      UnquotedRead(p1, f[1..], tail);
      GrowField(p.field, f);
      assert p.field + f == f;
    }
  }

  /** The events of a quoted cell: the opening quote, the body, the closing quote. */
  lemma MarkedQuoted(body: seq<Byte>, tail: seq<Event>)
    ensures Marked([Quote] + body + [Quote]) + tail == [Char(Quote)] + (Marked(body) + ([Char(Quote)] + tail))
  {
    MarkedAppend([Quote] + body, [Quote]);
    MarkedAppend([Quote], body);
    assert Marked([Quote]) == [Char(Quote)];
    Regroup([Char(Quote)], Marked(body), [Char(Quote)]);
    Regroup([Char(Quote)] + Marked(body), [Char(Quote)], tail);
    Regroup([Char(Quote)], Marked(body), [Char(Quote)] + tail);
  }

  /** A field that needs quoting is written between quotes, its quotes doubled. */
  lemma QuotedCell(f: Field, quoteEmpty: bool, sep: LineSep)
    requires CString(f) == f
    requires NeedsQuotes(f, sep) || (quoteEmpty && f == [])
    ensures Cell(f, quoteEmpty, sep) == [Quote] + Doubled(f) + [Quote]
  {
  }

  /** An opening quote where a field may start begins a quoted field. */
  lemma OpenQuoteRead(p: Parser, rest: seq<Event>)
    requires Ready(p)
    ensures Feed(p, [Char(Quote)] + rest) == Feed(Parser(InQuotedField, p.fields, []), rest)
  {
    assert Step(p, Quote) == Success(Parser(InQuotedField, p.fields, []));
    FeedChar(p, Quote, rest);
  }

  /** A quote inside a quoted field may close it. */
  lemma CloseQuoteRead(fields: seq<Field>, f: Field, tail: seq<Event>)
    ensures Feed(Parser(InQuotedField, fields, f), [Char(Quote)] + tail) == Feed(Parser(QuoteInQuotedField, fields, f), tail)
  {
    assert Step(Parser(InQuotedField, fields, f), Quote) == Success(Parser(QuoteInQuotedField, fields, f));
    FeedChar(Parser(InQuotedField, fields, f), Quote, tail);
  }

  lemma QuotedCellRead(p: Parser, f: Field, quoteEmpty: bool, sep: LineSep, tail: seq<Event>)
    requires Ready(p) && Clean(f, sep) && CString(f) == f
    requires NeedsQuotes(f, sep) || (quoteEmpty && f == [])
    ensures Feed(p, Marked(Cell(f, quoteEmpty, sep)) + tail) == Feed(Parser(QuoteInQuotedField, p.fields, f), tail)
  {
    var body := Doubled(f);
    var p1 := Parser(InQuotedField, p.fields, []);
    QuotedCell(f, quoteEmpty, sep);
    MarkedQuoted(body, tail);
    OpenQuoteRead(p, Marked(body) + ([Char(Quote)] + tail));
    QuotedRead(p1, f, [Char(Quote)] + tail);
    assert p1.(field := p1.field + f) == Parser(InQuotedField, p.fields, f);
    CloseQuoteRead(p.fields, f, tail);
  }

  /** After a field, a comma saves it and a new field begins. */
  lemma CommaRead(q: Parser, tail: seq<Event>)
    requires q.phase == InField || q.phase == QuoteInQuotedField || Ready(q)
    ensures Feed(q, [Char(Comma)] + tail) == Feed(Parser(StartField, q.fields + [q.field], []), tail)
  {
    assert Step(q, Comma) == Success(Parser(StartField, q.fields + [q.field], []));
    FeedChar(q, Comma, tail);
  }

  /** After the last field, the terminator saves it and hands out the record. */
  lemma TerminatorRead(q: Parser, sep: LineSep, tail: seq<Event>)
    requires q.phase == InField || q.phase == QuoteInQuotedField || q.phase == StartField
    ensures Feed(q, Marked(Terminator(sep)) + tail) ==
      var o := Feed(Fresh, tail); o.(records := [q.fields + [q.field]] + o.records)
  {
    var s := Save(q, EatCrNl);
    assert EndLine(s) == Parser(StartRecord, q.fields + [q.field], []);
    assert Marked([Lf]) == [Char(Lf), LineEnd];
    match sep
    case Posix =>
      assert Step(q, Lf) == Success(s);
      assert Marked([Lf]) + tail == [Char(Lf)] + ([LineEnd] + tail);
      FeedChar(q, Lf, [LineEnd] + tail);
      FeedRecordEnd(s, tail);
    case Windows =>
      assert Step(q, Cr) == Success(s);
      assert [Cr, Lf][1..] == [Lf];
      assert Marked([Cr, Lf]) == [Char(Cr), Char(Lf), LineEnd];
      assert Step(s, Lf) == Success(s);
      assert Marked([Cr, Lf]) + tail == [Char(Cr)] + ([Char(Lf)] + ([LineEnd] + tail));
      FeedChar(q, Cr, [Char(Lf)] + ([LineEnd] + tail));
      FeedChar(s, Lf, [LineEnd] + tail);
      FeedRecordEnd(s, tail);
  }

  /** The parser after the written fields of a row, still expecting its terminator. */
  lemma {:induction false} AfterJoinShape(p: Parser, fields: Record, quoteEmpty: bool, sep: LineSep)
    requires Ready(p) && |fields| >= 1
    ensures var q := AfterJoin(p, fields, quoteEmpty, sep);
      q.fields == p.fields + fields[..|fields| - 1] && q.field == fields[|fields| - 1] &&
      (q.phase == InField || q.phase == QuoteInQuotedField ||
       (q.field == [] && q.phase == (if |fields| == 1 then p.phase else StartField)))
    decreases |fields|
  {
    if |fields| >= 2 {
      var p2 := Parser(StartField, p.fields + [fields[0]], []);
      AfterJoinShape(p2, fields[1..], quoteEmpty, sep);
      assert p.fields + [fields[0]] + fields[1..][..|fields| - 2] == p.fields + fields[..|fields| - 1];
    }
  }

  /** The events of a cell, a comma and the rest of a row. */
  lemma MarkedComma(cell: seq<Byte>, rest: seq<Byte>, tail: seq<Event>)
    ensures Marked(cell + [Comma] + rest) + tail == Marked(cell) + ([Char(Comma)] + (Marked(rest) + tail))
  {
    MarkedAppend(cell + [Comma], rest);
    MarkedAppend(cell, [Comma]);
    assert Marked([Comma]) == [Char(Comma)];
    Regroup(Marked(cell), [Char(Comma)], Marked(rest));
    Regroup(Marked(cell) + [Char(Comma)], Marked(rest), tail);
    Regroup(Marked(cell), [Char(Comma)], Marked(rest) + tail);
  }

  lemma {:induction false} JoinRead(p: Parser, fields: Record, quoteEmpty: bool, sep: LineSep, tail: seq<Event>)
    requires Ready(p) && |fields| >= 1
    requires CleanRecord(fields, sep)
    ensures Feed(p, Marked(Join(fields, quoteEmpty, sep)) + tail) == Feed(AfterJoin(p, fields, quoteEmpty, sep), tail)
    decreases |fields|
  {
    var f := fields[0];
    assert Clean(f, sep);
    if |fields| == 1 {
      CellRead(p, f, quoteEmpty, sep, tail);
    } else {
      var rest := Join(fields[1..], quoteEmpty, sep);
      var cell := Cell(f, quoteEmpty, sep);
      var p1 := AfterCell(p, f, quoteEmpty, sep);
      var p2 := Parser(StartField, p.fields + [f], []);
      assert Join(fields, quoteEmpty, sep) == cell + [Comma] + rest;
      MarkedComma(cell, rest, tail);
      CellRead(p, f, quoteEmpty, sep, [Char(Comma)] + (Marked(rest) + tail));
      CommaRead(p1, Marked(rest) + tail);
      assert p1.fields + [p1.field] == p.fields + [f];
      assert CleanRecord(fields[1..], sep) by {
        forall j | 0 <= j < |fields[1..]| ensures Clean(fields[1..][j], sep) { assert fields[1..][j] == fields[j + 1]; }
      }
      JoinRead(p2, fields[1..], quoteEmpty, sep, tail);
    }
  }

  /** A written row reads back as the same record. */
  lemma RowRead(row: Record, sep: LineSep, tail: seq<Event>)
    requires CleanRecord(row, sep)
    ensures Feed(Fresh, Marked(Row(row, sep)) + tail) ==
      var o := Feed(Fresh, tail); o.(records := [row] + o.records)
  {
    if row == [] {
      BlankRowRead(sep, tail);
    } else {
      FieldsRowRead(row, sep, tail);
    }
  }

  lemma FieldsRowRead(row: Record, sep: LineSep, tail: seq<Event>)
    requires |row| >= 1
    requires CleanRecord(row, sep)
    ensures Feed(Fresh, Marked(Row(row, sep)) + tail) ==
      var o := Feed(Fresh, tail); o.(records := [row] + o.records)
  {
    var term := Terminator(sep);
    var qe := |row| == 1;
    var joined := Join(row, qe, sep);
    assert Row(row, sep) == joined + term;
    MarkedAppend(joined, term);
    Regroup(Marked(joined), Marked(term), tail);
    JoinRead(Fresh, row, qe, sep, Marked(term) + tail);
    RowJoinShape(row, sep);
    var q := AfterJoin(Fresh, row, qe, sep);
    TerminatorRead(q, sep, tail);
  }

  /** The written fields of a non-empty row leave the parser expecting the terminator. */
  lemma RowJoinShape(row: Record, sep: LineSep)
    requires |row| >= 1
    ensures var q := AfterJoin(Fresh, row, |row| == 1, sep);
      q.fields + [q.field] == row &&
      (q.phase == InField || q.phase == QuoteInQuotedField || q.phase == StartField)
  {
    AfterJoinShape(Fresh, row, |row| == 1, sep);
    if |row| == 1 {
      assert AfterJoin(Fresh, row, true, sep) == AfterCell(Fresh, row[0], true, sep);
    }
    assert row[..|row| - 1] + [row[|row| - 1]] == row;
  }

  /** A row without fields is written as a bare terminator and read as a blank record. */
  lemma BlankRowRead(sep: LineSep, tail: seq<Event>)
    ensures Feed(Fresh, Marked(Row([], sep)) + tail) ==
      var o := Feed(Fresh, tail); o.(records := [[]] + o.records)
  {
    var q := Fresh.(phase := EatCrNl);
    assert EndLine(q) == Fresh;
    assert Marked([Lf]) == [Char(Lf), LineEnd];
    match sep
    case Posix =>
      assert Row([], sep) == [Lf];
      assert Step(Fresh, Lf) == Success(q);
      assert Marked([Lf]) + tail == [Char(Lf)] + ([LineEnd] + tail);
      FeedChar(Fresh, Lf, [LineEnd] + tail);
      FeedRecordEnd(q, tail);
    case Windows =>
      assert Row([], sep) == [Cr, Lf];
      assert Step(Fresh, Cr) == Success(q);
      assert [Cr, Lf][1..] == [Lf];
      assert Marked([Cr, Lf]) == [Char(Cr), Char(Lf), LineEnd];
      assert Step(q, Lf) == Success(q);
      assert Marked([Cr, Lf]) + tail == [Char(Cr)] + ([Char(Lf)] + ([LineEnd] + tail));
      FeedChar(Fresh, Cr, [Char(Lf)] + ([LineEnd] + tail));
      FeedChar(q, Lf, [LineEnd] + tail);
      FeedRecordEnd(q, tail);
  }

  lemma {:induction false} RowsRead(rows: seq<Record>, sep: LineSep)
    requires CleanRows(rows, sep)
    ensures Feed(Fresh, Marked(Rows(rows, sep))) == Outcome(rows, Fresh, None)
    decreases |rows|
  {
    if rows != [] {
      var rest := Rows(rows[1..], sep);
      assert Rows(rows, sep) == Row(rows[0], sep) + rest;
      MarkedAppend(Row(rows[0], sep), rest);
      assert CleanRecord(rows[0], sep);
      RowRead(rows[0], sep, Marked(rest));
      assert CleanRows(rows[1..], sep) by {
        forall i | 0 <= i < |rows[1..]| ensures CleanRecord(rows[1..][i], sep)
        {
          assert rows[1..][i] == rows[i + 1];
        }
      }
      RowsRead(rows[1..], sep);
      assert [rows[0]] + rows[1..] == rows;
    }
  }

  /** Round trip: the reader gives back exactly the rows the writer wrote,
      provided no field holds NUL (and, under a bare '\n' terminator, no '\r'). */
  lemma ReadWritten(rows: seq<Record>, sep: LineSep)
    requires CleanRows(rows, sep)
    ensures Parse(Rows(rows, sep)) == Parsed(rows, None)
  {
    RowsRead(rows, sep);
    assert Lines(Rows(rows, sep)) == Marked(Rows(rows, sep));
  }

  /** A bare field keeps its bytes and stays bare behind plain bytes. */
  lemma PlainBeforeBareCell(prefix: seq<Byte>, f: Field, qe: bool, sep: LineSep)
    requires forall i :: 0 <= i < |prefix| ==> Plain(prefix[i])
    requires Clean(f, sep) && !NeedsQuotes(f, sep) && !(qe && f == [])
    ensures Cell(prefix + f, qe, sep) == prefix + f && Cell(f, qe, sep) == f
  {
    var g := prefix + f;
    assert Clean(g, sep) by {
      forall i | 0 <= i < |g| ensures g[i] != 0 && (sep == Posix ==> g[i] != Cr)
      {
        if i >= |prefix| { assert g[i] == f[i - |prefix|]; }
      }
    }
    assert !NeedsQuotes(g, sep) by {
      forall i | 0 <= i < |g| ensures !Special(g[i], sep)
      {
        if i >= |prefix| {
          assert g[i] == f[i - |prefix|];
        } else {
          assert Plain(prefix[i]);
          assert Terminator(sep) == [Lf] || Terminator(sep) == [Cr, Lf];
        }
      }
    }
    CStringClean(f, sep);
    CStringClean(g, sep);
  }

  lemma PrefixJoinsFirstCell(prefix: seq<Byte>, fields: Record, sep: LineSep)
    requires fields != []
    requires forall i :: 0 <= i < |prefix| ==> Plain(prefix[i])
    requires Clean(fields[0], sep) && !NeedsQuotes(fields[0], sep)
    requires !(|fields| == 1 && fields[0] == [])
    ensures prefix + Row(fields, sep) == Row([prefix + fields[0]] + fields[1..], sep)
  {
    var first := [prefix + fields[0]] + fields[1..];
    var qe := |fields| == 1;
    PlainBeforeBareCell(prefix, fields[0], qe, sep);
    assert first[0] == prefix + fields[0] && first[1..] == fields[1..];
    var j := Join(fields, qe, sep);
    var j' := Join(first, qe, sep);
    if |fields| == 1 {
      assert j == fields[0];
      assert j' == prefix + fields[0];
    } else {
      var f := fields[0];
      var rest := Join(fields[1..], qe, sep);
      assert j == f + [Comma] + rest;
      assert j' == (prefix + f) + [Comma] + rest;
      Regroup(prefix, f + [Comma], rest);
      Regroup(prefix, f, [Comma]);
    }
    assert j' == prefix + j;
    assert Row(first, sep) == j' + Terminator(sep);
    assert Row(fields, sep) == j + Terminator(sep);
    Regroup(prefix, j, Terminator(sep));
  }

  /** Bytes written ahead of the first row (such as a byte order mark) that
      need no quoting join the first field of the first record, provided that
      field is written bare. */
  lemma PrefixJoinsFirstField(prefix: seq<Byte>, rows: seq<Record>, sep: LineSep)
    requires rows != [] && rows[0] != []
    requires forall i :: 0 <= i < |prefix| ==> Plain(prefix[i])
    requires Clean(rows[0][0], sep) && !NeedsQuotes(rows[0][0], sep)
    requires !(|rows[0]| == 1 && rows[0][0] == [])
    ensures prefix + Rows(rows, sep) ==
      Rows([[prefix + rows[0][0]] + rows[0][1..]] + rows[1..], sep)
  {
    var first := [prefix + rows[0][0]] + rows[0][1..];
    var rows' := [first] + rows[1..];
    var rest := Rows(rows[1..], sep);
    PrefixJoinsFirstCell(prefix, rows[0], sep);
    assert rows'[0] == first && rows'[1..] == rows[1..];
    calc {
      prefix + Rows(rows, sep);
      prefix + (Row(rows[0], sep) + rest);
      { Regroup(prefix, Row(rows[0], sep), rest); }
      prefix + Row(rows[0], sep) + rest;
      Row(first, sep) + rest;
      Rows(rows', sep);
    }
  }
}
