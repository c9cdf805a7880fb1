/**
 * The two CSV functions of kickshaws undo each other on tables of text: what
 * `seq_of_maps_into_csv_data` writes, `csv_data_into_seq_of_maps` reads back
 * as the same table, with or without the byte order mark in front.
 */
module TableRoundTrip {
  import opened Wrappers
  import opened PyValues
  import opened CsvReader
  import opened CsvWriter
  import Utf8
  import TextDecoding
  import UnicodeEscape
  import Each
  import CsvToMaps
  import MapsToCsv

  /** A text the trip keeps: no surrogate pair (the encoder would join it into
      one code point), no leading U+FEFF (the decoder would take it for a byte
      order mark), no NUL (the C writer stops at it) and, under a bare '\n'
      line separator, no '\r' (the reader would end the record there). */
  predicate Portable(t: Text, sep: LineSep)
  {
    !Utf8.HasSurrogatePair(t) && (t == [] || t[0] != 0xFEFF) &&
    forall i :: 0 <= i < |t| ==> t[i] != 0 && (sep == Posix ==> t[i] != Cr)
  }

  /** A text the writer leaves unquoted: no comma, quote or line break. */
  predicate Bare(t: Text)
  {
    forall i :: 0 <= i < |t| ==> t[i] != Comma && t[i] != Quote && t[i] != Lf && t[i] != Cr
  }

  /** A row of the reader's result as the writer takes it: unicode keys and values. */
  function AsDict(m: map<Text, Text>): (d: MapsToCsv.Dict)
    ensures forall t :: Unicode(t) in d <==> t in m
    ensures forall k :: k in d ==> k.Unicode? && k.text in m && d[k] == Unicode(m[k.text])
  {
    map t | t in m :: Unicode(t) := Unicode(m[t])
  }

  function AsDicts(table: CsvToMaps.Table): (data: seq<MapsToCsv.Dict>)
    ensures |data| == |table| && forall i :: 0 <= i < |table| ==> data[i] == AsDict(table[i])
  {
    seq(|table|, i requires 0 <= i < |table| => AsDict(table[i]))
  }

  /** The field names as the unicode keys of the first map. */
  function Fields(names: seq<Text>): (keys: seq<Scalar>)
    ensures |keys| == |names| && forall i :: 0 <= i < |names| ==> keys[i] == Unicode(names[i])
  {
    seq(|names|, i requires 0 <= i < |names| => Unicode(names[i]))
  }

  /** A row that holds every field name. */
  predicate HasNames(m: map<Text, Text>, names: seq<Text>)
  {
    forall a :: 0 <= a < |names| ==> names[a] in m
  }

  /** A row whose keys are all field names and whose values are portable. */
  predicate Fits(m: map<Text, Text>, names: seq<Text>, sep: LineSep)
  {
    (forall t :: t in m ==> t in names) && forall t :: t in m ==> Portable(m[t], sep)
  }

  /** The tables the trip keeps: at least one row and one field name, the
      names distinct and portable, every row holding exactly those names with
      portable values and, behind a byte order mark, a first name that is
      written unquoted and does not make the header line `""`. */
  predicate Keepable(table: CsvToMaps.Table, names: seq<Text>, includeBom: bool, sep: LineSep)
  {
    table != [] && names != [] &&
    (forall a, b :: 0 <= a < b < |names| ==> names[a] != names[b]) &&
    (forall a :: 0 <= a < |names| ==> Portable(names[a], sep)) &&
    (forall i :: 0 <= i < |table| ==> HasNames(table[i], names)) &&
    (forall i :: 0 <= i < |table| ==> Fits(table[i], names, sep)) &&
    (includeBom ==> Bare(names[0]) && !(|names| == 1 && names[0] == []))
  }

  // ---------------------------------------------------------------------
  // What is written

  /** The header cells: each name in UTF-8. */
  function NameCells(names: seq<Text>): (cells: Record)
    ensures |cells| == |names| && forall k :: 0 <= k < |names| ==> cells[k] == Utf8.Encode(names[k])
  {
    seq(|names|, k requires 0 <= k < |names| => Utf8.Encode(names[k]))
  }

  /** The cells of one row: the value of each name in UTF-8. */
  function RowCells(m: map<Text, Text>, names: seq<Text>): (cells: Record)
    requires HasNames(m, names)
    ensures |cells| == |names| && forall k :: 0 <= k < |names| ==> cells[k] == Utf8.Encode(m[names[k]])
  {
    seq(|names|, k requires 0 <= k < |names| => Utf8.Encode(m[names[k]]))
  }

  function Body(table: CsvToMaps.Table, names: seq<Text>): (rows: seq<Record>)
    requires forall i :: 0 <= i < |table| ==> HasNames(table[i], names)
    ensures |rows| == |table| && forall i :: 0 <= i < |table| ==> rows[i] == RowCells(table[i], names)
  {
    seq(|table|, i requires 0 <= i < |table| => RowCells(table[i], names))
  }

  /** The header as the reader sees it: behind a byte order mark, the mark
      joins the first name's cell. */
  function ReadHeader(names: seq<Text>, includeBom: bool): (h: Record)
    requires names != []
    ensures |h| == |names|
  {
    var cells := NameCells(names);
    if includeBom then [Utf8.Bom + cells[0]] + cells[1..] else cells
  }

  lemma HeaderWritten(names: seq<Text>)
    ensures MapsToCsv.HeaderCells(Fields(names), MapsToCsv.Utf8OfName) == Success(NameCells(names))
  {
    var keys := Fields(names);
    var r := MapsToCsv.HeaderCells(keys, MapsToCsv.Utf8OfName);
    forall k | 0 <= k < |keys|
      ensures MapsToCsv.NameBytes(keys[k], MapsToCsv.Utf8OfName) == Success(Utf8.Encode(names[k]))
    {
      assert keys[k] == Unicode(names[k]);
    }
    assert r.Success?;
    assert r.value == NameCells(names);
  }

  lemma OneRowWritten(m: map<Text, Text>, names: seq<Text>, sep: LineSep)
    requires HasNames(m, names) && Fits(m, names, sep)
    ensures MapsToCsv.EncodeRow(AsDict(m), Fields(names)) == Success(RowCells(m, names))
  {
    var d := AsDict(m);
    var keys := Fields(names);
    MapsToCsv.EncodeRowMeaning(d, keys);
    assert !MapsToCsv.Unencodable(d) by {
      forall k | k in d
        ensures MapsToCsv.ValueBytes(d[k]).Success?
      {
        assert d[k].Unicode?;
      }
    }
    forall k | k in d
      ensures k in keys
    {
      var a :| 0 <= a < |names| && names[a] == k.text;
      assert keys[a] == k;
    }
    var r := MapsToCsv.EncodeRow(d, keys);
    assert r.Success?;
    forall k | 0 <= k < |names|
      ensures r.value[k] == RowCells(m, names)[k]
    {
      assert names[k] in m;
      assert keys[k] == Unicode(names[k]) && keys[k] in d;
      assert d[keys[k]] == Unicode(m[names[k]]);
      assert MapsToCsv.ValueBytes(d[keys[k]]) == Success(Utf8.Encode(m[names[k]]));
    }
    assert r.value == RowCells(m, names);
  }

  lemma BodyWritten(table: CsvToMaps.Table, names: seq<Text>, sep: LineSep)
    requires forall i :: 0 <= i < |table| ==> HasNames(table[i], names)
    requires forall i :: 0 <= i < |table| ==> Fits(table[i], names, sep)
    ensures MapsToCsv.EncodeRows(AsDicts(table), Fields(names)) == Success(Body(table, names))
  {
    var data := AsDicts(table);
    var body := Body(table, names);
    var f := MapsToCsv.RowEncoder(Fields(names));
    forall i | 0 <= i < |data|
      ensures f(data[i]) == Success(body[i])
    {
      OneRowWritten(table[i], names, sep);
      assert f(data[i]) == MapsToCsv.EncodeRow(AsDict(table[i]), Fields(names));
    }
    Each.AllMapped(data, f, body);
  }

  /** The bytes written: the lead, the header line, one line per row. */
  lemma Written(table: CsvToMaps.Table, names: seq<Text>, includeBom: bool, sep: LineSep)
    requires Keepable(table, names, includeBom, sep)
    ensures MapsToCsv.WriteCsv(AsDicts(table), includeBom, Fields(names), sep, MapsToCsv.Utf8OfName) ==
      Success(MapsToCsv.Lead(includeBom) + Rows([NameCells(names)] + Body(table, names), sep))
  {
    HeaderWritten(names);
    BodyWritten(table, names, sep);
  }

  // ---------------------------------------------------------------------
  // What the encoded texts look like to the CSV layer

  /** A portable text encodes to a field without NUL (or '\r' under POSIX). */
  lemma EncodedClean(t: Text, sep: LineSep)
    requires Portable(t, sep)
    ensures Clean(Utf8.Encode(t), sep)
  {
    Utf8.EncodeWithoutPairs(t);
    var b := Utf8.Encode(t);
    forall i | 0 <= i < |b|
      ensures b[i] != 0 && (sep == Posix ==> b[i] != Cr)
    {
      if b[i] < 0x80 {
        Utf8.EncodedAsciiByte(t, i);
      }
    }
  }

  /** A bare text encodes to a field the writer leaves unquoted. */
  lemma EncodedBare(t: Text, sep: LineSep)
    requires Bare(t) && !Utf8.HasSurrogatePair(t)
    ensures !NeedsQuotes(Utf8.Encode(t), sep)
  {
    Utf8.EncodeWithoutPairs(t);
    var b := Utf8.Encode(t);
    forall i | 0 <= i < |b|
      ensures !Special(b[i], sep)
    {
      if b[i] < 0x80 {
        Utf8.EncodedAsciiByte(t, i);
      }
    }
  }

  /** The written bytes are the rows the reader will see. */
  lemma WrittenRecords(table: CsvToMaps.Table, names: seq<Text>, includeBom: bool, sep: LineSep)
    requires Keepable(table, names, includeBom, sep)
    ensures MapsToCsv.Lead(includeBom) + Rows([NameCells(names)] + Body(table, names), sep) ==
      Rows([ReadHeader(names, includeBom)] + Body(table, names), sep)
  {
    if includeBom {
      var rows := [NameCells(names)] + Body(table, names);
      assert rows[0] == NameCells(names) && rows[1..] == Body(table, names);
      var first := NameCells(names)[0];
      assert first == Utf8.Encode(names[0]);
      assert names[0] != [] ==> first != [];
      EncodedClean(names[0], sep);
      EncodedBare(names[0], sep);
      assert forall i :: 0 <= i < |Utf8.Bom| ==> Plain(Utf8.Bom[i]);
      PrefixJoinsFirstField(Utf8.Bom, rows, sep);
    }
  }

  /** The header cells are clean, the byte order mark included. */
  lemma HeaderClean(names: seq<Text>, includeBom: bool, sep: LineSep)
    requires names != [] && forall a :: 0 <= a < |names| ==> Portable(names[a], sep)
    ensures CleanRecord(ReadHeader(names, includeBom), sep)
  {
    var cells := NameCells(names);
    var h := ReadHeader(names, includeBom);
    forall k | 0 <= k < |names|
      ensures Clean(cells[k], sep)
    {
      EncodedClean(names[k], sep);
    }
    if includeBom {
      var first := Utf8.Bom + cells[0];
      assert Clean(first, sep) by {
        forall i | 0 <= i < |first| ensures first[i] != 0 && (sep == Posix ==> first[i] != Cr)
        {
          if i >= 3 { assert first[i] == cells[0][i - 3]; }
        }
      }
      forall k | 0 <= k < |h| ensures Clean(h[k], sep)
      {
        if k > 0 { assert h[k] == cells[k]; }
      }
    }
  }

  /** The cells of every written row are clean. */
  lemma BodyClean(table: CsvToMaps.Table, names: seq<Text>, sep: LineSep)
    requires forall i :: 0 <= i < |table| ==> HasNames(table[i], names)
    requires forall i :: 0 <= i < |table| ==> Fits(table[i], names, sep)
    ensures CleanRows(Body(table, names), sep)
  {
    var body := Body(table, names);
    forall i | 0 <= i < |table|
      ensures CleanRecord(body[i], sep)
    {
      var m := table[i];
      assert HasNames(m, names) && Fits(m, names, sep);
      forall k | 0 <= k < |names|
        ensures Clean(body[i][k], sep)
      {
        assert names[k] in m;
        EncodedClean(m[names[k]], sep);
      }
    }
  }

  /** Every field of the written records is clean. */
  lemma RecordsClean(table: CsvToMaps.Table, names: seq<Text>, includeBom: bool, sep: LineSep)
    requires Keepable(table, names, includeBom, sep)
    ensures CleanRows([ReadHeader(names, includeBom)] + Body(table, names), sep)
  {
    var rows := [ReadHeader(names, includeBom)] + Body(table, names);
    HeaderClean(names, includeBom, sep);
    BodyClean(table, names, sep);
    forall j | 0 <= j < |rows|
      ensures CleanRecord(rows[j], sep)
    {
      if j > 0 { assert rows[j] == Body(table, names)[j - 1]; }
    }
  }

  /** No record of the body is blank, so the reader skips none. */
  lemma {:induction false} NoBlankRecords(records: seq<Record>)
    requires forall i :: 0 <= i < |records| ==> records[i] != []
    ensures CsvToMaps.NonBlank(records) == records
    decreases |records|
  {
    if records != [] {
      assert forall i :: 0 <= i < |records[1..]| ==> records[1..][i] == records[i + 1];
      NoBlankRecords(records[1..]);
      assert [records[0]] + records[1..] == records;
    }
  }

  // ---------------------------------------------------------------------
  // What is read back

  /** One written cell, with or without the byte order mark in front, decodes
      to its text. */
  lemma CellDecodes(x: seq<Byte>, t: Text, withBom: bool, db: UnicodeEscape.NameDb)
    requires !Utf8.HasSurrogatePair(t) && (t == [] || t[0] != 0xFEFF)
    requires x == (if withBom then Utf8.Bom + Utf8.Encode(t) else Utf8.Encode(t))
    ensures CsvToMaps.IntoUnicode(db)(Str(x)) == Success(t)
  {
    TextDecoding.Utf8DecodedFirst(t, db);
  }

  /** Every header cell decodes to its name; the byte order mark is dropped. */
  lemma HeaderDecodes(names: seq<Text>, includeBom: bool, sep: LineSep, db: UnicodeEscape.NameDb)
    requires names != [] && forall a :: 0 <= a < |names| ==> Portable(names[a], sep)
    ensures forall k :: 0 <= k < |names| ==>
      CsvToMaps.IntoUnicode(db)(Str(ReadHeader(names, includeBom)[k])) == Success(names[k])
  {
    var h := ReadHeader(names, includeBom);
    forall k | 0 <= k < |names|
      ensures CsvToMaps.IntoUnicode(db)(Str(h[k])) == Success(names[k])
    {
      CellDecodes(h[k], names[k], includeBom && k == 0, db);
    }
  }

  /** The values of a row, in the order of the field names. */
  function Values(m: map<Text, Text>, names: seq<Text>): (vals: seq<Text>)
    requires HasNames(m, names)
    ensures |vals| == |names| && forall k :: 0 <= k < |names| ==> vals[k] == m[names[k]]
  {
    seq(|names|, k requires 0 <= k < |names| => m[names[k]])
  }

  /** Every cell of a written row decodes to its value. */
  lemma CellsDecode(m: map<Text, Text>, names: seq<Text>, sep: LineSep, db: UnicodeEscape.NameDb)
    requires HasNames(m, names) && Fits(m, names, sep)
    ensures forall k :: 0 <= k < |names| ==>
      CsvToMaps.IntoUnicode(db)(Str(RowCells(m, names)[k])) == Success(Values(m, names)[k])
  {
    forall k | 0 <= k < |names|
      ensures CsvToMaps.IntoUnicode(db)(Str(RowCells(m, names)[k])) == Success(Values(m, names)[k])
    {
      assert names[k] in m;
      CellDecodes(RowCells(m, names)[k], m[names[k]], false, db);
    }
  }

  /** Inserting the names with their values, in order, rebuilds the row. */
  lemma PairsRebuildRow(m: map<Text, Text>, names: seq<Text>, sep: LineSep)
    requires forall a, b :: 0 <= a < b < |names| ==> names[a] != names[b]
    requires HasNames(m, names) && Fits(m, names, sep)
    ensures CsvToMaps.PairMap(names, Values(m, names)) == m
  {
    var vals := Values(m, names);
    CsvToMaps.PairMapMeaning(names, vals);
    var p := CsvToMaps.PairMap(names, vals);
    forall t | t in p
      ensures t in m && p[t] == m[t]
    {
      var k :| 0 <= k < |names| && names[k] == t;
      assert p[names[k]] == vals[k];
    }
  }

  /** A row under a header whose cells decode to distinct names, with cells
      that decode too, becomes the map of those names to those values. */
  lemma RowReadWith(header: Record, row: Record, decode: CsvToMaps.Decoder, names: seq<Text>, vals: seq<Text>)
    requires |header| == |names| && |row| == |names| && |vals| == |names|
    requires forall a, b :: 0 <= a < b < |names| ==> names[a] != names[b]
    requires forall k :: 0 <= k < |names| ==> decode(Str(header[k])) == Success(names[k])
    requires forall k :: 0 <= k < |names| ==> decode(Str(row[k])) == Success(vals[k])
    ensures CsvToMaps.DecodeRow(header, row, decode) == Success(CsvToMaps.PairMap(names, vals))
  {
    forall a, b | 0 <= a < b < |header|
      ensures header[a] != header[b]
    {
      assert decode(Str(header[a])) != decode(Str(header[b]));
    }
    CsvToMaps.FullRowDecodes(header, row, decode);
    assert CsvToMaps.Decoded(header, decode) == names;
    assert CsvToMaps.Decoded(row, decode) == vals;
  }

  /** The reader turns each written row back into its map. */
  lemma OneRowRead(m: map<Text, Text>, names: seq<Text>, includeBom: bool, sep: LineSep, db: UnicodeEscape.NameDb)
    requires names != [] && forall a :: 0 <= a < |names| ==> Portable(names[a], sep)
    requires forall a, b :: 0 <= a < b < |names| ==> names[a] != names[b]
    requires HasNames(m, names) && Fits(m, names, sep)
    ensures CsvToMaps.DecodeRow(ReadHeader(names, includeBom), RowCells(m, names), CsvToMaps.IntoUnicode(db)) == Success(m)
  {
    HeaderDecodes(names, includeBom, sep, db);
    CellsDecode(m, names, sep, db);
    RowReadWith(ReadHeader(names, includeBom), RowCells(m, names), CsvToMaps.IntoUnicode(db), names, Values(m, names));
    PairsRebuildRow(m, names, sep);
  }

  /** The written bytes parse into the header record and the body records. */
  lemma WrittenParses(table: CsvToMaps.Table, names: seq<Text>, includeBom: bool, sep: LineSep)
    requires Keepable(table, names, includeBom, sep)
    ensures var out := MapsToCsv.WriteCsv(AsDicts(table), includeBom, Fields(names), sep, MapsToCsv.Utf8OfName);
      out.Success? && Parse(out.value) == Parsed([ReadHeader(names, includeBom)] + Body(table, names), None)
  {
    Written(table, names, includeBom, sep);
    WrittenRecords(table, names, includeBom, sep);
    RecordsClean(table, names, includeBom, sep);
    ReadWritten([ReadHeader(names, includeBom)] + Body(table, names), sep);
  }

  /** The header record and the body records become the table again. */
  lemma RecordsBecomeTable(table: CsvToMaps.Table, names: seq<Text>, includeBom: bool, sep: LineSep, db: UnicodeEscape.NameDb)
    requires Keepable(table, names, includeBom, sep)
    ensures CsvToMaps.ReadParsed(Parsed([ReadHeader(names, includeBom)] + Body(table, names), None), CsvToMaps.IntoUnicode(db)) == Success(table)
  {
    var header := ReadHeader(names, includeBom);
    var body := Body(table, names);
    var records := [header] + body;
    assert records[0] == header && records[1..] == body;
    NoBlankRecords(body);
    var step := CsvToMaps.RowsUnder(header, CsvToMaps.IntoUnicode(db));
    forall i | 0 <= i < |body|
      ensures step(body[i]) == Success(table[i])
    {
      var m := table[i];
      assert HasNames(m, names) && Fits(m, names, sep);
      OneRowRead(m, names, includeBom, sep, db);
    }
    Each.AllMapped(body, step, table);
  }

  /** Round trip: a table of text written with its field names encoded as
      UTF-8 (the corrected header) is read back as the same table. */
  lemma RoundTrip(table: CsvToMaps.Table, names: seq<Text>, includeBom: bool, sep: LineSep, db: UnicodeEscape.NameDb)
    requires Keepable(table, names, includeBom, sep)
    ensures var out := MapsToCsv.WriteCsv(AsDicts(table), includeBom, Fields(names), sep, MapsToCsv.Utf8OfName);
      out.Success? && CsvToMaps.ReadTable(Str(out.value), db) == Success(table)
  {
    WrittenParses(table, names, includeBom, sep);
    RecordsBecomeTable(table, names, includeBom, sep, db);
  }

  /** Where every field name is ASCII the header as the code writes it is the
      same, so the round trip holds for the code as written. */
  lemma RoundTripAsWritten(table: CsvToMaps.Table, names: seq<Text>, includeBom: bool, sep: LineSep, db: UnicodeEscape.NameDb)
    requires Keepable(table, names, includeBom, sep)
    requires forall a :: 0 <= a < |names| ==> IsAsciiText(names[a])
    ensures var out := MapsToCsv.WriteCsv(AsDicts(table), includeBom, Fields(names), sep, MapsToCsv.StrOfName);
      out.Success? && CsvToMaps.ReadTable(Str(out.value), db) == Success(table)
  {
    MapsToCsv.NameEncodingsAgree(AsDicts(table), includeBom, Fields(names), sep);
    RoundTrip(table, names, includeBom, sep, db);
  }
}
