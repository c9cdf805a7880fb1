/**
 * `seq_of_maps_into_csv_data` (kickshaws/core.py): a sequence of maps is
 * written through `csv.DictWriter` into an in-memory byte buffer, optionally
 * behind a UTF-8 byte order mark. The field names are the keys of the first
 * map; every value is turned into UTF-8 bytes before the writer sees it.
 */
module MapsToCsv {
  import opened Wrappers
  import opened PyValues
  import opened CsvReader
  import opened CsvWriter
  import Utf8
  import Each

  /** One input map: a Python dictionary of scalar keys and values, which
      never holds two keys that are `==`. */
  type Dict = m: map<Scalar, Scalar> | IsDict(m) witness map[]

  // ---------------------------------------------------------------------
  // The in-memory buffer (cStringIO output object)

  /** `s` with `b` written at position `pos`: a gap past the end is filled
      with NUL bytes, bytes under `b` are replaced, later bytes are kept. */
  function Overwrite(s: seq<Byte>, pos: nat, b: seq<Byte>): (r: seq<Byte>)
    ensures |r| == if pos + |b| > |s| then pos + |b| else |s|
  {
    var padded := if pos > |s| then s + seq(pos - |s|, _ => 0) else s;
    padded[..pos] + b + (if pos + |b| < |padded| then padded[pos + |b|..] else [])
  }

  /** What the buffer holds after a write: `b` at `pos`, the old bytes
      elsewhere, NUL bytes in any gap. */
  lemma OverwriteMeaning(s: seq<Byte>, pos: nat, b: seq<Byte>)
    ensures var r := Overwrite(s, pos, b);
      r[pos..pos + |b|] == b &&
      forall i :: 0 <= i < |r| && !(pos <= i < pos + |b|) ==> r[i] == (if i < |s| then s[i] else 0)
  {
  }

  /** Writing at the end of the contents appends. */
  lemma WriteAtEndAppends(s: seq<Byte>, b: seq<Byte>)
    ensures Overwrite(s, |s|, b) == s + b
  {
    var r := Overwrite(s, |s|, b);
    assert r == s[..|s|] + b;
    assert s[..|s|] == s;
  }

  class OutputBuffer {
    var contents: seq<Byte>
    var pos: nat

    constructor ()
      ensures contents == [] && pos == 0
    {
      contents := [];
      pos := 0;
    }

    /** `write(b)`: the bytes go in at the current position, which moves past them. */
    method Write(b: seq<Byte>)
      modifies this
      ensures contents == Overwrite(old(contents), old(pos), b)
      ensures pos == old(pos) + |b|
    {
      contents := Overwrite(contents, pos, b);
      pos := pos + |b|;
    }

    /** `seek(offset)` from the start; a negative offset means the start. */
    method Seek(offset: int)
      modifies this
      ensures contents == old(contents)
      ensures pos == if offset < 0 then 0 else offset
    {
      pos := if offset < 0 then 0 else offset;
    }
  }

  // ---------------------------------------------------------------------
  // What the writer is given

  /** The bytes `str()` gives for a value that is not `unicode`. */
  function StrOf(v: Scalar): (b: seq<Byte>)
    requires !v.Unicode?
    ensures !v.Str? ==> IsAscii(b)
  {
    match v
    case Str(bytes) => bytes
    case Int(n) => Decimal(n)
    case NoneValue => [0x4E, 0x6F, 0x6E, 0x65]  // "None"
  }

  /** The row comprehension's image of one value: `v.encode('utf_8')` for
      unicode, otherwise `str(v).encode('utf_8')`, which first decodes the
      byte string as ASCII and so refuses any byte above 0x7F. */
  function ValueBytes(v: Scalar): (r: Result<seq<Byte>, Error>)
    ensures r.Failure? <==> v.Str? && !IsAscii(v.bytes)
    ensures r.Failure? ==> r.error == UnicodeDecodeError
    ensures r.Success? && !v.Unicode? ==> r.value == StrOf(v)
  {
    match v
    case Unicode(t) => Success(Utf8.Encode(t))
    case Str(b) => AsciiToUtf8(b)
    case Int(n) => AsciiToUtf8(Decimal(n))
    case NoneValue => AsciiToUtf8(StrOf(v))
  }

  /** `s.encode('utf_8')` for a byte string: decoded as ASCII, then encoded. */
  function AsciiToUtf8(s: seq<Byte>): (r: Result<seq<Byte>, Error>)
    ensures r.Failure? <==> !IsAscii(s)
    ensures r.Failure? ==> r.error == UnicodeDecodeError
    ensures r.Success? ==> r.value == s
  {
    if IsAscii(s) then
      Utf8.EncodeLatin1Ascii(s);
      Success(Utf8.Encode(Latin1(s)))
    else Failure(UnicodeDecodeError)
  }

  /** How a field name reaches the output: as the C writer's `str()` of it,
      which is what the code does, or as its UTF-8 bytes, as the values are. */
  datatype NameEncoding = StrOfName | Utf8OfName

  /** One header cell. The C writer writes a byte string as it is, None as an
      empty field, a number in decimal, and a unicode name through the ASCII
      codec, which refuses any code point above 0x7F. */
  function NameBytes(k: Scalar, enc: NameEncoding): (r: Result<seq<Byte>, Error>)
    ensures r.Failure? <==> enc == StrOfName && k.Unicode? && !IsAsciiText(k.text)
    ensures r.Failure? ==> r.error == UnicodeEncodeError
  {
    match k
    case Str(bytes) => Success(bytes)
    case NoneValue => Success([])
    case Int(n) => Success(Decimal(n))
    case Unicode(t) =>
      match enc
      case Utf8OfName => Success(Utf8.Encode(t))
      case StrOfName => if IsAsciiText(t) then Success(AsciiBytes(t)) else Failure(UnicodeEncodeError)
  }

  /** `writeheader()`: the field names as one record, the first refused name stopping it. */
  function HeaderCells(names: seq<Scalar>, enc: NameEncoding): (r: Result<Record, Error>)
    ensures r.Success? ==> |r.value| == |names|
    ensures r.Success? ==> forall i :: 0 <= i < |names| ==> NameBytes(names[i], enc) == Success(r.value[i])
    ensures r.Failure? <==> exists i :: 0 <= i < |names| && NameBytes(names[i], enc).Failure?
    ensures r.Failure? ==> r.error == UnicodeEncodeError
    decreases |names|
  {
    if names == [] then Success([])
    else
      var n := |names| - 1;
      assert forall i :: 0 <= i < n ==> names[..n][i] == names[i];
      match HeaderCells(names[..n], enc)
      case Failure(e) => Failure(e)
      case Success(cells) =>
        match NameBytes(names[n], enc)
        case Failure(e) => Failure(e)
        case Success(c) => Success(cells + [c])
  }

  /** A value the row comprehension refuses. */
  predicate Unencodable(row: Dict)
  {
    exists k :: k in row && ValueBytes(row[k]).Failure?
  }

  /** `k in fieldnames`: list membership, which compares with `==`. */
  predicate Listed(k: Scalar, names: seq<Scalar>)
  {
    exists j :: 0 <= j < |names| && Equal(k, names[j])
  }

  /** `rowdict.get(name, restval)` once the values are encoded: the encoded
      value under the key that is `==` to the name, or the empty field. */
  function FieldOf(row: Dict, name: Scalar): (f: seq<Byte>)
    requires !Unencodable(row)
    ensures forall k :: k in row && Equal(k, name) ==> ValueBytes(row[k]) == Success(f)
    ensures (forall k :: k in row ==> !Equal(k, name)) ==> f == []
  {
    match Lookup(row, name)
    case Some(v) => ValueBytes(v).value
    case None => []
  }

  /** One `writerow`: the values are encoded first (any refusal raises
      UnicodeDecodeError), then a key that is not among the field names
      raises ValueError, then each field name takes its encoded value, or the
      empty field where the row lacks it. */
  function EncodeRow(row: Dict, names: seq<Scalar>): (r: Result<Record, Error>)
    ensures r.Success? ==> |r.value| == |names|
  {
    if Unencodable(row) then Failure(UnicodeDecodeError)
    else if exists k :: k in row && !Listed(k, names) then Failure(ValueError)
    else Success(seq(|names|, i requires 0 <= i < |names| => FieldOf(row, names[i])))
  }

  /** A row is refused exactly when a value cannot be encoded (UnicodeDecodeError)
      or, failing that, when it has a key that is `==` to no field name
      (ValueError); otherwise each field name has the encoded value of the key
      `==` to it, or the empty field where there is none. */
  lemma EncodeRowMeaning(row: Dict, names: seq<Scalar>)
    ensures var r := EncodeRow(row, names);
      (r.Failure? <==> Unencodable(row) || exists k :: k in row && !Listed(k, names)) &&
      (r.Failure? ==> r.error == (if Unencodable(row) then UnicodeDecodeError else ValueError)) &&
      (r.Success? ==> forall i :: 0 <= i < |names| ==>
        (forall k :: k in row && Equal(k, names[i]) ==> ValueBytes(row[k]) == Success(r.value[i])) &&
        ((forall k :: k in row ==> !Equal(k, names[i])) ==> r.value[i] == []))
  {
  }

  /** `writerow` on one map, as the loop applies it. */
  function RowEncoder(names: seq<Scalar>): Dict -> Result<Record, Error>
  {
    row => EncodeRow(row, names)
  }

  /** The rows in order; the first refused row stops the loop. */
  function EncodeRows(data: seq<Dict>, names: seq<Scalar>): (r: Result<seq<Record>, Error>)
    ensures r.Success? ==> |r.value| == |data|
  {
    Each.Apply(data, RowEncoder(names))
  }

  /** The loop succeeds exactly when every map can be written, and then holds
      each map's record at its index; otherwise its error is that of the first
      map refused. */
  lemma EncodeRowsMeaning(data: seq<Dict>, names: seq<Scalar>)
    ensures var r := EncodeRows(data, names);
      (r.Success? <==> forall i :: 0 <= i < |data| ==> EncodeRow(data[i], names).Success?) &&
      (r.Success? ==> forall i :: 0 <= i < |data| ==> EncodeRow(data[i], names) == Success(r.value[i])) &&
      (r.Failure? ==> exists i :: 0 <= i < |data| && EncodeRow(data[i], names) == Failure(r.error) &&
                                  forall j :: 0 <= j < i ==> EncodeRow(data[j], names).Success?)
  {
    if EncodeRows(data, names).Success? {
      Each.AppliedInOrder(data, RowEncoder(names));
    } else {
      Each.FirstFailure(data, RowEncoder(names));
    }
  }

  /** The byte order mark, when asked for. */
  function Lead(includeBom: bool): seq<Byte>
  {
    if includeBom then Utf8.Bom else []
  }

  /** `seq_of_maps_into_csv_data(data, include_bom)` as a value: the buffer's
      contents, or the exception. `names` is the order in which
      `data[0].keys()` lists the keys of the first map. */
  function WriteCsv(data: seq<Dict>, includeBom: bool, names: seq<Scalar>, sep: LineSep, enc: NameEncoding): (r: Result<seq<Byte>, Error>)
    ensures data == [] ==> r == Failure(IndexError)
    ensures r.Success? ==> Lead(includeBom) <= r.value
    ensures r.Failure? && data != [] ==>
      HeaderCells(names, enc) == Failure(r.error) || exists i :: 0 <= i < |data| && EncodeRow(data[i], names) == Failure(r.error)
  {
    EncodeRowsMeaning(data, names);
    if data == [] then Failure(IndexError)
    else
      match HeaderCells(names, enc)
      case Failure(e) => Failure(e)
      case Success(header) =>
        match EncodeRows(data, names)
        case Failure(e) => Failure(e)
        case Success(body) => Success(Lead(includeBom) + Rows([header] + body, sep))
  }

  /** `names` lists each key of `row` exactly once, as `keys()` does. */
  predicate ListsKeys(names: seq<Scalar>, row: Dict)
  {
    (forall k :: k in row ==> k in names) &&
    (forall i :: 0 <= i < |names| ==> names[i] in row) &&
    forall i, j :: 0 <= i < j < |names| ==> names[i] != names[j]
  }

  /** `seq_of_maps_into_csv_data`: the byte order mark if asked for, the
      header, one `writerow` per map, then the position back at the start. */
  method SeqOfMapsIntoCsvData(data: seq<Dict>, includeBom: bool, names: seq<Scalar>, sep: LineSep)
    returns (r: Result<OutputBuffer, Error>)
    requires data != [] ==> ListsKeys(names, data[0])
    ensures r.Success? ==> fresh(r.value) && r.value.pos == 0
    ensures WriteCsv(data, includeBom, names, sep, StrOfName) ==
      if r.Success? then Success(r.value.contents) else Failure(r.error)
  {
    var buffer := new OutputBuffer();
    if includeBom {
      WriteAtEndAppends([], Utf8.Bom);
      buffer.Write(Utf8.Bom);
    }
    assert buffer.contents == Lead(includeBom) && buffer.pos == |buffer.contents|;
    if data == [] {
      return Failure(IndexError);
    }
    var header := HeaderCells(names, StrOfName);
    if header.Failure? {
      return Failure(header.error);
    }
    var line := Row(header.value, sep);
    WriteAtEndAppends(Lead(includeBom), line);
    buffer.Write(line);
    ghost var afterHeader := buffer.contents;
    assert afterHeader == Lead(includeBom) + line;
    var failure := WriteRows(buffer, data, names, sep);
    if failure.Some? {
      return Failure(failure.value);
    }
    ghost var body := EncodeRows(data, names).value;
    ghost var written := [header.value] + body;
    assert written[0] == header.value && written[1..] == body;
    assert Rows(written, sep) == line + Rows(body, sep);
    assert buffer.contents == afterHeader + Rows(body, sep);
    Regroup(Lead(includeBom), line, Rows(body, sep));
    assert buffer.contents == Lead(includeBom) + Rows(written, sep);
    assert WriteCsv(data, includeBom, names, sep, StrOfName) == Success(buffer.contents);
    buffer.Seek(0);
    return Success(buffer);
  }

  /** The loop of `writerow` calls: one line per map, appended in order, until
      a map is refused. */
  method WriteRows(buffer: OutputBuffer, data: seq<Dict>, names: seq<Scalar>, sep: LineSep)
    returns (failure: Option<Error>)
    requires buffer.pos == |buffer.contents|
    modifies buffer
    ensures failure.Some? ==> EncodeRows(data, names) == Failure(failure.value)
    ensures failure.None? ==> EncodeRows(data, names).Success?
    ensures failure.None? ==> buffer.contents == old(buffer.contents) + Rows(EncodeRows(data, names).value, sep)
    ensures buffer.pos == |buffer.contents|
  {
    ghost var start := buffer.contents;
    ghost var body: seq<Record> := [];
    assert data[..0] == [];
    var i := 0;
    while i < |data|
      invariant 0 <= i <= |data|
      invariant EncodeRows(data[..i], names) == Success(body)
      invariant buffer.contents == start + Rows(body, sep)
      invariant buffer.pos == |buffer.contents|
    {
      var row := WriteRow(buffer, data, names, sep, i, body, start);
      if row.Failure? {
        return Some(row.error);
      }
      body := body + [row.value];
      i := i + 1;
    }
    assert data[..i] == data;
    return None;
  }

  /** One `writerow` call of that loop: the map's line is appended, or the map
      is refused and the loop ends with its error. */
  method WriteRow(buffer: OutputBuffer, data: seq<Dict>, names: seq<Scalar>, sep: LineSep, i: nat,
                  ghost body: seq<Record>, ghost start: seq<Byte>)
    returns (row: Result<Record, Error>)
    requires i < |data| && EncodeRows(data[..i], names) == Success(body)
    requires buffer.contents == start + Rows(body, sep) && buffer.pos == |buffer.contents|
    modifies buffer
    ensures row == EncodeRow(data[i], names)
    ensures row.Failure? ==> EncodeRows(data, names) == Failure(row.error)
    ensures row.Success? ==> EncodeRows(data[..i + 1], names) == Success(body + [row.value])
    ensures row.Success? ==> buffer.contents == start + Rows(body + [row.value], sep)
    ensures buffer.pos == |buffer.contents|
  {
    row := EncodeRow(data[i], names);
    if row.Failure? {
      RowRefused(data, names, i);
      return;
    }
    RowWritten(data, names, i, body, start, buffer.contents, sep);
    buffer.Write(Row(row.value, sep));
  }

  /** A refused row ends the loop with its error. */
  lemma RowRefused(data: seq<Dict>, names: seq<Scalar>, i: nat)
    requires i < |data| && EncodeRows(data[..i], names).Success? && EncodeRow(data[i], names).Failure?
    ensures EncodeRows(data, names) == Failure(EncodeRow(data[i], names).error)
  {
    Each.ApplyStep(data, i, RowEncoder(names));
    Each.FailureStops(data, i + 1, RowEncoder(names));
  }

  /** An accepted row extends both the encoded rows and the buffer's contents by its line. */
  lemma RowWritten(data: seq<Dict>, names: seq<Scalar>, i: nat, body: seq<Record>, start: seq<Byte>, before: seq<Byte>, sep: LineSep)
    requires i < |data| && EncodeRows(data[..i], names) == Success(body) && EncodeRow(data[i], names).Success?
    requires before == start + Rows(body, sep)
    ensures var row := EncodeRow(data[i], names).value;
      EncodeRows(data[..i + 1], names) == Success(body + [row]) &&
      Overwrite(before, |before|, Row(row, sep)) == start + Rows(body + [row], sep)
  {
    var row := EncodeRow(data[i], names).value;
    Each.ApplyStep(data, i, RowEncoder(names));
    WriteAtEndAppends(before, Row(row, sep));
    RowsAppend(body, row, sep);
    Regroup(start, Rows(body, sep), Row(row, sep));
  }

  // ---------------------------------------------------------------------
  // Properties

  /** An empty sequence has no first map: IndexError. */
  lemma NoFirstMap(includeBom: bool, names: seq<Scalar>, sep: LineSep, enc: NameEncoding)
    ensures WriteCsv([], includeBom, names, sep, enc) == Failure(IndexError)
  {
  }

  /** A key that is `==` to none of the first map's keys raises ValueError,
      once the header and every value can be written; it is never written out. */
  lemma ExtraKeyRaises(data: seq<Dict>, includeBom: bool, names: seq<Scalar>, sep: LineSep, enc: NameEncoding, i: nat, k: Scalar)
    requires i < |data| && k in data[i] && !Listed(k, names)
    requires HeaderCells(names, enc).Success?
    requires forall j :: 0 <= j < |data| ==> !Unencodable(data[j])
    ensures WriteCsv(data, includeBom, names, sep, enc) == Failure(ValueError)
  {
    EncodeRowMeaning(data[i], names);
    Each.OneFailureFails(data, i, RowEncoder(names));
    Each.FirstFailure(data, RowEncoder(names));
    var j :| 0 <= j < |data| && EncodeRow(data[j], names) == Failure(EncodeRows(data, names).error);
    EncodeRowMeaning(data[j], names);
  }

  /** What is written: the byte order mark when asked for, then the header
      line, then one line per map, in order. */
  lemma WrittenLayout(data: seq<Dict>, includeBom: bool, names: seq<Scalar>, sep: LineSep, enc: NameEncoding)
    requires WriteCsv(data, includeBom, names, sep, enc).Success?
    ensures var out := WriteCsv(data, includeBom, names, sep, enc).value;
      var header := HeaderCells(names, enc).value;
      var body := EncodeRows(data, names).value;
      |body| == |data| &&
      out == Lead(includeBom) + Row(header, sep) + Rows(body, sep) &&
      (includeBom ==> out[..3] == Utf8.Bom) &&
      (!includeBom ==> out == Rows([header] + body, sep))
  {
    var header := HeaderCells(names, enc).value;
    var body := EncodeRows(data, names).value;
    var out := WriteCsv(data, includeBom, names, sep, enc).value;
    var lead, rest := Lead(includeBom), Rows([header] + body, sep);
    assert out == lead + rest;
    RowsCons(header, body, sep);
    Regroup(lead, Row(header, sep), Rows(body, sep));
    if includeBom {
      assert (lead + rest)[..|lead|] == lead;
    } else {
      assert lead + rest == rest;
    }
  }

  /** Without `include_bom` the output opens with EF BB BF only when the first
      header cell, as written up to a NUL byte, itself begins with those bytes. */
  lemma BomOnlyWhenAsked(data: seq<Dict>, names: seq<Scalar>, sep: LineSep, enc: NameEncoding)
    requires WriteCsv(data, false, names, sep, enc).Success?
    ensures var out := WriteCsv(data, false, names, sep, enc).value;
      var header := HeaderCells(names, enc).value;
      Utf8.Bom <= out ==> header != [] && Utf8.Bom <= CString(header[0])
  {
    if Utf8.Bom <= WriteCsv(data, false, names, sep, enc).value {
      RowsOpeningFromFirstCell(HeaderCells(names, enc).value, EncodeRows(data, names).value, sep, Utf8.Bom);
    }
  }

  /** The line of each map holds one cell per field name: the map's encoded
      value under the key `==` to that name, or the empty field where the map
      has no such key. */
  lemma WrittenCells(data: seq<Dict>, names: seq<Scalar>)
    requires EncodeRows(data, names).Success?
    ensures var body := EncodeRows(data, names).value;
      forall i :: 0 <= i < |data| ==> |body[i]| == |names| && forall j :: 0 <= j < |names| ==>
        (forall k :: k in data[i] && Equal(k, names[j]) ==> ValueBytes(data[i][k]) == Success(body[i][j])) &&
        ((forall k :: k in data[i] ==> !Equal(k, names[j])) ==> body[i][j] == [])
  {
    Each.AppliedInOrder(data, RowEncoder(names));
    forall i | 0 <= i < |data| {
      EncodeRowMeaning(data[i], names);
    }
  }

  // ---------------------------------------------------------------------
  // Header names that are not ASCII

  /** The field name u'\xe9' and the one-map table {u'\xe9': u'1'}. */
  const AccentName: Scalar := Unicode([0xE9])
  const OneValue: Scalar := Unicode([0x31])
  const AccentTable: seq<Dict> := [map[AccentName := OneValue]]

  /** As written, a non-ASCII unicode field name makes the header raise
      UnicodeEncodeError; with the names encoded as UTF-8, as the values
      are, the table is written. */
  lemma NonAsciiNameRaises()
    ensures WriteCsv(AccentTable, false, [AccentName], Posix, StrOfName) == Failure(UnicodeEncodeError)
    ensures WriteCsv(AccentTable, false, [AccentName], Posix, Utf8OfName) == Success([0xC3, 0xA9, Lf, 0x31, Lf])
  {
    AccentHeader();
    AccentRows();
    AccentLines();
  }

  lemma AccentHeader()
    ensures HeaderCells([AccentName], StrOfName).Failure?
    ensures HeaderCells([AccentName], Utf8OfName) == Success([[0xC3, 0xA9]])
  {
    var names: seq<Scalar> := [AccentName];
    assert AccentName.text[0] == 0xE9;
    assert NameBytes(names[0], StrOfName).Failure?;
    var name: seq<Byte> := [0xC3, 0xA9];
    assert Utf8.Encode(AccentName.text) == name;
    assert names[..0] == [];
    var none: Record := [];
    assert HeaderCells(names[..0], Utf8OfName) == Success(none);
    assert NameBytes(names[0], Utf8OfName) == Success(name);
    assert none + [name] == [name];
  }

  lemma AccentRows()
    ensures EncodeRows(AccentTable, [AccentName]) == Success([[[0x31]]])
  {
    var names: seq<Scalar> := [AccentName];
    var row := AccentTable[0];
    var cell: seq<Byte> := [0x31];
    assert Utf8.Encode(OneValue.text) == cell;
    assert ValueBytes(OneValue) == Success(cell);
    assert forall k :: k in row ==> k == AccentName;
    assert !Unencodable(row);
    assert Listed(AccentName, names) by { assert Equal(AccentName, names[0]); }
    EncodeRowMeaning(row, names);
    assert row[names[0]] == OneValue;
    assert EncodeRow(row, names).value == [cell];
    assert AccentTable[..0] == [];
    var noRows: seq<Record> := [];
    assert EncodeRows(AccentTable[..0], names) == Success(noRows);
    assert noRows + [[cell]] == [[cell]];
  }

  lemma AccentLines()
    ensures Lead(false) + Rows([[[0xC3, 0xA9]], [[0x31]]], Posix) == [0xC3, 0xA9, Lf, 0x31, Lf]
  {
    var name: seq<Byte> := [0xC3, 0xA9];
    var cell: seq<Byte> := [0x31];
    assert !NeedsQuotes(name, Posix) && CString(name) == name;
    assert !NeedsQuotes(cell, Posix) && CString(cell) == cell;
    assert Row([name], Posix) == name + [Lf];
    assert Row([cell], Posix) == cell + [Lf];
    var rows: seq<Record> := [[name], [cell]];
    assert rows[1..] == [[cell]] && |rows[1..][1..]| == 0;
    assert Rows(rows, Posix) == Row([name], Posix) + (Row([cell], Posix) + Rows([], Posix));
  }

  // ---------------------------------------------------------------------
  // Keys spelt as `str` in one map and as `unicode` in another

  /** The table [{'a': 1}, {u'a': 2}]: its field names are those of the first map. */
  const StrKey: Scalar := Str([0x61])
  const MixedTable: seq<Dict> := [map[StrKey := Int(1)], map[Unicode([0x61]) := Int(2)]]

  /** u'a' is `==` to the field name 'a', so the second map is not refused:
      the output is the lines "a", "1" and "2". */
  lemma MixedKeysWritten()
    ensures WriteCsv(MixedTable, false, [StrKey], Posix, StrOfName) ==
      Success([0x61, Lf, 0x31, Lf, 0x32, Lf])
  {
    MixedHeader();
    MixedRows();
    MixedLines();
  }

  lemma MixedHeader()
    ensures HeaderCells([StrKey], StrOfName) == Success([[0x61]])
  {
    var names: seq<Scalar> := [StrKey];
    var name: seq<Byte> := [0x61];
    assert names[..0] == [];
    var none: Record := [];
    assert HeaderCells(names[..0], StrOfName) == Success(none);
    assert NameBytes(names[0], StrOfName) == Success(name);
    assert none + [name] == [name];
  }

  /** The second map's key u'a' finds the field name 'a'. */
  lemma MixedRows()
    ensures EncodeRows(MixedTable, [StrKey]) == Success([[[0x31]], [[0x32]]])
  {
    var names: seq<Scalar> := [StrKey];
    var one: seq<Byte> := [0x31];
    var two: seq<Byte> := [0x32];
    MixedRow(MixedTable[0], StrKey, 1, one);
    assert Latin1([0x61]) == [0x61];
    MixedRow(MixedTable[1], Unicode([0x61]), 2, two);
    Each.AllMapped(MixedTable, RowEncoder(names), [[one], [two]]);
  }

  /** A one-key map whose key is `==` to 'a' and whose value is a one-digit number. */
  lemma MixedRow(row: Dict, k: Scalar, n: nat, digit: seq<Byte>)
    requires n < 10 && digit == ['0' as Byte + n]
    requires row == map[k := Int(n)] && Equal(k, StrKey)
    ensures EncodeRow(row, [StrKey]) == Success([digit])
  {
    var names: seq<Scalar> := [StrKey];
    assert Decimal(n) == digit;
    assert ValueBytes(Int(n)) == Success(digit);
    assert names[0] == StrKey;
    assert Listed(k, names);
    assert forall key :: key in row ==> key == k;
    assert !Unencodable(row);
    EncodeRowMeaning(row, names);
    var r := EncodeRow(row, names);
    assert r.Success?;
    assert k in row && Equal(k, names[0]) && row[k] == Int(n);
    assert r.value[0] == digit;
    assert r.value == [digit];
  }

  /** A row of one plain byte is written as that byte and '\n'. */
  lemma PlainByteRow(x: Byte)
    requires x != 0 && !Special(x, Posix)
    ensures Row([[x]], Posix) == [x, Lf]
  {
    assert !NeedsQuotes([x], Posix);
    assert CString([x]) == [x];
  }

  lemma MixedLines()
    ensures Lead(false) + Rows([[[0x61]], [[0x31]], [[0x32]]], Posix) == [0x61, Lf, 0x31, Lf, 0x32, Lf]
  {
    var name: seq<Byte> := [0x61];
    var one: seq<Byte> := [0x31];
    var two: seq<Byte> := [0x32];
    PlainByteRow(0x61);
    PlainByteRow(0x31);
    PlainByteRow(0x32);
    var none: seq<Record> := [];
    RowsCons([two], none, Posix);
    assert [[two]] + none == [[two]];
    RowsCons([one], [[two]], Posix);
    assert [[one]] + [[two]] == [[one], [two]];
    RowsCons([name], [[one], [two]], Posix);
    assert [[name]] + [[one], [two]] == [[name], [one], [two]];
  }

  /** Where no field name is non-ASCII unicode, the code as written and the
      corrected header produce the same output. */
  lemma NameEncodingsAgree(data: seq<Dict>, includeBom: bool, names: seq<Scalar>, sep: LineSep)
    requires forall i :: 0 <= i < |names| && names[i].Unicode? ==> IsAsciiText(names[i].text)
    ensures WriteCsv(data, includeBom, names, sep, StrOfName) == WriteCsv(data, includeBom, names, sep, Utf8OfName)
  {
    forall i | 0 <= i < |names|
      ensures NameBytes(names[i], StrOfName) == NameBytes(names[i], Utf8OfName)
    {
      if names[i].Unicode? {
        var t := names[i].text;
        assert Latin1(AsciiBytes(t)) == t;
        Utf8.EncodeLatin1Ascii(AsciiBytes(t));
      }
    }
    HeaderCellsAgree(names);
  }

  lemma {:induction false} HeaderCellsAgree(names: seq<Scalar>)
    requires forall i :: 0 <= i < |names| ==> NameBytes(names[i], StrOfName) == NameBytes(names[i], Utf8OfName)
    ensures HeaderCells(names, StrOfName) == HeaderCells(names, Utf8OfName)
    decreases |names|
  {
    if names != [] {
      var n := |names| - 1;
      assert forall i :: 0 <= i < n ==> names[..n][i] == names[i];
      HeaderCellsAgree(names[..n]);
    }
  }
}
