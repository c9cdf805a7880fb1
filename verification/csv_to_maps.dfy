/**
 * `csv_data_into_seq_of_maps` (kickshaws/core.py): a raw `str` holding CSV
 * text is read by `csv.DictReader` (first record = field names, blank
 * records skipped) and every row becomes a map whose keys and values are the
 * `into_unicode` images of the row's names and cells.
 */
module CsvToMaps {
  import opened Wrappers
  import opened PyValues
  import opened CsvReader
  import TextDecoding
  import UnicodeEscape
  import Each

  /** The result of the core function: one text-to-text map per row. */
  type Table = seq<map<Text, Text>>

  /** What turns a key or a cell into text; the core uses `into_unicode`. */
  type Decoder = PyValue -> Result<Text, Error>

  /** `into_unicode`, with the given table of character names for `\N{...}`. */
  function IntoUnicode(names: UnicodeEscape.NameDb): Decoder
  {
    v => TextDecoding.IntoUnicode(v, names)
  }

  function Strs(fs: seq<Field>): (vs: seq<PyValue>)
    ensures |vs| == |fs| && forall i :: 0 <= i < |fs| ==> vs[i] == Str(fs[i])
  {
    seq(|fs|, i requires 0 <= i < |fs| => Str(fs[i]))
  }

  // ---------------------------------------------------------------------
  // The dictionary csv.DictReader builds for one row

  /** `dict(zip(header, row))` over the first `n` pairs: a repeated name keeps its last cell. */
  function Zipped(header: Record, row: Record, n: nat): (z: map<PyValue, PyValue>)
    requires n <= |header| && n <= |row|
    ensures forall k :: k in z ==> k.Str? && z[k].Str?
    ensures forall i :: 0 <= i < n ==> Str(header[i]) in z
  {
    if n == 0 then map[] else Zipped(header, row, n - 1)[Str(header[n - 1]) := Str(row[n - 1])]
  }

  /** The keys of `dict(zip(header, row))` are the first `n` names. */
  lemma {:induction false} ZippedKeys(header: Record, row: Record, n: nat)
    requires n <= |header| && n <= |row|
    ensures Zipped(header, row, n).Keys == set i | 0 <= i < n :: Str(header[i])
    decreases n
  {
    if n > 0 {
      ZippedKeys(header, row, n - 1);
      var before := set i | 0 <= i < n - 1 :: Str(header[i]);
      var after := set i | 0 <= i < n :: Str(header[i]);
      assert after == before + {Str(header[n - 1])} by {
        forall k | k in after ensures k in before + {Str(header[n - 1])}
        {
          var i :| 0 <= i < n && k == Str(header[i]);
          if i < n - 1 { assert k in before; }
        }
      }
    }
  }

  /** `d[key] = restval` (None) for every name past the end of a short row. */
  function FillMissing(d: map<PyValue, PyValue>, names: seq<Field>): (e: map<PyValue, PyValue>)
    ensures e.Keys == d.Keys + set i | 0 <= i < |names| :: Str(names[i])
    ensures forall i :: 0 <= i < |names| ==> e[Str(names[i])] == NoneValue
    decreases |names|
  {
    if names == [] then d
    else
      var n := |names| - 1;
      var e := FillMissing(d, names[..n]);
      assert forall i :: 0 <= i < n ==> names[i] == names[..n][i];
      e[Str(names[n]) := NoneValue]
  }

  /** The row dictionary: cells under their names; extra cells as a list under
      the key None (restkey); names without a cell mapped to None (restval). */
  function RowDict(header: Record, row: Record): (d: map<PyValue, PyValue>)
    ensures forall i :: 0 <= i < |header| ==> Str(header[i]) in d
    ensures NoneValue in d <==> |header| < |row|
    ensures |header| < |row| ==> d[NoneValue] == List(Strs(row[|header|..]))
  {
    if |header| < |row| then Zipped(header, row, |header|)[NoneValue := List(Strs(row[|header|..]))]
    else if |header| > |row| then FillMissing(Zipped(header, row, |row|), header[|row|..])
    else Zipped(header, row, |row|)
  }

  /** The values without repeats, each where it first occurs. */
  function Distinct(vs: seq<PyValue>): (ds: seq<PyValue>)
    ensures forall x :: x in ds <==> x in vs
    ensures forall i, j :: 0 <= i < j < |ds| ==> ds[i] != ds[j]
  {
    if vs == [] then []
    else
      var init := Distinct(vs[..|vs| - 1]);
      assert vs == vs[..|vs| - 1] + [vs[|vs| - 1]];
      if vs[|vs| - 1] in init then init else init + [vs[|vs| - 1]]
  }

  /** The order in which the model visits the row dictionary's items: names
      as they first occur in the header, then the restkey. */
  function ItemOrder(header: Record, row: Record): seq<PyValue>
  {
    Distinct(Strs(header)) + (if |header| < |row| then [NoneValue] else [])
  }

  /** An item that decoding refuses: its value or its key. */
  predicate ItemFails(d: map<PyValue, PyValue>, k: PyValue, decode: Decoder)
    requires k in d
  {
    decode(d[k]).Failure? || decode(k).Failure?
  }

  /** `{into_unicode(k): into_unicode(v) for (k, v) in items}`, value before key
      as Python 2 evaluates them; a later item overwrites an earlier one with
      the same decoded key. */
  function DecodeItems(d: map<PyValue, PyValue>, order: seq<PyValue>, decode: Decoder): (r: Result<map<Text, Text>, Error>)
    requires forall k :: k in order ==> k in d
    ensures r.Failure? <==> exists k :: k in order && ItemFails(d, k, decode)
    ensures r.Success? ==> forall k :: k in order ==> decode(k).Success? && decode(k).value in r.value
    decreases |order|
  {
    if order == [] then Success(map[])
    else
      var k := order[|order| - 1];
      assert order == order[..|order| - 1] + [k];
      match DecodeItems(d, order[..|order| - 1], decode)
      case Failure(e) => Failure(e)
      case Success(m) =>
        match decode(d[k])
        case Failure(e) => Failure(e)
        case Success(v) =>
          match decode(k)
          case Failure(e) => Failure(e)
          case Success(key) =>
            assert forall k' :: k' in order ==> k' in order[..|order| - 1] || k' == k;
            assert forall k' :: k' in order[..|order| - 1] ==> decode(k').value in m;
            Success(m[key := v])
  }

  /** One DictReader row, decoded. */
  function DecodeRow(header: Record, row: Record, decode: Decoder): (r: Result<map<Text, Text>, Error>)
    ensures r.Failure? <==> exists k :: k in RowDict(header, row) && ItemFails(RowDict(header, row), k, decode)
  {
    ItemOrderCovers(header, row);
    DecodeItems(RowDict(header, row), ItemOrder(header, row), decode)
  }

  /** The records DictReader hands out: blank ones skipped. */
  function NonBlank(records: seq<Record>): (rows: seq<Record>)
    ensures |rows| <= |records|
    ensures forall i :: 0 <= i < |rows| ==> rows[i] != [] && rows[i] in records
    ensures forall r :: r in records && r != [] ==> r in rows
  {
    if records == [] then []
    else
      var rest := NonBlank(records[1..]);
      assert forall r :: r in records[1..] ==> r in records;
      assert forall r :: r in records ==> r == records[0] || r in records[1..];
      if records[0] == [] then rest else [records[0]] + rest
  }

  /** What turns one row into a map. */
  type RowDecoder = Record -> Result<map<Text, Text>, Error>

  /** The row decoder of the loop: DictReader's dictionary for the row, decoded. */
  function RowsUnder(header: Record, decode: Decoder): RowDecoder
  {
    row => DecodeRow(header, row, decode)
  }

  /** What `csv_data_into_seq_of_maps` makes of the reader's output: a fault
      before the header is raised at once, a later one only after the rows
      before it have been decoded. */
  function ReadParsed(parsed: Parsed, decode: Decoder): (r: Result<Table, Error>)
    ensures parsed.fault.Some? ==> r.Failure?
    ensures parsed.records == [] && parsed.fault.None? ==> r == Success([])
    ensures parsed.records != [] && r.Success? ==> |r.value| == |NonBlank(parsed.records[1..])|
  {
    if parsed.records == [] then
      (if parsed.fault.Some? then Failure(CsvError(parsed.fault.value)) else Success([]))
    else
      match Each.Apply(NonBlank(parsed.records[1..]), RowsUnder(parsed.records[0], decode))
      case Failure(e) => Failure(e)
      case Success(maps) =>
        if parsed.fault.Some? then Failure(CsvError(parsed.fault.value)) else Success(maps)
  }

  /** `csv_data_into_seq_of_maps(data)` as a value. */
  function ReadTable(data: PyValue, names: UnicodeEscape.NameDb): (r: Result<Table, Error>)
    ensures !data.Str? ==> r == Failure(TypeError)
  {
    if !data.Str? then Failure(TypeError) else ReadParsed(Parse(data.bytes), IntoUnicode(names))
  }

  /** `csv_data_into_seq_of_maps`: the loop that appends one decoded map per row. */
  method CsvDataIntoSeqOfMaps(data: PyValue, names: UnicodeEscape.NameDb) returns (r: Result<Table, Error>)
    ensures r == ReadTable(data, names)
  {
    if !data.Str? {
      return Failure(TypeError);
    }
    var decode := IntoUnicode(names);
    var parsed := Parse(data.bytes);
    assert ReadTable(data, names) == ReadParsed(parsed, decode);
    if parsed.records == [] {
      if parsed.fault.Some? {
        return Failure(CsvError(parsed.fault.value));
      }
      return Success([]);
    }
    var header := parsed.records[0];
    var rows := NonBlank(parsed.records[1..]);
    ghost var step := RowsUnder(header, decode);
    var out: Table := [];
    var i := 0;
    while i < |rows|
      invariant 0 <= i <= |rows|
      invariant Each.Apply(rows[..i], step) == Success(out)
    {
      var m := DecodeRow(header, rows[i], decode);
      assert step(rows[i]) == m;
      Each.ApplyStep(rows, i, step);
      if m.Failure? {
        Each.FailureStops(rows, i + 1, step);
        return Failure(m.error);
      }
      out := out + [m.value];
      i := i + 1;
    }
    assert rows[..i] == rows;
    if parsed.fault.Some? {
      return Failure(CsvError(parsed.fault.value));
    }
    return Success(out);
  }

  // ---------------------------------------------------------------------
  // Properties

  /** The header's names without repeats are the keys `Str(name)`. */
  lemma HeaderNames(header: Record)
    ensures forall k :: k in Distinct(Strs(header)) <==> exists i :: 0 <= i < |header| && k == Str(header[i])
  {
    var names := Strs(header);
    forall k ensures k in names <==> exists i :: 0 <= i < |header| && k == Str(header[i])
    {
      if k in names {
        var i :| 0 <= i < |names| && names[i] == k;
      }
    }
  }

  /** The model visits the keys of the row dictionary and nothing else. */
  lemma ItemOrderKeys(header: Record, row: Record)
    ensures forall k :: k in ItemOrder(header, row) <==> k in RowDict(header, row)
  {
    var ds := Distinct(Strs(header));
    var d := RowDict(header, row);
    HeaderNames(header);
    if |header| == |row| {
      ZippedKeys(header, row, |row|);
      assert ItemOrder(header, row) == ds;
    } else if |header| < |row| {
      ZippedKeys(header, row, |header|);
      assert ItemOrder(header, row) == ds + [NoneValue];
      assert d.Keys == Zipped(header, row, |header|).Keys + {NoneValue};
    } else {
      ZippedKeys(header, row, |row|);
      var rest := header[|row|..];
      assert ItemOrder(header, row) == ds;
      forall k ensures k in ds <==> k in d
      {
        if k in ds {
          var i :| 0 <= i < |header| && k == Str(header[i]);
          if i >= |row| {
            assert rest[i - |row|] == header[i];
          }
        }
        if k in d && k !in Zipped(header, row, |row|) {
          var i :| 0 <= i < |rest| && k == Str(rest[i]);
          assert rest[i] == header[|row| + i];
        }
      }
    }
  }

  /** The model visits each key once. */
  lemma ItemOrderDistinct(header: Record, row: Record)
    ensures var o := ItemOrder(header, row); forall i, j :: 0 <= i < j < |o| ==> o[i] != o[j]
  {
    var ds := Distinct(Strs(header));
    if |header| < |row| {
      HeaderNames(header);
      forall i | 0 <= i < |ds| ensures ds[i] != NoneValue
      {
        assert ds[i] in ds;
      }
      assert ItemOrder(header, row) == ds + [NoneValue];
    } else {
      assert ItemOrder(header, row) == ds;
    }
  }

  /** The model visits every key of the row dictionary exactly once. */
  lemma ItemOrderCovers(header: Record, row: Record)
    ensures forall k :: k in ItemOrder(header, row) <==> k in RowDict(header, row)
    ensures var o := ItemOrder(header, row); forall i, j :: 0 <= i < j < |o| ==> o[i] != o[j]
  {
    ItemOrderKeys(header, row);
    ItemOrderDistinct(header, row);
  }

  /** A row whose length differs from the header's never decodes: the restkey
      or a restval is None, or a list, and `into_unicode` refuses both. */
  lemma RaggedRowFails(header: Record, row: Record, names: UnicodeEscape.NameDb)
    requires |row| != |header|
    ensures DecodeRow(header, row, IntoUnicode(names)).Failure?
  {
    ItemOrderCovers(header, row);
    var decode := IntoUnicode(names);
    var d := RowDict(header, row);
    var o := ItemOrder(header, row);
    if |header| < |row| {
      assert NoneValue in o;
      assert decode(d[NoneValue]).Failure?;
      assert ItemFails(d, NoneValue, decode);
    } else {
      var k := Str(header[|row|]);
      assert k == Strs(header)[|row|];
      assert k in o;
      assert header[|row|..][0] == header[|row|];
      assert d[k] == NoneValue;
      assert decode(d[k]).Failure?;
      assert ItemFails(d, k, decode);
    }
  }

  /** Under distinct names, each name of a full row maps to its own cell. */
  lemma {:induction false} ZippedLookup(header: Record, row: Record, n: nat, j: nat)
    requires n <= |header| && n <= |row| && j < n
    requires forall a, b :: 0 <= a < b < |header| ==> header[a] != header[b]
    ensures Str(header[j]) in Zipped(header, row, n) && Zipped(header, row, n)[Str(header[j])] == Str(row[j])
    decreases n
  {
    if j < n - 1 {
      ZippedLookup(header, row, n - 1, j);
      assert Str(header[j]) != Str(header[n - 1]);
    }
  }

  /** The map built by inserting the pairs in order, later pairs overriding earlier ones. */
  function PairMap(keys: seq<Text>, vals: seq<Text>): map<Text, Text>
    requires |keys| == |vals|
  {
    if keys == [] then map[]
    else PairMap(keys[..|keys| - 1], vals[..|vals| - 1])[keys[|keys| - 1] := vals[|vals| - 1]]
  }

  /** With distinct keys, the map holds exactly the keys, each with its own value. */
  lemma {:induction false} PairMapMeaning(keys: seq<Text>, vals: seq<Text>)
    requires |keys| == |vals|
    requires forall a, b :: 0 <= a < b < |keys| ==> keys[a] != keys[b]
    ensures forall k :: k in PairMap(keys, vals) <==> k in keys
    ensures forall i :: 0 <= i < |keys| ==> PairMap(keys, vals)[keys[i]] == vals[i]
    decreases |keys|
  {
    if keys != [] {
      var n := |keys| - 1;
      PairMapMeaning(keys[..n], vals[..n]);
      assert forall k :: k in keys <==> k in keys[..n] || k == keys[n];
    }
  }

  /** The texts of fields that all decode. */
  function Decoded(fs: seq<Field>, decode: Decoder): (ts: seq<Text>)
    requires forall i :: 0 <= i < |fs| ==> decode(Str(fs[i])).Success?
    ensures |ts| == |fs| && forall i :: 0 <= i < |fs| ==> decode(Str(fs[i])) == Success(ts[i])
  {
    seq(|fs|, i requires 0 <= i < |fs| => decode(Str(fs[i])).value)
  }

  /** Items whose keys and values decode to the given texts, visited in order,
      build the map of those pairs. */
  lemma {:induction false} DecodeItemsPairs(d: map<PyValue, PyValue>, order: seq<PyValue>, decode: Decoder, keys: seq<Text>, vals: seq<Text>)
    requires forall k :: k in order ==> k in d
    requires |keys| == |order| && |vals| == |order|
    requires forall i :: 0 <= i < |order| ==> decode(order[i]) == Success(keys[i]) && decode(d[order[i]]) == Success(vals[i])
    ensures DecodeItems(d, order, decode) == Success(PairMap(keys, vals))
    decreases |order|
  {
    if order != [] {
      var n := |order| - 1;
      DecodeItemsPairs(d, order[..n], decode, keys[..n], vals[..n]);
      assert decode(d[order[n]]) == Success(vals[n]);
      assert decode(order[n]) == Success(keys[n]);
    }
  }

  lemma {:induction false} DistinctUnchanged(vs: seq<PyValue>)
    requires forall a, b :: 0 <= a < b < |vs| ==> vs[a] != vs[b]
    ensures Distinct(vs) == vs
    decreases |vs|
  {
    if vs != [] {
      DistinctUnchanged(vs[..|vs| - 1]);
      assert vs[|vs| - 1] !in vs[..|vs| - 1];
      assert vs[..|vs| - 1] + [vs[|vs| - 1]] == vs;
    }
  }

  /** A full row under a header of distinct names whose names and cells all
      decode becomes the map from each decoded name to its decoded cell. */
  lemma FullRowDecodes(header: Record, row: Record, decode: Decoder)
    requires |header| == |row|
    requires forall a, b :: 0 <= a < b < |header| ==> header[a] != header[b]
    requires forall i :: 0 <= i < |header| ==> decode(Str(header[i])).Success? && decode(Str(row[i])).Success?
    ensures DecodeRow(header, row, decode) == Success(PairMap(Decoded(header, decode), Decoded(row, decode)))
  {
    var s := Strs(header);
    var d := RowDict(header, row);
    assert forall a, b :: 0 <= a < b < |s| ==> s[a] != s[b];
    DistinctUnchanged(s);
    assert ItemOrder(header, row) == s;
    assert d == Zipped(header, row, |row|);
    forall i | 0 <= i < |s|
      ensures s[i] in d && d[s[i]] == Str(row[i])
    {
      ZippedLookup(header, row, |row|, i);
    }
    DecodeItemsPairs(d, s, decode, Decoded(header, decode), Decoded(row, decode));
  }

  /** Every row the reader hands out becomes exactly one map, in order. */
  lemma OneMapPerRow(data: seq<Byte>, names: UnicodeEscape.NameDb)
    requires ReadTable(Str(data), names).Success?
    ensures var records := Parse(data).records;
      var maps := ReadTable(Str(data), names).value;
      (records == [] ==> maps == []) &&
      (records != [] ==> |maps| == |NonBlank(records[1..])| && forall i :: 0 <= i < |maps| ==> DecodeRow(records[0], NonBlank(records[1..])[i], IntoUnicode(names)) == Success(maps[i]))
  {
    var records := Parse(data).records;
    if records != [] {
      Each.AppliedInOrder(NonBlank(records[1..]), RowsUnder(records[0], IntoUnicode(names)));
    }
  }
}
