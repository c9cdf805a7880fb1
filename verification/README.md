# kickshaws core, modelled in Dafny

This project models the core of `kickshaws/core.py`, a Python 2 grab-bag of helpers, and proves properties of that model. The core consists of:

- `into_unicode`: a raw `str` becomes `unicode` through the first of four decoders that succeeds. The decoders, in order, are `utf_8_sig`, `utf_16`, `unicode_escape` and `cp1252`. The `unicode_escape` decoder is tried only when the regular expression `re_unicode_escapes` finds a `\uXXXX` in the input.
- `csv_data_into_seq_of_maps`: raw CSV bytes are read with `csv.DictReader`. Each row becomes a map whose keys and values are the `into_unicode` images of the row's names and cells.
- `seq_of_maps_into_csv_data`: a list of maps is written with `csv.DictWriter` into an in-memory buffer.
  - A UTF-8 byte order mark is written first, when asked for.
  - The field names are the keys of the first map.
  - Every value is encoded as UTF-8 before it is written.
- `select` and `select_indices`: the maps (or their positions) that hold a given value under a given key.
- `enum`: a class whose attributes map names to positions.
- `fix_nbsp`: no-break spaces become spaces.
- `smart_logger`: a per-tag cache of configured loggers.

Python 2.7 behaviour is modelled concretely where the core depends on it:

- The four codecs. UTF-8 follows RFC 3629, except that, as in Python 2.7, surrogates are encoded and accepted. UTF-16 follows RFC 2781. `unicode_escape` has Python's full escape table. `cp1252` has five undefined bytes.
- The `_csv` reader and writer in the excel dialect. The reader is a state machine. The writer uses QUOTE_MINIMAL and doubles quotes.
- The way `DictReader` handles short rows, long rows and blank rows.
- The in-memory buffer (`cStringIO`).
- Python 2's `==` between `str` and `unicode`. An ASCII `str` and the `unicode` with the same characters are the same dictionary key. A dictionary never holds two keys that are `==`, and lookups in `select` and in the writer go by `==`.

The modules follow the source:

- `PyValues`: Python 2 values and exceptions.
- `Utf8`, `Utf16`, `UnicodeEscape`, `Cp1252`: the codecs.
- `TextDecoding`: `into_unicode`.
- `CsvReader` and `CsvWriter`: the byte-level CSV layer.
- `Each`: the loop shape both CSV functions share.
- `CsvToMaps` and `MapsToCsv`: the two CSV functions.
- `TableRoundTrip`: the two CSV functions are inverse to each other on text tables.
- `DataOps`: `select`, `select_indices`, `enum`.
- `Strings`: `fix_nbsp`.
- `Loggers`: `smart_logger`.

Where a description of the library and its code differ, the model follows the code:

- `cp1252` is not total, so `into_unicode` can raise. `TextDecoding.NotTotal` exhibits an input that makes it raise.
- An escape such as `\u00e9` written in plain ASCII is valid UTF-8, so it comes back literally and is never unescaped (`TextDecoding.AsciiIsLiteral`). Only input that neither UTF-8 nor UTF-16 can read reaches the escape stage (`TextDecoding.EscapeStageExample`).
- An unterminated quoted field is not an error in Python 2.7's non-strict reader. At the end of the input the pending field is saved.

## Model

| member | source | states |
|---|---|---|
| PyValues.Equal | kickshaws/core.py:171 | Python 2's `==` is reflexive |
| PyValues.Twin | kickshaws/core.py:171 | The other spelling of a key, `unicode` for an ASCII `str` and back, is `==` to it both ways |
| PyValues.EqualScalars | kickshaws/core.py:171 | Two keys are `==` exactly when they are the same value or one is the other's twin; `==` is symmetric |
| PyValues.KeysEqualTo | kickshaws/core.py:171 | The keys `==` to a key are that key and its twin |
| PyValues.Lookup | kickshaws/core.py:171 | A lookup finds a value exactly when some key is `==` to the key asked for; in a dictionary, where no two keys are `==`, it is that key's value |
| PyValues.Digits | kickshaws/core.py:283 | The decimal digits of a natural number are ASCII digits, at least one, with no leading zero except for 0 itself |
| PyValues.Decimal | kickshaws/core.py:283 | `str()` of an integer is ASCII, so its UTF-8 encoding is itself |
| PyValues.DigitsReadBack | kickshaws/core.py:283 | The digits written for a natural number denote that number |
| PyValues.DecimalReadsBack | kickshaws/core.py:283 | `int(str(n)) == n`: the sign and digits written for an integer read back as that integer |
| TextDecoding.IntoUnicode | kickshaws/core.py:198-224 | Anything but a `str` gives TypeError, and only it does; any other failure is UnicodeDecodeError |
| TextDecoding.IntoUnicodeIsFirstSuccess | kickshaws/core.py:210-224 | The result is the first stage that succeeds, in the order utf_8_sig, utf_16, unicode_escape (only when the pattern matches), cp1252; when none succeeds the result is UnicodeDecodeError |
| TextDecoding.FirstSome | kickshaws/core.py:210-224 | The chosen attempt is a success preceded only by failures; no success at all means every attempt failed |
| TextDecoding.Stages | kickshaws/core.py:210-224 | There are exactly four attempts, and the `unicode_escape` attempt fails outright when the pattern finds no `\uXXXX` |
| TextDecoding.Utf8DecodedFirst | kickshaws/core.py:206-211 | UTF-8 that Python's encoder produced is decoded by the first stage, behind a BOM or (unless the text starts with U+FEFF) without one |
| TextDecoding.AsciiIsLiteral | kickshaws/core.py:210-211 | All-ASCII input comes back as its own characters, so a literal `\u00e9` is never unescaped |
| TextDecoding.Utf16DecodedSecond | kickshaws/core.py:214-215 | UTF-16 text marked with FF FE is decoded by the second stage |
| TextDecoding.NoEscapeMeansCp1252 | kickshaws/core.py:218-224 | Input that fails both UTF decoders and has no `\uXXXX` match gets the cp1252 result, error included |
| TextDecoding.NotTotal | kickshaws/core.py:224 | The byte 0x81 makes `into_unicode` raise UnicodeDecodeError |
| TextDecoding.EscapeStageExample | kickshaws/core.py:218-221 | `\u00e9` followed by the byte FF is read only by the escape stage, as U+00E9 U+00FF |
| TextDecoding.ExampleEscapeDecode | kickshaws/core.py:221 | The escape decoder turns that sample into U+00E9 U+00FF |
| TextDecoding.SampleNotUtf8 | kickshaws/core.py:211 | The sample is not UTF-8 |
| TextDecoding.SampleNotUtf16 | kickshaws/core.py:215 | The sample is not UTF-16 (odd length) |
| TextDecoding.SampleHasEscape | kickshaws/core.py:196 | The pattern finds the escape in the sample |
| UnicodeEscape.Search | kickshaws/core.py:196 | `re.search` succeeds exactly when `\u` and four hexadecimal digits occur at some offset |
| UnicodeEscape.HexDigit | kickshaws/core.py:196 | A hexadecimal digit's value is below 16 |
| UnicodeEscape.IndexOf | kickshaws/core.py:221 | The offset found holds the byte and no earlier byte does; no offset means the byte is absent |
| UnicodeEscape.NamedEscape | kickshaws/core.py:221 | A `\N{name}` escape consumes no more than the input |
| UnicodeEscape.OctalTail | kickshaws/core.py:221 | An octal escape continues for at most two more digits |
| UnicodeEscape.OctalValue | kickshaws/core.py:221 | Up to three octal digits give a value below 8 to the power of their count |
| UnicodeEscape.DecodeWithoutBackslash | kickshaws/core.py:221 | Without a backslash the escape decoder reads bytes as Latin-1 |
| UnicodeEscape.Decode | kickshaws/core.py:221 | A decoded text is never longer than its input; `DecodeEscape` shows that the decoder inverts the `unicode_escape` encoder |
| UnicodeEscape.HexChar | kickshaws/core.py:221 | Every digit value below 16 has an ASCII hexadecimal digit that reads back as that value |
| UnicodeEscape.HexDigits | kickshaws/core.py:221 | A value written with a given number of hexadecimal digits takes exactly that many ASCII bytes |
| UnicodeEscape.HexValueOfDigits | kickshaws/core.py:221 | A value below 16 to the power n, written as n hexadecimal digits, reads back as that value |
| UnicodeEscape.EscapePoint | kickshaws/core.py:221 | The escape Python 2.7's `unicode_escape` encoder writes for one code point (`\\`, `\t`, `\n`, `\r`, `\xhh`, `\uhhhh`, `\Uhhhhhhhh`, or the printable ASCII byte itself) is ASCII |
| UnicodeEscape.Escape | kickshaws/core.py:221 | The `unicode_escape` encoding of a text is ASCII |
| UnicodeEscape.DecodeHexEscape | kickshaws/core.py:221 | A `\x`, `\u` or `\U` escape with 2, 4 or 8 digits decodes to its code point, ahead of whatever follows |
| UnicodeEscape.DecodeEscapePoint | kickshaws/core.py:221 | The escape of any code point decodes to that code point, ahead of whatever follows |
| UnicodeEscape.DecodeEscape | kickshaws/core.py:221 | Round trip: the decoder reads back every text from its `unicode_escape` encoding |
| Utf8.DecodeFirst | kickshaws/core.py:211 | A decoded code point occupies exactly its shortest encoding at the front of the input |
| Utf8.Decode | kickshaws/core.py:211 | Decoded text re-encodes to the input, so the decoder accepts only shortest forms |
| Utf8.EncodePoint | kickshaws/core.py:282 | One code point takes one to four bytes |
| Utf8.Encode | kickshaws/core.py:282 | `encode('utf_8')` writes one to four bytes per code point: never fewer bytes than code points, never more than four times as many |
| Utf8.Combine | kickshaws/core.py:282 | A surrogate pair stands for a supplementary code point |
| Utf8.DecodeEncodeEach | kickshaws/core.py:211 | Every text, lone surrogates included, is read back from its code-point-by-code-point encoding |
| Utf8.DecodeFirstEncodePoint | kickshaws/core.py:211 | Decoding the encoding of one code point reads back that code point and its length |
| Utf8.DecodeFirstTwo | kickshaws/core.py:211 | The same for two-byte forms |
| Utf8.DecodeFirstThree | kickshaws/core.py:211 | The same for three-byte forms |
| Utf8.DecodeFirstFour | kickshaws/core.py:211 | The same for four-byte forms |
| Utf8.SplitFour | kickshaws/core.py:211 | A supplementary code point splits into four base-64 digits whose leading digits meet the four-byte bounds |
| Utf8.EncodeTwo | kickshaws/core.py:211 | A well-formed two-byte sequence is the encoding of its code point |
| Utf8.EncodeThree | kickshaws/core.py:211 | A well-formed three-byte sequence is the encoding of its code point |
| Utf8.EncodeFour | kickshaws/core.py:211 | A well-formed four-byte sequence is the encoding of its code point |
| Utf8.EncodeWithoutPairs | kickshaws/core.py:282 | Without a surrogate pair, the encoder writes each code point on its own |
| Utf8.DecodeFirstBom | kickshaws/core.py:206 | EF BB BF decodes as U+FEFF |
| Utf8.EncodedBomPrefix | kickshaws/core.py:206 | An encoding starts with the BOM bytes only if the text starts with U+FEFF |
| Utf8.DecodeSigWithBom | kickshaws/core.py:206 | `utf_8_sig` reads back encoded text behind a BOM |
| Utf8.DecodeSigWithoutBom | kickshaws/core.py:206 | `utf_8_sig` reads back encoded text without a BOM unless the text starts with U+FEFF |
| Utf8.DecodeSig | kickshaws/core.py:206-211 | What `utf_8_sig` reads is the UTF-8 encoding of the text, behind a BOM or without one; input without a leading BOM is read as plain UTF-8 |
| Utf8.DecodeAscii | kickshaws/core.py:211 | ASCII bytes decode to the same code points |
| Utf8.DecodeFailsAfterAscii | kickshaws/core.py:211 | An ASCII prefix does not rescue undecodable bytes |
| Utf8.EncodeLatin1Ascii | kickshaws/core.py:283 | ASCII bytes are their own UTF-8 encoding |
| Utf8.EncodedAsciiByte | kickshaws/core.py:282 | A byte below 0x80 in an encoding is a code point of the text |
| Utf16.UnitAt | kickshaws/core.py:215 | A code unit is below 0x10000 |
| Utf16.DecodeUnits | kickshaws/core.py:215 | Success needs an even length and leaves no surrogate in the text |
| Utf16.Decode | kickshaws/core.py:215 | `utf_16` succeeds only on an even number of bytes |
| Utf16.LittleEndianBytes | kickshaws/core.py:215 | Two bytes per code unit |
| Utf16.EncodeLE | kickshaws/core.py:215 | The little-endian form of a text has an even length, two or four bytes per code point |
| Utf16.DecodeUnitsOne | kickshaws/core.py:215 | A non-surrogate code point's unit is decoded ahead of the rest |
| Utf16.DecodeUnitsEncodeLE | kickshaws/core.py:215 | Text without surrogates is read back from its little-endian form |
| Utf16.DecodeWithBom | kickshaws/core.py:215 | With FF FE in front, `utf_16` reads such text back |
| Cp1252.DecodeByte | kickshaws/core.py:224 | A byte has no character exactly when it is one of the five undefined bytes; outside 0x80-0x9F it stands for itself |
| Cp1252.Decode | kickshaws/core.py:224 | `cp1252` succeeds exactly when no undefined byte occurs, and then maps bytes one to one |
| Cp1252.DecodeLatin1 | kickshaws/core.py:224 | Outside 0x80-0x9F, `cp1252` reads bytes as Latin-1 |
| CsvReader.Step | kickshaws/core.py:260-262 | The reader fails on one byte exactly when it expected a line break after a carriage return; a byte adds at most one field |
| CsvReader.Save | kickshaws/core.py:260-262 | Ending a field appends it to the record and starts an empty one |
| CsvReader.Add | kickshaws/core.py:260-262 | A byte extends the current field |
| CsvReader.EndLine | kickshaws/core.py:260-262 | At a line end the record is complete, or a quoted field goes on |
| CsvReader.Feed | kickshaws/core.py:260-262 | After a complete line without a fault, the parser is between records or inside a quoted field |
| CsvReader.Marked | kickshaws/core.py:259-260 | Marking lines never drops a byte, and a '\n' at the end closes the last line |
| CsvReader.Lines | kickshaws/core.py:259-260 | The lines of the buffer keep every byte, and a non-empty input always ends with a line end, so a last line without '\n' is still read |
| CsvReader.MarkedAppend | kickshaws/core.py:259-260 | Marking commutes with concatenation |
| CsvReader.FeedAppend | kickshaws/core.py:260-262 | Reading two pieces in turn is reading their concatenation |
| CsvReader.FeedStopsAtNul | kickshaws/core.py:260-262 | A NUL byte anywhere stops the reader with a fault |
| CsvReader.LinesRefuseNul | kickshaws/core.py:260-262 | A NUL byte anywhere in the input stops the reader of its lines with a fault |
| CsvReader.Parse | kickshaws/core.py:259-262 | Reading an input with a NUL byte anywhere in it fails |
| CsvWriter.Terminator | kickshaws/core.py:277-278 | The line terminator ends with '\n' |
| CsvWriter.Special | kickshaws/core.py:280-284 | The bytes that force quoting are the comma, the quote, '\n', and '\r' when the line terminator is CRLF |
| CsvWriter.Cell | kickshaws/core.py:280-284 | A field holding a byte that forces quoting is written between quotes; a cell is never shorter than the field up to its first NUL, and is empty only for an empty field that is not alone in its row |
| CsvWriter.Join | kickshaws/core.py:280-284 | The written fields open with the first cell, and n fields take at least the n - 1 commas between them |
| CsvWriter.SingleRow | kickshaws/core.py:279-284 | A row of one field is its cell, quoted when empty, then the terminator |
| CsvWriter.SeveralFieldsRow | kickshaws/core.py:279-284 | A row of several fields is its first cell, a comma, then the rest of the line |
| CsvWriter.RowOpening | kickshaws/core.py:280-284 | A line is its first cell followed by a comma or a terminator byte; a row without fields is the terminator alone |
| CsvWriter.OpeningFromFirstCell | kickshaws/core.py:274-280 | Three opening bytes that are neither a quote, a comma nor a terminator byte come from the first cell, written unquoted |
| CsvWriter.RowsOpeningFromFirstCell | kickshaws/core.py:274-280 | The same for the lines of several rows: such opening bytes come from the first row's first cell |
| CsvWriter.CString | kickshaws/core.py:280-284 | A written field is the prefix of the field before its first NUL |
| CsvWriter.Doubled | kickshaws/core.py:280-284 | Doubling quotes never shortens a field |
| CsvWriter.Row | kickshaws/core.py:280-284 | A written row ends with '\n' |
| CsvWriter.Rows | kickshaws/core.py:279-284 | Rows are written only for a non-empty list, and end with '\n' |
| CsvWriter.RowsCons | kickshaws/core.py:279-284 | The first row's line comes first |
| CsvWriter.RowsAppend | kickshaws/core.py:280-284 | One more row appends its line |
| CsvWriter.CStringClean | kickshaws/core.py:280-284 | A field without NUL is written whole |
| CsvWriter.ReadWritten | kickshaws/core.py:259-284 | Round trip: the reader gives back exactly the rows the writer wrote, when no field holds NUL (nor, under '\n', a '\r') |
| CsvWriter.RowsRead | kickshaws/core.py:259-284 | The same, stated for the reader fed from a fresh state |
| CsvWriter.RowRead | kickshaws/core.py:259-284 | One written row is read back as that record |
| CsvWriter.FieldsRowRead | kickshaws/core.py:259-284 | A written row with at least one field is read back as that record |
| CsvWriter.BlankRowRead | kickshaws/core.py:259-284 | A written row without fields is read back as a blank record |
| CsvWriter.JoinRead | kickshaws/core.py:259-284 | Comma-joined cells are read back field by field |
| CsvWriter.CellRead | kickshaws/core.py:259-284 | One written cell, quoted or bare, is read back as its field |
| CsvWriter.QuotedCellRead | kickshaws/core.py:259-284 | A quoted cell is read back as its field |
| CsvWriter.QuotedCell | kickshaws/core.py:280-284 | A field that needs quoting is written between quotes with its quotes doubled |
| CsvWriter.OpenQuoteRead | kickshaws/core.py:259-262 | A quote where a field may start opens a quoted field |
| CsvWriter.CloseQuoteRead | kickshaws/core.py:259-262 | A quote inside a quoted field may close it |
| CsvWriter.UnquotedRead | kickshaws/core.py:259-284 | Bare bytes extend the field being read |
| CsvWriter.QuotedRead | kickshaws/core.py:259-284 | Doubled quotes and any other bytes inside quotes are read back as the field |
| CsvWriter.QuotedStep | kickshaws/core.py:259-284 | One doubled byte inside quotes is read back |
| CsvWriter.QuotedByteRead | kickshaws/core.py:259-284 | A byte inside quotes is kept |
| CsvWriter.QuotePairRead | kickshaws/core.py:259-284 | Two quotes inside quotes are read as one |
| CsvWriter.QuotedNewlineRead | kickshaws/core.py:259-284 | A line break inside quotes is kept |
| CsvWriter.QuotedOtherRead | kickshaws/core.py:259-284 | Any other byte inside quotes is kept |
| CsvWriter.PlainByteRead | kickshaws/core.py:259-284 | A plain byte outside quotes is kept |
| CsvWriter.CommaRead | kickshaws/core.py:259-284 | A comma ends the field |
| CsvWriter.TerminatorRead | kickshaws/core.py:259-284 | The terminator ends the record |
| CsvWriter.PlainBeforeBareCell | kickshaws/core.py:274-279 | Plain bytes in front of a bare field leave it bare |
| CsvWriter.PrefixJoinsFirstCell | kickshaws/core.py:274-279 | Bytes written before a row join its first field |
| CsvWriter.PrefixJoinsFirstField | kickshaws/core.py:274-279 | Bytes written before the rows, such as the byte order mark, join the first field of the first record |
| Each.Apply | kickshaws/core.py:262-263 | A successful loop gives one result per element |
| Each.ApplyStep | kickshaws/core.py:262-263 | One more element adds its result or ends the loop with its error |
| Each.FailureStops | kickshaws/core.py:262-263 | After a failure the later elements change nothing |
| Each.AppliedInOrder | kickshaws/core.py:262-263 | Each result stands at the index of its element |
| Each.AllSucceed | kickshaws/core.py:280-284 | The loop succeeds when every element does |
| Each.AllMapped | kickshaws/core.py:280-284 | The loop gives exactly the elements' results, in order |
| Each.FirstFailure | kickshaws/core.py:280-284 | A failure is the error of the first element that fails |
| Each.OneFailureFails | kickshaws/core.py:280-284 | One failing element makes the loop fail |
| CsvToMaps.ReadTable | kickshaws/core.py:257-258 | Anything but a `str` gives TypeError |
| CsvToMaps.ReadParsed | kickshaws/core.py:260-264 | A reader fault always ends in an error; no records and no fault give the empty table; on success there is one map per non-blank record after the header |
| CsvToMaps.DecodeRow | kickshaws/core.py:263 | Decoding a row fails exactly when some key or value of DictReader's dictionary fails to decode |
| CsvToMaps.RowDict | kickshaws/core.py:260 | Every header name is a key; the key None (restkey) is present exactly when the row is longer than the header, and then holds the extra cells as a list |
| CsvToMaps.Zipped | kickshaws/core.py:260 | `dict(zip(header, row))` maps byte strings to byte strings and has each of the first names as a key |
| CsvToMaps.CsvDataIntoSeqOfMaps | kickshaws/core.py:246-264 | The loop appends one decoded map per non-blank row after the header; it returns the first error, or the reader's fault |
| CsvToMaps.OneMapPerRow | kickshaws/core.py:260-264 | On success there is exactly one map per non-blank record after the header, in order, each the decoded row dictionary |
| CsvToMaps.RaggedRowFails | kickshaws/core.py:260-263 | A row longer or shorter than the header never decodes: its restkey or restval is None or a list, and `into_unicode` refuses both |
| CsvToMaps.FullRowDecodes | kickshaws/core.py:263 | A full row under distinct names that all decode becomes the map of decoded names to decoded cells |
| CsvToMaps.DecodeItems | kickshaws/core.py:263 | The comprehension fails exactly when some key or value fails to decode; otherwise every decoded key is in the result |
| CsvToMaps.DecodeItemsPairs | kickshaws/core.py:263 | Items whose keys and values decode build the map of those pairs |
| CsvToMaps.ItemOrderCovers | kickshaws/core.py:263 | The items are visited once each, and all of them |
| CsvToMaps.ItemOrderKeys | kickshaws/core.py:263 | The visited keys are the row dictionary's keys |
| CsvToMaps.ItemOrderDistinct | kickshaws/core.py:263 | No key is visited twice |
| CsvToMaps.HeaderNames | kickshaws/core.py:260 | The distinct header names are the keys built from it |
| CsvToMaps.ZippedKeys | kickshaws/core.py:260 | `dict(zip(header, row))` has the first names as keys |
| CsvToMaps.ZippedLookup | kickshaws/core.py:260 | Under distinct names each name maps to its own cell |
| CsvToMaps.FillMissing | kickshaws/core.py:260 | Names past the end of a short row map to None |
| CsvToMaps.Distinct | kickshaws/core.py:263 | Repeats are dropped and nothing else is lost |
| CsvToMaps.DistinctUnchanged | kickshaws/core.py:263 | Values without repeats are kept as they are |
| CsvToMaps.NonBlank | kickshaws/core.py:262 | Blank records are skipped and every other record is kept |
| CsvToMaps.PairMapMeaning | kickshaws/core.py:263 | With distinct keys the map holds exactly those keys, each with its own value |
| CsvToMaps.Decoded | kickshaws/core.py:263 | Each text is the decoding of its field |
| CsvToMaps.Strs | kickshaws/core.py:259-262 | Fields are handed out as byte strings |
| MapsToCsv.SeqOfMapsIntoCsvData | kickshaws/core.py:266-288 | The buffer is new and positioned at 0, and holds exactly what `WriteCsv` gives; otherwise the error is the one `WriteCsv` gives |
| MapsToCsv.WriteRows | kickshaws/core.py:280-284 | The loop appends one line per map, in order, or stops with the error of the first refused map |
| MapsToCsv.WriteRow | kickshaws/core.py:281-284 | One `writerow` call: the result is the map's encoded record; a refused map ends the loop with its error; an accepted one extends the encoded rows and the buffer by its line |
| MapsToCsv.RowRefused | kickshaws/core.py:280-284 | A refused row ends the loop with its error |
| MapsToCsv.RowWritten | kickshaws/core.py:280-284 | An accepted row extends the encoded rows and the buffer by its line |
| MapsToCsv.OutputBuffer.Write | kickshaws/core.py:276 | Bytes go in at the current position, which moves past them |
| MapsToCsv.OutputBuffer.Seek | kickshaws/core.py:287 | The position moves and the contents stay |
| MapsToCsv.OutputBuffer.constructor | kickshaws/core.py:273 | A new buffer is empty, at position 0 |
| MapsToCsv.Overwrite | kickshaws/core.py:276 | A write extends the contents only past their end |
| MapsToCsv.OverwriteMeaning | kickshaws/core.py:276 | The written bytes are at the position; the other bytes are old ones, or NUL in a gap |
| MapsToCsv.WriteAtEndAppends | kickshaws/core.py:276 | Writing at the end appends |
| MapsToCsv.ValueBytes | kickshaws/core.py:282-283 | A value is refused exactly when it is a byte string with a byte above 0x7F (UnicodeDecodeError); a value that is not unicode is written as its `str` |
| MapsToCsv.AsciiToUtf8 | kickshaws/core.py:283 | Encoding a byte string fails exactly when it is not ASCII, and otherwise keeps it |
| MapsToCsv.StrOf | kickshaws/core.py:283 | `str()` of a number or None is ASCII |
| MapsToCsv.NameBytes | kickshaws/core.py:279 | A header cell is refused exactly when, as the code writes it, a unicode name is not ASCII (UnicodeEncodeError) |
| MapsToCsv.HeaderCells | kickshaws/core.py:279 | The header has one cell per name; it is refused exactly when some name is |
| MapsToCsv.EncodeRow | kickshaws/core.py:280-284 | One cell per field name |
| MapsToCsv.EncodeRowMeaning | kickshaws/core.py:280-284 | A row is refused when a value cannot be encoded (UnicodeDecodeError), or else when it has a key that is not `==` to any field name (ValueError); otherwise each name gets the encoded value under the key `==` to it, so a `str` key and the equal `unicode` name match, or the empty field when no key is `==` to it |
| MapsToCsv.FieldOf | kickshaws/core.py:284 | The cell for a name is the encoded value under the key `==` to that name, or the empty field (restval) when no key is |
| MapsToCsv.EncodeRows | kickshaws/core.py:280-284 | A successful loop gives one record per map; `EncodeRowsMeaning` states which records and which error |
| MapsToCsv.EncodeRowsMeaning | kickshaws/core.py:280-284 | The rows are written exactly when every map can be; then each map's record stands at its index; otherwise the error is that of the first map refused |
| MapsToCsv.WriteCsv | kickshaws/core.py:277-284 | An empty list raises IndexError; a written output starts with the BOM when asked for; any other error is the header's or that of a map |
| MapsToCsv.NoFirstMap | kickshaws/core.py:277 | An empty list raises IndexError |
| MapsToCsv.ExtraKeyRaises | kickshaws/core.py:267-269 | A key that is not `==` to any key of the first map raises ValueError once header and values can be written |
| MapsToCsv.WrittenLayout | kickshaws/core.py:273-284 | The output is the BOM if asked for, the header line, then one line per map in order; with the BOM asked for, it starts with EF BB BF |
| MapsToCsv.BomOnlyWhenAsked | kickshaws/core.py:274-279 | Without `include_bom`, the output starts with EF BB BF only when the first header cell itself does, as a `str` name starting with those bytes would |
| MapsToCsv.WrittenCells | kickshaws/core.py:280-284 | Each map's line has one cell per name: the encoded value under the key `==` to the name, or the empty field where no key is |
| MapsToCsv.NonAsciiNameRaises | kickshaws/core.py:277-279 | As written, the name u'\xe9' makes the header raise UnicodeEncodeError; with names encoded as UTF-8 the table is written |
| MapsToCsv.AccentHeader | kickshaws/core.py:279 | The header of that table fails as written and is C3 A9 when encoded |
| MapsToCsv.AccentRows | kickshaws/core.py:280-284 | The row of that table is the single cell "1" |
| MapsToCsv.AccentLines | kickshaws/core.py:277-284 | The lines of that table are C3 A9 LF 31 LF |
| MapsToCsv.NameEncodingsAgree | kickshaws/core.py:277-279 | With no non-ASCII unicode name, the code as written and the corrected header write the same bytes |
| MapsToCsv.HeaderCellsAgree | kickshaws/core.py:279 | Names written alike give the same header |
| MapsToCsv.MixedKeysWritten | kickshaws/core.py:277-284 | `[{'a': 1}, {u'a': 2}]` is written as the lines a, 1, 2: the `str` key and the equal `unicode` key are the same field |
| MapsToCsv.MixedHeader | kickshaws/core.py:279 | The header of that table is the single cell a |
| MapsToCsv.MixedRow | kickshaws/core.py:280-284 | A one-key map whose key is `==` to 'a' is written as the digit it holds |
| MapsToCsv.MixedRows | kickshaws/core.py:280-284 | The rows of that table are the cells 1 and 2 |
| MapsToCsv.MixedLines | kickshaws/core.py:277-284 | The lines of that table are 61 LF 31 LF 32 LF |
| MapsToCsv.PlainByteRow | kickshaws/core.py:280-284 | A row of one plain byte is written as that byte and '\n' |
| TableRoundTrip.RoundTrip | kickshaws/core.py:246-288 | A table of text written with UTF-8 field names is read back as the same table, with or without the byte order mark |
| TableRoundTrip.RoundTripAsWritten | kickshaws/core.py:246-288 | With ASCII field names, the same holds for the code as written |
| TableRoundTrip.WrittenParses | kickshaws/core.py:259-288 | The written bytes parse into the header record and one record per row |
| TableRoundTrip.RecordsBecomeTable | kickshaws/core.py:259-264 | Those records become the table again |
| TableRoundTrip.Written | kickshaws/core.py:273-284 | The written bytes are the lead, the header line and one line per row |
| TableRoundTrip.HeaderWritten | kickshaws/core.py:279 | The header cells are the names in UTF-8 |
| TableRoundTrip.OneRowWritten | kickshaws/core.py:280-284 | A row is written as its values in UTF-8, in field-name order |
| TableRoundTrip.BodyWritten | kickshaws/core.py:280-284 | Every row is written that way, in order |
| TableRoundTrip.WrittenRecords | kickshaws/core.py:274-279 | The byte order mark joins the first header cell |
| TableRoundTrip.RecordsClean | kickshaws/core.py:277-284 | No written field holds NUL (nor, under '\n', a '\r') |
| TableRoundTrip.HeaderClean | kickshaws/core.py:274-279 | The same for the header cells |
| TableRoundTrip.BodyClean | kickshaws/core.py:280-284 | The same for the row cells |
| TableRoundTrip.EncodedClean | kickshaws/core.py:282 | A portable text encodes without NUL (nor, under '\n', a '\r') |
| TableRoundTrip.EncodedBare | kickshaws/core.py:279 | A text without comma, quote or line break is written unquoted |
| TableRoundTrip.NoBlankRecords | kickshaws/core.py:262 | The reader skips no written row |
| TableRoundTrip.CellDecodes | kickshaws/core.py:263 | One written cell decodes to its text, with the BOM in front or not |
| TableRoundTrip.HeaderDecodes | kickshaws/core.py:263 | Every header cell decodes to its name |
| TableRoundTrip.CellsDecode | kickshaws/core.py:263 | Every row cell decodes to its value |
| TableRoundTrip.RowReadWith | kickshaws/core.py:263 | A row under names that decode distinctly becomes the map of names to values |
| TableRoundTrip.OneRowRead | kickshaws/core.py:263 | Each written row is read back as its map |
| TableRoundTrip.PairsRebuildRow | kickshaws/core.py:263 | Inserting the names with their values rebuilds the row |
| DataOps.Select | kickshaws/core.py:167-171 | Every selected map holds a value `==` to `v` under the key `==` to `k`, and no more maps are selected than there are |
| DataOps.SelectIndices | kickshaws/core.py:173-177 | The positions are in range, strictly increasing, each of a matching map, and every matching map's position is among them |
| DataOps.SelectAtIndices | kickshaws/core.py:167-177 | `select` gives exactly the maps at the positions `select_indices` gives, in the same order |
| DataOps.SelectMembership | kickshaws/core.py:167-171 | A map is selected exactly when it is in the list and holds the value under the key |
| DataOps.MissingKeyMatchesNone | kickshaws/core.py:171 | Selecting None picks the maps with no key `==` to `k`, since `get` answers None |
| DataOps.EqualKeyMatches | kickshaws/core.py:171 | A map is selected when its key `==` to `k` holds a value `==` to `v`, even where one key is `str` and the other `unicode` |
| DataOps.Get | kickshaws/core.py:171 | `mp.get(k)` is the value under the key `==` to `k`, or None when no key is |
| DataOps.EnumLastPosition | kickshaws/core.py:179-183 | The enum's names are the items up to `==`: each name is one of the items, each item has a name `==` to it, no two names are `==`, and each name stands for the last position holding an item `==` to it |
| DataOps.EnumNames | kickshaws/core.py:182 | Every name is one of the items, and every item is a name or has its other spelling as a name |
| DataOps.EnumHolds | kickshaws/core.py:182 | The position a name stands for holds an item `==` to that name |
| DataOps.EnumLast | kickshaws/core.py:182 | No item after a name's position is `==` to that name, so later assignments of an equal name replaced earlier ones |
| DataOps.EnumDistinct | kickshaws/core.py:182 | With items no two of which are `==`, each item is a name and stands for its own position |
| DataOps.EnumMixedSpellings | kickshaws/core.py:182 | `enum('a', u'a')` has the single name `'a'`, which stands for position 1 |
| DataOps.Enum | kickshaws/core.py:182-183 | The names form a dictionary (no two are `==`), and each stands for a position within the items |
| DataOps.KeyFor | kickshaws/core.py:182 | Assigning a name to a dictionary lands under the present key `==` to it when there is one, else under the name itself; that key is `==` to the name, and a new key is `==` to no present key |
| Strings.FixNbsp | kickshaws/core.py:188-193 | Anything but unicode gives TypeError, and only it does; the result has the same length, contains no U+00A0, has a space wherever U+00A0 was, and keeps every other character |
| Strings.ReplaceChar | kickshaws/core.py:193 | Replacing one character keeps the length and changes exactly the occurrences |
| Strings.FixNbspIdempotent | kickshaws/core.py:188-193 | Fixing a fixed string changes nothing |
| Strings.FixNbspKeepsClean | kickshaws/core.py:193 | A string without U+00A0 comes back as it was |
| Loggers.LoggerCache.SmartLogger | kickshaws/core.py:46-82 | An empty tag gives ValueError and changes nothing. A cached tag returns the cached object and changes nothing. A new tag caches one more logger, leaving the other entries as they were; that logger is the very object `logging` already holds under the tag when there is one, and otherwise a new one; it has level INFO and one more rotating handler on `log<sep><tag>.log` with 33554432 bytes and 16 backups. No other logger changes, and the cache stays consistent with `logging`'s registry |
| Loggers.LoggerCache.GetLogger | kickshaws/core.py:67 | `getLogger` returns the registered logger or registers a new, unconfigured one under the name |
| Loggers.LoggerCache.constructor | kickshaws/core.py:44 | The cache starts empty |
| Loggers.Logger.constructor | kickshaws/core.py:67 | A new logger has the name, level NOTSET and no handlers |
| Loggers.LogPath | kickshaws/core.py:56-71 | The log path is "log", then the separator followed by the tag, then ".log" |

## Left out

- I/O, except through the modelled buffer. This covers `os.makedirs`, the log files themselves, the message formatter, and the records a logger writes.
- The rest of the module: `send_email`, `slurp*`, `spit*`, `get_hostname`, `today_as_str`, `ts` and `verify_response_content_length`. They are network, file and clock helpers.
- `example.py` is not part of this model.
- Python 2 dictionary order is not specified. The writer therefore takes the order of `data[0].keys()` as a parameter. The reader visits a row's keys in header order. That order decides which error is raised first. It also decides which value survives when two header names decode to the same text, such as `a` and EF BB BF `a`, or `caf` E9 and `caf` C3 A9: the model keeps the later column, while Python follows the dictionary's hash order.
- Python 2 is assumed to be a wide (UCS-4) build, in which every code point is one character. On a narrow build, code points above U+FFFF are held as surrogate pairs. That changes the text `Utf8.Decode`, `Utf16.Decode` and `UnicodeEscape.Decode` return, and the length `Strings.FixNbsp` keeps is then counted in code units.
- The platform is a parameter: `os.linesep` (LF or CRLF) for the writer, `os.sep` for the log path.
- The UTF-16 decoder assumes a little-endian host when the input has no byte order mark.
- The `\N{name}` escape looks names up in a table that is a parameter. The Unicode character database is not part of this model.
- The csv module's field size limit (128 KiB) is not modelled.
- Float values are not modelled: their `str()` depends on float formatting. The values of the maps `seq_of_maps_into_csv_data` writes are modelled as `str`, `unicode`, integers or None (`MapsToCsv.ValueBytes`). `select` compares values of any kind, lists included, element by element. The reader produces a list only as DictReader's restkey value.
- `MapsToCsv.ValueBytes`: list and bool values are not modelled in the maps that are written, because their `str()` is a repr (`[1, 2]`, `True`), not the value's text. The `PyValue` type has no bool kind.
- `DataOps.Select`: values are compared with Python 2's `==` for the modelled kinds only.
- `DataOps.EnumLastPosition`: models the attributes of the class `enum` returns. The class object itself is not modelled: its empty name and its base. When two items are `==` but spelled differently (`'a'` and `u'a'`), the attribute keeps the first spelling. `EnumMixedSpellings` shows this for one input, but no lemma states it for all inputs.
- `Loggers.LoggerCache.SmartLogger`: only the empty string counts as a false tag; other false values (None, 0) are not modelled. Handlers are compared as values, not as objects.
- `MapsToCsv.OutputBuffer.Seek`: only seeking from the start is modelled, as the core uses it.
- `TableRoundTrip.RoundTrip`: the round trip is stated for tables of text with distinct, portable names and values. It excludes:
  - surrogate pairs, which the encoder joins;
  - a leading U+FEFF, which `utf_8_sig` drops;
  - NUL, and '\r' under a '\n' line separator;
  - behind a byte order mark, a first name that needs quoting, which the mark would break.

  Rows with missing keys come back with empty strings, not without the key. This is stated by `MapsToCsv.WrittenCells`, not as a round trip.

## Findings

| source | as written | input that shows it | evidently intended | confidence | as-written member | corrected member |
|---|---|---|---|---|---|---|
| kickshaws/core.py:277-279 | The values are encoded as UTF-8 before they reach the writer, but the field names are not. The C writer converts a unicode name with `str()`, which uses the ASCII codec. | `seq_of_maps_into_csv_data([{u'\xe9': u'1'}])` raises UnicodeEncodeError in `writeheader` | The field names are encoded as UTF-8, like the values, so that the table is written and the reader gets it back | not executed | MapsToCsv.NonAsciiNameRaises | TableRoundTrip.RoundTrip |
