/**
 * `into_unicode` (kickshaws/core.py): a raw `str` becomes `unicode` through
 * the first of four decoders that succeeds: `utf_8_sig`, `utf_16`,
 * `unicode_escape` (tried only when `re_unicode_escapes` finds a `\uXXXX`),
 * `cp1252`. When all four fail the cp1252 error escapes to the caller.
 */
module TextDecoding {
  import opened Wrappers
  import opened PyValues
  import Utf8
  import Utf16
  import UnicodeEscape
  import Cp1252

  /** `into_unicode(s)`. */
  function IntoUnicode(s: PyValue, names: UnicodeEscape.NameDb): (r: Result<Text, Error>)
    ensures !s.Str? <==> r == Failure(TypeError)
    ensures r.Failure? ==> r.error == TypeError || r.error == UnicodeDecodeError
  {
    if !s.Str? then Failure(TypeError)
    else
      var b := s.bytes;
      match Utf8.DecodeSig(b)
      case Some(t) => Success(t)
      case None =>
        match Utf16.Decode(b)
        case Some(t) => Success(t)
        case None =>
          var escaped := if UnicodeEscape.Search(b) then UnicodeEscape.Decode(b, names) else None;
          if escaped.Some? then Success(escaped.value)
          else match Cp1252.Decode(b)
            case Some(t) => Success(t)
            case None => Failure(UnicodeDecodeError)
  }

  /** The outcome of each stage on `b`, in the order `into_unicode` tries them;
      the escape stage counts as failed when the regular expression finds nothing. */
  function Stages(b: seq<Byte>, names: UnicodeEscape.NameDb): (r: seq<Option<Text>>)
    ensures |r| == 4
    ensures !UnicodeEscape.Search(b) ==> r[2].None?
  {
    [ Utf8.DecodeSig(b),
      Utf16.Decode(b),
      if UnicodeEscape.Search(b) then UnicodeEscape.Decode(b, names) else None,
      Cp1252.Decode(b) ]
  }

  /** The first success in a list of attempts. */
  function FirstSome(xs: seq<Option<Text>>): (r: Option<Text>)
    ensures r.Some? ==> exists k :: 0 <= k < |xs| && xs[k] == r && forall j :: 0 <= j < k ==> xs[j].None?
    ensures r.None? ==> forall j :: 0 <= j < |xs| ==> xs[j].None?
  {
    if xs == [] then None
    else if xs[0].Some? then xs[0]
    else
      var r := FirstSome(xs[1..]);
      assert forall j :: 1 <= j < |xs| ==> xs[j] == xs[1..][j - 1];
      r
  }

  /** A raw string decodes to the result of the first stage that succeeds, and
      fails with UnicodeDecodeError when none does. */
  lemma IntoUnicodeIsFirstSuccess(b: seq<Byte>, names: UnicodeEscape.NameDb)
    ensures IntoUnicode(Str(b), names) ==
      match FirstSome(Stages(b, names))
      case Some(t) => Success(t)
      case None => Failure(UnicodeDecodeError)
  {
    var xs := Stages(b, names);
    var x1, x2, x3 := xs[1], xs[2], xs[3];
    assert xs[1..] == [x1, x2, x3] && [x1, x2, x3][1..] == [x2, x3] && [x2, x3][1..] == [x3];
    assert FirstSome([x3]) == x3;
  }

  /** Valid UTF-8 from Python's encoder is always decoded by the first stage,
      with a leading BOM removed. */
  lemma Utf8DecodedFirst(t: Text, names: UnicodeEscape.NameDb)
    requires !Utf8.HasSurrogatePair(t)
    ensures IntoUnicode(Str(Utf8.Bom + Utf8.Encode(t)), names) == Success(t)
    ensures (t == [] || t[0] != 0xFEFF) ==> IntoUnicode(Str(Utf8.Encode(t)), names) == Success(t)
  {
    Utf8.DecodeSigWithBom(t);
    if t == [] || t[0] != 0xFEFF {
      Utf8.DecodeSigWithoutBom(t);
    }
  }

  /** All-ASCII input is valid UTF-8, so it comes back unchanged from the first
      stage: a literal `é` in ASCII input is never unescaped. */
  lemma AsciiIsLiteral(b: seq<Byte>, names: UnicodeEscape.NameDb)
    requires IsAscii(b)
    ensures IntoUnicode(Str(b), names) == Success(Latin1(b))
  {
    Utf8.DecodeAscii(b);
    if |b| >= 3 {
      assert b[..3][0] == b[0] < 0x80;
      assert b[..3] != Utf8.Bom;
    }
  }

  /** UTF-16 text marked with FF FE is decoded by the second stage: no UTF-8
      sequence starts with FF. */
  lemma Utf16DecodedSecond(t: Text, names: UnicodeEscape.NameDb)
    requires Utf16.NoSurrogates(t)
    ensures IntoUnicode(Str([0xFF, 0xFE] + Utf16.EncodeLE(t)), names) == Success(t)
  {
    var b := [0xFF, 0xFE] + Utf16.EncodeLE(t);
    assert Utf8.DecodeFirst(b) == None;
    assert Utf8.DecodeSig(b) == None;
    Utf16.DecodeWithBom(t);
  }

  /** Without a `\uXXXX` match, a raw string that neither UTF-8 nor UTF-16 can
      decode gets the cp1252 result, error included. */
  lemma NoEscapeMeansCp1252(b: seq<Byte>, names: UnicodeEscape.NameDb)
    requires Utf8.DecodeSig(b).None? && Utf16.Decode(b).None?
    requires forall i :: 0 <= i <= |b| ==> !UnicodeEscape.StartsWithEscape(b[i..])
    ensures IntoUnicode(Str(b), names) ==
      match Cp1252.Decode(b) case Some(t) => Success(t) case None => Failure(UnicodeDecodeError)
  {
  }

  /** `into_unicode` is not total: the single byte 0x81 is not UTF-8, is too
      short for UTF-16, holds no escape, and is undefined in cp1252. */
  lemma NotTotal(names: UnicodeEscape.NameDb)
    ensures IntoUnicode(Str([0x81]), names) == Failure(UnicodeDecodeError)
  {
    assert Utf8.DecodeFirst([0x81]) == None;
    assert [0x81][0] == 0x81;
  }

  /** `\u00e9` followed by the byte FF. */
  const EscapedSample: seq<Byte> := [0x5C, 0x75, 0x30, 0x30, 0x65, 0x39, 0xFF]

  lemma ExampleEscapeDecode(names: UnicodeEscape.NameDb)
    ensures UnicodeEscape.Decode(EscapedSample, names) == Some([0xE9, 0xFF])
  {
    var b := EscapedSample;
    var digits: seq<Byte> := [0x30, 0x30, 0x65, 0x39];
    assert b[2..][..4] == digits && b[2..][4..] == [0xFF];
    assert UnicodeEscape.HexValue(digits) == Some(0xE9) by {
      assert digits[..3] == [0x30, 0x30, 0x65];
      assert [0x30, 0x30, 0x65][..2] == [0x30, 0x30];
      assert [0x30, 0x30][..1] == [0x30];
      assert [0x30][..0] == [];
    }
    var last: seq<Byte> := [0xFF];
    var y: Text := [0xFF];
    assert last[1..] == [] && y + [] == y;
    assert UnicodeEscape.Decode(last, names) == Some(y);
    assert 'u' as Byte !in UnicodeEscape.SimpleEscapes;
    var r: Text := [0xE9, 0xFF];
    assert [0xE9 as CodePoint] + y == r;
    assert UnicodeEscape.Decode(b, names) == Some(r);
  }

  /** The sample is not UTF-8: FF never occurs in UTF-8. */
  lemma SampleNotUtf8()
    ensures Utf8.DecodeSig(EscapedSample) == None
  {
    var b := EscapedSample;
    var a, last: seq<Byte> := b[..6], [0xFF];
    assert b == a + last && IsAscii(a);
    assert Utf8.DecodeFirst(last) == None;
    Utf8.DecodeFailsAfterAscii(a, last);
    assert b[..3] != Utf8.Bom;
  }

  /** The sample is not UTF-16: its length is odd. */
  lemma SampleNotUtf16()
    ensures Utf16.Decode(EscapedSample) == None
  {
    assert |EscapedSample| % 2 == 1;
  }

  /** The regular expression finds the escape at the start of the sample. */
  lemma SampleHasEscape()
    ensures UnicodeEscape.Search(EscapedSample)
  {
    assert UnicodeEscape.StartsWithEscape(EscapedSample[0..]);
  }

  /** Input that only the escape stage can read: `\u00e9` followed by the byte
      FF is not UTF-8 (FF never is), has odd length, and contains an escape. */
  lemma EscapeStageExample(names: UnicodeEscape.NameDb)
    ensures IntoUnicode(Str(EscapedSample), names) == Success([0xE9, 0xFF])
  {
    SampleNotUtf8();
    SampleNotUtf16();
    SampleHasEscape();
    ExampleEscapeDecode(names);
  }
}
