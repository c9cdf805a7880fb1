/**
 * Python 2.7's `utf_16` codec (RFC 2781) as a decoder: a leading byte order
 * mark FF FE or FE FF picks the byte order and is dropped; without one the
 * host's order is used, taken here to be little-endian. Surrogate pairs are
 * joined into one code point; a lone or reversed surrogate, or a trailing odd
 * byte, makes the decode fail.
 */
module Utf16 {
  import opened Wrappers
  import opened PyValues

  datatype ByteOrder = LittleEndian | BigEndian

  /** The 16-bit code unit at byte offset `i`. */
  function UnitAt(b: seq<Byte>, i: nat, order: ByteOrder): (u: nat)
    requires i + 2 <= |b|
    ensures u < 0x1_0000
  {
    match order
    case LittleEndian => b[i + 1] as nat * 0x100 + b[i]
    case BigEndian => b[i] as nat * 0x100 + b[i + 1]
  }

  predicate IsSurrogate(c: int) { 0xD800 <= c < 0xE000 }

  predicate NoSurrogates(t: Text) {
    forall i :: 0 <= i < |t| ==> !IsSurrogate(t[i])
  }

  /** The code units of `b` in the given order; None where Python raises
      UnicodeDecodeError. Success needs an even length and leaves no surrogate
      in the text. */
  function DecodeUnits(b: seq<Byte>, order: ByteOrder): (r: Option<Text>)
    ensures r.Some? ==> |b| % 2 == 0 && NoSurrogates(r.value)
    decreases |b|
  {
    if b == [] then Some([])
    else if |b| < 2 then None                                  // truncated data
    else
      var u := UnitAt(b, 0, order);
      if !IsSurrogate(u) then
        match DecodeUnits(b[2..], order)
        case None => None
        case Some(t) => Some([u as CodePoint] + t)
      else if |b| < 4 then None                                // unexpected end of data
      else if u < 0xDC00 then
        var u2 := UnitAt(b, 2, order);
        if 0xDC00 <= u2 < 0xE000 then
          match DecodeUnits(b[4..], order)
          case None => None
          case Some(t) => Some([((u - 0xD800) * 0x400 + (u2 - 0xDC00) + 0x1_0000) as CodePoint] + t)
        else None                                              // illegal UTF-16 surrogate
      else None                                                // illegal encoding
  }

  /** `unicode(b, 'utf_16')`. */
  function Decode(b: seq<Byte>): (r: Option<Text>)
    ensures r.Some? ==> |b| % 2 == 0
  {
    if |b| >= 2 && (b[..2] == [0xFF, 0xFE] || b[..2] == [0xFE, 0xFF]) then
      var order := if b[0] == 0xFF then LittleEndian else BigEndian;
      var body := b[2..];
      assert |b| == |body| + 2;
      DecodeUnits(body, order)
    else DecodeUnits(b, LittleEndian)
  }

  /** The little-endian UTF-16 form of a text without surrogates (RFC 2781, section 2.1). */
  function EncodeLE(t: Text): (b: seq<Byte>)
    requires NoSurrogates(t)
    ensures |b| % 2 == 0 && 2 * |t| <= |b| <= 4 * |t|
  {
    if t == [] then []
    else
      var c := t[0];
      var units := if c < 0x1_0000 then [c]
                   else [0xD800 + (c - 0x1_0000) / 0x400, 0xDC00 + (c - 0x1_0000) % 0x400];
      LittleEndianBytes(units) + EncodeLE(t[1..])
  }

  function LittleEndianBytes(units: seq<nat>): (b: seq<Byte>)
    requires forall i :: 0 <= i < |units| ==> units[i] < 0x1_0000
    ensures |b| == 2 * |units|
  {
    if units == [] then []
    else [(units[0] % 0x100) as Byte, (units[0] / 0x100) as Byte] + LittleEndianBytes(units[1..])
  }

  lemma DecodeUnitsOne(c: CodePoint, rest: seq<Byte>)
    requires !IsSurrogate(c)
    ensures DecodeUnits(EncodeLE([c]) + rest, LittleEndian) ==
      match DecodeUnits(rest, LittleEndian) case None => None case Some(t) => Some([c] + t)
  {
    var b := EncodeLE([c]) + rest;
    if c < 0x1_0000 {
      assert [c][1..] == [] && EncodeLE([c]) == LittleEndianBytes([c]);
      assert b[0] == c % 0x100 && b[1] == c / 0x100 && b[2..] == rest;
      assert UnitAt(b, 0, LittleEndian) == c;
    } else {
      var v := c - 0x1_0000;
      var hi, lo := 0xD800 + v / 0x400, 0xDC00 + v % 0x400;
      assert [c][1..] == [] && EncodeLE([c]) == LittleEndianBytes([hi, lo]);
      assert LittleEndianBytes([hi, lo]) == [hi % 0x100, hi / 0x100] + LittleEndianBytes([lo]);
      assert b[0] == hi % 0x100 && b[1] == hi / 0x100 && b[2] == lo % 0x100 && b[3] == lo / 0x100;
      assert b[4..] == rest;
      assert UnitAt(b, 0, LittleEndian) == hi && UnitAt(b, 2, LittleEndian) == lo;
      assert (hi - 0xD800) * 0x400 + (lo - 0xDC00) + 0x1_0000 == c;
    }
  }

  /** Round trip: text without surrogates is read back from its little-endian form. */
  lemma {:induction false} DecodeUnitsEncodeLE(t: Text)
    requires NoSurrogates(t)
    ensures DecodeUnits(EncodeLE(t), LittleEndian) == Some(t)
  {
    if t != [] {
      assert EncodeLE(t) == EncodeLE([t[0]]) + EncodeLE(t[1..]);
      DecodeUnitsOne(t[0], EncodeLE(t[1..]));
      DecodeUnitsEncodeLE(t[1..]);
      assert [t[0]] + t[1..] == t;
    }
  }

  /** With the FF FE mark in front, `utf_16` reads the text back. */
  lemma DecodeWithBom(t: Text)
    requires NoSurrogates(t)
    ensures Decode([0xFF, 0xFE] + EncodeLE(t)) == Some(t)
  {
    DecodeUnitsEncodeLE(t);
    assert ([0xFF, 0xFE] + EncodeLE(t))[2..] == EncodeLE(t);
  }
}
