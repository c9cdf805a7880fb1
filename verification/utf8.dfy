/**
 * Python 2.7's `utf_8` and `utf_8_sig` codecs. Well-formedness follows
 * RFC 3629 (no overlong forms, nothing above U+10FFFF) except that, as in
 * Python 2.7, the three-byte forms of the surrogates U+D800..U+DFFF are
 * accepted by the decoder and produced by the encoder.
 */
module Utf8 {
  import opened Wrappers
  import opened PyValues

  /** The byte order mark EF BB BF (section 6 of RFC 3629). */
  const Bom: seq<Byte> := [0xEF, 0xBB, 0xBF]

  predicate IsContinuation(x: Byte) { 0x80 <= x < 0xC0 }

  predicate IsHighSurrogate(c: CodePoint) { 0xD800 <= c < 0xDC00 }
  predicate IsLowSurrogate(c: CodePoint) { 0xDC00 <= c < 0xE000 }

  /** The bytes of one code point, shortest form. */
  function EncodePoint(c: CodePoint): (b: seq<Byte>)
    ensures 1 <= |b| <= 4
  {
    if c < 0x80 then [c]
    else if c < 0x800 then [0xC0 + c / 0x40, 0x80 + c % 0x40]
    else if c < 0x1_0000 then [0xE0 + c / 0x1000, 0x80 + (c / 0x40) % 0x40, 0x80 + c % 0x40]
    else [0xF0 + c / 0x4_0000, 0x80 + (c / 0x1000) % 0x40, 0x80 + (c / 0x40) % 0x40, 0x80 + c % 0x40]
  }

  /** Every code point encoded on its own: the exact inverse of `Decode`. */
  function EncodeEach(t: Text): seq<Byte>
  {
    if t == [] then [] else EncodePoint(t[0]) + EncodeEach(t[1..])
  }

  /** The code point that a high and a low surrogate stand for together. */
  function Combine(hi: CodePoint, lo: CodePoint): (c: CodePoint)
    requires IsHighSurrogate(hi) && IsLowSurrogate(lo)
    ensures 0x1_0000 <= c
  {
    (hi - 0xD800) * 0x400 + (lo - 0xDC00) + 0x1_0000
  }

  predicate HasSurrogatePair(t: Text) {
    exists i :: 0 <= i < |t| - 1 && IsHighSurrogate(t[i]) && IsLowSurrogate(t[i + 1])
  }

  /** `unicode.encode('utf_8')`: a high surrogate directly followed by a low
      one is written as the four-byte form of the code point they stand for. */
  function Encode(t: Text): (b: seq<Byte>)
    ensures |t| <= |b| <= 4 * |t|
  {
    if t == [] then []
    else if |t| >= 2 && IsHighSurrogate(t[0]) && IsLowSurrogate(t[1]) then
      EncodePoint(Combine(t[0], t[1])) + Encode(t[2..])
    else EncodePoint(t[0]) + Encode(t[1..])
  }

  lemma EncodeTwo(x: Byte, y: Byte)
    requires 0xC2 <= x < 0xE0 && IsContinuation(y)
    ensures var c := (x as int - 0xC0) * 0x40 + (y as int - 0x80);
      0 <= c < 0x11_0000 && EncodePoint(c as CodePoint) == [x, y]
  {
  }

  lemma EncodeThree(x: Byte, y: Byte, z: Byte)
    requires 0xE0 <= x < 0xF0 && IsContinuation(y) && IsContinuation(z) && (x != 0xE0 || y >= 0xA0)
    ensures var c := (x as int - 0xE0) * 0x1000 + (y as int - 0x80) * 0x40 + (z as int - 0x80);
      0 <= c < 0x11_0000 && EncodePoint(c as CodePoint) == [x, y, z]
  {
    var a, b, d := x as int - 0xE0, y as int - 0x80, z as int - 0x80;
    var c := a * 0x1000 + b * 0x40 + d;
    assert 0x800 <= c < 0x1_0000;
    assert c / 0x40 == a * 0x40 + b && c % 0x40 == d;
    assert (a * 0x40 + b) % 0x40 == b;
    assert c / 0x1000 == a;
  }

  lemma EncodeFour(w: Byte, x: Byte, y: Byte, z: Byte)
    requires 0xF0 <= w < 0xF5 && IsContinuation(x) && IsContinuation(y) && IsContinuation(z)
    requires (w != 0xF0 || x >= 0x90) && (w != 0xF4 || x < 0x90)
    ensures var c := (w as int - 0xF0) * 0x4_0000 + (x as int - 0x80) * 0x1000 + (y as int - 0x80) * 0x40 + (z as int - 0x80);
      0 <= c < 0x11_0000 && EncodePoint(c as CodePoint) == [w, x, y, z]
  {
    var a, b, d, e := w as int - 0xF0, x as int - 0x80, y as int - 0x80, z as int - 0x80;
    var c := a * 0x4_0000 + b * 0x1000 + d * 0x40 + e;
    assert c / 0x40 == a * 0x1000 + b * 0x40 + d && c % 0x40 == e;
    assert (a * 0x1000 + b * 0x40 + d) % 0x40 == d;
    assert c / 0x1000 == a * 0x40 + b && (a * 0x40 + b) % 0x40 == b;
    assert c / 0x4_0000 == a;
  }

  /** The first code point of `b` and how many bytes it takes, or None if
      `b` does not start with a well-formed sequence. */
  function DecodeFirst(b: seq<Byte>): (r: Option<(CodePoint, nat)>)
    requires |b| > 0
    ensures r.Some? ==> 1 <= r.value.1 <= |b| && b[..r.value.1] == EncodePoint(r.value.0)
  {
    var b0: int := b[0];
    if b0 < 0x80 then Some((b0 as CodePoint, 1))
    else if b0 < 0xC2 then None
    else if b0 < 0xE0 then
      if |b| >= 2 && IsContinuation(b[1]) then
        var c: int := (b0 - 0xC0) * 0x40 + (b[1] as int - 0x80);
        EncodeTwo(b[0], b[1]);
        assert b[..2] == [b[0], b[1]];
        Some((c as CodePoint, 2))
      else None
    else if b0 < 0xF0 then
      if |b| >= 3 && IsContinuation(b[1]) && IsContinuation(b[2]) && (b0 != 0xE0 || b[1] >= 0xA0) then
        var c: int := (b0 - 0xE0) * 0x1000 + (b[1] as int - 0x80) * 0x40 + (b[2] as int - 0x80);
        EncodeThree(b[0], b[1], b[2]);
        assert b[..3] == [b[0], b[1], b[2]];
        Some((c as CodePoint, 3))
      else None
    else if b0 < 0xF5 then
      if && |b| >= 4 && IsContinuation(b[1]) && IsContinuation(b[2]) && IsContinuation(b[3])
         && (b0 != 0xF0 || b[1] >= 0x90) && (b0 != 0xF4 || b[1] < 0x90)
      then
        var c: int := (b0 - 0xF0) * 0x4_0000 + (b[1] as int - 0x80) * 0x1000 + (b[2] as int - 0x80) * 0x40 + (b[3] as int - 0x80);
        EncodeFour(b[0], b[1], b[2], b[3]);
        assert b[..4] == [b[0], b[1], b[2], b[3]];
        Some((c as CodePoint, 4))
      else None
    else None
  }

  /** `unicode(b, 'utf_8')`: None where Python raises UnicodeDecodeError. */
  function Decode(b: seq<Byte>): (r: Option<Text>)
    ensures r.Some? ==> EncodeEach(r.value) == b
    decreases |b|
  {
    if b == [] then Some([])
    else match DecodeFirst(b)
      case None => None
      case Some((c, n)) =>
        match Decode(b[n..])
        case None => None
        case Some(t) =>
          assert b == b[..n] + b[n..];
          assert ([c] + t)[1..] == t;
          Some([c] + t)
  }

  /** `unicode(b, 'utf_8_sig')`: one leading BOM is dropped, if there is one. */
  function DecodeSig(b: seq<Byte>): (r: Option<Text>)
    ensures r.Some? ==> b == EncodeEach(r.value) || b == Bom + EncodeEach(r.value)
    ensures Decode(b).Some? && !(|b| >= 3 && b[..3] == Bom) ==> r == Decode(b)
  {
    if |b| >= 3 && b[..3] == Bom then Decode(b[3..]) else Decode(b)
  }

  lemma DecodeFirstTwo(c: CodePoint, rest: seq<Byte>)
    requires 0x80 <= c < 0x800
    ensures DecodeFirst(EncodePoint(c) + rest) == Some((c, 2))
  {
    var b := EncodePoint(c) + rest;
    var x, y := 0xC0 + c / 0x40, 0x80 + c % 0x40;
    assert b[0] == x && b[1] == y;
    assert 0xC2 <= x < 0xE0 && IsContinuation(y);
    assert (x - 0xC0) * 0x40 + (y - 0x80) == c;
  }

  lemma DecodeFirstThree(c: CodePoint, rest: seq<Byte>)
    requires 0x800 <= c < 0x1_0000
    ensures DecodeFirst(EncodePoint(c) + rest) == Some((c, 3))
  {
    var b := EncodePoint(c) + rest;
    var x, y, z := 0xE0 + c / 0x1000, 0x80 + (c / 0x40) % 0x40, 0x80 + c % 0x40;
    assert b[0] == x && b[1] == y && b[2] == z;
    assert 0xE0 <= x < 0xF0 && IsContinuation(y) && IsContinuation(z) && (x != 0xE0 || y >= 0xA0);
    assert (x - 0xE0) * 0x1000 + (y - 0x80) * 0x40 + (z - 0x80) == c;
  }

  /** The four base-64 digits of a supplementary code point, with the bounds
      that make its four-byte form well formed. */
  lemma SplitFour(c: int)
    requires 0x1_0000 <= c < 0x11_0000
    ensures var a, b, d, e := c / 0x4_0000, (c / 0x1000) % 0x40, (c / 0x40) % 0x40, c % 0x40;
      && a * 0x4_0000 + b * 0x1000 + d * 0x40 + e == c
      && 0 <= a <= 4 && (a != 0 || b >= 0x10) && (a != 4 || b < 0x10)
  {
    var a, m := c / 0x4_0000, c % 0x4_0000;
    var b, n := m / 0x1000, m % 0x1000;
    var d, e := n / 0x40, n % 0x40;
    assert c == a * 0x4_0000 + m && m == b * 0x1000 + n && n == d * 0x40 + e;
    assert c / 0x1000 == a * 0x40 + b;
    assert (a * 0x40 + b) % 0x40 == b;
    assert c / 0x40 == a * 0x1000 + b * 0x40 + d;
    assert (a * 0x1000 + b * 0x40 + d) % 0x40 == d;
    assert c % 0x40 == e;
  }

  lemma DecodeFirstFour(c: CodePoint, rest: seq<Byte>)
    requires 0x1_0000 <= c
    ensures DecodeFirst(EncodePoint(c) + rest) == Some((c, 4))
  {
    var b := EncodePoint(c) + rest;
    SplitFour(c);
    var w, x := 0xF0 + c / 0x4_0000, 0x80 + (c / 0x1000) % 0x40;
    var y, z := 0x80 + (c / 0x40) % 0x40, 0x80 + c % 0x40;
    assert EncodePoint(c) == [w, x, y, z];
    assert b[0] == w && b[1] == x && b[2] == y && b[3] == z;
    assert 0xF0 <= w < 0xF5 && (w != 0xF0 || x >= 0x90) && (w != 0xF4 || x < 0x90);
    assert IsContinuation(x) && IsContinuation(y) && IsContinuation(z);
  }

  /** Decoding the encoding of one code point reads back exactly that code point. */
  lemma DecodeFirstEncodePoint(c: CodePoint, rest: seq<Byte>)
    ensures DecodeFirst(EncodePoint(c) + rest) == Some((c, |EncodePoint(c)|))
  {
    if c < 0x80 {
    } else if c < 0x800 {
      DecodeFirstTwo(c, rest);
    } else if c < 0x1_0000 {
      DecodeFirstThree(c, rest);
    } else {
      DecodeFirstFour(c, rest);
    }
  }

  /** Round trip: every text, lone surrogates included, is read back from its
      code-point-by-code-point encoding. */
  lemma {:induction false} DecodeEncodeEach(t: Text)
    ensures Decode(EncodeEach(t)) == Some(t)
  {
    if t != [] {
      var b := EncodeEach(t);
      var head, rest := EncodePoint(t[0]), EncodeEach(t[1..]);
      assert b == head + rest;
      DecodeFirstEncodePoint(t[0], rest);
      assert b[|head|..] == rest;
      DecodeEncodeEach(t[1..]);
      assert Decode(b) == Some([t[0]] + t[1..]);
      assert [t[0]] + t[1..] == t;
    }
  }

  /** Without a surrogate pair to merge, Python's encoder writes every code point on its own. */
  lemma {:induction false} EncodeWithoutPairs(t: Text)
    requires !HasSurrogatePair(t)
    ensures Encode(t) == EncodeEach(t)
  {
    if t != [] {
      assert !HasSurrogatePair(t[1..]) by {
        forall i | 0 <= i < |t[1..]| - 1
          ensures !(IsHighSurrogate(t[1..][i]) && IsLowSurrogate(t[1..][i + 1]))
        {
          assert t[1..][i] == t[i + 1] && t[1..][i + 1] == t[i + 2];
        }
      }
      EncodeWithoutPairs(t[1..]);
    }
  }

  lemma DecodeFirstBom(b: seq<Byte>)
    requires |b| >= 3 && b[..3] == Bom
    ensures DecodeFirst(b) == Some((0xFEFF, 3))
  {
    assert b[0] == 0xEF && b[1] == 0xBB && b[2] == 0xBF;
    assert IsContinuation(b[1]) && IsContinuation(b[2]);
  }

  /** Encoded text starts with the BOM bytes only if it starts with U+FEFF. */
  lemma EncodedBomPrefix(t: Text)
    requires |EncodeEach(t)| >= 3 && EncodeEach(t)[..3] == Bom
    ensures t != [] && t[0] == 0xFEFF
  {
    var b := EncodeEach(t);
    assert t != [];
    var rest := EncodeEach(t[1..]);
    assert b == EncodePoint(t[0]) + rest;
    DecodeFirstEncodePoint(t[0], rest);
    DecodeFirstBom(b);
  }

  /** Text that Python encodes to UTF-8 is read back by `utf_8_sig` when a BOM
      is put in front of it. */
  lemma DecodeSigWithBom(t: Text)
    requires !HasSurrogatePair(t)
    ensures DecodeSig(Bom + Encode(t)) == Some(t)
  {
    EncodeWithoutPairs(t);
    DecodeEncodeEach(t);
    var b := Encode(t);
    assert (Bom + b)[..3] == Bom && (Bom + b)[3..] == b;
  }

  /** Without a BOM in front, it is read back unless the text itself begins
      with U+FEFF, which `utf_8_sig` takes for a BOM and drops. */
  lemma DecodeSigWithoutBom(t: Text)
    requires !HasSurrogatePair(t)
    requires t == [] || t[0] != 0xFEFF
    ensures DecodeSig(Encode(t)) == Some(t)
  {
    EncodeWithoutPairs(t);
    DecodeEncodeEach(t);
    if |Encode(t)| >= 3 && Encode(t)[..3] == Bom {
      EncodedBomPrefix(t);
    }
  }

  /** An all-ASCII byte string is valid UTF-8 and decodes to the same code points. */
  lemma {:induction false} DecodeAscii(b: seq<Byte>)
    requires IsAscii(b)
    ensures Decode(b) == Some(Latin1(b))
  {
    if b != [] {
      assert DecodeFirst(b) == Some((b[0] as CodePoint, 1));
      DecodeAscii(b[1..]);
      assert Latin1(b) == [b[0] as CodePoint] + Latin1(b[1..]);
    }
  }

  /** Bytes that fail to decode still fail behind an ASCII prefix. */
  lemma {:induction false} DecodeFailsAfterAscii(a: seq<Byte>, rest: seq<Byte>)
    requires IsAscii(a) && Decode(rest).None?
    ensures Decode(a + rest).None?
  {
    if a == [] {
      assert a + rest == rest;
    } else {
      var b := a + rest;
      assert b[0] == a[0] < 0x80;
      assert DecodeFirst(b) == Some((a[0] as CodePoint, 1));
      assert b[1..] == a[1..] + rest;
      assert IsAscii(a[1..]);
      DecodeFailsAfterAscii(a[1..], rest);
    }
  }

  /** ASCII bytes are their own UTF-8 encoding. */
  lemma {:induction false} EncodeLatin1Ascii(b: seq<Byte>)
    requires IsAscii(b)
    ensures Encode(Latin1(b)) == b
    decreases |b|
  {
    if b != [] {
      var t := Latin1(b);
      assert t[0] == b[0] < 0x80;
      assert t[1..] == Latin1(b[1..]);
      EncodeLatin1Ascii(b[1..]);
      assert [b[0]] + b[1..] == b;
    }
  }

  /** A byte below 0x80 in an encoding comes from that very code point in the text. */
  lemma {:induction false} EncodedAsciiByte(t: Text, i: nat)
    requires i < |EncodeEach(t)| && EncodeEach(t)[i] < 0x80
    ensures exists j :: 0 <= j < |t| && t[j] == EncodeEach(t)[i]
    decreases |t|
  {
    var head := EncodePoint(t[0]);
    assert EncodeEach(t) == head + EncodeEach(t[1..]);
    if i < |head| {
      assert EncodeEach(t)[i] == head[i];
      assert head == [t[0]];
    } else {
      assert EncodeEach(t)[i] == EncodeEach(t[1..])[i - |head|];
      EncodedAsciiByte(t[1..], i - |head|);
      var j :| 0 <= j < |t[1..]| && t[1..][j] == EncodeEach(t)[i];
      assert t[j + 1] == EncodeEach(t)[i];
    }
  }
}
