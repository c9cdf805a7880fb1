/**
 * The `unicode_escape` stage of `into_unicode`: the regular expression
 * `re_unicode_escapes` that gates it, and Python 2.7's `unicode_escape`
 * decoder. Bytes other than a backslash stand for the code point of the same
 * number; a backslash starts one of Python's string-literal escapes.
 */
module UnicodeEscape {
  import opened Wrappers
  import opened PyValues

  const Backslash: Byte := 0x5C

  /** Character names known to Python's `unicodedata` database, used by the
      `\N{name}` escape; the database itself is not part of this model. */
  type NameDb = map<seq<Byte>, CodePoint>

  /** The value of an ASCII hexadecimal digit. */
  function HexDigit(x: Byte): (r: Option<nat>)
    ensures r.Some? ==> r.value < 16
  {
    if '0' as Byte <= x <= '9' as Byte then Some(x - '0' as Byte)
    else if 'a' as Byte <= x <= 'f' as Byte then Some(x - 'a' as Byte + 10)
    else if 'A' as Byte <= x <= 'F' as Byte then Some(x - 'A' as Byte + 10)
    else None
  }

  predicate IsHexDigit(x: Byte) { HexDigit(x).Some? }

  /** `\\u[0-9A-Fa-f]{4}` matches at the start of `s`. */
  predicate StartsWithEscape(s: seq<Byte>) {
    && |s| >= 6 && s[0] == Backslash && s[1] == 'u' as Byte
    && IsHexDigit(s[2]) && IsHexDigit(s[3]) && IsHexDigit(s[4]) && IsHexDigit(s[5])
  }

  /** `re.search(re_unicode_escapes, s)` succeeds: the pattern matches at some offset. */
  function Search(s: seq<Byte>): (found: bool)
    ensures found <==> exists i :: 0 <= i <= |s| && StartsWithEscape(s[i..])
    decreases |s|
  {
    if |s| < 6 then
      assert forall i :: 0 <= i <= |s| ==> !StartsWithEscape(s[i..]);
      false
    else if StartsWithEscape(s) then
      assert s[0..] == s;
      true
    else
      var r := Search(s[1..]);
      assert forall i :: 1 <= i <= |s| ==> s[i..] == s[1..][i - 1..];
      assert r ==> exists i :: 1 <= i <= |s| && StartsWithEscape(s[i..]);
      r
  }

  /** The value of a run of hexadecimal digits, or None if one is not a digit. */
  function HexValue(s: seq<Byte>): Option<nat>
  {
    if s == [] then Some(0)
    else match (HexValue(s[..|s| - 1]), HexDigit(s[|s| - 1]))
      case (Some(v), Some(d)) => Some(v * 16 + d)
      case _ => None
  }

  predicate IsOctalDigit(x: Byte) { '0' as Byte <= x <= '7' as Byte }

  /** How many of the (at most two) bytes after an octal escape's first digit
      continue it. */
  function OctalTail(s: seq<Byte>): (n: nat)
    ensures n <= 2 && n <= |s|
  {
    if |s| >= 1 && IsOctalDigit(s[0]) then
      if |s| >= 2 && IsOctalDigit(s[1]) then 2 else 1
    else 0
  }

  /** The value of at most three octal digits: below 0o1000. */
  function OctalValue(s: seq<Byte>): (v: nat)
    requires |s| <= 3 && forall i :: 0 <= i < |s| ==> IsOctalDigit(s[i])
    ensures v < if |s| == 0 then 1 else if |s| == 1 then 8 else if |s| == 2 then 64 else 512
  {
    if s == [] then 0
    else
      var d := s[|s| - 1];
      assert IsOctalDigit(d);
      OctalValue(s[..|s| - 1]) * 8 + (d as int - '0' as int)
  }

  /** The one-character escapes `\\ \' \" \b \f \t \n \r \v \a`. */
  const SimpleEscapes: map<Byte, CodePoint> := map[
    '\\' as Byte := 0x5C, '\'' as Byte := 0x27, '"' as Byte := 0x22,
    'b' as Byte := 0x08, 'f' as Byte := 0x0C, 't' as Byte := 0x09,
    'n' as Byte := 0x0A, 'r' as Byte := 0x0D, 'v' as Byte := 0x0B, 'a' as Byte := 0x07]

  /** The offset of the first `x` in `s`. */
  function IndexOf(s: seq<Byte>, x: Byte): (r: Option<nat>)
    ensures r.Some? ==> r.value < |s| && s[r.value] == x && x !in s[..r.value]
    ensures r.None? ==> x !in s
  {
    if s == [] then None
    else if s[0] == x then Some(0)
    else match IndexOf(s[1..], x)
      case None => None
      case Some(k) =>
        assert s[..k + 1] == [s[0]] + s[1..][..k];
        Some(k + 1)
  }

  /** The `{name}` after `\N`: the code point it names and how many bytes it
      takes, or None for a malformed escape or an unknown name. */
  function NamedEscape(s: seq<Byte>, names: NameDb): (r: Option<(CodePoint, nat)>)
    ensures r.Some? ==> r.value.1 <= |s|
  {
    if |s| == 0 || s[0] != '{' as Byte then None
    else match IndexOf(s, '}' as Byte)
      case None => None
      case Some(k) =>
        if k > 1 && s[1..k] in names then Some((names[s[1..k]], k + 1)) else None
  }

  function Prepend(prefix: Text, r: Option<Text>): Option<Text> {
    match r
    case None => None
    case Some(t) => Some(prefix + t)
  }

  /** `s.decode('unicode_escape')`: None where Python raises UnicodeDecodeError. */
  function Decode(s: seq<Byte>, names: NameDb): (r: Option<Text>)
    ensures r.Some? ==> |r.value| <= |s|
    decreases |s|
  {
    if s == [] then Some([])
    else if s[0] != Backslash then Prepend([s[0] as CodePoint], Decode(s[1..], names))
    else if |s| == 1 then None                                   // \ at end of string
    else
      var c, rest := s[1], s[2..];
      if c == '\n' as Byte then Decode(rest, names)              // line continuation
      else if c in SimpleEscapes then Prepend([SimpleEscapes[c]], Decode(rest, names))
      else if IsOctalDigit(c) then
        var n := OctalTail(rest);
        Prepend([OctalValue(s[1..2 + n]) as CodePoint], Decode(rest[n..], names))
      else if c == 'x' as Byte || c == 'u' as Byte || c == 'U' as Byte then
        var digits := if c == 'x' as Byte then 2 else if c == 'u' as Byte then 4 else 8;
        if |rest| < digits then None                             // end of string in escape sequence
        else match HexValue(rest[..digits])
          case None => None                                      // truncated escape
          case Some(v) =>
            if v < 0x11_0000 then Prepend([v as CodePoint], Decode(rest[digits..], names))
            else None                                            // illegal Unicode character
      else if c == 'N' as Byte then
        match NamedEscape(rest, names)
        case None => None
        case Some((cp, n)) => Prepend([cp], Decode(rest[n..], names))
      else Prepend([0x5C, c as CodePoint], Decode(rest, names))  // not an escape: kept as is
  }

  /** Without a backslash the decoder reads bytes as Latin-1. */
  lemma {:induction false} DecodeWithoutBackslash(s: seq<Byte>, names: NameDb)
    requires Backslash !in s
    ensures Decode(s, names) == Some(Latin1(s))
  {
    if s != [] {
      DecodeWithoutBackslash(s[1..], names);
      assert Latin1(s) == [s[0] as CodePoint] + Latin1(s[1..]);
    }
  }

  // ---------------------------------------------------------------------
  // The encoder the decoder inverts

  /** A lower-case hexadecimal digit, as Python writes them. */
  function HexChar(d: nat): (x: Byte)
    requires d < 16
    ensures x < 0x80 && HexDigit(x) == Some(d)
  {
    if d < 10 then '0' as Byte + d else 'a' as Byte + (d - 10)
  }

  function Pow16(n: nat): nat
  {
    if n == 0 then 1 else 16 * Pow16(n - 1)
  }

  /** The last `n` hexadecimal digits of `v`, most significant first. */
  function HexDigits(v: nat, n: nat): (s: seq<Byte>)
    ensures |s| == n && IsAscii(s)
  {
    if n == 0 then [] else HexDigits(v / 16, n - 1) + [HexChar(v % 16)]
  }

  /** Digits written for a value that fits read back as that value. */
  lemma {:induction false} HexValueOfDigits(v: nat, n: nat)
    requires v < Pow16(n)
    ensures HexValue(HexDigits(v, n)) == Some(v)
  {
    if n > 0 {
      assert v / 16 < Pow16(n - 1);
      HexValueOfDigits(v / 16, n - 1);
      var s := HexDigits(v, n);
      assert s[..|s| - 1] == HexDigits(v / 16, n - 1);
    }
  }

  /** `unicode.encode('unicode_escape')` of one code point in Python 2.7 (wide
      build): a backslash doubled; tab, line feed and carriage return as
      `\t \n \r`; other control characters and 0x7F-0xFF as `\xhh`; code
      points from 0x100 as `\uhhhh` and beyond 0xFFFF as `\Uhhhhhhhh`;
      printable ASCII as itself. */
  function EscapePoint(c: CodePoint): (s: seq<Byte>)
    ensures IsAscii(s)
  {
    if c == 0x5C then [Backslash, Backslash]
    else if c >= 0x1_0000 then [Backslash, 'U' as Byte] + HexDigits(c, 8)
    else if c >= 0x100 then [Backslash, 'u' as Byte] + HexDigits(c, 4)
    else if c == 0x09 then [Backslash, 't' as Byte]
    else if c == 0x0A then [Backslash, 'n' as Byte]
    else if c == 0x0D then [Backslash, 'r' as Byte]
    else if c < 0x20 || c >= 0x7F then [Backslash, 'x' as Byte] + HexDigits(c, 2)
    else [c as Byte]
  }

  /** `unicode.encode('unicode_escape')`: every code point escaped in turn;
      the result is plain ASCII. */
  function Escape(t: Text): (s: seq<Byte>)
    ensures IsAscii(s)
    decreases |t|
  {
    if t == [] then [] else EscapePoint(t[0]) + Escape(t[1..])
  }

  /** A `\xhh`, `\uhhhh` or `\Uhhhhhhhh` escape of `c` in front of `rest`. */
  lemma DecodeHexEscape(c: CodePoint, letter: Byte, n: nat, rest: seq<Byte>, names: NameDb)
    requires (letter, n) in {('x' as Byte, 2), ('u' as Byte, 4), ('U' as Byte, 8)}
    requires c < Pow16(n)
    ensures Decode([Backslash, letter] + HexDigits(c, n) + rest, names) == Prepend([c], Decode(rest, names))
  {
    var s := [Backslash, letter] + HexDigits(c, n) + rest;
    HexValueOfDigits(c, n);
    assert s[1] == letter && s[2..] == HexDigits(c, n) + rest;
    assert s[2..][..n] == HexDigits(c, n) && s[2..][n..] == rest;
  }

  /** The decoder reads one escaped code point back. */
  lemma DecodeEscapePoint(c: CodePoint, rest: seq<Byte>, names: NameDb)
    ensures Decode(EscapePoint(c) + rest, names) == Prepend([c], Decode(rest, names))
  {
    var s := EscapePoint(c) + rest;
    if c == 0x5C {
      assert s[1] == Backslash && s[2..] == rest;
    } else if c >= 0x1_0000 {
      assert Pow16(8) == 0x1_0000_0000;
      DecodeHexEscape(c, 'U' as Byte, 8, rest, names);
    } else if c >= 0x100 {
      assert Pow16(4) == 0x1_0000;
      DecodeHexEscape(c, 'u' as Byte, 4, rest, names);
    } else if c == 0x09 || c == 0x0A || c == 0x0D {
      assert s[2..] == rest;
    } else if c < 0x20 || c >= 0x7F {
      assert Pow16(2) == 0x100;
      DecodeHexEscape(c, 'x' as Byte, 2, rest, names);
    } else {
      assert s[1..] == rest;
    }
  }

  /** Round trip: decoding `unicode_escape` output gives back the text,
      whatever the text and whatever names the database knows. */
  lemma {:induction false} DecodeEscape(t: Text, names: NameDb)
    ensures Decode(Escape(t), names) == Some(t)
    decreases |t|
  {
    if t != [] {
      DecodeEscape(t[1..], names);
      DecodeEscapePoint(t[0], Escape(t[1..]), names);
      assert [t[0]] + t[1..] == t;
    }
  }
}
