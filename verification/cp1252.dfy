/**
 * Python's `cp1252` codec as a decoder. Bytes below 0x80 and from 0xA0 up
 * stand for the code point of the same number (as in Latin-1); 0x80..0x9F
 * go through Windows-1252's table, in which five bytes have no character and
 * make Python raise UnicodeDecodeError.
 */
module Cp1252 {
  import opened Wrappers
  import opened PyValues

  /** The bytes Python's `cp1252` table leaves undefined. */
  const Undefined: set<Byte> := {0x81, 0x8D, 0x8F, 0x90, 0x9D}

  /** The characters of bytes 0x80..0x9F. */
  const HighRow: seq<Option<CodePoint>> := [
    Some(0x20AC), None,         Some(0x201A), Some(0x0192), Some(0x201E), Some(0x2026), Some(0x2020), Some(0x2021),
    Some(0x02C6), Some(0x2030), Some(0x0160), Some(0x2039), Some(0x0152), None,         Some(0x017D), None,
    None,         Some(0x2018), Some(0x2019), Some(0x201C), Some(0x201D), Some(0x2022), Some(0x2013), Some(0x2014),
    Some(0x02DC), Some(0x2122), Some(0x0161), Some(0x203A), Some(0x0153), None,         Some(0x017E), Some(0x0178)
  ]

  function DecodeByte(x: Byte): (r: Option<CodePoint>)
    ensures r.None? <==> x in Undefined
    ensures (x < 0x80 || 0xA0 <= x) ==> r == Some(x as CodePoint)
  {
    if x < 0x80 || 0xA0 <= x then Some(x as CodePoint) else HighRow[x - 0x80]
  }

  /** `unicode(b, 'cp1252')`: fails exactly when an undefined byte occurs, and
      otherwise maps the bytes one to one. */
  function Decode(b: seq<Byte>): (r: Option<Text>)
    ensures r.Some? <==> forall i :: 0 <= i < |b| ==> b[i] !in Undefined
    ensures r.Some? ==> |r.value| == |b| && forall i :: 0 <= i < |b| ==> Some(r.value[i]) == DecodeByte(b[i])
  {
    if b == [] then Some([])
    else match (DecodeByte(b[0]), Decode(b[1..]))
      case (Some(c), Some(t)) =>
        assert forall i :: 1 <= i < |b| ==> b[i] == b[1..][i - 1];
        Some([c] + t)
      case (None, _) => None
      case (_, None) =>
        assert exists i :: 0 <= i < |b[1..]| && b[1..][i] in Undefined;
        None
  }

  /** Byte strings outside 0x80..0x9F read as Latin-1. */
  lemma DecodeLatin1(b: seq<Byte>)
    requires forall i :: 0 <= i < |b| ==> b[i] < 0x80 || 0xA0 <= b[i]
    ensures Decode(b) == Some(Latin1(b))
  {
    var r := Decode(b);
    assert r.Some?;
    assert forall i :: 0 <= i < |b| ==> DecodeByte(b[i]) == Some(b[i] as CodePoint);
    assert r.value == Latin1(b);
  }
}
