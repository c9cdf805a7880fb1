/**
 * `fix_nbsp`: a unicode string with every no-break space (U+00A0) turned into
 * an ordinary space (U+0020); anything but a `unicode` is refused.
 */
module Strings {
  import opened Wrappers
  import opened PyValues

  const NoBreakSpace: CodePoint := 0xA0
  const Space: CodePoint := 0x20

  /** `t.replace(from, to)` for one-character patterns: every occurrence of
      `from`, scanned left to right, is replaced by `to`. */
  function ReplaceChar(t: Text, from: CodePoint, to: CodePoint): (r: Text)
    ensures |r| == |t|
    ensures forall i :: 0 <= i < |t| ==> r[i] == (if t[i] == from then to else t[i])
    decreases |t|
  {
    if t == [] then []
    else [if t[0] == from then to else t[0]] + ReplaceChar(t[1..], from, to)
  }

  /** `fix_nbsp(us)`. */
  function FixNbsp(us: PyValue): (r: Result<Text, Error>)
    ensures r.Failure? <==> !us.Unicode?
    ensures r.Failure? ==> r.error == TypeError
    ensures r.Success? ==> |r.value| == |us.text|
    ensures r.Success? ==> forall i :: 0 <= i < |r.value| ==> r.value[i] != NoBreakSpace
    ensures r.Success? ==> forall i :: 0 <= i < |us.text| && us.text[i] != NoBreakSpace ==>
      r.value[i] == us.text[i]
    ensures r.Success? ==> forall i :: 0 <= i < |us.text| && us.text[i] == NoBreakSpace ==>
      r.value[i] == Space
  {
    if !us.Unicode? then Failure(TypeError)
    else Success(ReplaceChar(us.text, NoBreakSpace, Space))
  }

  /** Fixing a fixed string changes nothing. */
  lemma FixNbspIdempotent(us: PyValue)
    requires FixNbsp(us).Success?
    ensures FixNbsp(Unicode(FixNbsp(us).value)) == FixNbsp(us)
  {
    var once := FixNbsp(us).value;
    assert FixNbsp(Unicode(once)).value == once;
  }

  /** A string without no-break spaces comes back as it was. */
  lemma FixNbspKeepsClean(t: Text)
    requires forall i :: 0 <= i < |t| ==> t[i] != NoBreakSpace
    ensures FixNbsp(Unicode(t)) == Success(t)
  {
    assert FixNbsp(Unicode(t)).value == t;
  }
}
