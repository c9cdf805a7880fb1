/**
 * The Python 2 values the kickshaws core handles: raw byte strings (`str`),
 * text strings (`unicode`, a sequence of code points), integers, `None` and
 * lists, together with the exceptions the core raises or lets escape.
 */
module PyValues {
  import opened Wrappers

  /** One byte of a Python 2 `str`. */
  type Byte = b: nat | b < 0x100

  /** One element of a Python 2 `unicode` string (a wide build: any code point,
      lone surrogates included, since Python 2 lets them through). */
  type CodePoint = c: nat | c < 0x11_0000

  type Text = seq<CodePoint>

  datatype PyValue =
    | Str(bytes: seq<Byte>)
    | Unicode(text: Text)
    | Int(n: int)
    | NoneValue
    | List(items: seq<PyValue>)

  /** A value that can be a dictionary key or a CSV cell: anything but a list. */
  type Scalar = v: PyValue | !v.List? witness NoneValue

  /** The structural faults of Python's `csv` reader in its non-strict excel dialect. */
  datatype CsvFault =
    | NullByte                  // "line contains NULL byte"
    | NewlineInUnquotedField    // "new-line character seen in unquoted field"

  datatype Error =
    | TypeError
    | ValueError
    | IndexError
    | UnicodeDecodeError
    | UnicodeEncodeError
    | CsvError(fault: CsvFault)

  predicate IsAscii(b: seq<Byte>) {
    forall i :: 0 <= i < |b| ==> b[i] < 0x80
  }

  predicate IsAsciiText(t: Text) {
    forall i :: 0 <= i < |t| ==> t[i] < 0x80
  }

  /** The bytes of an all-ASCII text. */
  function AsciiBytes(t: Text): (b: seq<Byte>)
    requires IsAsciiText(t)
    ensures |b| == |t| && forall i :: 0 <= i < |t| ==> b[i] == t[i]
  {
    seq(|t|, i requires 0 <= i < |t| => t[i] as Byte)
  }

  /** The text whose code points are the given bytes (Latin-1 reading). */
  function Latin1(b: seq<Byte>): (t: Text)
    ensures |t| == |b| && forall i :: 0 <= i < |b| ==> t[i] == b[i]
  {
    seq(|b|, i requires 0 <= i < |b| => b[i] as CodePoint)
  }

  /** Python 2's `==` on these values: an all-ASCII `str` equals the `unicode`
      with the same characters (a non-ASCII one equals no `unicode`), lists
      compare item by item, and other values of different kinds differ. */
  predicate Equal(a: PyValue, b: PyValue)
    ensures a == b ==> Equal(a, b)
    decreases a
  {
    match (a, b)
    case (Str(x), Unicode(t)) => IsAscii(x) && Latin1(x) == t
    case (Unicode(t), Str(x)) => IsAscii(x) && Latin1(x) == t
    case (List(xs), List(ys)) => |xs| == |ys| && forall i :: 0 <= i < |xs| ==> Equal(xs[i], ys[i])
    case _ => a == b
  }

  /** The other spelling of an ASCII string key: the `unicode` of an ASCII
      `str` and the `str` of an ASCII `unicode`; any other key is its own. */
  function Twin(k: Scalar): (t: Scalar)
    ensures Equal(t, k) && Equal(k, t)
  {
    match k
    case Str(b) => if IsAscii(b) then Unicode(Latin1(b)) else k
    case Unicode(t) =>
      if IsAsciiText(t) then
        assert Latin1(AsciiBytes(t)) == t;
        Str(AsciiBytes(t))
      else k
    case _ => k
  }

  /** Two keys are `==` exactly when they are the same value or one is the
      other's twin: this is why an ASCII `str` and the equal `unicode` are
      one dictionary key (they also hash alike). */
  lemma EqualScalars(a: Scalar, b: Scalar)
    ensures Equal(a, b) <==> a == b || a == Twin(b)
    ensures Equal(a, b) <==> Equal(b, a)
  {
    if a.Str? && b.Unicode? && IsAsciiText(b.text) {
      var x, t := a.bytes, b.text;
      if IsAscii(x) && Latin1(x) == t {
        assert x == AsciiBytes(t);
      }
      if x == AsciiBytes(t) {
        assert Latin1(x) == t;
      }
    }
  }

  /** Every key that is `==` to `k` is `k` or its twin. */
  lemma KeysEqualTo(k: Scalar)
    ensures forall key: Scalar :: Equal(key, k) <==> key == k || key == Twin(k)
  {
    forall key: Scalar
      ensures Equal(key, k) <==> key == k || key == Twin(k)
    {
      EqualScalars(key, k);
    }
  }

  /** A Python dictionary never holds two keys that are `==`. */
  predicate IsDict<V>(m: map<Scalar, V>)
  {
    forall a, b :: a in m && b in m && Equal(a, b) ==> a == b
  }

  /** `m.get(k)` as Option: the value under the key that is `==` to `k`. */
  function Lookup<V>(m: map<Scalar, V>, k: Scalar): (r: Option<V>)
    ensures r.Some? <==> exists key :: key in m && Equal(key, k)
    ensures IsDict(m) ==> forall key :: key in m && Equal(key, k) ==> r == Some(m[key])
  {
    KeysEqualTo(k);
    if k in m then Some(m[k])
    else if Twin(k) in m then Some(m[Twin(k)])
    else None
  }

  /** Decimal digits of a natural number, most significant first, with no
      leading zero. */
  function Digits(n: nat): (b: seq<Byte>)
    ensures |b| > 0 && IsAscii(b) && AllDigits(b)
    ensures b[0] == '0' as Byte <==> n == 0
  {
    if n < 10 then ['0' as Byte + n] else Digits(n / 10) + ['0' as Byte + n % 10]
  }

  /** `str(n)` for a Python integer. */
  function Decimal(n: int): (b: seq<Byte>)
    ensures IsAscii(b)
  {
    if n < 0 then ['-' as Byte] + Digits(-n) else Digits(n)
  }

  predicate AllDigits(b: seq<Byte>)
  {
    forall i :: 0 <= i < |b| ==> '0' as Byte <= b[i] <= '9' as Byte
  }

  /** The number a string of decimal digits denotes. */
  function DigitsValue(b: seq<Byte>): nat
    requires AllDigits(b)
  {
    if b == [] then 0 else DigitsValue(b[..|b| - 1]) * 10 + (b[|b| - 1] - '0' as Byte)
  }

  /** `int(s)` on a string of the form `str` gives an integer: an optional
      minus sign, then decimal digits; anything else is refused. */
  function ParseDecimal(b: seq<Byte>): Option<int>
  {
    if |b| > 1 && b[0] == '-' as Byte && AllDigits(b[1..]) then Some(-(DigitsValue(b[1..]) as int))
    else if b != [] && AllDigits(b) then Some(DigitsValue(b))
    else None
  }

  /** The digits of `n` denote `n`. */
  lemma {:induction false} DigitsReadBack(n: nat)
    ensures DigitsValue(Digits(n)) == n
  {
    if n >= 10 {
      DigitsReadBack(n / 10);
      var b := Digits(n);
      assert b[..|b| - 1] == Digits(n / 10);
    }
  }

  /** `int(str(n)) == n`: the text written for an integer reads back as that
      integer. */
  lemma DecimalReadsBack(n: int)
    ensures ParseDecimal(Decimal(n)) == Some(n)
  {
    var b := Decimal(n);
    if n < 0 {
      var d := Digits(-n);
      DigitsReadBack(-n);
      assert b == ['-' as Byte] + d && b[1..] == d;
      assert ParseDecimal(b) == Some(-(DigitsValue(d) as int));
    } else {
      DigitsReadBack(n);
      assert b[0] != '-' as Byte;
    }
  }
}
