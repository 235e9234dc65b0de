/** The portable encoding of floating point numbers: an exponent of 256 and base-256 digits. */
module Doubles {
  import opened Lexicographic
  import opened Lengths

  // -------------------------------------------------------------- powers of two

  function Power2(k: nat): (p: nat)
    ensures p >= 1
  {
    if k == 0 then 1 else 2 * Power2(k - 1)
  }

  /** Two to the `k`, for any integer `k`. */
  function Scale(k: int): (x: real)
    ensures x > 0.0
    decreases if k >= 0 then k else -k
  {
    if k == 0 then 1.0
    else if k > 0 then 2.0 * Scale(k - 1)
    else Scale(k + 1) / 2.0
  }

  lemma ScaleUp(k: int)
    ensures Scale(k + 1) == 2.0 * Scale(k)
    ensures Scale(0) == 1.0 && Scale(8) == 256.0
  {
  }

  lemma Associate(x: real, y: real, z: real)
    ensures x * (y * z) == (x * y) * z
  {
  }

  lemma TwiceRight(x: real, y: real)
    ensures x * (2.0 * y) == 2.0 * (x * y)
  {
  }

  lemma {:induction false} ScaleSum(a: int, b: int)
    ensures Scale(a + b) == Scale(a) * Scale(b)
    decreases if b >= 0 then b else -b
  {
    hide Scale;
    ScaleUp(0);
    if b > 0 {
      ScaleSum(a, b - 1);
      ScaleUp(a + (b - 1));
      ScaleUp(b - 1);
      TwiceRight(Scale(a), Scale(b - 1));
    } else if b < 0 {
      ScaleSum(a, b + 1);
      ScaleUp(a + b);
      ScaleUp(b);
      TwiceRight(Scale(a), Scale(b));
    }
  }

  lemma {:induction false} ScaleIsPower(k: nat)
    ensures Scale(k) == Power2(k) as real
  {
    if k > 0 {
      ScaleIsPower(k - 1);
    }
  }

  lemma Times256(k: int)
    ensures Scale(k + 8) == 256.0 * Scale(k)
  {
    hide Scale;
    ScaleSum(k, 8);
    ScaleUp(k);
  }

  // --------------------------------------------------------- numbers as stored

  /** The number `mantissa` times two to the `exponent`, with its sign. */
  datatype Double = Double(negative: bool, mantissa: nat, exponent: int)

  const MANTISSA_BITS := 53

  predicate Finite(d: Double) {
    d.mantissa < Power2(MANTISSA_BITS) && -1074 <= d.exponent <= 971
  }

  function Magnitude(d: Double): real {
    d.mantissa as real * Scale(d.exponent)
  }

  function Value(d: Double): real {
    if d.negative then -Magnitude(d) else Magnitude(d)
  }

  function BitLength(m: nat): (b: nat)
    ensures m > 0 ==> b > 0 && Power2(b - 1) <= m < Power2(b)
    ensures m == 0 ==> b == 0
  {
    if m == 0 then 0 else BitLength(m / 2) + 1
  }

  /** The digit part, in [1, 256), and the exponent of 256; what zero gives is in the source too. */
  function Base256(d: Double): (r: (real, int)) {
    if d.mantissa == 0 then (0.0, -1)
    else
      var b := BitLength(d.mantissa);
      var top := d.exponent + b - 1;
      (d.mantissa as real * Scale(top % 8 - b + 1), top / 8)
  }

  lemma {:induction false} PowerGrows(a: nat, b: nat)
    ensures a <= b ==> Power2(a) <= Power2(b)
  {
    if a < b {
      PowerGrows(a, b - 1);
    }
  }

  lemma {:induction false} ScaleGrows(a: int, b: int)
    requires a <= b
    ensures Scale(a) <= Scale(b)
    decreases b - a
  {
    if a < b {
      ScaleGrows(a, b - 1);
      ScaleUp(b - 1);
    }
  }

  lemma FiniteBits(m: nat)
    requires m < Power2(MANTISSA_BITS)
    ensures BitLength(m) <= MANTISSA_BITS
  {
    PowerGrows(MANTISSA_BITS + 1, BitLength(m));
  }

  lemma Between(low: real, x: real, high: real, s: real, bottom: real, v: real, top: real)
    requires low <= x < high && s > 0.0 && bottom == low * s && v == x * s && top == high * s
    ensures bottom <= v < top
  {
    assert v - bottom == (x - low) * s;
    assert top - v == (high - x) * s;
  }

  /** The value is the digit part times 256 to the exponent. */
  lemma Base256Value(d: Double)
    ensures Magnitude(d) == Base256(d).0 * Scale(8 * Base256(d).1)
  {
    hide Scale, BitLength;
    if d.mantissa > 0 {
      var b := BitLength(d.mantissa);
      var top := d.exponent + b - 1;
      var low := top % 8 - b + 1;
      assert low + 8 * (top / 8) == d.exponent;
      ScaleSum(low, 8 * (top / 8));
      Associate(d.mantissa as real, Scale(low), Scale(8 * (top / 8)));
    }
  }

  lemma ScaledRange(m: nat, b: nat, t: int, v: real)
    requires b > 0 && Power2(b - 1) <= m < Power2(b) && v == m as real * Scale(t)
    ensures Scale(b - 1 + t) <= v < Scale(b + t)
  {
    hide Scale, Power2;
    ScaleIsPower(b - 1);
    ScaleIsPower(b);
    ScaleSum(b - 1, t);
    ScaleSum(b, t);
    Between(Scale(b - 1), m as real, Scale(b), Scale(t), Scale(b - 1 + t), v, Scale(b + t));
  }

  lemma Base256Range(d: Double)
    requires d.mantissa > 0
    ensures 1.0 <= Base256(d).0 < 256.0
  {
    hide Scale, BitLength, Power2;
    ScaleUp(0);
    var b := BitLength(d.mantissa);
    var r := (d.exponent + b - 1) % 8;
    var t := r - b + 1;
    ScaledRange(d.mantissa, b, t, Base256(d).0);
    assert b - 1 + t == r && b + t == r + 1;
    ScaleGrows(0, r);
    ScaleGrows(r + 1, 8);
    assert Scale(8) == 256.0;
  }

  // ------------------------------------------------------------ base-256 digits

  /** `v` has at most `k` base-256 digits after the point. */
  predicate Whole(v: real, k: nat)
    decreases k
  {
    if k == 0 then v == v.Floor as real else Whole(v * 256.0, k - 1)
  }

  lemma WholeNext(v: real, w: real, k: nat)
    requires k > 0 && w == v * 256.0
    ensures Whole(v, k) <==> Whole(w, k - 1)
  {
  }

  lemma WholeNumber(v: real, n: int)
    requires v == n as real
    ensures Whole(v, 0)
  {
  }

  lemma {:induction false} WholeShift(v: real, n: int, k: nat)
    requires Whole(v, k)
    ensures Whole(v - n as real, k)
    decreases k
  {
    if k == 0 {
      WholeNumber(v - n as real, v.Floor - n);
    } else {
      hide Whole;
      var w, m := v * 256.0, 256 * n;
      WholeNext(v, w, k);
      WholeShift(w, m, k - 1);
      WholeNext(v - n as real, w - m as real, k);
    }
  }

  lemma {:induction false} WholeScaled(m: nat, t: int, v: real, k: nat)
    requires t + 8 * k >= 0 && v == m as real * Scale(t)
    ensures Whole(v, k)
    decreases k
  {
    hide Scale;
    if k == 0 {
      ScaleIsPower(t);
      WholeNumber(v, m * Power2(t));
    } else {
      hide Whole;
      var w := m as real * Scale(t + 8);
      WholeScaled(m, t + 8, w, k - 1);
      Times256(t);
      Associate(m as real, Scale(t), 256.0);
      WholeNext(v, w, k);
    }
  }

  const FRACTION_DIGITS := 7

  /** Seven digits after the point are enough for every finite number. */
  lemma Base256Whole(d: Double)
    requires Finite(d)
    ensures 0.0 <= Base256(d).0 < 256.0 && Whole(Base256(d).0, FRACTION_DIGITS)
  {
    hide Scale, Power2, BitLength, Whole;
    if d.mantissa > 0 {
      var b := BitLength(d.mantissa);
      FiniteBits(d.mantissa);
      Base256Range(d);
      var t := (d.exponent + b - 1) % 8 - b + 1;
      assert t + 8 * FRACTION_DIGITS >= 0;
      WholeScaled(d.mantissa, t, Base256(d).0, FRACTION_DIGITS);
    } else {
      WholeScaled(0, 0, 0.0, FRACTION_DIGITS);
    }
  }

  /** What is left after a digit, a place further on. */
  function After(v: real): (rest: real)
    ensures 0.0 <= rest < 256.0
  {
    (v - v.Floor as real) * 256.0
  }

  lemma WholeAfter(v: real, k: nat)
    requires Whole(v, k)
    ensures if k == 0 then After(v) == 0.0 else Whole(After(v), k - 1)
  {
    if k > 0 {
      hide Whole;
      WholeShift(v, v.Floor, k);
      WholeNext(v - v.Floor as real, After(v), k);
    }
  }

  /** The digits of `v`, up to the last one that is not zero. */
  function Digits(v: real, k: nat): (ds: Bytes)
    requires 0.0 <= v < 256.0 && Whole(v, k)
    ensures 0 < |ds| <= k + 1
    decreases k
  {
    WholeAfter(v, k);
    if After(v) == 0.0 then [v.Floor] else [v.Floor] + Digits(After(v), k - 1)
  }

  function DigitsValue(ds: Bytes): (v: real) {
    if ds == [] then 0.0 else ds[0] as real + DigitsValue(ds[1..]) / 256.0
  }

  lemma {:induction false} DigitsRoundTrip(v: real, k: nat)
    requires 0.0 <= v < 256.0 && Whole(v, k)
    ensures DigitsValue(Digits(v, k)) == v
    decreases k
  {
    WholeAfter(v, k);
    if After(v) != 0.0 {
      DigitsRoundTrip(After(v), k - 1);
      assert Digits(v, k)[1..] == Digits(After(v), k - 1);
    } else {
      assert [v.Floor][1..] == [];
    }
  }

  // ---------------------------------------------------------------- the encoding

  const MAX_EXPONENT := 127

  predicate Encodable(exp: int) {
    -32768 <= exp <= 32767
  }

  /** The low four bits of the first byte: a small exponent, or the form of what follows. */
  function ExponentForm(exp: int): (low: nat)
    ensures low < 16
  {
    if -7 <= exp <= 6 then exp + 7 else if -128 <= exp < 127 then 14 else 15
  }

  function ExponentBytes(exp: int): (s: Bytes)
    requires Encodable(exp)
    ensures |s| <= 2
  {
    if -7 <= exp <= 6 then []
    else if -128 <= exp < 127 then [exp + 128]
    else [(exp + 32768) % 256, (exp + 32768) / 256]
  }

  function FirstByte(negative: bool, length: nat, exp: int): (b: byte)
    requires 1 <= length <= 8
  {
    ExponentForm(exp) + 16 * (length - 1) + if negative then 128 else 0
  }

  lemma ExponentRange(d: Double)
    requires Finite(d)
    ensures -135 <= Base256(d).1 <= MAX_EXPONENT
  {
    hide Scale, BitLength, Power2;
    FiniteBits(d.mantissa);
  }

  function DoubleCode(d: Double): (s: Bytes)
    requires Finite(d)
  {
    Base256Whole(d);
    ExponentRange(d);
    var (v, exp) := Base256(d);
    var ds := Digits(v, FRACTION_DIGITS);
    [FirstByte(d.negative && d.mantissa > 0, |ds|, exp)] + ExponentBytes(exp) + ds
  }

  /** A number read, or the infinity an exponent too large stands for. */
  datatype Number = Number(value: real) | Huge(negative: bool)

  function ReadExponent(s: Bytes): (r: Decoded<int>)
    requires |s| >= 2
    ensures r.Decoded? ==> r.used <= |s|
  {
    var low: int, next: int := s[0] % 16, s[1];
    if low < 14 then Decoded(low - 7, 1)
    else if low == 14 then Decoded(next - 128, 2)
    else if |s| == 2 then Bad
    else Decoded(next + 256 * (s[2] as int) - 32768, 3)
  }

  function Assembled(negative: bool, ds: Bytes, exp: int): Number {
    if exp > MAX_EXPONENT then Huge(negative)
    else
      var v := DigitsValue(ds) * Scale(8 * exp);
      Number(if negative then -v else v)
  }

  function ReadDouble(s: Bytes): (r: Decoded<Number>)
    ensures r.Decoded? ==> r.used <= |s|
  {
    if |s| < 2 then Bad
    else if s[0] == 0 && s[1] == 0 then Decoded(Number(0.0), 2)
    else
      var length := s[0] / 16 % 8 + 1;
      match ReadExponent(s)
      case Bad => Bad
      case Decoded(exp, used) =>
        if |s| - used < length then Bad
        else Decoded(Assembled(s[0] >= 128, s[used..used + length], exp), used + length)
  }

  // --------------------------------------------------------------- encode, decode

  lemma ExponentRoundTrip(negative: bool, length: nat, exp: int, rest: Bytes)
    requires 1 <= length <= 8 && Encodable(exp) && rest != []
    ensures var s := [FirstByte(negative, length, exp)] + ExponentBytes(exp) + rest;
            && ReadExponent(s) == Decoded(exp, 1 + |ExponentBytes(exp)|)
            && s[0] / 16 % 8 + 1 == length && (s[0] >= 128 <==> negative)
  {
  }

  /** No encoding begins with the two zero bytes that the decoder takes apart. */
  lemma LeadingZeros(negative: bool, exp: int, v: real, rest: Bytes)
    requires 0.0 <= v < 256.0 && Whole(v, FRACTION_DIGITS) && Encodable(exp) && (v >= 1.0 || exp == -1)
    ensures var ds := Digits(v, FRACTION_DIGITS);
            var s := [FirstByte(negative, |ds|, exp)] + ExponentBytes(exp) + ds + rest;
            s[0] != 0 || s[1] != 0
  {
    hide Whole;
  }

  lemma SignedValue(d: Double)
    ensures var v := Base256(d).0 * Scale(8 * Base256(d).1);
            Value(d) == if d.negative && d.mantissa > 0 then -v else v
  {
    hide Scale, Magnitude, Base256;
    Base256Value(d);
    NoMagnitude(d);
  }

  lemma NoMagnitude(d: Double)
    ensures d.mantissa == 0 ==> Magnitude(d) == 0.0
  {
  }

  lemma AssembledValue(d: Double, ds: Bytes, exp: int)
    requires Finite(d) && 0.0 <= Base256(d).0 < 256.0 && Whole(Base256(d).0, FRACTION_DIGITS)
    requires ds == Digits(Base256(d).0, FRACTION_DIGITS) && exp == Base256(d).1
    ensures Assembled(d.negative && d.mantissa > 0, ds, exp) == Number(Value(d))
  {
    hide Scale, Whole, Power2, Digits, DigitsValue, Base256, Value;
    DigitsRoundTrip(Base256(d).0, FRACTION_DIGITS);
    ExponentRange(d);
    SignedValue(d);
  }

  /** A number decodes to itself before any suffix, and takes exactly its own bytes. */
  lemma DoubleRoundTrip(d: Double, suffix: Bytes)
    requires Finite(d)
    ensures ReadDouble(DoubleCode(d) + suffix) == Decoded(Number(Value(d)), |DoubleCode(d)|)
  {
    hide Scale, Whole, BitLength, Power2, Digits, DigitsValue, FirstByte, ExponentBytes, ReadExponent, Value, Base256;
    Base256Whole(d);
    ExponentRange(d);
    var (v, exp) := Base256(d);
    var ds := Digits(v, FRACTION_DIGITS);
    var negative := d.negative && d.mantissa > 0;
    var s := DoubleCode(d) + suffix;
    assert s == [FirstByte(negative, |ds|, exp)] + ExponentBytes(exp) + (ds + suffix);
    assert s == [FirstByte(negative, |ds|, exp)] + ExponentBytes(exp) + ds + suffix;
    ExponentRoundTrip(negative, |ds|, exp, ds + suffix);
    AssembledValue(d, ds, exp);
    SmallestDigitPart(d);
    LeadingZeros(negative, exp, v, suffix);
    var used := 1 + |ExponentBytes(exp)|;
    assert s[used..used + |ds|] == ds;
  }

  lemma SmallestDigitPart(d: Double)
    ensures Base256(d).0 >= 1.0 || Base256(d).1 == -1
  {
    if d.mantissa > 0 {
      Base256Range(d);
    }
  }

  lemma DigitStep(v: real, k: nat)
    requires 0.0 <= v < 256.0 && Whole(v, k)
    ensures After(v) == 0.0 ==> Digits(v, k) == [v.Floor]
    ensures After(v) != 0.0 ==> k > 0 && Whole(After(v), k - 1) && Digits(v, k) == [v.Floor] + Digits(After(v), k - 1)
  {
    WholeAfter(v, k);
  }

  const MAX_MANTISSA_BYTES := 8

  /** Peels the digits off; eight bytes always reach a remainder of zero. */
  method AppendDigits(start: Bytes, digits: real) returns (result: Bytes)
    requires 0.0 <= digits < 256.0 && Whole(digits, FRACTION_DIGITS)
    ensures result == start + Digits(digits, FRACTION_DIGITS)
  {
    hide Whole, Digits;
    result := start;
    var v, maxBytes := digits, MAX_MANTISSA_BYTES;
    while true
      invariant 0.0 <= v < 256.0 && 0 < maxBytes <= MAX_MANTISSA_BYTES && Whole(v, maxBytes - 1)
      invariant result + Digits(v, maxBytes - 1) == start + Digits(digits, FRACTION_DIGITS)
      decreases maxBytes
    {
      DigitStep(v, maxBytes - 1);
      var b := v.Floor;
      result := result + [b];
      v := (v - b as real) * 256.0;
      maxBytes := maxBytes - 1;
      if v == 0.0 || maxBytes == 0 {
        assert v == 0.0;
        return;
      }
    }
  }

  method SerialiseDouble(d: Double) returns (result: Bytes)
    requires Finite(d)
    ensures result == DoubleCode(d)
  {
    hide Whole, Digits, Base256, Scale, Power2, ExponentBytes;
    Base256Whole(d);
    ExponentRange(d);
    var negative := d.negative && d.mantissa > 0;
    var (v, exp) := Base256(d);
    result := Header(negative, exp);
    var n := |result|;
    result := AppendDigits(result, v);
    n := |result| - n;
    ghost var code := result;
    if n > 1 {
      result := result[0 := result[0] + (n - 1) * 16];
    }
    LengthAdded(negative, exp, Digits(v, FRACTION_DIGITS), code, result);
  }

  /** The length of the digits goes into the first byte last of all. */
  lemma LengthAdded(negative: bool, exp: int, ds: Bytes, code: Bytes, result: Bytes)
    requires Encodable(exp) && 1 <= |ds| <= 8
    requires code == [FirstByte(negative, 1, exp)] + ExponentBytes(exp) + ds
    requires result == code[0 := FirstByte(negative, |ds|, exp)]
    ensures result == [FirstByte(negative, |ds|, exp)] + ExponentBytes(exp) + ds
  {
    hide FirstByte, ExponentBytes;
  }

  method Header(negative: bool, exp: int) returns (head: Bytes)
    requires Encodable(exp)
    ensures head == [FirstByte(negative, 1, exp)] + ExponentBytes(exp)
  {
    if exp <= 6 && exp >= -7 {
      head := [exp + 7 + if negative then 0x80 else 0];
    } else if exp >= -128 && exp < 127 {
      head := [if negative then 0x8e else 0x0e, exp + 128];
    } else {
      head := [if negative then 0x8f else 0x0f, (exp + 32768) % 256, (exp + 32768) / 256];
    }
  }

  method UnserialiseDouble(s: Bytes, pos: nat) returns (r: Decoded<Number>)
    requires pos <= |s|
    ensures r == ReadDouble(s[pos..])
  {
    hide ReadExponent, Assembled;
    if |s| - pos < 2 {
      return Bad;
    }
    var first: int := s[pos];
    if first == 0 && s[pos + 1] == 0 {
      return Decoded(Number(0.0), 2);
    }
    var length := first / 16 % 8 + 1;
    var exp := DecodeExponent(s, pos);
    if exp.Bad? {
      return Bad;
    }
    var p := pos + exp.used;
    if |s| - p < length {
      return Bad;
    }
    var number := DecodeDigits(s, p, length, first >= 128, exp.value);
    assert s[pos..][exp.used..exp.used + length] == s[p..p + length];
    r := Decoded(number, exp.used + length);
  }

  /** The exponent, in whichever of the three forms it has. */
  method DecodeExponent(s: Bytes, pos: nat) returns (r: Decoded<int>)
    requires pos + 2 <= |s|
    ensures r == ReadExponent(s[pos..])
  {
    var exp: int, next: int := s[pos] % 16, s[pos + 1];
    if exp < 14 {
      return Decoded(exp - 7, 1);
    }
    if exp == 14 {
      return Decoded(next - 128, 2);
    }
    if pos + 2 == |s| {
      return Bad;
    }
    return Decoded(next + 256 * (s[pos + 2] as int) - 32768, 3);
  }

  /** The number with these digits, or infinity for an exponent too large. */
  method DecodeDigits(s: Bytes, p: nat, length: nat, negative: bool, exp: int) returns (number: Number)
    requires p + length <= |s|
    ensures number == Assembled(negative, s[p..p + length], exp)
  {
    if exp > MAX_EXPONENT {
      return Huge(negative);
    }
    var v := AddDigits(s, p + length, length);
    number := Assemble(negative, v, exp, s[p..p + length]);
  }

  method Assemble(negative: bool, digits: real, exp: int, ghost ds: Bytes) returns (number: Number)
    requires exp <= MAX_EXPONENT && digits == DigitsValue(ds)
    ensures number == Assembled(negative, ds, exp)
  {
    hide Scale, DigitsValue;
    ScaleUp(0);
    var v := digits;
    if exp != 0 {
      v := v * Scale(8 * exp);
    }
    number := Number(if negative then -v else v);
  }

  /** Adds the digits up, from the last one before `end` back to the first. */
  method AddDigits(s: Bytes, end: nat, length: nat) returns (v: real)
    requires length <= end <= |s|
    ensures v == DigitsValue(s[end - length..end])
  {
    v := 0.0;
    var q, left := end, length;
    while left > 0
      invariant q == end - length + left && 0 <= left <= length && v == DigitsValue(s[q..end])
    {
      left := left - 1;
      q := q - 1;
      v := v * 0.00390625;
      v := v + s[q] as real;
      assert s[q..end][1..] == s[q + 1..end];
    }
  }

  // ------------------------------------------------------------------- exactness

  /** A number with a mantissa of at most 53 bits. */
  ghost predicate Representable(v: real) {
    exists m: nat, t: int :: IsScaled(v, m, t)
  }

  ghost predicate IsScaled(v: real, m: nat, t: int) {
    m < Power2(MANTISSA_BITS) && v == m as real * Scale(t)
  }

  lemma Product(x: real, p: real)
    requires p > 0.0
    ensures x < 0.0 ==> x * p < 0.0
    ensures x >= 1.0 ==> x * p >= p
  {
  }

  lemma FractionRange(y: real, p: nat, r: nat)
    requires p > 0 && r < p && y * p as real == r as real
    ensures 0.0 <= y < 1.0
  {
    Product(y, p as real);
  }

  lemma Split(x: real, q: int, p: nat, r: nat)
    requires x * p as real == (q * p + r) as real
    ensures (x - q as real) * p as real == r as real
  {
    var a, b := q as real, p as real;
    assert (q * p) as real == a * b;
    assert (x - a) * b == x * b - a * b;
  }

  lemma FractionOf(m: nat, p: nat, x: real)
    requires p > 0 && x * p as real == m as real
    ensures (x - x.Floor as real) * p as real == (m % p) as real
  {
    var q, r := m / p, m % p;
    Split(x, q, p, r);
    FractionRange(x - q as real, p, r);
    assert x.Floor == q;
  }

  /** Taking a digit off leaves a number of no more bits. */
  lemma AfterRepresentable(v: real, m: nat, t: int)
    requires IsScaled(v, m, t)
    ensures Representable(After(v))
  {
    hide Scale, Power2;
    if t >= 0 {
      ScaleIsPower(t);
      WholeNumber(v, m * Power2(t));
      assert After(v) == 0.0;
      assert IsScaled(0.0, 0, 0) by {
        assert Power2(MANTISSA_BITS) >= 1;
      }
    } else {
      var p := Power2(-t);
      ScaleIsPower(-t);
      ScaleSum(t, -t);
      ScaleUp(0);
      Associate(m as real, Scale(t), Scale(-t));
      assert v * p as real == m as real;
      FractionOf(m, p, v);
      Rescaled(v - v.Floor as real, m % p, t);
      Times256(t);
      Associate((m % p) as real, Scale(t), 256.0);
      assert IsScaled(After(v), m % p, t + 8);
    }
  }

  lemma Rescaled(x: real, m: nat, t: int)
    requires t < 0 && x * Power2(-t) as real == m as real
    ensures x == m as real * Scale(t)
  {
    hide Scale, Power2;
    ScaleIsPower(-t);
    ScaleSum(-t, t);
    ScaleUp(0);
    Associate(x, Scale(-t), Scale(t));
  }

  /** What is left after any number of digits is representable. */
  lemma {:induction false} RestRepresentable(v: real, k: nat, i: nat)
    requires 0.0 <= v < 256.0 && Whole(v, k) && Representable(v) && i < |Digits(v, k)|
    ensures Representable(DigitsValue(Digits(v, k)[i..]))
    decreases k
  {
    hide Whole, Representable;
    if i == 0 {
      DigitsRoundTrip(v, k);
      assert Digits(v, k)[0..] == Digits(v, k);
    } else {
      DigitStep(v, k);
      NextRepresentable(v);
      RestRepresentable(After(v), k - 1, i - 1);
      assert Digits(v, k)[i..] == Digits(After(v), k - 1)[i - 1..];
    }
  }

  lemma NextRepresentable(v: real)
    requires Representable(v)
    ensures Representable(After(v))
  {
    hide IsScaled;
    var m: nat, t: int :| IsScaled(v, m, t);
    AfterRepresentable(v, m, t);
  }

  /**
   Every sum the decoder forms from an encoded number fits the machine's numbers, so
   that none of them is rounded and the exact arithmetic here is the machine's.
   */
  lemma NothingRounded(d: Double, i: nat)
    requires Finite(d) && 0.0 <= Base256(d).0 < 256.0 && Whole(Base256(d).0, FRACTION_DIGITS)
    requires i < |Digits(Base256(d).0, FRACTION_DIGITS)|
    ensures Representable(DigitsValue(Digits(Base256(d).0, FRACTION_DIGITS)[i..]))
  {
    hide Scale, Power2, BitLength, Whole, Digits, DigitsValue;
    var b := BitLength(d.mantissa);
    var t := (d.exponent + b - 1) % 8 - b + 1;
    assert IsScaled(Base256(d).0, d.mantissa, t);
    RestRepresentable(Base256(d).0, FRACTION_DIGITS, i);
  }
}
