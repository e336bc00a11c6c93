/** Decimal numerals: what Python's `int(text)` and `float(text)` accept when
    the text is made of decimal digits with an optional fraction, and the
    zero-padded renderings `{n:0Wd}` and `{x:06.3f}` used by the cutter. */
module Numerals {
  import opened Results
  import opened Text

  predicate IsDigit(c: char) {
    '0' <= c <= '9'
  }

  predicate AllDigits(s: string) {
    forall k :: 0 <= k < |s| ==> IsDigit(s[k])
  }

  function DigitValue(c: char): (d: nat)
    requires IsDigit(c)
    ensures d < 10
  {
    c as int - '0' as int
  }

  function DigitChar(d: nat): (c: char)
    requires d < 10
    ensures IsDigit(c) && DigitValue(c) == d
  {
    ('0' as int + d) as char
  }

  function Pow10(n: nat): (p: nat)
    ensures p >= 1
  {
    if n == 0 then 1 else 10 * Pow10(n - 1)
  }

  /** The number a digit string denotes, most significant digit first; "" denotes 0. */
  function Value(s: string): nat
    requires AllDigits(s)
  {
    if s == [] then 0 else 10 * Value(s[..|s| - 1]) + DigitValue(s[|s| - 1])
  }

  /** The value of the decimal fraction ".s". */
  function FracValue(s: string): (f: real)
    requires AllDigits(s)
    ensures 0.0 <= f < 1.0
  {
    if s == [] then 0.0 else (DigitValue(s[0]) as real + FracValue(s[1..])) / 10.0
  }

  lemma ShiftDigit(x: int, p: int, v: int, d: int)
    ensures 10 * (x * p + v) + d == x * (10 * p) + (10 * v + d)
  {
  }

  lemma {:induction false} ValueConcat(a: string, b: string)
    requires AllDigits(a) && AllDigits(b)
    ensures AllDigits(a + b)
    ensures Value(a + b) == Value(a) * Pow10(|b|) + Value(b)
  {
    if b == [] {
      assert a + b == a;
    } else {
      var b' := b[..|b| - 1];
      var d := DigitValue(b[|b| - 1]);
      assert (a + b)[..|a + b| - 1] == a + b';
      assert (a + b)[|a + b| - 1] == b[|b| - 1];
      ValueConcat(a, b');
      assert Value(a + b) == 10 * Value(a + b') + d;
      assert Value(b) == 10 * Value(b') + d;
      assert Pow10(|b|) == 10 * Pow10(|b'|);
      ShiftDigit(Value(a), Pow10(|b'|), Value(b'), d);
    }
  }

  lemma CastLinear(x: int, y: int, z: int)
    ensures (x * y + z) as real == x as real * y as real + z as real
  {
  }

  lemma ShiftFraction(d: real, v: real, p: real)
    requires p > 0.0
    ensures (d + v / p) / 10.0 == (d * p + v) / (10.0 * p)
  {
    assert d + v / p == (d * p + v) / p;
  }

  lemma FracStep(d: nat, p: nat, v: nat, f: real, g: real)
    requires p >= 1
    requires g == v as real / p as real
    requires f == (d as real + g) / 10.0
    ensures f == (d * p + v) as real / (10 * p) as real
  {
    CastLinear(d, p, v);
    CastLinear(10, p, 0);
    ShiftFraction(d as real, v as real, p as real);
  }

  lemma ValueSingle(c: char)
    requires IsDigit(c)
    ensures Value([c]) == DigitValue(c)
  {
    assert [c][..0] == [];
  }

  /** The leading digit of a numeral carries the weight of the digits after it. */
  lemma ValueHead(s: string)
    requires AllDigits(s) && s != []
    ensures Value(s) == DigitValue(s[0]) * Pow10(|s[1..]|) + Value(s[1..])
  {
    var t := s[1..];
    assert s == [s[0]] + t;
    ValueConcat([s[0]], t);
    ValueSingle(s[0]);
  }

  /** A fraction's digits read as a whole number, scaled down by 10 per digit. */
  lemma {:induction false} FracValueScaled(s: string)
    requires AllDigits(s)
    ensures FracValue(s) == Value(s) as real / Pow10(|s|) as real
  {
    if s != [] {
      var t := s[1..];
      FracValueScaled(t);
      ValueHead(s);
      FracStep(DigitValue(s[0]), Pow10(|t|), Value(t), FracValue(s), FracValue(t));
    }
  }

  /** The shortest decimal rendering of n (Python's `str(n)`). */
  function Digits(n: nat): (s: string)
    ensures 1 <= |s| && AllDigits(s) && Value(s) == n
    ensures n == 0 ==> s == "0"
    ensures n > 0 ==> s[0] != '0'
  {
    if n < 10 then
      var s := [DigitChar(n)];
      assert s[..0] == [];
      s
    else
      var s := Digits(n / 10) + [DigitChar(n % 10)];
      assert s[..|s| - 1] == Digits(n / 10);
      s
  }

  function Zeros(k: nat): (s: string)
    ensures |s| == k && AllDigits(s) && Value(s) == 0
  {
    if k == 0 then []
    else
      var s := Zeros(k - 1) + ['0'];
      assert s[..|s| - 1] == Zeros(k - 1);
      s
  }

  /** Python's `f"{n:0{width}d}"`: n's digits, left-padded with zeros to at least `width`. */
  function PadDecimal(n: nat, width: nat): (s: string)
    ensures AllDigits(s) && Value(s) == n
    ensures |s| == if |Digits(n)| < width then width else |Digits(n)|
    ensures |s| > width && |s| > 1 ==> s[0] != '0'
  {
    var d := Digits(n);
    var z := Zeros(if |d| < width then width - |d| else 0);
    ValueConcat(z, d);
    z + d
  }

  /** Python's `int(text)` restricted to decimal digits: surrounding whitespace
      is ignored and at least one digit is needed. */
  function ParseInt(text: string): Option<nat> {
    var t := Strip(text);
    if t != [] && AllDigits(t) then Some(Value(t)) else None
  }

  /** Python's `float(text)` restricted to "digits", "digits.digits", "digits."
      and ".digits": surrounding whitespace is ignored and at least one digit is needed. */
  function ParseFloat(text: string): (r: Option<real>)
    ensures r.Some? ==> r.value >= 0.0
  {
    DecimalValue(Strip(text))
  }

  /** The value of "w", "w.f", "w." or ".f" for digit strings w and f. */
  function DecimalValue(t: string): (r: Option<real>)
    ensures r.Some? ==> r.value >= 0.0
  {
    if '.' in t then
      var halves := SplitFirst(t, '.');
      if AllDigits(halves.0) && AllDigits(halves.1) && |halves.0| + |halves.1| > 0
      then Some(Value(halves.0) as real + FracValue(halves.1))
      else None
    else if t != [] && AllDigits(t) then Some(Value(t) as real)
    else None
  }

  /** Python's `f"{x:06.3f}"` for x = ms / 1000: at least two integer digits and
      exactly three fraction digits. */
  function FixedText(ms: nat): string {
    PadDecimal(ms / 1000, 2) + "." + PadDecimal(ms % 1000, 3)
  }

  lemma AllDigitsNoSpace(s: string)
    requires AllDigits(s) && s != []
    ensures Strip(s) == s
  {
    PrintableNotSpace(s[0]);
    PrintableNotSpace(s[|s| - 1]);
    StripExact(s);
  }

  /** int() reads back every zero-padded rendering, whatever the padding. */
  lemma ParseIntPadded(n: nat, width: nat)
    ensures ParseInt(PadDecimal(n, width)) == Some(n)
  {
    AllDigitsNoSpace(PadDecimal(n, width));
  }

  /** int() reads back the decimal rendering of every n. */
  lemma ParseIntDigits(n: nat)
    ensures ParseInt(Digits(n)) == Some(n)
  {
    AllDigitsNoSpace(Digits(n));
  }

  /** float() reads back the decimal rendering of every whole n. */
  lemma ParseFloatDigits(n: nat)
    ensures ParseFloat(Digits(n)) == Some(n as real)
  {
    ParseIntDigits(n);
    ParseFloatOfInt(Digits(n));
  }

  /** Whatever int() accepts, float() accepts with the same value. */
  lemma ParseFloatOfInt(text: string)
    requires ParseInt(text).Some?
    ensures ParseFloat(text) == Some(ParseInt(text).value as real)
  {
    var t := Strip(text);
    assert '.' !in t;
  }

  lemma DecimalValueOfParts(w: string, f: string)
    requires AllDigits(w) && AllDigits(f) && w != [] && f != []
    ensures var r := DecimalValue(w + "." + f); r.Some? && r.value == Value(w) as real + FracValue(f)
  {
    var t := w + "." + f;
    assert t == w + ['.'] + f;
    SplitFirstUnique(w, f, '.');
  }

  /** float() of "w.f" for nonempty digit strings w and f. */
  lemma ParseFloatDecimal(w: string, f: string)
    requires AllDigits(w) && AllDigits(f) && w != [] && f != []
    ensures var r := ParseFloat(w + "." + f); r.Some? && r.value == Value(w) as real + FracValue(f)
  {
    ParseFloatUnpadded(w, f);
    DecimalValueOfParts(w, f);
  }

  /** Text that starts and ends with a digit has nothing for float() to strip. */
  lemma ParseFloatUnpadded(w: string, f: string)
    requires w != [] && f != [] && IsDigit(w[0]) && IsDigit(f[|f| - 1])
    ensures ParseFloat(w + "." + f) == DecimalValue(w + "." + f)
  {
    var t := w + "." + f;
    assert t[0] == w[0];
    assert t[|t| - 1] == f[|f| - 1];
    PrintableNotSpace(t[0]);
    PrintableNotSpace(t[|t| - 1]);
    StripExact(t);
  }

  lemma SplitMillis(ms: nat)
    ensures ms as real / 1000.0 == (ms / 1000) as real + (ms % 1000) as real / 1000.0
  {
    assert ms == 1000 * (ms / 1000) + ms % 1000;
  }

  lemma ThreeDigitFraction(f: string)
    requires AllDigits(f) && |f| == 3
    ensures FracValue(f) == Value(f) as real / 1000.0
  {
    FracValueScaled(f);
    Pow10Three();
  }

  lemma Pow10Three()
    ensures Pow10(3) == 1000
  {
    assert Pow10(1) == 10;
    assert Pow10(2) == 100;
  }

  /** float() of a two-digit-padded whole part and a three-digit fraction. */
  lemma ParseFloatPadded(q: nat, r: nat)
    requires r < 1000
    ensures var x := ParseFloat(PadDecimal(q, 2) + "." + PadDecimal(r, 3));
      x.Some? && x.value == q as real + r as real / 1000.0
  {
    var w, f := PadDecimal(q, 2), PadDecimal(r, 3);
    Pow10Three();
    DigitsCountBelow(r, 3);
    ThreeDigitFraction(f);
    ParseFloatDecimal(w, f);
  }

  /** float() reads back the `06.3f` rendering of a whole number of milliseconds. */
  lemma ParseFloatFixed(ms: nat)
    ensures var x := ParseFloat(FixedText(ms)); x.Some? && x.value == ms as real / 1000.0
  {
    ParseFloatPadded(ms / 1000, ms % 1000);
    SplitMillis(ms);
  }

  /** A number below 10^k has at most k digits (k >= 1). */
  lemma {:induction false} DigitsCountBelow(n: nat, k: nat)
    requires 1 <= k && n < Pow10(k)
    ensures |Digits(n)| <= k
  {
    if n >= 10 {
      assert k >= 2;
      assert n / 10 < Pow10(k - 1);
      DigitsCountBelow(n / 10, k - 1);
    }
  }
}
