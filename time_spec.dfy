/** Time strings of the video cutter: `parse_time_to_seconds` reads `MM:SS`
    and `HH:MM:SS` into seconds, and `format_duration` renders seconds for
    the progress lines. */
module TimeSpec {
  import opened Results
  import opened Text
  import opened Numerals

  /** Why a time string was rejected (all raised as ValueError by the source). */
  datatype TimeError =
    | WrongFieldCount(text: string)  // neither two nor three colon-separated fields
    | NotAnInteger(field: string)    // int() refused an hours or minutes field
    | NotANumber(field: string)      // float() refused the seconds field

  function IntField(field: string): (r: Result<nat, TimeError>)
    ensures r.Err? ==> r.error.NotAnInteger?
  {
    match ParseInt(field)
    case Some(n) => Ok(n)
    case None => Err(NotAnInteger(field))
  }

  function FloatField(field: string): (r: Result<real, TimeError>)
    ensures r.Ok? ==> r.value >= 0.0
    ensures r.Err? ==> r.error.NotANumber?
  {
    match ParseFloat(field)
    case Some(x) => Ok(x)
    case None => Err(NotANumber(field))
  }

  /** `parse_time_to_seconds`: strip, split on ':', and read two fields as
      `int(m) * 60 + float(s)` or three as `int(h) * 3600 + int(m) * 60 + float(s)`.
      Fields are evaluated left to right, so the first bad field is reported.
      Minutes and seconds are not range-checked. */
  function ParseTime(text: string): (r: Result<real, TimeError>)
    ensures r.Ok? ==> r.value >= 0.0
  {
    var parts := Split(Strip(text), ':');
    if |parts| == 2 then
      match IntField(parts[0])
      case Err(e) => Err(e)
      case Ok(m) =>
        match FloatField(parts[1])
        case Err(e) => Err(e)
        case Ok(s) => Ok(m as real * 60.0 + s)
    else if |parts| == 3 then
      match IntField(parts[0])
      case Err(e) => Err(e)
      case Ok(h) =>
        match IntField(parts[1])
        case Err(e) => Err(e)
        case Ok(m) =>
          match FloatField(parts[2])
          case Err(e) => Err(e)
          case Ok(s) => Ok(h as real * 3600.0 + m as real * 60.0 + s)
    else
      Err(WrongFieldCount(text))
  }

  lemma CountBlank(s: string, c: char)
    requires IsBlank(s) && !IsSpace(c)
    ensures Count(s, c) == 0
  {
    assert c !in s;
    CountAbsent(s, c);
  }

  lemma CountTrimStart(s: string, c: char)
    requires !IsSpace(c)
    ensures Count(TrimStart(s), c) == Count(s, c)
  {
    var r := TrimStart(s);
    TrimStartSpec(s);
    var p := s[..|s| - |r|];
    assert s == p + r;
    CountConcat(p, r, c);
    CountBlank(p, c);
  }

  lemma CountTrimEnd(s: string, c: char)
    requires !IsSpace(c)
    ensures Count(TrimEnd(s), c) == Count(s, c)
  {
    var r := TrimEnd(s);
    TrimEndSpec(s);
    var q := s[|r|..];
    assert s == r + q;
    CountConcat(r, q, c);
    CountBlank(q, c);
  }

  /** Stripping never removes a colon. */
  lemma CountStrip(text: string)
    ensures Count(Strip(text), ':') == Count(text, ':')
  {
    calc {
      Count(Strip(text), ':');
      Count(TrimEnd(TrimStart(text)), ':');
      { CountTrimEnd(TrimStart(text), ':'); }
      Count(TrimStart(text), ':');
      { CountTrimStart(text, ':'); }
      Count(text, ':');
    }
  }

  /** A time string fails for its field count exactly when it has neither one
      nor two colons ("5" and "1:2:3:4" fail, "03:05" and "1:03:05" do not). */
  lemma FieldCountRule(text: string)
    ensures ParseTime(text) == Err(WrongFieldCount(text))
            <==> Count(text, ':') != 1 && Count(text, ':') != 2
  {
    SplitCount(Strip(text), ':');
    CountStrip(text);
  }

  lemma NoColonTrimmed(a: string)
    requires ':' !in a
    ensures ':' !in TrimStart(a) && ':' !in TrimEnd(a)
  {
    TrimStartSpec(a);
    TrimEndSpec(a);
  }

  lemma JoinTwo(a: string, b: string)
    ensures Join([a, b], ':') == a + [':'] + b
  {
    assert [a, b][1..] == [b];
  }

  lemma JoinThree(a: string, b: string, c: string)
    ensures Join([a, b, c], ':') == a + [':'] + (b + [':'] + c)
  {
    assert [a, b, c][1..] == [b, c];
    JoinTwo(b, c);
  }

  /** The pieces of "a:b" once the whole text is stripped. */
  lemma SplitTwo(a: string, b: string)
    requires ':' !in a && ':' !in b
    ensures Split(Strip(a + ":" + b), ':') == [TrimStart(a), TrimEnd(b)]
  {
    var a', b' := TrimStart(a), TrimEnd(b);
    calc {
      Split(Strip(a + ":" + b), ':');
      { PrintableNotSpace(':');
        StripAround(a, ':', b); }
      Split(a' + [':'] + b', ':');
      { JoinTwo(a', b'); }
      Split(Join([a', b'], ':'), ':');
      { NoColonTrimmed(a);
        NoColonTrimmed(b);
        SplitJoin([a', b'], ':'); }
      [a', b'];
    }
  }

  lemma StripThree(a: string, b: string, c: string)
    ensures Strip(a + ":" + b + ":" + c) == TrimStart(a) + [':'] + (b + [':'] + TrimEnd(c))
  {
    var rest := (b + [':']) + c;
    assert a + ":" + b + ":" + c == a + [':'] + rest;
    assert Strip(a + [':'] + rest) == TrimStart(a) + [':'] + TrimEnd(rest) by {
      PrintableNotSpace(':');
      StripAround(a, ':', rest);
    }
    assert TrimEnd(rest) == b + [':'] + TrimEnd(c) by {
      assert (b + [':'])[|b|] == ':';
      PrintableNotSpace(':');
      TrimEndAfterNonSpace(b + [':'], c);
    }
  }

  /** The pieces of "a:b:c" once the whole text is stripped. */
  lemma SplitThree(a: string, b: string, c: string)
    requires ':' !in a && ':' !in b && ':' !in c
    ensures Split(Strip(a + ":" + b + ":" + c), ':') == [TrimStart(a), b, TrimEnd(c)]
  {
    var a', c' := TrimStart(a), TrimEnd(c);
    var parts := [a', b, c'];
    assert Strip(a + ":" + b + ":" + c) == Join(parts, ':') by {
      StripThree(a, b, c);
      JoinThree(a', b, c');
    }
    assert Split(Join(parts, ':'), ':') == parts by {
      NoColonTrimmed(a);
      NoColonTrimmed(c);
      assert forall k :: 0 <= k < |parts| ==> ':' !in parts[k];
      SplitJoin(parts, ':');
    }
  }

  lemma ParseIntTrimmed(s: string)
    ensures ParseInt(TrimStart(s)) == ParseInt(s)
    ensures ParseInt(TrimEnd(s)) == ParseInt(s)
  {
    StripOfTrimmed(s);
  }

  lemma ParseFloatTrimmed(s: string)
    ensures ParseFloat(TrimEnd(s)) == ParseFloat(s)
  {
    StripOfTrimmed(s);
  }

  /** MM:SS reads as `int(m) * 60 + float(s)`, and succeeds exactly when both fields parse. */
  lemma MinutesSeconds(m: string, s: string)
    requires ':' !in m && ':' !in s
    ensures ParseTime(m + ":" + s).Ok? <==> ParseInt(m).Some? && ParseFloat(s).Some?
    ensures ParseTime(m + ":" + s).Ok? ==>
              ParseTime(m + ":" + s).value == ParseInt(m).value as real * 60.0 + ParseFloat(s).value
  {
    SplitTwo(m, s);
    ParseIntTrimmed(m);
    ParseFloatTrimmed(s);
  }

  /** HH:MM:SS reads as `int(h) * 3600 + int(m) * 60 + float(s)`, and succeeds
      exactly when all three fields parse. */
  lemma HoursMinutesSeconds(h: string, m: string, s: string)
    requires ':' !in h && ':' !in m && ':' !in s
    ensures ParseTime(h + ":" + m + ":" + s).Ok?
            <==> ParseInt(h).Some? && ParseInt(m).Some? && ParseFloat(s).Some?
    ensures ParseTime(h + ":" + m + ":" + s).Ok? ==>
              ParseTime(h + ":" + m + ":" + s).value
              == ParseInt(h).value as real * 3600.0 + ParseInt(m).value as real * 60.0 + ParseFloat(s).value
  {
    SplitThree(h, m, s);
    ParseIntTrimmed(h);
    ParseFloatTrimmed(s);
  }

  lemma NoColonInDigits(s: string)
    requires AllDigits(s)
    ensures ':' !in s && '.' !in s
  {
  }

  /** The decimal rendering of n is a colon-free field that int() and float() both read as n. */
  lemma DigitsField(n: nat)
    ensures ':' !in Digits(n)
    ensures ParseInt(Digits(n)) == Some(n)
    ensures ParseFloat(Digits(n)) == Some(n as real)
  {
    NoColonInDigits(Digits(n));
    ParseIntDigits(n);
    ParseFloatDigits(n);
  }

  /** Any whole minutes and seconds, rendered in decimal, read back exactly:
      there is no check that they are below 60 ("0:75" is 75 seconds). */
  lemma WholeMinutesSeconds(m: nat, s: nat)
    ensures var r := ParseTime(Digits(m) + ":" + Digits(s));
            r.Ok? && r.value == m as real * 60.0 + s as real
  {
    DigitsField(m);
    DigitsField(s);
    MinutesSeconds(Digits(m), Digits(s));
  }

  lemma WholeHoursMinutesSeconds(h: nat, m: nat, s: nat)
    ensures var r := ParseTime(Digits(h) + ":" + Digits(m) + ":" + Digits(s));
            r.Ok? && r.value == h as real * 3600.0 + m as real * 60.0 + s as real
  {
    DigitsField(h);
    DigitsField(m);
    DigitsField(s);
    HoursMinutesSeconds(Digits(h), Digits(m), Digits(s));
  }

  /** A field of one digit: free of ':' and read by int() and float() as its digit. */
  lemma OneDigitField(a: char, n: nat)
    requires IsDigit(a) && n == DigitValue(a)
    ensures ':' !in [a] && ParseInt([a]) == Some(n) && ParseFloat([a]) == Some(n as real)
  {
    ValueSingle(a);
    AllDigitsNoSpace([a]);
    ParseFloatOfInt([a]);
  }

  /** A field of two digits (possibly a leading zero, as in "03"). */
  lemma TwoDigitField(a: char, b: char, n: nat)
    requires IsDigit(a) && IsDigit(b) && n == 10 * DigitValue(a) + DigitValue(b)
    ensures ':' !in [a, b] && ParseInt([a, b]) == Some(n) && ParseFloat([a, b]) == Some(n as real)
  {
    var t := [a, b];
    assert t[..1] == [a];
    ValueSingle(a);
    AllDigitsNoSpace(t);
    ParseFloatOfInt(t);
  }

  /** `MM:SS` with two-digit fields, as the usage examples write it ("03:05"). */
  lemma TwoDigitClock(a: char, b: char, c: char, d: char, m: nat, s: nat)
    requires IsDigit(a) && IsDigit(b) && IsDigit(c) && IsDigit(d)
    requires m == 10 * DigitValue(a) + DigitValue(b) && s == 10 * DigitValue(c) + DigitValue(d)
    ensures ParseTime([a, b, ':', c, d]).Ok?
    ensures ParseTime([a, b, ':', c, d]).value == (60 * m + s) as real
  {
    TwoDigitField(a, b, m);
    TwoDigitField(c, d, s);
    assert [a, b, ':', c, d] == [a, b] + ":" + [c, d];
    MinutesSeconds([a, b], [c, d]);
  }

  /** `H:MM:SS` with a one-digit hour ("1:03:05"). */
  lemma OneDigitHourClock(h: char, a: char, b: char, c: char, d: char, x: nat, m: nat, s: nat)
    requires IsDigit(h) && IsDigit(a) && IsDigit(b) && IsDigit(c) && IsDigit(d)
    requires x == DigitValue(h)
    requires m == 10 * DigitValue(a) + DigitValue(b) && s == 10 * DigitValue(c) + DigitValue(d)
    ensures ParseTime([h, ':', a, b, ':', c, d]).Ok?
    ensures ParseTime([h, ':', a, b, ':', c, d]).value == (3600 * x + 60 * m + s) as real
  {
    OneDigitField(h, x);
    TwoDigitField(a, b, m);
    TwoDigitField(c, d, s);
    assert [h, ':', a, b, ':', c, d] == [h] + ":" + [a, b] + ":" + [c, d];
    HoursMinutesSeconds([h], [a, b], [c, d]);
  }

  /** The worked examples: "03:05" is 185 seconds and "1:03:05" is 3785. */
  lemma ClockExamples()
    ensures ParseTime("03:05").Ok? && ParseTime("03:05").value == 185.0
    ensures ParseTime("1:03:05").Ok? && ParseTime("1:03:05").value == 3785.0
  {
    TwoDigitClock('0', '3', '0', '5', 3, 5);
    OneDigitHourClock('1', '0', '3', '0', '5', 1, 3, 5);
  }

  /** "5" and "1:2:3:4" are refused for their field count. */
  lemma FieldCountExamples()
    ensures ParseTime("5") == Err(WrongFieldCount("5"))
    ensures ParseTime("1:2:3:4") == Err(WrongFieldCount("1:2:3:4"))
  {
    FieldCountRule("5");
    FieldCountRule("1:2:3:4");
  }

  /** `format_duration` for a whole number of milliseconds: `MM:SS.mmm` below
      an hour, `HH:MM:SS.mmm` from an hour on (fields zero-padded to two digits). */
  function FormatDuration(ms: nat): (text: string)
    ensures Count(text, ':') == if ms < 3_600_000 then 1 else 2
  {
    var hours := ms / 3_600_000;
    var minutes := (ms % 3_600_000) / 60_000;
    var secs := ms % 60_000;
    var h, m, f := PadDecimal(hours, 2), PadDecimal(minutes, 2), FixedText(secs);
    NoColonInDigits(h);
    NoColonInDigits(m);
    NoColonInFixed(secs);
    CountAbsent(h, ':');
    CountAbsent(m, ':');
    CountAbsent(f, ':');
    CountColonJoin(m, f);
    CountColonJoin(h, m);
    CountColonJoin(h + ":" + m, f);
    if hours > 0 then h + ":" + m + ":" + f
    else m + ":" + f
  }

  lemma CountColonJoin(a: string, b: string)
    ensures Count(a + ":" + b, ':') == Count(a, ':') + 1 + Count(b, ':')
  {
    CountConcat(a + ":", b, ':');
    CountConcat(a, ":", ':');
  }

  lemma NoColonInFixed(ms: nat)
    ensures ':' !in FixedText(ms)
  {
    NoColonInDigits(PadDecimal(ms / 1000, 2));
    NoColonInDigits(PadDecimal(ms % 1000, 3));
  }

  lemma PaddedField(n: nat)
    ensures ':' !in PadDecimal(n, 2) && ParseInt(PadDecimal(n, 2)) == Some(n)
  {
    NoColonInDigits(PadDecimal(n, 2));
    ParseIntPadded(n, 2);
  }

  lemma FixedField(ms: nat)
    ensures ':' !in FixedText(ms)
    ensures var x := ParseFloat(FixedText(ms)); x.Some? && x.value == ms as real / 1000.0
  {
    NoColonInFixed(ms);
    ParseFloatFixed(ms);
  }

  lemma ClockArith(hours: nat, minutes: nat, secs: nat)
    ensures hours as real * 3600.0 + minutes as real * 60.0 + secs as real / 1000.0
            == (3_600_000 * hours + 60_000 * minutes + secs) as real / 1000.0
    ensures minutes as real * 60.0 + secs as real / 1000.0
            == (60_000 * minutes + secs) as real / 1000.0
  {
  }

  lemma ShortShape(ms: nat)
    requires ms < 3_600_000
    ensures var minutes, secs := (ms % 3_600_000) / 60_000, ms % 60_000;
            && FormatDuration(ms) == PadDecimal(minutes, 2) + ":" + FixedText(secs)
            && ms == 60_000 * minutes + secs
  {
    assert ms / 3_600_000 == 0 && ms % 3_600_000 == ms;
    assert ms == 60_000 * (ms / 60_000) + ms % 60_000;
  }

  lemma LongShape(ms: nat)
    requires ms >= 3_600_000
    ensures var hours, minutes, secs := ms / 3_600_000, (ms % 3_600_000) / 60_000, ms % 60_000;
            && FormatDuration(ms)
               == PadDecimal(hours, 2) + ":" + PadDecimal(minutes, 2) + ":" + FixedText(secs)
            && ms == 3_600_000 * hours + 60_000 * minutes + secs
  {
    var hours, rest := ms / 3_600_000, ms % 3_600_000;
    assert hours > 0;
    assert ms == 3_600_000 * hours + rest;
    assert rest == 60_000 * (rest / 60_000) + rest % 60_000;
    assert ms % 60_000 == rest % 60_000;
  }

  lemma ShortClock(ms: nat)
    requires ms < 3_600_000
    ensures var r := ParseTime(FormatDuration(ms));
            r.Ok? && r.value == ms as real / 1000.0
  {
    var minutes, secs := (ms % 3_600_000) / 60_000, ms % 60_000;
    ShortShape(ms);
    PaddedField(minutes);
    FixedField(secs);
    ClockArith(0, minutes, secs);
    MinutesSeconds(PadDecimal(minutes, 2), FixedText(secs));
  }

  lemma LongClock(ms: nat)
    requires ms >= 3_600_000
    ensures var r := ParseTime(FormatDuration(ms));
            r.Ok? && r.value == ms as real / 1000.0
  {
    var hours, minutes, secs := ms / 3_600_000, (ms % 3_600_000) / 60_000, ms % 60_000;
    LongShape(ms);
    PaddedField(hours);
    PaddedField(minutes);
    FixedField(secs);
    ClockArith(hours, minutes, secs);
    HoursMinutesSeconds(PadDecimal(hours, 2), PadDecimal(minutes, 2), FixedText(secs));
  }

  /** Reading back what `format_duration` prints gives the same number of
      seconds: the two time formats of the program agree. */
  lemma FormatDurationRoundTrip(ms: nat)
    ensures var r := ParseTime(FormatDuration(ms));
            r.Ok? && r.value == ms as real / 1000.0
  {
    if ms < 3_600_000 {
      ShortClock(ms);
    } else {
      LongClock(ms);
    }
  }
}
