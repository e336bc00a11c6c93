/** `parse_segments`: a text `start-end|start-end|...` becomes the ordered list
    of (start, end) pairs of seconds to cut. */
module Segments {
  import opened Results
  import opened Text
  import opened TimeSpec
  import opened Numerals

  /** One span of the input video, in seconds. */
  datatype Segment = Segment(start: real, end: real)

  /** Why a segments text was rejected (all raised as ValueError by the source). */
  datatype SegmentError =
    | BadTime(error: TimeError)        // parse_time_to_seconds refused start or end
    | MissingDash(token: string)       // a non-empty token without '-'
    | EndNotAfterStart(token: string)  // end <= start

  /** One stripped, non-empty token: split at its first '-', read both times,
      and demand that the end comes strictly after the start. */
  function ParseRange(token: string): (r: Result<Segment, SegmentError>)
    ensures r.Ok? ==> r.value.start < r.value.end
    ensures (r.Err? && r.error.MissingDash?) <==> '-' !in token
  {
    if '-' !in token then Err(MissingDash(token))
    else
      var halves := SplitFirst(token, '-');
      match ParseTime(halves.0)
      case Err(e) => Err(BadTime(e))
      case Ok(start) =>
        match ParseTime(halves.1)
        case Err(e) => Err(BadTime(e))
        case Ok(end) =>
          if end <= start then Err(EndNotAfterStart(token)) else Ok(Segment(start, end))
  }

  /** The parts that are not blank, stripped, in their original order. */
  function Tokens(parts: seq<string>): seq<string> {
    if parts == [] then []
    else
      var t := Strip(parts[|parts| - 1]);
      Tokens(parts[..|parts| - 1]) + (if t == [] then [] else [t])
  }

  /** Each token's reading, in token order. */
  function Readings(tokens: seq<string>): (rs: seq<Result<Segment, SegmentError>>)
    ensures |rs| == |tokens|
    ensures forall k :: 0 <= k < |tokens| ==> rs[k] == ParseRange(tokens[k])
  {
    seq(|tokens|, k requires 0 <= k < |tokens| => ParseRange(tokens[k]))
  }

  /** Going through readings left to right: the first error, or all the values. */
  function Collect<T, E>(rs: seq<Result<T, E>>): Result<seq<T>, E> {
    if rs == [] then Ok([])
    else
      match Collect(rs[..|rs| - 1])
      case Err(e) => Err(e)
      case Ok(values) =>
        match rs[|rs| - 1]
        case Err(e) => Err(e)
        case Ok(v) => Ok(values + [v])
  }

  /** What `parse_segments` returns or raises for `text`. */
  function SegmentsOf(text: string): Result<seq<Segment>, SegmentError> {
    Collect(Readings(Tokens(Split(text, '|'))))
  }

  lemma TokensStep(parts: seq<string>, i: nat)
    requires i < |parts|
    ensures var t := Strip(parts[i]);
            Tokens(parts[..i + 1]) == Tokens(parts[..i]) + (if t == [] then [] else [t])
  {
    assert parts[..i + 1][..i] == parts[..i];
  }

  lemma ReadingsStep(tokens: seq<string>, t: string)
    ensures Readings(tokens + [t]) == Readings(tokens) + [ParseRange(t)]
  {
  }

  lemma ReadingsPrefix(a: seq<string>, b: seq<string>)
    requires a <= b
    ensures Readings(a) <= Readings(b)
  {
    assert Readings(a) == Readings(b)[..|a|];
  }

  lemma CollectStep<T, E>(rs: seq<Result<T, E>>, r: Result<T, E>)
    ensures Collect(rs + [r]) == match Collect(rs)
      case Err(e) => Err(e)
      case Ok(values) =>
        match r
        case Err(e) => Err(e)
        case Ok(v) => Ok(values + [v])
  {
    assert (rs + [r])[..|rs|] == rs;
  }

  /** Tokens of a prefix of the parts are a prefix of the tokens. */
  lemma {:induction false} TokensPrefix(parts: seq<string>, i: nat)
    requires i <= |parts|
    ensures Tokens(parts[..i]) <= Tokens(parts)
    decreases |parts| - i
  {
    if i < |parts| {
      var n := |parts| - 1;
      assert parts[..n][..i] == parts[..i];
      TokensPrefix(parts[..n], i);
    } else {
      assert parts[..i] == parts;
    }
  }

  /** Once a prefix of the readings fails, the whole fails the same way. */
  lemma {:induction false} CollectPrefixErr<T, E>(prefix: seq<Result<T, E>>, rs: seq<Result<T, E>>)
    requires prefix <= rs && Collect(prefix).Err?
    ensures Collect(rs) == Collect(prefix)
    decreases |rs|
  {
    if |rs| > |prefix| {
      var front := rs[..|rs| - 1];
      assert prefix <= front;
      CollectPrefixErr(prefix, front);
    } else {
      assert prefix == rs;
    }
  }

  /** `parse_segments` itself: split on '|', strip every part, skip the
      blank ones, and read the rest in order; the first bad token raises. */
  method ParseSegments(text: string) returns (r: Result<seq<Segment>, SegmentError>)
    ensures r == SegmentsOf(text)
  {
    var parts := Split(text, '|');
    var segments: seq<Segment> := [];
    var i := 0;
    while i < |parts|
      invariant 0 <= i <= |parts|
      invariant Collect(Readings(Tokens(parts[..i]))) == Ok(segments)
    {
      var segment := Strip(parts[i]);
      ghost var done := Tokens(parts[..i]);
      assert Tokens(parts[..i + 1]) == done + (if segment == [] then [] else [segment]) by {
        TokensStep(parts, i);
      }
      if segment != [] {
        var reading := ParseRange(segment);
        ghost var next := Tokens(parts[..i + 1]);
        assert Readings(next) == Readings(done) + [reading] by {
          ReadingsStep(done, segment);
        }
        CollectStep(Readings(done), reading);
        if reading.Err? {
          r := Err(reading.error);
          assert Collect(Readings(Tokens(parts))) == r by {
            TokensPrefix(parts, i + 1);
            ReadingsPrefix(next, Tokens(parts));
            CollectPrefixErr(Readings(next), Readings(Tokens(parts)));
          }
          return;
        }
        segments := segments + [reading.value];
        assert Collect(Readings(next)) == Ok(segments);
      } else {
        assert Tokens(parts[..i + 1]) == done;
      }
      i := i + 1;
    }
    assert parts[..i] == parts;
    r := Ok(segments);
  }

  /** Collecting succeeds exactly when every reading succeeds, and then it
      holds every value, in order. */
  lemma {:induction false} CollectOk<T, E>(rs: seq<Result<T, E>>)
    ensures Collect(rs).Ok? <==> forall k :: 0 <= k < |rs| ==> rs[k].Ok?
    ensures Collect(rs).Ok? ==>
              && |Collect(rs).value| == |rs|
              && forall k :: 0 <= k < |rs| ==> Collect(rs).value[k] == rs[k].value
  {
    if rs != [] {
      var n := |rs| - 1;
      var front := rs[..n];
      CollectOk(front);
      assert rs == front + [rs[n]];
      CollectStep(front, rs[n]);
      assert forall k :: 0 <= k < n ==> front[k] == rs[k];
    }
  }

  /** The error collected is the one of the first failing reading. */
  lemma CollectFirstErr<T, E>(rs: seq<Result<T, E>>, k: nat)
    requires k < |rs| && rs[k].Err?
    requires forall j :: 0 <= j < k ==> rs[j].Ok?
    ensures Collect(rs) == Err(rs[k].error)
  {
    var front := rs[..k];
    CollectOk(front);
    assert rs[..k + 1] == front + [rs[k]];
    CollectStep(front, rs[k]);
    CollectPrefixErr(rs[..k + 1], rs);
  }

  /** `parse_segments` succeeds exactly when every non-blank part parses as a
      range, and then yields that part's pair, one per part, in order. */
  lemma SegmentsOk(text: string, tokens: seq<string>)
    requires tokens == Tokens(Split(text, '|'))
    ensures SegmentsOf(text).Ok? <==> forall k :: 0 <= k < |tokens| ==> ParseRange(tokens[k]).Ok?
    ensures SegmentsOf(text).Ok? ==>
              && |SegmentsOf(text).value| == |tokens|
              && forall k :: 0 <= k < |tokens| ==> SegmentsOf(text).value[k] == ParseRange(tokens[k]).value
  {
    var rs := Readings(tokens);
    CollectOk(rs);
    assert SegmentsOf(text) == Collect(rs);
    if forall k :: 0 <= k < |tokens| ==> ParseRange(tokens[k]).Ok? {
      assert forall k :: 0 <= k < |rs| ==> rs[k].Ok?;
    }
  }

  /** `parse_segments` raises the error of the first non-blank part that does not parse. */
  lemma SegmentsFirstError(text: string, tokens: seq<string>, k: nat)
    requires tokens == Tokens(Split(text, '|'))
    requires k < |tokens| && ParseRange(tokens[k]).Err?
    requires forall j :: 0 <= j < k ==> ParseRange(tokens[j]).Ok?
    ensures SegmentsOf(text) == Err(ParseRange(tokens[k]).error)
  {
    CollectFirstErr(Readings(tokens), k);
  }

  /** On success every pair starts strictly before it ends. */
  lemma SegmentsOrdered(text: string)
    requires SegmentsOf(text).Ok?
    ensures forall k :: 0 <= k < |SegmentsOf(text).value| ==>
              SegmentsOf(text).value[k].start < SegmentsOf(text).value[k].end
  {
    SegmentsOk(text, Tokens(Split(text, '|')));
  }

  /** Every token is a non-empty, already stripped part of the text. */
  lemma {:induction false} TokensStripped(parts: seq<string>)
    ensures forall k :: 0 <= k < |Tokens(parts)| ==>
              Tokens(parts)[k] != [] && Strip(Tokens(parts)[k]) == Tokens(parts)[k]
  {
    if parts != [] {
      var n := |parts| - 1;
      TokensStripped(parts[..n]);
      StripIdempotent(parts[n]);
    }
  }

  /** There are no tokens exactly when every part is blank. */
  lemma {:induction false} TokensEmpty(parts: seq<string>)
    ensures Tokens(parts) == [] <==> forall k :: 0 <= k < |parts| ==> IsBlank(parts[k])
  {
    if parts != [] {
      var n := |parts| - 1;
      TokensEmpty(parts[..n]);
      StripBlank(parts[n]);
      assert forall k :: 0 <= k < n ==> parts[..n][k] == parts[k];
    }
  }

  /** The tokens of two runs of parts are those of the first run, in order,
      then those of the second. */
  lemma {:induction false} TokensConcat(a: seq<string>, b: seq<string>)
    ensures Tokens(a + b) == Tokens(a) + Tokens(b)
    decreases |b|
  {
    if b == [] {
      assert a + b == a;
    } else {
      assert (a + b)[..|a + b| - 1] == a + b[..|b| - 1];
      TokensConcat(a, b[..|b| - 1]);
    }
  }

  /** A single part gives its stripped text as a token, unless it is blank. */
  lemma TokensSingle(part: string)
    ensures Tokens([part]) == if IsBlank(part) then [] else [Strip(part)]
  {
    assert [part][..0] == [];
    StripBlank(part);
  }

  /** Parts that are already stripped and non-empty are the tokens themselves. */
  lemma {:induction false} TokensOfStripped(parts: seq<string>)
    requires forall k :: 0 <= k < |parts| ==> parts[k] != [] && Strip(parts[k]) == parts[k]
    ensures Tokens(parts) == parts
  {
    if parts != [] {
      var n := |parts| - 1;
      TokensOfStripped(parts[..n]);
      assert parts == parts[..n] + [parts[n]];
    }
  }

  /** Blank parts are skipped: a text whose parts are all blank is no segments, not an error. */
  lemma BlankTextNoSegments(text: string)
    requires forall k :: 0 <= k < |Split(text, '|')| ==> IsBlank(Split(text, '|')[k])
    ensures SegmentsOf(text) == Ok([])
  {
    TokensEmpty(Split(text, '|'));
  }

  /** "" and "|" give the empty list. */
  lemma EmptyExamples()
    ensures SegmentsOf("") == Ok([])
    ensures SegmentsOf("|") == Ok([])
  {
    assert Split("", '|') == [""];
    assert Split("|", '|') == ["", ""] by {
      SplitJoin(["", ""], '|');
    }
    BlankTextNoSegments("");
    BlankTextNoSegments("|");
  }

  /** A token is cut at its first '-': the start is everything before it. */
  lemma RangeOfParts(a: string, b: string)
    requires '-' !in a
    ensures var r := ParseRange(a + "-" + b);
            && (r.Ok? <==> ParseTime(a).Ok? && ParseTime(b).Ok? && ParseTime(a).value < ParseTime(b).value)
            && (r.Ok? ==> r.value == Segment(ParseTime(a).value, ParseTime(b).value))
            && (r.Err? && r.error.EndNotAfterStart? <==>
                ParseTime(a).Ok? && ParseTime(b).Ok? && ParseTime(b).value <= ParseTime(a).value)
  {
    assert a + "-" + b == a + ['-'] + b;
    SplitFirstUnique(a, b, '-');
  }

  lemma RangeOfTimes(a: string, b: string, x: real, y: real)
    requires '-' !in a && x < y
    requires ParseTime(a).Ok? && ParseTime(a).value == x
    requires ParseTime(b).Ok? && ParseTime(b).value == y
    ensures ParseRange(a + "-" + b) == Ok(Segment(x, y))
  {
    RangeOfParts(a, b);
  }

  /** A text with no whitespace at either end is its own strip. */
  lemma PrintableEnds(s: string)
    requires s != [] && '!' <= s[0] <= '~' && '!' <= s[|s| - 1] <= '~'
    ensures Strip(s) == s
  {
    PrintableNotSpace(s[0]);
    PrintableNotSpace(s[|s| - 1]);
    StripExact(s);
  }

  /** Three stripped, non-empty parts joined by '|' are the three tokens. */
  lemma ThreeTokens(p: string, q: string, r: string)
    requires '|' !in p && '|' !in q && '|' !in r
    requires p != [] && q != [] && r != []
    requires Strip(p) == p && Strip(q) == q && Strip(r) == r
    ensures Tokens(Split(p + "|" + q + "|" + r, '|')) == [p, q, r]
  {
    var parts := [p, q, r];
    assert parts[1..][1..] == [r];
    assert Join(parts[1..], '|') == q + "|" + r;
    assert Join(parts, '|') == p + "|" + q + "|" + r;
    SplitJoin(parts, '|');
    TokensOfStripped(parts);
  }

  /** The usage text "03:05-03:10|40:05-40:10|1:03:05-1:04:05", written
      piecewise around its separators. */
  function UsageText(): string {
    ("03:05" + "-" + "03:10") + "|" + ("40:05" + "-" + "40:10") + "|" + ("1:03:05" + "-" + "1:04:05")
  }

  /** A range between two `MM:SS` clocks. */
  lemma MinuteRange(a: char, b: char, c: char, d: char, e: char, f: char, g: char, h: char, x: real, y: real)
    requires IsDigit(a) && IsDigit(b) && IsDigit(c) && IsDigit(d)
    requires IsDigit(e) && IsDigit(f) && IsDigit(g) && IsDigit(h)
    requires x == (60 * (10 * DigitValue(a) + DigitValue(b)) + 10 * DigitValue(c) + DigitValue(d)) as real
    requires y == (60 * (10 * DigitValue(e) + DigitValue(f)) + 10 * DigitValue(g) + DigitValue(h)) as real
    requires x < y
    ensures ParseRange([a, b, ':', c, d] + "-" + [e, f, ':', g, h]) == Ok(Segment(x, y))
  {
    TwoDigitClock(a, b, c, d, 10 * DigitValue(a) + DigitValue(b), 10 * DigitValue(c) + DigitValue(d));
    TwoDigitClock(e, f, g, h, 10 * DigitValue(e) + DigitValue(f), 10 * DigitValue(g) + DigitValue(h));
    RangeOfTimes([a, b, ':', c, d], [e, f, ':', g, h], x, y);
  }

  /** A range between two `H:MM:SS` clocks. */
  lemma HourRange(h: char, a: char, b: char, c: char, d: char, i: char, e: char, f: char, g: char, k: char,
                  x: real, y: real)
    requires IsDigit(h) && IsDigit(a) && IsDigit(b) && IsDigit(c) && IsDigit(d)
    requires IsDigit(i) && IsDigit(e) && IsDigit(f) && IsDigit(g) && IsDigit(k)
    requires x == (3600 * DigitValue(h) + 60 * (10 * DigitValue(a) + DigitValue(b)) + 10 * DigitValue(c) + DigitValue(d)) as real
    requires y == (3600 * DigitValue(i) + 60 * (10 * DigitValue(e) + DigitValue(f)) + 10 * DigitValue(g) + DigitValue(k)) as real
    requires x < y
    ensures ParseRange([h, ':', a, b, ':', c, d] + "-" + [i, ':', e, f, ':', g, k]) == Ok(Segment(x, y))
  {
    OneDigitHourClock(h, a, b, c, d, DigitValue(h), 10 * DigitValue(a) + DigitValue(b), 10 * DigitValue(c) + DigitValue(d));
    OneDigitHourClock(i, e, f, g, k, DigitValue(i), 10 * DigitValue(e) + DigitValue(f), 10 * DigitValue(g) + DigitValue(k));
    RangeOfTimes([h, ':', a, b, ':', c, d], [i, ':', e, f, ':', g, k], x, y);
  }

  lemma UsageRange1()
    ensures ParseRange("03:05" + "-" + "03:10") == Ok(Segment(185.0, 190.0))
  {
    MinuteRange('0', '3', '0', '5', '0', '3', '1', '0', 185.0, 190.0);
  }

  lemma UsageRange2()
    ensures ParseRange("40:05" + "-" + "40:10") == Ok(Segment(2405.0, 2410.0))
  {
    MinuteRange('4', '0', '0', '5', '4', '0', '1', '0', 2405.0, 2410.0);
  }

  lemma UsageRange3()
    ensures ParseRange("1:03:05" + "-" + "1:04:05") == Ok(Segment(3785.0, 3845.0))
  {
    HourRange('1', '0', '3', '0', '5', '1', '0', '4', '0', '5', 3785.0, 3845.0);
  }

  lemma CollectThree<T, E>(rs: seq<Result<T, E>>)
    requires |rs| == 3 && rs[0].Ok? && rs[1].Ok? && rs[2].Ok?
    ensures Collect(rs) == Ok([rs[0].value, rs[1].value, rs[2].value])
  {
    var x, y, z := rs[0].value, rs[1].value, rs[2].value;
    assert rs[..2][..1] == rs[..1];
    assert rs[..1][..0] == [];
    assert [] + [x] == [x];
    assert Collect(rs[..1]) == Ok([x]);
    assert [x] + [y] == [x, y];
    assert Collect(rs[..2]) == Ok([x, y]);
    assert [x, y] + [z] == [x, y, z];
  }

  /** A text of three tokens gives their three segments, in order. */
  lemma ThreeSegments(text: string, p: string, q: string, r: string, a: Segment, b: Segment, c: Segment)
    requires Tokens(Split(text, '|')) == [p, q, r]
    requires ParseRange(p) == Ok(a) && ParseRange(q) == Ok(b) && ParseRange(r) == Ok(c)
    ensures SegmentsOf(text) == Ok([a, b, c])
  {
    var rs := Readings([p, q, r]);
    assert rs[0] == Ok(a) && rs[1] == Ok(b) && rs[2] == Ok(c);
    CollectThree(rs);
  }

  /** The usage example: three ranges, in order, as (start, end) seconds. */
  lemma UsageExample()
    ensures SegmentsOf(UsageText())
            == Ok([Segment(185.0, 190.0), Segment(2405.0, 2410.0), Segment(3785.0, 3845.0)])
  {
    var p, q, r := "03:05" + "-" + "03:10", "40:05" + "-" + "40:10", "1:03:05" + "-" + "1:04:05";
    PrintableEnds(p);
    PrintableEnds(q);
    PrintableEnds(r);
    ThreeTokens(p, q, r);
    UsageRange1();
    UsageRange2();
    UsageRange3();
    ThreeSegments(UsageText(), p, q, r, Segment(185.0, 190.0), Segment(2405.0, 2410.0), Segment(3785.0, 3845.0));
  }
}
