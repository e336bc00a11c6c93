/** The console prompts of the interactive front end. Each `input()` call
    becomes the next string of a supplied sequence of typed lines; running
    out of lines is Python's `EOFError`. */
module Prompts {
  import opened Results
  import opened Text
  import opened Numerals

  /** Python's truth value of an optional string default: None and "" are false. */
  predicate GivenText(default: Option<string>) {
    default.Some? && default.value != []
  }

  /** `get_input`: the stripped response, the default for an empty response
      when a non-empty default is given, or None for an empty response to an
      optional question. */
  function GetInput(response: string, default: Option<string>, optional: bool): (r: Option<string>)
    ensures r.None? <==> Strip(response) == [] && !GivenText(default) && optional
  {
    var value := Strip(response);
    if value == [] && GivenText(default) then default
    else if value == [] && optional then None
    else Some(value)
  }

  /** An empty response takes a non-empty default, whether or not the question is optional. */
  lemma GetInputDefault(response: string, default: string, optional: bool)
    requires IsBlank(response) && default != []
    ensures GetInput(response, Some(default), optional) == Some(default)
  {
    StripBlank(response);
  }

  /** Anything else comes back stripped of surrounding whitespace: never padded,
      and the same for every padding of the same text. A question with no
      default that is not optional answers "" to an empty response. */
  lemma GetInputStripped(response: string, default: Option<string>, optional: bool)
    requires !(IsBlank(response) && GivenText(default))
    ensures var r := GetInput(response, default, optional);
            (r.Some? ==> Strip(r.value) == r.value)
            && ((!IsBlank(response) || !optional) ==> r == Some(Strip(response)))
  {
    StripBlank(response);
    StripIdempotent(response);
  }

  lemma GetInputPadding(a: string, response: string, b: string, default: Option<string>, optional: bool)
    requires IsBlank(a) && IsBlank(b)
    ensures GetInput(a + response + b, default, optional) == GetInput(response, default, optional)
  {
    StripPadded(a, response, b);
  }

  /** The words `get_yes_no` takes as yes, after stripping and lower-casing. */
  predicate Affirmative(word: string) {
    word == "y" || word == "yes" || word == "1" || word == "true"
  }

  /** `get_yes_no`: an empty response keeps the default; anything else is yes
      exactly when it is one of the affirmative words. */
  function GetYesNo(response: string, default: bool): (yes: bool)
    ensures IsBlank(response) ==> yes == default
    ensures !IsBlank(response) ==> (yes <==> Affirmative(Lower(Strip(response))))
  {
    var word := Lower(Strip(response));
    StripBlank(response);
    if word == [] then default else Affirmative(word)
  }

  /** The answer does not depend on letter case or surrounding whitespace. */
  lemma YesNoIgnoresCase(response: string, default: bool)
    ensures GetYesNo(Lower(response), default) == GetYesNo(response, default)
  {
    StripLower(response);
    LowerIdempotent(Strip(response));
  }

  lemma YesNoPadding(a: string, response: string, b: string, default: bool)
    requires IsBlank(a) && IsBlank(b)
    ensures GetYesNo(a + response + b, default) == GetYesNo(response, default)
  {
    StripPadded(a, response, b);
  }

  lemma YesNoExamples()
    ensures GetYesNo("Y", false) && GetYesNo("yes", false) && GetYesNo("1", false)
    ensures !GetYesNo("n", true) && !GetYesNo("no", true)
  {
    StripExact("Y");
    StripExact("yes");
    StripExact("1");
    StripExact("n");
    StripExact("no");
    assert Lower("Y") == "y";
    assert Lower("yes") == "yes";
    assert Lower("n") == "n";
    assert Lower("no") == "no";
  }

  lemma {:induction false} TrimStartLower(s: string)
    ensures TrimStart(Lower(s)) == Lower(TrimStart(s))
  {
    if s != [] {
      assert Lower(s)[1..] == Lower(s[1..]);
      if IsSpace(s[0]) {
        TrimStartLower(s[1..]);
      }
    }
  }

  lemma {:induction false} TrimEndLower(s: string)
    ensures TrimEnd(Lower(s)) == Lower(TrimEnd(s))
  {
    if s != [] {
      assert Lower(s)[..|s| - 1] == Lower(s[..|s| - 1]);
      if IsSpace(s[|s| - 1]) {
        TrimEndLower(s[..|s| - 1]);
      }
    }
  }

  lemma StripLower(s: string)
    ensures Strip(Lower(s)) == Lower(Strip(s))
  {
    TrimStartLower(s);
    TrimEndLower(TrimStart(s));
  }

  lemma LowerIdempotent(s: string)
    ensures Lower(Lower(s)) == Lower(s)
  {
  }

  /** Python's truth value of an optional integer default: None and 0 are false. */
  predicate GivenNumber(default: Option<int>) {
    default.Some? && default.value != 0
  }

  /** What one response to `get_choice` gives: the default for an empty
      response when one is given, a number from 1 to the option count, or
      nothing, which makes the prompt ask again. */
  function Answer(response: string, count: nat, default: Option<int>): (a: Option<int>)
    ensures IsBlank(response) && GivenNumber(default) ==> a == Some(default.value)
    ensures !(IsBlank(response) && GivenNumber(default)) ==>
              (a.Some? <==> ParseInt(response).Some? && 1 <= ParseInt(response).value <= count)
              && (a.Some? ==> a.value == ParseInt(response).value)
  {
    var choice := Strip(response);
    StripBlank(response);
    StripIdempotent(response);
    if choice == [] && GivenNumber(default) then Some(default.value)
    else
      match ParseInt(choice)
      case Some(n) => if 1 <= n <= count then Some(n) else None
      case None => None
  }

  /** The first response that gives an answer, with its answer and position. */
  function FirstAnswer(responses: seq<string>, count: nat, default: Option<int>): (r: Option<(int, nat)>)
    ensures r.Some? ==> r.value.1 < |responses| && Answer(responses[r.value.1], count, default) == Some(r.value.0)
                        && forall j :: 0 <= j < r.value.1 ==> Answer(responses[j], count, default).None?
    ensures r.None? ==> forall j :: 0 <= j < |responses| ==> Answer(responses[j], count, default).None?
  {
    if responses == [] then None
    else match Answer(responses[0], count, default)
      case Some(n) => Some((n, 0))
      case None =>
        match FirstAnswer(responses[1..], count, default)
        case Some(p) => Some((p.0, p.1 + 1))
        case None => None
  }

  /** `get_choice`: asks until a response gives an answer. Returns the answer
      (None when the typed lines run out) and how many lines it read. */
  method GetChoice(responses: seq<string>, count: nat, default: Option<int>) returns (choice: Option<int>, used: nat)
    ensures used <= |responses|
    ensures choice.Some? ==> 1 <= used && FirstAnswer(responses, count, default) == Some((choice.value, used - 1))
    ensures choice.None? ==> FirstAnswer(responses, count, default).None? && used == |responses|
  {
    var i := 0;
    while i < |responses|
      invariant 0 <= i <= |responses|
      invariant forall j :: 0 <= j < i ==> Answer(responses[j], count, default).None?
    {
      var answer := Answer(responses[i], count, default);
      if answer.Some? {
        return answer, i + 1;
      }
      i := i + 1;
    }
    return None, i;
  }

  /** Whatever `get_choice` returns is the default it was given, or a number
      from 1 to the option count. */
  lemma ChoiceInRange(responses: seq<string>, count: nat, default: Option<int>)
    requires FirstAnswer(responses, count, default).Some?
    ensures var n := FirstAnswer(responses, count, default).value.0;
            (GivenNumber(default) && n == default.value) || 1 <= n <= count
  {
  }

  /** A response that is neither empty-with-a-default nor a number in range is
      skipped: the answer comes from the lines after it. */
  lemma ChoiceAsksAgain(responses: seq<string>, count: nat, default: Option<int>)
    requires responses != [] && Answer(responses[0], count, default).None?
    ensures var r := FirstAnswer(responses, count, default);
            var q := FirstAnswer(responses[1..], count, default);
            (r.Some? <==> q.Some?) && (r.Some? ==> r.value == (q.value.0, q.value.1 + 1))
  {
  }

  /** `mode_map` of the interactive `main`. */
  const ModeMap: map<int, string> := map[1 := "fast", 2 := "balanced", 3 := "accurate"]

  /** `mode_map[choice]`; a choice outside the map raises `KeyError` (None). */
  function ModeFor(choice: int): (mode: Option<string>)
    ensures mode.Some? <==> 1 <= choice <= 3
  {
    if choice in ModeMap then Some(ModeMap[choice]) else None
  }

  /** The three-way mode question with default 2 always yields one of the three
      modes: the lookup in `mode_map` cannot fail. */
  lemma ModeAlwaysKnown(responses: seq<string>)
    requires FirstAnswer(responses, 3, Some(2)).Some?
    ensures var mode := ModeFor(FirstAnswer(responses, 3, Some(2)).value.0);
            mode.Some? && (mode.value == "fast" || mode.value == "balanced" || mode.value == "accurate")
  {
  }

  lemma ModeNames()
    ensures ModeFor(1) == Some("fast") && ModeFor(2) == Some("balanced") && ModeFor(3) == Some("accurate")
  {
  }
}
