/** `get_gdrive_credentials` of the interactive front end: the paste loop that
    reads a service-account key until two blank lines in a row, and the check
    that the decoded key names the four fields the uploader needs. Decoding
    the text (`json.loads`) is a parameter. */
module Credentials {
  import opened Results
  import opened Text

  /** A decoded JSON document. */
  datatype Json =
    | Null
    | Bool(b: bool)
    | Number(n: real)
    | Str(s: string)
    | Array(items: seq<Json>)
    | Object(fields: map<string, Json>)

  /** Python's truth value of a decoded document. */
  predicate Truthy(doc: Json) {
    match doc
    case Null => false
    case Bool(b) => b
    case Number(n) => n != 0.0
    case Str(s) => s != []
    case Array(items) => items != []
    case Object(fields) => fields != map[]
  }

  /** What `key in doc` does: a key of an object, an element of a list, a
      substring of a string; for null, booleans and numbers it raises `TypeError`. */
  datatype Membership = Present | Absent | NotSearchable

  predicate Substring(key: string, s: string) {
    exists i :: 0 <= i <= |s| && key <= s[i..]
  }

  function Member(doc: Json, key: string): (m: Membership)
    ensures m.NotSearchable? <==> doc.Null? || doc.Bool? || doc.Number?
  {
    match doc
    case Object(fields) => if key in fields then Present else Absent
    case Array(items) => if Str(key) in items then Present else Absent
    case Str(s) => if Substring(key, s) then Present else Absent
    case _ => NotSearchable
  }

  const RequiredFields: seq<string> := ["type", "project_id", "private_key", "client_email"]

  predicate HasRequiredFields(doc: Json) {
    forall k :: 0 <= k < |RequiredFields| ==> Member(doc, RequiredFields[k]) == Present
  }

  /** The outcome of the required-field loop. */
  datatype FieldCheck = AllPresent | MissingField(field: string) | CheckRaised

  /** The required-field loop: the first field not in the document is
      reported; a document that cannot be searched raises on the first field. */
  method CheckRequiredFields(doc: Json) returns (r: FieldCheck)
    ensures r.AllPresent? <==> HasRequiredFields(doc)
    ensures r.CheckRaised? <==> doc.Null? || doc.Bool? || doc.Number?
    ensures r.MissingField? ==>
              exists k :: 0 <= k < |RequiredFields| && RequiredFields[k] == r.field
                          && Member(doc, r.field) == Absent
                          && forall j :: 0 <= j < k ==> Member(doc, RequiredFields[j]) == Present
  {
    var k := 0;
    while k < |RequiredFields|
      invariant 0 <= k <= |RequiredFields|
      invariant forall j :: 0 <= j < k ==> Member(doc, RequiredFields[j]) == Present
    {
      var field := RequiredFields[k];
      var m := Member(doc, field);
      if m == NotSearchable {
        return CheckRaised;
      }
      if m == Absent {
        return MissingField(field);
      }
      k := k + 1;
    }
    assert Member(doc, RequiredFields[0]) == Present;
    return AllPresent;
  }

  /** A document that has every required field is true, so the caller keeps it. */
  lemma RequiredFieldsTruthy(doc: Json)
    requires HasRequiredFields(doc)
    ensures Truthy(doc)
  {
    assert Member(doc, RequiredFields[0]) == Present;
    match doc
    case Object(fields) =>
      assert RequiredFields[0] in fields;
    case Array(items) =>
      assert Str(RequiredFields[0]) in items;
    case Str(s) =>
      var i :| 0 <= i <= |s| && RequiredFields[0] <= s[i..];
      assert |s[i..]| >= 4;
    case _ =>
  }

  /** The characters of `"\n".join(lines)`. */
  function JoinLines(lines: seq<string>): string {
    if lines == [] then [] else Join(lines, '\n')
  }

  /** The non-blank lines, in order. */
  function NonBlank(lines: seq<string>): (kept: seq<string>)
    ensures |kept| <= |lines|
    ensures forall k :: 0 <= k < |kept| ==> !IsBlank(kept[k])
  {
    if lines == [] then []
    else
      var last := lines[|lines| - 1];
      NonBlank(lines[..|lines| - 1]) + (if IsBlank(last) then [] else [last])
  }

  /** Only blank lines: nothing is kept. */
  lemma {:induction false} NonBlankEmpty(lines: seq<string>)
    ensures NonBlank(lines) == [] <==> forall k :: 0 <= k < |lines| ==> IsBlank(lines[k])
  {
    if lines != [] {
      var init := lines[..|lines| - 1];
      NonBlankEmpty(init);
      assert forall k :: 0 <= k < |init| ==> init[k] == lines[k];
    }
  }

  /** Filtering two runs of lines one after the other keeps the lines of the
      first run, in order, then those of the second: the order of the paste is kept. */
  lemma {:induction false} NonBlankConcat(a: seq<string>, b: seq<string>)
    ensures NonBlank(a + b) == NonBlank(a) + NonBlank(b)
    decreases |b|
  {
    if b == [] {
      assert a + b == a;
    } else {
      var init := b[..|b| - 1];
      var last := b[|b| - 1];
      assert (a + b)[..|a + b| - 1] == a + init;
      NonBlankConcat(a, init);
    }
  }

  /** A single line is kept exactly when it is not blank, and then as itself. */
  lemma NonBlankSingle(line: string)
    ensures NonBlank([line]) == if IsBlank(line) then [] else [line]
  {
    assert [line][..0] == [];
  }

  /** Every typed line that is not blank is kept, as the same line. */
  lemma {:induction false} NonBlankKeeps(lines: seq<string>, k: nat)
    requires k < |lines| && !IsBlank(lines[k])
    ensures lines[k] in NonBlank(lines)
  {
    var init := lines[..|lines| - 1];
    if k < |lines| - 1 {
      assert init[k] == lines[k];
      NonBlankKeeps(init, k);
    }
  }

  /** The joined paste is blank exactly when nothing was kept. */
  lemma JoinedBlank(kept: seq<string>)
    requires forall k :: 0 <= k < |kept| ==> !IsBlank(kept[k])
    ensures IsBlank(JoinLines(kept)) <==> kept == []
  {
    if kept != [] {
      var first := kept[0];
      var i :| 0 <= i < |first| && !IsSpace(first[i]);
      if |kept| > 1 {
        assert Join(kept, '\n') == first + ['\n'] + Join(kept[1..], '\n');
      }
      assert JoinLines(kept)[i] == first[i];
    }
  }

  /** Two blank lines in a row end at line c (counting from 1). */
  predicate DoubleBlankAt(input: seq<string>, c: nat) {
    2 <= c <= |input| && IsBlank(input[c - 2]) && IsBlank(input[c - 1])
  }

  /** The number of lines the paste loop reads: up to the first two blank
      lines in a row, or None when the typed lines run out first. */
  function PasteEnd(input: seq<string>, from: nat): (r: Option<nat>)
    requires 2 <= from
    ensures r.Some? ==> from <= r.value && DoubleBlankAt(input, r.value)
                        && forall c :: from <= c < r.value ==> !DoubleBlankAt(input, c)
    ensures r.None? ==> forall c :: from <= c ==> !DoubleBlankAt(input, c)
    decreases |input| + 1 - from
  {
    if from > |input| then None
    else if DoubleBlankAt(input, from) then Some(from)
    else PasteEnd(input, from + 1)
  }

  /** What the paste loop ends with: the kept lines, the lines read, and
      whether two blank lines in a row were reached (otherwise `input()` raised `EOFError`). */
  datatype Paste = Paste(kept: seq<string>, used: nat, finished: bool)

  function PasteSpec(input: seq<string>): Paste {
    match PasteEnd(input, 2)
    case Some(c) => Paste(NonBlank(input[..c]), c, true)
    case None => Paste(NonBlank(input), |input|, false)
  }

  /** The paste loop: a blank line counts, a non-blank line is kept and resets
      the count, and the second blank line in a row ends it. */
  method ReadPastedLines(input: seq<string>) returns (p: Paste)
    ensures p == PasteSpec(input)
  {
    var lines: seq<string> := [];
    var emptyCount := 0;
    var i := 0;
    while emptyCount < 2
      invariant 0 <= i <= |input| && 0 <= emptyCount <= 2
      invariant lines == NonBlank(input[..i])
      invariant emptyCount < 2 ==> forall c :: 2 <= c <= i ==> !DoubleBlankAt(input, c)
      invariant emptyCount < 2 ==> emptyCount == (if i >= 1 && IsBlank(input[i - 1]) then 1 else 0)
      invariant emptyCount == 2 ==> DoubleBlankAt(input, i) && forall c :: 2 <= c < i ==> !DoubleBlankAt(input, c)
      decreases |input| - i, 2 - emptyCount
    {
      if i == |input| {
        assert input[..i] == input;
        return Paste(lines, i, false);
      }
      var line := input[i];
      assert input[..i + 1][..i] == input[..i];
      i := i + 1;
      if IsBlank(line) {
        emptyCount := emptyCount + 1;
      } else {
        emptyCount := 0;
        lines := lines + [line];
      }
    }
    return Paste(lines, i, true);
  }

  /** One blank line between pasted lines does not end the paste. */
  lemma SingleBlankContinues(a: seq<string>, blank: string, b: seq<string>)
    requires a != [] && !IsBlank(a[|a| - 1]) && IsBlank(blank)
    requires b != [] && !IsBlank(b[0])
    requires forall c :: 2 <= c <= |a| ==> !DoubleBlankAt(a, c)
    ensures forall c :: 2 <= c <= |a| + 2 ==> !DoubleBlankAt(a + [blank] + b, c)
  {
    var input := a + [blank] + b;
    forall c | 2 <= c <= |a| + 2
      ensures !DoubleBlankAt(input, c)
    {
      if c <= |a| {
        assert input[c - 2] == a[c - 2] && input[c - 1] == a[c - 1];
        assert !DoubleBlankAt(a, c);
      } else if c == |a| + 1 {
        assert input[c - 2] == a[|a| - 1];
      } else {
        assert input[c - 1] == b[0];
      }
    }
  }

  /** How `get_gdrive_credentials` ends: with the decoded key, with None
      (uploader missing, nothing pasted, undecodable text or a missing field),
      or with an exception (`EOFError`, or `TypeError` from a document that cannot be searched). */
  datatype Obtained = Accepted(doc: Json) | Declined | Raised

  function CredentialsSpec(available: bool, input: seq<string>, decode: string -> Option<Json>): Obtained {
    if !available then Declined
    else
      var p := PasteSpec(input);
      if !p.finished then Raised
      else
        var text := JoinLines(p.kept);
        if IsBlank(text) then Declined
        else match decode(text)
          case None => Declined
          case Some(doc) =>
            if doc.Null? || doc.Bool? || doc.Number? then Raised
            else if HasRequiredFields(doc) then Accepted(doc)
            else Declined
  }

  /** `get_gdrive_credentials`. */
  method GetDriveCredentials(available: bool, input: seq<string>, decode: string -> Option<Json>) returns (r: Obtained)
    ensures r == CredentialsSpec(available, input, decode)
  {
    if !available {
      return Declined;
    }
    var p := ReadPastedLines(input);
    if !p.finished {
      return Raised;
    }
    var text := JoinLines(p.kept);
    StripBlank(text);
    if Strip(text) == [] {
      return Declined;
    }
    var decoded := decode(text);
    if decoded.None? {
      return Declined;
    }
    var check := CheckRequiredFields(decoded.value);
    match check
    case AllPresent => r := Accepted(decoded.value);
    case MissingField(_) => r := Declined;
    case CheckRaised => r := Raised;
  }

  /** A key is accepted exactly when the uploader is there, the paste ended with
      two blank lines, something was pasted, it decodes, and every required
      field is in it; the accepted key is what the text decodes to. */
  lemma AcceptedIff(available: bool, input: seq<string>, decode: string -> Option<Json>)
    ensures var r := CredentialsSpec(available, input, decode);
            var p := PasteSpec(input);
            r.Accepted? <==> available && p.finished && p.kept != [] && decode(JoinLines(p.kept)).Some?
                             && HasRequiredFields(decode(JoinLines(p.kept)).value)
    ensures var r := CredentialsSpec(available, input, decode);
            r.Accepted? ==> Truthy(r.doc) && Some(r.doc) == decode(JoinLines(PasteSpec(input).kept))
  {
    var p := PasteSpec(input);
    JoinedBlank(p.kept);
    var d := decode(JoinLines(p.kept));
    if d.Some? && HasRequiredFields(d.value) {
      assert Member(d.value, RequiredFields[0]) == Present;
      RequiredFieldsTruthy(d.value);
    }
  }

  /** The paste stops at the first two blank lines in a row: nothing typed
      after them is read. */
  lemma PasteIgnoresRest(pasted: seq<string>, rest: seq<string>)
    requires DoubleBlankAt(pasted, |pasted|)
    requires forall c :: 2 <= c < |pasted| ==> !DoubleBlankAt(pasted, c)
    ensures PasteSpec(pasted + rest) == Paste(NonBlank(pasted), |pasted|, true)
  {
    var input := pasted + rest;
    assert input[..|pasted|] == pasted;
    forall c | 2 <= c <= |pasted|
      ensures DoubleBlankAt(input, c) == DoubleBlankAt(pasted, c)
    {
      assert input[c - 2] == pasted[c - 2] && input[c - 1] == pasted[c - 1];
    }
  }
}
