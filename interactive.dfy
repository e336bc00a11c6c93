/** The decisions of the interactive `main`: the default output name, and when
    the finished video is uploaded. */
module Interactive {
  import opened Results
  import opened Text
  import opened Segments
  import opened Cutter
  import opened Prompts
  import opened Credentials

  /** The path components `pathlib` keeps: empty and "." components are dropped. */
  function Components(parts: seq<string>): (kept: seq<string>)
    ensures |kept| <= |parts|
    ensures forall k :: 0 <= k < |kept| ==> kept[k] != [] && kept[k] != "." && kept[k] in parts
  {
    if parts == [] then []
    else
      var last := parts[|parts| - 1];
      Components(parts[..|parts| - 1]) + (if last == [] || last == "." then [] else [last])
  }

  /** `PurePosixPath(p).name`: the last kept component, or "" when there is none. */
  function PathName(p: string): (name: string)
    ensures '/' !in name
  {
    var parts := Split(p, '/');
    var kept := Components(parts);
    SplitSpec(p, '/');
    if kept == [] then [] else kept[|kept| - 1]
  }

  /** `s.rfind(c)`, None for -1. */
  function LastIndex(s: string, c: char): (r: Option<nat>)
    ensures r.Some? ==> r.value < |s| && s[r.value] == c && c !in s[r.value + 1..]
    ensures r.None? ==> c !in s
  {
    if s == [] then None
    else if s[|s| - 1] == c then Some(|s| - 1)
    else
      var r := LastIndex(s[..|s| - 1], c);
      assert s == s[..|s| - 1] + [s[|s| - 1]];
      if r.Some? then
        assert s[r.value + 1..] == s[..|s| - 1][r.value + 1..] + [s[|s| - 1]];
        r
      else r
  }

  /** `PurePath.suffix` of a name. */
  function Suffix(name: string): string {
    match LastIndex(name, '.')
    case Some(i) => if 0 < i < |name| - 1 then name[i..] else []
    case None => []
  }

  /** `PurePath.stem` of a name. */
  function Stem(name: string): string {
    match LastIndex(name, '.')
    case Some(i) => if 0 < i < |name| - 1 then name[..i] else name
    case None => name
  }

  /** A name is its stem followed by its suffix; a suffix is a '.' followed by
      at least one character and no further '.', and a stem is never empty
      unless the name is. */
  lemma StemSuffix(name: string)
    ensures Stem(name) + Suffix(name) == name
    ensures Suffix(name) == [] || (|Suffix(name)| >= 2 && Suffix(name)[0] == '.' && '.' !in Suffix(name)[1..])
    ensures name != [] ==> Stem(name) != []
  {
    var r := LastIndex(name, '.');
    if r.Some? && 0 < r.value < |name| - 1 {
      assert name == name[..r.value] + name[r.value..];
      assert Suffix(name)[1..] == name[r.value + 1..];
    }
  }

  /** The output name offered by default: the input's stem, "_cut", and the input's suffix. */
  function DefaultOutput(inputVideo: string): (out: string)
    ensures '/' !in out
    ensures |out| == |PathName(inputVideo)| + 4
  {
    var name := PathName(inputVideo);
    StemSuffix(name);
    Stem(name) + "_cut" + Suffix(name)
  }

  lemma {:induction false} NoDotAfter(s: string, t: string)
    requires '.' !in t
    ensures LastIndex(s + t, '.') == LastIndex(s, '.')
    decreases |t|
  {
    if t == [] {
      assert s + t == s;
    } else {
      var u := s + t;
      var t' := t[..|t| - 1];
      assert u[..|u| - 1] == s + t';
      assert u[|u| - 1] == t[|t| - 1];
      assert t[|t| - 1] != '.';
      NoDotAfter(s, t');
    }
  }

  /** The default output keeps the input's suffix and puts "_cut" at the end of
      its stem; it is a bare file name, with no directory part. */
  lemma DefaultOutputParts(inputVideo: string)
    ensures '/' !in DefaultOutput(inputVideo)
    ensures var name := PathName(inputVideo);
            Suffix(name) != [] ==>
              Suffix(DefaultOutput(inputVideo)) == Suffix(name)
              && Stem(DefaultOutput(inputVideo)) == Stem(name) + "_cut"
    ensures var name := PathName(inputVideo);
            Suffix(name) == [] ==> DefaultOutput(inputVideo) == name + "_cut"
  {
    var name := PathName(inputVideo);
    var stem, suffix := Stem(name), Suffix(name);
    StemSuffix(name);
    var out := DefaultOutput(inputVideo);
    assert name == stem + suffix;
    if suffix == [] {
      assert stem == name;
      assert out == stem + "_cut";
    } else {
      var head, ext := stem + "_cut", suffix[1..];
      assert suffix == "." + ext;
      assert out == head + "." + ext;
      SuffixAfter(head, ext);
    }
  }

  /** A name that ends in '.' and a dot-free extension has that suffix and the rest as its stem. */
  lemma SuffixAfter(head: string, ext: string)
    requires head != [] && ext != [] && '.' !in ext
    ensures Stem(head + "." + ext) == head && Suffix(head + "." + ext) == "." + ext
  {
    var name := head + "." + ext;
    assert name == (head + ['.']) + ext;
    NoDotAfter(head + ['.'], ext);
    assert LastIndex(head + ['.'], '.') == Some(|head|);
    assert name[..|head|] == head;
    assert name[|head|..] == "." + ext;
  }

  lemma {:induction false} ComponentsLast(parts: seq<string>)
    requires parts != [] && parts[|parts| - 1] != [] && parts[|parts| - 1] != "."
    ensures var kept := Components(parts); kept != [] && kept[|kept| - 1] == parts[|parts| - 1]
  {
  }

  /** The name of a path whose last component is a plain name is that name. */
  lemma PathNameOfJoin(dirs: seq<string>, name: string)
    requires forall k :: 0 <= k < |dirs| ==> '/' !in dirs[k]
    requires '/' !in name && name != [] && name != "."
    ensures PathName(Join(dirs + [name], '/')) == name
  {
    var parts := dirs + [name];
    forall k | 0 <= k < |parts|
      ensures '/' !in parts[k]
    {
      if k < |dirs| {
        assert parts[k] == dirs[k];
      }
    }
    SplitJoin(parts, '/');
    ComponentsLast(parts);
  }

  /** The stem and suffix of `stem.ext` for dot-free, non-empty stem and ext. */
  lemma StemSuffixOfPlainName(stem: string, ext: string)
    requires stem != [] && ext != [] && '.' !in stem && '.' !in ext
    ensures Stem(stem + "." + ext) == stem && Suffix(stem + "." + ext) == "." + ext
  {
    SuffixAfter(stem, ext);
  }

  lemma PlainNameChars(stem: string, ext: string)
    requires stem != [] && '/' !in stem && '/' !in ext
    ensures var name := stem + "." + ext;
            '/' !in name && |name| >= 2
  {
    var name := stem + "." + ext;
    forall k | 0 <= k < |name|
      ensures name[k] != '/'
    {
      if k < |stem| {
        assert name[k] == stem[k];
      } else if k > |stem| {
        assert name[k] == ext[k - |stem| - 1];
      }
    }
  }

  lemma DefaultOutputOf(p: string, name: string)
    requires PathName(p) == name
    ensures DefaultOutput(p) == Stem(name) + "_cut" + Suffix(name)
  {
  }

  /** A video at `dir/.../stem.ext` gets the default output `stem_cut.ext`. */
  lemma DefaultOutputOfPlainName(dirs: seq<string>, stem: string, ext: string)
    requires forall k :: 0 <= k < |dirs| ==> '/' !in dirs[k]
    requires stem != [] && ext != [] && '.' !in stem && '.' !in ext && '/' !in stem && '/' !in ext
    ensures DefaultOutput(Join(dirs + [stem + "." + ext], '/')) == stem + "_cut" + ("." + ext)
  {
    var name := stem + "." + ext;
    var p := Join(dirs + [name], '/');
    assert PathName(p) == name by {
      PlainNameChars(stem, ext);
      PathNameOfJoin(dirs, name);
    }
    assert Stem(name) == stem && Suffix(name) == "." + ext by {
      StemSuffixOfPlainName(stem, ext);
    }
    DefaultOutputOf(p, name);
  }

  /** The keyword arguments `cut_video_segments` accepts, and those the
      interactive `main` passes to it. */
  const CutterParameters: set<string> := {"input_video", "segments", "output_video", "temp_dir"}
  const InteractiveKeywords: set<string> := {"input_video", "segments", "output_video", "mode", "remove_audio"}

  /** A Python call with keyword arguments binds only when the function has a
      parameter for every keyword; otherwise it raises `TypeError` before the body runs. */
  predicate Binds(keywords: set<string>, parameters: set<string>) {
    keywords <= parameters
  }

  /** The processing step of the interactive `main` as it is written: the call
      either binds and runs the job, or raises; true when it completes. */
  function ProcessAsWritten(host: Host, inputVideo: string, segments: seq<Segment>, output: string): bool {
    Binds(InteractiveKeywords, CutterParameters)
    && CutJob(host, inputVideo, segments, output, "temp_segments").outcome.Done?
  }

  /** The call as written never binds: `mode` is not a parameter of the cutter,
      so processing fails for every host, input and segment list. */
  lemma ProcessAsWrittenAlwaysFails(host: Host, inputVideo: string, segments: seq<Segment>, output: string)
    ensures !ProcessAsWritten(host, inputVideo, segments, output)
  {
    assert "mode" in InteractiveKeywords && "mode" !in CutterParameters;
  }

  /** The processing step as intended: the job runs with the default temporary
      directory; the cutter shown here has no processing modes and never drops
      the audio, so `mode` and `remove_audio` change nothing. */
  function Process(host: Host, inputVideo: string, segments: seq<Segment>, output: string): bool {
    CutJob(host, inputVideo, segments, output, "temp_segments").outcome.Done?
  }

  /** How the interactive session ends after the segments are chosen. */
  datatype Ending = CredentialsRaised | Cancelled | ProcessingFailed | Finished(uploadAttempted: bool)

  /** The end of the interactive `main`: the upload question (default no), the
      credentials asked for only on a yes and switched off when none come back,
      the start question (default yes), processing, and the upload. */
  function SessionEnd(uploadAnswer: string, obtained: Obtained, startAnswer: string, processed: bool): (e: Ending)
    ensures e == CredentialsRaised <==> GetYesNo(uploadAnswer, false) && obtained.Raised?
    ensures e.Finished? <==> !(GetYesNo(uploadAnswer, false) && obtained.Raised?) && GetYesNo(startAnswer, true) && processed
    ensures e == Finished(true) <==> GetYesNo(uploadAnswer, false) && obtained.Accepted? && Truthy(obtained.doc)
                                     && GetYesNo(startAnswer, true) && processed
  {
    var wanted := GetYesNo(uploadAnswer, false);
    if wanted && obtained.Raised? then CredentialsRaised
    else
      var credentials := if wanted && obtained.Accepted? then Some(obtained.doc) else None;
      var uploadToDrive := wanted && credentials.Some? && Truthy(credentials.value);
      if !GetYesNo(startAnswer, true) then Cancelled
      else if !processed then ProcessingFailed
      else Finished(uploadToDrive && credentials.Some? && Truthy(credentials.value))
  }

  /** The upload is attempted exactly when it was asked for, credentials were
      accepted, the start was confirmed and processing completed. */
  lemma UploadIff(uploadAnswer: string, available: bool, pasted: seq<string>, decode: string -> Option<Json>,
                  startAnswer: string, processed: bool)
    ensures var obtained := CredentialsSpec(available, pasted, decode);
            SessionEnd(uploadAnswer, obtained, startAnswer, processed) == Finished(true)
            <==> GetYesNo(uploadAnswer, false) && obtained.Accepted? && GetYesNo(startAnswer, true) && processed
  {
    AcceptedIff(available, pasted, decode);
  }

  /** Declining the upload means credentials are never read, so they cannot
      fail the session, and nothing is uploaded. */
  lemma NoUploadWhenDeclined(uploadAnswer: string, obtained: Obtained, startAnswer: string, processed: bool)
    requires !GetYesNo(uploadAnswer, false)
    ensures var e := SessionEnd(uploadAnswer, obtained, startAnswer, processed);
            e == SessionEnd(uploadAnswer, Declined, startAnswer, processed) && e != CredentialsRaised
            && (e.Finished? ==> !e.uploadAttempted)
  {
  }

  /** As written, the session never finishes: every confirmed start ends in a
      processing failure, so no upload is ever attempted. */
  lemma SessionAsWrittenNeverUploads(uploadAnswer: string, obtained: Obtained, startAnswer: string,
                                     host: Host, inputVideo: string, segments: seq<Segment>, output: string)
    ensures !SessionEnd(uploadAnswer, obtained, startAnswer, ProcessAsWritten(host, inputVideo, segments, output)).Finished?
  {
    ProcessAsWrittenAlwaysFails(host, inputVideo, segments, output);
  }

  /** With the call corrected, a session whose credentials were accepted and
      whose start was confirmed uploads exactly when the cut job completes. */
  lemma SessionUploadsAfterJob(uploadAnswer: string, available: bool, pasted: seq<string>, decode: string -> Option<Json>,
                               startAnswer: string, host: Host, inputVideo: string, segments: seq<Segment>, output: string)
    requires GetYesNo(uploadAnswer, false) && GetYesNo(startAnswer, true)
    requires CredentialsSpec(available, pasted, decode).Accepted?
    ensures var e := SessionEnd(uploadAnswer, CredentialsSpec(available, pasted, decode), startAnswer,
                                Process(host, inputVideo, segments, output));
            e == Finished(true) <==> CutJob(host, inputVideo, segments, output, "temp_segments").outcome == Done
  {
    AcceptedIff(available, pasted, decode);
  }
}
