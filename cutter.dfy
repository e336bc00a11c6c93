/** `cut_video_segments` and the command-line `main` of the video cutter:
    one external cut per segment into a numbered temporary file, a concat
    manifest listing those files in order, one join call, and removal of
    the temporary directory whatever happened inside the `try`. The external
    tool and the file system are an oracle (`Host`); the model records the
    calls made, in order, and how the run ended. */
module Cutter {
  import opened Results
  import opened Numerals
  import opened Segments

  /** What the outside world answers when asked. */
  datatype Host = Host(
    ffmpegInstalled: bool,       // check_ffmpeg()
    inputExists: bool,           // os.path.exists(input_video)
    makeDirsOk: bool,            // os.makedirs(temp_dir, exist_ok=True) returns
    cutExit: nat -> int,         // exit status of the cut call for segment k (1-based)
    absPath: string -> string,   // os.path.abspath
    manifestWritable: bool,      // open(concat_file, 'w') succeeds
    concatExit: int,             // exit status of the join call
    tempDirPresent: bool,        // os.path.exists(temp_dir) in the finally block
    removeOk: bool)              // shutil.rmtree(temp_dir) returns

  /** The calls the cutter makes on the outside world. */
  datatype Action =
    | Cut(index: nat, input: string, start: real, duration: real, file: string)
    | WriteManifest(path: string, lines: seq<string>)
    | Concat(manifest: string, output: string)
    | RemoveTempDir(dir: string)

  /** The exceptions `cut_video_segments` lets out. */
  datatype Failure =
    | NoFfmpeg                     // RuntimeError before anything is done
    | MissingInput(path: string)   // FileNotFoundError before anything is done
    | MakeDirsFailed(dir: string)  // os.makedirs raised, outside the try
    | CutFailed(index: nat, code: int)
    | ManifestFailed(path: string)
    | ConcatFailed(code: int)

  datatype Outcome = Done | Raised(failure: Failure)

  /** What the finally block did: nothing to remove, removed, or only warned. */
  datatype Cleanup = NotReached | NoTempDir | Removed | RemovalWarning

  datatype Run = Run(actions: seq<Action>, outcome: Outcome, cleanup: Cleanup)

  /** POSIX `os.path.join(a, b)`: an absolute b wins; otherwise one '/' between. */
  function PathJoin(a: string, b: string): string {
    if b != [] && b[0] == '/' then b
    else if a == [] || a[|a| - 1] == '/' then a + b
    else a + "/" + b
  }

  /** The joined path ends with b; an absolute b replaces a; otherwise the
      path starts with a, and a non-empty a is followed by a '/' before b. */
  lemma PathJoinShape(a: string, b: string)
    ensures var r := PathJoin(a, b);
      && |b| <= |r| && r[|r| - |b|..] == b
      && (b != [] && b[0] == '/' ==> r == b)
      && ((b == [] || b[0] != '/') ==> |a| <= |r| && r[..|a|] == a)
      && ((b == [] || b[0] != '/') && a != [] ==> |r| > |b| && r[|r| - |b| - 1] == '/')
      && (a == [] ==> r == b)
  {
  }

  /** `f"segment_{k:03d}.mp4"` */
  function SegmentName(k: nat): (name: string)
    ensures |name| >= 15 && name[..8] == "segment_" && name[|name| - 4..] == ".mp4"
    ensures AllDigits(name[8..|name| - 4]) && Value(name[8..|name| - 4]) == k
    ensures k < 1000 ==> |name| == 15
    ensures |name| > 15 ==> name[8] != '0'
  {
    var digits := PadDecimal(k, 3);
    var name := "segment_" + digits + ".mp4";
    assert name[8..|name| - 4] == digits;
    assert k < 1000 ==> |digits| == 3 by {
      if k < 1000 {
        Pow10Three();
        DigitsCountBelow(k, 3);
      }
    }
    name
  }

  function SegmentFile(dir: string, k: nat): string {
    PathJoin(dir, SegmentName(k))
  }

  function ManifestPath(dir: string): string {
    PathJoin(dir, "concat_list.txt")
  }

  /** One manifest line: `file '<absolute path>'` and a newline. */
  function ManifestLine(path: string): string {
    "file '" + path + "'\n"
  }

  /** The temporary files of the first n segments, in order. */
  function SegmentFiles(dir: string, n: nat): (files: seq<string>)
    ensures |files| == n && forall i :: 0 <= i < n ==> files[i] == SegmentFile(dir, i + 1)
  {
    seq(n, i requires 0 <= i < n => SegmentFile(dir, i + 1))
  }

  function ManifestLines(absPath: string -> string, files: seq<string>): (lines: seq<string>)
    ensures |lines| == |files| && forall i :: 0 <= i < |files| ==> lines[i] == ManifestLine(absPath(files[i]))
  {
    seq(|files|, i requires 0 <= i < |files| => ManifestLine(absPath(files[i])))
  }

  /** The cut call for every segment, in order, numbered from 1. */
  function CutActions(input: string, segments: seq<Segment>, dir: string): (cuts: seq<Action>)
    ensures |cuts| == |segments|
    ensures forall i :: 0 <= i < |segments| ==>
              cuts[i] == Cut(i + 1, input, segments[i].start, segments[i].end - segments[i].start, SegmentFile(dir, i + 1))
  {
    seq(|segments|, i requires 0 <= i < |segments| =>
      Cut(i + 1, input, segments[i].start, segments[i].end - segments[i].start, SegmentFile(dir, i + 1)))
  }

  /** The first of the cuts `from`..`n` whose exit status is not zero. */
  function FirstFailingCut(cutExit: nat -> int, from: nat, n: nat): (r: Option<nat>)
    requires 1 <= from
    ensures r.Some? ==> from <= r.value <= n && cutExit(r.value) != 0
                        && forall j :: from <= j < r.value ==> cutExit(j) == 0
    ensures r.None? ==> forall j :: from <= j <= n ==> cutExit(j) == 0
    decreases n + 1 - from
  {
    if from > n then None
    else if cutExit(from) != 0 then Some(from)
    else FirstFailingCut(cutExit, from + 1, n)
  }

  /** The body of the `try`: cuts until the first failure, then the manifest and the join. */
  function TryBody(host: Host, input: string, segments: seq<Segment>, output: string, dir: string)
    : (seq<Action>, Outcome)
  {
    var cuts := CutActions(input, segments, dir);
    match FirstFailingCut(host.cutExit, 1, |segments|)
    case Some(k) => (cuts[..k], Raised(CutFailed(k, host.cutExit(k))))
    case None =>
      var manifest := ManifestPath(dir);
      if !host.manifestWritable then (cuts, Raised(ManifestFailed(manifest)))
      else
        var lines := ManifestLines(host.absPath, SegmentFiles(dir, |segments|));
        var actions := cuts + [WriteManifest(manifest, lines), Concat(manifest, output)];
        if host.concatExit != 0 then (actions, Raised(ConcatFailed(host.concatExit)))
        else (actions, Done)
  }

  /** The `finally` block: remove the temporary directory when it is there;
      a failed removal only prints a warning. */
  function Finally(host: Host, dir: string, actions: seq<Action>, outcome: Outcome): Run {
    if host.tempDirPresent then
      Run(actions + [RemoveTempDir(dir)], outcome, if host.removeOk then Removed else RemovalWarning)
    else Run(actions, outcome, NoTempDir)
  }

  /** What `cut_video_segments` does, as a function of the host's answers. */
  function CutJob(host: Host, input: string, segments: seq<Segment>, output: string, dir: string): (run: Run)
    ensures !Started(host) ==> run.actions == [] && run.outcome.Raised? && run.cleanup == NotReached
    ensures Started(host) ==> run.cleanup != NotReached
    ensures |run.actions| <= |segments| + 3
  {
    if !host.ffmpegInstalled then Run([], Raised(NoFfmpeg), NotReached)
    else if !host.inputExists then Run([], Raised(MissingInput(input)), NotReached)
    else if !host.makeDirsOk then Run([], Raised(MakeDirsFailed(dir)), NotReached)
    else
      var body := TryBody(host, input, segments, output, dir);
      Finally(host, dir, body.0, body.1)
  }

  /** The cut loop: one cut per segment, stopping at the first failing one.
      Returns the files named so far, the calls made, and the failing index if any. */
  method CutAll(host: Host, input: string, segments: seq<Segment>, dir: string)
    returns (files: seq<string>, actions: seq<Action>, failed: Option<nat>)
    ensures failed == FirstFailingCut(host.cutExit, 1, |segments|)
    ensures failed.Some? ==> actions == CutActions(input, segments, dir)[..failed.value]
    ensures failed.None? ==> actions == CutActions(input, segments, dir)
                             && files == SegmentFiles(dir, |segments|)
  {
    files, actions, failed := [], [], None;
    ghost var cuts := CutActions(input, segments, dir);
    var i := 0;
    while i < |segments|
      invariant 0 <= i <= |segments|
      invariant files == SegmentFiles(dir, i)
      invariant actions == cuts[..i]
      invariant forall j :: 1 <= j <= i ==> host.cutExit(j) == 0
    {
      var idx := i + 1;
      var file := SegmentFile(dir, idx);
      SegmentFilesStep(dir, i);
      files := files + [file];
      actions := actions + [Cut(idx, input, segments[i].start, segments[i].end - segments[i].start, file)];
      CutActionsStep(input, segments, dir, i);
      if host.cutExit(idx) != 0 {
        FirstFailureIs(host.cutExit, 1, |segments|, idx);
        return files, actions, Some(idx);
      }
      i := i + 1;
    }
    assert cuts[..i] == cuts;
    NoFailureIs(host.cutExit, 1, |segments|);
  }

  /** The manifest lines, one per segment file, in the order the files were cut. */
  method WriteLines(absPath: string -> string, files: seq<string>) returns (lines: seq<string>)
    ensures lines == ManifestLines(absPath, files)
  {
    lines := [];
    var j := 0;
    while j < |files|
      invariant 0 <= j <= |files|
      invariant lines == ManifestLines(absPath, files[..j])
    {
      assert files[..j + 1] == files[..j] + [files[j]];
      lines := lines + [ManifestLine(absPath(files[j]))];
      j := j + 1;
    }
    assert files[..j] == files;
  }

  /** `cut_video_segments` itself. */
  method CutVideoSegments(host: Host, input: string, segments: seq<Segment>, output: string, dir: string)
    returns (run: Run)
    ensures run == CutJob(host, input, segments, output, dir)
  {
    if !host.ffmpegInstalled {
      return Run([], Raised(NoFfmpeg), NotReached);
    }
    if !host.inputExists {
      return Run([], Raised(MissingInput(input)), NotReached);
    }
    if !host.makeDirsOk {
      return Run([], Raised(MakeDirsFailed(dir)), NotReached);
    }
    var files, actions, failed := CutAll(host, input, segments, dir);
    var outcome := Done;
    if failed.Some? {
      outcome := Raised(CutFailed(failed.value, host.cutExit(failed.value)));
    } else {
      var manifest := ManifestPath(dir);
      if !host.manifestWritable {
        outcome := Raised(ManifestFailed(manifest));
      } else {
        var lines := WriteLines(host.absPath, files);
        actions := actions + [WriteManifest(manifest, lines), Concat(manifest, output)];
        if host.concatExit != 0 {
          outcome := Raised(ConcatFailed(host.concatExit));
        }
      }
    }
    assert (actions, outcome) == TryBody(host, input, segments, output, dir);
    var cleanup := NoTempDir;
    if host.tempDirPresent {
      actions := actions + [RemoveTempDir(dir)];
      cleanup := if host.removeOk then Removed else RemovalWarning;
    }
    run := Run(actions, outcome, cleanup);
  }

  lemma CutActionsStep(input: string, segments: seq<Segment>, dir: string, i: nat)
    requires i < |segments|
    ensures CutActions(input, segments, dir)[..i + 1] == CutActions(input, segments, dir)[..i]
              + [Cut(i + 1, input, segments[i].start, segments[i].end - segments[i].start, SegmentFile(dir, i + 1))]
  {
    var cuts := CutActions(input, segments, dir);
    TakeStep(cuts, i);
  }

  lemma TakeStep<T>(s: seq<T>, i: nat)
    requires i < |s|
    ensures s[..i + 1] == s[..i] + [s[i]]
  {
  }

  lemma SegmentFilesStep(dir: string, i: nat)
    ensures SegmentFiles(dir, i + 1) == SegmentFiles(dir, i) + [SegmentFile(dir, i + 1)]
  {
  }

  lemma {:induction false} FirstFailureIs(cutExit: nat -> int, from: nat, n: nat, k: nat)
    requires 1 <= from <= k <= n && cutExit(k) != 0
    requires forall j :: from <= j < k ==> cutExit(j) == 0
    ensures FirstFailingCut(cutExit, from, n) == Some(k)
    decreases k - from
  {
    if from < k {
      FirstFailureIs(cutExit, from + 1, n, k);
    }
  }

  lemma {:induction false} NoFailureIs(cutExit: nat -> int, from: nat, n: nat)
    requires 1 <= from
    requires forall j :: from <= j <= n ==> cutExit(j) == 0
    ensures FirstFailingCut(cutExit, from, n) == None
    decreases n + 1 - from
  {
    if from <= n {
      NoFailureIs(cutExit, from + 1, n);
    }
  }

  /** The run gets past the checks before the `try` exactly when ffmpeg is
      installed, the input exists and the temporary directory can be made. */
  predicate Started(host: Host) {
    host.ffmpegInstalled && host.inputExists && host.makeDirsOk
  }

  predicate AllCutsSucceed(host: Host, n: nat) {
    forall k :: 1 <= k <= n ==> host.cutExit(k) == 0
  }

  /** The job succeeds exactly when every check passes and every external call exits with 0. */
  lemma SucceedsIff(host: Host, input: string, segments: seq<Segment>, output: string, dir: string)
    ensures CutJob(host, input, segments, output, dir).outcome == Done
            <==> Started(host) && AllCutsSucceed(host, |segments|)
                 && host.manifestWritable && host.concatExit == 0
  {
    var f := FirstFailingCut(host.cutExit, 1, |segments|);
    assert f.None? ==> AllCutsSucceed(host, |segments|);
  }

  /** Before the `try` nothing is done and the finally block is not reached;
      once inside, the finally block always runs, and it removes the temporary
      directory, as the last call, exactly when that directory is there. */
  lemma CleanupRunsLast(host: Host, input: string, segments: seq<Segment>, output: string, dir: string)
    ensures var run := CutJob(host, input, segments, output, dir);
            (run.cleanup == NotReached <==> !Started(host))
            && (!Started(host) ==> run.actions == [])
            && (Started(host) && host.tempDirPresent ==>
                  run.actions != [] && run.actions[|run.actions| - 1] == RemoveTempDir(dir)
                  && run.cleanup != NoTempDir)
            && (Started(host) && !host.tempDirPresent ==>
                  run.cleanup == NoTempDir && forall i :: 0 <= i < |run.actions| ==> !run.actions[i].RemoveTempDir?)
            && (forall i :: 0 <= i < |run.actions| - 1 ==> !run.actions[i].RemoveTempDir?)
  {
    if Started(host) {
      var body := TryBody(host, input, segments, output, dir);
      NoRemovalInBody(host, input, segments, output, dir);
      var run := Finally(host, dir, body.0, body.1);
      assert run == CutJob(host, input, segments, output, dir);
      if host.tempDirPresent {
        assert forall i :: 0 <= i < |body.0| ==> run.actions[i] == body.0[i];
      }
    }
  }

  /** The body of the `try` makes only cut calls, each the cut of its own
      segment, and the manifest and join calls. */
  lemma BodyActions(host: Host, input: string, segments: seq<Segment>, output: string, dir: string)
    ensures var body := TryBody(host, input, segments, output, dir);
            var cuts := CutActions(input, segments, dir);
            forall i :: 0 <= i < |body.0| ==>
              (i < |segments| && body.0[i] == cuts[i]) || body.0[i].WriteManifest? || body.0[i].Concat?
  {
    var cuts := CutActions(input, segments, dir);
    var body := TryBody(host, input, segments, output, dir);
    match FirstFailingCut(host.cutExit, 1, |segments|)
    case Some(k) =>
      assert forall i :: 0 <= i < |body.0| ==> body.0[i] == cuts[i];
    case None =>
  }

  lemma NoRemovalInBody(host: Host, input: string, segments: seq<Segment>, output: string, dir: string)
    ensures var body := TryBody(host, input, segments, output, dir);
            forall i :: 0 <= i < |body.0| ==> !body.0[i].RemoveTempDir?
  {
    BodyActions(host, input, segments, output, dir);
  }

  /** A failed removal only prints a warning: the calls made and the way the job ends are the same. */
  lemma RemovalFailureHarmless(host: Host, input: string, segments: seq<Segment>, output: string, dir: string)
    ensures var a := CutJob(host.(removeOk := true), input, segments, output, dir);
            var b := CutJob(host.(removeOk := false), input, segments, output, dir);
            a.actions == b.actions && a.outcome == b.outcome
  {
    var h1, h2 := host.(removeOk := true), host.(removeOk := false);
    assert TryBody(h1, input, segments, output, dir) == TryBody(h2, input, segments, output, dir);
  }

  /** On success the calls are: every cut, in segment order and numbered from 1,
      then the manifest, then the join into the output, then the cleanup. */
  lemma SuccessTrace(host: Host, input: string, segments: seq<Segment>, output: string, dir: string)
    requires CutJob(host, input, segments, output, dir).outcome == Done
    ensures var manifest := ManifestPath(dir);
            CutJob(host, input, segments, output, dir).actions
              == CutActions(input, segments, dir)
                 + [WriteManifest(manifest, ManifestLines(host.absPath, SegmentFiles(dir, |segments|))),
                    Concat(manifest, output)]
                 + (if host.tempDirPresent then [RemoveTempDir(dir)] else [])
  {
    SucceedsIff(host, input, segments, output, dir);
  }

  /** The manifest names the files just cut, in the order they were cut,
      each by its absolute path. */
  lemma ManifestListsCuts(host: Host, input: string, segments: seq<Segment>, output: string, dir: string)
    requires CutJob(host, input, segments, output, dir).outcome == Done
    ensures var actions := CutJob(host, input, segments, output, dir).actions;
            var n := |segments|;
            n + 2 <= |actions|
            && (forall i :: 0 <= i < n ==> actions[i].Cut? && actions[i].index == i + 1)
            && actions[n].WriteManifest? && |actions[n].lines| == n
            && (forall i :: 0 <= i < n ==> actions[n].lines[i] == ManifestLine(host.absPath(actions[i].file)))
            && actions[n + 1] == Concat(actions[n].path, output)
  {
    SuccessTrace(host, input, segments, output, dir);
  }

  /** The first failing cut aborts the job: the cuts before it and the failing
      one were made, no manifest is written and nothing is joined. */
  lemma CutFailureAborts(host: Host, input: string, segments: seq<Segment>, output: string, dir: string, k: nat)
    requires Started(host) && 1 <= k <= |segments| && host.cutExit(k) != 0
    requires forall j :: 1 <= j < k ==> host.cutExit(j) == 0
    ensures var run := CutJob(host, input, segments, output, dir);
            run.outcome == Raised(CutFailed(k, host.cutExit(k)))
            && run.actions == CutActions(input, segments, dir)[..k]
                              + (if host.tempDirPresent then [RemoveTempDir(dir)] else [])
            && forall i :: 0 <= i < |run.actions| ==> !run.actions[i].WriteManifest? && !run.actions[i].Concat?
  {
    FirstFailureIs(host.cutExit, 1, |segments|, k);
  }

  /** Every cut asks for a positive length when the segments are well ordered,
      as every list the segment parser accepts is. */
  lemma CutDurationsPositive(host: Host, input: string, segments: seq<Segment>, output: string, dir: string)
    requires forall i :: 0 <= i < |segments| ==> segments[i].start < segments[i].end
    ensures var actions := CutJob(host, input, segments, output, dir).actions;
            forall i :: 0 <= i < |actions| && actions[i].Cut? ==> actions[i].duration > 0.0
  {
    if Started(host) {
      var body := TryBody(host, input, segments, output, dir);
      var cuts := CutActions(input, segments, dir);
      BodyActions(host, input, segments, output, dir);
      assert forall i :: 0 <= i < |body.0| && body.0[i].Cut? ==> body.0[i].duration > 0.0 by {
        forall i | 0 <= i < |body.0| && body.0[i].Cut?
          ensures body.0[i].duration > 0.0
        {
          assert i < |segments| && body.0[i] == cuts[i];
        }
      }
      var run := Finally(host, dir, body.0, body.1);
      assert run == CutJob(host, input, segments, output, dir);
      assert forall i :: 0 <= i < |body.0| ==> run.actions[i] == body.0[i];
    }
  }

  lemma CancelPrefix(a: string, x: string, y: string)
    requires a + x == a + y
    ensures x == y
  {
    assert x == (a + x)[|a|..];
    assert y == (a + y)[|a|..];
  }

  /** Different segment numbers give different temporary file names. */
  lemma SegmentNameInjective(j: nat, k: nat)
    requires SegmentName(j) == SegmentName(k)
    ensures j == k
  {
    var pj, pk := PadDecimal(j, 3), PadDecimal(k, 3);
    var xj, xk := pj + ".mp4", pk + ".mp4";
    assert SegmentName(j) == "segment_" + xj;
    assert SegmentName(k) == "segment_" + xk;
    CancelPrefix("segment_", xj, xk);
    assert |pj| == |pk|;
    assert pj == xj[..|pj|];
    assert pk == xk[..|pk|];
  }

  /** No two segments share a temporary file, so no cut overwrites another. */
  lemma SegmentFileInjective(dir: string, j: nat, k: nat)
    requires SegmentFile(dir, j) == SegmentFile(dir, k)
    ensures j == k
  {
    var nj, nk := SegmentName(j), SegmentName(k);
    assert nj[0] == 's' && nk[0] == 's';
    if dir == [] || dir[|dir| - 1] == '/' {
      CancelPrefix(dir, nj, nk);
    } else {
      assert SegmentFile(dir, j) == (dir + "/") + nj;
      assert SegmentFile(dir, k) == (dir + "/") + nk;
      CancelPrefix(dir + "/", nj, nk);
    }
    SegmentNameInjective(j, k);
  }

  lemma FirstSegmentName()
    ensures SegmentName(1) == "segment_001.mp4"
  {
    assert Digits(1) == "1";
    assert Zeros(2) == "00" by {
      assert Zeros(1) == "0";
    }
    assert PadDecimal(1, 3) == "001";
  }

  /** What `main` ends with: its exit status, and the job's run when one was started. */
  datatype Exit = Exit(code: int, run: Option<Run>)

  /** `main` after argument parsing: a segment list that does not parse, or that
      is empty, exits with 1 before anything runs; otherwise the job runs and
      any exception it raises exits with 1. */
  function CommandLine(host: Host, input: string, segmentsText: string, output: string, dir: string): (e: Exit)
    ensures e.run.Some? ==> SegmentsOf(segmentsText).Ok?
                            && e.run.value == CutJob(host, input, SegmentsOf(segmentsText).value, output, dir)
    ensures e.code == 0 <==> e.run.Some? && e.run.value.outcome == Done
  {
    match SegmentsOf(segmentsText)
    case Err(_) => Exit(1, None)
    case Ok(segments) =>
      if segments == [] then Exit(1, None)
      else
        var run := CutJob(host, input, segments, output, dir);
        Exit(if run.outcome.Done? then 0 else 1, Some(run))
  }

  /** `main` exits with 0 exactly when the text names at least one well-formed
      segment and the job completes; a cleanup warning does not change that. */
  lemma CommandLineExit(host: Host, input: string, segmentsText: string, output: string, dir: string)
    ensures var e := CommandLine(host, input, segmentsText, output, dir);
            (e.code == 0 || e.code == 1)
            && (e.code == 0 <==> SegmentsOf(segmentsText).Ok? && SegmentsOf(segmentsText).value != []
                                 && CutJob(host, input, SegmentsOf(segmentsText).value, output, dir).outcome == Done)
            && (e.run.None? <==> !SegmentsOf(segmentsText).Ok? || SegmentsOf(segmentsText).value == [])
  {
  }

  /** Text whose '|'-separated pieces are all blank exits with 1 without
      touching the video, the tool or the file system. */
  lemma NoSegmentsNoRun(host: Host, input: string, segmentsText: string, output: string, dir: string)
    requires forall k :: 0 <= k < |Text.Split(segmentsText, '|')| ==> Text.IsBlank(Text.Split(segmentsText, '|')[k])
    ensures CommandLine(host, input, segmentsText, output, dir) == Exit(1, None)
  {
    BlankTextNoSegments(segmentsText);
  }
}
