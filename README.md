# Video cutter — a verified model

This project models the core of a small video cutting tool, with proofs.
The command-line cutter takes a text such as `03:05-03:10|40:05-40:10|1:03:05-1:04:05`. It reads the text as a list of (start, end) spans in seconds. It cuts each span out of the input video into a numbered temporary file with an external tool. It writes a manifest that lists those files, joins them into one output video, and removes the temporary directory.

An interactive front end asks for the same inputs at the console:
- free text, numbered choices and yes/no answers;
- a Google Drive service-account key, pasted line by line;
- a default output name derived from the input.

It then calls the cutter (as written the call raises; see "## Findings") and, when asked to, uploads the result.

The model is in Dafny, one module per concern:

| module | file | models |
|---|---|---|
| `Results` | results.dfy | `Option` and `Result` |
| `Text` | text.dfy | Python's `str.strip`, `str.split`, `str.join`, `str.split(sep, 1)` and ASCII `str.lower`, with `str.isspace` over the full Unicode whitespace set |
| `Numerals` | numerals.dfy | what `int()` and `float()` accept on decimal digit strings, `str(n)`, `f"{n:03d}"` and `f"{x:06.3f}"` |
| `TimeSpec` | time_spec.dfy | `parse_time_to_seconds` and `format_duration` |
| `Segments` | segments.dfy | `parse_segments` |
| `Cutter` | cutter.dfy | `cut_video_segments` and the command-line `main` |
| `Prompts` | prompts.dfy | `get_input`, `get_choice`, `get_yes_no` and `mode_map` |
| `Credentials` | credentials.dfy | the paste loop and the required-field check of `get_gdrive_credentials` |
| `Interactive` | interactive.dfy | the default output name and the processing and upload decisions of the interactive `main` |

The outside world is a parameter:
- **The cutter.** A `Host` value answers every question the cutter asks: is ffmpeg installed, does the input exist, can the directory be made, each external call's exit status, `os.path.abspath`, can the manifest be written, is the temporary directory still there, does removal succeed. The cutter's result is a `Run`: the calls it made, in order, how the job ended, and what the cleanup did.
- **Console input.** Each `input()` is the next string of a given sequence. Running out of lines stands for `EOFError`.
- **JSON decoding.** `json.loads` is a function parameter that returns `None` on a decoding error.

Times are exact `real` numbers of seconds.

## Model

| member | source | states |
|---|---|---|
| TimeSpec.ParseTime | video_cutter.py:15-34 | under the modelled digit grammar, a time that parses is never negative |
| TimeSpec.MinutesSeconds | video_cutter.py:25-29 | `m:s` parses exactly when `int(m)` and `float(s)` both do, and is worth `int(m) * 60 + float(s)` |
| TimeSpec.HoursMinutesSeconds | video_cutter.py:30-32 | `h:m:s` parses exactly when all three fields do, and is worth `int(h) * 3600 + int(m) * 60 + float(s)` |
| TimeSpec.FieldCountRule | video_cutter.py:25-34 | a text fails for its field count exactly when it holds neither one nor two colons |
| TimeSpec.WholeMinutesSeconds | video_cutter.py:27-29 | any whole minutes and seconds read back exactly, with no check that either is below 60 |
| TimeSpec.WholeHoursMinutesSeconds | video_cutter.py:30-32 | any whole hours, minutes and seconds read back exactly |
| TimeSpec.ClockExamples | video_cutter.py:20 | "03:05" is 185 seconds and "1:03:05" is 3785 seconds |
| TimeSpec.FieldCountExamples | video_cutter.py:33-34 | "5" and "1:2:3:4" are refused for their field count |
| TimeSpec.FormatDuration | video_cutter.py:73-82 | the text has one colon below an hour and two from an hour on: the two shapes the time parser reads |
| TimeSpec.FormatDurationRoundTrip | video_cutter.py:73-82 | reading back the `MM:SS.mmm` or `HH:MM:SS.mmm` text of a whole number of milliseconds gives that number back |
| Numerals.ParseIntPadded | video_cutter.py:29-32 | `int()` reads back every zero-padded rendering of n as n, such as the `:02d` fields that `format_duration` writes |
| Numerals.ParseFloatFixed | video_cutter.py:80-82 | `float()` reads back the `06.3f` rendering of ms/1000 as ms/1000 |
| Numerals.ParseFloatOfInt | video_cutter.py:29 | whatever `int()` accepts, `float()` accepts with the same value |
| Numerals.PadDecimal | video_cutter.py:131 | the zero-padded rendering is all digits, denotes n, has width max(width, digit count), and has no leading zero once it is wider than the width |
| Segments.ParseRange | video_cutter.py:58-68 | a token without '-' is exactly the missing-dash error; an accepted token starts strictly before it ends |
| Segments.RangeOfParts | video_cutter.py:61-66 | a token is cut at its first '-'; it gives the pair of the two times exactly when both sides parse and the start is before the end, and it gives the ordering error exactly when both parse and the end is not after the start |
| Segments.ParseSegments | video_cutter.py:37-70 | the loop returns the same list or the same error as the specification `SegmentsOf` |
| Segments.SegmentsOk | video_cutter.py:47-70 | parsing succeeds exactly when every non-blank stripped part parses; then there is one pair per such part, in input order |
| Segments.SegmentsFirstError | video_cutter.py:52-66 | the error raised is the one of the first non-blank part that does not parse |
| Segments.SegmentsOrdered | video_cutter.py:65-68 | every returned pair starts strictly before it ends |
| Segments.TokensConcat | video_cutter.py:50-55 | the tokens of two runs of parts are the first run's tokens, in order, then the second's |
| Segments.TokensSingle | video_cutter.py:52-55 | a blank part gives no token; any other part gives its stripped text |
| Segments.TokensStripped | video_cutter.py:52-55 | every token read is a non-empty, stripped part of the text |
| Segments.BlankTextNoSegments | video_cutter.py:53-55 | a text whose parts are all blank gives the empty list, not an error |
| Segments.EmptyExamples | video_cutter.py:50-55 | "" and "\|" give the empty list |
| Segments.UsageExample | video_cutter.py:42 | the usage text gives (185, 190), (2405, 2410), (3785, 3845), in that order |
| Cutter.CutAll | video_cutter.py:127-160 | the loop makes the cuts of the segments in order up to and including the first one whose exit status is not zero, and names one temporary file per segment |
| Cutter.WriteLines | video_cutter.py:166-171 | the manifest holds one `file '<absolute path>'` line per temporary file, in cut order |
| Cutter.CutJob | video_cutter.py:108-203 | a job stopped by the checks before the `try` makes no call, raises and skips the cleanup; any other job reaches the cleanup; a job makes at most three calls more than there are segments |
| Cutter.CutVideoSegments | video_cutter.py:97-203 | the method's run is the run of the specification `CutJob` for every host |
| Cutter.SucceedsIff | video_cutter.py:108-191 | the job completes exactly when ffmpeg is there, the input exists, the directory is made, every cut and the join exit with 0, and the manifest can be written |
| Cutter.SuccessTrace | video_cutter.py:125-203 | on success the calls are every cut in segment order, the manifest, the join into the output, and then the removal when the directory is there |
| Cutter.ManifestListsCuts | video_cutter.py:127-171 | on success the manifest lists the files just cut, in the same order, each by its absolute path, and the join reads that manifest |
| Cutter.CutFailureAborts | video_cutter.py:155-160 | the first failing cut raises with its index and status; no later cut, no manifest and no join are made |
| Cutter.CleanupRunsLast | video_cutter.py:108-203 | failures before the `try` do nothing and skip the cleanup; after that, removal is the last call when the directory is there, and no removal is made when it is not |
| Cutter.RemovalFailureHarmless | video_cutter.py:199-203 | a failed removal changes neither the calls made nor how the job ends |
| Cutter.CutDurationsPositive | video_cutter.py:127-128 | every cut of a well-ordered segment list asks for a positive length |
| Cutter.PathJoinShape | video_cutter.py:131 | `os.path.join` ends with its second part; an absolute second part replaces the first; otherwise the result starts with the first part, with a '/' just before the second whenever the first is not empty |
| Cutter.SegmentName | video_cutter.py:131 | a temporary name is `segment_`, digits that denote the segment number, and `.mp4`; below segment 1000 the digits are exactly three, and from 1000 on they have no leading zero, so the name is unique for each number |
| Cutter.SegmentFileInjective | video_cutter.py:131 | different segment numbers give different temporary files |
| Cutter.FirstSegmentName | video_cutter.py:131 | the first segment's file is `segment_001.mp4` |
| Cutter.CommandLineExit | video_cutter.py:236-249 | `main` exits with 0 exactly when the list parses, is not empty and the job completes, and with 1 otherwise; no job runs for an unparsable or empty list |
| Cutter.CommandLine | video_cutter.py:236-249 | a job runs only on a segment list that parses, and it is the cutter's job on that list; `main` exits with 0 exactly when a job ran and completed |
| Cutter.NoSegmentsNoRun | video_cutter.py:238-242 | a text of blank parts exits with 1 before anything is done |
| Prompts.GetInput | video_cutter_interactive.py:41-56 | the answer is None exactly when the response is blank, no non-empty default is given and the question is optional |
| Prompts.GetInputDefault | video_cutter_interactive.py:51-52 | a blank response takes a non-empty default |
| Prompts.GetInputStripped | video_cutter_interactive.py:49-56 | when no default is taken, a non-blank response, or any response to a question that is not optional, gives the stripped response (possibly ""); an answer is never padded |
| Prompts.GetInputPadding | video_cutter_interactive.py:49 | surrounding whitespace does not change the answer |
| Prompts.GetYesNo | video_cutter_interactive.py:82-90 | a blank response gives the default; any other gives yes exactly when its stripped lower-case form is y, yes, 1 or true |
| Prompts.YesNoIgnoresCase | video_cutter_interactive.py:85 | lower-casing the response does not change the answer |
| Prompts.YesNoPadding | video_cutter_interactive.py:85 | surrounding whitespace does not change the answer |
| Prompts.YesNoExamples | video_cutter_interactive.py:90 | "Y", "yes" and "1" are yes even with a default of no; "n" and "no" are no even with a default of yes |
| Prompts.Answer | video_cutter_interactive.py:67-79 | a blank response with a non-zero default gives that default; otherwise a response answers exactly when `int()` reads a number from 1 to the option count from it, and the answer is that number |
| Prompts.FirstAnswer | video_cutter_interactive.py:66-79 | the first response that gives an answer, every earlier one giving none; or none at all |
| Prompts.GetChoice | video_cutter_interactive.py:59-79 | the loop returns the first answer and how many lines it read, or reads every line when none answers |
| Prompts.ChoiceInRange | video_cutter_interactive.py:69-75 | the choice is the given default or a number from 1 to the option count |
| Prompts.ChoiceAsksAgain | video_cutter_interactive.py:72-79 | a response that is not a valid number in range is skipped and the answer comes from the lines after it |
| Prompts.ModeFor | video_cutter_interactive.py:289 | the lookup succeeds exactly for choices 1 to 3 |
| Prompts.ModeAlwaysKnown | video_cutter_interactive.py:286-289 | the three-way question with default 2 always gives fast, balanced or accurate |
| Prompts.ModeNames | video_cutter_interactive.py:286 | 1 is fast, 2 is balanced, 3 is accurate |
| Credentials.Member | video_cutter_interactive.py:174 | `field in doc` raises exactly for null, booleans and numbers |
| Credentials.CheckRequiredFields | video_cutter_interactive.py:172-176 | all fields are present exactly when the document has all four; otherwise the first absent one is named, in list order, or the search raises |
| Credentials.RequiredFieldsTruthy | video_cutter_interactive.py:172-179 | a document with every required field is true, so the caller keeps it |
| Credentials.NonBlank | video_cutter_interactive.py:157-161 | only non-blank lines are kept, and no more of them than were read |
| Credentials.NonBlankConcat | video_cutter_interactive.py:154-161 | the lines kept from two runs of typed lines are the first run's, in order, then the second's: the paste keeps its order and its repeated lines |
| Credentials.NonBlankSingle | video_cutter_interactive.py:157-161 | one line is kept exactly when it is not blank, and then as itself |
| Credentials.NonBlankEmpty | video_cutter_interactive.py:157-161 | nothing is kept exactly when every line read is blank |
| Credentials.NonBlankKeeps | video_cutter_interactive.py:159-161 | every non-blank line read is kept |
| Credentials.PasteEnd | video_cutter_interactive.py:154-158 | the paste ends at the first pair of blank lines in a row, or never when there is none |
| Credentials.ReadPastedLines | video_cutter_interactive.py:154-161 | the loop keeps the same lines, reads the same count and ends the same way as the specification `PasteSpec` |
| Credentials.SingleBlankContinues | video_cutter_interactive.py:157-160 | a single blank line between non-blank lines does not end the paste |
| Credentials.PasteIgnoresRest | video_cutter_interactive.py:155-156 | nothing typed after the first two blank lines in a row is read |
| Credentials.JoinedBlank | video_cutter_interactive.py:163-166 | the joined paste is blank exactly when nothing was kept |
| Credentials.GetDriveCredentials | video_cutter_interactive.py:138-182 | the method returns what the specification `CredentialsSpec` gives |
| Credentials.AcceptedIff | video_cutter_interactive.py:140-179 | a key is accepted exactly when the uploader is there, the paste ended, something was kept, it decodes and it has every required field; the key is what the text decodes to, and it is true |
| Interactive.PathName | video_cutter_interactive.py:276 | a path's name never holds a '/' |
| Interactive.LastIndex | video_cutter_interactive.py:276 | the last position of the character, or none when it does not occur |
| Interactive.StemSuffix | video_cutter_interactive.py:276 | a name is its stem then its suffix; a suffix is empty or a '.' then at least one character with no further '.' |
| Interactive.DefaultOutput | video_cutter_interactive.py:276 | the default output is a bare name with no '/', four characters longer than the input's name |
| Interactive.DefaultOutputParts | video_cutter_interactive.py:276 | when the input's name has a suffix, the default output keeps that suffix and its stem is the input's stem then "_cut"; when it has none, the default output is the name then "_cut" ("a." gives "a._cut") |
| Interactive.DefaultOutputOfPlainName | video_cutter_interactive.py:276 | the video `dir/.../stem.ext` gets the default output `stem_cut.ext` |
| Interactive.ProcessAsWrittenAlwaysFails | video_cutter_interactive.py:335-342 | as written, processing fails for every host and input |
| Interactive.SessionEnd | video_cutter_interactive.py:301-356 | credentials raise only on a yes to the upload question; the session finishes exactly when they did not raise, the start was confirmed and processing completed; it uploads exactly when, in addition, the upload was asked for and true credentials were accepted |
| Interactive.UploadIff | video_cutter_interactive.py:301-356 | the upload is attempted exactly when it was asked for, credentials were accepted, the start was confirmed and processing completed |
| Interactive.NoUploadWhenDeclined | video_cutter_interactive.py:302-305 | declining the upload means credentials are never read, cannot fail the session, and nothing is uploaded |
| Interactive.SessionAsWrittenNeverUploads | video_cutter_interactive.py:324-369 | as written, no session reaches the end, so none uploads |
| Interactive.SessionUploadsAfterJob | video_cutter_interactive.py:335-356 | with the call corrected, an accepted and confirmed session uploads exactly when the cut job completes |

## Left out

- The GUI (`video_cutter_gui.py`) is not part of this model: it is widgets and a worker thread.
- The Drive uploader (`google_drive_uploader.py`) is not part of this model, and neither is `upload_to_gdrive`: they wrap a network client. The model stops at the decision to attempt the upload.
- The YouTube downloader and the video source step are left out. The downloader is not among the files. The step that asks again until the input path exists is file-system I/O.
- `check_ffmpeg`, `subprocess.run`, `os.makedirs`, `os.path.exists`, `os.path.abspath` and `shutil.rmtree` are not modelled; they are answers of the `Host` parameter.
- Each cut call is recorded by its segment index, input, start, duration and output file. The ffmpeg argument lists themselves are not modelled.
- `json.loads` is a parameter. A decoding error is `None`.
- argparse and every `print` are left out. So is the running `total_duration`, which is only printed.
- Cutter.WriteLines: the manifest file either cannot be opened, raising before any line is written, or is written whole. A failure in the middle of the writing is not modelled.
- Python's `int()` and `float()` are modelled on decimal digit strings only (`float`: `w`, `w.f`, `w.` or `.f`). Signs, underscores, exponents, `inf`, `nan` and non-ASCII digits are not, so such fields are refused here where Python might accept them.
- Times are exact reals, not binary floating point.
- TimeSpec.FormatDuration: `format_duration` is modelled for a whole number of milliseconds, a non-negative count. Float `//` and `%`, and the rounding of `:06.3f` for other values, are left out.
- Prompts.GetYesNo: `str.lower` is modelled on ASCII letters only; other letters are left as they are.
- Interactive.PathName: paths are POSIX paths, here and in `Cutter.PathJoinShape` (`os.path.join`). Windows drive letters and backslashes are left out.
- Interactive.PathName: `PurePath.suffix` follows the rule of the Python versions before 3.14, where a name ending in '.' has no suffix.
- The manifest line puts the absolute path between single quotes, as the code does. Quoting of paths that contain a quote is not modelled.
- `validate_segments` in the interactive front end is not modelled. It runs the same parser, prints the segments, and returns whether parsing succeeded. That result ends the loop that asks for segments again. The loop is left out as well, since it is that parser plus I/O.
- `validate_segments` returns true for an empty segment list. So the interactive `main`, unlike the command-line one, goes on with zero segments, and the model states no exit for that case. A cut job on an empty list makes no cut and joins an empty manifest. `Interactive.Process` takes any list, the empty one included.
- `remove_audio` is asked with `get_yes_no(..., default=False)`, which this model covers, but it takes part in no decision. The cutter shown has no such option.
- Prompts.GetChoice: the option list is represented by its count only; the option texts are only printed.
- Pressing Ctrl-C (`KeyboardInterrupt`) is not modelled.

## Findings

| source | as written | input that shows it | evidently intended | confidence | as-written member | corrected member |
|---|---|---|---|---|---|---|
| video_cutter_interactive.py:336-342 | The call passes the keywords `mode` and `remove_audio`. The `cut_video_segments` of video_cutter.py:97-98 has no such parameters, so the call raises `TypeError` before the cutter runs, and every session fails at processing. | Any interactive session that answers yes to "Start processing?" | The cutter runs on the chosen input, segments and output, and the upload follows when it completes | high; not executed | Interactive.ProcessAsWritten, Interactive.SessionAsWrittenNeverUploads | Interactive.Process, Interactive.SessionUploadsAfterJob |
