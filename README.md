# Proctoring detector: frame rules, summary and video sampling

A Dafny model of the decision logic in `server/src/ml/procturingModel.py`,
the proctoring detector of an online exam server. The object detector
(YOLO) and video decoding (OpenCV, ffmpeg) are black boxes here. What
remains is a small, deterministic pipeline:

- **Frame rules** (`frame_rules.dfy`, module `FrameRules`). From the class
  names the detector reports for one frame, `_evaluate_frame` counts the
  `"person"` detections. It collects the names that contain a device
  keyword, case-insensitively, and emits at most one person event and at
  most one device event. The detection pass is the `Tally` method with a
  loop. `EvaluateFrame` builds the events step by step and is proved equal
  to the reference function `FrameEvents`. The rules are lemmas about that
  function.
- **Summary** (`summary.dfy`, module `EventSummary`). `summarize_events`
  reports the first event of highest severity rank, where low < medium <
  high and an unknown severity ranks as low. It returns the input events
  unchanged.
- **Video analysis** (`video_analysis.dfy`, module `VideoAnalysis`).
  `analyze_video_file` samples frames at stride `max(1, total //
  max_frames)`. It evaluates at most `max_frames` readable frames on that
  grid and stops right after the first high-severity event. Its two loops
  are modelled as methods: `SweepCapture` for the OpenCV capture path and
  `SweepExtracted` for the ffmpeg fallback. Each loop body is a step
  method, `CaptureStep` or `ExtractStep`. Both loops are proved equal to
  one reference function, `SweepOfFrames`, which is the candidate list
  (`SampledFrom`) swept by `SweepSpec`. The lemmas about that function
  state the sampling bounds, the in-order concatenation of events and the
  early stop.
  - Every error result has the fail-open shape: `hasViolation` is false and
    an `error` message is present. `Analysis`, `AnalyzeVideoFile`,
    `AnalyzeVideoCommand` and `FailOpen` cover this.
- Support modules:
  - `text.dfy` (`Text`): ASCII `lower()`, substring test, `join`, decimal
    spelling.
  - `ordering.dfy` (`Ordering`): string order and `sorted()` of a set.
  - `wrappers.dfy` (`Wrappers`): `Option` and `Result`.

The model abstracts the environment as follows:

- A video is the outcome of opening it, given as a `Video` value:
  - absent;
  - present but unreadable, with the message of the exception that
    `os.path.getsize` or `open` raised;
  - opened, with its reported frame count, its dimensions and the sequence
    of frames `cap.read()` returns (`None` for an empty read);
  - not openable, with the outcome of the ffmpeg fallback.
- The detector is a function from a frame to the class names it reports,
  or to the message of the exception it raised.

## Model

| member | source | states |
|---|---|---|
| FrameRules.Tally | server/src/ml/procturingModel.py:143-152 | the loop's `person_count` is the number of detections named exactly `"person"`; `devices` is exactly the set of detected names whose lower-cased form contains a keyword of `DEVICE_KEYWORDS` |
| FrameRules.EvaluateFrame | server/src/ml/procturingModel.py:143-189 | the returned person count and device set are those of the detection pass, and the event list built step by step equals the reference rules `FrameEvents` |
| FrameRules.PersonRule | server/src/ml/procturingModel.py:162-173 | no person gives the medium "No person detected" event with details "Student not visible"; more than `MULTI_THRESHOLD` (1) gives the high "Multiple faces detected" event with details "<n> persons"; each of the two is emitted exactly under its own condition, so exactly one person gives neither and both are never emitted together |
| FrameRules.DeviceRule | server/src/ml/procturingModel.py:175-182 | a device event is emitted if and only if some detected name is a device; the last event is then a device event with severity high whose details are the sorted device names joined by ", " |
| FrameRules.PhoneLabel | server/src/ml/procturingModel.py:177 | the device event is labelled "Phone detected" if and only if some detected name contains "phone" case-insensitively |
| FrameRules.FrameShape | server/src/ml/procturingModel.py:162-182 | one frame yields at most two events, each either a person event or a device event, and a person event always precedes a device event |
| FrameRules.FrameHighIff | server/src/ml/procturingModel.py:162-182 | a frame has a high-severity event exactly when it shows more than one person or some device |
| FrameRules.RedundantPhoneKeywords | server/src/ml/procturingModel.py:69-78 | the keywords "cell phone" and "mobile phone" never change the device test, because any name containing them also contains "phone" |
| Text.Lower | server/src/ml/procturingModel.py:151 | `lower()` keeps the length, leaves no capital A-Z, turns each capital into its small letter and keeps every other character |
| Text.LowerIdempotent | server/src/ml/procturingModel.py:151 | lower-casing an already lower-cased name changes nothing |
| FrameRules.CaseInsensitive | server/src/ml/procturingModel.py:151 | the device test and the "phone" test judge a name and its lower-cased form alike, so they ignore case |
| Text.DecimalRoundTrip | server/src/ml/procturingModel.py:172 | the decimal spelling of the person count reads back as that count |
| Ordering.SortedNames | server/src/ml/procturingModel.py:176 | `sorted(devices)` lists exactly the elements of the set, each once, in strictly increasing order |
| Ordering.SortedNamesCanonical | server/src/ml/procturingModel.py:176 | that listing is the only strictly increasing listing of the set |
| EventSummary.FirstMax | server/src/ml/procturingModel.py:196-197 | `max` with the severity-rank key picks an event of highest rank that no earlier event equals in rank |
| EventSummary.FirstMaxUnique | server/src/ml/procturingModel.py:197 | that first maximum is unique |
| EventSummary.Summarize | server/src/ml/procturingModel.py:192-205 | `hasViolation` holds exactly for a non-empty event list; an empty list gives the bare no-violation result; otherwise type, severity and details are those of the first event of highest rank, and the events are returned unchanged |
| EventSummary.SummaryOfHigh | server/src/ml/procturingModel.py:196-202 | if any event is high, the summary is a violation of severity high |
| VideoAnalysis.Stride | server/src/ml/procturingModel.py:348 | `max(1, total // max_frames)` with Python's floor division is at least 1, and when it exceeds 1 then `stride * max_frames <= total` (the same expression is at line 292) |
| VideoAnalysis.TotalFrames | server/src/ml/procturingModel.py:334 | the `or 1` fallback: a reported count of 0 gives 1, and any other reported count is kept |
| VideoAnalysis.OnGridIsMod | server/src/ml/procturingModel.py:297 | the division-free grid test used by the reference sweep agrees with `idx % stride == 0` |
| VideoAnalysis.IsOnGrid | server/src/ml/procturingModel.py:367 | the loops' `idx % stride == 0` test answers exactly whether the index is on the sampling grid |
| VideoAnalysis.VerdictAt | server/src/ml/procturingModel.py:303-309 | the verdict recorded for frame `i` is what reading and evaluating that frame gives: unreadable, an exception, or the frame's events |
| VideoAnalysis.Evaluate | server/src/ml/procturingModel.py:369 | `_evaluate_frame` on a readable frame either raises the detector's exception or yields the events of the frame rules, which is the frame's recorded verdict |
| VideoAnalysis.SampledMembers | server/src/ml/procturingModel.py:296-306 | a position is a candidate exactly when it is in range, on the stride grid and holds a readable frame |
| VideoAnalysis.SampledIncreasing | server/src/ml/procturingModel.py:296 | candidates are visited in increasing index order |
| VideoAnalysis.RemainingIsSweep | server/src/ml/procturingModel.py:356-377 | walking the video position by position, as the loops do, gives the same sweep as evaluating the candidate list |
| VideoAnalysis.Visit | server/src/ml/procturingModel.py:369-375 | evaluating a sampled frame within budget either ends the sweep with the detector's exception, ends it right after this frame when the aggregated events now hold a high one, or carries on at the next position with one evaluation fewer to spend |
| VideoAnalysis.CaptureStep | server/src/ml/procturingModel.py:357-377 | one pass of the capture loop body: a `None` frame is skipped and not counted, an off-grid frame is skipped, and a frame on the grid is evaluated, counted and may stop the sweep; each outcome agrees with the reference sweep |
| VideoAnalysis.SweepCapture | server/src/ml/procturingModel.py:352-377 | the `while processed < max_frames` loop, ending at the end of the video, returns exactly the reference sweep of the captured frames |
| VideoAnalysis.ExtractStep | server/src/ml/procturingModel.py:297-316 | one pass of the extracted-frames loop body: the stride test, then the budget test, then the unreadable-file skip, then evaluation; each outcome agrees with the reference sweep |
| VideoAnalysis.SweepExtracted | server/src/ml/procturingModel.py:295-316 | the `for idx, frame_file in enumerate(frame_files)` loop returns exactly the reference sweep of the frame files |
| VideoAnalysis.SweepPrefix | server/src/ml/procturingModel.py:300-312 | a completed sweep evaluates a prefix of the candidates, and no more frames than the budget |
| VideoAnalysis.SweepEvents | server/src/ml/procturingModel.py:311 | the aggregated events are the evaluated frames' events concatenated in evaluation order |
| VideoAnalysis.SweepEarlyStop | server/src/ml/procturingModel.py:314-316 | every evaluated frame but the last was clean, and a sweep that stops with both candidates and budget left stopped on a frame with a high-severity event |
| VideoAnalysis.SweepCrash | server/src/ml/procturingModel.py:329-331 | a sweep ends in an exception exactly when, within the budget, the detector raises on a candidate after clean frames only, and the exception is that first one |
| VideoAnalysis.EvaluatedAreSampled | server/src/ml/procturingModel.py:292-312 | the frames a whole-video sweep evaluates are increasing, in range, readable, each with `idx % stride == 0`, and at most `max_frames` of them |
| VideoAnalysis.EventsOfHigh | server/src/ml/procturingModel.py:314 | aggregated events hold a high one exactly when some evaluated frame's events do |
| VideoAnalysis.HighIsLast | server/src/ml/procturingModel.py:314-316 | in a completed sweep only the last evaluated frame can hold a high-severity event |
| VideoAnalysis.HighFromLastFrame | server/src/ml/procturingModel.py:371-375 | for a whole-video sweep: its events are the evaluated frames' events in order, and a high event makes the summary a high violation and came from the last evaluated frame |
| VideoAnalysis.FramesDirFor | server/src/ml/procturingModel.py:261 | the frames directory of the ffmpeg fallback (corrected, see Findings) keeps the ".webm" naming where it applies and is never the video file itself |
| VideoAnalysis.FallbackAsWrittenFails | server/src/ml/procturingModel.py:261-262 | as written, for every path without ".webm" the fallback ends in "Video processing failed: [Errno 17] File exists: …", whatever ffmpeg extracted |
| VideoAnalysis.FallbackMp4Example | server/src/ml/procturingModel.py:256-331 | on "exam.mp4" with one extracted blank frame, the fallback as written fails, while with the corrected directory it reports the missing student |
| VideoAnalysis.AnalyzeVideoFile | server/src/ml/procturingModel.py:208-391 | `analyze_video_file` returns or raises exactly what the reference `Analysis` gives on the path, the video and `max_frames` |
| VideoAnalysis.MaxFramesOption | server/src/ml/procturingModel.py:456 | `--max-frames` is the given integer, or 8 when the option is absent |
| VideoAnalysis.AnalyzeVideoCommand | server/src/ml/procturingModel.py:462-482 | `main --mode analyze-video` prints the "video path required" error for a missing or empty path, the analysis result otherwise (with the `--max-frames` value or its default), and the message of an escaping exception as an error result |
| VideoAnalysis.SuccessIsSweep | server/src/ml/procturingModel.py:327 | a result that is not an error is the summary of a completed sweep of the video's frames, and `max_frames` was not 0 |
| VideoAnalysis.ReportedVerdict | server/src/ml/procturingModel.py:391 | a result that is not an error reports a violation exactly when some evaluated frame produced an event; with a high event its severity is high and that event came from the last frame evaluated |
| VideoAnalysis.FailOpen | server/src/ml/procturingModel.py:464-466 | every error result of the command has `hasViolation` false; a violation is reported only after a completed sweep that collected events; each failure (missing path, missing or unreadable file, ffmpeg failure, no frames, zero dimensions, division by zero) gives its own error message |

## Left out

- The YOLO inference call, its 0.3 confidence threshold, boxes, confidences, the `detections` list and `resize_w` (lines 95-100, 122-156). The detector is a parameter returning class names or an exception message.
- The class-name lookup `names.get(int(cls_idx), str(cls_idx))` (line 144). The detector returns the names directly.
- PyTorch safe-globals and `torch.load` patching, `get_model_path`, `ensure_model` (lines 12-67, 103-119): library setup and model loading.
- Magic-byte sniffing and the file size (lines 215-232). Their values are only printed. When `os.path.getsize` or `open` raises, that is the `Inaccessible` video, which raises out of the analysis and reaches `main`'s handler.
- `cv2.VideoCapture`, `cap.read`, `cv2.imread`, the ffmpeg subprocess, `glob`, temporary directories and their cleanup (lines 234-288, 318-324, 379-387): I/O. Their outcome is the `Video` and `Extraction` value.
  - VideoAnalysis.FileExists: the message is written for paths that Python's `repr` quotes with plain single quotes. Paths that contain quotes or backslashes are quoted differently and are not modelled.
- `run_stream_mode` (lines 394-447): webcam UI, drawing and frames per second.
- `main`'s argument parsing, JSON printing, stderr message and re-raise (lines 450-482). `AnalyzeVideoCommand` gives the printed object, with `--video` and `--max-frames` as optional values. A `--max-frames` that is not an integer (an argparse usage error) and the process exit status after the re-raise are not modelled.
- Debug printing and timestamps throughout.
- The exam-attempt registry, trust scoring and submission grading belong to other server files. These files are not part of this model.
- Text.Lower: folds ASCII letters only, whereas Python's `str.lower()` also folds non-ASCII letters. A detector class name with non-ASCII capitals may therefore match a keyword in Python but not here.
- VideoAnalysis.ZERO_DIVISION: the message of the exception `n // 0` raises is written as CPython spells it. It is taken as fixed text, not derived.
- `max_frames` is any integer, not required to be at least 1. Zero raises ZeroDivisionError:
  - on the capture path it escapes to `main`;
  - on the ffmpeg path the `try` turns it into "Video processing failed: …".
  - A negative value evaluates no frame and gives the empty summary.
- Frame width and height are natural numbers; a negative property value from OpenCV is not modelled.
- On the ffmpeg path, an exception from the detector is reported as "Video processing failed: <message>". On the capture path it escapes `analyze_video_file`, and `main` prints it as an error result.

## Findings

| source | as written | input that shows it | evidently intended | confidence | as-written member | corrected member |
|---|---|---|---|---|---|---|
| server/src/ml/procturingModel.py:261-262 | the frames directory is `path.replace('.webm', '_frames')`, which is the video path itself when the path has no ".webm"; the video exists as a file (line 210), so `os.makedirs(frames_dir, exist_ok=True)` raises FileExistsError and the fallback always ends in "Video processing failed" | "exam.mp4" that neither OpenCV backend opens, with one extracted frame in which nothing is detected: the result is "Video processing failed: [Errno 17] File exists: 'exam.mp4'" instead of the "No person detected" violation | a frames directory distinct from the video file for every path | not executed; high | VideoAnalysis.FallbackAsWrittenFails | VideoAnalysis.FramesDirFor |

`Analysis` and `AnalyzeVideoFile` use the corrected directory. `FallbackAsWritten` is the fallback with line 261's directory. `FallbackMp4Example` shows both halves on the input above.
