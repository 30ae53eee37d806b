/**
 * Analysing a recorded video: open it (or fall back to extracting frames
 * with ffmpeg), sample frames at a fixed stride, evaluate at most
 * `maxFrames` of them, stop at the first high-severity event and
 * summarise. Opening, decoding and the object detector are outside the
 * model: a video is given as what those steps produce.
 */
module VideoAnalysis {
  import opened Wrappers
  import opened Text
  import opened FrameRules
  import opened EventSummary

  /** The `--max-frames` default. */
  const DEFAULT_MAX_FRAMES: int := 8

  /** `str(e)` for the ZeroDivisionError that `n // 0` raises. */
  const ZERO_DIVISION: string := "integer division or modulo by zero"
  const PROCESSING_FAILED: string := "Video processing failed: "

  /** The object detector on one frame: the class names it reports, or the message of what it raised. */
  type Detector<!F> = F -> Result<seq<string>, string>

  /** What the ffmpeg fallback produced: a non-zero exit, an exception, or the frame files in name order. */
  datatype Extraction<F> =
    | FfmpegFailed
    | FfmpegRaised(message: string)
    | FramesExtracted(files: seq<Option<F>>)   // None: `cv2.imread` could not read the file

  /** What the file system and OpenCV make of the video path. */
  datatype Video<F> =
    | Absent                                   // `os.path.exists(path)` is false
    | Inaccessible(message: string)            // it exists, but `os.path.getsize` or `open` raised this
    | Opened(frameCount: int, width: nat, height: nat, captured: seq<Option<F>>)
      // a capture opened; `frameCount` is `int(CAP_PROP_FRAME_COUNT)`; `captured` are the
      // successful `cap.read()` calls in order (None: no image), the end is `ret == False`
    | Unopenable(extraction: Extraction<F>)    // neither backend opened it

  /** The frames a sampling loop evaluated and the events it aggregated, or the exception that ended it. */
  datatype Sweep = Swept(evaluated: seq<nat>, events: seq<Event>) | Crashed(message: string)

  /** `analyze_video_file` either returns a result dictionary or raises. */
  datatype Outcome = Returned(report: Report) | Raised(message: string)

  /** Python's `a // b`, which rounds towards negative infinity. */
  function FloorDiv(a: int, b: int): (q: int)
    requires b != 0
    ensures b > 0 ==> b * q <= a < b * q + b
    ensures b < 0 ==> b * q >= a > b * q + b
  {
    if b > 0 then a / b else (-a) / (-b)
  }

  /** `max(1, total // max_frames)` */
  function Stride(total: int, maxFrames: int): (stride: nat)
    requires maxFrames != 0
    ensures stride >= 1
    ensures maxFrames > 0 && stride > 1 ==> stride * maxFrames <= total
  {
    var q := FloorDiv(total, maxFrames);
    if q > 1 then q else 1
  }

  /**
   * What evaluating one frame gives: nothing (the frame could not be read),
   * the message of an exception the detector raised, or the frame's events.
   */
  datatype Verdict = Unreadable | Threw(message: string) | Judged(events: seq<Event>)

  function Judge<F>(frame: Option<F>, detect: Detector<F>): Verdict
  {
    match frame
    case None => Unreadable
    case Some(image) =>
      match detect(image)
      case Failure(m) => Threw(m)
      case Success(names) => Judged(FrameEvents(names))
  }

  /** The verdict on every frame of a video, whether or not a loop gets to evaluate it. */
  function Verdicts<F>(frames: seq<Option<F>>, detect: Detector<F>): (vs: seq<Verdict>)
    ensures |vs| == |frames|
  {
    if frames == [] then []
    else Verdicts(frames[..|frames| - 1], detect) + [Judge(frames[|frames| - 1], detect)]
  }

  /** An unreadable frame gets the verdict `Unreadable`. */
  lemma UnreadableAt<F>(frames: seq<Option<F>>, detect: Detector<F>, i: nat)
    requires i < |frames| && frames[i].None?
    ensures Verdicts(frames, detect)[i] == Unreadable
  {
    VerdictAt(frames, detect, i);
  }

  lemma {:induction false} VerdictAt<F>(frames: seq<Option<F>>, detect: Detector<F>, i: nat)
    requires i < |frames|
    ensures Verdicts(frames, detect)[i] == Judge(frames[i], detect)
  {
    var n := |frames| - 1;
    assert Verdicts(frames, detect) == Verdicts(frames[..n], detect) + [Judge(frames[n], detect)];
    if i < n {
      VerdictAt(frames[..n], detect, i);
      assert frames[..n][i] == frames[i];
    }
  }

  /** `j % stride == 0`, spelled without division (OnGridIsMod). */
  predicate OnGrid(j: nat, stride: nat)
    requires stride >= 1
    decreases j
  {
    if j < stride then j == 0 else OnGrid(j - stride, stride)
  }

  lemma {:induction false} MulAtLeast(k: int, s: int)
    requires k >= 1 && s >= 1
    ensures k * s >= s
  {
    if k > 1 {
      MulAtLeast(k - 1, s);
      assert k * s == (k - 1) * s + s;
    }
  }

  lemma MulGap(q: int, q0: int, s: int)
    requires s >= 1
    ensures q > q0 ==> q * s - q0 * s >= s
    ensures q < q0 ==> q0 * s - q * s >= s
  {
    if q > q0 {
      MulAtLeast(q - q0, s);
      assert (q - q0) * s == q * s - q0 * s;
    }
    if q < q0 {
      MulAtLeast(q0 - q, s);
      assert (q0 - q) * s == q0 * s - q * s;
    }
  }

  /** The remainder is determined by any quotient-remainder decomposition. */
  lemma ModUnique(a: int, s: int, q: int, r: int)
    requires s >= 1 && 0 <= r < s && a == q * s + r
    ensures a % s == r
  {
    MulGap(q, a / s, s);
  }

  lemma {:induction false} OnGridIsMod(j: nat, stride: nat)
    requires stride >= 1
    ensures OnGrid(j, stride) <==> j % stride == 0
    decreases j
  {
    if j < stride {
      ModUnique(j, stride, 0, j);
    } else {
      OnGridIsMod(j - stride, stride);
      var q, r := (j - stride) / stride, (j - stride) % stride;
      assert (q + 1) * stride == q * stride + stride;
      ModUnique(j, stride, q + 1, r);
    }
  }

  /** The loops' `idx % stride == 0` test. */
  method IsOnGrid(idx: nat, stride: nat) returns (b: bool)
    requires stride >= 1
    ensures b <==> OnGrid(idx, stride)
  {
    OnGridIsMod(idx, stride);
    b := idx % stride == 0;
  }

  predicate Increasing(ps: seq<nat>)
  {
    forall k, l :: 0 <= k < l < |ps| ==> ps[k] < ps[l]
  }

  predicate InRange(vs: seq<Verdict>, ps: seq<nat>)
  {
    forall k :: 0 <= k < |ps| ==> ps[k] < |vs|
  }

  /**
   * The candidate positions from `from` on, in order: those on the
   * sampling grid that hold a readable frame (SampledMembers, SampledIncreasing).
   */
  function SampledFrom(vs: seq<Verdict>, stride: nat, from: nat): (ps: seq<nat>)
    requires stride >= 1
    ensures InRange(vs, ps)
    decreases |vs| - from
  {
    if from >= |vs| then []
    else
      var rest := SampledFrom(vs, stride, from + 1);
      if OnGrid(from, stride) && !vs[from].Unreadable? then [from] + rest else rest
  }

  /** Exactly the readable positions `j >= from` on the grid are candidates. */
  lemma {:induction false} SampledMembers(vs: seq<Verdict>, stride: nat, from: nat)
    requires stride >= 1
    ensures forall j: nat :: j in SampledFrom(vs, stride, from)
                         <==> from <= j < |vs| && OnGrid(j, stride) && !vs[j].Unreadable?
    decreases |vs| - from
  {
    if from < |vs| {
      SampledMembers(vs, stride, from + 1);
    }
  }

  /** The candidates come in increasing order, all at or after `from`. */
  lemma {:induction false} SampledIncreasing(vs: seq<Verdict>, stride: nat, from: nat)
    requires stride >= 1
    ensures var ps := SampledFrom(vs, stride, from);
      Increasing(ps) && forall k :: 0 <= k < |ps| ==> from <= ps[k]
    decreases |vs| - from
  {
    if from < |vs| {
      SampledIncreasing(vs, stride, from + 1);
    }
  }

  /** A sweep that first evaluated `evaluated`, yielding `events`, and then went on as `rest`. */
  function Extend(evaluated: seq<nat>, events: seq<Event>, rest: Sweep): Sweep
  {
    match rest
    case Crashed(m) => Crashed(m)
    case Swept(more, moreEvents) => Swept(evaluated + more, events + moreEvents)
  }

  /**
   * Reference definition of both sampling loops: evaluate the candidate
   * positions `ps` in order, at most `budget` of them, and stop right after
   * the first frame that yields a high-severity event; an exception from
   * the detector ends the sweep. (An unreadable frame is never a candidate;
   * it would be passed over.)
   */
  function SweepSpec(vs: seq<Verdict>, ps: seq<nat>, budget: int): Sweep
    requires InRange(vs, ps)
    decreases |ps|
  {
    if ps == [] || budget <= 0 then Swept([], [])
    else
      match vs[ps[0]]
      case Unreadable => SweepSpec(vs, ps[1..], budget)
      case Threw(m) => Crashed(m)
      case Judged(evs) =>
        if HasHigh(evs) then Swept([ps[0]], evs)
        else Extend([ps[0]], evs, SweepSpec(vs, ps[1..], budget - 1))
  }

  /** The sweep of a whole video sampled at `stride`. */
  function SweepOfFrames(vs: seq<Verdict>, stride: nat, maxFrames: int): Sweep
    requires stride >= 1
  {
    SweepSpec(vs, SampledFrom(vs, stride, 0), maxFrames)
  }

  /**
   * The same sweep told position by position, as the loops walk the
   * video: what is still to come from position `idx` on, with `left`
   * evaluations still allowed.
   */
  function Remaining(vs: seq<Verdict>, stride: nat, idx: nat, left: int): Sweep
    requires stride >= 1
    decreases |vs| - idx
  {
    if idx >= |vs| || left <= 0 then Swept([], [])
    else if !OnGrid(idx, stride) then Remaining(vs, stride, idx + 1, left)
    else
      match vs[idx]
      case Unreadable => Remaining(vs, stride, idx + 1, left)
      case Threw(m) => Crashed(m)
      case Judged(evs) =>
        if HasHigh(evs) then Swept([idx], evs)
        else Extend([idx], evs, Remaining(vs, stride, idx + 1, left - 1))
  }

  /** Walking position by position is the sweep over the candidate list. */
  lemma {:induction false} RemainingIsSweep(vs: seq<Verdict>, stride: nat, from: nat, left: int)
    requires stride >= 1
    ensures Remaining(vs, stride, from, left) == SweepSpec(vs, SampledFrom(vs, stride, from), left)
    decreases |vs| - from
  {
    if from < |vs| && left > 0 {
      var ps, rest := SampledFrom(vs, stride, from), SampledFrom(vs, stride, from + 1);
      if OnGrid(from, stride) && !vs[from].Unreadable? {
        assert ps == [from] + rest;
        assert ps[0] == from && ps[1..] == rest;
        if vs[from].Judged? && !HasHigh(vs[from].events) {
          RemainingIsSweep(vs, stride, from + 1, left - 1);
        }
      } else {
        assert ps == rest;
        RemainingIsSweep(vs, stride, from + 1, left);
      }
    }
  }

  lemma ExtendTwice(e1: seq<nat>, v1: seq<Event>, e2: seq<nat>, v2: seq<Event>, rest: Sweep)
    ensures Extend(e1, v1, Extend(e2, v2, rest)) == Extend(e1 + e2, v1 + v2, rest)
  {
    if rest.Swept? {
      assert e1 + (e2 + rest.evaluated) == (e1 + e2) + rest.evaluated;
      assert v1 + (v2 + rest.events) == (v1 + v2) + rest.events;
    }
  }

  lemma ExtendByNothing(rest: Sweep)
    ensures Extend([], [], rest) == rest
  {
    if rest.Swept? {
      assert [] + rest.evaluated == rest.evaluated && [] + rest.events == rest.events;
    }
  }

  lemma ExtendNothing(e: seq<nat>, v: seq<Event>)
    ensures Extend(e, v, Swept([], [])) == Swept(e, v)
  {
    assert e + [] == e && v + [] == v;
  }

  lemma HasHighConcat(a: seq<Event>, b: seq<Event>)
    ensures HasHigh(a + b) <==> HasHigh(a) || HasHigh(b)
  {
    if HasHigh(b) {
      var i :| 0 <= i < |b| && b[i].severity == HIGH;
      assert (a + b)[|a| + i] == b[i];
    }
    if HasHigh(a) {
      var i :| 0 <= i < |a| && a[i].severity == HIGH;
      assert (a + b)[i] == a[i];
    }
    if HasHigh(a + b) {
      var i :| 0 <= i < |a + b| && (a + b)[i].severity == HIGH;
      if i >= |a| {
        assert b[i - |a|] == (a + b)[i];
      } else {
        assert a[i] == (a + b)[i];
      }
    }
  }

  /** Loop invariant of both sampling loops: the work so far followed by the rest of the reference sweep. */
  ghost predicate Progress(spec: Sweep, vs: seq<Verdict>, stride: nat, idx: nat, left: int,
                           evaluated: seq<nat>, aggregated: seq<Event>)
    requires stride >= 1
  {
    spec == Extend(evaluated, aggregated, Remaining(vs, stride, idx, left))
  }

  /** Before the loops start, the whole reference sweep is still to come. */
  lemma StepStart(vs: seq<Verdict>, stride: nat, maxFrames: int)
    requires stride >= 1
    ensures Progress(SweepOfFrames(vs, stride, maxFrames), vs, stride, 0, maxFrames, [], [])
  {
    ExtendByNothing(SweepOfFrames(vs, stride, maxFrames));
    RemainingIsSweep(vs, stride, 0, maxFrames);
  }

  /** Loop step at a position the loops pass over: not on the grid, or unreadable. */
  lemma StepSkip(vs: seq<Verdict>, stride: nat, idx: nat, left: int,
                 evaluated: seq<nat>, aggregated: seq<Event>, spec: Sweep)
    requires stride >= 1 && idx < |vs| && !(OnGrid(idx, stride) && !vs[idx].Unreadable?)
    requires Progress(spec, vs, stride, idx, left, evaluated, aggregated)
    ensures Progress(spec, vs, stride, idx + 1, left, evaluated, aggregated)
  {
  }

  /** Loop step at a candidate frame whose events are all below high severity; `left` is the budget after it. */
  lemma StepOn(vs: seq<Verdict>, stride: nat, idx: nat, left: int, evs: seq<Event>,
               evaluated: seq<nat>, aggregated: seq<Event>, spec: Sweep)
    requires stride >= 1 && idx < |vs| && OnGrid(idx, stride) && left >= 0
    requires vs[idx] == Judged(evs) && !HasHigh(evs)
    requires Progress(spec, vs, stride, idx, left + 1, evaluated, aggregated)
    ensures Progress(spec, vs, stride, idx + 1, left, evaluated + [idx], aggregated + evs)
  {
    ExtendTwice(evaluated, aggregated, [idx], evs, Remaining(vs, stride, idx + 1, left));
  }

  /** Loop step at a candidate frame that yields a high-severity event: the sweep ends here. */
  lemma StepStop(vs: seq<Verdict>, stride: nat, idx: nat, left: int, evs: seq<Event>,
                 evaluated: seq<nat>, aggregated: seq<Event>, spec: Sweep)
    requires stride >= 1 && idx < |vs| && OnGrid(idx, stride) && left > 0
    requires vs[idx] == Judged(evs) && HasHigh(evs)
    requires Progress(spec, vs, stride, idx, left, evaluated, aggregated)
    ensures spec == Swept(evaluated + [idx], aggregated + evs)
  {
  }

  /** Loop step at a candidate frame on which the detector raised. */
  lemma StepCrash(vs: seq<Verdict>, stride: nat, idx: nat, left: int, m: string,
                  evaluated: seq<nat>, aggregated: seq<Event>, spec: Sweep)
    requires stride >= 1 && idx < |vs| && OnGrid(idx, stride) && left > 0
    requires vs[idx] == Threw(m)
    requires Progress(spec, vs, stride, idx, left, evaluated, aggregated)
    ensures spec == Crashed(m)
  {
  }

  /** The loops stop without evaluating anything more: the reference sweep ends here too. */
  lemma StepEnd(vs: seq<Verdict>, stride: nat, idx: nat, left: int,
                evaluated: seq<nat>, aggregated: seq<Event>, spec: Sweep)
    requires stride >= 1 && (idx >= |vs| || left <= 0)
    requires Progress(spec, vs, stride, idx, left, evaluated, aggregated)
    ensures spec == Swept(evaluated, aggregated)
  {
    ExtendNothing(evaluated, aggregated);
  }

  /**
   * `_evaluate_frame` on the readable frame at `idx`: run the detector on
   * it, then the frame rules; an exception from the detector propagates.
   */
  method Evaluate<F>(frames: seq<Option<F>>, idx: nat, detect: Detector<F>) returns (v: Verdict)
    requires idx < |frames| && frames[idx].Some?
    ensures !v.Unreadable?
    ensures v == Verdicts(frames, detect)[idx]
  {
    VerdictAt(frames, detect, idx);
    match detect(frames[idx].value) {
      case Failure(m) =>
        v := Threw(m);
      case Success(names) =>
        var result := EvaluateFrame(names);
        v := Judged(result.events);
    }
  }

  /**
   * One sampled, readable frame within budget: evaluate it, and say what
   * that means for the sweep: the exception ends it, a high event ends it
   * after this frame, anything else carries on at the next position.
   */
  method Visit<F>(frames: seq<Option<F>>, idx: nat, detect: Detector<F>, evaluated: seq<nat>,
                  aggregated: seq<Event>, ghost stride: nat, ghost left: int, ghost spec: Sweep)
    returns (verdict: Verdict)
    requires stride >= 1 && idx < |frames| && frames[idx].Some? && OnGrid(idx, stride) && left > 0
    requires !HasHigh(aggregated)
    requires Progress(spec, Verdicts(frames, detect), stride, idx, left, evaluated, aggregated)
    ensures verdict.Threw? || verdict.Judged?
    ensures verdict.Threw? ==> spec == Crashed(verdict.message)
    ensures verdict.Judged? && HasHigh(aggregated + verdict.events) ==>
      spec == Swept(evaluated + [idx], aggregated + verdict.events)
    ensures verdict.Judged? && !HasHigh(aggregated + verdict.events) ==>
      Progress(spec, Verdicts(frames, detect), stride, idx + 1, left - 1,
               evaluated + [idx], aggregated + verdict.events)
  {
    ghost var vs := Verdicts(frames, detect);
    verdict := Evaluate(frames, idx, detect);
    if verdict.Threw? {
      StepCrash(vs, stride, idx, left, verdict.message, evaluated, aggregated, spec);
    } else {
      HasHighConcat(aggregated, verdict.events);
      if HasHigh(verdict.events) {
        StepStop(vs, stride, idx, left, verdict.events, evaluated, aggregated, spec);
      } else {
        StepOn(vs, stride, idx, left - 1, verdict.events, evaluated, aggregated, spec);
      }
    }
  }

  /**
   * One pass of the capture path's loop body at position `idx` (the loop
   * itself checks for the end of the video and advances `idx`): an
   * unreadable frame is passed over uncounted, a frame on the grid is
   * evaluated, counted and may end the sweep with a high-severity event.
   */
  method CaptureStep<F>(captured: seq<Option<F>>, idx: nat, stride: nat, maxFrames: int, detect: Detector<F>,
                        processed: int, evaluated: seq<nat>, aggregated: seq<Event>, ghost spec: Sweep)
    returns (stop: Option<Sweep>, processed': int, evaluated': seq<nat>, aggregated': seq<Event>)
    requires stride >= 1 && idx < |captured| && processed < maxFrames
    requires !HasHigh(aggregated)
    requires Progress(spec, Verdicts(captured, detect), stride, idx, maxFrames - processed, evaluated, aggregated)
    ensures stop.Some? ==> spec == stop.value
    ensures stop.None? ==>
      && !HasHigh(aggregated')
      && Progress(spec, Verdicts(captured, detect), stride, idx + 1, maxFrames - processed', evaluated', aggregated')
  {
    ghost var vs := Verdicts(captured, detect);
    stop, processed', evaluated', aggregated' := None, processed, evaluated, aggregated;
    if captured[idx].None? {
      UnreadableAt(captured, detect, idx);
      StepSkip(vs, stride, idx, maxFrames - processed, evaluated, aggregated, spec);
      return;
    }
    var aligned := IsOnGrid(idx, stride);
    if !aligned {
      StepSkip(vs, stride, idx, maxFrames - processed, evaluated, aggregated, spec);
      return;
    }
    var verdict := Visit(captured, idx, detect, evaluated, aggregated, stride, maxFrames - processed, spec);
    if verdict.Threw? {
      return Some(Crashed(verdict.message)), processed', evaluated', aggregated';
    }
    aggregated' := aggregated + verdict.events;
    evaluated' := evaluated + [idx];
    processed' := processed + 1;
    if HasHigh(aggregated') {
      stop := Some(Swept(evaluated', aggregated'));
    }
  }

  /**
   * The capture path's `while processed < max_frames` loop: read frame
   * after frame until the video ends, the budget is spent or a step
   * ends the sweep.
   */
  method SweepCapture<F>(captured: seq<Option<F>>, stride: nat, maxFrames: int, detect: Detector<F>)
    returns (sweep: Sweep)
    requires stride >= 1
    ensures sweep == SweepOfFrames(Verdicts(captured, detect), stride, maxFrames)
  {
    ghost var vs := Verdicts(captured, detect);
    ghost var spec := SweepOfFrames(vs, stride, maxFrames);
    var idx: nat := 0;
    var processed := 0;
    var aggregated: seq<Event> := [];
    var evaluated: seq<nat> := [];
    StepStart(vs, stride, maxFrames);
    while processed < maxFrames
      invariant idx <= |captured|
      invariant !HasHigh(aggregated)
      invariant Progress(spec, vs, stride, idx, maxFrames - processed, evaluated, aggregated)
      decreases |captured| - idx
    {
      if idx == |captured| {
        // `cap.read()` reports the end of the video
        break;
      }
      var stop;
      stop, processed, evaluated, aggregated :=
        CaptureStep(captured, idx, stride, maxFrames, detect, processed, evaluated, aggregated, spec);
      if stop.Some? {
        return stop.value;
      }
      idx := idx + 1;
    }
    StepEnd(vs, stride, idx, maxFrames - processed, evaluated, aggregated, spec);
    sweep := Swept(evaluated, aggregated);
  }

  /**
   * One pass of the ffmpeg path's loop body at position `idx`: positions
   * off the grid are passed over, a spent budget ends the sweep, an
   * unreadable frame file is passed over uncounted, and otherwise the
   * frame is evaluated, counted and may end the sweep.
   */
  method ExtractStep<F>(files: seq<Option<F>>, idx: nat, stride: nat, maxFrames: int, detect: Detector<F>,
                        processed: int, evaluated: seq<nat>, aggregated: seq<Event>, ghost spec: Sweep)
    returns (stop: Option<Sweep>, processed': int, evaluated': seq<nat>, aggregated': seq<Event>)
    requires stride >= 1 && idx < |files|
    requires !HasHigh(aggregated)
    requires Progress(spec, Verdicts(files, detect), stride, idx, maxFrames - processed, evaluated, aggregated)
    ensures stop.Some? ==> spec == stop.value
    ensures stop.None? ==>
      && !HasHigh(aggregated')
      && Progress(spec, Verdicts(files, detect), stride, idx + 1, maxFrames - processed', evaluated', aggregated')
  {
    ghost var vs := Verdicts(files, detect);
    stop, processed', evaluated', aggregated' := None, processed, evaluated, aggregated;
    var aligned := IsOnGrid(idx, stride);
    if !aligned {
      StepSkip(vs, stride, idx, maxFrames - processed, evaluated, aggregated, spec);
      return;
    }
    if processed >= maxFrames {
      StepEnd(vs, stride, idx, maxFrames - processed, evaluated, aggregated, spec);
      return Some(Swept(evaluated, aggregated)), processed', evaluated', aggregated';
    }
    if files[idx].None? {
      UnreadableAt(files, detect, idx);
      StepSkip(vs, stride, idx, maxFrames - processed, evaluated, aggregated, spec);
      return;
    }
    var verdict := Visit(files, idx, detect, evaluated, aggregated, stride, maxFrames - processed, spec);
    if verdict.Threw? {
      return Some(Crashed(verdict.message)), processed', evaluated', aggregated';
    }
    aggregated' := aggregated + verdict.events;
    evaluated' := evaluated + [idx];
    processed' := processed + 1;
    if HasHigh(aggregated') {
      stop := Some(Swept(evaluated', aggregated'));
    }
  }

  /**
   * The ffmpeg path's `for idx, frame_file in enumerate(frame_files)` loop:
   * the same sampling, with the stride test before the budget test.
   */
  method SweepExtracted<F>(files: seq<Option<F>>, stride: nat, maxFrames: int, detect: Detector<F>)
    returns (sweep: Sweep)
    requires stride >= 1
    ensures sweep == SweepOfFrames(Verdicts(files, detect), stride, maxFrames)
  {
    ghost var vs := Verdicts(files, detect);
    ghost var spec := SweepOfFrames(vs, stride, maxFrames);
    var processed := 0;
    var aggregated: seq<Event> := [];
    var evaluated: seq<nat> := [];
    StepStart(vs, stride, maxFrames);
    var idx: nat := 0;
    while idx < |files|
      invariant idx <= |files|
      invariant !HasHigh(aggregated)
      invariant Progress(spec, vs, stride, idx, maxFrames - processed, evaluated, aggregated)
      decreases |files| - idx
    {
      var stop;
      stop, processed, evaluated, aggregated :=
        ExtractStep(files, idx, stride, maxFrames, detect, processed, evaluated, aggregated, spec);
      if stop.Some? {
        return stop.value;
      }
      idx := idx + 1;
    }
    StepEnd(vs, stride, idx, maxFrames - processed, evaluated, aggregated, spec);
    sweep := Swept(evaluated, aggregated);
  }

  // ---------------------------------------------------------------------
  // What a sweep computes

  /** Every listed position is in range and holds a readable frame. */
  predicate Readable(vs: seq<Verdict>, ps: seq<nat>)
  {
    forall k :: 0 <= k < |ps| ==> ps[k] < |vs| && !vs[ps[k]].Unreadable?
  }

  /** The first `n` listed frames were evaluated cleanly: the detector answered and no event was high. */
  predicate CleanUpTo(vs: seq<Verdict>, ps: seq<nat>, n: nat)
    requires InRange(vs, ps) && n <= |ps|
  {
    forall k :: 0 <= k < n ==> vs[ps[k]].Judged? && !HasHigh(vs[ps[k]].events)
  }

  /** The events of the listed frames, in order. */
  function EventsOf(vs: seq<Verdict>, ps: seq<nat>): seq<Event>
    decreases |ps|
  {
    if ps == [] then []
    else (if ps[0] < |vs| && vs[ps[0]].Judged? then vs[ps[0]].events else []) + EventsOf(vs, ps[1..])
  }

  /** A completed sweep evaluated a prefix of the candidates, and no more of them than the budget. */
  lemma {:induction false} SweepPrefix(vs: seq<Verdict>, ps: seq<nat>, budget: int)
    requires Readable(vs, ps)
    ensures var s := SweepSpec(vs, ps, budget);
      s.Swept? ==>
        && |s.evaluated| <= |ps| && s.evaluated == ps[..|s.evaluated|]
        && |s.evaluated| <= (if budget > 0 then budget else 0)
    decreases |ps|
  {
    if ps != [] && budget > 0 {
      var rest := SweepSpec(vs, ps[1..], budget - 1);
      SweepPrefix(vs, ps[1..], budget - 1);
      if vs[ps[0]].Judged? && !HasHigh(vs[ps[0]].events) && rest.Swept? {
        var m := |rest.evaluated|;
        assert [ps[0]] + rest.evaluated == ps[..m + 1] by {
          assert ps[..m + 1] == [ps[0]] + ps[1..][..m];
        }
      }
    }
  }

  /** The events of a completed sweep are those of the frames it evaluated, concatenated in order. */
  lemma {:induction false} SweepEvents(vs: seq<Verdict>, ps: seq<nat>, budget: int)
    requires InRange(vs, ps)
    ensures var s := SweepSpec(vs, ps, budget);
      s.Swept? ==> s.events == EventsOf(vs, s.evaluated)
    decreases |ps|
  {
    if ps != [] && budget > 0 {
      SweepEvents(vs, ps[1..], budget);
      SweepEvents(vs, ps[1..], budget - 1);
      if vs[ps[0]].Judged? {
        var evs := vs[ps[0]].events;
        assert EventsOf(vs, [ps[0]]) == evs + EventsOf(vs, []);
        var rest := SweepSpec(vs, ps[1..], budget - 1);
        if !HasHigh(evs) && rest.Swept? {
          assert ([ps[0]] + rest.evaluated)[1..] == rest.evaluated;
        }
      }
    }
  }

  /**
   * Every frame a completed sweep evaluated but the last was clean, and the
   * sweep stops short of both the candidates and the budget only when the
   * last one yielded a high-severity event.
   */
  lemma {:induction false} SweepEarlyStop(vs: seq<Verdict>, ps: seq<nat>, budget: int)
    requires Readable(vs, ps)
    ensures var s := SweepSpec(vs, ps, budget);
      s.Swept? && |s.evaluated| <= |ps| ==>
        var n := |s.evaluated|;
        && (n > 0 ==> CleanUpTo(vs, ps, n - 1) && vs[ps[n - 1]].Judged?)
        && (n < |ps| && n < budget ==> n > 0 && HasHigh(vs[ps[n - 1]].events))
    decreases |ps|
  {
    if ps != [] && budget > 0 && vs[ps[0]].Judged? && !HasHigh(vs[ps[0]].events) {
      var rest := SweepSpec(vs, ps[1..], budget - 1);
      SweepEarlyStop(vs, ps[1..], budget - 1);
      if rest.Swept? {
        var m := |rest.evaluated|;
        assert forall k :: 1 <= k < |ps| ==> ps[k] == ps[1..][k - 1];
      }
    }
  }

  /**
   * A sweep ends in an exception exactly at the first candidate, within
   * the budget, on which the detector raised, after clean frames only.
   */
  lemma {:induction false} SweepCrash(vs: seq<Verdict>, ps: seq<nat>, budget: int)
    requires Readable(vs, ps)
    ensures var s := SweepSpec(vs, ps, budget);
      s.Crashed? <==>
        exists n :: 0 <= n < |ps| && n < budget && vs[ps[n]].Threw? && CleanUpTo(vs, ps, n)
    ensures var s := SweepSpec(vs, ps, budget);
      forall n :: 0 <= n < |ps| && n < budget && vs[ps[n]].Threw? && CleanUpTo(vs, ps, n) ==>
        s == Crashed(vs[ps[n]].message)
    decreases |ps|
  {
    if ps != [] && budget > 0 {
      SweepCrash(vs, ps[1..], budget - 1);
      CrashShift(vs, ps, budget);
    }
  }

  /** Index bookkeeping for SweepCrash: a window of `ps[1..]` is the same window of `ps` shifted by one. */
  lemma CrashShift(vs: seq<Verdict>, ps: seq<nat>, budget: int)
    requires Readable(vs, ps) && ps != [] && budget > 0
    ensures forall n :: 0 <= n < |ps| - 1 && n < budget - 1 ==>
      ((vs[ps[n + 1]].Threw? && CleanUpTo(vs, ps, n + 1)) <==>
       (vs[ps[0]].Judged? && !HasHigh(vs[ps[0]].events) && vs[ps[1..][n]].Threw? && CleanUpTo(vs, ps[1..], n)))
  {
    forall n | 0 <= n < |ps| - 1 && n < budget - 1
      ensures (vs[ps[n + 1]].Threw? && CleanUpTo(vs, ps, n + 1)) <==>
              (vs[ps[0]].Judged? && !HasHigh(vs[ps[0]].events) && vs[ps[1..][n]].Threw? && CleanUpTo(vs, ps[1..], n))
    {
      assert forall k :: 0 <= k < n ==> ps[1..][k] == ps[k + 1];
      if CleanUpTo(vs, ps, n + 1) {
        assert forall k :: 0 <= k < n ==> vs[ps[1..][k]] == vs[ps[k + 1]];
      }
      if vs[ps[0]].Judged? && !HasHigh(vs[ps[0]].events) && CleanUpTo(vs, ps[1..], n) {
        forall k | 0 <= k < n + 1
          ensures vs[ps[k]].Judged? && !HasHigh(vs[ps[k]].events)
        {
          if k > 0 {
            assert ps[k] == ps[1..][k - 1];
          }
        }
      }
    }
  }

  /** The candidates are readable frames on the grid. */
  lemma SampledReadable(vs: seq<Verdict>, stride: nat, from: nat)
    requires stride >= 1
    ensures Readable(vs, SampledFrom(vs, stride, from))
  {
    var ps := SampledFrom(vs, stride, from);
    SampledMembers(vs, stride, from);
    assert forall k :: 0 <= k < |ps| ==> ps[k] in ps;
  }

  /**
   * The frames a whole-video sweep evaluates: in increasing order, each a
   * readable frame whose index is a multiple of the stride, and no more of
   * them than `maxFrames`.
   */
  lemma EvaluatedAreSampled(vs: seq<Verdict>, stride: nat, maxFrames: int)
    requires stride >= 1
    ensures var s := SweepOfFrames(vs, stride, maxFrames);
      s.Swept? ==>
        && Increasing(s.evaluated)
        && (forall k :: 0 <= k < |s.evaluated| ==>
              s.evaluated[k] < |vs| && s.evaluated[k] % stride == 0 && !vs[s.evaluated[k]].Unreadable?)
        && |s.evaluated| <= if maxFrames > 0 then maxFrames else 0
  {
    var ps := SampledFrom(vs, stride, 0);
    SampledReadable(vs, stride, 0);
    SampledMembers(vs, stride, 0);
    SampledIncreasing(vs, stride, 0);
    SweepPrefix(vs, ps, maxFrames);
    var s := SweepOfFrames(vs, stride, maxFrames);
    if s.Swept? {
      var n := |s.evaluated|;
      forall k | 0 <= k < n
        ensures s.evaluated[k] < |vs| && s.evaluated[k] % stride == 0 && !vs[s.evaluated[k]].Unreadable?
      {
        assert s.evaluated[k] == ps[k] && ps[k] in ps;
        OnGridIsMod(ps[k], stride);
      }
    }
  }

  // ---------------------------------------------------------------------
  // The whole analysis

  const NO_FILE: string := "Video file does not exist: "
  const EXTRACTION_FAILED: string := "Could not extract frames from video"
  const NO_FRAMES: string := "No frames could be extracted"
  const BAD_DIMENSIONS: string := "Invalid video dimensions: "
  const NO_PATH: string := "video path required"

  /** `int(cap.get(cv2.CAP_PROP_FRAME_COUNT)) or 1` */
  function TotalFrames(frameCount: int): (total: int)
    ensures total != 0
    ensures frameCount != 0 ==> total == frameCount
    ensures frameCount == 0 ==> total == 1
  {
    if frameCount == 0 then 1 else frameCount
  }

  const WEBM: string := ".webm"
  const FRAMES_SUFFIX: string := "_frames"
  /** `str(e)` for the FileExistsError of `os.makedirs` on an existing file (paths without quotes). */
  function FileExists(path: string): string
  {
    "[Errno 17] File exists: '" + path + "'"
  }

  /** The frames directory as line 261 names it: `path.replace('.webm', '_frames')`. */
  function FramesDir(path: string): string
  {
    Replace(path, WEBM, FRAMES_SUFFIX)
  }

  /**
   * The frames directory the fallback evidently means: the ".webm" naming
   * where it applies, and otherwise the path with "_frames" appended. It is
   * never the video file itself.
   */
  function FramesDirFor(path: string): (dir: string)
    ensures dir != path
    ensures Contains(path, WEBM) ==> dir == FramesDir(path)
  {
    if Contains(path, WEBM) then
      ReplaceLonger(path, WEBM, FRAMES_SUFFIX);
      FramesDir(path)
    else path + FRAMES_SUFFIX
  }

  /**
   * The ffmpeg fallback of `analyze_video_file` (inside the `try` of lines
   * 258-331), given the frames directory `dir` it creates first: when
   * `dir` is the video file itself, `os.makedirs` raises.
   */
  function Fallback<F>(path: string, dir: string, extraction: Extraction<F>, maxFrames: int, detect: Detector<F>)
    : Outcome
  {
    if dir == path then Returned(Failed(PROCESSING_FAILED + FileExists(path)))
    else
      match extraction
      case FfmpegFailed => Returned(Failed(EXTRACTION_FAILED))
      case FfmpegRaised(m) => Returned(Failed(PROCESSING_FAILED + m))
      case FramesExtracted(files) =>
        if files == [] then Returned(Failed(NO_FRAMES))
        else if maxFrames == 0 then Returned(Failed(PROCESSING_FAILED + ZERO_DIVISION))
        else
          match SweepOfFrames(Verdicts(files, detect), Stride(|files|, maxFrames), maxFrames)
          case Crashed(m) => Returned(Failed(PROCESSING_FAILED + m))
          case Swept(_, events) => Returned(Summarize(events))
  }

  /** The fallback as written, with the frames directory of line 261. */
  function FallbackAsWritten<F>(path: string, extraction: Extraction<F>, maxFrames: int, detect: Detector<F>)
    : Outcome
  {
    Fallback(path, FramesDir(path), extraction, maxFrames, detect)
  }

  /**
   * As written, the fallback fails for every video whose path lacks
   * ".webm", whatever ffmpeg would have extracted: the frames directory is
   * the video file itself.
   */
  lemma FallbackAsWrittenFails<F>(path: string, extraction: Extraction<F>, maxFrames: int, detect: Detector<F>)
    ensures !Contains(path, WEBM) ==>
      FallbackAsWritten(path, extraction, maxFrames, detect) == Returned(Failed(PROCESSING_FAILED + FileExists(path)))
  {
    ReplaceAbsent(path, WEBM, FRAMES_SUFFIX);
  }

  /** "exam.mp4" has no ".webm" in it. */
  lemma Mp4NotWebm()
    ensures !Contains("exam.mp4", WEBM)
  {
    var p := "exam.mp4";
    ContainsNeedsRoom(p[4..], WEBM);
    assert p[4..] == p[3..][1..] && p[3..] == p[2..][1..] && p[2..] == p[1..][1..];
    assert !(WEBM <= p[3..]) by { assert p[3] != WEBM[0]; }
    assert !(WEBM <= p[2..]) by { assert p[2] != WEBM[0]; }
    assert !(WEBM <= p[1..]) by { assert p[1] != WEBM[0]; }
    assert !(WEBM <= p) by { assert p[0] != WEBM[0]; }
  }

  /** One readable frame in which the detector finds nothing: the sweep evaluates it and collects "No person detected". */
  lemma BlankFrameSweep(detect: Detector<int>)
    requires detect(0) == Success([])
    ensures SweepOfFrames(Verdicts([Some(0)], detect), Stride(1, DEFAULT_MAX_FRAMES), DEFAULT_MAX_FRAMES)
      == Swept([0], [Event(NO_PERSON, MEDIUM, "Student not visible")])
  {
    var vs := Verdicts([Some(0)], detect);
    assert FrameEvents([]) == [Event(NO_PERSON, MEDIUM, "Student not visible")];
    assert vs == [Judged([Event(NO_PERSON, MEDIUM, "Student not visible")])];
    assert Stride(1, DEFAULT_MAX_FRAMES) == 1;
    assert SampledFrom(vs, 1, 0) == [0];
  }

  /**
   * An ".mp4" recording that neither OpenCV backend opens, from which
   * ffmpeg extracts one frame in which the detector finds nothing: as
   * written the analysis fails, with the corrected directory it reports
   * the missing student.
   */
  lemma FallbackMp4Example(detect: Detector<int>)
    requires detect(0) == Success([])
    ensures var extraction := FramesExtracted([Some(0)]);
      && FallbackAsWritten("exam.mp4", extraction, DEFAULT_MAX_FRAMES, detect)
           == Returned(Failed(PROCESSING_FAILED + FileExists("exam.mp4")))
      && Fallback("exam.mp4", FramesDirFor("exam.mp4"), extraction, DEFAULT_MAX_FRAMES, detect)
           == Returned(Summarize([Event(NO_PERSON, MEDIUM, "Student not visible")]))
  {
    Mp4NotWebm();
    FallbackAsWrittenFails("exam.mp4", FramesExtracted([Some(0)]), DEFAULT_MAX_FRAMES, detect);
    BlankFrameSweep(detect);
  }

  /**
   * Reference definition of `analyze_video_file(path, max_frames)`: the
   * error result or exception each failure gives, and otherwise the
   * summary of the events the sampling sweep collects. The ffmpeg
   * fallback uses the corrected frames directory.
   */
  function Analysis<F>(path: string, video: Video<F>, maxFrames: int, detect: Detector<F>): Outcome
  {
    match video
    case Absent => Returned(Failed(NO_FILE + path))
    case Inaccessible(m) => Raised(m)
    case Unopenable(extraction) => Fallback(path, FramesDirFor(path), extraction, maxFrames, detect)
    case Opened(frameCount, width, height, captured) =>
      if width == 0 || height == 0 then
        Returned(Failed(BAD_DIMENSIONS + Decimal(width) + "x" + Decimal(height)))
      else if maxFrames == 0 then Raised(ZERO_DIVISION)
      else
        match SweepOfFrames(Verdicts(captured, detect), Stride(TotalFrames(frameCount), maxFrames), maxFrames)
        case Crashed(m) => Raised(m)
        case Swept(_, events) => Returned(Summarize(events))
  }

  /** `analyze_video_file(path, max_frames)` on a video given as what opening it produced. */
  method AnalyzeVideoFile<F>(path: string, video: Video<F>, maxFrames: int, detect: Detector<F>)
    returns (outcome: Outcome)
    ensures outcome == Analysis(path, video, maxFrames, detect)
  {
    match video {
      case Absent =>
        return Returned(Failed(NO_FILE + path));
      case Inaccessible(m) =>
        // `os.path.getsize` or `open(path, 'rb')` raised, outside any handler
        return Raised(m);
      case Unopenable(extraction) =>
        // the frames directory, FramesDirFor(path), is never the video file, so creating it succeeds
        match extraction {
          case FfmpegFailed =>
            return Returned(Failed(EXTRACTION_FAILED));
          case FfmpegRaised(m) =>
            return Returned(Failed(PROCESSING_FAILED + m));
          case FramesExtracted(files) =>
            if files == [] {
              return Returned(Failed(NO_FRAMES));
            }
            if maxFrames == 0 {
              // `len(frame_files) // max_frames` raises inside the `try`
              return Returned(Failed(PROCESSING_FAILED + ZERO_DIVISION));
            }
            var stride := Stride(|files|, maxFrames);
            var sweep := SweepExtracted(files, stride, maxFrames, detect);
            match sweep {
              case Crashed(m) =>
                return Returned(Failed(PROCESSING_FAILED + m));
              case Swept(_, aggregated) =>
                return Returned(Summarize(aggregated));
            }
        }
      case Opened(frameCount, width, height, captured) =>
        var total := TotalFrames(frameCount);
        if width == 0 || height == 0 {
          return Returned(Failed(BAD_DIMENSIONS + Decimal(width) + "x" + Decimal(height)));
        }
        if maxFrames == 0 {
          // `total_frames // max_frames` raises outside any handler
          return Raised(ZERO_DIVISION);
        }
        var stride := Stride(total, maxFrames);
        var sweep := SweepCapture(captured, stride, maxFrames, detect);
        match sweep {
          case Crashed(m) =>
            return Raised(m);
          case Swept(_, aggregated) =>
            return Returned(Summarize(aggregated));
        }
    }
  }

  /** `--max-frames`: an `int`, 8 when the option is not given. */
  function MaxFramesOption(arg: Option<int>): (maxFrames: int)
    ensures arg.None? ==> maxFrames == DEFAULT_MAX_FRAMES
    ensures arg.Some? ==> maxFrames == arg.value
  {
    if arg.Some? then arg.value else DEFAULT_MAX_FRAMES
  }

  /**
   * `main` in `--mode analyze-video`: the JSON object it prints. A missing
   * or empty `--video` is an error result; an exception escaping the
   * analysis is printed as an error result before it is re-raised.
   */
  function AnalyzeVideoCommand<F>(videoArg: Option<string>, maxFramesArg: Option<int>, video: Video<F>,
                                  detect: Detector<F>): (r: Report)
    ensures videoArg.None? || videoArg.value == "" ==> r == Failed(NO_PATH)
    ensures videoArg.Some? && videoArg.value != "" ==>
      match Analysis(videoArg.value, video, MaxFramesOption(maxFramesArg), detect)
      case Returned(report) => r == report
      case Raised(m) => r == Failed(m)
  {
    if videoArg.None? || videoArg.value == "" then Failed(NO_PATH)
    else
      match Analysis(videoArg.value, video, MaxFramesOption(maxFramesArg), detect)
      case Returned(report) => report
      case Raised(m) => Failed(m)
  }

  /** A sweep's events hold a high one exactly when some listed frame's events do. */
  lemma {:induction false} EventsOfHigh(vs: seq<Verdict>, ps: seq<nat>)
    requires InRange(vs, ps)
    ensures HasHigh(EventsOf(vs, ps)) <==>
      exists k :: 0 <= k < |ps| && vs[ps[k]].Judged? && HasHigh(vs[ps[k]].events)
    decreases |ps|
  {
    if ps != [] {
      var first := if ps[0] < |vs| && vs[ps[0]].Judged? then vs[ps[0]].events else [];
      EventsOfHigh(vs, ps[1..]);
      HasHighConcat(first, EventsOf(vs, ps[1..]));
      assert !HasHigh([]);
      assert forall k :: 0 <= k < |ps| - 1 ==> ps[1..][k] == ps[k + 1];
      if exists k :: 0 <= k < |ps| && vs[ps[k]].Judged? && HasHigh(vs[ps[k]].events) {
        var k :| 0 <= k < |ps| && vs[ps[k]].Judged? && HasHigh(vs[ps[k]].events);
        if k > 0 {
          assert ps[1..][k - 1] == ps[k];
        }
      }
    }
  }

  /** The frames the analysis of a video samples from (none when there is nothing to sample). */
  function FramesOf<F>(video: Video<F>): seq<Option<F>>
  {
    match video
    case Opened(_, _, _, captured) => captured
    case Unopenable(FramesExtracted(files)) => files
    case _ => []
  }

  /** The frame total the stride is computed from. */
  function TotalOf<F>(video: Video<F>): int
  {
    match video
    case Opened(frameCount, _, _, _) => TotalFrames(frameCount)
    case Unopenable(FramesExtracted(files)) => |files|
    case _ => 0
  }

  /** A result that is not an error summarises a completed sweep of the video's frames. */
  lemma SuccessIsSweep<F>(path: string, video: Video<F>, maxFrames: int, detect: Detector<F>)
    ensures var o := Analysis(path, video, maxFrames, detect);
      o.Returned? && !o.report.Failed? ==>
        && maxFrames != 0
        && var s := SweepOfFrames(Verdicts(FramesOf(video), detect), Stride(TotalOf(video), maxFrames), maxFrames);
           s.Swept? && o.report == Summarize(s.events)
  {
  }

  /**
   * Every result that is not an error is the summary of a completed sweep
   * of the video's frames: it reports a violation exactly when some frame
   * produced an event; a high-severity event makes the verdict high, and
   * then it came from the last frame evaluated, the one the sweep stopped at.
   */
  lemma ReportedVerdict<F>(path: string, video: Video<F>, maxFrames: int, detect: Detector<F>)
    ensures var o := Analysis(path, video, maxFrames, detect);
      o.Returned? && !o.report.Failed? ==>
        && maxFrames != 0
        && var vs := Verdicts(FramesOf(video), detect);
           var s := SweepOfFrames(vs, Stride(TotalOf(video), maxFrames), maxFrames);
           && s.Swept?
           && o.report == Summarize(s.events)
           && s.events == EventsOf(vs, s.evaluated)
           && (o.report.HasViolation() <==> s.events != [])
           && (HasHigh(s.events) ==>
                 && o.report.severity == HIGH
                 && s.evaluated != []
                 && var last := s.evaluated[|s.evaluated| - 1];
                    last < |vs| && vs[last].Judged? && HasHigh(vs[last].events))
  {
    var o := Analysis(path, video, maxFrames, detect);
    SuccessIsSweep(path, video, maxFrames, detect);
    if o.Returned? && !o.report.Failed? {
      var vs := Verdicts(FramesOf(video), detect);
      var stride := Stride(TotalOf(video), maxFrames);
      HighFromLastFrame(vs, stride, maxFrames);
    }
  }

  /** In a completed sweep over readable candidates, a high-severity event can only come from the last frame evaluated. */
  lemma HighIsLast(vs: seq<Verdict>, ps: seq<nat>, budget: int)
    requires Readable(vs, ps)
    ensures var s := SweepSpec(vs, ps, budget);
      s.Swept? && HasHigh(s.events) ==>
        && s.evaluated != []
        && var last := s.evaluated[|s.evaluated| - 1];
           last < |vs| && vs[last].Judged? && HasHigh(vs[last].events)
  {
    var s := SweepSpec(vs, ps, budget);
    SweepPrefix(vs, ps, budget);
    SweepEvents(vs, ps, budget);
    SweepEarlyStop(vs, ps, budget);
    if s.Swept? && HasHigh(s.events) {
      var ev := s.evaluated;
      var n := |ev|;
      assert InRange(vs, ev) by {
        assert forall k :: 0 <= k < n ==> ev[k] == ps[k];
      }
      EventsOfHigh(vs, ev);
      var k :| 0 <= k < n && vs[ev[k]].Judged? && HasHigh(vs[ev[k]].events);
      assert ev[k] == ps[k];
      assert k == n - 1;
    }
  }

  /** The same for a whole-video sweep, whose summary is then high. */
  lemma HighFromLastFrame(vs: seq<Verdict>, stride: nat, maxFrames: int)
    requires stride >= 1
    ensures var s := SweepOfFrames(vs, stride, maxFrames);
      s.Swept? ==>
        && s.events == EventsOf(vs, s.evaluated)
        && (HasHigh(s.events) ==>
              && Summarize(s.events).Violation? && Summarize(s.events).severity == HIGH
              && s.evaluated != []
              && var last := s.evaluated[|s.evaluated| - 1];
                 last < |vs| && vs[last].Judged? && HasHigh(vs[last].events))
  {
    var s := SweepOfFrames(vs, stride, maxFrames);
    var ps := SampledFrom(vs, stride, 0);
    SampledReadable(vs, stride, 0);
    SweepEvents(vs, ps, maxFrames);
    HighIsLast(vs, ps, maxFrames);
    if s.Swept? && HasHigh(s.events) {
      SummaryOfHigh(s.events);
    }
  }

  /**
   * The command fails open: an error result never reports a violation, a
   * violation is reported only after a completed sweep that collected
   * events, and each failure the analysis can meet gives its own error
   * result.
   */
  lemma FailOpen<F>(videoArg: Option<string>, maxFramesArg: Option<int>, video: Video<F>, detect: Detector<F>)
    ensures var r := AnalyzeVideoCommand(videoArg, maxFramesArg, video, detect);
      var maxFrames := MaxFramesOption(maxFramesArg);
      && (r.Failed? ==> !r.HasViolation())
      && (r.HasViolation() ==>
            && videoArg.Some? && videoArg.value != "" && maxFrames != 0
            && var s := SweepOfFrames(Verdicts(FramesOf(video), detect), Stride(TotalOf(video), maxFrames), maxFrames);
               s.Swept? && s.events != [])
      && (videoArg.None? || videoArg == Some("") ==> r == Failed(NO_PATH))
      && (videoArg.Some? && videoArg.value != "" ==>
            && (video.Absent? ==> r == Failed(NO_FILE + videoArg.value))
            && (video.Inaccessible? ==> r == Failed(video.message))
            && (video == Unopenable(FfmpegFailed) ==> r == Failed(EXTRACTION_FAILED))
            && (video == Unopenable(FramesExtracted([])) ==> r == Failed(NO_FRAMES))
            && (video.Opened? && (video.width == 0 || video.height == 0) ==>
                  r == Failed(BAD_DIMENSIONS + Decimal(video.width) + "x" + Decimal(video.height)))
            && (video.Opened? && video.width > 0 && video.height > 0 && maxFrames == 0 ==>
                  r == Failed(ZERO_DIVISION))
            && ((video.Unopenable? && video.extraction.FramesExtracted? && video.extraction.files != []
                 && maxFrames == 0) ==> r == Failed(PROCESSING_FAILED + ZERO_DIVISION)))
  {
    if videoArg.Some? && videoArg.value != "" {
      SuccessIsSweep(videoArg.value, video, MaxFramesOption(maxFramesArg), detect);
    }
  }
}
