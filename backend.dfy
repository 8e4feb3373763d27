/** The cut-detection endpoint (backend/main.py:47-127): validates the upload's content
    type, then streams newline-delimited JSON records while it walks the frames of the
    video: a `start` record, a `progress` record every `max(1, total_frames // 20)`
    frames, and a final `result` record with the detected cut times, or a single `error`
    record. Decoding is not modelled: the video is its reported frame count and rate and,
    per frame, the mean absolute difference to the frame before. */
module Backend {
  import opened Wrappers
  import opened AnnotationTypes
  import BookmarkSet
  import TimeFormat

  /** What OpenCV gives for the uploaded file: nothing, or the frame count and rate it
      reports and the per-frame differences of the frames it can read. `diffs[k]` is the
      difference between frame `k` and frame `k - 1`; frame 0 has no predecessor, so
      `diffs[0]` is never looked at. */
  datatype VideoInput =
    | Unopenable
    | Opened(totalFrames: int, reportedFps: real, diffs: seq<real>)

  /** One streamed record. */
  datatype Out =
    | Start(totalFrames: int)
    | Progress(value: int)
    | Result(totalCuts: int, bookmarks: seq<Bookmark>)
    | Error(message: string)

  /** The HTTP outcome: a 400 before streaming, or the record stream. */
  datatype Reply = Rejected(status: int, detail: string) | Streamed(records: seq<Out>)

  const OpenFailedMessage := "Could not open video file"
  /** `str(e)` for the ZeroDivisionError of `frame_idx / total_frames`. */
  const DivisionByZeroMessage := "division by zero"
  const NotVideoDetail := "Uploaded file must be a video."
  const VideoPrefix := "video/"

  /** Whether `file.content_type` is present, non-empty and starts with "video/". */
  predicate IsVideoType(contentType: Option<string>) {
    && contentType.Some?
    && contentType.value != ""
    && |VideoPrefix| <= |contentType.value|
    && contentType.value[..|VideoPrefix|] == VideoPrefix
  }

  /** `cap.get(cv2.CAP_PROP_FPS) or 30.0`. */
  function EffectiveFps(reportedFps: real): (r: real)
    ensures r != 0.0
    ensures reportedFps != 0.0 ==> r == reportedFps
    ensures reportedFps >= 0.0 ==> r > 0.0
  {
    if reportedFps == 0.0 then 30.0 else reportedFps
  }

  /** `current_time_sec = frame_idx / fps`. */
  function TimeOfFrame(k: nat, fps: real): real
    requires fps != 0.0
  {
    k as real / fps
  }

  /** The time of the last cut, or the initial `-min_interval` before the first. */
  function LastCut(cuts: seq<real>, minInterval: real): real {
    if cuts == [] then -minInterval else cuts[|cuts| - 1]
  }

  /** Consecutive cuts are at least `minInterval` apart. */
  predicate Spaced(cuts: seq<real>, minInterval: real) {
    forall i :: 0 < i < |cuts| ==> cuts[i] - cuts[i - 1] >= minInterval
  }

  /** `cut_times` and `last_cut_time` after the loop has looked at frames `0 .. n - 1`: frame
      `k > 0` becomes a cut when its difference exceeds the threshold and it lies at least
      `minInterval` after the last cut. */
  function Scan(diffs: seq<real>, fps: real, threshold: real, minInterval: real, n: nat): (r: (seq<real>, real))
    requires n <= |diffs| && fps != 0.0
    ensures r.1 == LastCut(r.0, minInterval)
    ensures Spaced(r.0, minInterval)
    ensures |r.0| <= n
  {
    if n == 0 then ([], -minInterval)
    else
      var before := Scan(diffs, fps, threshold, minInterval, n - 1);
      var k := n - 1;
      var t := TimeOfFrame(k, fps);
      if k > 0 && diffs[k] > threshold && t - before.1 >= minInterval then
        var cuts := before.0 + [t];
        assert cuts[|cuts| - 1] == t;
        assert forall i :: 0 <= i < |before.0| ==> cuts[i] == before.0[i];
        (cuts, t)
      else before
  }

  /** The cut times of the whole video. */
  function Cuts(diffs: seq<real>, fps: real, threshold: real, minInterval: real): seq<real>
    requires fps != 0.0
  {
    Scan(diffs, fps, threshold, minInterval, |diffs|).0
  }

  /** With a positive minimum interval the cut times are strictly increasing. */
  lemma {:induction false} SpacedIncreasing(cuts: seq<real>, minInterval: real)
    requires Spaced(cuts, minInterval) && minInterval > 0.0
    ensures forall i, j :: 0 <= i < j < |cuts| ==> cuts[i] < cuts[j]
  {
    if |cuts| > 1 {
      var init := cuts[..|cuts| - 1];
      assert forall i :: 0 <= i < |init| ==> init[i] == cuts[i];
      SpacedIncreasing(init, minInterval);
      forall i, j | 0 <= i < j < |cuts| ensures cuts[i] < cuts[j] {
        if j == |cuts| - 1 && i < j - 1 {
          assert cuts[i] < cuts[j - 1];
        }
      }
    }
  }

  /** Every cut is the time of a frame after the first whose difference exceeds the
      threshold. */
  lemma {:induction false} CutIsEligibleFrame(diffs: seq<real>, fps: real, threshold: real, minInterval: real, n: nat, i: nat)
    requires n <= |diffs| && fps != 0.0
    requires i < |Scan(diffs, fps, threshold, minInterval, n).0|
    ensures exists k :: 1 <= k < n && Scan(diffs, fps, threshold, minInterval, n).0[i] == TimeOfFrame(k, fps)
                        && diffs[k] > threshold
  {
    var before := Scan(diffs, fps, threshold, minInterval, n - 1).0;
    var cuts := Scan(diffs, fps, threshold, minInterval, n).0;
    if i < |before| {
      assert cuts[i] == before[i];
      CutIsEligibleFrame(diffs, fps, threshold, minInterval, n - 1, i);
    } else {
      assert cuts[i] == TimeOfFrame(n - 1, fps) && diffs[n - 1] > threshold;
    }
  }

  /** Frame 0 is never a cut: its time 0 is not among the cuts. */
  lemma FrameZeroNeverCut(diffs: seq<real>, fps: real, threshold: real, minInterval: real, n: nat)
    requires n <= |diffs| && fps != 0.0
    ensures 0.0 !in Scan(diffs, fps, threshold, minInterval, n).0
  {
    var cuts := Scan(diffs, fps, threshold, minInterval, n).0;
    forall i | 0 <= i < |cuts| ensures cuts[i] != 0.0 {
      CutIsEligibleFrame(diffs, fps, threshold, minInterval, n, i);
      var k :| 1 <= k < n && cuts[i] == TimeOfFrame(k, fps) && diffs[k] > threshold;
      LaterFrameTimeNonZero(k, fps);
    }
  }

  lemma LaterFrameTimeNonZero(k: nat, fps: real)
    requires k >= 1 && fps != 0.0
    ensures TimeOfFrame(k, fps) != 0.0
  {
    assert TimeOfFrame(k, fps) * fps == k as real;
  }

  /** The difference entry of frame 0 is never read: changing it changes nothing. */
  lemma {:induction false} FirstDiffIgnored(diffs: seq<real>, fps: real, threshold: real, minInterval: real, n: nat, d: real)
    requires 0 < |diffs| && n <= |diffs| && fps != 0.0
    ensures Scan(diffs[0 := d], fps, threshold, minInterval, n) == Scan(diffs, fps, threshold, minInterval, n)
  {
    if n > 0 {
      FirstDiffIgnored(diffs, fps, threshold, minInterval, n - 1, d);
      assert n - 1 > 0 ==> diffs[0 := d][n - 1] == diffs[n - 1];
    }
  }

  /** A scan only ever appends: the cuts found in a prefix of the frames begin the cuts found
      in a longer one. */
  lemma {:induction false} ScanExtends(diffs: seq<real>, fps: real, threshold: real, minInterval: real, m: nat, n: nat)
    requires m <= n <= |diffs| && fps != 0.0
    ensures var a := Scan(diffs, fps, threshold, minInterval, m).0;
      var b := Scan(diffs, fps, threshold, minInterval, n).0;
      |a| <= |b| && b[..|a|] == a
  {
    if m < n {
      ScanExtends(diffs, fps, threshold, minInterval, m, n - 1);
      var a := Scan(diffs, fps, threshold, minInterval, m).0;
      var c := Scan(diffs, fps, threshold, minInterval, n - 1).0;
      var b := Scan(diffs, fps, threshold, minInterval, n).0;
      assert b == c || b == c + [TimeOfFrame(n - 1, fps)];
      assert b[..|c|] == c;
      assert c[..|a|] == a;
    }
  }

  /** Before the first frame over the threshold nothing is cut. */
  lemma {:induction false} NoCutBeforeFirstEligible(diffs: seq<real>, fps: real, threshold: real, minInterval: real, n: nat)
    requires n <= |diffs| && fps != 0.0
    requires forall j :: 1 <= j < n ==> diffs[j] <= threshold
    ensures Scan(diffs, fps, threshold, minInterval, n) == ([], -minInterval)
  {
    if n > 0 {
      NoCutBeforeFirstEligible(diffs, fps, threshold, minInterval, n - 1);
    }
  }

  /** Because `last_cut_time` starts at `-min_interval`, the first frame over the threshold
      is always a cut: the interval rule does not block it. */
  lemma FirstEligibleFrameIsCut(diffs: seq<real>, fps: real, threshold: real, minInterval: real, k: nat, n: nat)
    requires fps > 0.0 && 1 <= k < n <= |diffs|
    requires diffs[k] > threshold
    requires forall j :: 1 <= j < k ==> diffs[j] <= threshold
    ensures var cuts := Scan(diffs, fps, threshold, minInterval, n).0;
      |cuts| >= 1 && cuts[0] == TimeOfFrame(k, fps)
  {
    NoCutBeforeFirstEligible(diffs, fps, threshold, minInterval, k);
    assert TimeOfFrame(k, fps) >= 0.0;
    var a := Scan(diffs, fps, threshold, minInterval, k + 1).0;
    assert a == [TimeOfFrame(k, fps)];
    ScanExtends(diffs, fps, threshold, minInterval, k + 1, n);
  }

  // ---------------------------------------------------------------------------
  // Progress cadence

  /** `max(1, total_frames // 20)`: report every 5 % of the reported frame count. */
  function ReportStep(totalFrames: int): (r: int)
    ensures r >= 1
    ensures totalFrames >= 20 ==> 20 * r <= totalFrames
    ensures totalFrames < 40 ==> r == 1
  {
    if totalFrames / 20 > 1 then totalFrames / 20 else 1
  }

  /** `int((frame_idx / total_frames) * 100)`: the percentage, truncated toward zero. */
  function ProgressValue(frame: nat, totalFrames: int): int
    requires totalFrames != 0
  {
    TimeFormat.Trunc((frame as real / totalFrames as real) * 100.0)
  }

  /** Within the reported frame count the percentage lies in [0, 100]. */
  lemma ProgressValueInRange(frame: nat, totalFrames: int)
    requires 0 <= frame <= totalFrames && totalFrames > 0
    ensures 0 <= ProgressValue(frame, totalFrames) <= 100
  {
    var q := frame as real / totalFrames as real;
    assert q * totalFrames as real == frame as real;
    assert q <= 1.0;
  }

  /** The progress records sent while the first `n` frames were read: one after every
      `step`-th frame. */
  function ProgressRecords(n: nat, step: int, totalFrames: int): seq<Out>
    requires step >= 1 && (totalFrames != 0 || n == 0)
  {
    if n == 0 then []
    else ProgressRecords(n - 1, step, totalFrames)
         + (if n % step == 0 then [Progress(ProgressValue(n, totalFrames))] else [])
  }

  lemma {:induction false} MulAtLeast(x: int, step: int)
    requires x >= 1 && step >= 1
    ensures x * step >= step
  {
    if x > 1 {
      MulAtLeast(x - 1, step);
      assert x * step == (x - 1) * step + step;
    }
  }

  /** Quotient and remainder are the only ones with `n == q * step + r` and `0 <= r < step`. */
  lemma DivModUnique(n: int, step: int, q: int, r: int)
    requires step >= 1 && n == q * step + r && 0 <= r < step
    ensures n / step == q && n % step == r
  {
    var q', r' := n / step, n % step;
    assert n == q' * step + r';
    if q' < q {
      assert (q - q') * step == q * step - q' * step;
      MulAtLeast(q - q', step);
    } else if q' > q {
      assert (q' - q) * step == q' * step - q * step;
      MulAtLeast(q' - q, step);
    }
  }

  lemma DivStep(n: nat, step: int)
    requires n >= 1 && step >= 1
    ensures n % step == 0 ==> n / step == (n - 1) / step + 1 && n == (n / step) * step
    ensures n % step != 0 ==> n / step == (n - 1) / step
  {
    var q, r := n / step, n % step;
    assert n == q * step + r;
    if r == 0 {
      assert (q - 1) * step == q * step - step;
      DivModUnique(n - 1, step, q - 1, step - 1);
    } else {
      DivModUnique(n - 1, step, q, r - 1);
    }
  }

  /** Exactly `n / step` progress records go out, the i-th after frame `(i + 1) * step`. */
  lemma {:induction false} ProgressRecordsAreMultiples(n: nat, step: int, totalFrames: int)
    requires step >= 1 && totalFrames != 0
    ensures |ProgressRecords(n, step, totalFrames)| == n / step
    ensures forall i :: 0 <= i < n / step ==>
              ProgressRecords(n, step, totalFrames)[i] == Progress(ProgressValue((i + 1) * step, totalFrames))
  {
    if n > 0 {
      ProgressRecordsAreMultiples(n - 1, step, totalFrames);
      DivStep(n, step);
      var before := ProgressRecords(n - 1, step, totalFrames);
      var now := ProgressRecords(n, step, totalFrames);
      if n % step == 0 {
        assert now == before + [Progress(ProgressValue(n, totalFrames))];
        assert n == ((n - 1) / step + 1) * step;
      } else {
        assert now == before;
      }
    }
  }

  /** A read of the full reported frame count of at least 20 frames reports at least 20
      times; below 40 frames every frame is reported. */
  lemma ProgressCadence(totalFrames: int, n: nat)
    requires totalFrames > 0
    ensures totalFrames >= 20 && n == totalFrames ==> |ProgressRecords(n, ReportStep(totalFrames), totalFrames)| >= 20
    ensures totalFrames < 40 ==> |ProgressRecords(n, ReportStep(totalFrames), totalFrames)| == n
  {
    var step := ReportStep(totalFrames);
    ProgressRecordsAreMultiples(n, step, totalFrames);
    if totalFrames >= 20 && n == totalFrames {
      DivAtLeast(n, step, 20);
    }
  }

  lemma DivAtLeast(n: nat, step: int, c: nat)
    requires step >= 1 && c * step <= n
    ensures n / step >= c
  {
    var q, r := n / step, n % step;
    assert n == q * step + r;
    if q < c {
      assert (c - q) * step == c * step - q * step;
      MulAtLeast(c - q, step);
    }
  }

  // ---------------------------------------------------------------------------
  // The result record and the stream

  /** `[{"id": str(uuid.uuid4()), "time": t} for t in cut_times]`, with fresh ids drawn from
      a counter starting at `firstId`. */
  function CutBookmarks(cuts: seq<real>, firstId: Id): (r: seq<Bookmark>)
    ensures |r| == |cuts|
    ensures forall i :: 0 <= i < |r| ==> r[i].time == cuts[i]
    ensures BookmarkSet.UniqueIds(r)
  {
    seq(|cuts|, i requires 0 <= i < |cuts| => Bookmark(firstId + i, cuts[i]))
  }

  /** The whole record stream of `stream_analysis` for an opened or unopenable video. */
  function StreamRecords(video: VideoInput, threshold: real, minInterval: real, firstId: Id): seq<Out> {
    match video
    case Unopenable => [Error(OpenFailedMessage)]
    case Opened(total, reportedFps, diffs) =>
      if total == 0 && |diffs| > 0 then [Start(0), Error(DivisionByZeroMessage)]
      else
        var cuts := Cuts(diffs, EffectiveFps(reportedFps), threshold, minInterval);
        [Start(total)] + ProgressRecords(|diffs|, ReportStep(total), total)
        + [Result(|cuts|, CutBookmarks(cuts, firstId))]
  }

  predicate IsTerminal(o: Out) {
    o.Result? || o.Error?
  }

  /** The progress records are only progress records. */
  lemma {:induction false} ProgressRecordsNotTerminal(n: nat, step: int, totalFrames: int)
    requires step >= 1 && (totalFrames != 0 || n == 0)
    ensures forall i :: 0 <= i < |ProgressRecords(n, step, totalFrames)| ==>
              ProgressRecords(n, step, totalFrames)[i].Progress?
  {
    if n > 0 {
      ProgressRecordsNotTerminal(n - 1, step, totalFrames);
    }
  }

  /** Every stream ends with exactly one terminal record: a result whose `total_cuts` is the
      number of its bookmarks, one per cut time in order, or an error. An unopenable video
      gives one error record and no result; an opened one starts with `start`. */
  lemma StreamShape(video: VideoInput, threshold: real, minInterval: real, firstId: Id)
    ensures var out := StreamRecords(video, threshold, minInterval, firstId);
      && |out| >= 1 && IsTerminal(out[|out| - 1])
      && (forall i :: 0 <= i < |out| - 1 ==> !IsTerminal(out[i]))
      && (video.Unopenable? <==> out == [Error(OpenFailedMessage)])
      && (video.Opened? ==> out[0] == Start(video.totalFrames))
      && (out[|out| - 1].Result? ==>
            && video.Opened?
            && out[|out| - 1].totalCuts == |out[|out| - 1].bookmarks|
            && forall i :: 0 <= i < |out[|out| - 1].bookmarks| ==>
                 out[|out| - 1].bookmarks[i].time
                 == Cuts(video.diffs, EffectiveFps(video.reportedFps), threshold, minInterval)[i])
  {
    var out := StreamRecords(video, threshold, minInterval, firstId);
    if video.Opened? && !(video.totalFrames == 0 && |video.diffs| > 0) {
      var p := ProgressRecords(|video.diffs|, ReportStep(video.totalFrames), video.totalFrames);
      ProgressRecordsNotTerminal(|video.diffs|, ReportStep(video.totalFrames), video.totalFrames);
      assert forall i :: 1 <= i < |out| - 1 ==> out[i] == p[i - 1];
    }
  }

  /** `stream_analysis()`: the frame loop, yielding its records as it goes. */
  method StreamAnalysis(video: VideoInput, threshold: real, minInterval: real, firstId: Id) returns (out: seq<Out>)
    ensures out == StreamRecords(video, threshold, minInterval, firstId)
  {
    if video.Unopenable? {
      return [Error(OpenFailedMessage)];
    }
    var totalFrames := video.totalFrames;
    var fps := EffectiveFps(video.reportedFps);
    out := [Start(totalFrames)];
    var cutTimes: seq<real> := [];
    var lastCutTime := -minInterval;
    var frameIdx := 0;
    var reportStep := ReportStep(totalFrames);
    while frameIdx < |video.diffs|
      invariant 0 <= frameIdx <= |video.diffs|
      invariant totalFrames == 0 ==> frameIdx == 0
      invariant (cutTimes, lastCutTime) == Scan(video.diffs, fps, threshold, minInterval, frameIdx)
      invariant out == [Start(totalFrames)] + ProgressRecords(frameIdx, reportStep, totalFrames)
    {
      var currentTime := TimeOfFrame(frameIdx, fps);
      if frameIdx > 0 {
        var diff := video.diffs[frameIdx];
        if diff > threshold && currentTime - lastCutTime >= minInterval {
          cutTimes := cutTimes + [currentTime];
          lastCutTime := currentTime;
        }
      }
      frameIdx := frameIdx + 1;
      if frameIdx % reportStep == 0 {
        if totalFrames == 0 {
          out := out + [Error(DivisionByZeroMessage)];
          return;
        }
        out := out + [Progress(ProgressValue(frameIdx, totalFrames))];
      }
    }
    out := out + [Result(|cutTimes|, CutBookmarks(cutTimes, firstId))];
  }

  /** `detect_cuts(file, threshold, min_interval)`: a 400 for anything but a video content
      type, decided before any frame is read; otherwise the record stream. */
  method DetectCuts(contentType: Option<string>, video: VideoInput, threshold: real, minInterval: real, firstId: Id)
    returns (reply: Reply)
    ensures reply.Rejected? <==> !IsVideoType(contentType)
    ensures reply.Rejected? ==> reply.status == 400 && reply.detail == NotVideoDetail
    ensures reply.Streamed? ==> reply.records == StreamRecords(video, threshold, minInterval, firstId)
  {
    if !IsVideoType(contentType) {
      return Rejected(400, NotVideoDetail);
    }
    var records := StreamAnalysis(video, threshold, minInterval, firstId);
    reply := Streamed(records);
  }
}
