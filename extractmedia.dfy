/**
 * The `/extract [type] [options]` handler: take the audio track, the first
 * embedded subtitle stream or one or more frames out of the video the command
 * replies to, send each result back and clean up.
 */
module ExtractMedia {
  import opened Wrappers
  import opened Text
  import opened Bot
  import opened Files
  import opened Reals

  const NotVideoReply := "Please reply to a video file to extract content."
  const NoType := "Please specify a valid extraction type: audio, subtitle, or frame (e.g., /extract audio)."
  const NoSubtitles := "No embedded subtitles found in the video."
  const SubtitleFailed := "Failed to extract subtitles. Ensure the video contains embedded subtitles."
  const OutOfDuration := "Specified time is out of video duration."
  const BadCount := "Frame count must be between 1 and 50."
  const BadFrameOption := "Invalid frame option. Use: single [time] or multiple [count]"

  /** At most this many frames in one `multiple` request. */
  const MaxFrames := 50

  /** The extraction type: the first argument, lower-cased, when it is one of the three kinds. */
  function ExtractType(c: seq<string>): (t: Option<string>)
    ensures t.Some? <==> |c| >= 2 && Lower(c[1]) in {"audio", "subtitle", "frame"}
    ensures t.Some? ==> t.value == Lower(c[1])
  {
    if |c| < 2 || Lower(c[1]) !in {"audio", "subtitle", "frame"} then None else Some(Lower(c[1]))
  }

  /** The kind is compared without regard to ASCII case: any spelling with the same lower case is treated alike. */
  lemma ExtractTypeIgnoresCase(c: seq<string>, w: string)
    requires |c| >= 2 && Lower(w) == Lower(c[1])
    ensures ExtractType(c[1 := w]) == ExtractType(c)
  {
    assert c[1 := w][1] == w;
  }

  // ---------------------------------------------------------------------------
  // Subtitles
  // ---------------------------------------------------------------------------

  /** The probe's verdict: "Subtitle" appears in what ffmpeg wrote to stderr or to stdout. */
  predicate HasSubtitles(stderr: string, stdout: string) {
    Contains(stderr, "Subtitle") || Contains(stdout, "Subtitle")
  }

  /** The probe succeeds exactly when "Subtitle" occurs at some position of either stream. */
  lemma HasSubtitlesIff(stderr: string, stdout: string)
    ensures HasSubtitles(stderr, stdout) <==>
      (exists i :: OccursAt(stderr, "Subtitle", i)) || (exists i :: OccursAt(stdout, "Subtitle", i))
  {
    ContainsIff(stderr, "Subtitle");
    ContainsIff(stdout, "Subtitle");
  }

  // ---------------------------------------------------------------------------
  // Frames
  // ---------------------------------------------------------------------------

  /** One frame to save: the file, the time in the clip, and in a series its number. */
  datatype Shot = Shot(path: string, time: real, number: Option<nat>)

  function SingleFrameName(u: string): string {
    "extracted_" + u + "_frame.jpg"
  }

  function FrameName(u: string, k: nat): string {
    "extracted_" + u + "_frame_" + NatToString(k) + ".jpg"
  }

  /** Frames of a series with distinct numbers are saved under distinct names. */
  lemma FrameNamesDistinct(u: string, j: nat, k: nat)
    requires j != k
    ensures FrameName(u, j) != FrameName(u, k)
  {
    var pre := "extracted_" + u + "_frame_";
    assert FrameName(u, j) == pre + NatToString(j) + ".jpg";
    assert FrameName(u, k) == pre + NatToString(k) + ".jpg";
    if FrameName(u, j) == FrameName(u, k) {
      NumberedInjective(pre, ".jpg", j, k);
    }
  }

  /** Frame `i` of a series of `n` over `d` seconds: `i * (d / n)`. */
  function FrameTime(d: real, n: nat, i: nat): real
    requires n > 0
  {
    i as real * (d / n as real)
  }

  /** A frame before the last of the series comes strictly before the end of the clip. */
  lemma FrameTimeBelow(d: real, n: nat, i: nat)
    requires n > 0 && d > 0.0 && i < n
    ensures 0.0 <= FrameTime(d, n, i) < d
  {
    var step := d / n as real;
    assert step * n as real == d;
    ScaleLt(i as real, n as real, step);
    ScaleLe(0.0, i as real, step);
  }

  /** Later frames of the series come later in the clip. */
  lemma FrameTimeIncreases(d: real, n: nat, i: nat, j: nat)
    requires n > 0 && d > 0.0 && i < j
    ensures FrameTime(d, n, i) < FrameTime(d, n, j)
  {
    ScaleLt(i as real, j as real, d / n as real);
  }

  /**
   * The series starts at 0 and, for a clip with a length, its times strictly
   * increase and all lie inside the clip, before its end.
   */
  lemma FrameTimesSpread(d: real, n: nat)
    requires n > 0
    ensures FrameTime(d, n, 0) == 0.0
    ensures d > 0.0 ==> forall i: nat, j: nat :: i < j < n ==> FrameTime(d, n, i) < FrameTime(d, n, j)
    ensures d > 0.0 ==> forall i: nat :: i < n ==> 0.0 <= FrameTime(d, n, i) < d
  {
    if d > 0.0 {
      forall i: nat, j: nat | i < j < n
        ensures FrameTime(d, n, i) < FrameTime(d, n, j)
      {
        FrameTimeIncreases(d, n, i, j);
      }
      forall i: nat | i < n
        ensures 0.0 <= FrameTime(d, n, i) < d
      {
        FrameTimeBelow(d, n, i);
      }
    }
  }

  /** `frame multiple n`: frames `1 .. n`, evenly spaced from the start. */
  function SeriesShots(u: string, d: real, n: nat): (shots: seq<Shot>)
    requires n > 0
    ensures |shots| == n
    ensures forall i :: 0 <= i < n ==> shots[i] == Shot(FrameName(u, i + 1), FrameTime(d, n, i), Some(i + 1))
  {
    seq(n, i requires 0 <= i < n => Shot(FrameName(u, i + 1), FrameTime(d, n, i), Some(i + 1)))
  }

  /** Python's message for a token `float()` rejects. */
  function FloatError(tok: string): string {
    "could not convert string to float: '" + tok + "'"
  }

  /** Python's message for a token `int()` rejects. */
  function IntError(tok: string): string {
    "invalid literal for int() with base 10: '" + tok + "'"
  }

  function TimeError(e: string): string { "Invalid time format or value: " + e }
  function CountError(e: string): string { "Invalid frame count: " + e }

  /**
   * The frames a `frame` request asks for: with no option one at the middle of
   * the clip; `single t` one at `t`, which must lie within the clip, ends
   * included; `multiple n` a series of `n` between 1 and 50; anything else,
   * three words included, is an error.
   */
  function FrameShots(c: seq<string>, u: string, d: real): (r: Result<seq<Shot>, string>)
    ensures |c| == 2 ==> r == Ok([Shot(SingleFrameName(u), d / 2.0, None)])
    ensures |c| == 3 || |c| < 2 ==> r == Err(BadFrameOption)
    ensures |c| >= 4 && Lower(c[2]) !in {"single", "multiple"} ==> r == Err(BadFrameOption)
    ensures |c| >= 4 && Lower(c[2]) == "single" ==>
      match ParseFloat(c[3])
      case None => r == Err(TimeError(FloatError(c[3])))
      case Some(t) =>
        && (t < 0.0 || t > d ==> r == Err(TimeError(OutOfDuration)))
        && (0.0 <= t <= d ==> r == Ok([Shot(SingleFrameName(u), t, None)]))
    ensures |c| >= 4 && Lower(c[2]) == "multiple" ==>
      match ParseInt(c[3])
      case None => r == Err(CountError(IntError(c[3])))
      case Some(n) =>
        && (n < 1 || n > MaxFrames ==> r == Err(CountError(BadCount)))
        && (1 <= n <= MaxFrames ==> r == Ok(SeriesShots(u, d, n)))
  {
    if |c| == 2 then Ok([Shot(SingleFrameName(u), d / 2.0, None)])
    else if |c| >= 4 && Lower(c[2]) == "single" then
      match ParseFloat(c[3])
      case None => Err(TimeError(FloatError(c[3])))
      case Some(t) =>
        if t < 0.0 || t > d then Err(TimeError(OutOfDuration)) else Ok([Shot(SingleFrameName(u), t, None)])
    else if |c| >= 4 && Lower(c[2]) == "multiple" then
      match ParseInt(c[3])
      case None => Err(CountError(IntError(c[3])))
      case Some(n) =>
        if n <= 0 || n > MaxFrames then Err(CountError(BadCount)) else Ok(SeriesShots(u, d, n))
    else Err(BadFrameOption)
  }

  /** A series request yields exactly `n` frames with pairwise distinct file names. */
  lemma SeriesNamesDistinct(u: string, d: real, n: nat)
    requires n > 0
    ensures forall i, j :: 0 <= i < j < n ==> SeriesShots(u, d, n)[i].path != SeriesShots(u, d, n)[j].path
  {
    forall i, j | 0 <= i < j < n
      ensures SeriesShots(u, d, n)[i].path != SeriesShots(u, d, n)[j].path
    {
      FrameNamesDistinct(u, i + 1, j + 1);
    }
  }

  // ---------------------------------------------------------------------------
  // The handler
  // ---------------------------------------------------------------------------

  function InputName(m: Message): string { "input_" + UserTag(m) + ".mp4" }
  function AudioName(u: string): string { "extracted_" + u + ".mp3" }
  function SubtitleName(u: string): string { "extracted_" + u + ".srt" }

  function AudioCaption(env: Env): string { "<b>Audio Extracted By:</b> " + env.mention }
  function SubtitleCaption(env: Env): string { "<b>Subtitle Extracted By:</b> " + env.mention }

  function FrameCaption(env: Env, shot: Shot): string {
    match shot.number
    case None => "<b>Frame Extracted By:</b> " + env.mention + " (at " + env.fixed2(shot.time) + "s)"
    case Some(k) =>
      "<b>Frame " + NatToString(k) + " Extracted By:</b> " + env.mention + " (at " + env.fixed2(shot.time) + "s)"
  }

  /** Each frame sent as a photo with its caption. */
  function PhotoUploads(env: Env, shots: seq<Shot>): (ups: seq<Upload>)
    ensures |ups| == |shots|
    ensures forall k :: 0 <= k < |shots| ==> ups[k] == Upload(PhotoReply, shots[k].path, FrameCaption(env, shots[k]))
  {
    seq(|shots|, k requires 0 <= k < |shots| => Upload(PhotoReply, shots[k].path, FrameCaption(env, shots[k])))
  }

  function ErrorReply(t: string, e: string): string {
    "Error extracting " + t + ": " + e
  }

  /** A result that is both written and sent. */
  function Delivered(env: Env): string -> bool {
    p => env.writeOk(p) && env.sendOk(p)
  }

  /**
   * How a run over the planned results ends, and the results it wrote. Each one
   * is written and then sent before the next is started, so the run stops at
   * the first result whose write or upload fails: everything before it has been
   * sent, it has been written when only its upload failed, and the message
   * names whichever step failed.
   */
  function EachResult(env: Env, t: string, planned: seq<Upload>, writeError: string): (r: (Outcome, seq<string>))
    ensures r.0.Failed? || r.0.Done?
    ensures r.0.Done? <==>
      forall k :: 0 <= k < |planned| ==> env.writeOk(planned[k].path) && env.sendOk(planned[k].path)
    ensures r.0.Done? ==> r.0.sent == planned && r.1 == PathsSent(planned)
    ensures r.0.Failed? ==>
      var f := |r.0.sent|;
      && f < |planned|
      && r.0.sent == planned[..f]
      && (forall k :: 0 <= k < f ==> env.writeOk(planned[k].path) && env.sendOk(planned[k].path))
      && (env.writeOk(planned[f].path) ==>
            && !env.sendOk(planned[f].path)
            && r.0.text == ErrorReply(t, env.error)
            && r.1 == PathsSent(planned)[..f + 1])
      && (!env.writeOk(planned[f].path) ==>
            && r.0.text == ErrorReply(t, writeError)
            && r.1 == PathsSent(planned)[..f])
  {
    var ps := PathsSent(planned);
    var f := FirstRefused(ps, Delivered(env));
    if f == |ps| then (Done(planned), ps)
    else if !env.writeOk(ps[f]) then (Failed(ErrorReply(t, writeError), planned[..f]), ps[..f])
    else (Failed(ErrorReply(t, env.error), planned[..f]), ps[..f + 1])
  }

  /** A run whose first `i` results were delivered and whose next one fails stops there. */
  lemma EachResultStops(env: Env, t: string, planned: seq<Upload>, writeError: string, i: nat)
    requires i < |planned|
    requires forall k :: 0 <= k < i ==> Delivered(env)(PathsSent(planned)[k])
    requires !Delivered(env)(planned[i].path)
    ensures !env.writeOk(planned[i].path) ==>
      EachResult(env, t, planned, writeError) == (Failed(ErrorReply(t, writeError), planned[..i]), PathsSent(planned)[..i])
    ensures env.writeOk(planned[i].path) ==>
      EachResult(env, t, planned, writeError) == (Failed(ErrorReply(t, env.error), planned[..i]), PathsSent(planned)[..i + 1])
  {
    assert FirstRefused(PathsSent(planned), Delivered(env)) == i;
  }

  /** A run that delivered every result ends in `Done`, having sent all of them. */
  lemma EachResultDone(env: Env, t: string, planned: seq<Upload>, writeError: string)
    requires forall k :: 0 <= k < |planned| ==> Delivered(env)(PathsSent(planned)[k])
    ensures EachResult(env, t, planned, writeError) == (Done(planned), PathsSent(planned))
  {
    assert FirstRefused(PathsSent(planned), Delivered(env)) == |planned|;
  }

  /**
   * Write and send the results one at a time, then remove the download and every
   * result. A write that fails ends with `writeError`, an upload that fails with
   * the library's error; the `except` block then removes only the download.
   */
  method WriteEachAndSend(disk: Disk, env: Env, t: string, videoFile: string, planned: seq<Upload>, writeError: string)
    returns (outcome: Outcome, outputs: seq<string>)
    modifies disk
    ensures (outcome, outputs) == EachResult(env, t, planned, writeError)
    ensures outcome.Failed? ==> disk.files == (old(disk.files) + Paths(outputs)) - {videoFile}
    ensures outcome.Done? ==> disk.files == old(disk.files) - ({videoFile} + Paths(outputs))
  {
    outputs := [];
    var sent := [];
    ghost var ps := PathsSent(planned);
    for i := 0 to |planned|
      invariant sent == planned[..i]
      invariant outputs == ps[..i]
      invariant forall k :: 0 <= k < i ==> Delivered(env)(ps[k])
      invariant disk.files == old(disk.files) + Paths(outputs)
    {
      var up := planned[i];
      if !env.writeOk(up.path) {
        EachResultStops(env, t, planned, writeError, i);
        disk.RemoveIfExists(videoFile);
        return Failed(ErrorReply(t, writeError), sent), outputs;
      }
      disk.Create(up.path);
      outputs := outputs + [up.path];
      assert ps[..i + 1] == ps[..i] + [up.path];
      if !env.sendOk(up.path) {
        EachResultStops(env, t, planned, writeError, i);
        disk.RemoveIfExists(videoFile);
        return Failed(ErrorReply(t, env.error), sent), outputs;
      }
      sent := sent + [up];
      assert planned[..i + 1] == planned[..i] + [up];
    }
    assert planned[..|planned|] == planned;
    assert ps[..|planned|] == ps;
    EachResultDone(env, t, planned, writeError);
    disk.RemoveEach([videoFile] + outputs);
    assert Paths([videoFile] + outputs) == {videoFile} + Paths(outputs);
    return Done(sent), outputs;
  }

  /** The audio track, sent as audio. */
  function AudioUpload(env: Env, u: string): Upload {
    Upload(AudioReply, AudioName(u), AudioCaption(env))
  }

  /** The first subtitle stream, sent as a document. */
  function SubtitleUpload(env: Env, u: string): Upload {
    Upload(DocumentReply, SubtitleName(u), SubtitleCaption(env))
  }

  /** The frames of a series are sent under pairwise distinct names, so none overwrites another. */
  lemma SeriesUploadsDistinct(env: Env, u: string, d: real, n: nat)
    requires n > 0
    ensures var ups := PhotoUploads(env, SeriesShots(u, d, n));
      forall i, j :: 0 <= i < j < |ups| ==> ups[i].path != ups[j].path
  {
    SeriesNamesDistinct(u, d, n);
  }

  /**
   * The work for one extraction type `t`, once the download `videoFile` is
   * open: the probe or the frame options may end it with nothing written;
   * otherwise the results are written and sent one at a time.
   */
  method ExtractAndSend(disk: Disk, env: Env, t: string, videoFile: string, c: seq<string>, u: string,
                        duration: real, stderr: string, stdout: string)
    returns (outcome: Outcome, outputs: seq<string>)
    requires t in {"audio", "subtitle", "frame"}
    modifies disk
    ensures t == "audio" ==> (outcome, outputs) == EachResult(env, t, [AudioUpload(env, u)], env.error)
    ensures t == "subtitle" && !HasSubtitles(stderr, stdout) ==>
      outcome == Failed(ErrorReply(t, NoSubtitles), []) && outputs == []
    ensures t == "subtitle" && HasSubtitles(stderr, stdout) ==>
      (outcome, outputs) == EachResult(env, t, [SubtitleUpload(env, u)], SubtitleFailed)
    ensures t == "frame" ==>
      match FrameShots(c, u, duration)
      case Err(e) => outcome == Failed(ErrorReply(t, e), []) && outputs == []
      case Ok(shots) => (outcome, outputs) == EachResult(env, t, PhotoUploads(env, shots), env.error)
    ensures outcome.Failed? || outcome.Done?
    ensures outcome.Failed? ==> disk.files == (old(disk.files) + Paths(outputs)) - {videoFile}
    ensures outcome.Done? ==> disk.files == old(disk.files) - ({videoFile} + Paths(outputs))
  {
    if t == "audio" {
      outcome, outputs := WriteEachAndSend(disk, env, t, videoFile, [AudioUpload(env, u)], env.error);
    } else if t == "subtitle" {
      if !HasSubtitles(stderr, stdout) {
        disk.RemoveIfExists(videoFile);
        return Failed(ErrorReply(t, NoSubtitles), []), [];
      }
      // A failing ffmpeg run raises CalledProcessError, which becomes this message.
      outcome, outputs := WriteEachAndSend(disk, env, t, videoFile, [SubtitleUpload(env, u)], SubtitleFailed);
    } else {
      var shots := FrameShots(c, u, duration);
      if shots.Err? {
        disk.RemoveIfExists(videoFile);
        return Failed(ErrorReply(t, shots.error), []), [];
      }
      outcome, outputs := WriteEachAndSend(disk, env, t, videoFile, PhotoUploads(env, shots.value), env.error);
    }
  }

  /**
   * `extract_media`. `duration` is the clip's length as the media library reads
   * it, and `stderr` and `stdout` what the ffmpeg probe printed. It returns how
   * the handler ends and `output_files`, the results written.
   */
  method ExtractMediaHandler(disk: Disk, m: Message, env: Env, duration: real, stderr: string, stdout: string)
    returns (outcome: Outcome, outputs: seq<string>)
    modifies disk
    ensures !RepliesToVideo(m) ==> outcome == Refused(NotVideoReply)
    ensures RepliesToVideo(m) && ExtractType(m.command).None? ==> outcome == Refused(NoType)
    ensures outcome.Refused? <==> !RepliesToVideo(m) || ExtractType(m.command).None?
    ensures outcome.Escaped? <==> RepliesToVideo(m) && ExtractType(m.command).Some? && !env.downloadOk
    ensures outcome.Refused? || outcome.Escaped? ==> disk.files == old(disk.files)
    ensures RepliesToVideo(m) && ExtractType(m.command).Some? && env.downloadOk && !env.openOk ==>
      outcome == Failed(ErrorReply(ExtractType(m.command).value, env.error), []) && outputs == []
    ensures RepliesToVideo(m) && ExtractType(m.command).Some? && env.downloadOk && env.openOk ==>
      var t := ExtractType(m.command).value;
      var u := UserTag(m);
      && (t == "audio" ==> (outcome, outputs) == EachResult(env, t, [AudioUpload(env, u)], env.error))
      && (t == "subtitle" && !HasSubtitles(stderr, stdout) ==>
            outcome == Failed(ErrorReply(t, NoSubtitles), []) && outputs == [])
      && (t == "subtitle" && HasSubtitles(stderr, stdout) ==>
            (outcome, outputs) == EachResult(env, t, [SubtitleUpload(env, u)], SubtitleFailed))
      && (t == "frame" ==>
            match FrameShots(m.command, u, duration)
            case Err(e) => outcome == Failed(ErrorReply(t, e), []) && outputs == []
            case Ok(shots) => (outcome, outputs) == EachResult(env, t, PhotoUploads(env, shots), env.error))
    ensures outcome.Failed? ==> disk.files == (old(disk.files) + Paths(outputs)) - {InputName(m)}
    ensures outcome.Done? ==>
      && outputs == PathsSent(outcome.sent)
      && disk.files == old(disk.files) - ({InputName(m)} + Paths(outputs))
    ensures outcome.Done? && ExtractType(m.command) == Some("audio") ==>
      outcome.sent == [AudioUpload(env, UserTag(m))]
    ensures outcome.Done? && ExtractType(m.command) == Some("subtitle") ==>
      HasSubtitles(stderr, stdout) && outcome.sent == [SubtitleUpload(env, UserTag(m))]
    ensures outcome.Done? && ExtractType(m.command) == Some("frame") ==>
      var shots := FrameShots(m.command, UserTag(m), duration);
      shots.Ok? && outcome.sent == PhotoUploads(env, shots.value)
  {
    outputs := [];
    if !RepliesToVideo(m) {
      return Refused(NotVideoReply), outputs;
    }
    var kind := ExtractType(m.command);
    if kind.None? {
      return Refused(NoType), outputs;
    }
    var t := kind.value;
    if !env.downloadOk {
      // The `except` block reads `video_file`, which the failed download never bound.
      return Escaped, outputs;
    }
    var videoFile := InputName(m);
    disk.Create(videoFile);
    if !env.openOk {
      disk.RemoveIfExists(videoFile);
      return Failed(ErrorReply(t, env.error), []), outputs;
    }
    outcome, outputs := ExtractAndSend(disk, env, t, videoFile, m.command, UserTag(m), duration, stderr, stdout);
  }
}
