/**
 * The `/videotools [subcommand] [args]` handler: `cut`, `split`, `crop` and
 * `autocrop` a video the command replies to, send the results back and clean up.
 */
module VideoTools {
  import opened Wrappers
  import opened Text
  import opened Bot
  import opened Files
  import opened Reals

  const NotVideoReply := "Please reply to a video file to process."
  const NoSubcommand := "Please specify a subcommand: cut, split, crop, or autocrop."
  const CutUsage := "Usage: /videotools cut [start] [end] (in seconds)"
  const BadCutTimes := "Invalid start or end time."
  const SplitUsage := "Usage: /videotools split [duration] (in seconds)"
  const BadSplit := "Invalid split duration."
  const CropUsage := "Usage: /videotools crop [x1] [y1] [x2] [y2]"
  const BadCrop := "Invalid crop coordinates."
  const NoContent := "Could not detect non-black content for auto-crop."
  const BadBounds := "Could not detect valid crop boundaries."
  const BadSubcommand := "Invalid subcommand. Use: cut, split, crop, or autocrop."

  /** A grey level above this is not black. */
  const Threshold := 30

  /** What the media library reports about the opened clip: `duration`, `w` and `h`. */
  datatype Clip = Clip(duration: real, width: nat, height: nat)

  /** A crop rectangle: columns `x1` to `x2`, rows `y1` to `y2`. */
  datatype Box = Box(x1: nat, y1: nat, x2: nat, y2: nat)

  /** What one output file is made of: a time range of the clip, or a rectangle of it. */
  datatype Edit = Subclip(start: real, end: real) | Crop(box: Box)

  datatype Job = Job(path: string, edit: Edit)

  function Min(a: int, b: int): int { if a <= b then a else b }
  function Max(a: int, b: int): int { if a >= b then a else b }
  function MinReal(a: real, b: real): real { if a <= b then a else b }

  // ---------------------------------------------------------------------------
  // cut
  // ---------------------------------------------------------------------------

  predicate CutArgs(c: seq<string>) {
    |c| == 4 && IsDigits(c[2]) && IsDigits(c[3])
  }

  /**
   * The `cut` arguments: exactly two digit strings, a start before the end and an
   * end no later than the clip's end.
   */
  function CutRange(c: seq<string>, duration: real): (r: Result<(nat, nat), string>)
    ensures r.Ok? <==>
      CutArgs(c) && DigitsValue(c[2]) < DigitsValue(c[3]) && DigitsValue(c[3]) as real <= duration
    ensures r.Ok? ==> r.value == (DigitsValue(c[2]), DigitsValue(c[3]))
    ensures r.Ok? ==> r.value.0 < r.value.1 && r.value.1 as real <= duration
    ensures r.Err? ==> (r.error == CutUsage <==> !CutArgs(c))
    ensures r.Err? ==> r.error == CutUsage || r.error == BadCutTimes
  {
    if !CutArgs(c) then Err(CutUsage)
    else
      var start, end := DigitsValue(c[2]), DigitsValue(c[3]);
      if start >= end || end as real > duration then Err(BadCutTimes) else Ok((start, end))
  }

  // ---------------------------------------------------------------------------
  // split
  // ---------------------------------------------------------------------------

  predicate SplitArgs(c: seq<string>) {
    |c| == 3 && IsDigits(c[2])
  }

  /** The `split` argument: one digit string, a part length above zero and below the clip's length. */
  function SplitLength(c: seq<string>, duration: real): (r: Result<nat, string>)
    ensures r.Ok? <==> SplitArgs(c) && 0 < DigitsValue(c[2]) && (DigitsValue(c[2]) as real) < duration
    ensures r.Ok? ==> r.value == DigitsValue(c[2]) && 0 < r.value && (r.value as real) < duration
    ensures r.Err? ==> (r.error == SplitUsage <==> !SplitArgs(c))
    ensures r.Err? ==> r.error == SplitUsage || r.error == BadSplit
  {
    if !SplitArgs(c) then Err(SplitUsage)
    else
      var s := DigitsValue(c[2]);
      if s <= 0 || s as real >= duration then Err(BadSplit) else Ok(s)
  }

  /** `q = floor(D / S)` puts `D` between `q * S` (included) and `(q + 1) * S`, with `q >= 1` as `S < D`. */
  lemma FloorDiv(d: real, sr: real)
    requires 0.0 < sr < d
    ensures var q := (d / sr).Floor;
      q >= 1 && q as real * sr <= d < q as real * sr + sr
  {
    var x := d / sr;
    var q := x.Floor;
    assert x * sr == d;
    assert 1.0 < x by {
      if x <= 1.0 {
        ScaleLe(x, 1.0, sr);
      }
    }
    assert q >= 1;
    ScaleLe(q as real, x, sr);
    ScaleLt(x, (q + 1) as real, sr);
    assert d < (q + 1) as real * sr;
    StepMul(q, sr);
  }

  /**
   * With `q` the floor of `d / sr`: when `sr` does not divide `d`, `q + 1` parts
   * cover `d` and `q` do not; when it does, `q` parts are exactly enough, and
   * `q` is at least two because `sr < d`.
   */
  lemma PartsCover(d: real, sr: real, q: int)
    requires 0.0 < sr < d && q == (d / sr).Floor
    ensures q >= 1
    ensures d - q as real * sr != 0.0 ==> q as real * sr < d <= (q + 1) as real * sr
    ensures d - q as real * sr == 0.0 ==> q >= 2 && (q - 1) as real * sr < d <= q as real * sr
  {
    FloorDiv(d, sr);
    StepMul(q, sr);
    if d - q as real * sr == 0.0 {
      assert q > 1 by {
        assert q as real * sr > 1.0 * sr;
        ScaleCancel(q as real, 1.0, sr);
      }
      StepMul(q - 1, sr);
    }
  }

  /**
   * `int(D // S) + (1 if D % S else 0)`: the smallest number of parts of length
   * `S` that cover `D`, which is at least two because `S < D`.
   */
  function NumParts(d: real, s: nat): (n: nat)
    requires 0.0 < s as real < d
    ensures n >= 2
    ensures (n - 1) as real * s as real < d <= n as real * s as real
  {
    var sr := s as real;
    var q := (d / sr).Floor;
    PartsCover(d, sr, q);
    if d - q as real * sr != 0.0 then
      assert (q + 1 - 1) as real == q as real;
      q + 1
    else q
  }

  /** Part `i`: from `i * S` to `(i + 1) * S`, or to the end of the clip for the last part. */
  function Segment(d: real, s: nat, i: nat): (seg: (real, real)) {
    (i as real * s as real, MinReal((i + 1) as real * s as real, d))
  }

  /** A part before the last is `S` long and ends where the next one starts. */
  lemma InnerSegment(d: real, s: nat, i: nat)
    requires 0.0 < s as real < d
    requires i < NumParts(d, s) - 1
    ensures Segment(d, s, i).1 == Segment(d, s, i + 1).0
    ensures Segment(d, s, i).1 - Segment(d, s, i).0 == s as real
  {
    var n, sr := NumParts(d, s), s as real;
    ScaleLe((i + 1) as real, (n - 1) as real, sr);
    assert (i + 1) as real * sr < d;
    assert Segment(d, s, i).1 == (i + 1) as real * sr;
    StepMul(i, sr);
  }

  /** The last part ends at the clip's end, after more than nothing and at most `S`. */
  lemma FinalSegment(d: real, s: nat)
    requires 0.0 < s as real < d
    ensures var n := NumParts(d, s);
      && Segment(d, s, n - 1).1 == d
      && Segment(d, s, n - 1).1 - Segment(d, s, n - 1).0 == d - (n - 1) as real * s as real
      && 0.0 < d - (n - 1) as real * s as real <= s as real
  {
    var n, sr := NumParts(d, s), s as real;
    StepMul(n - 1, sr);
    assert (n - 1 + 1) as real == n as real;
  }

  /**
   * The parts tile the clip: the first starts at 0, each starts where the one
   * before ends, every part but the last is `S` long, and the last ends at the
   * clip's end after `D - S * (n - 1)`, which is more than 0 and at most `S`.
   */
  lemma SegmentsTile(d: real, s: nat)
    requires 0.0 < s as real < d
    ensures var n := NumParts(d, s);
      && Segment(d, s, 0).0 == 0.0
      && (forall i: nat :: i < n - 1 ==> Segment(d, s, i).1 == Segment(d, s, i + 1).0)
      && (forall i: nat :: i < n - 1 ==> Segment(d, s, i).1 - Segment(d, s, i).0 == s as real)
      && Segment(d, s, n - 1).1 == d
      && 0.0 < Segment(d, s, n - 1).1 - Segment(d, s, n - 1).0 <= s as real
  {
    forall i: nat | i < NumParts(d, s) - 1
      ensures Segment(d, s, i).1 == Segment(d, s, i + 1).0
      ensures Segment(d, s, i).1 - Segment(d, s, i).0 == s as real
    {
      InnerSegment(d, s, i);
    }
    FinalSegment(d, s);
  }

  function SplitName(u: string, k: nat): string {
    "split_" + u + "_part" + NatToString(k) + ".mp4"
  }

  /** Distinct part numbers give distinct file names. */
  lemma SplitNamesDistinct(u: string, j: nat, k: nat)
    requires j != k
    ensures SplitName(u, j) != SplitName(u, k)
  {
    var pre := "split_" + u + "_part";
    assert SplitName(u, j) == pre + NatToString(j) + ".mp4";
    assert SplitName(u, k) == pre + NatToString(k) + ".mp4";
    if SplitName(u, j) == SplitName(u, k) {
      NumberedInjective(pre, ".mp4", j, k);
    }
  }

  /** The jobs of `split`: part `i + 1` is the clip between the ends of segment `i`. */
  function SplitJobs(u: string, d: real, s: nat): (jobs: seq<Job>)
    requires 0.0 < s as real < d
    ensures |jobs| == NumParts(d, s)
  {
    seq(NumParts(d, s), i requires 0 <= i < NumParts(d, s) =>
      Job(SplitName(u, i + 1), Subclip(Segment(d, s, i).0, Segment(d, s, i).1)))
  }

  /** The parts of `split` are named part1 .. part<n>, in order, and no two share a name. */
  lemma SplitJobsNamed(u: string, d: real, s: nat)
    requires 0.0 < s as real < d
    ensures var jobs := SplitJobs(u, d, s);
      && (forall i :: 0 <= i < |jobs| ==> jobs[i].path == SplitName(u, i + 1))
      && (forall i, j :: 0 <= i < j < |jobs| ==> jobs[i].path != jobs[j].path)
  {
    var jobs := SplitJobs(u, d, s);
    forall i, j | 0 <= i < j < |jobs|
      ensures jobs[i].path != jobs[j].path
    {
      SplitNamesDistinct(u, i + 1, j + 1);
    }
  }

  // ---------------------------------------------------------------------------
  // crop
  // ---------------------------------------------------------------------------

  predicate CropArgs(c: seq<string>) {
    |c| == 6 && IsDigits(c[2]) && IsDigits(c[3]) && IsDigits(c[4]) && IsDigits(c[5])
  }

  /** A rectangle that is not empty and lies inside a `width` by `height` frame. */
  predicate InFrame(b: Box, width: nat, height: nat) {
    b.x1 < b.x2 <= width && b.y1 < b.y2 <= height
  }

  /** The `crop` arguments: four digit strings naming a non-empty rectangle inside the frame. */
  function CropBox(c: seq<string>, clip: Clip): (r: Result<Box, string>)
    ensures r.Ok? <==> (CropArgs(c) &&
      InFrame(Box(DigitsValue(c[2]), DigitsValue(c[3]), DigitsValue(c[4]), DigitsValue(c[5])), clip.width, clip.height))
    ensures r.Ok? ==> r.value == Box(DigitsValue(c[2]), DigitsValue(c[3]), DigitsValue(c[4]), DigitsValue(c[5]))
    ensures r.Ok? ==> InFrame(r.value, clip.width, clip.height)
    ensures r.Err? ==> (r.error == CropUsage <==> !CropArgs(c))
    ensures r.Err? ==> r.error == CropUsage || r.error == BadCrop
  {
    if !CropArgs(c) then Err(CropUsage)
    else
      var x1, y1, x2, y2 := DigitsValue(c[2]), DigitsValue(c[3]), DigitsValue(c[4]), DigitsValue(c[5]);
      if x1 >= x2 || y1 >= y2 || x2 > clip.width || y2 > clip.height then Err(BadCrop)
      else Ok(Box(x1, y1, x2, y2))
  }

  // ---------------------------------------------------------------------------
  // autocrop
  // ---------------------------------------------------------------------------

  /** The extreme rows and columns of the non-black pixels of a frame. */
  datatype Bounds = Bounds(top: nat, bottom: nat, left: nat, right: nat)

  predicate NonBlack(v: int) {
    v > Threshold
  }

  /** Every pixel of the frame is black. */
  predicate Blank(frame: array2<int>)
    reads frame
  {
    forall i, j :: 0 <= i < frame.Length0 && 0 <= j < frame.Length1 ==> !NonBlack(frame[i, j])
  }

  /**
   * `b` holds the extreme rows and columns of the frame's non-black pixels: every
   * such pixel lies inside them, and each of the four lines touches one.
   */
  predicate Tight(frame: array2<int>, b: Bounds)
    reads frame
  {
    && b.top <= b.bottom < frame.Length0 && b.left <= b.right < frame.Length1
    && (forall i, j :: 0 <= i < frame.Length0 && 0 <= j < frame.Length1 && NonBlack(frame[i, j]) ==>
          b.top <= i <= b.bottom && b.left <= j <= b.right)
    && (exists j :: 0 <= j < frame.Length1 && NonBlack(frame[b.top, j]))
    && (exists j :: 0 <= j < frame.Length1 && NonBlack(frame[b.bottom, j]))
    && (exists i :: 0 <= i < frame.Length0 && NonBlack(frame[i, b.left]))
    && (exists i :: 0 <= i < frame.Length0 && NonBlack(frame[i, b.right]))
  }

  /** A frame has one set of tight bounds at most. */
  lemma TightUnique(frame: array2<int>, b1: Bounds, b2: Bounds)
    requires Tight(frame, b1) && Tight(frame, b2)
    ensures b1 == b2
  {
    var j1 :| 0 <= j1 < frame.Length1 && NonBlack(frame[b1.top, j1]);
    var j2 :| 0 <= j2 < frame.Length1 && NonBlack(frame[b2.top, j2]);
    var j3 :| 0 <= j3 < frame.Length1 && NonBlack(frame[b1.bottom, j3]);
    var j4 :| 0 <= j4 < frame.Length1 && NonBlack(frame[b2.bottom, j4]);
    var i1 :| 0 <= i1 < frame.Length0 && NonBlack(frame[i1, b1.left]);
    var i2 :| 0 <= i2 < frame.Length0 && NonBlack(frame[i2, b2.left]);
    var i3 :| 0 <= i3 < frame.Length0 && NonBlack(frame[i3, b1.right]);
    var i4 :| 0 <= i4 < frame.Length0 && NonBlack(frame[i4, b2.right]);
  }

  /**
   * What the scan of `video_tools` gives for subcommand `sub`: nothing unless
   * it is autocrop; for autocrop, nothing on a black frame and the tight
   * bounds otherwise.
   */
  predicate ScanOf(sub: string, frame: array2<int>, bounds: Option<Bounds>)
    reads frame
  {
    if sub != "autocrop" then bounds == None
    else if bounds.None? then Blank(frame)
    else Tight(frame, bounds.value)
  }

  /** The scan's result is determined by the subcommand and the frame. */
  lemma ScanUnique(sub: string, frame: array2<int>, b1: Option<Bounds>, b2: Option<Bounds>)
    requires ScanOf(sub, frame, b1) && ScanOf(sub, frame, b2)
    ensures b1 == b2
  {
    if sub == "autocrop" && b1.Some? && b2.Some? {
      TightUnique(frame, b1.value, b2.value);
    }
  }

  /**
   * `np.where(img_array > 30)` followed by the mins and maxes of its row and
   * column indices: nothing when every pixel is black, otherwise the tightest
   * rows and columns that hold every non-black pixel, each touched by one.
   */
  method NonBlackBounds(frame: array2<int>) returns (r: Option<Bounds>)
    ensures r.None? <==> Blank(frame)
    ensures r.Some? ==> Tight(frame, r.value)
  {
    var found := false;
    var top, bottom, left, right := 0, 0, 0, 0;
    // A non-black pixel on each of the four extreme lines.
    ghost var topCol, bottomCol, leftRow, rightRow := 0, 0, 0, 0;
    for i := 0 to frame.Length0
      invariant !found ==> forall a, b :: 0 <= a < i && 0 <= b < frame.Length1 ==> !NonBlack(frame[a, b])
      invariant found ==>
        && top <= bottom < i && left <= right < frame.Length1
        && (forall a, b :: 0 <= a < i && 0 <= b < frame.Length1 && NonBlack(frame[a, b]) ==>
              top <= a <= bottom && left <= b <= right)
        && 0 <= topCol < frame.Length1 && NonBlack(frame[top, topCol])
        && 0 <= bottomCol < frame.Length1 && NonBlack(frame[bottom, bottomCol])
        && 0 <= leftRow < i && NonBlack(frame[leftRow, left])
        && 0 <= rightRow < i && NonBlack(frame[rightRow, right])
    {
      for j := 0 to frame.Length1
        invariant !found ==>
          && (forall a, b :: 0 <= a < i && 0 <= b < frame.Length1 ==> !NonBlack(frame[a, b]))
          && (forall b :: 0 <= b < j ==> !NonBlack(frame[i, b]))
        invariant found ==>
          && top <= bottom <= i && left <= right < frame.Length1
          && (forall a, b :: 0 <= a < i && 0 <= b < frame.Length1 && NonBlack(frame[a, b]) ==>
                top <= a <= bottom && left <= b <= right)
          && (forall b :: 0 <= b < j && NonBlack(frame[i, b]) ==> top <= i <= bottom && left <= b <= right)
          && 0 <= topCol < frame.Length1 && NonBlack(frame[top, topCol])
          && 0 <= bottomCol < frame.Length1 && NonBlack(frame[bottom, bottomCol])
          && 0 <= leftRow <= i && NonBlack(frame[leftRow, left])
          && 0 <= rightRow <= i && NonBlack(frame[rightRow, right])
      {
        if NonBlack(frame[i, j]) {
          if !found {
            found := true;
            top, bottom, left, right := i, i, j, j;
            topCol, bottomCol, leftRow, rightRow := j, j, i, i;
          } else {
            bottom, bottomCol := i, j;
            if j < left {
              left, leftRow := j, i;
            }
            if j > right {
              right, rightRow := j, i;
            }
          }
        }
      }
    }
    if found {
      r := Some(Bounds(top, bottom, left, right));
    } else {
      r := None;
    }
  }

  /**
   * The autocrop rectangle: the extreme rows and columns clamped to the frame,
   * with the last non-black row and column as the far edges; a rectangle without
   * width or height is an error.
   */
  function AutocropBox(b: Bounds, rows: nat, cols: nat): (r: Result<Box, string>)
    ensures r.Err? ==> r.error == BadBounds
  {
    var y1, y2 := Max(0, b.top), Min(rows, b.bottom);
    var x1, x2 := Max(0, b.left), Min(cols, b.right);
    if x1 < x2 && y1 < y2 then Ok(Box(x1, y1, x2, y2)) else Err(BadBounds)
  }

  /**
   * For bounds found in the frame the clamps change nothing: the rectangle runs
   * from the first to the last non-black row and column, so the last ones fall
   * on its far edges and are cut off by an end-exclusive crop; a frame whose
   * non-black pixels share one row or one column gets the error.
   */
  lemma AutocropCorners(b: Bounds, rows: nat, cols: nat)
    requires b.top <= b.bottom < rows && b.left <= b.right < cols
    ensures AutocropBox(b, rows, cols).Ok? <==> b.left < b.right && b.top < b.bottom
    ensures AutocropBox(b, rows, cols).Ok? ==>
      AutocropBox(b, rows, cols).value == Box(b.left, b.top, b.right, b.bottom)
    ensures AutocropBox(b, rows, cols).Ok? ==> InFrame(AutocropBox(b, rows, cols).value, cols, rows)
  {
  }

  // ---------------------------------------------------------------------------
  // The handler
  // ---------------------------------------------------------------------------

  function CutName(u: string): string { "cut_" + u + ".mp4" }
  function CropName(u: string): string { "crop_" + u + ".mp4" }
  function AutocropName(u: string): string { "autocrop_" + u + ".mp4" }
  function InputName(m: Message): string { "input_" + UserTag(m) + ".mp4" }

  /**
   * The outputs a subcommand asks for, or its error; `bounds` is what the
   * autocrop scan found and `rows` by `cols` the size of the frame it scanned.
   */
  function Plan(sub: string, c: seq<string>, u: string, clip: Clip, bounds: Option<Bounds>, rows: nat, cols: nat)
    : (r: Result<seq<Job>, string>)
    ensures sub !in {"cut", "split", "crop", "autocrop"} ==> r == Err(BadSubcommand)
    ensures sub == "cut" ==> r.Ok? == CutRange(c, clip.duration).Ok?
    ensures sub == "cut" && r.Ok? ==> var (s, e) := CutRange(c, clip.duration).value;
      r.value == [Job(CutName(u), Subclip(s as real, e as real))]
    ensures sub == "split" ==> r.Ok? == SplitLength(c, clip.duration).Ok?
    ensures sub == "split" && r.Ok? ==> r.value == SplitJobs(u, clip.duration, SplitLength(c, clip.duration).value)
    ensures sub == "crop" ==> r.Ok? == CropBox(c, clip).Ok?
    ensures sub == "crop" && r.Ok? ==> r.value == [Job(CropName(u), Crop(CropBox(c, clip).value))]
    ensures sub == "autocrop" && bounds.None? ==> r == Err(NoContent)
    ensures sub == "autocrop" && bounds.Some? ==> r.Ok? == AutocropBox(bounds.value, rows, cols).Ok?
    ensures sub == "autocrop" && r.Ok? ==>
      r.value == [Job(AutocropName(u), Crop(AutocropBox(bounds.value, rows, cols).value))]
    ensures sub == "cut" && r.Err? ==> CutRange(c, clip.duration).Err? && r.error == CutRange(c, clip.duration).error
    ensures sub == "split" && r.Err? ==> SplitLength(c, clip.duration).Err? && r.error == SplitLength(c, clip.duration).error
    ensures sub == "crop" && r.Err? ==> CropBox(c, clip).Err? && r.error == CropBox(c, clip).error
    ensures sub == "autocrop" && bounds.Some? && r.Err? ==> r.error == BadBounds
    ensures r.Err? ==> r.error in {CutUsage, BadCutTimes, SplitUsage, BadSplit, CropUsage, BadCrop, NoContent, BadBounds, BadSubcommand}
  {
    if sub == "cut" then
      match CutRange(c, clip.duration)
      case Ok((s, e)) => Ok([Job(CutName(u), Subclip(s as real, e as real))])
      case Err(e) => Err(e)
    else if sub == "split" then
      match SplitLength(c, clip.duration)
      case Ok(s) => Ok(SplitJobs(u, clip.duration, s))
      case Err(e) => Err(e)
    else if sub == "crop" then
      match CropBox(c, clip)
      case Ok(box) => Ok([Job(CropName(u), Crop(box))])
      case Err(e) => Err(e)
    else if sub == "autocrop" then
      match bounds
      case None => Err(NoContent)
      case Some(b) =>
        match AutocropBox(b, rows, cols)
        case Ok(box) => Ok([Job(AutocropName(u), Crop(box))])
        case Err(e) => Err(e)
    else Err(BadSubcommand)
  }

  function PathsOf(jobs: seq<Job>): (ps: seq<string>)
    ensures |ps| == |jobs|
    ensures forall k :: 0 <= k < |jobs| ==> ps[k] == jobs[k].path
  {
    seq(|jobs|, k requires 0 <= k < |jobs| => jobs[k].path)
  }

  function Caption(env: Env, sub: string): string {
    "<b>Processed By:</b> " + env.mention + " (" + sub + ")"
  }

  /** Each output sent as a video, in order, with the same caption. */
  function VideoUploads(paths: seq<string>, caption: string): (ups: seq<Upload>)
    ensures |ups| == |paths|
    ensures forall k :: 0 <= k < |paths| ==> ups[k] == Upload(VideoReply, paths[k], caption)
    ensures PathsSent(ups) == paths
  {
    seq(|paths|, k requires 0 <= k < |paths| => Upload(VideoReply, paths[k], caption))
  }

  function ErrorReply(e: string): string {
    "Error processing video: " + e
  }

  /**
   * How `video_tools` ends once its jobs are known, and the outputs it wrote:
   * every output is written in order, then every output is sent in order, and
   * the first write or upload that fails ends the run with the library's
   * error. The second component is `output_files`.
   */
  function BatchResult(env: Env, jobs: seq<Job>, caption: string): (r: (Outcome, seq<string>))
    ensures r.0.Failed? || r.0.Done?
    ensures r.0.Done? <==> forall k :: 0 <= k < |jobs| ==> env.writeOk(jobs[k].path) && env.sendOk(jobs[k].path)
    ensures r.0.Done? ==> r.1 == PathsOf(jobs) && r.0.sent == VideoUploads(r.1, caption)
    ensures r.1 <= PathsOf(jobs)
    ensures forall k :: 0 <= k < |r.1| ==> env.writeOk(r.1[k])
    ensures |r.1| < |jobs| ==> !env.writeOk(jobs[|r.1|].path) && r.0 == Failed(ErrorReply(env.error), [])
    ensures |r.1| == |jobs| && r.0.Failed? ==>
      && r.0.text == ErrorReply(env.error)
      && |r.0.sent| < |jobs|
      && r.0.sent == VideoUploads(r.1[..|r.0.sent|], caption)
      && (forall k :: 0 <= k < |r.0.sent| ==> env.sendOk(r.1[k]))
      && !env.sendOk(r.1[|r.0.sent|])
  {
    var ps := PathsOf(jobs);
    var w := FirstRefused(ps, env.writeOk);
    if w < |ps| then (Failed(ErrorReply(env.error), []), ps[..w])
    else
      var s := FirstRefused(ps, env.sendOk);
      if s < |ps| then (Failed(ErrorReply(env.error), VideoUploads(ps[..s], caption)), ps)
      else (Done(VideoUploads(ps, caption)), ps)
  }

  /** A run whose first `i` writes succeeded and whose next one fails stops there, having sent nothing. */
  lemma BatchWriteStops(env: Env, jobs: seq<Job>, caption: string, i: nat)
    requires i < |jobs| && !env.writeOk(jobs[i].path)
    requires forall k :: 0 <= k < i ==> env.writeOk(jobs[k].path)
    ensures BatchResult(env, jobs, caption) == (Failed(ErrorReply(env.error), []), PathsOf(jobs)[..i])
  {
    assert FirstRefused(PathsOf(jobs), env.writeOk) == i;
  }

  /** A run that wrote every output and whose upload `i` fails has sent the first `i`. */
  lemma BatchSendStops(env: Env, jobs: seq<Job>, caption: string, i: nat)
    requires forall k :: 0 <= k < |jobs| ==> env.writeOk(jobs[k].path)
    requires i < |jobs| && !env.sendOk(jobs[i].path)
    requires forall k :: 0 <= k < i ==> env.sendOk(jobs[k].path)
    ensures BatchResult(env, jobs, caption) ==
      (Failed(ErrorReply(env.error), VideoUploads(PathsOf(jobs)[..i], caption)), PathsOf(jobs))
  {
    assert FirstRefused(PathsOf(jobs), env.writeOk) == |jobs|;
    assert FirstRefused(PathsOf(jobs), env.sendOk) == i;
  }

  /** A run that wrote and sent every output is done. */
  lemma BatchDone(env: Env, jobs: seq<Job>, caption: string)
    requires forall k :: 0 <= k < |jobs| ==> env.writeOk(jobs[k].path) && env.sendOk(jobs[k].path)
    ensures BatchResult(env, jobs, caption) == (Done(VideoUploads(PathsOf(jobs), caption)), PathsOf(jobs))
  {
    assert FirstRefused(PathsOf(jobs), env.writeOk) == |jobs|;
    assert FirstRefused(PathsOf(jobs), env.sendOk) == |jobs|;
  }

  /**
   * The end of `video_tools` once the jobs are known, as `BatchResult` says,
   * followed by the removal of the download and the outputs on success; on an
   * error the `except` block removes only the download.
   */
  method WriteAndSend(disk: Disk, env: Env, videoFile: string, jobs: seq<Job>, caption: string)
    returns (outcome: Outcome, outputs: seq<string>)
    modifies disk
    ensures (outcome, outputs) == BatchResult(env, jobs, caption)
    ensures outcome.Failed? ==> disk.files == (old(disk.files) + Paths(outputs)) - {videoFile}
    ensures outcome.Done? ==> disk.files == old(disk.files) - ({videoFile} + Paths(outputs))
  {
    outputs := [];
    for i := 0 to |jobs|
      invariant outputs == PathsOf(jobs)[..i]
      invariant forall k :: 0 <= k < i ==> env.writeOk(jobs[k].path)
      invariant disk.files == old(disk.files) + Paths(outputs)
    {
      if !env.writeOk(jobs[i].path) {
        BatchWriteStops(env, jobs, caption, i);
        disk.RemoveIfExists(videoFile);
        return Failed(ErrorReply(env.error), []), outputs;
      }
      disk.Create(jobs[i].path);
      outputs := outputs + [jobs[i].path];
      assert PathsOf(jobs)[..i + 1] == PathsOf(jobs)[..i] + [jobs[i].path];
    }
    assert outputs == PathsOf(jobs);
    var sent := [];
    for i := 0 to |outputs|
      invariant sent == VideoUploads(outputs[..i], caption)
      invariant forall k :: 0 <= k < i ==> env.sendOk(outputs[k])
    {
      if !env.sendOk(outputs[i]) {
        BatchSendStops(env, jobs, caption, i);
        disk.RemoveIfExists(videoFile);
        return Failed(ErrorReply(env.error), sent), outputs;
      }
      sent := sent + [Upload(VideoReply, outputs[i], caption)];
    }
    assert outputs[..|outputs|] == outputs;
    BatchDone(env, jobs, caption);
    disk.RemoveEach([videoFile] + outputs);
    assert Paths([videoFile] + outputs) == {videoFile} + Paths(outputs);
    return Done(sent), outputs;
  }

  /**
   * The part of `video_tools` after the clip is opened: scan the first frame for
   * autocrop, plan the outputs, then write and send them, as `BatchResult` says.
   * A planning error ends the run with nothing written; an error removes only
   * the download, success removes it and every output.
   */
  method RunSubcommand(disk: Disk, env: Env, videoFile: string, sub: string, c: seq<string>, u: string,
                       clip: Clip, frame: array2<int>)
    returns (outcome: Outcome, outputs: seq<string>)
    modifies disk
    ensures exists bounds :: ScanOf(sub, frame, bounds)
    ensures forall bounds :: ScanOf(sub, frame, bounds) ==>
      var plan := Plan(sub, c, u, clip, bounds, frame.Length0, frame.Length1);
      && (plan.Err? ==> outcome == Failed(ErrorReply(plan.error), []) && outputs == [])
      && (plan.Ok? ==> (outcome, outputs) == BatchResult(env, plan.value, Caption(env, sub)))
    ensures sub == "autocrop" && Blank(frame) ==> outcome == Failed(ErrorReply(NoContent), []) && outputs == []
    ensures outcome.Failed? || outcome.Done?
    ensures outcome.Failed? ==> disk.files == (old(disk.files) + Paths(outputs)) - {videoFile}
    ensures outcome.Done? ==>
      && outcome.sent == VideoUploads(outputs, Caption(env, sub))
      && outputs == PathsSent(outcome.sent)
      && disk.files == old(disk.files) - ({videoFile} + Paths(outputs))
  {
    var bounds: Option<Bounds> := None;
    if sub == "autocrop" {
      bounds := NonBlackBounds(frame);
    }
    assert ScanOf(sub, frame, bounds);
    forall b | ScanOf(sub, frame, b)
      ensures b == bounds
    {
      ScanUnique(sub, frame, b, bounds);
    }
    var plan := Plan(sub, c, u, clip, bounds, frame.Length0, frame.Length1);
    assert sub == "autocrop" && Blank(frame) ==> plan == Err(NoContent);
    if plan.Err? {
      disk.RemoveIfExists(videoFile);
      assert ScanOf(sub, frame, bounds);
      assert sub == "autocrop" && Blank(frame) ==> plan.error == NoContent;
      return Failed(ErrorReply(plan.error), []), [];
    }
    outcome, outputs := WriteAndSend(disk, env, videoFile, plan.value, Caption(env, sub));
    assert ScanOf(sub, frame, bounds);
  }

  /**
   * `video_tools`. `clip` is what the media library reports about the download and
   * `frame` the grey levels of its first frame. It returns how the handler ends
   * and `output_files`, the outputs written.
   */
  method VideoToolsHandler(disk: Disk, m: Message, env: Env, clip: Clip, frame: array2<int>)
    returns (outcome: Outcome, outputs: seq<string>)
    modifies disk
    ensures !RepliesToVideo(m) ==> outcome == Refused(NotVideoReply)
    ensures RepliesToVideo(m) && |m.command| < 2 ==> outcome == Refused(NoSubcommand)
    ensures outcome.Refused? <==> !RepliesToVideo(m) || |m.command| < 2
    ensures outcome.Escaped? <==> RepliesToVideo(m) && |m.command| >= 2 && !env.downloadOk
    ensures outcome.Refused? || outcome.Escaped? ==> disk.files == old(disk.files)
    ensures RepliesToVideo(m) && |m.command| >= 2 && env.downloadOk && !env.openOk ==>
      outcome == Failed(ErrorReply(env.error), []) && outputs == []
    ensures outcome.Failed? ==> disk.files == (old(disk.files) + Paths(outputs)) - {InputName(m)}
    ensures outcome.Done? ==>
      && outcome.sent == VideoUploads(outputs, Caption(env, Lower(m.command[1])))
      && outputs == PathsSent(outcome.sent)
      && disk.files == old(disk.files) - ({InputName(m)} + Paths(outputs))
    ensures RepliesToVideo(m) && |m.command| >= 2 && env.downloadOk && env.openOk ==>
      var sub := Lower(m.command[1]);
      && (exists bounds :: ScanOf(sub, frame, bounds))
      && forall bounds :: ScanOf(sub, frame, bounds) ==>
        var plan := Plan(sub, m.command, UserTag(m), clip, bounds, frame.Length0, frame.Length1);
        && (plan.Err? ==> outcome == Failed(ErrorReply(plan.error), []) && outputs == [])
        && (plan.Ok? ==> (outcome, outputs) == BatchResult(env, plan.value, Caption(env, sub)))
    ensures (RepliesToVideo(m) && |m.command| >= 2 && env.downloadOk && env.openOk &&
             Lower(m.command[1]) == "autocrop" && Blank(frame)) ==>
      outcome == Failed(ErrorReply(NoContent), []) && outputs == []
  {
    outputs := [];
    if !RepliesToVideo(m) {
      return Refused(NotVideoReply), outputs;
    }
    if |m.command| < 2 {
      return Refused(NoSubcommand), outputs;
    }
    var sub := Lower(m.command[1]);
    if !env.downloadOk {
      // The `except` block reads `video_file`, which the failed download never bound.
      return Escaped, outputs;
    }
    var videoFile := InputName(m);
    disk.Create(videoFile);
    if !env.openOk {
      disk.RemoveIfExists(videoFile);
      return Failed(ErrorReply(env.error), []), outputs;
    }
    outcome, outputs := RunSubcommand(disk, env, videoFile, sub, m.command, UserTag(m), clip, frame);
  }
}
