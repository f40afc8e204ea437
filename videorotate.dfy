/**
 * The `/rotasi [angle]` handler: rotate the video the command replies to by a
 * number of degrees, send the result back and clean up.
 */
module VideoRotate {
  import opened Wrappers
  import opened Text
  import opened Bot
  import opened Files

  const NotVideoReply := "Please reply to a video file to rotate."
  const NoAngle := "Please specify a valid rotation angle in degrees (e.g., /rotasi 90)."

  /** `tok.lstrip('-').isdigit()`: what the handler accepts as an angle. */
  predicate AngleAccepted(tok: string) {
    IsDigits(LStripChar(tok, '-'))
  }

  /** How many dashes the token starts with. */
  function Dashes(tok: string): (n: nat)
    ensures n <= |tok|
  {
    |tok| - |LStripChar(tok, '-')|
  }

  /**
   * A token is accepted exactly when it is some run of dashes followed by a
   * non-empty string of digits, so "45.5" and "+90" are turned away although the
   * help text promises any number.
   */
  lemma AngleAcceptedIff(tok: string)
    ensures AngleAccepted(tok) <==>
      && Dashes(tok) < |tok|
      && (forall i :: 0 <= i < Dashes(tok) ==> tok[i] == '-')
      && IsDigits(tok[Dashes(tok)..])
  {
    var r := LStripChar(tok, '-');
    assert r == tok[Dashes(tok)..];
  }

  /** Examples of the check: a fractional angle and a plus sign fail, a doubled minus passes. */
  lemma AngleExamples()
    ensures !AngleAccepted("45.5")
    ensures !AngleAccepted("+90")
    ensures AngleAccepted("90") && AngleAccepted("-90") && AngleAccepted("--90")
  {
    assert LStripChar("45.5", '-') == "45.5";
    assert !IsDigit("45.5"[2]);
    assert LStripChar("+90", '-') == "+90";
    assert !IsDigit("+90"[0]);
    assert LStripChar("90", '-') == "90";
    assert "-90"[1..] == "90";
    assert LStripChar("-90", '-') == "90";
    assert "--90"[1..] == "-90";
    assert LStripChar("--90", '-') == "90";
    assert IsDigit("90"[0]) && IsDigit("90"[1]);
  }

  /** A token that starts with a dash and holds no point is no unsigned decimal. */
  lemma DashedNotDecimal(rest: string)
    requires |rest| > 0 && rest[0] == '-'
    requires forall k :: 0 <= k < |rest| ==> rest[k] != '.'
    ensures ParseUnsignedDecimal(rest) == None
  {
    assert !IsDigits(rest);
    assert '.' !in rest;
    CharContains(rest, '.');
    assert Find(rest, ['.']) < 0;
  }

  /**
   * `float(tok)` on an accepted token: with no dash the digits' value, with one
   * dash its negation, and with two dashes or more a ValueError (no value).
   */
  lemma AngleValue(tok: string)
    requires AngleAccepted(tok)
    ensures Dashes(tok) == 0 ==> ParseFloat(tok) == Some(DigitsValue(tok) as real)
    ensures Dashes(tok) == 1 ==> ParseFloat(tok) == Some(-(DigitsValue(tok[1..]) as real))
    ensures Dashes(tok) >= 2 ==> ParseFloat(tok) == None
  {
    var r := LStripChar(tok, '-');
    var d := Dashes(tok);
    assert r == tok[d..];
    if d >= 2 {
      var rest := tok[1..];
      forall k | 0 <= k < |rest|
        ensures rest[k] != '.'
      {
        assert rest[k] == tok[k + 1];
        if k + 1 >= d {
          assert tok[k + 1] == r[k + 1 - d];
        }
      }
      DashedNotDecimal(rest);
    } else if d == 1 {
      assert tok[1..] == r;
    }
  }

  /** An accepted token converts to a float exactly when it has at most one dash. */
  lemma AngleParses(tok: string)
    requires AngleAccepted(tok)
    ensures ParseFloat(tok).Some? <==> Dashes(tok) < 2
  {
    AngleValue(tok);
  }

  function InputName(m: Message): string { "input_" + UserTag(m) + ".mp4" }
  function OutputName(m: Message): string { "rotated_" + UserTag(m) + ".mp4" }

  function Caption(env: Env, angle: real): string {
    "<b>Rotated By:</b> " + env.mention + " (Angle: " + env.floatStr(angle) + "°)"
  }

  function ErrorReply(e: string): string {
    "Error rotating video: " + e
  }

  /**
   * The part of `rotate_video` after the download: open, rotate, write, send,
   * then remove both files; on an error only the input is removed.
   */
  method RotateAndSend(disk: Disk, env: Env, videoFile: string, outputFile: string, angle: real)
      returns (outcome: Outcome)
    requires videoFile in disk.files
    modifies disk
    ensures outcome.Failed? || outcome.Done?
    ensures outcome.Failed? ==>
      && outcome == Failed(ErrorReply(env.error), [])
      && (if env.openOk && env.writeOk(outputFile)
          then disk.files == old(disk.files) + {outputFile} - {videoFile}
          else disk.files == old(disk.files) - {videoFile})
    ensures outcome.Done? <==> env.openOk && env.writeOk(outputFile) && env.sendOk(outputFile)
    ensures outcome.Done? ==>
      && outcome.sent == [Upload(VideoReply, outputFile, Caption(env, angle))]
      && disk.files == old(disk.files) - {videoFile, outputFile}
  {
    if !env.openOk || !env.writeOk(outputFile) {
      disk.RemoveIfExists(videoFile);
      return Failed(ErrorReply(env.error), []);
    }
    disk.Create(outputFile);
    if !env.sendOk(outputFile) {
      disk.RemoveIfExists(videoFile);
      return Failed(ErrorReply(env.error), []);
    }
    disk.RemoveEach([videoFile, outputFile]);
    assert Paths([videoFile, outputFile]) == {videoFile, outputFile};
    return Done([Upload(VideoReply, outputFile, Caption(env, angle))]);
  }

  /** `rotate_video`. It returns how the handler ends. */
  method RotateVideo(disk: Disk, m: Message, env: Env) returns (outcome: Outcome)
    modifies disk
    ensures !RepliesToVideo(m) ==> outcome == Refused(NotVideoReply)
    ensures RepliesToVideo(m) && (|m.command| < 2 || !AngleAccepted(m.command[1])) ==> outcome == Refused(NoAngle)
    ensures outcome.Refused? <==> !RepliesToVideo(m) || |m.command| < 2 || !AngleAccepted(m.command[1])
    ensures outcome.Refused? || outcome.Escaped? ==> disk.files == old(disk.files)
    ensures RepliesToVideo(m) && |m.command| >= 2 && AngleAccepted(m.command[1]) ==>
      (outcome.Escaped? <==> Dashes(m.command[1]) >= 2 || !env.downloadOk)
    ensures outcome.Failed? ==>
      && outcome == Failed(ErrorReply(env.error), [])
      && (if env.openOk && env.writeOk(OutputName(m))
          then disk.files == old(disk.files) + {OutputName(m)} - {InputName(m)}
          else disk.files == old(disk.files) - {InputName(m)})
    ensures outcome.Done? <==>
      && RepliesToVideo(m) && |m.command| >= 2 && AngleAccepted(m.command[1]) && Dashes(m.command[1]) < 2
      && env.downloadOk && env.openOk && env.writeOk(OutputName(m)) && env.sendOk(OutputName(m))
    ensures outcome.Done? ==>
      && outcome.sent == [Upload(VideoReply, OutputName(m), Caption(env, ParseFloat(m.command[1]).value))]
      && disk.files == old(disk.files) - {InputName(m), OutputName(m)}
  {
    if !RepliesToVideo(m) {
      return Refused(NotVideoReply);
    }
    if |m.command| < 2 || !AngleAccepted(m.command[1]) {
      return Refused(NoAngle);
    }
    var tok := m.command[1];
    AngleParses(tok);
    var angle := ParseFloat(tok);
    if angle.None? {
      // `float(...)` raises before the `try` begins.
      return Escaped;
    }
    if !env.downloadOk {
      // The `except` block reads `video_file`, which the failed download never bound.
      return Escaped;
    }
    var videoFile := InputName(m);
    disk.Create(videoFile);
    outcome := RotateAndSend(disk, env, videoFile, OutputName(m), angle.value);
  }
}
