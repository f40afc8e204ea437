/**
 * The `/convert [format]` handler: convert the video or audio the command
 * replies to into an MP4 video or an MP3 audio, send it back and clean up.
 */
module ConvertMedia {
  import opened Wrappers
  import opened Text
  import opened Bot
  import opened Files

  const NotMediaReply := "Please reply to a video or audio file to convert."
  const NoFormat := "Please specify a valid format: mp4 or mp3 (e.g., /convert mp4)."
  const Mp4Caption := "<b>Converted to MP4 By:</b> "
  const Mp3Caption := "<b>Converted to MP3 By:</b> "
  const ErrorPrefix := "Error converting media: "

  /** The frame rate an audio track is given when it is turned into a video. */
  const AudioFps := 24

  /** The target format: `command[1].lower()` when that is "mp4" or "mp3". */
  function TargetFormat(c: seq<string>): (r: Option<string>)
    ensures r.Some? <==> |c| >= 2 && (Lower(c[1]) == "mp4" || Lower(c[1]) == "mp3")
    ensures r.Some? ==> r.value == Lower(c[1])
  {
    if |c| < 2 then None
    else
      var f := Lower(c[1]);
      if f == "mp4" || f == "mp3" then Some(f) else None
  }

  /** Any spelling of the format with the same lower case is treated alike, so "MP4" converts to MP4. */
  lemma TargetFormatExamples()
    ensures TargetFormat(["convert", "MP4"]) == Some("mp4")
    ensures TargetFormat(["convert", "Mp3"]) == Some("mp3")
    ensures TargetFormat(["convert", "mkv"]) == None
    ensures TargetFormat(["convert"]) == None
  {
    assert Lower("MP4") == "mp4";
    assert Lower("Mp3") == "mp3";
    assert Lower("mkv")[1] == 'k';
  }

  /**
   * What the media library is asked to do: re-encode a video, give an audio
   * track a video stream at `fps` frames per second for `duration` seconds, or
   * extract the audio.
   */
  datatype Conversion = VideoToVideo | AudioToVideo(fps: nat, duration: real) | ToAudio

  /**
   * The conversion for a target format and an attachment that is a video or
   * not. For MP3 both arms of the source's conditional open the file as audio,
   * so being a video makes no difference.
   */
  function ConversionFor(fmt: string, hasVideo: bool, duration: real): (r: Conversion)
    requires fmt == "mp4" || fmt == "mp3"
    ensures fmt == "mp3" <==> r == ToAudio
    ensures fmt == "mp4" ==> (r.VideoToVideo? <==> hasVideo)
    ensures r.AudioToVideo? ==> r == AudioToVideo(AudioFps, duration) && !hasVideo
  {
    if fmt == "mp4" then
      if hasVideo then VideoToVideo else AudioToVideo(AudioFps, duration)
    else ToAudio
  }

  /** The download keeps the attachment's extension: the text after its last dot. */
  function InputName(m: Message): string
    requires RepliesToVideoOrAudio(m)
  {
    "input_" + UserTag(m) + "." + LastSegment(VideoOrAudio(m).fileName, '.')
  }

  function OutputName(m: Message, fmt: string): string {
    "converted_" + UserTag(m) + "." + fmt
  }

  /**
   * The download and the converted file never share a path; the download keeps
   * the attachment's extension and the converted file carries the target format's.
   */
  lemma NamesOfConversion(m: Message, fmt: string)
    requires RepliesToVideoOrAudio(m)
    requires fmt == "mp4" || fmt == "mp3"
    ensures InputName(m) != OutputName(m, fmt)
    ensures LastSegment(InputName(m), '.') == LastSegment(VideoOrAudio(m).fileName, '.')
    ensures LastSegment(OutputName(m, fmt), '.') == fmt
  {
    assert InputName(m)[0] != OutputName(m, fmt)[0];
    LastSegmentOfSuffix("input_" + UserTag(m), '.', LastSegment(VideoOrAudio(m).fileName, '.'));
    assert '.' !in fmt by {
      assert fmt[0] == 'm' && fmt[1] == 'p';
    }
    LastSegmentOfSuffix("converted_" + UserTag(m), '.', fmt);
  }

  /** The file sent back: a video for MP4, an audio for MP3. */
  function Delivery(env: Env, fmt: string, outputFile: string): (u: Upload)
    requires fmt == "mp4" || fmt == "mp3"
    ensures u.path == outputFile
    ensures u.kind == VideoReply <==> fmt == "mp4"
    ensures u.kind == AudioReply <==> fmt == "mp3"
  {
    if fmt == "mp4" then Upload(VideoReply, outputFile, Mp4Caption + env.mention)
    else Upload(AudioReply, outputFile, Mp3Caption + env.mention)
  }

  function ErrorReply(e: string): string {
    ErrorPrefix + e
  }

  /**
   * The part of `convert_media` after the download: open, convert, write, send,
   * then remove both files; on an error only the download is removed.
   */
  method ConvertAndSend(disk: Disk, env: Env, inputFile: string, outputFile: string, fmt: string)
      returns (outcome: Outcome)
    requires fmt == "mp4" || fmt == "mp3"
    requires inputFile in disk.files
    modifies disk
    ensures outcome.Failed? || outcome.Done?
    ensures outcome.Failed? ==>
      && outcome == Failed(ErrorReply(env.error), [])
      && (if env.openOk && env.writeOk(outputFile)
          then disk.files == old(disk.files) + {outputFile} - {inputFile}
          else disk.files == old(disk.files) - {inputFile})
    ensures outcome.Done? <==> env.openOk && env.writeOk(outputFile) && env.sendOk(outputFile)
    ensures outcome.Done? ==>
      && outcome.sent == [Delivery(env, fmt, outputFile)]
      && disk.files == old(disk.files) - {inputFile, outputFile}
  {
    if !env.openOk || !env.writeOk(outputFile) {
      disk.RemoveIfExists(inputFile);
      return Failed(ErrorReply(env.error), []);
    }
    disk.Create(outputFile);
    if !env.sendOk(outputFile) {
      disk.RemoveIfExists(inputFile);
      return Failed(ErrorReply(env.error), []);
    }
    disk.RemoveEach([inputFile, outputFile]);
    assert Paths([inputFile, outputFile]) == {inputFile, outputFile};
    return Done([Delivery(env, fmt, outputFile)]);
  }

  /**
   * `convert_media`. `hasVideo` is what `media.video` gives for the chosen
   * attachment. It returns how the handler ends and, once the file is
   * downloaded, the conversion asked of the media library.
   */
  method ConvertMediaHandler(disk: Disk, m: Message, env: Env, hasVideo: bool)
      returns (outcome: Outcome, conversion: Option<Conversion>)
    modifies disk
    ensures !RepliesToVideoOrAudio(m) ==> outcome == Refused(NotMediaReply)
    ensures RepliesToVideoOrAudio(m) && TargetFormat(m.command).None? ==> outcome == Refused(NoFormat)
    ensures outcome.Refused? <==> !RepliesToVideoOrAudio(m) || TargetFormat(m.command).None?
    ensures outcome.Escaped? <==> RepliesToVideoOrAudio(m) && TargetFormat(m.command).Some? && !env.downloadOk
    ensures outcome.Refused? || outcome.Escaped? ==> disk.files == old(disk.files) && conversion.None?
    ensures outcome.Failed? || outcome.Done? ==>
      && RepliesToVideoOrAudio(m) && TargetFormat(m.command).Some?
      && conversion == Some(ConversionFor(TargetFormat(m.command).value, hasVideo, VideoOrAudio(m).duration))
    ensures outcome.Failed? ==>
      && outcome == Failed(ErrorReply(env.error), [])
      && var out := OutputName(m, TargetFormat(m.command).value);
         if env.openOk && env.writeOk(out)
         then disk.files == old(disk.files) + {out} - {InputName(m)}
         else disk.files == old(disk.files) - {InputName(m)}
    ensures outcome.Done? <==>
      && RepliesToVideoOrAudio(m) && TargetFormat(m.command).Some? && env.downloadOk
      && env.openOk
      && env.writeOk(OutputName(m, TargetFormat(m.command).value))
      && env.sendOk(OutputName(m, TargetFormat(m.command).value))
    ensures outcome.Done? ==>
      var fmt := TargetFormat(m.command).value;
      && env.openOk && env.writeOk(OutputName(m, fmt)) && env.sendOk(OutputName(m, fmt))
      && outcome.sent == [Delivery(env, fmt, OutputName(m, fmt))]
      && disk.files == old(disk.files) - {InputName(m), OutputName(m, fmt)}
  {
    conversion := None;
    if !RepliesToVideoOrAudio(m) {
      return Refused(NotMediaReply), conversion;
    }
    var target := TargetFormat(m.command);
    if target.None? {
      return Refused(NoFormat), conversion;
    }
    if !env.downloadOk {
      // The `except` block reads `input_file`, which the failed download never bound.
      return Escaped, conversion;
    }
    var media := VideoOrAudio(m);
    var inputFile, outputFile := InputName(m), OutputName(m, target.value);
    disk.Create(inputFile);
    conversion := Some(ConversionFor(target.value, hasVideo, media.duration));
    outcome := ConvertAndSend(disk, env, inputFile, outputFile, target.value);
  }
}
