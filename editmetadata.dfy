/**
 * The `/metadata [json]` handler: decode a JSON object from the command, copy
 * the audio or video the command replies to, write the object's entries into
 * the copy's tags and send it back.
 */
module EditMetadata {
  import opened Wrappers
  import opened Text
  import opened Bot
  import opened Files

  const NotMediaReply := "Please reply to a video or audio file to edit metadata."
  const NoPayload := "Please provide metadata as a JSON string (e.g., /metadata {\"title\": \"New Title\"})."
  const BadJson := "Invalid JSON format. Please provide valid JSON (e.g., {\"title\": \"New Title\"})."

  /**
   * The payload as `json.loads` leaves it: an object, with its items in order and
   * each value already rendered by `str`; some other JSON value; or text that is
   * not JSON at all.
   */
  datatype Payload = Object(items: seq<(string, string)>) | NotObject | Malformed

  /** The MP4 atom names of the six friendly field names. */
  const Mp4Tags: map<string, string> := map[
    "title" := "\U{a9}nam",
    "artist" := "\U{a9}ART",
    "album" := "\U{a9}alb",
    "year" := "\U{a9}day",
    "genre" := "\U{a9}gen",
    "comment" := "\U{a9}cmt"]

  /** `mp4_tags.get(key, key)`: the atom name of a friendly name, any other key as it is. */
  function Mp4Key(key: string): (tag: string)
    ensures key in Mp4Tags ==> tag == Mp4Tags[key]
    ensures key !in Mp4Tags ==> tag == key
  {
    if key in Mp4Tags then Mp4Tags[key] else key
  }

  /** The two tag families the handler can write. */
  datatype Format = Mp4 | Mp3

  /** The file's extension: the text after its last dot, the whole name when it has none. */
  function Extension(fileName: string): string {
    LastSegment(fileName, '.')
  }

  function Unsupported(ext: string): string {
    "Unsupported file format: " + ext + ". Supported formats: mp4, mp3."
  }

  /** Dispatch on the lower-cased extension: the MP4 family, MP3, or an error naming it. */
  function FormatOf(fileName: string): (r: Result<Format, string>)
    ensures r == Ok(Mp4) <==> Lower(Extension(fileName)) in {"mp4", "m4a", "m4v"}
    ensures r == Ok(Mp3) <==> Lower(Extension(fileName)) == "mp3"
    ensures r.Err? ==> r.error == Unsupported(Lower(Extension(fileName)))
  {
    var ext := Lower(Extension(fileName));
    if ext in {"mp4", "m4a", "m4v"} then Ok(Mp4)
    else if ext == "mp3" then Ok(Mp3)
    else Err(Unsupported(ext))
  }

  /** The tag a payload key is written to in a format. */
  function TagKey(f: Format, key: string): string {
    match f
    case Mp4 => Mp4Key(key)
    case Mp3 => key
  }

  /** The writes the loop performs, in payload order. */
  function Writes(f: Format, items: seq<(string, string)>): (ws: seq<(string, string)>)
    ensures |ws| == |items|
    ensures forall k :: 0 <= k < |items| ==> ws[k] == (TagKey(f, items[k].0), items[k].1)
  {
    seq(|items|, k requires 0 <= k < |items| => (TagKey(f, items[k].0), items[k].1))
  }

  /** The tags after the writes `ws`, made one after another. */
  function ApplyWrites(tags: map<string, string>, ws: seq<(string, string)>): map<string, string> {
    if ws == [] then tags
    else
      var n := |ws| - 1;
      ApplyWrites(tags, ws[..n])[ws[n].0 := ws[n].1]
  }

  /** The write to a tag that no later write touches is the one that stays. */
  lemma {:induction false} LastWriteWins(tags: map<string, string>, ws: seq<(string, string)>, i: nat)
    requires i < |ws|
    requires forall j :: i < j < |ws| ==> ws[j].0 != ws[i].0
    ensures ws[i].0 in ApplyWrites(tags, ws)
    ensures ApplyWrites(tags, ws)[ws[i].0] == ws[i].1
    decreases |ws|
  {
    var n := |ws| - 1;
    if i < n {
      var init := ws[..n];
      assert forall j :: i < j < |init| ==> init[j] == ws[j];
      LastWriteWins(tags, init, i);
    }
  }

  /** A tag no write names keeps its value, or stays absent. */
  lemma {:induction false} UntouchedTags(tags: map<string, string>, ws: seq<(string, string)>, key: string)
    requires forall j :: 0 <= j < |ws| ==> ws[j].0 != key
    ensures key in ApplyWrites(tags, ws) <==> key in tags
    ensures key in tags ==> ApplyWrites(tags, ws)[key] == tags[key]
    decreases |ws|
  {
    if ws != [] {
      var n := |ws| - 1;
      assert forall j :: 0 <= j < n ==> ws[..n][j] == ws[j];
      UntouchedTags(tags, ws[..n], key);
    }
  }

  /**
   * `title` and `\xa9nam` land on the same MP4 atom, so when both are in the
   * payload the later one decides what the title holds.
   */
  lemma AliasOverwrites(tags: map<string, string>, v1: string, v2: string)
    ensures ApplyWrites(tags, Writes(Mp4, [("title", v1), ("\U{a9}nam", v2)]))["\U{a9}nam"] == v2
    ensures ApplyWrites(tags, Writes(Mp4, [("\U{a9}nam", v1), ("title", v2)]))["\U{a9}nam"] == v2
  {
    var ws1 := Writes(Mp4, [("title", v1), ("\U{a9}nam", v2)]);
    var ws2 := Writes(Mp4, [("\U{a9}nam", v1), ("title", v2)]);
    assert ws1[1] == ("\U{a9}nam", v2);
    assert ws2[1] == ("\U{a9}nam", v2);
    LastWriteWins(tags, ws1, 1);
    LastWriteWins(tags, ws2, 1);
  }

  /** The tag store of the opened copy: `mp4_file[...] = ...` and `mp3_file[...] = ...`. */
  class TagFile {
    var tags: map<string, string>

    constructor (initial: map<string, string>)
      ensures tags == initial
    {
      tags := initial;
    }

    method Set(key: string, value: string)
      modifies this
      ensures tags == old(tags)[key := value]
    {
      tags := tags[key := value];
    }

    /** `audio[key] = value` for every payload item, in order, under the format's key. */
    method SetEach(f: Format, items: seq<(string, string)>)
      modifies this
      ensures tags == ApplyWrites(old(tags), Writes(f, items))
    {
      for i := 0 to |items|
        invariant tags == ApplyWrites(old(tags), Writes(f, items[..i]))
      {
        var (key, value) := items[i];
        Set(TagKey(f, key), value);
        assert Writes(f, items[..i + 1]) == Writes(f, items[..i]) + [(TagKey(f, key), value)];
      }
      assert items[..|items|] == items;
    }
  }

  /** The payload keys, in order. */
  function Keys(items: seq<(string, string)>): (ks: seq<string>)
    ensures |ks| == |items|
    ensures forall k :: 0 <= k < |items| ==> ks[k] == items[k].0
  {
    seq(|items|, k requires 0 <= k < |items| => items[k].0)
  }

  /** The caption: the bot's mention and the payload keys, in order, joined by ", ". */
  function Caption(env: Env, items: seq<(string, string)>): string {
    "<b>Metadata Updated By:</b> " + env.mention + "\n<b>Updated Fields:</b> " + Join(Keys(items), ", ")
  }

  function InputName(m: Message): string
    requires RepliesToVideoOrAudio(m)
  {
    "input_" + UserTag(m) + "." + Extension(VideoOrAudio(m).fileName)
  }

  function OutputName(m: Message): string
    requires RepliesToVideoOrAudio(m)
  {
    "output_" + UserTag(m) + "." + Extension(VideoOrAudio(m).fileName)
  }

  /** The download and its tagged copy never share a path, and both keep the file's extension. */
  lemma NamesOfCopy(m: Message)
    requires RepliesToVideoOrAudio(m)
    ensures InputName(m) != OutputName(m)
    ensures Extension(InputName(m)) == Extension(VideoOrAudio(m).fileName)
    ensures Extension(OutputName(m)) == Extension(VideoOrAudio(m).fileName)
  {
    assert InputName(m)[0] != OutputName(m)[0];
    var ext := Extension(VideoOrAudio(m).fileName);
    LastSegmentOfSuffix("input_" + UserTag(m), '.', ext);
    LastSegmentOfSuffix("output_" + UserTag(m), '.', ext);
  }

  function ErrorReply(e: string): string {
    "Error updating metadata: " + e
  }

  /**
   * The part of `edit_metadata` after the copy: write every payload item into
   * the copy's tags in order, save the copy, send it and remove both files; on an
   * error the `except` block removes both files too.
   */
  method TagAndSend(disk: Disk, env: Env, file: TagFile, inputFile: string, outputFile: string,
                    f: Format, items: seq<(string, string)>, kind: Kind, caption: string)
    returns (outcome: Outcome)
    modifies disk, file
    ensures outcome.Failed? || outcome.Done?
    ensures disk.files == old(disk.files) - {inputFile, outputFile}
    ensures !env.openOk ==> outcome == Failed(ErrorReply(env.error), []) && file.tags == old(file.tags)
    ensures outcome.Failed? ==> outcome == Failed(ErrorReply(env.error), [])
    ensures outcome.Done? <==> env.openOk && env.writeOk(outputFile) && env.sendOk(outputFile)
    ensures outcome.Done? ==>
      && file.tags == ApplyWrites(old(file.tags), Writes(f, items))
      && outcome.sent == [Upload(kind, outputFile, caption)]
  {
    if !env.openOk {
      disk.RemoveIfExists(inputFile);
      disk.RemoveIfExists(outputFile);
      return Failed(ErrorReply(env.error), []);
    }
    file.SetEach(f, items);
    if !env.writeOk(outputFile) || !env.sendOk(outputFile) {
      disk.RemoveIfExists(inputFile);
      disk.RemoveIfExists(outputFile);
      return Failed(ErrorReply(env.error), []);
    }
    disk.RemoveEach([inputFile, outputFile]);
    assert Paths([inputFile, outputFile]) == {inputFile, outputFile};
    return Done([Upload(kind, outputFile, caption)]);
  }

  /**
   * `edit_metadata`. `decode` is `json.loads`, `hasVideo` whether the
   * attachment counts as a video when the copy is sent, and `file` the tag store
   * of the copy. It returns how the handler ends.
   */
  method EditMetadataHandler(disk: Disk, m: Message, env: Env, decode: string -> Payload, hasVideo: bool, file: TagFile)
    returns (outcome: Outcome)
    modifies disk, file
    ensures !RepliesToVideoOrAudio(m) ==> outcome == Refused(NotMediaReply)
    ensures RepliesToVideoOrAudio(m) && |m.command| < 2 ==> outcome == Refused(NoPayload)
    ensures RepliesToVideoOrAudio(m) && |m.command| >= 2 ==>
      && (decode(Join(m.command[1..], " ")).Malformed? ==> outcome == Refused(BadJson))
      && (decode(Join(m.command[1..], " ")).NotObject? ==> outcome == Escaped)
      && (decode(Join(m.command[1..], " ")).Object? && !env.downloadOk ==> outcome == Escaped)
    ensures outcome.Refused? <==>
      !RepliesToVideoOrAudio(m) || |m.command| < 2 || decode(Join(m.command[1..], " ")).Malformed?
    ensures outcome.Escaped? <==>
      && RepliesToVideoOrAudio(m) && |m.command| >= 2
      && (decode(Join(m.command[1..], " ")).NotObject? || (decode(Join(m.command[1..], " ")).Object? && !env.downloadOk))
    ensures outcome.Done? <==>
      && RepliesToVideoOrAudio(m) && |m.command| >= 2
      && decode(Join(m.command[1..], " ")).Object? && env.downloadOk
      && FormatOf(VideoOrAudio(m).fileName).Ok?
      && env.openOk && env.writeOk(OutputName(m)) && env.sendOk(OutputName(m))
    ensures outcome.Refused? || outcome.Escaped? ==> disk.files == old(disk.files) && file.tags == old(file.tags)
    ensures outcome.Failed? || outcome.Done? ==>
      && decode(Join(m.command[1..], " ")).Object?
      && disk.files == old(disk.files) - {InputName(m), OutputName(m)}
    ensures outcome.Failed? && FormatOf(VideoOrAudio(m).fileName).Ok? ==> outcome == Failed(ErrorReply(env.error), [])
    ensures outcome.Failed? && FormatOf(VideoOrAudio(m).fileName).Err? ==>
      outcome == Failed(ErrorReply(FormatOf(VideoOrAudio(m).fileName).error), []) && file.tags == old(file.tags)
    ensures outcome.Done? ==>
      var items := decode(Join(m.command[1..], " ")).items;
      var format := FormatOf(VideoOrAudio(m).fileName);
      && format.Ok?
      && file.tags == ApplyWrites(old(file.tags), Writes(format.value, items))
      && outcome.sent == [Upload(if hasVideo then VideoReply else AudioReply, OutputName(m), Caption(env, items))]
  {
    if !RepliesToVideoOrAudio(m) {
      return Refused(NotMediaReply);
    }
    if |m.command| < 2 {
      return Refused(NoPayload);
    }
    var payload := decode(Join(m.command[1..], " "));
    if payload.Malformed? {
      return Refused(BadJson);
    }
    if payload.NotObject? {
      // The ValueError is raised where only JSONDecodeError is caught.
      return Escaped;
    }
    var items := payload.items;
    var inputFile, outputFile := InputName(m), OutputName(m);
    if !env.downloadOk {
      // The `except` block reads `input_file`, which the failed download never bound.
      return Escaped;
    }
    disk.Create(inputFile);
    disk.Create(outputFile);  // `cp input output`
    var format := FormatOf(VideoOrAudio(m).fileName);
    if format.Err? {
      disk.RemoveIfExists(inputFile);
      disk.RemoveIfExists(outputFile);
      return Failed(ErrorReply(format.error), []);
    }
    outcome := TagAndSend(disk, env, file, inputFile, outputFile, format.value, items,
      if hasVideo then VideoReply else AudioReply, Caption(env, items));
  }
}
