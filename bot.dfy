/**
 * What the six command handlers share: the incoming message, the outside world
 * they call into (the chat client, the media libraries), the files they send
 * back, and how a handler ends.
 */
module Bot {
  import opened Wrappers
  import opened Text

  /** An attachment: its file name and the duration the chat reports for it. */
  datatype Media = Media(fileName: string, duration: real)

  /** The message a command replies to, with the attachments it carries. */
  datatype Attachments = Attachments(video: Option<Media>, audio: Option<Media>, document: Option<Media>)

  /**
   * An incoming command: its words (`command[0]` is the command's own name, the
   * arguments follow), the sender's numeric id and the message it replies to.
   */
  datatype Message = Message(command: seq<string>, userId: nat, replyTo: Option<Attachments>)

  predicate RepliesToVideo(m: Message) {
    m.replyTo.Some? && m.replyTo.value.video.Some?
  }

  predicate RepliesToVideoOrAudio(m: Message) {
    m.replyTo.Some? && (m.replyTo.value.video.Some? || m.replyTo.value.audio.Some?)
  }

  /** `message.reply_to_message.video or message.reply_to_message.audio`. */
  function VideoOrAudio(m: Message): (media: Media)
    requires RepliesToVideoOrAudio(m)
    ensures m.replyTo.value.video.Some? ==> media == m.replyTo.value.video.value
    ensures m.replyTo.value.video.None? ==> media == m.replyTo.value.audio.value
  {
    var a := m.replyTo.value;
    if a.video.Some? then a.video.value else a.audio.value
  }

  /** The sender's id as it appears in the per-user file names. */
  function UserTag(m: Message): (u: string)
    ensures IsDigits(u) && DigitsValue(u) == m.userId
  {
    NatToString(m.userId)
  }

  /**
   * The outside world, decided in advance: the bot's own mention; whether the
   * download, the opening of the downloaded file by the media library, the
   * writing of each output path and the upload of each path succeed; the text of
   * the exception the library raises when one of them does not; and the
   * renderings `f"{t:.2f}"` and `str(t)` of a float.
   */
  datatype Env = Env(
    mention: string,
    downloadOk: bool,
    openOk: bool,
    writeOk: string -> bool,
    sendOk: string -> bool,
    error: string,
    fixed2: real -> string,
    floatStr: real -> string)

  /** Which reply call sent a file: `reply_video`, `reply_audio`, `reply_document` or `reply_photo`. */
  datatype Kind = VideoReply | AudioReply | DocumentReply | PhotoReply

  datatype Upload = Upload(kind: Kind, path: string, caption: string)

  /**
   * How a handler ends: an early reply before any download (`Refused`); an
   * exception that leaves the handler (`Escaped`); the error reply of its
   * `except` block after the files in `sent` went out (`Failed`); or success
   * after sending `sent` (`Done`).
   */
  datatype Outcome =
    | Refused(text: string)
    | Escaped
    | Failed(text: string, sent: seq<Upload>)
    | Done(sent: seq<Upload>)

  /** The paths of the files sent, in order. */
  function PathsSent(ups: seq<Upload>): (ps: seq<string>)
    ensures |ps| == |ups|
    ensures forall k :: 0 <= k < |ups| ==> ps[k] == ups[k].path
  {
    seq(|ups|, k requires 0 <= k < |ups| => ups[k].path)
  }

  /**
   * Where a run over `ps` stops: the index of the first path that `ok` refuses,
   * or `|ps|` when it refuses none.
   */
  function FirstRefused(ps: seq<string>, ok: string -> bool): (i: nat)
    ensures i <= |ps|
    ensures forall k :: 0 <= k < i ==> ok(ps[k])
    ensures i < |ps| ==> !ok(ps[i])
  {
    if |ps| == 0 || !ok(ps[0]) then 0 else 1 + FirstRefused(ps[1..], ok)
  }

  /**
   * Numbered names differ when their numbers do: the decimal rendering is
   * injective and the prefix and suffix around it are shared.
   */
  lemma NumberedInjective(pre: string, suf: string, j: nat, k: nat)
    requires pre + NatToString(j) + suf == pre + NatToString(k) + suf
    ensures j == k
  {
    var a, b := pre + NatToString(j) + suf, pre + NatToString(k) + suf;
    assert |NatToString(j)| == |NatToString(k)|;
    assert a[|pre|..|a| - |suf|] == NatToString(j);
    assert b[|pre|..|b| - |suf|] == NatToString(k);
    NatToStringInjective(j, k);
  }
}
