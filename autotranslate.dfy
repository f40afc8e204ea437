/**
 * The `/autotrans [language]` handler: it reads the `.srt` document the command
 * replies to, translates the text of every block and sends the translated file
 * back.
 */
module AutoTranslate {
  import opened Wrappers
  import opened Text
  import opened Srt
  import opened Bot
  import opened Files

  /** The text a block gets when the translator returns nothing. */
  const Placeholder := "[Translation failed]"

  /** The target language: the first argument, or English when there is none. */
  function LangCode(command: seq<string>): (lang: string)
    ensures |command| > 1 ==> lang == command[1]
    ensures |command| <= 1 ==> lang == "en"
  {
    if |command| > 1 then command[1] else "en"
  }

  /** A translation result, with the placeholder standing in for an empty one. */
  function TranslatedText(result: string): (t: string)
    ensures t != []
    ensures result != [] ==> t == result
    ensures result == [] ==> t == Placeholder
  {
    if result == [] then Placeholder else result
  }

  /** The translation pass: each block with its text translated, index and timing kept. */
  function Translation(blocks: seq<Block>, lang: string, translate: (string, string) -> string): (out: seq<Block>)
  {
    seq(|blocks|, k requires 0 <= k < |blocks| =>
      Block(blocks[k].index, blocks[k].timing, TranslatedText(translate(lang, blocks[k].text))))
  }

  /** The texts of the blocks, in order: what the translator is asked. */
  function Texts(blocks: seq<Block>): (ts: seq<string>)
    ensures |ts| == |blocks|
    ensures forall k :: 0 <= k < |blocks| ==> ts[k] == blocks[k].text
  {
    seq(|blocks|, k requires 0 <= k < |blocks| => blocks[k].text)
  }

  /**
   * One block out per block in, in the same order, with its index and timing
   * copied and a text that is the translator's answer or the placeholder, and
   * never empty.
   */
  lemma TranslationKeepsBlocks(blocks: seq<Block>, lang: string, translate: (string, string) -> string)
    ensures var out := Translation(blocks, lang, translate);
      && |out| == |blocks|
      && forall k :: 0 <= k < |blocks| ==>
        && out[k].index == blocks[k].index
        && out[k].timing == blocks[k].timing
        && out[k].text != []
        && (translate(lang, blocks[k].text) != [] ==> out[k].text == translate(lang, blocks[k].text))
        && (translate(lang, blocks[k].text) == [] ==> out[k].text == Placeholder)
  {
    var out := Translation(blocks, lang, translate);
    forall k | 0 <= k < |blocks|
      ensures out[k] == Block(blocks[k].index, blocks[k].timing, TranslatedText(translate(lang, blocks[k].text)))
    {
    }
  }

  /**
   * The loop of the handler that calls the translator once per block and appends
   * the translated block; `asked` lists the texts it was called with.
   */
  method TranslateBlocks(blocks: seq<Block>, lang: string, translate: (string, string) -> string)
    returns (out: seq<Block>, asked: seq<string>)
    ensures out == Translation(blocks, lang, translate)
    ensures asked == Texts(blocks)
  {
    out, asked := [], [];
    for i := 0 to |blocks|
      invariant out == Translation(blocks[..i], lang, translate)
      invariant asked == Texts(blocks[..i])
    {
      var b := blocks[i];
      asked := asked + [b.text];
      var translated := translate(lang, b.text);
      if translated == [] {
        translated := Placeholder;
      }
      out := out + [Block(b.index, b.timing, translated)];
    }
    assert blocks[..|blocks|] == blocks;
  }

  /**
   * When every translation is itself a well-formed block text (and the last one
   * does not end in whitespace), reading the written file back gives exactly the
   * translated blocks.
   */
  lemma TranslatedFileReadsBack(blocks: seq<Block>, lang: string, translate: (string, string) -> string)
    requires WellFormedFile(Translation(blocks, lang, translate))
    ensures SrtBlocks(SrtText(Translation(blocks, lang, translate))) == Translation(blocks, lang, translate)
  {
    RoundTrip(Translation(blocks, lang, translate));
  }

  function InputName(m: Message): string {
    "input_" + UserTag(m) + ".srt"
  }

  function OutputName(m: Message): string {
    "translated_" + UserTag(m) + ".srt"
  }

  /** The download and the translated file never share a path. */
  lemma NamesDiffer(m: Message)
    ensures InputName(m) != OutputName(m)
  {
    assert InputName(m)[0] != OutputName(m)[0];
  }

  predicate RepliesToSrt(m: Message) {
    m.replyTo.Some? && m.replyTo.value.document.Some? && EndsWith(m.replyTo.value.document.value.fileName, ".srt")
  }

  const NotSrtReply := "Please reply to an .srt subtitle file to translate."
  const EmptySrtError := "Invalid or empty SRT file."

  function Caption(env: Env, lang: string): string {
    "<b>Translated Subtitles By:</b> " + env.mention + " (Language: " + lang + ")"
  }

  function ErrorReply(e: string): string {
    "Error translating subtitles: " + e
  }

  /**
   * The part of `translate_subtitle` after the download: the check for an empty
   * parse, the translation loop, writing the translated file, sending it and
   * the cleanup on success. The `except` block only replies: nothing is removed.
   */
  method TranslateAndSend(disk: Disk, m: Message, env: Env, parsed: seq<Block>, translate: (string, string) -> string)
    returns (outcome: Outcome, asked: seq<string>, written: string)
    modifies disk
    ensures parsed == [] ==>
      outcome == Failed(ErrorReply(EmptySrtError), []) && asked == [] && disk.files == old(disk.files)
    ensures outcome.Failed? && parsed != [] ==> outcome == Failed(ErrorReply(env.error), [])
    ensures outcome.Failed? ==>
      disk.files == old(disk.files) + (if parsed != [] && env.writeOk(OutputName(m)) then {OutputName(m)} else {})
    ensures outcome.Done? <==> parsed != [] && env.writeOk(OutputName(m)) && env.sendOk(OutputName(m))
    ensures outcome.Failed? || outcome.Done?
    ensures outcome.Done? ==>
      && asked == Texts(parsed)
      && written == SrtText(Translation(parsed, LangCode(m.command), translate))
      && outcome.sent == [Upload(DocumentReply, OutputName(m),
           Caption(env, LangCode(m.command)))]
      && disk.files == old(disk.files) - {InputName(m), OutputName(m)}
  {
    asked, written := [], "";
    if parsed == [] {
      return Failed(ErrorReply(EmptySrtError), []), asked, written;
    }
    var lang := LangCode(m.command);
    var translated;
    translated, asked := TranslateBlocks(parsed, lang, translate);
    written := CreateSrt(translated);
    var outputFile := OutputName(m);
    if !env.writeOk(outputFile) {
      return Failed(ErrorReply(env.error), []), asked, written;
    }
    disk.Create(outputFile);
    if !env.sendOk(outputFile) {
      return Failed(ErrorReply(env.error), []), asked, written;
    }
    var sent := [Upload(DocumentReply, outputFile,
      Caption(env, lang))];
    disk.RemoveEach([InputName(m), outputFile]);
    return Done(sent), asked, written;
  }

  /**
   * `translate_subtitle`. `content` is the text of the downloaded file as
   * `open(..., "r")` reads it, after its newline translation has turned every
   * "\r\n" into "\n", which the split on blank lines relies on; and
   * `translate(lang, text)` is the translator. It returns how the handler ends, the
   * texts handed to the translator and the content of the translated file.
   */
  method TranslateSubtitle(disk: Disk, m: Message, env: Env, content: string, translate: (string, string) -> string)
    returns (outcome: Outcome, asked: seq<string>, written: string)
    modifies disk
    ensures !RepliesToSrt(m) <==> outcome == Refused(NotSrtReply)
    ensures outcome.Refused? ==> outcome == Refused(NotSrtReply)
    ensures !outcome.Escaped?
    ensures outcome.Refused? ==> disk.files == old(disk.files)
    ensures RepliesToSrt(m) && !env.downloadOk ==> outcome == Failed(ErrorReply(env.error), []) && disk.files == old(disk.files)
    ensures RepliesToSrt(m) && env.downloadOk && env.openOk && SrtBlocks(content) == [] ==>
      && outcome == Failed(ErrorReply(EmptySrtError), [])
      && asked == []
      && disk.files == old(disk.files) + {InputName(m)}
    ensures outcome.Failed? ==>
      && outcome.sent == []
      && outcome.text ==
           (if env.downloadOk && env.openOk && SrtBlocks(content) == [] then ErrorReply(EmptySrtError)
            else ErrorReply(env.error))
      && disk.files == old(disk.files)
           + (if env.downloadOk then {InputName(m)} else {})
           + (if env.downloadOk && env.openOk && SrtBlocks(content) != [] && env.writeOk(OutputName(m))
              then {OutputName(m)} else {})
    ensures outcome.Done? <==>
      && RepliesToSrt(m) && env.downloadOk && env.openOk && SrtBlocks(content) != []
      && env.writeOk(OutputName(m)) && env.sendOk(OutputName(m))
    ensures outcome.Done? ==>
      && asked == Texts(SrtBlocks(content))
      && written == SrtText(Translation(SrtBlocks(content), LangCode(m.command), translate))
      && outcome.sent == [Upload(DocumentReply, OutputName(m),
           Caption(env, LangCode(m.command)))]
      && disk.files == old(disk.files) - {InputName(m), OutputName(m)}
  {
    asked, written := [], "";
    if !RepliesToSrt(m) {
      return Refused(NotSrtReply), asked, written;
    }
    if !env.downloadOk {
      return Failed(ErrorReply(env.error), []), asked, written;
    }
    disk.Create(InputName(m));
    if !env.openOk {
      return Failed(ErrorReply(env.error), []), asked, written;
    }
    var parsed := ParseSrt(content);
    outcome, asked, written := TranslateAndSend(disk, m, env, parsed, translate);
  }
}
