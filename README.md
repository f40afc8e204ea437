# MissKatyPyro media command handlers, modelled in Dafny

This project models six chat-bot command handlers of the MissKatyPyro Telegram
bot. They live under `misskaty/plugins/`:

- `/autotrans`: translate an `.srt` subtitle file;
- `/videotools`: cut, split, crop or autocrop a video;
- `/extract`: extract audio, subtitles or frames from a video;
- `/metadata`: write tags into an audio or video file;
- `/rotasi`: rotate a video;
- `/convert`: convert media to MP4 or MP3.

Each handler:

1. checks the replied-to attachment and the command's arguments;
2. downloads the attachment under a per-user file name;
3. hands it to a media library;
4. uploads what the library wrote;
5. removes its temporary files.

The model keeps each handler's branches, messages, constants, file names and
cleanup. The outside world is a parameter:

- the chat client: download, upload, the bot's mention;
- the media libraries: whether they open or write a file, the duration and
  frame size they report, the first frame's grey levels;
- the translator;
- the JSON decoder;
- ffmpeg's output.

Layout, one module per file:

- `Wrappers`: Option and Result.
- `Text`: the Python string operations the handlers use: `strip`, `split`,
  `join`, `find`/`in`, `lstrip`, `isdigit`, `lower`, `int`, `float` and `str`
  on natural numbers.
- `Srt`: `parse_srt` and `create_srt`, with the round trip between them.
- `Bot`: the message, the attachments, the environment, the uploads, and how a
  handler ends.
- `Files`: a `Disk` class. Its set of paths is a field that the handlers
  change in place.
- `Reals`: small lemmas about multiplying reals.
- `AutoTranslate`, `VideoTools`, `ExtractMedia`, `EditMetadata`, `VideoRotate`,
  `ConvertMedia`: one module per handler.

Each handler returns an `Outcome`:

- `Refused`: an early reply, before any download.
- `Escaped`: an exception that leaves the handler.
- `Failed`: the error reply of the `except` block, with the files already sent.
- `Done`: success, with the uploads.

On every path, each handler's postcondition gives the set of files left on
the disk. That set is a function of the starting set, the message and the
environment. Where outputs were written before an error, the postcondition
also says which ones: those before the first write or upload that failed.

How the cleanup really behaves (the model follows the code):

- Only the metadata handler removes every temporary file on its error path.
- The `except` blocks of videotools, extract, rotate and convert remove only
  the download. Outputs written before the error stay on the disk.
- The `except` block of `/autotrans` removes nothing. After an error, the
  download and the translated file stay on the disk if they were written.
- When a download fails, videotools, extract, metadata, rotate and convert
  never bind the download's path. Their `except` block then reads that unbound
  variable and raises, so the handler ends in `Escaped`.
- `/rotasi` accepts an angle token with two or more leading dashes. `float()`
  then raises outside the `try` block, which also ends in `Escaped`.

## Model

| member | source | states |
|---|---|---|
| Text.Strip | misskaty/plugins/tmidautotranslate.py:22 | the result is the input with its leading and trailing whitespace removed, and it neither starts nor ends with whitespace |
| Text.StripPadded | misskaty/plugins/tmidautotranslate.py:22 | stripping a text that has no whitespace at its ends, followed by whitespace, gives back the text |
| Text.Split | misskaty/plugins/tmidautotranslate.py:22 | `split` gives at least one piece, and joining the pieces with the separator gives back the input |
| Text.SplitIsLeftmost | misskaty/plugins/tmidautotranslate.py:22 | `split` has one piece exactly when the separator does not occur, and otherwise its first piece ends at the separator's first occurrence |
| Text.SplitLeftmostExample | misskaty/plugins/tmidautotranslate.py:22 | "a" then three newlines then "b", split on a blank line, gives "a" and a newline followed by "b" |
| Text.SplitPiecesFree | misskaty/plugins/tmidautotranslate.py:25 | no piece of a split contains the separator |
| Text.SplitOfJoin | misskaty/plugins/tmidautotranslate.py:22 | splitting a join gives back the parts, when no part can absorb a separator |
| Text.FindIsFirst | misskaty/plugins/tmidautotranslate.py:26 | `find` returns the first position where the pattern occurs, or -1 when it occurs nowhere |
| Text.ContainsIff | misskaty/plugins/tmidautotranslate.py:26 | `pat in s` holds exactly when the pattern occurs at some position of `s` |
| Text.NatToString | misskaty/plugins/tmidautotranslate.py:51 | the decimal rendering of a user id is a non-empty string of digits, and its value is the id |
| Text.ParseInt | misskaty/plugins/tmidextractmedia.py:112 | `int` succeeds exactly on an optional sign followed by digits, and it gives their signed value |
| Text.PointIsFirst | misskaty/plugins/tmidextractmedia.py:97 | the point of a literal with digits on both sides of it is the first "." in the text |
| Text.ParseUnsignedDecimal | misskaty/plugins/tmidextractmedia.py:97 | an unsigned literal is accepted exactly when it is digits, or digits with one point and at least one digit; its value is the whole part plus the fraction over the power of ten of its length |
| Text.ParseFloat | misskaty/plugins/tmidvideorotate.py:28 | `float` accepts exactly an unsigned literal, optionally after one '+' or '-'; '+' keeps the value and '-' negates it; a negative result comes only from a leading dash |
| Text.ParseFloatPointInside | misskaty/plugins/tmidextractmedia.py:97 | "10.5" reads as 10.5 |
| Text.ParseFloatPointFirst | misskaty/plugins/tmidextractmedia.py:97 | ".5" reads as 0.5 |
| Text.ParseFloatPointLast | misskaty/plugins/tmidextractmedia.py:97 | "5." reads as 5.0 |
| Text.ParseFloatNegative | misskaty/plugins/tmidextractmedia.py:97 | "-2.25" reads as -2.25 |
| Text.ParseFloatUnderscore | misskaty/plugins/tmidextractmedia.py:97 | "1_0" is refused |
| Text.LStripChar | misskaty/plugins/tmidvideorotate.py:26 | `lstrip('-')` removes exactly the leading dashes: the result is a suffix, all removed characters are dashes, and the result does not start with one |
| Text.LastSegment | misskaty/plugins/tmideditmetadata.py:47 | `split('.')[-1]` is the suffix after the last dot: it holds no dot, and a dot precedes it unless it is the whole name |
| Bot.VideoOrAudio | misskaty/plugins/tmideditmetadata.py:46 | the attachment used is the video when there is one, otherwise the audio |
| Srt.ParseChunk | misskaty/plugins/tmidautotranslate.py:25-30 | a chunk is rejected exactly when its lines are not "digits, a line with -->, text"; an accepted chunk's block renders back to the chunk |
| Srt.Sources | misskaty/plugins/tmidautotranslate.py:24-30 | each kept block comes from a chunk that parses to it, the blocks keep the chunks' order, and every chunk that parses is kept |
| Srt.SomesAll | misskaty/plugins/tmidautotranslate.py:24-30 | when every chunk parses, the blocks are exactly the parsed chunks |
| Srt.BlocksAreBlocks | misskaty/plugins/tmidautotranslate.py:26 | every block kept has an all-digit index and a timing line that contains `-->` |
| Srt.ParseSrt | misskaty/plugins/tmidautotranslate.py:20-31 | the loop over the chunks returns the blocks of the file's content |
| Srt.CreateSrt | misskaty/plugins/tmidautotranslate.py:33-37 | the loop that appends each block and a blank line returns the SRT rendering of the blocks |
| Srt.SrtTextIsJoin | misskaty/plugins/tmidautotranslate.py:33-37 | the rendering is the block chunks joined by blank lines, followed by one blank line |
| Srt.ChunkLines | misskaty/plugins/tmidautotranslate.py:25 | the lines of a rendered block are its index, its timing and the lines of its text |
| Srt.ParseChunkOf | misskaty/plugins/tmidautotranslate.py:25-30 | parsing a rendered well-formed block gives back the block |
| Srt.ChunkHasNoBlankLine | misskaty/plugins/tmidautotranslate.py:36 | a rendered well-formed block holds no blank line and does not end in a newline |
| Srt.SplitChunks | misskaty/plugins/tmidautotranslate.py:22 | splitting the joined chunks on blank lines gives back the chunks |
| Srt.StripSrtText | misskaty/plugins/tmidautotranslate.py:22 | stripping a rendered file removes just the final blank line |
| Srt.ChunksOfSrtText | misskaty/plugins/tmidautotranslate.py:22 | the chunks of a rendered file are the rendered blocks |
| Srt.EmptyHasNoBlocks | misskaty/plugins/tmidautotranslate.py:57-59 | content that is only whitespace has no blocks |
| Srt.RoundTrip | misskaty/plugins/tmidautotranslate.py:20-37 | parsing what `create_srt` writes gives back the well-formed blocks |
| AutoTranslate.TranslatedText | misskaty/plugins/tmidautotranslate.py:67-69 | an empty translation is replaced by the placeholder; a non-empty one is kept |
| AutoTranslate.TranslationKeepsBlocks | misskaty/plugins/tmidautotranslate.py:66-70 | translation keeps the number of blocks, each index and each timing, and gives every block a non-empty text: the translator's when non-empty, otherwise the placeholder |
| AutoTranslate.TranslateBlocks | misskaty/plugins/tmidautotranslate.py:63-70 | the loop returns the translated blocks and asks the translator for each block's text, in order |
| AutoTranslate.TranslatedFileReadsBack | misskaty/plugins/tmidautotranslate.py:73-76 | the written file parses back to the translated blocks when they are well formed |
| AutoTranslate.NamesDiffer | misskaty/plugins/tmidautotranslate.py:74 | the download and the translated file never share a path |
| AutoTranslate.TranslateAndSend | misskaty/plugins/tmidautotranslate.py:57-88 | with no block it fails as an invalid file, asks nothing and leaves the disk alone; any other error replies with the library's message and adds exactly the translated file when it was written; it succeeds exactly when the write and the upload succeed, and then sends the translated file and removes both files |
| AutoTranslate.TranslateSubtitle | misskaty/plugins/tmidautotranslate.py:40-92 | it never escapes, since its `except` catches every error; it refuses, with the `.srt` reply, exactly when the reply is not an `.srt` document; an error sends nothing, replies with the invalid-file message exactly for an empty parse and with the library's message otherwise, and leaves exactly the old files plus the download when it was made and the translated file when it was written; it succeeds exactly when the download, the open, the parse, the write and the upload succeed, and then sends the rendering of the translation with the language in the caption and removes both files |
| VideoTools.CutRange | misskaty/plugins/tmidvideotools.py:42-46 | cut is accepted exactly for two digit arguments with start < end ≤ duration; a usage error exactly when the shape is wrong |
| VideoTools.SplitLength | misskaty/plugins/tmidvideotools.py:52-56 | split is accepted exactly for one digit argument strictly between 0 and the duration |
| VideoTools.NumParts | misskaty/plugins/tmidvideotools.py:57 | the number of parts is at least 2, and it is the least n with n·length ≥ duration |
| VideoTools.InnerSegment | misskaty/plugins/tmidvideotools.py:58-60 | every part but the last is exactly `length` long and ends where the next begins |
| VideoTools.FinalSegment | misskaty/plugins/tmidvideotools.py:58-60 | the last part ends at the duration, and its length is positive and at most `length` |
| VideoTools.SegmentsTile | misskaty/plugins/tmidvideotools.py:58-60 | the parts start at 0, follow each other without gap or overlap, and end at the duration |
| VideoTools.SplitNamesDistinct | misskaty/plugins/tmidvideotools.py:61 | parts with different numbers get different file names |
| VideoTools.SplitJobs | misskaty/plugins/tmidvideotools.py:58-63 | one output job per part |
| VideoTools.SplitJobsNamed | misskaty/plugins/tmidvideotools.py:61 | job i writes part i+1's name, and no two jobs share a path |
| VideoTools.CropBox | misskaty/plugins/tmidvideotools.py:66-70 | crop is accepted exactly for four digit arguments whose box lies inside the frame, x1 < x2 and y1 < y2 |
| VideoTools.TightUnique | misskaty/plugins/tmidvideotools.py:86-89 | at most one box is the tightest around the bright pixels |
| VideoTools.ScanUnique | misskaty/plugins/tmidvideotools.py:80-89 | the scan's result is determined by the subcommand and the frame: nothing for every subcommand but autocrop, and for autocrop nothing exactly on a blank frame, otherwise the tightest box |
| VideoTools.NonBlackBounds | misskaty/plugins/tmidvideotools.py:86-88 | the scan finds nothing exactly when no pixel exceeds the threshold; otherwise it returns the tightest rows and columns that hold every such pixel |
| VideoTools.AutocropCorners | misskaty/plugins/tmidvideotools.py:88-95 | autocrop is accepted exactly when the content spans more than one row and one column; its box runs from the first to the last such index, so the last row and column are cut off |
| VideoTools.Plan | misskaty/plugins/tmidvideotools.py:41-100 | each subcommand's outputs, or exactly the error its own check gives: cut, split and crop pass on the error of their argument check, autocrop gives the no-content error on a blank frame and the bad-bounds error for a box that is too thin; any other subcommand is the invalid-subcommand error |
| VideoTools.VideoUploads | misskaty/plugins/tmidvideotools.py:103-107 | the paths sent are exactly the outputs, in order, each as a video with the subcommand's caption |
| VideoTools.BatchResult | misskaty/plugins/tmidvideotools.py:41-107 | the run is done exactly when every output is written and sent; otherwise it stops at the first write that fails, with only the outputs before it written and nothing sent, or, when all are written, at the first upload that fails, with the outputs before it sent; the error reply carries the library's message |
| VideoTools.BatchWriteStops | misskaty/plugins/tmidvideotools.py:41-100 | a failing write ends the run with the outputs before it written and nothing sent |
| VideoTools.BatchSendStops | misskaty/plugins/tmidvideotools.py:103-107 | a failing upload ends the run with every output written and those before it sent |
| VideoTools.BatchDone | misskaty/plugins/tmidvideotools.py:103-114 | when every write and upload succeeds, all outputs are sent, in order |
| VideoTools.WriteAndSend | misskaty/plugins/tmidvideotools.py:48-120 | the loops that write every output and then send each one end as `BatchResult` says; on success the outputs are removed with the download; on an error only the download is removed |
| VideoTools.RunSubcommand | misskaty/plugins/tmidvideotools.py:41-120 | the scan of the first frame is determined; a plan error fails with its message and writes nothing, with autocrop on a blank frame giving the no-content error; otherwise the run ends as `BatchResult` says for the planned jobs; the files left on each path |
| VideoTools.VideoToolsHandler | misskaty/plugins/tmidvideotools.py:24-120 | it refuses exactly on a missing video or subcommand and escapes exactly on a failed download; an unopenable clip fails with nothing written; otherwise the scan, the plan and `BatchResult` decide the end, the message and the outputs, autocrop on a blank frame failing with the no-content error; success sends the outputs in order; the files left on the disk on each path |
| ExtractMedia.ExtractType | misskaty/plugins/tmidextractmedia.py:34-36 | the type is accepted exactly when its lower case is audio, subtitle or frame |
| ExtractMedia.ExtractTypeIgnoresCase | misskaty/plugins/tmidextractmedia.py:34-36 | spellings that differ only in ASCII case are treated alike |
| ExtractMedia.HasSubtitlesIff | misskaty/plugins/tmidextractmedia.py:65 | subtitles are found exactly when "Subtitle" occurs in ffmpeg's stderr or stdout |
| ExtractMedia.FrameNamesDistinct | misskaty/plugins/tmidextractmedia.py:118 | frames with different numbers get different file names |
| ExtractMedia.FrameTimeBelow | misskaty/plugins/tmidextractmedia.py:115-117 | every frame time lies in [0, duration) |
| ExtractMedia.FrameTimeIncreases | misskaty/plugins/tmidextractmedia.py:115-117 | later frames are taken at strictly later times |
| ExtractMedia.FrameTimesSpread | misskaty/plugins/tmidextractmedia.py:115-117 | the series starts at 0, increases strictly and stays inside the clip |
| ExtractMedia.SeriesShots | misskaty/plugins/tmidextractmedia.py:116-120 | n shots; shot i is frame i+1 at time i·duration/n |
| ExtractMedia.SeriesNamesDistinct | misskaty/plugins/tmidextractmedia.py:118 | no two shots of a series share a path |
| ExtractMedia.FrameShots | misskaty/plugins/tmidextractmedia.py:84-128 | no option gives the midpoint frame; `single t` gives t when 0 ≤ t ≤ duration and otherwise the wrapped error; `multiple n` gives the series when 1 ≤ n ≤ 50 and otherwise the wrapped error; anything else is the frame-option error |
| ExtractMedia.SeriesUploadsDistinct | misskaty/plugins/tmidextractmedia.py:116-124 | the photos of a series are sent from pairwise distinct paths |
| ExtractMedia.EachResult | misskaty/plugins/tmidextractmedia.py:45-128 | the run is done exactly when every result is written and sent; otherwise it stops at the first result whose write or upload fails: the results before it are sent, it is written too when only its upload failed, and the reply names the write's error or the library's |
| ExtractMedia.EachResultStops | misskaty/plugins/tmidextractmedia.py:116-124 | a result that fails after the first `i` were delivered ends the run there, with the message of the step that failed |
| ExtractMedia.EachResultDone | misskaty/plugins/tmidextractmedia.py:116-124 | when every result is delivered, all are sent and written, in order |
| ExtractMedia.WriteEachAndSend | misskaty/plugins/tmidextractmedia.py:116-135 | the loop that writes each result and sends it before the next ends as `EachResult` says; on success all are removed with the download; on an error only the download is removed |
| ExtractMedia.ExtractAndSend | misskaty/plugins/tmidextractmedia.py:45-135 | audio, a subtitle that the probe finds and the frames that the options accept run as `EachResult` says, with the subtitle's write error as the fixed message; a missing subtitle and a rejected frame option fail with their message and write nothing; the files left on each path |
| ExtractMedia.ExtractMediaHandler | misskaty/plugins/tmidextractmedia.py:28-141 | it refuses exactly on a missing video or type and escapes exactly on a failed download; an unopenable clip fails with nothing written; otherwise each type ends as `ExtractAndSend` says; the upload per type on success; the files left on the disk on each path |
| EditMetadata.Mp4Key | misskaty/plugins/tmideditmetadata.py:58-67 | the six friendly names map to their MP4 atoms; any other key is used as it is |
| EditMetadata.FormatOf | misskaty/plugins/tmideditmetadata.py:54-77 | the MP4 family exactly for a lower-case extension mp4, m4a or m4v; MP3 exactly for mp3; otherwise the error naming the extension |
| EditMetadata.Writes | misskaty/plugins/tmideditmetadata.py:66-74 | one write per item, in order, under the format's key |
| EditMetadata.LastWriteWins | misskaty/plugins/tmideditmetadata.py:66-68 | a tag ends with the value of its last write |
| EditMetadata.UntouchedTags | misskaty/plugins/tmideditmetadata.py:66-68 | a tag no item writes keeps its old value, or stays absent |
| EditMetadata.AliasOverwrites | misskaty/plugins/tmideditmetadata.py:58-68 | "title" and the raw atom name write the same MP4 tag, and the later of the two wins |
| EditMetadata.TagFile.Set | misskaty/plugins/tmideditmetadata.py:68 | a tag assignment replaces that one entry |
| EditMetadata.TagFile.SetEach | misskaty/plugins/tmideditmetadata.py:66-74 | the loops over the payload leave the tags as the old tags after one write per item, in order, under the format's key |
| EditMetadata.NamesOfCopy | misskaty/plugins/tmideditmetadata.py:47-48 | the download and its copy never share a path, and both keep the attachment's extension |
| EditMetadata.TagAndSend | misskaty/plugins/tmideditmetadata.py:53-103 | every error replies with the library's message and sends nothing; on success the tags are the old tags after the writes, in order, and the copy is sent; both files are removed on every path |
| EditMetadata.EditMetadataHandler | misskaty/plugins/tmideditmetadata.py:27-103 | it refuses exactly on a missing attachment, a missing payload or malformed JSON; it escapes exactly on a non-object payload or a failed download; it succeeds exactly when the payload is an object, the download, the format, the open, the write and the upload succeed; the unsupported-format error, the library's message for every other error, the tags written, the upload, and both files removed |
| Files.Disk.RemoveEach | misskaty/plugins/tmidvideotools.py:111-113 | the loop removes exactly the listed paths that exist |
| VideoRotate.AngleAcceptedIff | misskaty/plugins/tmidvideorotate.py:26 | an angle is accepted exactly when it is leading dashes followed by a non-empty run of digits |
| VideoRotate.AngleExamples | misskaty/plugins/tmidvideorotate.py:26 | "45.5" and "+90" are refused; "90", "-90" and "--90" are accepted |
| VideoRotate.AngleValue | misskaty/plugins/tmidvideorotate.py:28 | an accepted angle with no dash is its digits' value, with one dash their negation, and with two or more `float` fails |
| VideoRotate.AngleParses | misskaty/plugins/tmidvideorotate.py:26-28 | an accepted angle converts exactly when it has at most one dash |
| VideoRotate.RotateAndSend | misskaty/plugins/tmidvideorotate.py:34-59 | it succeeds exactly when the open, the write and the upload succeed, and then sends the rotated video with the angle in its caption and removes both files; on an error only the download is removed |
| VideoRotate.RotateVideo | misskaty/plugins/tmidvideorotate.py:20-59 | the early replies, the missing video and the missing or refused angle, each with its text; the escape on an angle with two dashes or on a failed download; both files removed on success |
| ConvertMedia.TargetFormat | misskaty/plugins/tmidconvertmedia.py:26-28 | the format is accepted exactly when its lower case is mp4 or mp3, and it is kept lower-cased |
| ConvertMedia.TargetFormatExamples | misskaty/plugins/tmidconvertmedia.py:26-28 | "MP4" and "Mp3" are accepted as mp4 and mp3; "mkv" and a missing format are refused |
| ConvertMedia.ConversionFor | misskaty/plugins/tmidconvertmedia.py:38-53 | MP3 always extracts the audio; MP4 re-encodes a video and gives an audio a 24 fps video for its duration |
| ConvertMedia.NamesOfConversion | misskaty/plugins/tmidconvertmedia.py:34-36 | the download and the result never share a path; the download keeps the attachment's extension, and the result's extension is the format |
| ConvertMedia.Delivery | misskaty/plugins/tmidconvertmedia.py:44-58 | MP4 is sent as a video and MP3 as an audio, from the output path |
| ConvertMedia.ConvertAndSend | misskaty/plugins/tmidconvertmedia.py:38-70 | it succeeds exactly when the open, the write and the upload succeed, and then removes both files; on an error only the download is removed |
| ConvertMedia.ConvertMediaHandler | misskaty/plugins/tmidconvertmedia.py:20-70 | it refuses exactly on a missing attachment or format and escapes exactly on a failed download; it succeeds exactly when the download, the open, the write and the upload succeed; the conversion asked for, the upload, and the files left on the disk on each path |

## Left out

- Text: `isdigit`, `lower` and the regular expression `\d` are modelled on ASCII only. Python also accepts other Unicode digits and letters.
- Text.ParseInt: underscores between digits and surrounding whitespace are not modelled.
- Text.ParseFloat: exponents, "inf", "nan", underscores between digits (`float("1_0")` is 10.0 in Python, refused here) and whitespace around the number are not modelled.
- Durations, `D // S` and `D % S` in the split planning, and the frame times `i * step`, are Python floats; the model computes them on exact reals, and no result is claimed to match floating-point rounding.
- EditMetadata.EditMetadataHandler: the decoded object's items may repeat a key, which a Python dict cannot. For such a payload, a dict keeps the key at its first position with its last value; the model writes every item in order and lists the key twice in the caption.
- Rendering of floats (`f"{t:.2f}"` and `str(angle)`) is a parameter of the environment, not modelled.
- The media libraries (moviepy, mutagen, ffmpeg, PIL/numpy) are parameters. The model includes whether they open or write a file, the duration and frame size they report, the first frame's grey levels, and ffmpeg's output text.
- VideoTools.NonBlackBounds: the frame is one grey-level channel, so a colour frame's channels are not modelled.
- A library call that fails is taken to write no file.
- Every library exception is taken not to be a ValueError. The extract handler's inner `except ValueError` blocks therefore wrap only the handler's own errors.
- The translator is a function of the language and the text. Its exceptions and the network are not modelled.
- The chat transport is not modelled: downloads and uploads are success flags, and the status message and its deletion are left out.
- The download directory the chat client puts in front of a file name is not modelled.
- JSON decoding is a parameter that gives an object (its items, values already passed through `str`), another value, or malformed text.
- EditMetadata.TagAndSend: whether a key is legal for EasyID3 or MP4 is not modelled. Neither is the failure of the shell `cp`; the copy is always made.
- EditMetadata.EditMetadataHandler and ConvertMedia.ConvertMediaHandler: `media.video` is a parameter of the handler. The case where the attribute lookup itself raises is not modelled.
- A document without a file name, for which `file_name` is None, is not modelled.
- The text of an exception as Python's `str(e)` prints it is one string of the environment. Quoting by `repr` inside it is not modelled.
- Two runs of one user's command at the same time, and the per-user file names they share, are not modelled.
