/**
 * SubRip subtitle blocks as the auto-translate plugin reads and writes them:
 * `parse_srt` strips the file, cuts it at blank lines ("\n\n") and keeps each
 * chunk whose first line is all digits and whose second line holds "-->";
 * `create_srt` writes every block back as `index\ntiming\ntext\n\n`.
 */
module Srt {
  import opened Wrappers
  import opened Text

  datatype Block = Block(index: string, timing: string, text: string)

  /** The tests a chunk's lines must pass: three lines or more, a digit index line, a timing line with "-->". */
  predicate IsBlockLines(lines: seq<string>) {
    |lines| >= 3 && IsDigits(lines[0]) && Contains(lines[1], "-->")
  }

  /** A block as it stands inside the file, between blank lines. */
  function ChunkOf(b: Block): string {
    b.index + "\n" + b.timing + "\n" + b.text
  }

  /**
   * One chunk of the file as a block: kept exactly when its lines pass the tests,
   * and then the chunk is the index line, the timing line and the text, so that a
   * text of several lines comes back whole.
   */
  function ParseChunk(chunk: string): (r: Option<Block>)
    ensures r.None? <==> !IsBlockLines(Split(chunk, "\n"))
    ensures r.Some? ==> ChunkOf(r.value) == chunk
    ensures r.Some? ==> IsDigits(r.value.index) && '\n' !in r.value.index
    ensures r.Some? ==> Contains(r.value.timing, "-->") && '\n' !in r.value.timing
  {
    var lines := Split(chunk, "\n");
    if IsBlockLines(lines) then
      assert lines[1..][1..] == lines[2..];
      SplitPiecesFree(chunk, "\n");
      CharContains(lines[0], '\n');
      CharContains(lines[1], '\n');
      Some(Block(lines[0], lines[1], Join(lines[2..], "\n")))
    else None
  }

  /** The values held in a sequence of options, in order: the `append` of a loop that skips the failures. */
  function Somes<T>(xs: seq<Option<T>>): (ys: seq<T>)
    ensures |ys| <= |xs|
  {
    if xs == [] then []
    else
      var init := Somes(xs[..|xs| - 1]);
      match xs[|xs| - 1]
      case Some(y) => init + [y]
      case None => init
  }

  /**
   * Where each kept value came from: a strictly increasing list of positions that
   * holds every position with a value, so the kept values keep their order and
   * none is lost.
   */
  function Sources<T>(xs: seq<Option<T>>): (idx: seq<nat>)
    ensures |idx| == |Somes(xs)|
    ensures forall k :: 0 <= k < |idx| ==> idx[k] < |xs| && xs[idx[k]] == Some(Somes(xs)[k])
    ensures forall k, l :: 0 <= k < l < |idx| ==> idx[k] < idx[l]
    ensures forall j :: 0 <= j < |xs| && xs[j].Some? ==> j in idx
  {
    if xs == [] then []
    else
      var n := |xs| - 1;
      var init := Sources(xs[..n]);
      assert forall j :: 0 <= j < n ==> xs[..n][j] == xs[j];
      match xs[n]
      case Some(_) => init + [n]
      case None => init
  }

  /** When every position holds a value, the kept values are all of them. */
  lemma {:induction false} SomesAll<T>(xs: seq<Option<T>>, ys: seq<T>)
    requires |xs| == |ys|
    requires forall k :: 0 <= k < |xs| ==> xs[k] == Some(ys[k])
    ensures Somes(xs) == ys
    decreases |xs|
  {
    if xs != [] {
      var n := |xs| - 1;
      SomesAll(xs[..n], ys[..n]);
      assert ys == ys[..n] + [ys[n]];
    }
  }

  /** Each chunk read on its own. */
  function Parses(chunks: seq<string>): (opts: seq<Option<Block>>)
    ensures |opts| == |chunks|
    ensures forall k :: 0 <= k < |chunks| ==> opts[k] == ParseChunk(chunks[k])
  {
    seq(|chunks|, k requires 0 <= k < |chunks| => ParseChunk(chunks[k]))
  }

  /** The blocks of a sequence of chunks: the chunks that parse, in order. */
  function Blocks(chunks: seq<string>): seq<Block> {
    Somes(Parses(chunks))
  }

  /** Every block read has a digit index and a timing line holding "-->". */
  lemma BlocksAreBlocks(chunks: seq<string>)
    ensures forall b | b in Blocks(chunks) :: IsDigits(b.index) && Contains(b.timing, "-->")
  {
    var opts := Parses(chunks);
    var idx := Sources(opts);
    forall b | b in Blocks(chunks)
      ensures IsDigits(b.index) && Contains(b.timing, "-->")
    {
      var k :| 0 <= k < |Somes(opts)| && Somes(opts)[k] == b;
      assert ParseChunk(chunks[idx[k]]) == Some(b);
    }
  }

  /** The chunks of a file: its stripped content cut at every "\n\n". */
  function Chunks(content: string): seq<string> {
    Split(Strip(content), "\n\n")
  }

  /** The blocks `parse_srt` returns for a file. */
  function SrtBlocks(content: string): seq<Block> {
    Blocks(Chunks(content))
  }

  /** `parse_srt`: the loop that appends each chunk that passes the tests. */
  method ParseSrt(content: string) returns (parsed: seq<Block>)
    ensures parsed == SrtBlocks(content)
  {
    var chunks := Split(Strip(content), "\n\n");
    ghost var opts := Parses(chunks);
    parsed := [];
    for i := 0 to |chunks|
      invariant parsed == Somes(opts[..i])
    {
      var lines := Split(chunks[i], "\n");
      if |lines| >= 3 && IsDigits(lines[0]) && Contains(lines[1], "-->") {
        var index := lines[0];
        var timing := lines[1];
        var text := Join(lines[2..], "\n");
        parsed := parsed + [Block(index, timing, text)];
      }
      assert opts[..i + 1][..i] == opts[..i];
    }
    assert opts[..|chunks|] == opts;
  }

  /** The file text `create_srt` produces: every block followed by a blank line, in order. */
  function SrtText(blocks: seq<Block>): string {
    if blocks == [] then "" else SrtText(blocks[..|blocks| - 1]) + ChunkOf(blocks[|blocks| - 1]) + "\n\n"
  }

  /** `create_srt`: the loop that grows the content block by block. */
  method CreateSrt(blocks: seq<Block>) returns (content: string)
    ensures content == SrtText(blocks)
  {
    content := "";
    for i := 0 to |blocks|
      invariant content == SrtText(blocks[..i])
    {
      var b := blocks[i];
      content := content + b.index + "\n" + b.timing + "\n" + b.text + "\n\n";
      assert blocks[..i + 1][..i] == blocks[..i];
    }
    assert blocks[..|blocks|] == blocks;
  }

  // ---------------------------------------------------------------------------
  // The round trip
  // ---------------------------------------------------------------------------

  /**
   * A block that survives writing and reading back: a digit index; a one-line
   * timing holding "-->"; a non-empty text that neither starts nor ends with a
   * newline and holds no blank line.
   */
  predicate WellFormed(b: Block) {
    && IsDigits(b.index)
    && '\n' !in b.timing && Contains(b.timing, "-->")
    && b.text != [] && b.text[0] != '\n' && b.text[|b.text| - 1] != '\n'
    && NoBlankLine(b.text)
  }

  /** Well-formed blocks, the last of whose texts does not end in whitespace (strip would cut it). */
  predicate WellFormedFile(blocks: seq<Block>) {
    && (forall k :: 0 <= k < |blocks| ==> WellFormed(blocks[k]))
    && (blocks != [] ==> var t := blocks[|blocks| - 1].text; t != [] && !IsSpace(t[|t| - 1]))
  }

  function ChunksOf(blocks: seq<Block>): (cs: seq<string>)
    ensures |cs| == |blocks|
  {
    seq(|blocks|, k requires 0 <= k < |blocks| => ChunkOf(blocks[k]))
  }

  /** The file `create_srt` writes is its chunks joined by blank lines, plus a final blank line. */
  lemma {:induction false} SrtTextIsJoin(blocks: seq<Block>)
    requires blocks != []
    ensures SrtText(blocks) == Join(ChunksOf(blocks), "\n\n") + "\n\n"
    decreases |blocks|
  {
    var n := |blocks| - 1;
    var init := blocks[..n];
    if init == [] {
      assert ChunksOf(blocks) == [ChunkOf(blocks[n])];
    } else {
      SrtTextIsJoin(init);
      assert ChunksOf(blocks) == ChunksOf(init) + [ChunkOf(blocks[n])];
      JoinSnoc(ChunksOf(init), ChunkOf(blocks[n]), "\n\n");
    }
  }

  /** The lines of a well-formed block's chunk: its index, its timing, then the lines of its text. */
  lemma ChunkLines(b: Block)
    requires WellFormed(b)
    ensures Split(ChunkOf(b), "\n") == [b.index, b.timing] + Split(b.text, "\n")
  {
    var rest := b.timing + "\n" + b.text;
    CharSplitsCleanly(b.index, '\n');
    CharSplitsCleanly(b.timing, '\n');
    FindAfterCleanPiece(b.index, "\n", rest);
    FindAfterCleanPiece(b.timing, "\n", b.text);
    var s := ChunkOf(b);
    assert s == b.index + "\n" + rest;
    assert s[..|b.index|] == b.index;
    assert s[|b.index| + 1..] == rest;
    assert rest[..|b.timing|] == b.timing;
    assert rest[|b.timing| + 1..] == b.text;
  }

  /** Reading a well-formed block's chunk gives the block back. */
  lemma ParseChunkOf(b: Block)
    requires WellFormed(b)
    ensures ParseChunk(ChunkOf(b)) == Some(b)
  {
    ChunkLines(b);
    var lines := Split(ChunkOf(b), "\n");
    assert lines[2..] == Split(b.text, "\n");
  }

  /** A well-formed block's chunk has no blank line inside and does not end with a newline. */
  lemma ChunkHasNoBlankLine(b: Block)
    requires WellFormed(b)
    ensures NoBlankLine(ChunkOf(b))
    ensures ChunkOf(b)[|ChunkOf(b)| - 1] != '\n'
  {
    var s := ChunkOf(b);
    var i1, i2 := |b.index|, |b.index| + 1 + |b.timing|;
    assert |b.timing| > 0;
    forall i | 0 <= i < |s| - 1
      ensures !(s[i] == '\n' && s[i + 1] == '\n')
    {
      if i < i1 {
        assert s[i] == b.index[i];
      } else if i == i1 {
        assert s[i + 1] == b.timing[0];
      } else if i < i2 {
        assert s[i] == b.timing[i - i1 - 1];
      } else if i == i2 {
        assert s[i + 1] == b.text[0];
      } else {
        assert s[i] == b.text[i - i2 - 1] && s[i + 1] == b.text[i - i2];
      }
    }
    assert s[|s| - 1] == b.text[|b.text| - 1];
  }

  lemma JoinStartsWith(parts: seq<string>, sep: string)
    requires |parts| > 0 && parts[0] != []
    ensures Join(parts, sep) != [] && Join(parts, sep)[0] == parts[0][0]
  {
  }

  lemma JoinEndsWith(parts: seq<string>, sep: string)
    requires |parts| > 0 && parts[|parts| - 1] != []
    ensures var j, p := Join(parts, sep), parts[|parts| - 1]; j != [] && j[|j| - 1] == p[|p| - 1]
  {
    var n := |parts| - 1;
    if n > 0 {
      JoinSnoc(parts[..n], parts[n], sep);
      assert parts[..n] + [parts[n]] == parts;
    }
  }

  /** Every chunk of a well-formed file reads back as its block. */
  lemma ChunksParse(blocks: seq<Block>)
    requires WellFormedFile(blocks)
    ensures forall k :: 0 <= k < |blocks| ==> ParseChunk(ChunksOf(blocks)[k]) == Some(blocks[k])
  {
    forall k | 0 <= k < |blocks|
      ensures ParseChunk(ChunksOf(blocks)[k]) == Some(blocks[k])
    {
      ParseChunkOf(blocks[k]);
    }
  }

  /** The chunks of a well-formed file come apart again at the blank lines between them. */
  lemma SplitChunks(blocks: seq<Block>)
    requires WellFormedFile(blocks) && blocks != []
    ensures Split(Join(ChunksOf(blocks), "\n\n"), "\n\n") == ChunksOf(blocks)
  {
    var cs := ChunksOf(blocks);
    forall k | 0 <= k < |cs|
      ensures !Contains(cs[k], "\n\n") && SplitsCleanly(cs[k], "\n\n")
    {
      ChunkHasNoBlankLine(blocks[k]);
      NoBlankLineFree(cs[k]);
      BlankLineSplitsCleanly(cs[k]);
    }
    SplitOfJoin(cs, "\n\n");
  }

  /** Stripping the written file removes exactly the final blank line. */
  lemma StripSrtText(blocks: seq<Block>)
    requires WellFormedFile(blocks) && blocks != []
    ensures Strip(SrtText(blocks)) == Join(ChunksOf(blocks), "\n\n")
  {
    var cs := ChunksOf(blocks);
    var j := Join(cs, "\n\n");
    SrtTextIsJoin(blocks);
    var last := blocks[|blocks| - 1];
    assert cs[|cs| - 1] == ChunkOf(last);
    assert ChunkOf(last)[|ChunkOf(last)| - 1] == last.text[|last.text| - 1];
    JoinStartsWith(cs, "\n\n");
    JoinEndsWith(cs, "\n\n");
    assert j[0] == blocks[0].index[0];
    StripPadded(j, "\n\n");
  }

  /** An empty file, or one of whitespace only, has no block. */
  lemma EmptyHasNoBlocks(content: string)
    requires Strip(content) == ""
    ensures SrtBlocks(content) == []
  {
    assert Find("", "\n\n") == -1;
    assert Split("", "\n\n") == [""];
    assert Find("", "\n") == -1;
    assert Split("", "\n") == [""];
    assert ParseChunk("") == None;
    assert [""][..0] == [];
  }

  /** The chunks of the written file are the chunks of its blocks. */
  lemma ChunksOfSrtText(blocks: seq<Block>)
    requires WellFormedFile(blocks) && blocks != []
    ensures Chunks(SrtText(blocks)) == ChunksOf(blocks)
  {
    StripSrtText(blocks);
    SplitChunks(blocks);
  }

  /** Round trip: reading back what `create_srt` wrote gives the same blocks. */
  lemma RoundTrip(blocks: seq<Block>)
    requires WellFormedFile(blocks)
    ensures SrtBlocks(SrtText(blocks)) == blocks
  {
    if blocks == [] {
      EmptyHasNoBlocks("");
    } else {
      var cs := ChunksOf(blocks);
      ChunksOfSrtText(blocks);
      ChunksParse(blocks);
      var opts := Parses(cs);
      assert forall k :: 0 <= k < |cs| ==> opts[k] == Some(blocks[k]);
      SomesAll(opts, blocks);
    }
  }
}
