/** The chunks of each mode, and what all modes guarantee. */
module ChunkModes {
  import opened Text
  import opened ChunkSpans
  import opened ChunkMerge
  import opened Segments

  /** The slice of a text at a span. */
  function Slice(text: string, s: Span): string {
    if s.start <= s.end <= |text| then text[s.start..s.end] else ""
  }

  function ChunkAt(text: string, s: Span): TextChunk {
    TextChunk(Slice(text, s), s.start, s.end)
  }

  /** The chunks of a text with the given spans. */
  function ChunksOf(text: string, spans: seq<Span>): seq<TextChunk> {
    seq(|spans|, i requires 0 <= i < |spans| => ChunkAt(text, spans[i]))
  }

  function Spans(chunks: seq<TextChunk>): seq<Span> {
    seq(|chunks|, i requires 0 <= i < |chunks| => Span(chunks[i].start, chunks[i].end))
  }

  lemma ChunksOfConcat(text: string, a: seq<Span>, b: seq<Span>)
    ensures ChunksOf(text, a + b) == ChunksOf(text, a) + ChunksOf(text, b)
  {}

  // ---------------------------------------------------------------- blocks

  /** The blocks between the cuts: `cuts[i]` says whether to cut after segment `i`. */
  function BlocksFrom(segments: seq<Span>, cuts: seq<bool>, first: nat, i: nat): seq<Span>
    requires |cuts| + 1 == |segments| && first <= i < |segments|
    decreases |segments| - i
  {
    if i == |cuts| then [Span(segments[first].start, segments[i].end)]
    else if cuts[i] then [Span(segments[first].start, segments[i].end)] + BlocksFrom(segments, cuts, i + 1, i + 1)
    else BlocksFrom(segments, cuts, first, i + 1)
  }

  lemma {:induction false} BlocksAdjoin(segments: seq<Span>, cuts: seq<bool>, first: nat, i: nat, lo: nat, hi: nat)
    requires |cuts| + 1 == |segments| && first <= i < |segments| && Adjoining(segments, lo, hi)
    ensures Adjoining(BlocksFrom(segments, cuts, first, i), segments[first].start, hi)
    decreases |segments| - i
  {
    EndsIncrease(segments, lo, hi, first, i);
    if i < |cuts| {
      assert segments[i].end == segments[i + 1].start;
      if cuts[i] {
        BlocksAdjoin(segments, cuts, i + 1, i + 1, lo, hi);
        ConsAdjoins(Span(segments[first].start, segments[i].end), BlocksFrom(segments, cuts, i + 1, i + 1), hi);
      } else {
        BlocksAdjoin(segments, cuts, first, i + 1, lo, hi);
      }
    }
  }

  // ---------------------------------------------------------------- sentence mode

  function SentenceSpans(text: string, maxChars: nat, overlap: nat): seq<Span>
    requires Limits(maxChars, overlap)
  {
    AllBlocks(Merged(Sentences(text, 0), maxChars), maxChars, overlap)
  }

  lemma SentenceSpansTile(text: string, maxChars: nat, overlap: nat)
    requires Limits(maxChars, overlap) && text != ""
    ensures Adjoining(Merged(Sentences(text, 0), maxChars), 0, |text|)
    ensures Tiles(SentenceSpans(text, maxChars, overlap), 0, |text|, maxChars, overlap)
  {
    SentencesPartition(text, 0);
    var ss := Sentences(text, 0);
    assert ss == [ss[0]] + ss[1..];
    MergeAdjoins(ss[0], ss[1..], |text|, maxChars);
    AllBlocksTile(Merged(ss, maxChars), 0, |text|, maxChars, overlap);
  }

  /** The groups of the sentence loop are the fewest possible, and no sentence that fits is cut. */
  lemma SentencePackingOptimal(text: string, groups: seq<Span>, maxChars: nat, overlap: nat)
    requires Limits(maxChars, overlap) && text != ""
    requires Grouping(Sentences(text, 0), groups, maxChars)
    ensures Grouping(Sentences(text, 0), Merged(Sentences(text, 0), maxChars), maxChars)
    ensures |Merged(Sentences(text, 0), maxChars)| <= |groups|
  {
    SentencesPartition(text, 0);
    var ss := Sentences(text, 0);
    assert Span(ss[0].start, ss[1 - 1].end) == ss[0];
    MergeIsGrouping(ss, ss[0], 1, 0, |text|, maxChars);
    PackingIsOptimal(ss, groups, 0, |text|, maxChars);
  }

  lemma FittingSentenceIsWhole(text: string, maxChars: nat, overlap: nat, i: nat)
    requires Limits(maxChars, overlap) && i < |Sentences(text, 0)|
    requires Sentences(text, 0)[i].end <= Sentences(text, 0)[i].start + maxChars
    ensures exists c :: c in SentenceSpans(text, maxChars, overlap) && Contains(c, Sentences(text, 0)[i])
  {
    SentencesPartition(text, 0);
    FittingSegmentIsWhole(Sentences(text, 0), 0, |text|, maxChars, overlap, i);
  }

  // ---------------------------------------------------------------- merged modes

  /** Blocks cut to size and merged again. */
  function MergedBlocks(segments: seq<Span>, cuts: seq<bool>, maxChars: nat, overlap: nat): seq<Span>
    requires Limits(maxChars, overlap) && |cuts| + 1 == |segments|
  {
    Merged(AllBlocks(BlocksFrom(segments, cuts, 0, 0), maxChars, overlap), maxChars)
  }

  /** For any cuts: the merged chunks tile the text, no two neighbours fit together, and there are
      at most twice as many, less one, as char mode has windows. */
  lemma MergedBlocksGuarantees(segments: seq<Span>, cuts: seq<bool>, n: nat, maxChars: nat, overlap: nat)
    requires Limits(maxChars, overlap) && |cuts| + 1 == |segments| && Adjoining(segments, 0, n) && n > 0
    ensures var spans := MergedBlocks(segments, cuts, maxChars, overlap);
            && Tiles(spans, 0, n, maxChars, overlap)
            && Unmergeable(spans, maxChars)
            && |spans| <= 2 * |Windows(0, n, maxChars, overlap)| - 1
            && (n <= maxChars ==> |spans| == 1)
  {
    BlocksAdjoin(segments, cuts, 0, 0, 0, n);
    var blocks := BlocksFrom(segments, cuts, 0, 0);
    AllBlocksTile(blocks, 0, n, maxChars, overlap);
    AllBlocksFull(blocks, 0, n, maxChars, overlap);
    var raw := AllBlocks(blocks, maxChars, overlap);
    assert raw == [raw[0]] + raw[1..];
    MergeGuarantees(raw[0], raw[1..], 0, n, maxChars, overlap);
    WindowsClosedForm(0, n, maxChars, overlap, 0);
    UnmergeableAreFew(Merged(raw, maxChars), 0, n, maxChars, overlap);
  }

  /** Semantic mode on the merging path; `cuts` are the similarity decisions between sentences. */
  function SemanticSpans(text: string, cuts: seq<bool>, maxChars: nat, overlap: nat): seq<Span>
    requires Limits(maxChars, overlap) && |cuts| + 1 == |Sentences(text, 0)|
  {
    MergedBlocks(Sentences(text, 0), cuts, maxChars, overlap)
  }

  // ---------------------------------------------------------------- code mode

  predicate StartsWith(s: string, prefix: string) {
    prefix <= s
  }

  /** Does a new block start at this line? */
  predicate StartsBlock(text: string, lines: seq<Span>, i: nat, language: string)
    requires i < |lines|
  {
    var line := Slice(text, lines[i]);
    if language == "python" then
      StartsWith(line, "def ") || StartsWith(line, "class ") || StartsWith(line, "async def ")
    else
      i > 0 && Strip(Slice(text, lines[i - 1])) == "" && LeftStrip(line) != ""
  }

  function CodeCuts(text: string, language: string): seq<bool>
    requires text != ""
  {
    var lines := Lines(text, 0);
    seq(|lines| - 1, i requires 0 <= i < |lines| - 1 => StartsBlock(text, lines, i + 1, language))
  }

  /** Code mode drops a last block that is blank and fits; that can only be the whole text. */
  function CodeSpans(text: string, language: string, maxChars: nat, overlap: nat): seq<Span>
    requires Limits(maxChars, overlap)
  {
    if text == "" || (|text| <= maxChars && Strip(text) == "") then []
    else MergedBlocks(Lines(text, 0), CodeCuts(text, language), maxChars, overlap)
  }

  lemma MarkedLineHasMark(text: string, lines: seq<Span>, i: nat, language: string) returns (j: nat)
    requires i < |lines| && StartsBlock(text, lines, i, language)
    ensures j < |Slice(text, lines[i])| && !IsSpace(Slice(text, lines[i])[j])
  {
    var line := Slice(text, lines[i]);
    if language == "python" {
      j := 0;
    } else {
      LeftStripSuffix(line);
      j :| j < |line| && !IsSpace(line[j]);
    }
  }

  /** A block that starts at a marked line is not blank, and neither is the text. */
  lemma MarkedLineIsNotBlank(text: string, lines: seq<Span>, i: nat, language: string, hi: nat)
    requires i < |lines| && lines[i].start <= lines[i].end <= hi <= |text|
    requires StartsBlock(text, lines, i, language)
    ensures Strip(text[lines[i].start..hi]) != "" && Strip(text) != ""
  {
    hide StartsBlock, Strip;
    var j := MarkedLineHasMark(text, lines, i, language);
    var block := text[lines[i].start..hi];
    StripTrims(block);
    StripTrims(text);
    assert block[j] == Slice(text, lines[i])[j] == text[lines[i].start + j];
  }

  // ---------------------------------------------------------------- the contract of every mode

  /** Each chunk is the slice of the text at its span; the spans are non-empty, bounded, move
      forward at both ends, leave no gap, share at most `overlap`, and cover the whole text. */
  ghost predicate Contract(text: string, chunks: seq<TextChunk>, maxChars: nat, overlap: nat) {
    && (forall i | 0 <= i < |chunks| ::
          chunks[i].end <= |text| && chunks[i].start <= chunks[i].end
          && chunks[i].text == text[chunks[i].start..chunks[i].end])
    && if text == "" then chunks == [] else Tiles(Spans(chunks), 0, |text|, maxChars, overlap)
  }

  lemma {:induction false} TilesInRange(spans: seq<Span>, lo: nat, hi: nat, maxChars: nat, overlap: nat)
    requires Tiles(spans, lo, hi, maxChars, overlap)
    ensures forall i | 0 <= i < |spans| :: spans[i].start <= spans[i].end <= hi
  {
    forall i | 0 <= i < |spans| ensures spans[i].start <= spans[i].end <= hi {
      EndsGrow(spans, lo, hi, maxChars, overlap, i);
      assert Within(spans[i], maxChars);
    }
  }

  lemma TilingMeetsContract(text: string, spans: seq<Span>, maxChars: nat, overlap: nat)
    requires text != "" && Tiles(spans, 0, |text|, maxChars, overlap)
    ensures Contract(text, ChunksOf(text, spans), maxChars, overlap)
  {
    TilesInRange(spans, 0, |text|, maxChars, overlap);
    assert Spans(ChunksOf(text, spans)) == spans;
  }
}
