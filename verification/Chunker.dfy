/** The chunking loops, mode by mode. */
module Chunker {
  import opened Uris
  import opened Text
  import opened ChunkSpans
  import opened ChunkMerge
  import opened Segments
  import opened ChunkModes

  /** The sliding windows over a block of the text that starts at `base`. */
  method CharChunks(block: string, maxChars: nat, overlap: nat, base: nat, ghost text: string) returns (chunks: seq<TextChunk>)
    requires Limits(maxChars, overlap)
    requires base + |block| <= |text| && block == text[base..base + |block|]
    ensures chunks == ChunksOf(text, Windows(base, base + |block|, maxChars, overlap))
  {
    hide Windows, ChunksOf, Slice;
    chunks := [];
    if block == "" {
      NoWindows(text, base, maxChars, overlap);
      return;
    }
    ghost var hi := base + |block|;
    var start := 0;
    var length := |block|;
    while start < length
      invariant start < length
      invariant ChunksOf(text, Windows(base, hi, maxChars, overlap))
             == chunks + ChunksOf(text, Windows(base + start, hi, maxChars, overlap))
      decreases length - start
    {
      var end := Min(length, start + maxChars);
      var chunk := block[start..end];
      NextWindow(text, base, block, start, maxChars, overlap);
      chunks := chunks + [TextChunk(chunk, start + base, end + base)];
      if end == length {
        break;
      }
      start := if end < overlap then 0 else end - overlap;
    }
  }

  /** One round of the loop emits the first window of what is left. */
  lemma NextWindow(text: string, base: nat, block: string, start: nat, maxChars: nat, overlap: nat)
    requires Limits(maxChars, overlap) && start < |block|
    requires base + |block| <= |text| && block == text[base..base + |block|]
    ensures var end, hi := Min(|block|, start + maxChars), base + |block|;
            ChunksOf(text, Windows(base + start, hi, maxChars, overlap)) ==
              [TextChunk(block[start..end], start + base, end + base)]
                + (if end == |block| then [] else ChunksOf(text, Windows(base + (end - overlap), hi, maxChars, overlap)))
  {
    var end := Min(|block|, start + maxChars);
    SubSlice(text, base, |block|, start, end);
    WindowsHead(text, base + start, base + |block|, maxChars, overlap);
  }

  lemma NoWindows(text: string, lo: nat, maxChars: nat, overlap: nat)
    requires Limits(maxChars, overlap)
    ensures ChunksOf(text, Windows(lo, lo, maxChars, overlap)) == []
  {}

  lemma SubSlice(text: string, base: nat, n: nat, s: nat, e: nat)
    requires base + n <= |text| && s <= e <= n
    ensures text[base..base + n][s..e] == text[s + base..e + base]
  {
    var a, b := text[base..base + n][s..e], text[s + base..e + base];
    assert |a| == |b|;
    assert forall i | 0 <= i < |a| :: a[i] == b[i];
  }

  lemma WindowsHead(text: string, lo: nat, hi: nat, maxChars: nat, overlap: nat)
    requires Limits(maxChars, overlap) && lo < hi
    ensures var end := Min(hi, lo + maxChars);
            ChunksOf(text, Windows(lo, hi, maxChars, overlap)) ==
              [ChunkAt(text, Span(lo, end))] + (if end == hi then [] else ChunksOf(text, Windows(end - overlap, hi, maxChars, overlap)))
  {}

  /** One block: whole if it fits, else in windows. */
  method EmitBlock(text: string, start: nat, end: nat, maxChars: nat, overlap: nat, chunks: seq<TextChunk>)
    returns (more: seq<TextChunk>)
    requires Limits(maxChars, overlap) && start < end <= |text|
    ensures more == chunks + ChunksOf(text, Block(Span(start, end), maxChars, overlap))
  {
    var block := text[start..end];
    if end - start > maxChars {
      var windows := CharChunks(block, maxChars, overlap, start, text);
      more := chunks + windows;
    } else {
      more := chunks + [TextChunk(block, start, end)];
    }
  }

  /** Packs sentences greedily; a sentence too long for one chunk is cut into windows. */
  method SentenceChunks(text: string, maxChars: nat, overlap: nat) returns (chunks: seq<TextChunk>)
    requires Limits(maxChars, overlap)
    ensures chunks == ChunksOf(text, SentenceSpans(text, maxChars, overlap))
    ensures Contract(text, chunks, maxChars, overlap)
  {
    if text == "" {
      return [];
    }
    hide Packed, Merge, Merged, AllBlocks, Block, Sentences, Contract, Tiles;
    var ss := Sentences(text, 0);
    SentencesPartition(text, 0);
    PackedStart(text, ss, maxChars, overlap);
    SentenceSpansTile(text, maxChars, overlap);
    TilingMeetsContract(text, SentenceSpans(text, maxChars, overlap), maxChars, overlap);
    chunks := [];
    var currentStart: nat, currentEnd: nat := ss[0].start, ss[0].end;
    for i := 1 to |ss|
      invariant currentStart < currentEnd == ss[i - 1].end
      invariant Packed(text, ss, maxChars, overlap, chunks, Span(currentStart, currentEnd), i)
    {
      var start, end := ss[i].start, ss[i].end;
      assert ss[i - 1].end == ss[i - 1 + 1].start;
      SentenceInText(ss, |text|, i - 1);
      PackedStep(text, ss, maxChars, overlap, chunks, Span(currentStart, currentEnd), i);
      if end - currentStart <= maxChars {
        currentEnd := end;
        continue;
      }
      chunks := EmitBlock(text, currentStart, currentEnd, maxChars, overlap, chunks);
      currentStart, currentEnd := start, end;
    }
    PackedEnd(text, ss, maxChars, overlap, chunks, Span(currentStart, currentEnd));
    chunks := EmitBlock(text, currentStart, currentEnd, maxChars, overlap, chunks);
  }

  /** The chunks made so far, with what packing from the current block on would still make. */
  ghost predicate Packed(text: string, ss: seq<Span>, maxChars: nat, overlap: nat, chunks: seq<TextChunk>, current: Span, i: nat)
    requires Limits(maxChars, overlap) && i <= |ss|
  {
    ChunksOf(text, AllBlocks(Merged(ss, maxChars), maxChars, overlap))
      == chunks + ChunksOf(text, AllBlocks(Merge(current, ss[i..], maxChars), maxChars, overlap))
  }

  lemma SentenceInText(ss: seq<Span>, hi: nat, i: nat)
    requires Adjoining(ss, 0, hi) && i < |ss|
    ensures ss[i].end <= hi
  {
    EndsIncrease(ss, 0, hi, i, |ss| - 1);
  }

  lemma ConsBlocks(text: string, head: Span, tail: seq<Span>, maxChars: nat, overlap: nat)
    requires Limits(maxChars, overlap)
    ensures ChunksOf(text, AllBlocks([head] + tail, maxChars, overlap))
         == ChunksOf(text, Block(head, maxChars, overlap)) + ChunksOf(text, AllBlocks(tail, maxChars, overlap))
  {
    assert ([head] + tail)[1..] == tail;
    ChunksOfConcat(text, Block(head, maxChars, overlap), AllBlocks(tail, maxChars, overlap));
  }

  lemma PackedStart(text: string, ss: seq<Span>, maxChars: nat, overlap: nat)
    requires Limits(maxChars, overlap) && ss != []
    ensures Packed(text, ss, maxChars, overlap, [], Span(ss[0].start, ss[0].end), 1)
  {}

  lemma PackedStep(text: string, ss: seq<Span>, maxChars: nat, overlap: nat, chunks: seq<TextChunk>, current: Span, i: nat)
    requires Limits(maxChars, overlap) && i < |ss| && ss[i].start == current.end
    requires Packed(text, ss, maxChars, overlap, chunks, current, i)
    ensures if ss[i].end <= current.start + maxChars
            then Packed(text, ss, maxChars, overlap, chunks, Span(current.start, ss[i].end), i + 1)
            else Packed(text, ss, maxChars, overlap, chunks + ChunksOf(text, Block(current, maxChars, overlap)), ss[i], i + 1)
  {
    assert ss[i..][1..] == ss[i + 1..];
    if ss[i].end > current.start + maxChars {
      ConsBlocks(text, current, Merge(ss[i], ss[i + 1..], maxChars), maxChars, overlap);
    }
  }

  lemma PackedEnd(text: string, ss: seq<Span>, maxChars: nat, overlap: nat, chunks: seq<TextChunk>, current: Span)
    requires Limits(maxChars, overlap)
    requires Packed(text, ss, maxChars, overlap, chunks, current, |ss|)
    ensures ChunksOf(text, AllBlocks(Merged(ss, maxChars), maxChars, overlap))
         == chunks + ChunksOf(text, Block(current, maxChars, overlap))
  {
    assert ss[|ss|..] == [];
    ConsBlocks(text, current, [], maxChars, overlap);
    assert [current] + [] == [current];
  }

  /** The pass over adjoining small chunks. */
  method MergePass(text: string, chunks: seq<TextChunk>, maxChars: nat, ghost spans: seq<Span>) returns (merged: seq<TextChunk>)
    requires chunks == ChunksOf(text, spans)
    requires forall i | 0 <= i < |spans| :: spans[i].start <= spans[i].end <= |text|
    ensures merged == ChunksOf(text, Merged(spans, maxChars))
  {
    hide Merge, Merged, ChunksOf, Slice;
    MergeEnds(text, spans, maxChars);
    merged := [];
    if chunks == [] {
      return;
    }
    var current := chunks[0];
    for i := 1 to |chunks|
      invariant current.start <= current.end <= |text| && current == ChunkAt(text, Span(current.start, current.end))
      invariant ChunksOf(text, Merged(spans, maxChars))
             == merged + ChunksOf(text, Merge(Span(current.start, current.end), spans[i..], maxChars))
    {
      var next := chunks[i];
      MergeStep(text, Span(current.start, current.end), spans, i, maxChars);
      if next.start == current.end && next.end <= current.start + maxChars {
        SliceIn(text, current.start, next.end);
        current := TextChunk(text[current.start..next.end], current.start, next.end);
      } else {
        merged := merged + [current];
        current := next;
      }
    }
    MergeStops(text, Span(current.start, current.end), spans, maxChars);
    merged := merged + [current];
  }

  lemma SliceIn(text: string, s: nat, e: nat)
    requires s <= e <= |text|
    ensures Slice(text, Span(s, e)) == text[s..e]
  {}

  lemma MergeEnds(text: string, spans: seq<Span>, maxChars: nat)
    ensures |ChunksOf(text, spans)| == |spans|
    ensures forall i | 0 <= i < |spans| :: ChunksOf(text, spans)[i] == ChunkAt(text, spans[i])
    ensures if spans == [] then ChunksOf(text, Merged(spans, maxChars)) == []
            else Merged(spans, maxChars) == Merge(spans[0], spans[1..], maxChars)
  {}

  lemma MergeStops(text: string, current: Span, spans: seq<Span>, maxChars: nat)
    ensures ChunksOf(text, Merge(current, spans[|spans|..], maxChars)) == [ChunkAt(text, current)]
  {}

  lemma MergeStep(text: string, current: Span, spans: seq<Span>, i: nat, maxChars: nat)
    requires i < |spans|
    ensures ChunksOf(text, Merge(current, spans[i..], maxChars)) ==
            if spans[i].start == current.end && spans[i].end <= current.start + maxChars
            then ChunksOf(text, Merge(Span(current.start, spans[i].end), spans[i + 1..], maxChars))
            else [ChunkAt(text, current)] + ChunksOf(text, Merge(spans[i], spans[i + 1..], maxChars))
  {
    assert spans[i..][1..] == spans[i + 1..];
    ChunksOfConcat(text, [current], Merge(spans[i], spans[i + 1..], maxChars));
  }

  /** The similarity judge: given the sentences, where to cut between them, or nothing if the
      embedder fails. */
  type Judge = seq<string> -> Option<seq<bool>>

  method SemanticChunks(text: string, maxChars: nat, overlap: nat, judge: Option<Judge>) returns (chunks: seq<TextChunk>)
    requires Limits(maxChars, overlap)
    ensures Contract(text, chunks, maxChars, overlap)
    ensures chunks == SemanticResult(text, maxChars, overlap, judge)
  {
    if text == "" {
      return [];
    }
    if judge == None {
      chunks := SentenceChunks(text, maxChars, overlap);
      return;
    }
    var ss := Sentences(text, 0);
    SentencesPartition(text, 0);
    if |ss| <= 1 {
      chunks := CharChunks(text, maxChars, overlap, 0, text);
      WindowsTile(0, |text|, maxChars, overlap);
      TilingMeetsContract(text, Windows(0, |text|, maxChars, overlap), maxChars, overlap);
      return;
    }
    var decided := judge.value(ChunkTexts(text, ss));
    if decided == None || |decided.value| != |ss| - 1 {
      chunks := SentenceChunks(text, maxChars, overlap);
      return;
    }
    var cuts := decided.value;
    hide Contract, Tiles, BlocksFrom, AllBlocks, Merged, Sentences;
    MergedBlocksGuarantees(ss, cuts, |text|, maxChars, overlap);
    TilingMeetsContract(text, SemanticSpans(text, cuts, maxChars, overlap), maxChars, overlap);
    var raw := CutSentences(text, ss, cuts, maxChars, overlap);
    RawInRange(ss, cuts, |text|, maxChars, overlap);
    chunks := MergePass(text, raw, maxChars, AllBlocks(BlocksFrom(ss, cuts, 0, 0), maxChars, overlap));
  }

  /** The raw chunks of the blocks between the cuts. */
  method CutSentences(text: string, ss: seq<Span>, cuts: seq<bool>, maxChars: nat, overlap: nat) returns (raw: seq<TextChunk>)
    requires Limits(maxChars, overlap) && |cuts| + 1 == |ss| && Adjoining(ss, 0, |text|)
    ensures raw == ChunksOf(text, AllBlocks(BlocksFrom(ss, cuts, 0, 0), maxChars, overlap))
  {
    hide Cut, BlocksFrom, AllBlocks, Block;
    CutStart(text, ss, cuts, maxChars, overlap);
    raw := [];
    var first := 0;
    for i := 0 to |cuts|
      invariant first <= i
      invariant Cut(text, ss, cuts, maxChars, overlap, raw, first, i)
    {
      RunInText(ss, |text|, first, i);
      CutStep(text, ss, cuts, maxChars, overlap, raw, first, i);
      if cuts[i] {
        raw := EmitBlock(text, ss[first].start, ss[i].end, maxChars, overlap, raw);
        first := i + 1;
      }
    }
    RunInText(ss, |text|, first, |ss| - 1);
    CutEnd(text, ss, cuts, maxChars, overlap, raw, first);
    raw := EmitBlock(text, ss[first].start, ss[|ss| - 1].end, maxChars, overlap, raw);
  }

  function ChunkTexts(text: string, ss: seq<Span>): seq<string> {
    seq(|ss|, i requires 0 <= i < |ss| => Slice(text, ss[i]))
  }

  /** Semantic mode: merged blocks when the judge decides, else a fallback. */
  function SemanticResult(text: string, maxChars: nat, overlap: nat, judge: Option<Judge>): seq<TextChunk>
    requires Limits(maxChars, overlap)
  {
    if text == "" then []
    else if judge == None then ChunksOf(text, SentenceSpans(text, maxChars, overlap))
    else if |Sentences(text, 0)| <= 1 then ChunksOf(text, Windows(0, |text|, maxChars, overlap))
    else
      var decided := judge.value(ChunkTexts(text, Sentences(text, 0)));
      if decided.Some? && |decided.value| == |Sentences(text, 0)| - 1
      then ChunksOf(text, SemanticSpans(text, decided.value, maxChars, overlap))
      else ChunksOf(text, SentenceSpans(text, maxChars, overlap))
  }

  /** The raw chunks made so far, with those the blocks from `first` on would still make. */
  ghost predicate Cut(text: string, segments: seq<Span>, cuts: seq<bool>, maxChars: nat, overlap: nat,
                      raw: seq<TextChunk>, first: nat, i: nat)
    requires Limits(maxChars, overlap) && |cuts| + 1 == |segments| && first <= i < |segments|
  {
    ChunksOf(text, AllBlocks(BlocksFrom(segments, cuts, 0, 0), maxChars, overlap))
      == raw + ChunksOf(text, AllBlocks(BlocksFrom(segments, cuts, first, i), maxChars, overlap))
  }

  lemma CutStart(text: string, segments: seq<Span>, cuts: seq<bool>, maxChars: nat, overlap: nat)
    requires Limits(maxChars, overlap) && |cuts| + 1 == |segments|
    ensures Cut(text, segments, cuts, maxChars, overlap, [], 0, 0)
  {}

  lemma CutStep(text: string, segments: seq<Span>, cuts: seq<bool>, maxChars: nat, overlap: nat,
                raw: seq<TextChunk>, first: nat, i: nat)
    requires Limits(maxChars, overlap) && |cuts| + 1 == |segments| && first <= i < |cuts|
    requires Cut(text, segments, cuts, maxChars, overlap, raw, first, i)
    ensures if cuts[i]
            then Cut(text, segments, cuts, maxChars, overlap,
                     raw + ChunksOf(text, Block(Span(segments[first].start, segments[i].end), maxChars, overlap)), i + 1, i + 1)
            else Cut(text, segments, cuts, maxChars, overlap, raw, first, i + 1)
  {
    if cuts[i] {
      ConsBlocks(text, Span(segments[first].start, segments[i].end), BlocksFrom(segments, cuts, i + 1, i + 1), maxChars, overlap);
    }
  }

  lemma CutEnd(text: string, segments: seq<Span>, cuts: seq<bool>, maxChars: nat, overlap: nat, raw: seq<TextChunk>, first: nat)
    requires Limits(maxChars, overlap) && |cuts| + 1 == |segments| && first < |segments|
    requires Cut(text, segments, cuts, maxChars, overlap, raw, first, |cuts|)
    ensures ChunksOf(text, AllBlocks(BlocksFrom(segments, cuts, 0, 0), maxChars, overlap))
         == raw + ChunksOf(text, Block(Span(segments[first].start, segments[|segments| - 1].end), maxChars, overlap))
  {
    var last := Span(segments[first].start, segments[|segments| - 1].end);
    assert BlocksFrom(segments, cuts, first, |cuts|) == [last] + [];
    ConsBlocks(text, last, [], maxChars, overlap);
  }

  lemma RunInText(segments: seq<Span>, hi: nat, first: nat, i: nat)
    requires Adjoining(segments, 0, hi) && first <= i < |segments|
    ensures segments[first].start < segments[i].end <= hi
  {
    EndsIncrease(segments, 0, hi, first, i);
    EndsIncrease(segments, 0, hi, i, |segments| - 1);
  }

  lemma RawInRange(segments: seq<Span>, cuts: seq<bool>, hi: nat, maxChars: nat, overlap: nat)
    requires Limits(maxChars, overlap) && |cuts| + 1 == |segments| && Adjoining(segments, 0, hi)
    ensures var raw := AllBlocks(BlocksFrom(segments, cuts, 0, 0), maxChars, overlap);
            forall i | 0 <= i < |raw| :: raw[i].start <= raw[i].end <= hi
  {
    BlocksAdjoin(segments, cuts, 0, 0, 0, hi);
    AllBlocksTile(BlocksFrom(segments, cuts, 0, 0), 0, hi, maxChars, overlap);
    TilesInRange(AllBlocks(BlocksFrom(segments, cuts, 0, 0), maxChars, overlap), 0, hi, maxChars, overlap);
  }

  /** Blocks of lines: from one top-level definition to the next in Python, else from one
      paragraph to the next. */
  method CodeChunks(text: string, maxChars: nat, overlap: nat, language: string) returns (chunks: seq<TextChunk>)
    requires Limits(maxChars, overlap)
    ensures chunks == ChunksOf(text, CodeSpans(text, language, maxChars, overlap))
    ensures if |text| <= maxChars && Strip(text) == "" then chunks == []
            else Contract(text, chunks, maxChars, overlap)
  {
    if text == "" {
      return [];
    }
    hide Contract, Tiles, BlocksFrom, AllBlocks, Merged, Lines, StartsBlock, Strip;
    var lines := Lines(text, 0);
    LinesPartition(text, 0);
    ghost var cuts := CodeCuts(text, language);
    var raw := CutLines(text, lines, language, maxChars, overlap, cuts);
    if raw == [] {
      return [];
    }
    RawInRange(lines, cuts, |text|, maxChars, overlap);
    chunks := MergePass(text, raw, maxChars, AllBlocks(BlocksFrom(lines, cuts, 0, 0), maxChars, overlap));
    MergedBlocksGuarantees(lines, cuts, |text|, maxChars, overlap);
    TilingMeetsContract(text, MergedBlocks(lines, cuts, maxChars, overlap), maxChars, overlap);
  }

  /** The raw chunks of the blocks of lines; none when the whole text is blank and fits. */
  method CutLines(text: string, lines: seq<Span>, language: string, maxChars: nat, overlap: nat, ghost cuts: seq<bool>)
    returns (raw: seq<TextChunk>)
    requires Limits(maxChars, overlap) && |cuts| + 1 == |lines| && Adjoining(lines, 0, |text|)
    requires forall i | 0 <= i < |cuts| :: cuts[i] == StartsBlock(text, lines, i + 1, language)
    ensures if |text| <= maxChars && Strip(text) == "" then raw == []
            else raw != [] && raw == ChunksOf(text, AllBlocks(BlocksFrom(lines, cuts, 0, 0), maxChars, overlap))
  {
    hide StartsBlock, Strip, Cut, BlocksFrom, AllBlocks, Block;
    CutStart(text, lines, cuts, maxChars, overlap);
    raw := [];
    var first := 0;
    for i := 0 to |lines|
      invariant first <= i && (i > 0 ==> first < i) && first < |lines|
      invariant first > 0 ==> StartsBlock(text, lines, first, language)
      invariant first == 0 ==> raw == []
      invariant Cut(text, lines, cuts, maxChars, overlap, raw, first, if i == 0 then 0 else i - 1)
    {
      if i > 0 {
        CutStep(text, lines, cuts, maxChars, overlap, raw, first, i - 1);
        assert cuts[i - 1] == StartsBlock(text, lines, i - 1 + 1, language);
        assert lines[i - 1].end == lines[i - 1 + 1].start;
        RunInText(lines, |text|, first, i - 1);
      }
      if StartsBlock(text, lines, i, language) && i > first {
        raw := EmitBlock(text, lines[first].start, lines[i].start, maxChars, overlap, raw);
        first := i;
      }
    }
    RunInText(lines, |text|, first, |lines| - 1);
    CutEnd(text, lines, cuts, maxChars, overlap, raw, first);
    var start, end := lines[first].start, lines[|lines| - 1].end;
    var block := text[start..end];
    if first > 0 {
      RunInText(lines, |text|, first, first);
      MarkedLineIsNotBlank(text, lines, first, language, |text|);
    } else {
      assert block == text;
    }
    if end - start <= maxChars && Strip(block) == "" {
      return [];
    }
    BlockIsSomething(text, Span(start, end), maxChars, overlap);
    raw := EmitBlock(text, start, end, maxChars, overlap, raw);
  }

  lemma BlockIsSomething(text: string, b: Span, maxChars: nat, overlap: nat)
    requires Limits(maxChars, overlap) && b.start < b.end
    ensures ChunksOf(text, Block(b, maxChars, overlap)) != []
  {
    BlockTiles(b, maxChars, overlap);
  }

  /** The dispatcher: four modes by name, anything else meaning char mode. */
  method ChunkText(text: string, maxChars: nat, overlap: nat, mode: string, judge: Option<Judge>, language: Option<string>)
    returns (chunks: seq<TextChunk>)
    requires Limits(maxChars, overlap)
    ensures if mode == "code" && |text| <= maxChars && Strip(text) == "" then chunks == []
            else Contract(text, chunks, maxChars, overlap)
    ensures chunks ==
            match mode
            case "semantic" => SemanticResult(text, maxChars, overlap, judge)
            case "code" =>
              var lang := if language.Some? && language.value != "" then language.value else "python";
              ChunksOf(text, CodeSpans(text, lang, maxChars, overlap))
            case "sentence" => ChunksOf(text, SentenceSpans(text, maxChars, overlap))
            case _ => ChunksOf(text, Windows(0, |text|, maxChars, overlap))
  {
    if mode == "semantic" {
      chunks := SemanticChunks(text, maxChars, overlap, judge);
      return;
    }
    if mode == "code" {
      var lang := if language.Some? && language.value != "" then language.value else "python";
      chunks := CodeChunks(text, maxChars, overlap, lang);
      return;
    }
    if mode == "sentence" {
      chunks := SentenceChunks(text, maxChars, overlap);
      return;
    }
    chunks := CharChunks(text, maxChars, overlap, 0, text);
    if text != "" {
      WindowsTile(0, |text|, maxChars, overlap);
      TilingMeetsContract(text, Windows(0, |text|, maxChars, overlap), maxChars, overlap);
    }
  }
}
