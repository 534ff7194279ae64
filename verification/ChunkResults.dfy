/** What each chunking mode yields, in terms of the text: its sentences, its lines, the decisions. */
module ChunkResults {
  import opened Uris
  import opened Text
  import opened ChunkSpans
  import opened ChunkMerge
  import opened Segments
  import opened ChunkModes
  import opened ChunkCuts
  import opened Chunker

  // ---------------------------------------------------------------- sentences and lines

  /** Something may end here: a sentence mark before whitespace or the end of the text, or a newline. */
  predicate Closes(text: string, q: nat) {
    q < |text| && (
      || ((text[q] == '.' || text[q] == '!' || text[q] == '?') && (q + 1 == |text| || IsSpace(text[q + 1])))
      || text[q] == '\n')
  }

  lemma {:induction false} SpacesSkipped(text: string, q: nat)
    requires q <= |text|
    ensures var r := SkipSpaces(text, q);
            (forall i | q <= i < r :: IsSpace(text[i])) && (r == |text| || !IsSpace(text[r]))
    decreases |text| - q
  {
    if q < |text| && IsSpace(text[q]) { SpacesSkipped(text, q + 1); }
  }

  lemma {:induction false} NewlinesSkipped(text: string, q: nat)
    requires q <= |text|
    ensures var r := SkipNewlines(text, q);
            (forall i | q <= i < r :: text[i] == '\n') && (r == |text| || text[r] != '\n')
    decreases |text| - q
  {
    if q < |text| && text[q] == '\n' { NewlinesSkipped(text, q + 1); }
  }

  /** A sentence from `p` goes on to the first closing place after its first character: through a mark
      and all the whitespace after it, or through a whole run of newlines; without one it goes on to
      the end of the text. */
  lemma SentenceShape(text: string, p: nat) returns (q: nat)
    requires p < |text|
    ensures var e := SentenceEnd(text, p);
            && p < q <= e <= |text|
            && (forall r | p < r < q :: !Closes(text, r))
            && if q == |text| then e == |text|
               else
                 && Closes(text, q) && q < e
                 && (if text[q] == '\n'
                     then (forall i | q <= i < e :: text[i] == '\n') && (e == |text| || text[e] != '\n')
                     else (forall i | q < i < e :: IsSpace(text[i])) && (e == |text| || !IsSpace(text[e])))
  {
    SentenceEndIsLeast(text, p + 1);
    q :| p + 1 <= q <= |text| && TailEnd(text, q) == Some(SentenceEnd(text, p))
         && forall r | p + 1 <= r < q :: TailEnd(text, r) == None;
    forall r | p < r < q ensures !Closes(text, r) {
      assert TailEnd(text, r) == None;
    }
    if q < |text| {
      SpacesSkipped(text, q + 1);
      NewlinesSkipped(text, q);
    }
  }

  /** A line goes on through the first line break, a carriage return before a newline not counting, or
      to the end of the text. */
  lemma {:induction false} LineShape(text: string, p: nat)
    requires p < |text|
    ensures var e := LineEnd(text, p);
            && (forall i | p <= i < e - 1 :: IsLineBreak(text[i]) ==> i == e - 2 && text[i] == '\r' && text[e - 1] == '\n')
            && (e == |text| || IsLineBreak(text[e - 1]))
            && (e < |text| && text[e - 1] == '\r' ==> text[e] != '\n')
    decreases |text| - p
  {
    if !IsLineBreak(text[p]) && p + 1 < |text| { LineShape(text, p + 1); }
  }

  /** The sentences are those matches one after the other, the lines those lines. */
  lemma {:induction false} SentencesAreMatches(text: string, p: nat)
    requires p <= |text|
    ensures forall x | x in Sentences(text, p) :: x.start < |text| && x.end == SentenceEnd(text, x.start)
    decreases |text| - p
  {
    if p < |text| {
      SentenceEndIsLeast(text, p + 1);
      SentencesAreMatches(text, SentenceEnd(text, p));
    }
  }

  lemma {:induction false} LinesAreLines(text: string, p: nat)
    requires p <= |text|
    ensures forall x | x in Lines(text, p) :: x.start < |text| && x.end == LineEnd(text, x.start)
    decreases |text| - p
  {
    if p < |text| { LinesAreLines(text, LineEnd(text, p)); }
  }

  // ---------------------------------------------------------------- sentence mode

  /** The group could not have taken the segment after it. */
  ghost predicate Full(segments: seq<Span>, g: Span, maxChars: nat) {
    forall x | x in segments && x.start == g.end :: x.end > g.start + maxChars
  }

  lemma {:induction false} MergeFills(current: Span, rest: seq<Span>, hi: nat, maxChars: nat, g: Span)
    requires Adjoining([current] + rest, current.start, hi) && g in Merge(current, rest, maxChars)
    ensures current.end <= g.end && Full(rest, g, maxChars)
    decreases |rest|
  {
    if rest != [] {
      MergeOfAdjoining(current, rest, hi);
      var next, tail := rest[0], rest[1..];
      assert rest == [next] + tail;
      LaterStart(rest, hi);
      if next.end <= current.start + maxChars {
        MergeFills(Span(current.start, next.end), tail, hi, maxChars, g);
      } else if g != current {
        MergeFills(next, tail, hi, maxChars, g);
      }
    }
  }

  /** All segments but the first start at its end or later. */
  lemma LaterStart(rest: seq<Span>, hi: nat)
    requires rest != [] && Adjoining(rest, rest[0].start, hi)
    ensures forall x | x in rest[1..] :: rest[0].end <= x.start
  {
    forall x | x in rest[1..] ensures rest[0].end <= x.start {
      var i :| 0 <= i < |rest[1..]| && rest[1..][i] == x;
      EndsIncrease(rest, rest[0].start, hi, 0, i);
      assert rest[i].end == rest[i + 1].start;
    }
  }

  lemma {:induction false} AllBlocksMembers(blocks: seq<Span>, maxChars: nat, overlap: nat)
    requires Limits(maxChars, overlap)
    ensures forall c :: c in AllBlocks(blocks, maxChars, overlap) <==>
              exists g :: g in blocks && if g.end <= g.start + maxChars then c == g else c in Windows(g.start, g.end, maxChars, overlap)
  {
    forall c
      ensures c in AllBlocks(blocks, maxChars, overlap) <==>
              exists g :: g in blocks && if g.end <= g.start + maxChars then c == g else c in Windows(g.start, g.end, maxChars, overlap)
    {
      if c in AllBlocks(blocks, maxChars, overlap) {
        var g := SpanOfBlock(blocks, maxChars, overlap, c);
        assert c in Block(g, maxChars, overlap);
      }
      if g :| g in blocks && if g.end <= g.start + maxChars then c == g else c in Windows(g.start, g.end, maxChars, overlap) {
        assert c in Block(g, maxChars, overlap);
        BlockIsEmitted(blocks, g, maxChars, overlap, c);
      }
    }
  }

  /** Sentence mode: the sentences are grouped in order, a group of several fits, no group could have
      taken the sentence after it; the chunks are the groups, and the windows of those that do not
      fit. Such a grouping is the only one (`GreedyIsUnique`), and none has fewer groups. */
  lemma SentenceModeExact(text: string, maxChars: nat, overlap: nat) returns (groups: seq<Span>)
    requires Limits(maxChars, overlap) && text != ""
    ensures Grouping(Sentences(text, 0), groups, maxChars)
    ensures forall g | g in groups :: Full(Sentences(text, 0), g, maxChars)
    ensures forall other | Grouping(Sentences(text, 0), other, maxChars) :: |groups| <= |other|
    ensures forall c :: c in SentenceSpans(text, maxChars, overlap) <==>
              exists g :: g in groups && if g.end <= g.start + maxChars then c == g else c in Windows(g.start, g.end, maxChars, overlap)
  {
    var ss := Sentences(text, 0);
    groups := Merged(ss, maxChars);
    SentencesPartition(text, 0);
    assert ss == [ss[0]] + ss[1..];
    assert Span(ss[0].start, ss[1 - 1].end) == ss[0];
    MergeIsGrouping(ss, ss[0], 1, 0, |text|, maxChars);
    forall other | Grouping(ss, other, maxChars) ensures |groups| <= |other| {
      PackingIsOptimal(ss, other, 0, |text|, maxChars);
    }
    forall g | g in groups ensures Full(ss, g, maxChars) {
      MergeFills(ss[0], ss[1..], |text|, maxChars, g);
    }
    AllBlocksMembers(groups, maxChars, overlap);
  }

  /** Two such groupings of the same segments are the same. */
  lemma {:induction false} GreedyIsUnique(segments: seq<Span>, a: seq<Span>, b: seq<Span>, lo: nat, hi: nat, maxChars: nat)
    requires segments != [] ==> Adjoining(segments, lo, hi)
    requires Grouping(segments, a, maxChars) && forall g | g in a :: Full(segments, g, maxChars)
    requires Grouping(segments, b, maxChars) && forall g | g in b :: Full(segments, g, maxChars)
    ensures a == b
    decreases |segments|
  {
    hide Full, Grouping, GroupOf, Adjoining;
    var j := FirstGroup(segments, a, maxChars);
    var k := FirstGroup(segments, b, maxChars);
    if segments != [] {
      assert a[0] in a && b[0] in b;
      FullGroupIsLongest(segments, lo, hi, maxChars, a[0], j, b[0], k);
      FullGroupIsLongest(segments, lo, hi, maxChars, b[0], k, a[0], j);
      SameGroup(segments, a[0], b[0], j, maxChars);
      if j < |segments| { SuffixAdjoins(segments, lo, hi, j); }
      FullInSuffix(segments, a, j, maxChars);
      FullInSuffix(segments, b, j, maxChars);
      GreedyIsUnique(segments[j..], a[1..], b[1..], if j < |segments| then segments[j].start else hi, hi, maxChars);
      assert a == [a[0]] + a[1..] && b == [b[0]] + b[1..];
    }
  }

  lemma FirstGroup(segments: seq<Span>, groups: seq<Span>, maxChars: nat) returns (k: nat)
    requires Grouping(segments, groups, maxChars)
    ensures if segments == [] then groups == []
            else
              && groups != [] && 1 <= k <= |segments|
              && GroupOf(segments, groups[0], k, maxChars) && Grouping(segments[k..], groups[1..], maxChars)
  {
    k := 0;
    if segments != [] {
      k :| GroupOf(segments, groups[0], k, maxChars) && Grouping(segments[k..], groups[1..], maxChars);
    }
  }

  lemma SameGroup(segments: seq<Span>, g: Span, h: Span, k: nat, maxChars: nat)
    requires GroupOf(segments, g, k, maxChars) && GroupOf(segments, h, k, maxChars)
    ensures g == h
  {}

  lemma FullInSuffix(segments: seq<Span>, groups: seq<Span>, j: nat, maxChars: nat)
    requires groups != [] && j <= |segments| && forall g | g in groups :: Full(segments, g, maxChars)
    ensures forall g | g in groups[1..] :: Full(segments[j..], g, maxChars)
  {
    forall g | g in groups[1..] ensures Full(segments[j..], g, maxChars) {
      assert g in groups;
      forall x | x in segments[j..] && x.start == g.end ensures x.end > g.start + maxChars {
        assert x in segments && Full(segments, g, maxChars);
      }
    }
  }

  lemma FullGroupIsLongest(segments: seq<Span>, lo: nat, hi: nat, maxChars: nat, g: Span, j: nat, h: Span, k: nat)
    requires Adjoining(segments, lo, hi)
    requires GroupOf(segments, g, j, maxChars) && Full(segments, g, maxChars) && GroupOf(segments, h, k, maxChars)
    ensures k <= j
  {
    if j < k {
      assert segments[j - 1].end == segments[j - 1 + 1].start;
      assert segments[j] in segments;
      EndsIncrease(segments, lo, hi, j, k - 1);
      assert false;
    }
  }

  // ---------------------------------------------------------------- semantic mode

  /** The pieces are the sentences of the text, in order. */
  ghost predicate ArePieces(text: string, ss: seq<Span>, pieces: seq<string>) {
    |pieces| == |ss| && forall i | 0 <= i < |ss| :: ss[i].start <= ss[i].end <= |text| && pieces[i] == text[ss[i].start..ss[i].end]
  }

  lemma SentenceTexts(text: string) returns (pieces: seq<string>)
    requires text != ""
    ensures pieces == ChunkTexts(text, Sentences(text, 0)) && ArePieces(text, Sentences(text, 0), pieces)
  {
    var ss := Sentences(text, 0);
    pieces := ChunkTexts(text, ss);
    SentencesPartition(text, 0);
    forall i | 0 <= i < |ss| ensures ss[i].start <= ss[i].end <= |text| {
      EndsIncrease(ss, 0, |text|, i, |ss| - 1);
    }
  }

  /** Given a judge of the sentences that decides between every two of them, the chunks respect its
      decisions. */
  lemma SemanticByJudge(text: string, maxChars: nat, overlap: nat, judge: Judge, cuts: seq<bool>)
    requires Limits(maxChars, overlap) && text != "" && |Sentences(text, 0)| > 1 && |cuts| + 1 == |Sentences(text, 0)|
    requires forall pieces | ArePieces(text, Sentences(text, 0), pieces) :: judge(pieces) == Some(cuts)
    ensures var chunks := SemanticResult(text, maxChars, overlap, Some(judge));
            RespectsCuts(Sentences(text, 0), cuts, Spans(chunks), maxChars, overlap)
  {
    var ss := Sentences(text, 0);
    var pieces := SentenceTexts(text);
    SentencesPartition(text, 0);
    MergedBlocksRespectCuts(ss, cuts, |text|, maxChars, overlap);
    SpansOfChunks(text, SemanticSpans(text, cuts, maxChars, overlap));
  }

  lemma SpansOfChunks(text: string, spans: seq<Span>)
    ensures Spans(ChunksOf(text, spans)) == spans
  {}

  /** Without an embedder, or when it fails or miscounts, sentence mode takes over; a single sentence is
      cut as in char mode. */
  lemma SemanticFallsBack(text: string, maxChars: nat, overlap: nat, judge: Option<Judge>)
    requires Limits(maxChars, overlap) && text != ""
    ensures var chunks := SemanticResult(text, maxChars, overlap, judge);
            && (judge == None ==> Spans(chunks) == SentenceSpans(text, maxChars, overlap))
            && (judge.Some? && |Sentences(text, 0)| <= 1 ==> Spans(chunks) == Windows(0, |text|, maxChars, overlap))
            && (judge.Some? && |Sentences(text, 0)| > 1
                && (forall pieces | ArePieces(text, Sentences(text, 0), pieces) ::
                      judge.value(pieces) == None || |judge.value(pieces).value| != |Sentences(text, 0)| - 1)
                ==> Spans(chunks) == SentenceSpans(text, maxChars, overlap))
  {
    var pieces := SentenceTexts(text);
    SpansOfChunks(text, SentenceSpans(text, maxChars, overlap));
    SpansOfChunks(text, Windows(0, |text|, maxChars, overlap));
  }

  // ---------------------------------------------------------------- code mode

  /** A block starts at a top-level definition in Python, else after a blank line at one that is not. */
  predicate Marked(language: string, before: string, line: string) {
    if language == "python" then "def " <= line || "class " <= line || "async def " <= line
    else Text.Blank(before) && !Text.Blank(line)
  }

  /** The line after line `i` is marked. */
  predicate MarkedAfter(text: string, lines: seq<Span>, language: string, i: nat) {
    && i + 1 < |lines|
    && var before, line := lines[i], lines[i + 1];
       && before.start <= before.end <= |text| && line.start <= line.end <= |text|
       && Marked(language, text[before.start..before.end], text[line.start..line.end])
  }

  lemma MarkIsStart(text: string, lines: seq<Span>, i: nat, language: string)
    requires i + 1 < |lines| && Adjoining(lines, 0, |text|)
    ensures StartsBlock(text, lines, i + 1, language) <==> MarkedAfter(text, lines, language, i)
  {
    EndsIncrease(lines, 0, |text|, i, i + 1);
    EndsIncrease(lines, 0, |text|, i + 1, |lines| - 1);
    StripTrims(Slice(text, lines[i]));
    LeftStripSuffix(Slice(text, lines[i + 1]));
  }

  /** Code mode cuts before each marked line and nowhere else; blank text that fits gives nothing. */
  lemma CodeByMarks(text: string, language: string, maxChars: nat, overlap: nat, cuts: seq<bool>)
    requires Limits(maxChars, overlap) && text != "" && !(|text| <= maxChars && Text.Blank(text))
    requires |cuts| + 1 == |Lines(text, 0)|
    requires forall i: nat | i < |cuts| :: cuts[i] <==> MarkedAfter(text, Lines(text, 0), language, i)
    ensures RespectsCuts(Lines(text, 0), cuts, CodeSpans(text, language, maxChars, overlap), maxChars, overlap)
  {
    var lines := Lines(text, 0);
    LinesPartition(text, 0);
    StripTrims(text);
    forall i | 0 <= i < |cuts| ensures cuts[i] == CodeCuts(text, language)[i] {
      MarkIsStart(text, lines, i, language);
    }
    assert cuts == CodeCuts(text, language);
    MergedBlocksRespectCuts(lines, cuts, |text|, maxChars, overlap);
  }
}
