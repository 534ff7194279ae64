/** What the merging modes make of the decisions where to cut, said from segments and decisions alone. */
module ChunkCuts {
  import opened ChunkSpans
  import opened ChunkMerge
  import opened ChunkModes

  /** Segments `a` to `b` have no cut between them, and a cut or an end of the text on either side;
      `cuts[i]` is the decision after segment `i`. */
  predicate UncutRun(cuts: seq<bool>, a: nat, b: nat) {
    && a <= b <= |cuts|
    && (a == 0 || cuts[a - 1]) && (b == |cuts| || cuts[b])
    && forall i | a <= i < b :: !cuts[i]
  }

  /** The position is a cut (or an end of the text), or it lies inside an uncut run that is too long. */
  ghost predicate MayDivide(segments: seq<Span>, cuts: seq<bool>, maxChars: nat, p: nat)
    requires |cuts| + 1 == |segments|
  {
    || p == segments[0].start || p == segments[|segments| - 1].end
    || (exists i :: 0 <= i < |cuts| && cuts[i] && segments[i].end == p)
    || (exists a: nat, b: nat ::
          UncutRun(cuts, a, b) && segments[b].end > segments[a].start + maxChars && segments[a].start < p < segments[b].end)
  }

  /** Runs that are not cut and fit together are within one chunk; the windows of one that does not
      fit are chunks, all but the last; and chunks begin and end only where a decision says so, or
      inside a run that is too long for one. */
  ghost predicate RespectsCuts(segments: seq<Span>, cuts: seq<bool>, spans: seq<Span>, maxChars: nat, overlap: nat)
    requires Limits(maxChars, overlap) && |cuts| + 1 == |segments|
  {
    && (forall a: nat, b: nat, k: nat | UncutRun(cuts, a, b) && segments[b].end > segments[a].start + maxChars
          && k + 1 < |Windows(segments[a].start, segments[b].end, maxChars, overlap)| ::
          Windows(segments[a].start, segments[b].end, maxChars, overlap)[k] in spans)
    && (forall a: nat, b: nat | UncutRun(cuts, a, b) && segments[b].end <= segments[a].start + maxChars ::
          exists c :: c in spans && c.start <= segments[a].start && segments[b].end <= c.end)
    && (forall c | c in spans :: MayDivide(segments, cuts, maxChars, c.start) && MayDivide(segments, cuts, maxChars, c.end))
  }

  // ---------------------------------------------------------------- blocks are uncut runs

  lemma {:induction false} BlockIsRun(segments: seq<Span>, cuts: seq<bool>, first: nat, i: nat, x: Span) returns (a: nat, b: nat)
    requires |cuts| + 1 == |segments| && first <= i < |segments|
    requires (first == 0 || cuts[first - 1]) && forall j | first <= j < i :: !cuts[j]
    requires x in BlocksFrom(segments, cuts, first, i)
    ensures UncutRun(cuts, a, b) && x == Span(segments[a].start, segments[b].end)
    decreases |segments| - i
  {
    if i == |cuts| {
      a, b := first, i;
    } else if cuts[i] {
      if x == Span(segments[first].start, segments[i].end) {
        a, b := first, i;
      } else {
        a, b := BlockIsRun(segments, cuts, i + 1, i + 1, x);
      }
    } else {
      a, b := BlockIsRun(segments, cuts, first, i + 1, x);
    }
  }

  lemma {:induction false} RunIsBlock(segments: seq<Span>, cuts: seq<bool>, first: nat, i: nat, a: nat, b: nat)
    requires |cuts| + 1 == |segments| && first <= i < |segments|
    requires forall j | first <= j < i :: !cuts[j]
    requires UncutRun(cuts, a, b) && first <= a && i <= b && (a == first || i < a)
    ensures Span(segments[a].start, segments[b].end) in BlocksFrom(segments, cuts, first, i)
    decreases |segments| - i
  {
    if i == |cuts| {
    } else if cuts[i] {
      if b != i { RunIsBlock(segments, cuts, i + 1, i + 1, a, b); }
    } else {
      RunIsBlock(segments, cuts, first, i + 1, a, b);
    }
  }

  // ---------------------------------------------------------------- windows stay inside their block

  lemma {:induction false} SpanOfBlock(blocks: seq<Span>, maxChars: nat, overlap: nat, c: Span) returns (b: Span)
    requires Limits(maxChars, overlap) && c in AllBlocks(blocks, maxChars, overlap)
    ensures b in blocks && c in Block(b, maxChars, overlap)
  {
    if c in Block(blocks[0], maxChars, overlap) {
      b := blocks[0];
    } else {
      b := SpanOfBlock(blocks[1..], maxChars, overlap, c);
    }
  }

  lemma {:induction false} StartsGrow(spans: seq<Span>, lo: nat, hi: nat, maxChars: nat, overlap: nat, i: nat)
    requires Tiles(spans, lo, hi, maxChars, overlap) && i < |spans|
    ensures lo <= spans[i].start
  {
    if i > 0 {
      StartsGrow(spans, lo, hi, maxChars, overlap, i - 1);
      assert Follows(spans[i - 1], spans[i - 1 + 1], overlap);
    }
  }

  lemma BlockHolds(b: Span, maxChars: nat, overlap: nat, c: Span)
    requires Limits(maxChars, overlap) && b.start < b.end && c in Block(b, maxChars, overlap)
    ensures b.start <= c.start < c.end <= b.end
    ensures b.end <= b.start + maxChars ==> c == b
  {
    BlockTiles(b, maxChars, overlap);
    var spans := Block(b, maxChars, overlap);
    var i :| 0 <= i < |spans| && spans[i] == c;
    StartsGrow(spans, b.start, b.end, maxChars, overlap, i);
    EndsGrow(spans, b.start, b.end, maxChars, overlap, i);
    assert Within(spans[i], maxChars);
  }

  // ---------------------------------------------------------------- merging only joins

  lemma {:induction false} MergeContains(current: Span, rest: seq<Span>, maxChars: nat, x: Span) returns (c: Span)
    requires forall y | y in [current] + rest :: y.start <= y.end
    requires x.start <= x.end && (x in rest || Contains(current, x))
    ensures c in Merge(current, rest, maxChars) && Contains(c, x)
    decreases |rest|
  {
    if rest == [] {
      c := current;
    } else {
      var next, tail := rest[0], rest[1..];
      assert next in [current] + rest && current in [current] + rest;
      assert forall y | y in tail :: y in [current] + rest;
      if next.start == current.end && next.end <= current.start + maxChars {
        c := MergeContains(Span(current.start, next.end), tail, maxChars, x);
      } else if x in rest {
        c := MergeContains(next, tail, maxChars, x);
      } else {
        c := current;
      }
    }
  }

  lemma {:induction false} MergeEnds(current: Span, rest: seq<Span>, maxChars: nat, c: Span)
    requires c in Merge(current, rest, maxChars)
    ensures c.start == current.start || exists x :: x in rest && x.start == c.start
    ensures c.end == current.end || exists x :: x in rest && x.end == c.end
    decreases |rest|
  {
    if rest != [] {
      var next, tail := rest[0], rest[1..];
      if next.start == current.end && next.end <= current.start + maxChars {
        MergeEnds(Span(current.start, next.end), tail, maxChars, c);
      } else if c != current {
        MergeEnds(next, tail, maxChars, c);
      }
    }
  }

  predicate Before(a: Span, b: Span) {
    a.start < b.start && a.end < b.end
  }

  ghost predicate Advancing(spans: seq<Span>) {
    forall i | 0 <= i < |spans| - 1 :: Before(spans[i], spans[i + 1])
  }

  lemma AdvancingTail(current: Span, rest: seq<Span>)
    requires Advancing([current] + rest) && rest != []
    ensures Before(current, rest[0]) && Advancing([rest[0]] + rest[1..])
    ensures Advancing([Span(current.start, rest[0].end)] + rest[1..])
  {
    var all, joined := [current] + rest, [Span(current.start, rest[0].end)] + rest[1..];
    assert Before(all[0], all[1]);
    assert [rest[0]] + rest[1..] == rest;
    forall i | 0 <= i < |rest| - 1 ensures Before(rest[i], rest[i + 1]) {
      assert Before(all[i + 1], all[i + 2]);
    }
    forall i | 0 <= i < |joined| - 1 ensures Before(joined[i], joined[i + 1]) {
      assert Before(all[i + 1], all[i + 2]);
    }
  }

  /** A span of the full length stays as it is. */
  lemma {:induction false} MergeKeepsFull(current: Span, rest: seq<Span>, maxChars: nat, x: Span)
    requires x.end == x.start + maxChars && (x == current || x in rest)
    requires Advancing([current] + rest)
    ensures x in Merge(current, rest, maxChars)
    decreases |rest|
  {
    if rest != [] {
      var next, tail := rest[0], rest[1..];
      AdvancingTail(current, rest);
      if next.start == current.end && next.end <= current.start + maxChars {
        MergeKeepsFull(Span(current.start, next.end), tail, maxChars, x);
      } else if x != current {
        MergeKeepsFull(next, tail, maxChars, x);
      }
    }
  }

  lemma {:induction false} WindowIsFull(lo: nat, hi: nat, maxChars: nat, overlap: nat, k: nat)
    requires Limits(maxChars, overlap) && lo < hi && k + 1 < |Windows(lo, hi, maxChars, overlap)|
    ensures var w := Windows(lo, hi, maxChars, overlap)[k]; w.end == w.start + maxChars
  {
    WindowsTile(lo, hi, maxChars, overlap);
    WindowsClosedForm(lo, hi, maxChars, overlap, k);
    WindowsClosedForm(lo, hi, maxChars, overlap, k + 1);
    assert Follows(Windows(lo, hi, maxChars, overlap)[k], Windows(lo, hi, maxChars, overlap)[k + 1], overlap);
  }

  lemma {:induction false} BlockIsEmitted(blocks: seq<Span>, b: Span, maxChars: nat, overlap: nat, x: Span)
    requires Limits(maxChars, overlap) && b in blocks && x in Block(b, maxChars, overlap)
    ensures x in AllBlocks(blocks, maxChars, overlap)
  {
    if blocks[0] != b { BlockIsEmitted(blocks[1..], b, maxChars, overlap, x); }
  }

  // ---------------------------------------------------------------- main result

  lemma BlockDivides(segments: seq<Span>, cuts: seq<bool>, hi: nat, maxChars: nat, overlap: nat, x: Span)
    requires Limits(maxChars, overlap) && |cuts| + 1 == |segments| && Adjoining(segments, 0, hi)
    requires x in AllBlocks(BlocksFrom(segments, cuts, 0, 0), maxChars, overlap)
    ensures x.start < x.end
    ensures MayDivide(segments, cuts, maxChars, x.start) && MayDivide(segments, cuts, maxChars, x.end)
  {
    var b := SpanOfBlock(BlocksFrom(segments, cuts, 0, 0), maxChars, overlap, x);
    var i, j := BlockIsRun(segments, cuts, 0, 0, b);
    EndsIncrease(segments, 0, hi, i, j);
    BlockHolds(b, maxChars, overlap, x);
    RunEndsDivide(segments, cuts, hi, maxChars, i, j);
  }

  lemma RunEndsDivide(segments: seq<Span>, cuts: seq<bool>, hi: nat, maxChars: nat, a: nat, b: nat)
    requires |cuts| + 1 == |segments| && Adjoining(segments, 0, hi) && UncutRun(cuts, a, b)
    ensures MayDivide(segments, cuts, maxChars, segments[a].start) && MayDivide(segments, cuts, maxChars, segments[b].end)
  {
    if a > 0 { assert segments[a - 1].end == segments[a - 1 + 1].start; }
  }

  /** The merged blocks respect the cuts, whatever they are. */
  lemma MergedBlocksRespectCuts(segments: seq<Span>, cuts: seq<bool>, hi: nat, maxChars: nat, overlap: nat)
    requires Limits(maxChars, overlap) && |cuts| + 1 == |segments| && Adjoining(segments, 0, hi)
    ensures RespectsCuts(segments, cuts, MergedBlocks(segments, cuts, maxChars, overlap), maxChars, overlap)
  {
    hide MayDivide, UncutRun, AllBlocks, Merge, BlocksFrom;
    var blocks := BlocksFrom(segments, cuts, 0, 0);
    var raw, spans := AllBlocks(blocks, maxChars, overlap), MergedBlocks(segments, cuts, maxChars, overlap);
    RawIsSomething(segments, cuts, hi, maxChars, overlap);
    forall x | x in raw
      ensures x.start < x.end && MayDivide(segments, cuts, maxChars, x.start) && MayDivide(segments, cuts, maxChars, x.end)
    {
      BlockDivides(segments, cuts, hi, maxChars, overlap, x);
    }
    assert raw == [raw[0]] + raw[1..];
    forall c | c in spans ensures MayDivide(segments, cuts, maxChars, c.start) && MayDivide(segments, cuts, maxChars, c.end) {
      MergeEnds(raw[0], raw[1..], maxChars, c);
    }
    forall a: nat, b: nat | UncutRun(cuts, a, b) && a <= b < |segments| && segments[b].end <= segments[a].start + maxChars
      ensures exists c :: c in spans && c.start <= segments[a].start && segments[b].end <= c.end
    {
      FittingRunIsBlock(segments, cuts, hi, maxChars, overlap, a, b);
      var c := MergeContains(raw[0], raw[1..], maxChars, Span(segments[a].start, segments[b].end));
    }
    forall a: nat, b: nat, k: nat | UncutRun(cuts, a, b) && a <= b < |segments| && segments[b].end > segments[a].start + maxChars
        && k + 1 < |Windows(segments[a].start, segments[b].end, maxChars, overlap)|
      ensures Windows(segments[a].start, segments[b].end, maxChars, overlap)[k] in spans
    {
      LongRunIsWindowed(segments, cuts, hi, maxChars, overlap, a, b, k);
    }
  }

  lemma LongRunIsWindowed(segments: seq<Span>, cuts: seq<bool>, hi: nat, maxChars: nat, overlap: nat, a: nat, b: nat, k: nat)
    requires Limits(maxChars, overlap) && |cuts| + 1 == |segments| && Adjoining(segments, 0, hi)
    requires UncutRun(cuts, a, b) && segments[b].end > segments[a].start + maxChars
    requires k + 1 < |Windows(segments[a].start, segments[b].end, maxChars, overlap)|
    ensures Windows(segments[a].start, segments[b].end, maxChars, overlap)[k] in MergedBlocks(segments, cuts, maxChars, overlap)
  {
    hide Merge, AllBlocks, BlocksFrom, Windows;
    var run := Span(segments[a].start, segments[b].end);
    var x := Windows(run.start, run.end, maxChars, overlap)[k];
    var blocks := BlocksFrom(segments, cuts, 0, 0);
    var raw := AllBlocks(blocks, maxChars, overlap);
    RunIsBlock(segments, cuts, 0, 0, a, b);
    BlockIsEmitted(blocks, run, maxChars, overlap, x);
    WindowIsFull(run.start, run.end, maxChars, overlap, k);
    BlocksAdjoin(segments, cuts, 0, 0, 0, hi);
    AllBlocksTile(blocks, 0, hi, maxChars, overlap);
    assert raw == [raw[0]] + raw[1..];
    forall i | 0 <= i < |raw| - 1 ensures Before(raw[i], raw[i + 1]) {
      assert Follows(raw[i], raw[i + 1], overlap);
    }
    MergeKeepsFull(raw[0], raw[1..], maxChars, x);
  }

  lemma RawIsSomething(segments: seq<Span>, cuts: seq<bool>, hi: nat, maxChars: nat, overlap: nat)
    requires Limits(maxChars, overlap) && |cuts| + 1 == |segments| && Adjoining(segments, 0, hi)
    ensures AllBlocks(BlocksFrom(segments, cuts, 0, 0), maxChars, overlap) != []
    ensures forall a: nat, b: nat | UncutRun(cuts, a, b) :: a <= b < |segments|
  {
    BlocksAdjoin(segments, cuts, 0, 0, 0, hi);
    AllBlocksTile(BlocksFrom(segments, cuts, 0, 0), 0, hi, maxChars, overlap);
  }

  lemma FittingRunIsBlock(segments: seq<Span>, cuts: seq<bool>, hi: nat, maxChars: nat, overlap: nat, a: nat, b: nat)
    requires Limits(maxChars, overlap) && |cuts| + 1 == |segments| && Adjoining(segments, 0, hi)
    requires UncutRun(cuts, a, b) && segments[b].end <= segments[a].start + maxChars
    ensures Span(segments[a].start, segments[b].end) in AllBlocks(BlocksFrom(segments, cuts, 0, 0), maxChars, overlap)
    ensures segments[a].start <= segments[b].end
  {
    RunIsBlock(segments, cuts, 0, 0, a, b);
    WholeBlockIsEmitted(BlocksFrom(segments, cuts, 0, 0), Span(segments[a].start, segments[b].end), maxChars, overlap);
    EndsIncrease(segments, 0, hi, a, b);
  }
}
