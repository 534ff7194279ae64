/**
 Blocks and merging: adjacent segments are cut into blocks, oversize blocks into windows, and
 small neighbours merged greedily. Packing sentences is the same greedy merge.
 */
module ChunkMerge {
  import opened ChunkSpans

  /** Segments that adjoin: each starts where the one before it ends, none is empty. */
  ghost predicate Adjoining(segments: seq<Span>, lo: nat, hi: nat) {
    && segments != [] && segments[0].start == lo && segments[|segments| - 1].end == hi
    && (forall i | 0 <= i < |segments| :: segments[i].start < segments[i].end)
    && (forall i | 0 <= i < |segments| - 1 :: segments[i].end == segments[i + 1].start)
  }

  lemma AdjoiningTail(segments: seq<Span>, lo: nat, hi: nat)
    requires Adjoining(segments, lo, hi) && |segments| > 1
    ensures Adjoining(segments[1..], segments[0].end, hi)
  {}

  /** One block: kept whole if it fits, else cut into windows. */
  function Block(b: Span, maxChars: nat, overlap: nat): seq<Span>
    requires Limits(maxChars, overlap)
  {
    if b.end <= b.start + maxChars then [b] else Windows(b.start, b.end, maxChars, overlap)
  }

  function AllBlocks(blocks: seq<Span>, maxChars: nat, overlap: nat): seq<Span>
    requires Limits(maxChars, overlap)
  {
    if blocks == [] then [] else Block(blocks[0], maxChars, overlap) + AllBlocks(blocks[1..], maxChars, overlap)
  }

  /** The greedy pass: the current span swallows the next one while they adjoin and fit together. */
  function Merge(current: Span, rest: seq<Span>, maxChars: nat): seq<Span>
    decreases |rest|
  {
    if rest == [] then [current]
    else if rest[0].start == current.end && rest[0].end <= current.start + maxChars
    then Merge(Span(current.start, rest[0].end), rest[1..], maxChars)
    else [current] + Merge(rest[0], rest[1..], maxChars)
  }

  function Merged(spans: seq<Span>, maxChars: nat): seq<Span> {
    if spans == [] then [] else Merge(spans[0], spans[1..], maxChars)
  }

  // ---------------------------------------------------------------- tiling

  lemma BlockTiles(b: Span, maxChars: nat, overlap: nat)
    requires Limits(maxChars, overlap) && b.start < b.end
    ensures Tiles(Block(b, maxChars, overlap), b.start, b.end, maxChars, overlap)
  {
    if b.end > b.start + maxChars { WindowsTile(b.start, b.end, maxChars, overlap); }
  }

  lemma {:induction false} AllBlocksTile(blocks: seq<Span>, lo: nat, hi: nat, maxChars: nat, overlap: nat)
    requires Limits(maxChars, overlap) && Adjoining(blocks, lo, hi)
    ensures Tiles(AllBlocks(blocks, maxChars, overlap), lo, hi, maxChars, overlap)
    decreases |blocks|
  {
    BlockTiles(blocks[0], maxChars, overlap);
    var first := Block(blocks[0], maxChars, overlap);
    if |blocks| == 1 {
      assert AllBlocks(blocks[1..], maxChars, overlap) == [];
      assert first + [] == first;
    } else {
      AdjoiningTail(blocks, lo, hi);
      AllBlocksTile(blocks[1..], blocks[0].end, hi, maxChars, overlap);
      TilesConcat(first, AllBlocks(blocks[1..], maxChars, overlap), lo, blocks[0].end, hi, maxChars, overlap);
    }
  }

  /** Spans that share characters with the next one have the full length: only windows do. */
  ghost predicate FullBeforeOverlap(spans: seq<Span>, maxChars: nat) {
    forall i | 0 <= i < |spans| - 1 :: spans[i + 1].start < spans[i].end ==> spans[i].end == spans[i].start + maxChars
  }

  lemma {:induction false} WindowsFull(lo: nat, hi: nat, maxChars: nat, overlap: nat)
    requires Limits(maxChars, overlap) && lo < hi
    ensures FullBeforeOverlap(Windows(lo, hi, maxChars, overlap), maxChars)
    decreases hi - lo
  {
    var end := Min(hi, lo + maxChars);
    if end != hi {
      WindowsFull(end - overlap, hi, maxChars, overlap);
      var all, rest := Windows(lo, hi, maxChars, overlap), Windows(end - overlap, hi, maxChars, overlap);
      forall i | 0 <= i < |all| - 1 && all[i + 1].start < all[i].end ensures all[i].end == all[i].start + maxChars {
        if i > 0 { assert all[i] == rest[i - 1] && all[i + 1] == rest[i - 1 + 1]; }
      }
    }
  }

  lemma {:induction false} AllBlocksFull(blocks: seq<Span>, lo: nat, hi: nat, maxChars: nat, overlap: nat)
    requires Limits(maxChars, overlap) && Adjoining(blocks, lo, hi)
    ensures FullBeforeOverlap(AllBlocks(blocks, maxChars, overlap), maxChars)
    decreases |blocks|
  {
    var first, all := Block(blocks[0], maxChars, overlap), AllBlocks(blocks, maxChars, overlap);
    BlockTiles(blocks[0], maxChars, overlap);
    if blocks[0].end > blocks[0].start + maxChars { WindowsFull(blocks[0].start, blocks[0].end, maxChars, overlap); }
    if |blocks| == 1 {
      assert AllBlocks(blocks[1..], maxChars, overlap) == [];
      assert first + [] == first;
    } else {
      AdjoiningTail(blocks, lo, hi);
      AllBlocksFull(blocks[1..], blocks[0].end, hi, maxChars, overlap);
      AllBlocksTile(blocks[1..], blocks[0].end, hi, maxChars, overlap);
      FullConcat(first, AllBlocks(blocks[1..], maxChars, overlap), maxChars);
    }
  }

  lemma FullConcat(a: seq<Span>, b: seq<Span>, maxChars: nat)
    requires a != [] && b != [] && a[|a| - 1].end == b[0].start
    requires FullBeforeOverlap(a, maxChars) && FullBeforeOverlap(b, maxChars)
    ensures FullBeforeOverlap(a + b, maxChars)
  {
    var all := a + b;
    forall i | 0 <= i < |all| - 1 && all[i + 1].start < all[i].end ensures all[i].end == all[i].start + maxChars {
      if i >= |a| { assert all[i + 1] == b[i - |a| + 1]; }
    }
  }

  // ---------------------------------------------------------------- what merging guarantees

  /** Every two neighbours together are too long for one chunk. */
  ghost predicate Unmergeable(spans: seq<Span>, maxChars: nat) {
    forall i | 0 <= i < |spans| - 1 :: spans[i + 1].end > spans[i].start + maxChars
  }

  /** Merging a tiling gives a tiling in which no two neighbours could still be merged. */
  lemma {:induction false} MergeGuarantees(current: Span, rest: seq<Span>, lo: nat, hi: nat, maxChars: nat, overlap: nat)
    requires Tiles([current] + rest, lo, hi, maxChars, overlap)
    requires FullBeforeOverlap([current] + rest, maxChars)
    ensures Tiles(Merge(current, rest, maxChars), lo, hi, maxChars, overlap)
    ensures Unmergeable(Merge(current, rest, maxChars), maxChars)
    ensures Merge(current, rest, maxChars)[0].end >= current.end
    decreases |rest|
  {
    var all := [current] + rest;
    if rest != [] {
      var next, tail := rest[0], rest[1..];
      assert all[1] == next && Follows(all[0], all[1], overlap) && Within(all[0], maxChars) && Within(all[1], maxChars);
      assert rest == [next] + tail;
      TailTiles(all, lo, hi, maxChars, overlap);
      assert all[1..] == rest;
      if next.start == current.end && next.end <= current.start + maxChars {
        var joined := Span(current.start, next.end);
        HeadGrows(next, tail, joined, hi, maxChars, overlap);
        MergeGuarantees(joined, tail, lo, hi, maxChars, overlap);
      } else {
        MergeGuarantees(next, tail, next.start, hi, maxChars, overlap);
        PutFirst(current, Merge(next, tail, maxChars), next, hi, maxChars, overlap);
      }
    }
  }

  lemma TailTiles(all: seq<Span>, lo: nat, hi: nat, maxChars: nat, overlap: nat)
    requires Tiles(all, lo, hi, maxChars, overlap) && |all| > 1 && FullBeforeOverlap(all, maxChars)
    ensures Tiles(all[1..], all[1].start, hi, maxChars, overlap) && FullBeforeOverlap(all[1..], maxChars)
  {
    var rest := all[1..];
    forall i | 0 <= i < |rest| - 1
      ensures Follows(rest[i], rest[i + 1], overlap)
      ensures rest[i + 1].start < rest[i].end ==> rest[i].end == rest[i].start + maxChars
    {
      assert Follows(all[i + 1], all[i + 1 + 1], overlap);
    }
  }

  /** The head of a tiling may start earlier, as long as it still fits. */
  lemma HeadGrows(next: Span, tail: seq<Span>, joined: Span, hi: nat, maxChars: nat, overlap: nat)
    requires Tiles([next] + tail, next.start, hi, maxChars, overlap) && FullBeforeOverlap([next] + tail, maxChars)
    requires joined.end == next.end && joined.start < next.start && Within(joined, maxChars)
    ensures Tiles([joined] + tail, joined.start, hi, maxChars, overlap) && FullBeforeOverlap([joined] + tail, maxChars)
  {
    var a, b := [next] + tail, [joined] + tail;
    forall i | 0 <= i < |b| ensures Within(b[i], maxChars) {
      assert Within(a[i], maxChars);
      assert i > 0 ==> b[i] == a[i];
    }
    forall i | 0 <= i < |b| - 1
      ensures Follows(b[i], b[i + 1], overlap)
      ensures b[i + 1].start < b[i].end ==> b[i].end == b[i].start + maxChars
    {
      assert Follows(a[i], a[i + 1], overlap);
      assert i > 0 ==> b[i] == a[i];
    }
  }

  lemma PutFirst(current: Span, merged: seq<Span>, next: Span, hi: nat, maxChars: nat, overlap: nat)
    requires Tiles(merged, next.start, hi, maxChars, overlap) && Unmergeable(merged, maxChars) && merged[0].end >= next.end
    requires Follows(current, next, overlap) && Within(current, maxChars)
    requires next.start < current.end ==> current.end == current.start + maxChars
    requires next.start != current.end || next.end > current.start + maxChars
    ensures Tiles([current] + merged, current.start, hi, maxChars, overlap) && Unmergeable([current] + merged, maxChars)
  {
    var all := [current] + merged;
    forall i | 0 <= i < |all| - 1
      ensures Follows(all[i], all[i + 1], overlap) && all[i + 1].end > all[i].start + maxChars
    {
      if i > 0 {
        assert Follows(merged[i - 1], merged[i - 1 + 1], overlap);
      }
    }
  }

  /** So merged chunks are at most twice as many, less one, as the windows of the same text; and a
      text that fits is one chunk. */
  lemma UnmergeableAreFew(spans: seq<Span>, lo: nat, hi: nat, maxChars: nat, overlap: nat)
    requires Limits(maxChars, overlap) && lo < hi && Tiles(spans, lo, hi, maxChars, overlap) && Unmergeable(spans, maxChars)
    ensures |spans| <= 2 * WindowCount(hi - lo, maxChars, overlap) - 1
    decreases |spans|
  {
    assert Within(spans[0], maxChars);
    if |spans| >= 2 {
      assert spans[0 + 1].end > spans[0].start + maxChars;
      EndsGrow(spans, lo, hi, maxChars, overlap, 1);
      assert hi - lo > maxChars;
      CountStep(hi - lo, maxChars, overlap);
      if |spans| >= 3 {
        var rest := spans[2..];
        assert Follows(spans[1], spans[1 + 1], overlap);
        var step := maxChars - overlap;
        assert spans[2].start > lo + step;
        DropTwo(spans, lo, hi, maxChars, overlap);
        EndsGrow(spans, lo, hi, maxChars, overlap, 2);
        assert Within(spans[2], maxChars);
        UnmergeableAreFew(rest, spans[2].start, hi, maxChars, overlap);
        CountMonotone(hi - spans[2].start, hi - lo - step, maxChars, overlap);
      }
    }
  }

  lemma DropTwo(spans: seq<Span>, lo: nat, hi: nat, maxChars: nat, overlap: nat)
    requires Tiles(spans, lo, hi, maxChars, overlap) && Unmergeable(spans, maxChars) && |spans| >= 3
    ensures Tiles(spans[2..], spans[2].start, hi, maxChars, overlap) && Unmergeable(spans[2..], maxChars)
  {
    var rest := spans[2..];
    forall i | 0 <= i < |rest| - 1 ensures Follows(rest[i], rest[i + 1], overlap) && rest[i + 1].end > rest[i].start + maxChars {
      assert Follows(spans[i + 2], spans[i + 2 + 1], overlap);
      assert spans[i + 2 + 1].end > spans[i + 2].start + maxChars;
    }
  }

  lemma {:induction false} EndsGrow(spans: seq<Span>, lo: nat, hi: nat, maxChars: nat, overlap: nat, i: nat)
    requires Tiles(spans, lo, hi, maxChars, overlap) && i < |spans|
    ensures spans[i].end <= hi
    decreases |spans| - i
  {
    if i < |spans| - 1 {
      EndsGrow(spans, lo, hi, maxChars, overlap, i + 1);
      assert Follows(spans[i], spans[i + 1], overlap);
    }
  }

  lemma CountMonotone(m: nat, n: nat, maxChars: nat, overlap: nat)
    requires Limits(maxChars, overlap) && m <= n
    ensures WindowCount(m, maxChars, overlap) <= WindowCount(n, maxChars, overlap)
  {
    var step := maxChars - overlap;
    if m > maxChars {
      DivMonotone(m - maxChars + step - 1, n - maxChars + step - 1, step);
    }
  }

  lemma DivMonotone(a: nat, b: nat, d: nat)
    requires d > 0 && a <= b
    ensures a / d <= b / d
  {
    var p, q := a / d, b / d;
    assert a == d * p + a % d && b == d * q + b % d && d * (q + 1) == d * q + d;
    ProductGrows(d, q + 1, if p > q then p else q + 1);
  }

  // ---------------------------------------------------------------- packing is optimal

  /** A grouping of adjoining segments: each group is a run of consecutive segments, and a group
      of several segments fits in `maxChars`. */
  ghost predicate Grouping(segments: seq<Span>, groups: seq<Span>, maxChars: nat)
    decreases |segments|
  {
    if segments == [] then groups == []
    else
      && groups != []
      && exists k: nat :: GroupOf(segments, groups[0], k, maxChars) && Grouping(segments[k..], groups[1..], maxChars)
  }

  ghost predicate GroupOf(segments: seq<Span>, group: Span, k: nat, maxChars: nat) {
    && 1 <= k <= |segments|
    && group == Span(segments[0].start, segments[k - 1].end)
    && (k == 1 || group.end <= group.start + maxChars)
  }

  lemma MergeOfAdjoining(current: Span, rest: seq<Span>, hi: nat)
    requires Adjoining([current] + rest, current.start, hi) && rest != []
    ensures rest[0].start == current.end && current.end < rest[0].end
    ensures Adjoining([rest[0]] + rest[1..], rest[0].start, hi)
    ensures Adjoining([Span(current.start, rest[0].end)] + rest[1..], current.start, hi)
  {
    var all := [current] + rest;
    assert all[0].end == all[0 + 1].start;
    assert [rest[0]] + rest[1..] == rest;
    var joined := [Span(current.start, rest[0].end)] + rest[1..];
    forall i | 0 <= i < |rest| - 1 ensures rest[i].end == rest[i + 1].start && rest[i].start < rest[i].end {
      assert all[i + 1].end == all[i + 1 + 1].start;
    }
    forall i | 0 <= i < |joined| ensures joined[i].start < joined[i].end {
      if i > 0 { assert joined[i] == all[i + 1]; }
    }
    forall i | 0 <= i < |joined| - 1 ensures joined[i].end == joined[i + 1].start {
      assert i > 0 ==> joined[i] == rest[i];
      assert joined[i + 1] == rest[i + 1];
    }
  }

  /** What greedy packing yields is a grouping. */
  lemma {:induction false} MergeIsGrouping(segments: seq<Span>, current: Span, k: nat, lo: nat, hi: nat, maxChars: nat)
    requires Adjoining(segments, lo, hi) && GroupOf(segments, current, k, maxChars)
    ensures Grouping(segments, Merge(current, segments[k..], maxChars), maxChars)
    decreases |segments|, |segments| - k
  {
    var rest := segments[k..];
    if rest == [] {
      var groups := [current];
      assert groups[1..] == [] && segments[k..] == [];
    } else {
      assert segments[k - 1].end == segments[k - 1 + 1].start;
      if rest[0].end <= current.start + maxChars {
        assert segments[k + 1..] == rest[1..];
        MergeIsGrouping(segments, Span(current.start, rest[0].end), k + 1, lo, hi, maxChars);
      } else {
        SuffixAdjoins(segments, lo, hi, k);
        assert rest == [rest[0]] + rest[1..];
        MergeIsGrouping(rest, rest[0], 1, rest[0].start, hi, maxChars);
        var groups := [current] + Merge(rest[0], rest[1..], maxChars);
        assert groups[1..] == Merge(rest[0], rest[1..], maxChars);
      }
    }
  }

  lemma SuffixAdjoins(segments: seq<Span>, lo: nat, hi: nat, k: nat)
    requires Adjoining(segments, lo, hi) && k < |segments|
    ensures Adjoining(segments[k..], segments[k].start, hi)
  {
    var rest := segments[k..];
    assert forall i | 0 <= i < |rest| :: rest[i] == segments[k + i];
    forall i | 0 <= i < |rest| - 1 ensures rest[i].end == rest[i + 1].start {
      assert segments[k + i].end == segments[k + i + 1].start;
    }
  }

  /** A longer head never lets greedy packing use more groups than starting it later would, plus one
      for the head itself; and starting from a shorter head never takes more groups. */
  lemma {:induction false} LaterStartIsCheaper(current: Span, later: Span, rest: seq<Span>, hi: nat, maxChars: nat)
    requires later.end == current.end && current.start <= later.start
    requires Adjoining([current] + rest, current.start, hi) && later.start < later.end
    ensures |Merge(later, rest, maxChars)| <= |Merge(current, rest, maxChars)|
    ensures |Merge(current, rest, maxChars)| <= 1 + |Merge(later, rest, maxChars)|
    decreases |rest|
  {
    if rest != [] {
      MergeOfAdjoining(current, rest, hi);
      var next, tail := rest[0], rest[1..];
      var a, b := Span(current.start, next.end), Span(later.start, next.end);
      if next.end <= current.start + maxChars {
        LaterStartIsCheaper(a, b, tail, hi, maxChars);
      } else if next.end <= later.start + maxChars {
        LaterStartIsCheaper(b, next, tail, hi, maxChars) by {
          HeadAdjoins(a, b, tail, hi);
        }
      }
    }
  }

  lemma HeadAdjoins(a: Span, b: Span, tail: seq<Span>, hi: nat)
    requires Adjoining([a] + tail, a.start, hi) && b.end == a.end && b.start < b.end
    ensures Adjoining([b] + tail, b.start, hi)
  {
    var x, y := [a] + tail, [b] + tail;
    forall i | 0 <= i < |y| ensures y[i].start < y[i].end {
      if i > 0 { assert y[i] == x[i]; }
    }
    forall i | 0 <= i < |y| - 1 ensures y[i].end == y[i + 1].start {
      assert x[i].end == x[i + 1].start && y[i + 1] == x[i + 1];
      if i > 0 { assert y[i] == x[i]; }
    }
  }

  lemma {:induction false} EndsIncrease(segments: seq<Span>, lo: nat, hi: nat, i: nat, j: nat)
    requires Adjoining(segments, lo, hi) && i <= j < |segments|
    ensures segments[i].end <= segments[j].end
    decreases j - i
  {
    if i < j {
      assert segments[i].end == segments[i + 1].start;
      EndsIncrease(segments, lo, hi, i + 1, j);
    }
  }

  /** Greedy packing goes at least as far as any first group does. */
  lemma {:induction false} MergeReaches(segments: seq<Span>, lo: nat, hi: nat, group: Span, k: nat, j: nat, maxChars: nat)
    requires Adjoining(segments, lo, hi) && GroupOf(segments, group, k, maxChars) && 1 <= j <= k
    ensures Merge(Span(segments[0].start, segments[j - 1].end), segments[j..], maxChars) == Merge(group, segments[k..], maxChars)
    decreases k - j
  {
    if j < k {
      EndsIncrease(segments, lo, hi, j, k - 1);
      assert segments[j - 1].end == segments[j - 1 + 1].start;
      assert segments[j..][1..] == segments[j + 1..];
      MergeReaches(segments, lo, hi, group, k, j + 1, maxChars);
    }
  }

  lemma HeadCostsOne(group: Span, rest: seq<Span>, hi: nat, maxChars: nat)
    requires Adjoining([group] + rest, group.start, hi)
    ensures |Merge(group, rest, maxChars)| <= 1 + |Merged(rest, maxChars)|
  {
    if rest != [] {
      MergeOfAdjoining(group, rest, hi);
      if rest[0].end <= group.start + maxChars {
        LaterStartIsCheaper(Span(group.start, rest[0].end), rest[0], rest[1..], hi, maxChars);
      }
    }
  }

  /** Greedy packing uses the fewest groups of all groupings. */
  lemma {:induction false} PackingIsOptimal(segments: seq<Span>, groups: seq<Span>, lo: nat, hi: nat, maxChars: nat)
    requires Adjoining(segments, lo, hi) && Grouping(segments, groups, maxChars)
    ensures |Merged(segments, maxChars)| <= |groups|
    decreases |segments|
  {
    var k: nat :| GroupOf(segments, groups[0], k, maxChars) && Grouping(segments[k..], groups[1..], maxChars);
    assert Span(segments[0].start, segments[1 - 1].end) == segments[0];
    MergeReaches(segments, lo, hi, groups[0], k, 1, maxChars);
    if k < |segments| {
      SuffixAdjoins(segments, lo, hi, k);
      PackingIsOptimal(segments[k..], groups[1..], segments[k].start, hi, maxChars);
      GroupAdjoins(segments, lo, hi, groups[0], k, maxChars);
      HeadCostsOne(groups[0], segments[k..], hi, maxChars);
    }
  }

  lemma GroupAdjoins(segments: seq<Span>, lo: nat, hi: nat, group: Span, k: nat, maxChars: nat)
    requires Adjoining(segments, lo, hi) && GroupOf(segments, group, k, maxChars) && k < |segments|
    ensures Adjoining([group] + segments[k..], group.start, hi)
  {
    SuffixAdjoins(segments, lo, hi, k);
    EndsIncrease(segments, lo, hi, 0, k - 1);
    assert segments[k - 1].end == segments[k - 1 + 1].start;
    var rest, all := segments[k..], [group] + segments[k..];
    forall i | 0 <= i < |all| - 1 ensures all[i].end == all[i + 1].start {
      if i > 0 { assert rest[i - 1].end == rest[i - 1 + 1].start; }
    }
  }

  // ---------------------------------------------------------------- no fitting segment is cut

  predicate Contains(outer: Span, inner: Span) {
    outer.start <= inner.start && inner.end <= outer.end
  }

  lemma {:induction false} GroupingContains(segments: seq<Span>, groups: seq<Span>, lo: nat, hi: nat, maxChars: nat, i: nat)
      returns (g: Span)
    requires Adjoining(segments, lo, hi) && Grouping(segments, groups, maxChars) && i < |segments|
    ensures g in groups && Contains(g, segments[i])
    ensures g == segments[i] || g.end <= g.start + maxChars
    decreases |segments|
  {
    var k: nat :| GroupOf(segments, groups[0], k, maxChars) && Grouping(segments[k..], groups[1..], maxChars);
    if i < k {
      g := groups[0];
      EndsIncrease(segments, lo, hi, i, k - 1);
      EndsIncrease(segments, lo, hi, 0, i);
      if i > 0 {
        EndsIncrease(segments, lo, hi, 0, i - 1);
        assert segments[i - 1].end == segments[i - 1 + 1].start;
      }
    } else {
      SuffixAdjoins(segments, lo, hi, k);
      g := GroupingContains(segments[k..], groups[1..], segments[k].start, hi, maxChars, i - k);
    }
  }

  lemma {:induction false} WholeBlockIsEmitted(blocks: seq<Span>, b: Span, maxChars: nat, overlap: nat)
    requires Limits(maxChars, overlap) && b in blocks && b.end <= b.start + maxChars
    ensures b in AllBlocks(blocks, maxChars, overlap)
  {
    if blocks[0] == b {
      assert Block(b, maxChars, overlap)[0] == b;
    } else {
      WholeBlockIsEmitted(blocks[1..], b, maxChars, overlap);
    }
  }

  /** A segment that fits in `maxChars` lies inside one of the chunks. */
  lemma FittingSegmentIsWhole(segments: seq<Span>, lo: nat, hi: nat, maxChars: nat, overlap: nat, i: nat)
    requires Limits(maxChars, overlap) && Adjoining(segments, lo, hi) && i < |segments|
    requires segments[i].end <= segments[i].start + maxChars
    ensures exists c :: c in AllBlocks(Merged(segments, maxChars), maxChars, overlap) && Contains(c, segments[i])
  {
    assert Span(segments[0].start, segments[1 - 1].end) == segments[0];
    MergeIsGrouping(segments, segments[0], 1, lo, hi, maxChars);
    var g := GroupingContains(segments, Merged(segments, maxChars), lo, hi, maxChars, i);
    WholeBlockIsEmitted(Merged(segments, maxChars), g, maxChars, overlap);
  }

  /** The groups adjoin, as the segments did. */
  lemma {:induction false} MergeAdjoins(current: Span, rest: seq<Span>, hi: nat, maxChars: nat)
    requires Adjoining([current] + rest, current.start, hi)
    ensures Adjoining(Merge(current, rest, maxChars), current.start, hi)
    decreases |rest|
  {
    if rest != [] {
      MergeOfAdjoining(current, rest, hi);
      if rest[0].end <= current.start + maxChars {
        MergeAdjoins(Span(current.start, rest[0].end), rest[1..], hi, maxChars);
      } else {
        MergeAdjoins(rest[0], rest[1..], hi, maxChars);
        var m := Merge(rest[0], rest[1..], maxChars);
        var all := [current] + m;
        forall i | 0 <= i < |all| - 1 ensures all[i].end == all[i + 1].start {
          if i > 0 { assert m[i - 1].end == m[i - 1 + 1].start; }
        }
      }
    }
  }
}
