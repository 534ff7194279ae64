/**
 Chunk spans: the sliding windows of char mode, what it means for spans to tile a text, the
 cutting of a text into blocks, and the pass that merges small neighbours.
 */
module ChunkSpans {
  import opened Uris

  datatype Span = Span(start: nat, end: nat)

  datatype TextChunk = TextChunk(text: string, start: nat, end: nat)

  /** The limits a chunker works under; with an overlap of `maxChars` or more it would not advance. */
  ghost predicate Limits(maxChars: nat, overlap: nat) {
    overlap < maxChars
  }

  function Min(a: nat, b: nat): nat {
    if a < b then a else b
  }

  /** The windows over [lo, hi): each `maxChars` long but the last, each `overlap` into the one before. */
  function Windows(lo: nat, hi: nat, maxChars: nat, overlap: nat): seq<Span>
    requires Limits(maxChars, overlap)
    decreases if lo < hi then hi - lo else 0
  {
    if lo >= hi then []
    else
      var end := Min(hi, lo + maxChars);
      if end == hi then [Span(lo, hi)] else [Span(lo, end)] + Windows(end - overlap, hi, maxChars, overlap)
  }

  // ---------------------------------------------------------------- tiling

  predicate Within(s: Span, maxChars: nat) {
    s.start < s.end <= s.start + maxChars
  }

  /** Both ends move forward, with no gap and at most `overlap` shared characters. */
  predicate Follows(a: Span, b: Span, overlap: nat) {
    a.start < b.start <= a.end < b.end && a.end - b.start <= overlap
  }

  /** The spans cover [lo, hi) in order: non-empty, bounded, without gaps, with bounded overlaps. */
  ghost predicate Tiles(spans: seq<Span>, lo: nat, hi: nat, maxChars: nat, overlap: nat) {
    && spans != [] && spans[0].start == lo && spans[|spans| - 1].end == hi
    && (forall i | 0 <= i < |spans| :: Within(spans[i], maxChars))
    && (forall i | 0 <= i < |spans| - 1 :: Follows(spans[i], spans[i + 1], overlap))
  }

  lemma TilesConcat(a: seq<Span>, b: seq<Span>, lo: nat, mid: nat, hi: nat, maxChars: nat, overlap: nat)
    requires Tiles(a, lo, mid, maxChars, overlap) && Tiles(b, mid, hi, maxChars, overlap)
    ensures Tiles(a + b, lo, hi, maxChars, overlap)
  {
    var all := a + b;
    forall i | 0 <= i < |all| - 1 ensures Follows(all[i], all[i + 1], overlap) {
      if i < |a| - 1 {
        assert Follows(a[i], a[i + 1], overlap);
      } else if i >= |a| {
        assert Follows(b[i - |a|], b[i - |a| + 1], overlap);
      } else {
        assert Within(a[i], maxChars) && Within(b[0], maxChars);
      }
    }
  }

  /** Every position of a tiled text lies in some span. */
  lemma {:induction false} TilesCoverAll(spans: seq<Span>, lo: nat, hi: nat, maxChars: nat, overlap: nat, p: nat)
    requires Tiles(spans, lo, hi, maxChars, overlap) && lo <= p < hi
    ensures exists i :: 0 <= i < |spans| && spans[i].start <= p < spans[i].end
    decreases |spans|
  {
    assert Within(spans[0], maxChars);
    if p >= spans[0].end {
      assert |spans| > 1;
      var rest := spans[1..];
      assert Follows(spans[0], spans[1], overlap);
      assert forall i | 0 <= i < |rest| - 1 :: rest[i] == spans[i + 1] && Follows(spans[i + 1], spans[i + 1 + 1], overlap);
      TilesCoverAll(rest, spans[1].start, hi, maxChars, overlap, p);
      var j :| 0 <= j < |rest| && rest[j].start <= p < rest[j].end;
      assert spans[j + 1] == rest[j];
    }
  }

  lemma {:induction false} WindowsTile(lo: nat, hi: nat, maxChars: nat, overlap: nat)
    requires Limits(maxChars, overlap) && lo < hi
    ensures Tiles(Windows(lo, hi, maxChars, overlap), lo, hi, maxChars, overlap)
    decreases hi - lo
  {
    var end := Min(hi, lo + maxChars);
    if end != hi {
      var rest := Windows(end - overlap, hi, maxChars, overlap);
      WindowsTile(end - overlap, hi, maxChars, overlap);
      var all := Windows(lo, hi, maxChars, overlap);
      assert Within(rest[0], maxChars);
      assert rest[0].end > end by {
        assert rest[0].end == Min(hi, end - overlap + maxChars);
      }
      forall i | 0 <= i < |all| - 1 ensures Follows(all[i], all[i + 1], overlap) {
        if i > 0 { assert Follows(rest[i - 1], rest[i - 1 + 1], overlap); }
      }
    }
  }

  // ---------------------------------------------------------------- the windows in closed form

  /** How many windows a text of `n` characters gets. */
  function WindowCount(n: nat, maxChars: nat, overlap: nat): nat
    requires Limits(maxChars, overlap)
  {
    if n == 0 then 0
    else if n <= maxChars then 1
    else
      var step := maxChars - overlap;
      1 + (n - maxChars + step - 1) / step
  }

  lemma CountStep(n: nat, maxChars: nat, overlap: nat)
    requires Limits(maxChars, overlap) && n > maxChars
    ensures WindowCount(n, maxChars, overlap) == 1 + WindowCount(n - (maxChars - overlap), maxChars, overlap)
  {
    var step := maxChars - overlap;
    var m := n - maxChars;
    if m > step {
      assert (m + step - 1) == (m - step + step - 1) + step;
      DivStep(m - 1, step);
    } else {
      DivSmall(m + step - 1, step);
    }
  }

  lemma DivStep(a: nat, d: nat)
    requires d > 0
    ensures (a + d) / d == a / d + 1
  {
    var q, r, p := a / d, a % d, (a + d) / d;
    assert a == d * q + r && a + d == d * p + (a + d) % d;
    assert d * (q + 1) == d * q + d;
    if p < q + 1 { ProductGrows(d, p + 1, q + 1); }
    if p > q + 1 { ProductGrows(d, q + 2, p); }
  }

  lemma ProductGrows(d: nat, x: nat, y: nat)
    requires x <= y
    ensures d * x <= d * y
  {}

  lemma DivSmall(a: nat, d: nat)
    requires d > 0 && d <= a < 2 * d
    ensures a / d == 1
  {}

  /** How far `k` windows move. */
  function Steps(k: nat, step: nat): nat {
    k * step
  }

  lemma StepsGrow(k: nat, step: nat)
    ensures Steps(0, step) == 0
    ensures k > 0 ==> Steps(k, step) == step + Steps(k - 1, step)
  {}

  lemma CountSmall(n: nat, maxChars: nat, overlap: nat)
    requires Limits(maxChars, overlap)
    ensures n <= maxChars ==> WindowCount(n, maxChars, overlap) == if n == 0 then 0 else 1
  {}

  /** The k-th window starts at k steps of `maxChars - overlap` and is cut at the end of the text;
      there are exactly `WindowCount` of them. So the loop ends, and nothing else decides it. */
  lemma {:induction false} WindowsClosedForm(lo: nat, hi: nat, maxChars: nat, overlap: nat, k: nat)
    requires Limits(maxChars, overlap) && lo <= hi
    ensures |Windows(lo, hi, maxChars, overlap)| == WindowCount(hi - lo, maxChars, overlap)
    ensures k < |Windows(lo, hi, maxChars, overlap)| ==>
              var start := lo + Steps(k, maxChars - overlap);
              Windows(lo, hi, maxChars, overlap)[k] == Span(start, Min(hi, start + maxChars))
    decreases hi - lo
  {
    hide WindowCount, Windows, Steps;
    CountSmall(hi - lo, maxChars, overlap);
    StepsGrow(k, maxChars - overlap);
    if lo == hi {
      NoWindowsLeft(lo, maxChars, overlap);
    } else {
      WindowsCons(lo, hi, maxChars, overlap);
      if hi - lo > maxChars {
        CountStep(hi - lo, maxChars, overlap);
        WindowsClosedForm(lo + (maxChars - overlap), hi, maxChars, overlap, if k == 0 then 0 else k - 1);
      }
    }
  }

  lemma NoWindowsLeft(lo: nat, maxChars: nat, overlap: nat)
    requires Limits(maxChars, overlap)
    ensures Windows(lo, lo, maxChars, overlap) == []
  {}

  /** The first window whole and each later one without its first `overlap` characters. */
  function Rebuilt(text: string, spans: seq<Span>, overlap: nat): string
    requires forall i | 0 <= i < |spans| :: spans[i].start + overlap <= spans[i].end <= |text|
  {
    if spans == [] then ""
    else text[spans[0].start + overlap..spans[0].end] + Rebuilt(text, spans[1..], overlap)
  }

  lemma {:induction false} WindowsRebuild(text: string, lo: nat, maxChars: nat, overlap: nat)
    requires Limits(maxChars, overlap) && lo + overlap <= |text| && lo < |text|
    ensures var spans := Windows(lo, |text|, maxChars, overlap);
            && (forall i | 0 <= i < |spans| :: spans[i].start + overlap <= spans[i].end <= |text|)
            && text[lo..lo + overlap] + Rebuilt(text, spans, overlap) == text[lo..]
    decreases |text| - lo
  {
    hide Windows, Rebuilt;
    var end := Min(|text|, lo + maxChars);
    WindowsCons(lo, |text|, maxChars, overlap);
    var rest := if end == |text| then [] else Windows(end - overlap, |text|, maxChars, overlap);
    if end != |text| {
      WindowsRebuild(text, end - overlap, maxChars, overlap);
      TailAfter(text, end - overlap, overlap, Rebuilt(text, rest, overlap));
    } else {
      RebuiltNothing(text, overlap);
    }
    RebuiltCons(text, Span(lo, end), rest, overlap);
    assert text[lo..lo + overlap] + text[lo + overlap..end] + text[end..] == text[lo..];
  }

  lemma WindowsCons(lo: nat, hi: nat, maxChars: nat, overlap: nat)
    requires Limits(maxChars, overlap) && lo < hi
    ensures var end := Min(hi, lo + maxChars);
            Windows(lo, hi, maxChars, overlap) ==
              [Span(lo, end)] + (if end == hi then [] else Windows(end - overlap, hi, maxChars, overlap))
  {}

  lemma RebuiltNothing(text: string, overlap: nat)
    ensures Rebuilt(text, [], overlap) == ""
  {}

  lemma RebuiltCons(text: string, head: Span, rest: seq<Span>, overlap: nat)
    requires head.start + overlap <= head.end <= |text|
    requires forall i | 0 <= i < |rest| :: rest[i].start + overlap <= rest[i].end <= |text|
    ensures forall i | 0 <= i < |[head] + rest| ::
              ([head] + rest)[i].start + overlap <= ([head] + rest)[i].end <= |text|
    ensures Rebuilt(text, [head] + rest, overlap) == text[head.start + overlap..head.end] + Rebuilt(text, rest, overlap)
  {
    assert ([head] + rest)[1..] == rest;
  }

  lemma TailAfter(text: string, p: nat, n: nat, tail: string)
    requires p + n <= |text| && text[p..p + n] + tail == text[p..]
    ensures tail == text[p + n..]
  {
    assert text[p..][n..] == text[p + n..];
  }

  /** The first window, and each later one without its first `overlap` characters, joined in
      order, give back the text. */
  lemma WindowsGiveBackText(text: string, maxChars: nat, overlap: nat)
    requires Limits(maxChars, overlap) && text != ""
    ensures var spans := Windows(0, |text|, maxChars, overlap);
            && spans != [] && spans[0].end <= |text|
            && (forall i | 0 <= i < |spans[1..]| :: spans[1..][i].start + overlap <= spans[1..][i].end <= |text|)
            && text[..spans[0].end] + Rebuilt(text, spans[1..], overlap) == text
  {
    hide Windows, Rebuilt;
    WindowsCons(0, |text|, maxChars, overlap);
    var spans := Windows(0, |text|, maxChars, overlap);
    RebuiltNothing(text, overlap);
    if |text| > maxChars {
      var next := maxChars - overlap;
      var rest := Windows(next, |text|, maxChars, overlap);
      assert spans[1..] == rest;
      WindowsRebuild(text, next, maxChars, overlap);
      TailAfter(text, next, overlap, Rebuilt(text, rest, overlap));
    } else {
      assert spans[1..] == [];
    }
  }

  // ---------------------------------------------------------------- when the loop ends

  /** Where the loop stands after `k` rounds on `n` characters; nothing once it has ended. */
  function StartAfter(n: nat, maxChars: nat, overlap: nat, k: nat): (start: Option<nat>)
  {
    if k == 0 then (if n == 0 then None else Some(0))
    else
      match StartAfter(n, maxChars, overlap, k - 1)
      case None => None
      case Some(start) =>
        var end := Min(n, start + maxChars);
        if end == n then None else Some(if end < overlap then 0 else end - overlap)
  }

  /** Round by round it stands at the starts of the windows, and it has ended when they have. */
  lemma {:induction false} RoundsAreWindows(n: nat, maxChars: nat, overlap: nat, k: nat)
    requires Limits(maxChars, overlap)
    ensures var spans := Windows(0, n, maxChars, overlap);
            StartAfter(n, maxChars, overlap, k) == if k < |spans| then Some(spans[k].start) else None
  {
    hide Windows, WindowCount, Steps;
    var spans := Windows(0, n, maxChars, overlap);
    if n == 0 {
      NoWindowsLeft(0, maxChars, overlap);
      if k > 0 { RoundsAreWindows(n, maxChars, overlap, k - 1); }
    } else if k == 0 {
      WindowsCons(0, n, maxChars, overlap);
    } else {
      RoundsAreWindows(n, maxChars, overlap, k - 1);
      WindowsTile(0, n, maxChars, overlap);
      WindowsClosedForm(0, n, maxChars, overlap, k - 1);
      WindowsClosedForm(0, n, maxChars, overlap, k);
      StepsGrow(k, maxChars - overlap);
      assert k < |spans| ==> Follows(spans[k - 1], spans[k - 1 + 1], overlap);
    }
  }

  lemma {:induction false} RoundsAdvance(n: nat, maxChars: nat, overlap: nat, k: nat)
    requires overlap < maxChars
    ensures StartAfter(n, maxChars, overlap, k).Some? ==> k <= StartAfter(n, maxChars, overlap, k).value < n
  {
    if k > 0 { RoundsAdvance(n, maxChars, overlap, k - 1); }
  }

  lemma {:induction false} RoundsStall(n: nat, maxChars: nat, overlap: nat, k: nat)
    requires maxChars <= overlap && n > maxChars
    ensures StartAfter(n, maxChars, overlap, k) == Some(0)
  {
    if k > 0 { RoundsStall(n, maxChars, overlap, k - 1); }
  }

  /** The loop ends, for whatever limits, if and only if the text fits in one window or the
      overlap is smaller than the window. */
  lemma LoopEndsIff(n: nat, maxChars: nat, overlap: nat)
    ensures (exists k :: StartAfter(n, maxChars, overlap, k) == None) <==> n <= maxChars || overlap < maxChars
  {
    if overlap < maxChars {
      RoundsAdvance(n, maxChars, overlap, n);
      assert StartAfter(n, maxChars, overlap, n) == None;
    } else if n <= maxChars {
      assert StartAfter(n, maxChars, overlap, 0) == if n == 0 then None else Some(0);
      assert StartAfter(n, maxChars, overlap, 1) == None;
    } else {
      forall k: nat ensures StartAfter(n, maxChars, overlap, k) != None {
        RoundsStall(n, maxChars, overlap, k);
      }
    }
  }
}
