/**
 The two ways a text is cut into segments: sentences, as matched by the regular expression
 `.+?(?:[.!?](?:\s+|$)|\n+|$)` with dot matching newlines, and lines, as `splitlines` keeps them.
 */
module Segments {
  import opened Uris
  import opened Text
  import opened ChunkSpans
  import opened ChunkMerge

  function SkipSpaces(text: string, q: nat): (r: nat)
    requires q <= |text|
    ensures q <= r <= |text|
    decreases |text| - q
  {
    if q < |text| && IsSpace(text[q]) then SkipSpaces(text, q + 1) else q
  }

  function SkipNewlines(text: string, q: nat): (r: nat)
    requires q <= |text|
    ensures q <= r <= |text|
    decreases |text| - q
  {
    if q < |text| && text[q] == '\n' then SkipNewlines(text, q + 1) else q
  }

  /** Where the closing alternatives of the expression end when tried at `q`: a sentence mark with
      the whitespace after it (or the end of the text), a run of newlines, or the end of the text. */
  function TailEnd(text: string, q: nat): Option<nat>
    requires q <= |text|
  {
    if q < |text| && text[q] in {'.', '!', '?'} && (q + 1 == |text| || IsSpace(text[q + 1]))
    then Some(SkipSpaces(text, q + 1))
    else if q < |text| && text[q] == '\n' then Some(SkipNewlines(text, q))
    else if q == |text| then Some(q)
    else None
  }

  /** The lazy body takes as few characters as it can, from `q` on. */
  function FirstTail(text: string, q: nat): nat
    requires q <= |text|
    decreases |text| - q
  {
    if TailEnd(text, q).Some? then TailEnd(text, q).value else FirstTail(text, q + 1)
  }

  /** The end of the match that starts at `p`: the body has at least one character. */
  function SentenceEnd(text: string, p: nat): nat
    requires p < |text|
  {
    FirstTail(text, p + 1)
  }

  /** `SentenceEnd` is the end of the leftmost tail after the first character. */
  lemma {:induction false} SentenceEndIsLeast(text: string, q: nat)
    requires q <= |text|
    ensures exists t :: q <= t <= |text| && TailEnd(text, t) == Some(FirstTail(text, q))
                        && forall r | q <= r < t :: TailEnd(text, r) == None
    ensures q <= FirstTail(text, q) <= |text|
    decreases |text| - q
  {
    if TailEnd(text, q) == None {
      SentenceEndIsLeast(text, q + 1);
      var t :| q + 1 <= t <= |text| && TailEnd(text, t) == Some(FirstTail(text, q + 1))
               && forall r | q + 1 <= r < t :: TailEnd(text, r) == None;
      assert forall r | q <= r < t :: TailEnd(text, r) == None;
    } else {
      assert TailEnd(text, q) == Some(FirstTail(text, q));
    }
  }

  /** All matches of the expression from `p` on. */
  function Sentences(text: string, p: nat): seq<Span>
    requires p <= |text|
    decreases |text| - p
  {
    if p == |text| then []
    else
      SentenceEndIsLeast(text, p + 1);
      [Span(p, SentenceEnd(text, p))] + Sentences(text, SentenceEnd(text, p))
  }

  /** The sentences adjoin and cover the text: nothing is dropped between two matches. */
  lemma {:induction false} SentencesPartition(text: string, p: nat)
    requires p < |text|
    ensures Adjoining(Sentences(text, p), p, |text|)
    decreases |text| - p
  {
    SentenceEndIsLeast(text, p + 1);
    var e := SentenceEnd(text, p);
    if e < |text| {
      SentencesPartition(text, e);
      ConsAdjoins(Span(p, e), Sentences(text, e), |text|);
    }
  }

  lemma ConsAdjoins(head: Span, tail: seq<Span>, hi: nat)
    requires head.start < head.end && Adjoining(tail, head.end, hi)
    ensures Adjoining([head] + tail, head.start, hi)
  {
    var all := [head] + tail;
    forall i | 0 <= i < |all| - 1 ensures all[i].end == all[i + 1].start {
      if i > 0 { assert tail[i - 1].end == tail[i - 1 + 1].start; }
    }
  }

  // ---------------------------------------------------------------- lines

  /** The line boundaries of `splitlines`; carriage return and newline count as one. */
  predicate IsLineBreak(c: char) {
    || '\U{000A}' <= c <= '\U{000D}'
    || '\U{001C}' <= c <= '\U{001E}'
    || c == '\U{0085}' || c == '\U{2028}' || c == '\U{2029}'
  }

  function LineEnd(text: string, q: nat): (e: nat)
    requires q < |text|
    ensures q < e <= |text|
    decreases |text| - q
  {
    if text[q] == '\r' && q + 1 < |text| && text[q + 1] == '\n' then q + 2
    else if IsLineBreak(text[q]) || q + 1 == |text| then q + 1
    else LineEnd(text, q + 1)
  }

  function Lines(text: string, p: nat): seq<Span>
    requires p <= |text|
    decreases |text| - p
  {
    if p == |text| then [] else [Span(p, LineEnd(text, p))] + Lines(text, LineEnd(text, p))
  }

  lemma {:induction false} LinesPartition(text: string, p: nat)
    requires p < |text|
    ensures Adjoining(Lines(text, p), p, |text|)
    decreases |text| - p
  {
    var e := LineEnd(text, p);
    if e < |text| {
      LinesPartition(text, e);
      ConsAdjoins(Span(p, e), Lines(text, e), |text|);
    }
  }
}
