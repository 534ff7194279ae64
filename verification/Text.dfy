/**
 Character-level helpers shared by the stores and the chunker: the whitespace test and
 the `strip` of Python strings.
 */
module Text {

  /** Python's `str.isspace` on one character, which is also what `\s` matches. */
  predicate IsSpace(c: char) {
    || '\U{0009}' <= c <= '\U{000D}'
    || '\U{001C}' <= c <= '\U{0020}'
    || c == '\U{0085}' || c == '\U{00A0}' || c == '\U{1680}'
    || '\U{2000}' <= c <= '\U{200A}'
    || c == '\U{2028}' || c == '\U{2029}' || c == '\U{202F}' || c == '\U{205F}' || c == '\U{3000}'
  }

  function LeftStrip(s: string): string {
    if s != "" && IsSpace(s[0]) then LeftStrip(s[1..]) else s
  }

  function RightStrip(s: string): string {
    if s != "" && IsSpace(s[|s| - 1]) then RightStrip(s[..|s| - 1]) else s
  }

  function Strip(s: string): string {
    RightStrip(LeftStrip(s))
  }

  /** No whitespace at either end, and at least one character. */
  predicate Trimmed(s: string) {
    s != "" && !IsSpace(s[0]) && !IsSpace(s[|s| - 1])
  }

  /** Every character is whitespace: the strings whose `strip` is empty. */
  predicate Blank(s: string) {
    forall i | 0 <= i < |s| :: IsSpace(s[i])
  }

  lemma {:induction false} LeftStripSuffix(s: string)
    ensures LeftStrip(s) != "" ==> !IsSpace(LeftStrip(s)[0])
    ensures LeftStrip(s) == "" <==> Blank(s)
  {
    if s != "" && IsSpace(s[0]) {
      LeftStripSuffix(s[1..]);
      assert Blank(s) <==> Blank(s[1..]) by {
        if Blank(s[1..]) {
          forall i | 0 <= i < |s| ensures IsSpace(s[i]) {
            if i > 0 { assert s[i] == s[1..][i - 1]; }
          }
        }
      }
    }
  }

  lemma {:induction false} RightStripPrefix(s: string)
    requires s != "" && !IsSpace(s[0])
    ensures RightStrip(s) != "" && RightStrip(s)[0] == s[0]
    ensures !IsSpace(RightStrip(s)[|RightStrip(s)| - 1])
  {
    if IsSpace(s[|s| - 1]) {
      RightStripPrefix(s[..|s| - 1]);
    }
  }

  /** What `strip` returns is trimmed or empty; it is empty exactly on blank strings. */
  lemma StripTrims(s: string)
    ensures Strip(s) == "" <==> Blank(s)
    ensures Strip(s) != "" ==> Trimmed(Strip(s))
  {
    LeftStripSuffix(s);
    if LeftStrip(s) != "" {
      RightStripPrefix(LeftStrip(s));
    }
  }

  /** The trimmed strings are the fixed points of `strip`. */
  lemma StripFixes(s: string)
    ensures Trimmed(s) <==> s != "" && Strip(s) == s
  {
    StripTrims(s);
  }

  lemma {:induction false} LeftStripExact(s: string) returns (i: nat)
    ensures i <= |s| && LeftStrip(s) == s[i..] && forall k | 0 <= k < i :: IsSpace(s[k])
    ensures i < |s| ==> !IsSpace(s[i])
  {
    i := 0;
    if s != "" && IsSpace(s[0]) {
      var j := LeftStripExact(s[1..]);
      i := j + 1;
      assert s[1..][j..] == s[i..];
      forall k | 0 <= k < i ensures IsSpace(s[k]) {
        if k > 0 { assert s[k] == s[1..][k - 1]; }
      }
      assert i < |s| ==> s[i] == s[1..][j];
    }
  }

  lemma {:induction false} RightStripExact(s: string) returns (j: nat)
    ensures j <= |s| && RightStrip(s) == s[..j] && forall k | j <= k < |s| :: IsSpace(s[k])
    ensures j > 0 ==> !IsSpace(s[j - 1])
  {
    j := |s|;
    if s != "" && IsSpace(s[|s| - 1]) {
      j := RightStripExact(s[..|s| - 1]);
      assert s[..|s| - 1][..j] == s[..j];
      forall k | j <= k < |s| ensures IsSpace(s[k]) {
        if k < |s| - 1 { assert s[k] == s[..|s| - 1][k]; }
      }
      assert j > 0 ==> s[j - 1] == s[..|s| - 1][j - 1];
    } else {
      assert s[..|s|] == s;
    }
  }

  /** `strip` takes whitespace off both ends, all of it and nothing else. */
  lemma StripExact(s: string) returns (i: nat, j: nat)
    ensures i <= j <= |s| && Strip(s) == s[i..j]
    ensures (forall k | 0 <= k < i :: IsSpace(s[k])) && (forall k | j <= k < |s| :: IsSpace(s[k]))
    ensures i < j ==> !IsSpace(s[i]) && !IsSpace(s[j - 1])
  {
    i := LeftStripExact(s);
    var m := RightStripExact(LeftStrip(s));
    j := i + m;
    assert s[i..][..m] == s[i..j];
    forall k | j <= k < |s| ensures IsSpace(s[k]) {
      assert s[i..][k - i] == s[k];
    }
    if i < j { assert s[i..][m - 1] == s[j - 1]; }
  }
}
