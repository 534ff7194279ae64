/**
 The two caching embedders. Each answers a list of texts with one vector per text: from the
 cache, from batched calls of an encoder on the distinct misses, or from a local fallback. The
 encoder is an arbitrary oracle, asked by call number, so that it may fail or change its mind.
 */
module Embeddings {
  import opened Uris
  import opened LruCache

  type Vector = seq<real>
  type Cache = Store<string, Vector>
  type Oracle = (nat, seq<string>) -> Option<seq<Vector>>

  function Prefixed(prefix: string, batch: seq<string>): seq<string> {
    seq(|batch|, i requires 0 <= i < |batch| => prefix + batch[i])
  }

  function Mapped(f: string -> Vector, texts: seq<string>): seq<Vector> {
    seq(|texts|, i requires 0 <= i < |texts| => f(texts[i]))
  }

  lemma MappedConcat(f: string -> Vector, a: seq<string>, b: seq<string>)
    ensures Mapped(f, a + b) == Mapped(f, a) + Mapped(f, b)
  {}

  lemma MappedPrefixed(encode: string -> Vector, prefix: string, batch: seq<string>)
    ensures |Prefixed(prefix, batch)| == |batch|
    ensures Mapped(encode, Prefixed(prefix, batch)) == Mapped(WithPrefix(encode, prefix), batch)
  {}

  function PrefixedAll(prefix: string, batches: seq<seq<string>>): seq<seq<string>> {
    seq(|batches|, i requires 0 <= i < |batches| => Prefixed(prefix, batches[i]))
  }

  lemma PrefixedAllSnoc(prefix: string, batches: seq<seq<string>>, b: nat)
    requires b < |batches|
    ensures PrefixedAll(prefix, batches[..0]) == []
    ensures PrefixedAll(prefix, batches[..b + 1]) == PrefixedAll(prefix, batches[..b]) + [Prefixed(prefix, batches[b])]
  {}

  /** The oracle never fails and encodes each text on its own. */
  ghost predicate Pointwise(oracle: Oracle, encode: string -> Vector) {
    forall n: nat, batch :: oracle(n, batch) == Some(Mapped(encode, batch))
  }

  // ---------------------------------------------------------------- batches

  /** `_iter_batches`: consecutive slices of at least one and at most `size` items. */
  function Batches<K>(items: seq<K>, size: int): seq<seq<K>>
    decreases |items|
  {
    var n := if size < 1 then 1 else size;
    if items == [] then [] else if |items| <= n then [items] else [items[..n]] + Batches(items[n..], size)
  }

  function Flatten<K>(batches: seq<seq<K>>): seq<K> {
    if batches == [] then [] else Flatten(batches[..|batches| - 1]) + batches[|batches| - 1]
  }

  lemma {:induction false} FlattenCons<K>(first: seq<K>, rest: seq<seq<K>>)
    ensures Flatten([first] + rest) == first + Flatten(rest)
  {
    var all := [first] + rest;
    if rest == [] {
      assert all[..0] == [];
    } else {
      FlattenCons(first, rest[..|rest| - 1]);
      assert all[..|all| - 1] == [first] + rest[..|rest| - 1];
    }
  }

  lemma FlattenNothing<K>()
    ensures Flatten<K>([]) == []
  {}

  /** The batches are the items again, none empty or larger than `size`, all full but the last. */
  lemma {:induction false} BatchesPartition<K>(items: seq<K>, size: int)
    ensures Flatten(Batches(items, size)) == items
    ensures forall b | b in Batches(items, size) :: 1 <= |b| && (|b| <= size || |b| == 1)
    ensures forall i | 0 <= i < |Batches(items, size)| - 1 :: |Batches(items, size)[i]| == if size < 1 then 1 else size
    decreases |items|
  {
    FlattenNothing<K>();
    hide Flatten;
    var n := if size < 1 then 1 else size;
    if |items| > n {
      BatchesPartition(items[n..], size);
      FlattenCons(items[..n], Batches(items[n..], size));
    } else if items != [] {
      FlattenCons(items, []);
      assert [items] + [] == [items];
    }
  }

  lemma FlattenSnoc<K>(batches: seq<seq<K>>, b: nat)
    requires b < |batches|
    ensures Flatten(batches[..b + 1]) == Flatten(batches[..b]) + batches[b]
  {
    assert batches[..b + 1][..b] == batches[..b];
  }

  lemma {:induction false} FlattenSplit<K>(batches: seq<seq<K>>, b: nat)
    requires b <= |batches|
    ensures Flatten(batches) == Flatten(batches[..b]) + Flatten(batches[b..])
  {
    if b == |batches| {
      assert batches[..b] == batches;
    } else {
      FlattenSplit(batches[..|batches| - 1], b);
      assert batches[..|batches| - 1][..b] == batches[..b];
      assert batches[b..][..|batches| - b - 1] == batches[..|batches| - 1][b..];
    }
  }

  // ---------------------------------------------------------------- the scan for misses

  /** Looking up each text in turn: the store afterwards, what was found, the distinct misses. */
  function Scan(s: Cache, texts: seq<string>): (Cache, seq<Option<Vector>>, seq<string>) {
    if texts == [] then (s, [], [])
    else
      var (t, out, misses) := Scan(s, texts[..|texts| - 1]);
      var text := texts[|texts| - 1];
      var v := Lookup(t, text);
      (AfterGet(t, text), out + [v], if v.Some? || text in misses then misses else misses + [text])
  }

  lemma GetKeepsLookup(s: Cache, text: string, other: string)
    requires Distinct(Keys(s))
    ensures Distinct(Keys(AfterGet(s, text)))
    ensures Lookup(AfterGet(s, text), other) == Lookup(s, other)
    ensures forall e :: e in AfterGet(s, text) <==> e in s
  {
    var v := Lookup(s, text);
    LookupFinds(s, text);
    if v.Some? {
      MovedContents(s, text, v.value);
      var t := Moved(s, text, v.value);
      forall e | e in s ensures e in t {
        if e.0 == text { LookupUnique(s, e); }
      }
      SameLookup(s, t, other);
    }
  }

  lemma SameLookup(s: Cache, t: Cache, text: string)
    requires Distinct(Keys(s)) && Distinct(Keys(t))
    requires forall e :: e in s <==> e in t
    ensures Lookup(s, text) == Lookup(t, text)
  {
    LookupFinds(s, text);
    LookupFinds(t, text);
    if Lookup(s, text).Some? { LookupUnique(t, (text, Lookup(s, text).value)); }
    if Lookup(t, text).Some? { LookupUnique(s, (text, Lookup(t, text).value)); }
  }

  lemma {:induction false} ScanFinds(s: Cache, texts: seq<string>)
    requires Distinct(Keys(s))
    ensures var (t, out, misses) := Scan(s, texts);
            && Distinct(Keys(t)) && (forall e :: e in t <==> e in s)
            && |out| == |texts| && (forall i | 0 <= i < |texts| :: out[i] == Lookup(s, texts[i]))
            && Distinct(misses) && (forall x :: x in misses <==> x in texts && Lookup(s, x) == None)
  {
    if texts != [] {
      hide Keys, Lookup, AfterGet;
      var front, text := texts[..|texts| - 1], texts[|texts| - 1];
      assert texts == front + [text];
      ScanFinds(s, front);
      var (t, out, misses) := Scan(s, front);
      SameLookup(s, t, text);
      GetKeepsLookup(t, text, text);
      DistinctSnoc(misses, text);
    }
  }

  lemma MissesSnoc(s: Cache, texts: seq<string>)
    requires texts != []
    ensures var n, front := |texts| - 1, Scan(s, texts[..|texts| - 1]).2;
            Scan(s, texts).2 == front || Scan(s, texts).2 == front + [texts[n]]
  {}

  /** The misses stand in the order in which the list first asks for them. */
  lemma {:induction false} MissesInOrder(s: Cache, texts: seq<string>, i: nat, j: nat, b: nat)
    requires Distinct(Keys(s)) && i < j < |Scan(s, texts).2| && b < |texts| && texts[b] == Scan(s, texts).2[j]
    ensures exists a :: 0 <= a < b && texts[a] == Scan(s, texts).2[i]
  {
    hide Keys, Lookup, Scan;
    var n := |texts| - 1;
    var front, misses := Scan(s, texts[..n]).2, Scan(s, texts).2;
    MissesSnoc(s, texts);
    ScanFinds(s, texts);
    ScanFinds(s, texts[..n]);
    if j < |front| {
      if b < n {
        assert texts[..n][b] == front[j];
        MissesInOrder(s, texts[..n], i, j, b);
        var a :| 0 <= a < b && texts[..n][a] == front[i];
        assert texts[a] == misses[i];
      } else {
        var c :| 0 <= c < n && texts[..n][c] == front[j];
        MissesInOrder(s, texts[..n], i, j, c);
        var a :| 0 <= a < c && texts[..n][a] == front[i];
        assert texts[a] == misses[i];
      }
    } else {
      assert forall c | 0 <= c < |front| :: front[c] == misses[c] && misses[c] != misses[j];
      assert front[i] in front;
      var a :| 0 <= a < n && texts[..n][a] == front[i];
      assert texts[a] == misses[i];
      assert forall c | 0 <= c < n :: texts[..n][c] == texts[c];
    }
  }

  /** The batches sent for a list of texts carry each text that is not cached once, and no other. */
  lemma EachMissSentOnce(s: Cache, texts: seq<string>, size: int)
    requires Distinct(Keys(s))
    ensures var sent := Flatten(Batches(Scan(s, texts).2, size));
            Distinct(sent) && forall x :: x in sent <==> x in texts && x !in Keys(s)
  {
    ScanFinds(s, texts);
    BatchesPartition(Scan(s, texts).2, size);
    forall x ensures Lookup(s, x) == None <==> x !in Keys(s) {
      LookupFinds(s, x);
    }
  }

  // ---------------------------------------------------------------- what an answer should be

  /** Cached vectors for the cached texts, `f` for the others. */
  function Answers(s: Cache, texts: seq<string>, f: string -> Vector): seq<Vector> {
    seq(|texts|, i requires 0 <= i < |texts| =>
      var v := Lookup(s, texts[i]); if v.Some? then v.value else f(texts[i]))
  }

  /** Every cached vector is the right one. */
  ghost predicate Faithful(s: Cache, f: string -> Vector) {
    forall e | e in s :: e.1 == f(e.0)
  }

  /** With a faithful cache the answer is the plain map. */
  lemma FaithfulAnswersAreMap(s: Cache, texts: seq<string>, f: string -> Vector)
    requires Faithful(s, f)
    ensures Answers(s, texts, f) == Mapped(f, texts)
  {
    forall i | 0 <= i < |texts| ensures Answers(s, texts, f)[i] == f(texts[i]) {
      LookupFinds(s, texts[i]);
    }
  }

  function WithPrefix(encode: string -> Vector, prefix: string): string -> Vector {
    text => encode(prefix + text)
  }
}
