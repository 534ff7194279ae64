/**
 The LRU embedding cache: an ordered dictionary from least to most recently used, and what it
 holds after any run of queries.
 */
module LruCache {
  import opened Uris

  /** Entries from the least to the most recently used; a key occurs once. `K` are the texts
      (the cache keys them by digest), `V` the vectors. */
  type Store<K, V> = seq<(K, V)>

  function Keys<K, V>(s: Store<K, V>): seq<K> {
    seq(|s|, i requires 0 <= i < |s| => s[i].0)
  }

  function Lookup<K(==), V>(s: Store<K, V>, text: K): Option<V> {
    if s == [] then None
    else if s[|s| - 1].0 == text then Some(s[|s| - 1].1)
    else Lookup(s[..|s| - 1], text)
  }

  function Without<K(==), V>(s: Store<K, V>, text: K): Store<K, V> {
    if s == [] then []
    else Without(s[..|s| - 1], text) + (if s[|s| - 1].0 == text then [] else [s[|s| - 1]])
  }

  /** The last `n` elements. */
  function Last<T>(s: seq<T>, n: nat): seq<T> {
    if |s| <= n then s else s[|s| - n..]
  }

  /** The entry becomes the most recently used one. */
  function Moved<K(==), V>(s: Store<K, V>, text: K, v: V): Store<K, V> {
    Without(s, text) + [(text, v)]
  }

  /** The store after `get`: a hit is moved to the end. */
  function AfterGet<K(==), V>(s: Store<K, V>, text: K): Store<K, V> {
    var v := Lookup(s, text);
    if v.Some? then Moved(s, text, v.value) else s
  }

  /** The store after `set`: the entry goes to the end and the oldest ones are dropped. */
  function AfterSet<K(==), V>(s: Store<K, V>, maxItems: nat, text: K, v: V): Store<K, V> {
    Last(Moved(s, text, v), maxItems)
  }

  /** The store after a query, `v` being the vector that a miss is given. */
  function AfterQuery<K(==), V>(s: Store<K, V>, maxItems: nat, text: K, v: V): Store<K, V> {
    if Lookup(s, text).Some? then AfterGet(s, text) else AfterSet(s, maxItems, text, v)
  }

  /** The store after a run of queries. What a miss is given may differ from call to call, as it
      does when a failed call falls back. */
  function Queries<K(==), V>(maxItems: nat, encode: (nat, K) -> V, asked: seq<K>): Store<K, V> {
    if asked == [] then []
    else
      var n := |asked| - 1;
      AfterQuery(Queries(maxItems, encode, asked[..n]), maxItems, asked[n], encode(n, asked[n]))
  }

  // ---------------------------------------------------------------- lookup and removal

  function Drop<K(==)>(s: seq<K>, text: K): seq<K> {
    if s == [] then []
    else Drop(s[..|s| - 1], text) + (if s[|s| - 1] == text then [] else [s[|s| - 1]])
  }

  lemma {:induction false} LookupFinds<K, V>(s: Store<K, V>, text: K)
    ensures Lookup(s, text).Some? <==> text in Keys(s)
    ensures Lookup(s, text).Some? ==> (text, Lookup(s, text).value) in s
  {
    if s != [] {
      assert s == s[..|s| - 1] + [s[|s| - 1]];
      assert Keys(s) == Keys(s[..|s| - 1]) + [s[|s| - 1].0];
      LookupFinds(s[..|s| - 1], text);
    }
  }

  lemma {:induction false} LookupUnique<K, V>(s: Store<K, V>, e: (K, V))
    requires Distinct(Keys(s)) && e in s
    ensures Lookup(s, e.0) == Some(e.1)
  {
    var front, last := s[..|s| - 1], s[|s| - 1];
    assert s == front + [last];
    assert Keys(s) == Keys(front) + [last.0];
    if last != e {
      var i :| 0 <= i < |front| && front[i] == e;
      assert Keys(s)[i] != Keys(s)[|s| - 1];
      assert forall a | 0 <= a < |front| :: Keys(s)[a] == Keys(front)[a];
      LookupUnique(front, e);
    }
  }

  lemma {:induction false} DropContents<K>(s: seq<K>, text: K)
    ensures forall x :: x in Drop(s, text) <==> x in s && x != text
    ensures Distinct(s) ==> Distinct(Drop(s, text))
    ensures text !in s ==> Drop(s, text) == s
    ensures |Drop(s, text)| <= |s| && (text in s ==> |Drop(s, text)| < |s|)
  {
    if s != [] {
      var front, last := s[..|s| - 1], s[|s| - 1];
      assert s == front + [last];
      DropContents(front, text);
      DistinctSnoc(front, last);
      DistinctSnoc(Drop(front, text), last);
      assert Drop(front, text) + [] == Drop(front, text);
    }
  }

  lemma DistinctSnoc<K>(s: seq<K>, x: K)
    ensures Distinct(s + [x]) <==> Distinct(s) && x !in s
  {
    var all := s + [x];
    if Distinct(all) {
      assert forall i | 0 <= i < |s| :: s[i] == all[i] && all[i] != all[|s|];
    }
  }

  lemma {:induction false} WithoutContents<K, V>(s: Store<K, V>, text: K)
    ensures Keys(Without(s, text)) == Drop(Keys(s), text)
    ensures forall e :: e in Without(s, text) <==> e in s && e.0 != text
  {
    if s != [] {
      var front, last := s[..|s| - 1], s[|s| - 1];
      assert s == front + [last];
      assert Keys(s)[..|s| - 1] == Keys(front);
      WithoutContents(front, text);
    }
  }

  lemma MovedContents<K, V>(s: Store<K, V>, text: K, v: V)
    ensures Keys(Moved(s, text, v)) == Drop(Keys(s), text) + [text]
    ensures forall e :: e in Moved(s, text, v) <==> (e in s && e.0 != text) || e == (text, v)
    ensures Distinct(Keys(s)) ==> Distinct(Keys(Moved(s, text, v)))
  {
    WithoutContents(s, text);
    DropContents(Keys(s), text);
  }

  lemma AfterSetKeeps<K, V>(s: Store<K, V>, maxItems: nat, text: K, v: V)
    requires Distinct(Keys(s))
    ensures Distinct(Keys(AfterSet(s, maxItems, text, v)))
    ensures forall e | e in AfterSet(s, maxItems, text, v) :: e in s || e == (text, v)
  {
    MovedContents(s, text, v);
    var m := Moved(s, text, v);
    LastOfStore(m, maxItems);
    forall e | e in AfterSet(s, maxItems, text, v) ensures e in s || e == (text, v) {
      assert e in Last(m, maxItems);
      assert e in m;
    }
  }

  lemma LastOfStore<K, V>(s: Store<K, V>, n: nat)
    ensures Keys(Last(s, n)) == Last(Keys(s), n)
    ensures Distinct(Keys(s)) ==> Distinct(Keys(Last(s, n)))
    ensures forall e | e in Last(s, n) :: e in s
  {}

  // ---------------------------------------------------------------- recency

  /** The texts asked for, once each, the most recent last. */
  function Recency<K(==)>(asked: seq<K>): seq<K> {
    if asked == [] then []
    else Drop(Recency(asked[..|asked| - 1]), asked[|asked| - 1]) + [asked[|asked| - 1]]
  }

  /** When a text was last asked for. */
  function LastAsked<K(==)>(asked: seq<K>, text: K): nat
    requires text in asked
  {
    if asked[|asked| - 1] == text then |asked| - 1 else LastAsked(asked[..|asked| - 1], text)
  }

  /** `Recency` is what its name says: every text asked for, once, by the time of its last ask. */
  lemma {:induction false} RecencyIsByLastAsk<K>(asked: seq<K>)
    ensures Distinct(Recency(asked))
    ensures forall x :: x in Recency(asked) <==> x in asked
    ensures forall x, y :: Precedes(Recency(asked), x, y) ==> LastAsked(asked, x) < LastAsked(asked, y)
  {
    if asked != [] {
      var front, last := asked[..|asked| - 1], asked[|asked| - 1];
      assert asked == front + [last];
      RecencyIsByLastAsk(front);
      DropContents(Recency(front), last);
      forall x, y | Precedes(Recency(asked), x, y) ensures LastAsked(asked, x) < LastAsked(asked, y) {
        DropKeepsOrder(Recency(front), last, x, y);
        assert x in front && x != last;
        LastAskedBound(front, x);
      }
    }
  }

  ghost predicate Precedes<K>(s: seq<K>, x: K, y: K) {
    exists i, j :: 0 <= i < j < |s| && s[i] == x && s[j] == y
  }

  lemma {:induction false} LastAskedBound<K>(asked: seq<K>, x: K)
    requires x in asked
    ensures LastAsked(asked, x) < |asked| && asked[LastAsked(asked, x)] == x
  {
    if asked[|asked| - 1] != x { LastAskedBound(asked[..|asked| - 1], x); }
  }

  lemma {:induction false} DropKeepsOrder<K>(s: seq<K>, last: K, x: K, y: K)
    requires Distinct(s) && Precedes(Drop(s, last) + [last], x, y)
    ensures x in s && x != last
    ensures y == last || Precedes(s, x, y)
  {
    var d := Drop(s, last) + [last];
    DropContents(s, last);
    var i, j :| 0 <= i < j < |d| && d[i] == x && d[j] == y;
    if j < |d| - 1 {
      DropPositions(s, last, i, j);
    }
  }

  lemma DropMember<K>(s: seq<K>, text: K, x: K)
    requires x in Drop(s, text)
    ensures x in s
  {
    DropContents(s, text);
  }

  lemma {:induction false} DropPositions<K>(s: seq<K>, text: K, i: nat, j: nat)
    requires i < j < |Drop(s, text)|
    ensures Precedes(s, Drop(s, text)[i], Drop(s, text)[j])
  {
    var front, last := s[..|s| - 1], s[|s| - 1];
    assert s == front + [last];
    var d := Drop(front, text);
    if j < |d| {
      DropPositions(front, text, i, j);
      var a, b :| 0 <= a < b < |front| && front[a] == d[i] && front[b] == d[j];
      assert s[a] == d[i] && s[b] == d[j];
    } else {
      DropContents(front, text);
      var x := d[i];
      assert x in d by { assert d[i] == x; }
      DropMember(front, text, x);
      var a :| 0 <= a < |front| && front[a] == d[i];
      assert s[a] == d[i] && s[|s| - 1] == last;
    }
  }

  lemma {:induction false} LastOfDrop<K>(s: seq<K>, text: K, n: nat)
    requires n > 0 && Distinct(s)
    ensures Last(Drop(Last(s, n), text) + [text], n) == Last(Drop(s, text) + [text], n)
  {
    if |s| > n {
      var a, b := s[..|s| - n], s[|s| - n..];
      assert s == a + b;
      DropConcat(a, b, text);
      if text in b { DropOne(b, text); } else { DropContents(b, text); }
      assert Drop(a, text) + Drop(b, text) + [text] == Drop(a, text) + (Drop(b, text) + [text]);
      LastOfConcat(Drop(a, text), Drop(b, text) + [text], n);
    }
  }

  lemma LastOfConcat<K>(a: seq<K>, b: seq<K>, n: nat)
    requires |b| >= n
    ensures Last(a + b, n) == Last(b, n)
  {}

  lemma {:induction false} DropConcat<K>(a: seq<K>, b: seq<K>, text: K)
    ensures Drop(a + b, text) == Drop(a, text) + Drop(b, text)
  {
    if b == [] {
      assert a + b == a;
    } else {
      DropConcat(a, b[..|b| - 1], text);
      assert (a + b)[..|a + b| - 1] == a + b[..|b| - 1];
    }
  }

  lemma {:induction false} DropOne<K>(s: seq<K>, text: K)
    requires Distinct(s) && text in s
    ensures |Drop(s, text)| == |s| - 1
  {
    var front, last := s[..|s| - 1], s[|s| - 1];
    assert s == front + [last];
    if last == text {
      assert text !in front;
      DropContents(front, text);
    } else {
      DropOne(front, text);
    }
  }

  // ---------------------------------------------------------------- main results

  /** The entry's vector was given to it by a query of the run. */
  ghost predicate Given<K, V>(encode: (nat, K) -> V, asked: seq<K>, e: (K, V)) {
    exists n :: 0 <= n < |asked| && asked[n] == e.0 && e.1 == encode(n, e.0)
  }

  /** After any run of queries, whatever vectors they were given, the cache holds, in order, exactly
      the `maxItems` most recently asked distinct texts, each with a vector of its own. */
  lemma {:induction false} CacheHoldsRecent<K, V>(maxItems: nat, encode: (nat, K) -> V, asked: seq<K>)
    requires maxItems > 0
    ensures var s, r := Queries(maxItems, encode, asked), Recency(asked);
            && |s| == (if |r| <= maxItems then |r| else maxItems)
            && Keys(s) == Last(r, maxItems) == r[|r| - |s|..]
            && forall e | e in s :: Given(encode, asked, e)
  {
    LastExact(Recency(asked), maxItems);
    hide Given, Recency, Keys, Last, AfterQuery;
    if asked == [] {
      NothingAsked<K, V>(maxItems);
      KeysLength<K, V>([]);
    } else {
      var n := |asked| - 1;
      CacheHoldsRecent(maxItems, encode, asked[..n]);
      var before := Queries(maxItems, encode, asked[..n]);
      QueryMovesRecent(before, maxItems, asked, encode(n, asked[n]));
      KeysLength(Queries(maxItems, encode, asked));
      forall e | e in Queries(maxItems, encode, asked) ensures Given(encode, asked, e) {
        GivenLater(encode, asked, e);
      }
    }
  }

  lemma LastExact<K>(s: seq<K>, n: nat)
    ensures |Last(s, n)| == (if |s| <= n then |s| else n) && Last(s, n) == s[|s| - |Last(s, n)|..]
  {}

  lemma KeysLength<K, V>(s: Store<K, V>)
    ensures |Keys(s)| == |s|
  {}

  lemma NothingAsked<K, V>(maxItems: nat)
    ensures Keys<K, V>([]) == Last(Recency<K>([]), maxItems)
  {}

  /** One more query on a cache of the most recent texts: it still holds the most recent ones, and
      nothing but what it held and the text's own entry. */
  lemma QueryMovesRecent<K, V>(s: Store<K, V>, maxItems: nat, asked: seq<K>, v: V)
    requires maxItems > 0 && asked != [] && Keys(s) == Last(Recency(asked[..|asked| - 1]), maxItems)
    ensures var t := AfterQuery(s, maxItems, asked[|asked| - 1], v);
            && Keys(t) == Last(Recency(asked), maxItems)
            && forall e | e in t :: e in s || e == (asked[|asked| - 1], v)
  {
    hide Keys, Lookup, Drop, Without, LastAsked;
    var front, text := asked[..|asked| - 1], asked[|asked| - 1];
    RecencyIsByLastAsk(front);
    LookupFinds(s, text);
    var w := if Lookup(s, text).Some? then Lookup(s, text).value else v;
    var moved := Moved(s, text, w);
    MovedContents(s, text, w);
    LastOfDrop(Recency(front), text, maxItems);
    LastOfStore(moved, maxItems);
    MovedFits(s, maxItems, text, w);
    assert AfterQuery(s, maxItems, text, v) == Last(moved, maxItems);
  }

  /** Moving an entry that is there makes the store no longer. */
  lemma MovedFits<K, V>(s: Store<K, V>, maxItems: nat, text: K, v: V)
    requires |Keys(s)| <= maxItems
    ensures Lookup(s, text).Some? ==> Last(Moved(s, text, v), maxItems) == Moved(s, text, v)
  {
    LookupFinds(s, text);
    MovedContents(s, text, v);
    DropContents(Keys(s), text);
    assert |Keys(Moved(s, text, v))| == |Moved(s, text, v)|;
  }

  lemma GivenLater<K, V>(encode: (nat, K) -> V, asked: seq<K>, e: (K, V))
    requires asked != []
    requires Given(encode, asked[..|asked| - 1], e) || e == (asked[|asked| - 1], encode(|asked| - 1, asked[|asked| - 1]))
    ensures Given(encode, asked, e)
  {}

  /** The number of queries of the run that were answered from the cache. */
  function Hits<K(==), V>(maxItems: nat, encode: (nat, K) -> V, asked: seq<K>): nat {
    if asked == [] then 0
    else
      var front := asked[..|asked| - 1];
      Hits(maxItems, encode, front)
        + (if Lookup(Queries(maxItems, encode, front), asked[|asked| - 1]).Some? then 1 else 0)
  }

  /** Asked the same texts, a larger cache holds every text that a smaller one holds, whatever vectors
      the two were given. */
  lemma LargerCacheContains<K, V>(small: nat, large: nat, a: (nat, K) -> V, b: (nat, K) -> V, asked: seq<K>, text: K)
    requires 0 < small <= large
    requires Lookup(Queries(small, a, asked), text).Some?
    ensures Lookup(Queries(large, b, asked), text).Some?
  {
    hide Queries, Recency, Last, Keys, Lookup;
    CacheHoldsRecent(small, a, asked);
    CacheHoldsRecent(large, b, asked);
    LookupFinds(Queries(small, a, asked), text);
    LookupFinds(Queries(large, b, asked), text);
    LastGrows(Recency(asked), small, large, text);
  }

  lemma LastGrows<K>(s: seq<K>, small: nat, large: nat, x: K)
    requires small <= large && x in Last(s, small)
    ensures x in Last(s, large)
  {
    var a, b := Last(s, small), Last(s, large);
    var i :| 0 <= i < |a| && a[i] == x;
    assert b[i + |b| - |a|] == x;
  }

  /** So it never has fewer hits. */
  lemma {:induction false} LargerCacheHitsMore<K, V>(small: nat, large: nat, a: (nat, K) -> V, b: (nat, K) -> V, asked: seq<K>)
    requires 0 < small <= large
    ensures Hits(small, a, asked) <= Hits(large, b, asked)
  {
    if asked != [] {
      var front, text := asked[..|asked| - 1], asked[|asked| - 1];
      LargerCacheHitsMore(small, large, a, b, front);
      if Lookup(Queries(small, a, front), text).Some? {
        LargerCacheContains(small, large, a, b, front, text);
      }
    }
  }
}
