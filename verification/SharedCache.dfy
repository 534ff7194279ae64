/**
 One cache for queries and passages, keyed by the bare text: runs that mix the two kinds of
 request, and when their answers are right.
 */
module SharedCache {
  import opened Uris
  import opened LruCache
  import opened Embeddings
  import opened EmbeddingBatches

  datatype Ask = Query(text: string) | Passages(texts: seq<string>)

  /** An encoder that works text by text, and the prefixes put before what it is given. */
  datatype Setup = Setup(encode: string -> Vector, query: string, passage: string)

  function Encoding(p: Setup, a: Ask): string -> Vector {
    WithPrefix(p.encode, if a.Query? then p.query else p.passage)
  }

  function Asked(a: Ask): seq<string> {
    if a.Query? then [a.text] else a.texts
  }

  /** What a request is answered, and what it should be. */
  function Reply(s: Cache, p: Setup, a: Ask): seq<Vector> {
    Answers(s, Asked(a), Encoding(p, a))
  }

  function Right(p: Setup, a: Ask): seq<Vector> {
    Mapped(Encoding(p, a), Asked(a))
  }

  /** The cache after one request. */
  function AfterAsk(s: Cache, maxItems: nat, p: Setup, a: Ask): Cache {
    match a
    case Query(text) => AfterQuery(s, maxItems, text, p.encode(p.query + text))
    case Passages(texts) =>
      var (t, _, misses) := Scan(s, texts);
      var vs := Mapped(Encoding(p, a), misses);
      SetAll(t, maxItems, misses, vs)
  }

  function AfterAsks(maxItems: nat, p: Setup, asks: seq<Ask>): Cache {
    if asks == [] then []
    else AfterAsk(AfterAsks(maxItems, p, asks[..|asks| - 1]), maxItems, p, asks[|asks| - 1])
  }

  /** A query keeps a right cache right if its own vector is, and finds only right vectors. */
  lemma QueryKeepsFaithful(s: Cache, maxItems: nat, text: string, v: Vector, f: string -> Vector)
    requires Distinct(Keys(s)) && Faithful(s, f)
    ensures Lookup(s, text).Some? ==> Lookup(s, text).value == f(text)
    ensures Lookup(s, text).Some? || v == f(text) ==> Faithful(AfterQuery(s, maxItems, text, v), f)
    ensures Distinct(Keys(AfterQuery(s, maxItems, text, v)))
  {
    LookupFinds(s, text);
    GetKeepsLookup(s, text, text);
    AfterSetKeeps(s, maxItems, text, v);
  }

  /** Over every mix of requests with equal prefixes each text is cached once, with its own vector. */
  lemma {:induction false} MixKeepsFaithful(maxItems: nat, p: Setup, asks: seq<Ask>)
    requires p.query == p.passage
    ensures var s := AfterAsks(maxItems, p, asks);
            Distinct(Keys(s)) && Faithful(s, WithPrefix(p.encode, p.query))
  {
    if asks != [] {
      hide Keys, Lookup, AfterQuery, SetAll, Mapped;
      var front, a := asks[..|asks| - 1], asks[|asks| - 1];
      var f := WithPrefix(p.encode, p.query);
      MixKeepsFaithful(maxItems, p, front);
      var s := AfterAsks(maxItems, p, front);
      match a
      case Query(text) => QueryKeepsFaithful(s, maxItems, text, p.encode(p.query + text), f);
      case Passages(texts) =>
        ScanFinds(s, texts);
        SetAllFaithful(Scan(s, texts).0, maxItems, Scan(s, texts).2, f);
    } else {
      NothingCached(WithPrefix(p.encode, p.query));
    }
  }

  lemma NothingCached(f: string -> Vector)
    ensures Distinct(Keys<string, Vector>([])) && Faithful([], f)
  {}

  ghost predicate AlwaysRight(maxItems: nat, query: string, passage: string) {
    forall encode: string -> Vector, asks: seq<Ask>, a: Ask ::
      var p := Setup(encode, query, passage);
      Reply(AfterAsks(maxItems, p, asks), p, a) == Right(p, a)
  }

  /** Every request of every mix, with every encoder, is answered with the right vectors if and only
      if the two prefixes are the same. */
  lemma SharedCacheRightIff(maxItems: nat, query: string, passage: string)
    requires maxItems > 0
    ensures AlwaysRight(maxItems, query, passage) <==> query == passage
  {
    if query == passage {
      forall encode: string -> Vector, asks: seq<Ask>, a: Ask
        ensures var p := Setup(encode, query, passage);
                Reply(AfterAsks(maxItems, p, asks), p, a) == Right(p, a)
      {
        hide Answers, Mapped, AfterAsks;
        var p := Setup(encode, query, passage);
        MixKeepsFaithful(maxItems, p, asks);
        FaithfulAnswersAreMap(AfterAsks(maxItems, p, asks), Asked(a), Encoding(p, a));
      }
    } else {
      var tell: string -> Vector := x => if x == query then [0.0] else [];
      QueryThenPassage(maxItems, Setup(tell, query, passage));
      var p := Setup(tell, query, passage);
      assert Reply(AfterAsks(maxItems, p, [Query("")]), p, Passages([""])) != Right(p, Passages([""]));
    }
  }

  /** After a query for the empty text, the passage of that text is answered with the query's vector. */
  lemma QueryThenPassage(maxItems: nat, p: Setup)
    requires maxItems > 0
    ensures Reply(AfterAsks(maxItems, p, [Query("")]), p, Passages([""])) == [p.encode(p.query)]
    ensures Right(p, Passages([""])) == [p.encode(p.passage)]
  {
    assert p.query + "" == p.query && p.passage + "" == p.passage;
    assert [Query("")][..0] == [];
    assert AfterAsks(maxItems, p, [Query("")]) == [("", p.encode(p.query))];
  }

  // ---------------------------------------------------------------- runs with failing calls

  /** A request that was served: its misses were given the vectors `given`, the encoder's or, where a
      call failed, the fallback's; `stored` says whether they went into the cache. */
  datatype Served = Served(ask: Ask, given: string -> Vector, stored: bool)

  function AfterServed(s: Cache, maxItems: nat, r: Served): Cache {
    match r.ask
    case Query(text) => AfterQuery(s, maxItems, text, r.given(text))
    case Passages(texts) =>
      var (t, _, misses) := Scan(s, texts);
      var vs := Mapped(r.given, misses);
      if r.stored then SetAll(t, maxItems, misses, vs) else t
  }

  function AfterRun(maxItems: nat, run: seq<Served>): Cache {
    if run == [] then [] else AfterServed(AfterRun(maxItems, run[..|run| - 1]), maxItems, run[|run| - 1])
  }

  /** A list request is of that kind, whatever vectors it stores for its misses. */
  lemma ListIsServed(s: Cache, maxItems: nat, texts: seq<string>, vs: seq<Vector>)
    requires Distinct(Keys(s)) && |Scan(s, texts).2| == |vs|
    ensures var (t, _, misses) := Scan(s, texts);
            AfterServed(s, maxItems, Served(Passages(texts), MadeVector(ZipOnto(map[], misses, vs)), true))
            == SetAll(t, maxItems, misses, vs)
  {
    ScanFinds(s, texts);
    ZipGives(Scan(s, texts).2, vs);
  }

  /** Did this request look the text up in vain and store what it was given for it? */
  predicate Gives(s: Cache, r: Served, text: string) {
    text in Asked(r.ask) && Lookup(s, text) == None && (r.ask.Query? || r.stored)
  }

  /** What the last such request was given for the text. */
  function LastGiven(maxItems: nat, run: seq<Served>, text: string): Option<Vector> {
    if run == [] then None
    else
      var front, r := run[..|run| - 1], run[|run| - 1];
      if Gives(AfterRun(maxItems, front), r, text) then Some(r.given(text)) else LastGiven(maxItems, front, text)
  }

  /** Storing vectors in bulk: each entry was there, for another text, or is one of those stored. */
  lemma {:induction false} SetAllEntries(s: Cache, maxItems: nat, keys: seq<string>, f: string -> Vector, e: (string, Vector))
    requires Distinct(Keys(s)) && Distinct(keys)
    ensures |Mapped(f, keys)| == |keys|
    ensures Distinct(Keys(SetAll(s, maxItems, keys, Mapped(f, keys))))
    ensures e in SetAll(s, maxItems, keys, Mapped(f, keys)) ==> if e.0 in keys then e.1 == f(e.0) else e in s
  {
    hide Keys, AfterSet;
    if keys != [] {
      var i := |keys| - 1;
      SetAllEntries(s, maxItems, keys[..i], f, e);
      assert Mapped(f, keys)[..i] == Mapped(f, keys[..i]);
      assert keys == keys[..i] + [keys[i]];
      AfterSetKeeps(SetAll(s, maxItems, keys[..i], Mapped(f, keys[..i])), maxItems, keys[i], f(keys[i]));
      SetReplaces(SetAll(s, maxItems, keys[..i], Mapped(f, keys[..i])), maxItems, keys[i], f(keys[i]), e);
    }
  }

  lemma SetReplaces(s: Cache, maxItems: nat, text: string, v: Vector, e: (string, Vector))
    ensures e in AfterSet(s, maxItems, text, v) ==> e == (text, v) || (e in s && e.0 != text)
  {
    MovedContents(s, text, v);
    LastOfStore(Moved(s, text, v), maxItems);
  }

  /** One request: what is found afterwards was found before, or was given now. */
  lemma ServedLeaves(s: Cache, maxItems: nat, r: Served, text: string)
    requires Distinct(Keys(s))
    ensures var t := AfterServed(s, maxItems, r);
            && Distinct(Keys(t))
            && (Lookup(t, text).Some? ==> Lookup(t, text) == if Gives(s, r, text) then Some(r.given(text)) else Lookup(s, text))
  {
    var t := AfterServed(s, maxItems, r);
    match r.ask
    case Query(asked) =>
      GetKeepsLookup(s, asked, text);
      AfterSetKeeps(s, maxItems, asked, r.given(asked));
      LookupFinds(t, text);
      if Lookup(s, asked) == None && Lookup(t, text).Some? {
        var e := (text, Lookup(t, text).value);
        SetReplaces(s, maxItems, asked, r.given(asked), e);
        if e in s { LookupUnique(s, e); }
      }
    case Passages(texts) =>
      hide Keys, Scan, SetAll, Mapped;
      var (u, _, misses) := Scan(s, texts);
      ScanFinds(s, texts);
      SameLookup(s, u, text);
      LookupFinds(t, text);
      if Lookup(t, text).Some? {
        var e := (text, Lookup(t, text).value);
        SetAllEntries(u, maxItems, misses, r.given, e);
        if r.stored && text !in misses { LookupUnique(u, e); }
      } else {
        SetAllEntries(u, maxItems, misses, r.given, (text, []));
      }
  }

  /** Over every run of requests, whatever calls fail: a text found in the cache is found with what
      the last request that missed and stored it was given. */
  lemma {:induction false} FoundAsLastGiven(maxItems: nat, run: seq<Served>, text: string)
    ensures var s := AfterRun(maxItems, run);
            Distinct(Keys(s)) && (Lookup(s, text).Some? ==> Lookup(s, text) == LastGiven(maxItems, run, text))
  {
    hide Keys, AfterServed, Gives;
    if run == [] {
      NothingCached(x => []);
    } else {
      FoundAsLastGiven(maxItems, run[..|run| - 1], text);
      ServedLeaves(AfterRun(maxItems, run[..|run| - 1]), maxItems, run[|run| - 1], text);
    }
  }

  /** So after a run with failures a request whose own calls succeed is answered right if and only if
      each of its texts that is cached was last given its right vector: the call that put it there
      did not fail, or the fallback gave the same. */
  lemma RightAfterFailuresIff(maxItems: nat, run: seq<Served>, a: Ask, f: string -> Vector)
    ensures var s := AfterRun(maxItems, run);
            Answers(s, Asked(a), f) == Mapped(f, Asked(a))
            <==> forall x | x in Asked(a) && Lookup(s, x).Some? :: LastGiven(maxItems, run, x) == Some(f(x))
  {
    hide AfterRun, LastGiven, Lookup;
    var s, texts := AfterRun(maxItems, run), Asked(a);
    forall x { FoundAsLastGiven(maxItems, run, x); }
    var got, right := Answers(s, texts, f), Mapped(f, texts);
    assert forall i | 0 <= i < |texts| :: got[i] == if Lookup(s, texts[i]).Some? then Lookup(s, texts[i]).value else f(texts[i]);
    if got == right {
      forall x | x in texts && Lookup(s, x).Some? ensures LastGiven(maxItems, run, x) == Some(f(x)) {
        var i :| 0 <= i < |texts| && texts[i] == x;
        assert got[i] == right[i];
      }
    }
  }

  // ---------------------------------------------------------------- what the cache holds

  /** The texts of a list that the cache has, in order. */
  function Found(s: Cache, texts: seq<string>): seq<string> {
    if texts == [] then []
    else
      var i := |texts| - 1;
      Found(s, texts[..i]) + if Lookup(s, texts[i]).Some? then [texts[i]] else []
  }

  /** The texts that a request uses, in the order of their use: what it finds, then what it stores. */
  function Uses(s: Cache, r: Served): seq<string> {
    match r.ask
    case Query(text) => [text]
    case Passages(texts) => Found(s, texts) + if r.stored then Scan(s, texts).2 else []
  }

  function AllUses(maxItems: nat, run: seq<Served>): seq<string> {
    if run == [] then []
    else
      var front, r := run[..|run| - 1], run[|run| - 1];
      AllUses(maxItems, front) + Uses(AfterRun(maxItems, front), r)
  }

  lemma RecencySnoc(s: seq<string>, x: string)
    ensures Recency(s + [x]) == Drop(Recency(s), x) + [x]
  {
    assert (s + [x])[..|s|] == s;
  }

  lemma {:induction false} RecencyOfDistinct(s: seq<string>)
    requires Distinct(s)
    ensures Recency(s) == s
  {
    if s != [] {
      var front, x := s[..|s| - 1], s[|s| - 1];
      RecencyOfDistinct(front);
      DropContents(front, x);
      assert s == front + [x];
    }
  }

  /** Of what was used before only the most recent texts, as many as fit, matter later. */
  lemma {:induction false} RecentMatters(a: seq<string>, b: seq<string>, more: seq<string>, n: nat)
    requires n > 0 && Last(Recency(a), n) == Last(Recency(b), n)
    ensures Last(Recency(a + more), n) == Last(Recency(b + more), n)
  {
    hide Recency, Last, Drop;
    if more == [] {
      assert a + more == a && b + more == b;
    } else {
      var front, x := more[..|more| - 1], more[|more| - 1];
      RecentMatters(a, b, front, n);
      assert a + more == a + front + [x] && b + more == b + front + [x];
      RecencySnoc(a + front, x);
      RecencySnoc(b + front, x);
      RecencyIsByLastAsk(a + front);
      RecencyIsByLastAsk(b + front);
      LastOfDrop(Recency(a + front), x, n);
      LastOfDrop(Recency(b + front), x, n);
    }
  }

  lemma {:induction false} ScanOrder(s: Cache, texts: seq<string>)
    requires Distinct(Keys(s))
    ensures Keys(Scan(s, texts).0) == Recency(Keys(s) + Found(s, texts))
  {
    hide Recency, Lookup, Moved;
    if texts == [] {
      RecencyOfDistinct(Keys(s));
      assert Keys(s) + [] == Keys(s);
    } else {
      var i := |texts| - 1;
      ScanOrder(s, texts[..i]);
      ScanFinds(s, texts[..i]);
      var t := Scan(s, texts[..i]).0;
      SameLookup(s, t, texts[i]);
      var v := Lookup(t, texts[i]);
      if v.Some? {
        MovedContents(t, texts[i], v.value);
        RecencySnoc(Keys(s) + Found(s, texts[..i]), texts[i]);
        assert Keys(s) + Found(s, texts) == Keys(s) + Found(s, texts[..i]) + [texts[i]];
      } else {
        assert Found(s, texts) == Found(s, texts[..i]);
      }
    }
  }

  lemma {:induction false} SetAllOrder(s: Cache, maxItems: nat, keys: seq<string>, vs: seq<Vector>)
    requires maxItems > 0 && Distinct(Keys(s)) && |keys| == |vs| && |s| <= maxItems
    ensures Keys(SetAll(s, maxItems, keys, vs)) == Last(Recency(Keys(s) + keys), maxItems)
  {
    hide Recency, AfterSet, Drop;
    if keys == [] {
      RecencyOfDistinct(Keys(s));
      assert Keys(s) + keys == Keys(s);
    } else {
      var i := |keys| - 1;
      SetAllOrder(s, maxItems, keys[..i], vs[..i]);
      SetOrder(SetAll(s, maxItems, keys[..i], vs[..i]), maxItems, keys[i], vs[i]);
      var r := Recency(Keys(s) + keys[..i]);
      RecencyIsByLastAsk(Keys(s) + keys[..i]);
      LastOfDrop(r, keys[i], maxItems);
      RecencySnoc(Keys(s) + keys[..i], keys[i]);
      assert Keys(s) + keys == Keys(s) + keys[..i] + [keys[i]];
    }
  }

  lemma SetOrder(s: Cache, maxItems: nat, text: string, v: Vector)
    ensures Keys(AfterSet(s, maxItems, text, v)) == Last(Drop(Keys(s), text) + [text], maxItems)
  {
    MovedContents(s, text, v);
    LastOfStore(Moved(s, text, v), maxItems);
  }

  /** One request moves what it finds, then what it stores, to the recent end, and drops the oldest. */
  lemma ServedOrder(s: Cache, maxItems: nat, r: Served)
    requires maxItems > 0 && Distinct(Keys(s)) && |s| <= maxItems
    ensures Keys(AfterServed(s, maxItems, r)) == Last(Recency(Keys(s) + Uses(s, r)), maxItems)
  {
    match r.ask
    case Query(text) =>
      RecencyOfDistinct(Keys(s));
      RecencySnoc(Keys(s), text);
      SetOrder(s, maxItems, text, r.given(text));
      LookupFinds(s, text);
      var w := if Lookup(s, text).Some? then Lookup(s, text).value else r.given(text);
      MovedContents(s, text, w);
      MovedFits(s, maxItems, text, w);
      LastOfStore(Moved(s, text, w), maxItems);
    case Passages(texts) =>
      PassagesOrder(s, maxItems, r, texts);
  }

  lemma PassagesOrder(s: Cache, maxItems: nat, r: Served, texts: seq<string>)
    requires maxItems > 0 && Distinct(Keys(s)) && |s| <= maxItems && r.ask == Passages(texts)
    ensures Keys(AfterServed(s, maxItems, r)) == Last(Recency(Keys(s) + Uses(s, r)), maxItems)
  {
    hide Recency, Scan, SetAll, Found, Keys;
    var (t, _, misses) := Scan(s, texts);
    var a := Keys(s) + Found(s, texts);
    ScanOrder(s, texts);
    ScanFinds(s, texts);
    SameSize(s, t);
    KeysLength(t);
    RecencyOfDistinct(Keys(t));
    RecencyIsByLastAsk(a);
    if r.stored {
      SetAllOrder(t, maxItems, misses, Mapped(r.given, misses));
      RecentMatters(Keys(t), a, misses, maxItems);
      assert Keys(s) + Uses(s, r) == a + misses;
    } else {
      assert Keys(s) + Uses(s, r) == a;
      LastExact(Keys(t), maxItems);
    }
  }

  lemma SameSize(s: Cache, t: Cache)
    requires Distinct(Keys(s)) && Distinct(Keys(t)) && forall e :: e in t <==> e in s
    ensures |t| == |s|
  {
    var a, b := set e | e in s, set e | e in t;
    assert a == b;
    DistinctEntries(s);
    DistinctEntries(t);
  }

  lemma {:induction false} DistinctEntries(s: Cache)
    requires Distinct(Keys(s))
    ensures |set e | e in s| == |s|
  {
    if s != [] {
      var front, last := s[..|s| - 1], s[|s| - 1];
      assert Keys(front) == Keys(s)[..|front|];
      DistinctEntries(front);
      assert forall i | 0 <= i < |front| :: Keys(s)[i] == front[i].0 && Keys(s)[i] != Keys(s)[|s| - 1];
      assert (set e | e in s) == (set e | e in front) + {last};
    }
  }

  /** Over every run of queries and lists, whatever calls fail, the cache holds, in order, exactly the
      `maxItems` most recently used distinct texts. */
  lemma {:induction false} RunHoldsRecent(maxItems: nat, run: seq<Served>)
    requires maxItems > 0
    ensures var s, r := AfterRun(maxItems, run), Recency(AllUses(maxItems, run));
            && Distinct(Keys(s)) && |s| == (if |r| <= maxItems then |r| else maxItems)
            && Keys(s) == r[|r| - |s|..]
  {
    hide Recency, Keys, AfterServed, Uses;
    var s, r := AfterRun(maxItems, run), Recency(AllUses(maxItems, run));
    LastExact(r, maxItems);
    KeysLength(s);
    if run == [] {
      NothingUsed();
    } else {
      var front, last := run[..|run| - 1], run[|run| - 1];
      var t := AfterRun(maxItems, front);
      RunHoldsRecent(maxItems, front);
      LastExact(Recency(AllUses(maxItems, front)), maxItems);
      KeysLength(t);
      ServedLeaves(t, maxItems, last, "");
      ServedOrder(t, maxItems, last);
      RecencyOfDistinct(Keys(t));
      RecentMatters(Keys(t), AllUses(maxItems, front), Uses(t, last), maxItems);
    }
  }

  lemma NothingUsed()
    ensures Recency<string>([]) == [] && Keys<string, Vector>([]) == [] && Distinct<string>([])
  {}
}
