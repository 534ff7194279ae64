/** The LRU cache and the two embedders as objects updated in place. */
module Embedders {
  import opened Uris
  import opened LruCache
  import opened Embeddings
  import opened EmbeddingBatches
  import opened SharedCache

  class LruEmbeddingCache {
    const maxItems: nat
    var store: Cache

    ghost predicate Valid()
      reads this
    {
      maxItems > 0 && Distinct(Keys(store))
    }

    constructor (maxItems: int)
      ensures Valid() && store == [] && this.maxItems == if maxItems < 1 then 1 else maxItems
    {
      this.maxItems := if maxItems < 1 then 1 else maxItems;
      store := [];
    }

    method Get(text: string) returns (v: Option<Vector>)
      requires Valid()
      modifies this
      ensures Valid() && v == Lookup(old(store), text) && store == AfterGet(old(store), text)
    {
      v := Lookup(store, text);
      if v == None {
        return;
      }
      GetKeepsLookup(store, text, text);
      store := Moved(store, text, v.value);
    }

    method Set(text: string, v: Vector)
      requires Valid()
      modifies this
      ensures Valid() && store == AfterSet(old(store), maxItems, text, v)
    {
      hide Keys;
      AfterSetKeeps(store, maxItems, text, v);
      ghost var moved := Moved(store, text, v);
      store := Moved(store, text, v);
      ghost var dropped: nat := 0;
      while |store| > maxItems
        invariant maxItems > 0 && dropped <= |moved|
        invariant store == moved[dropped..] && (dropped == 0 || |store| >= maxItems)
      {
        store := store[1..];
        dropped := dropped + 1;
      }
    }
  }

  /** `places` are exactly where `x` is still missing. */
  ghost predicate PlacesOf(texts: seq<string>, out: seq<Option<Vector>>, x: string, places: seq<nat>)
    requires |out| == |texts|
  {
    && (forall i | i in places :: i < |texts| && texts[i] == x && out[i] == None)
    && (forall i | 0 <= i < |texts| && texts[i] == x && out[i] == None :: i in places)
  }

  /** `positions` lists, for each missed text, exactly the places where it is still missing. */
  ghost predicate Located(texts: seq<string>, out: seq<Option<Vector>>, positions: map<string, seq<nat>>) {
    && |out| == |texts|
    && (forall x | x in positions :: positions[x] != [])
    && (forall i | 0 <= i < |texts| && out[i] == None :: texts[i] in positions)
    && (forall x | x in positions :: PlacesOf(texts, out, x, positions[x]))
  }

  lemma LocatedHit(texts: seq<string>, out: seq<Option<Vector>>, positions: map<string, seq<nat>>, text: string, v: Vector)
    requires Located(texts, out, positions)
    ensures Located(texts + [text], out + [Some(v)], positions)
  {
    forall x | x in positions ensures PlacesOf(texts + [text], out + [Some(v)], x, positions[x]) {
      assert PlacesOf(texts, out, x, positions[x]);
    }
  }

  lemma LocatedMiss(texts: seq<string>, out: seq<Option<Vector>>, positions: map<string, seq<nat>>, text: string)
    requires Located(texts, out, positions)
    ensures var bucket := (if text in positions then positions[text] else []) + [|texts|];
            && Located(texts + [text], out + [None], positions[text := bucket])
            && (|bucket| == 1 <==> text !in positions)
  {
    var texts', out' := texts + [text], out + [None];
    var positions' := positions[text := (if text in positions then positions[text] else []) + [|texts|]];
    forall x | x in positions' ensures PlacesOf(texts', out', x, positions'[x]) {
      if x in positions { assert PlacesOf(texts, out, x, positions[x]); }
    }
  }

  lemma ScanSnoc(s: Cache, texts: seq<string>, text: string)
    ensures var (t, out, misses) := Scan(s, texts);
            var v := Lookup(t, text);
            Scan(s, texts + [text]) ==
              (AfterGet(t, text), out + [v], if v.Some? || text in misses then misses else misses + [text])
  {
    assert (texts + [text])[..|texts|] == texts;
  }

  lemma EmptyStoreStaysEmpty(text: string)
    ensures Lookup<string, Vector>([], text) == None && AfterGet<string, Vector>([], text) == []
  {}

  /** The lookups at the head of `embed_texts`: what is found, the distinct misses in order, and
      the positions of each miss. */
  method LookUpAll(cache: LruEmbeddingCache?, texts: seq<string>)
    returns (out: seq<Option<Vector>>, misses: seq<string>, positions: map<string, seq<nat>>)
    requires cache != null ==> cache.Valid()
    modifies cache
    ensures cache != null ==> cache.Valid()
    ensures var s := if cache == null then [] else old(cache.store);
            (if cache == null then [] else cache.store, out, misses) == Scan(s, texts)
    ensures positions.Keys == set x | x in misses
    ensures Located(texts, out, positions)
  {
    hide Lookup, AfterGet, Located, Scan, LruEmbeddingCache.Valid;
    out, misses, positions := [], [], map[];
    ghost var s := if cache == null then [] else cache.store;
    assert texts[..0] == [];
    assert Located([], out, positions) && Scan(s, []) == (s, [], []) by { NothingScanned(s); }
    for idx := 0 to |texts|
      invariant cache != null ==> cache.Valid()
      invariant (if cache == null then [] else cache.store, out, misses) == Scan(s, texts[..idx])
      invariant positions.Keys == set x | x in misses
      invariant Located(texts[..idx], out, positions)
    {
      var text := texts[idx];
      assert texts[..idx + 1] == texts[..idx] + [text];
      ScanSnoc(s, texts[..idx], text);
      var cached: Option<Vector> := None;
      if cache != null {
        cached := cache.Get(text);
      } else {
        EmptyStoreStaysEmpty(text);
      }
      if cached.Some? {
        LocatedHit(texts[..idx], out, positions, text, cached.value);
        out := out + [cached];
        continue;
      }
      LocatedMiss(texts[..idx], out, positions, text);
      var bucket := if text in positions then positions[text] else [];
      bucket := bucket + [idx];
      out := out + [None];
      if |bucket| == 1 {
        misses := misses + [text];
      }
      positions := positions[text := bucket];
    }
    assert texts[..|texts|] == texts;
  }

  lemma NothingScanned(s: Cache)
    ensures Located([], [], map[]) && Scan(s, []) == (s, [], [])
  {}

  // ---------------------------------------------------------------- scattering the new vectors

  /** `out` is what was found, with the vectors `made` so far at the places of their texts. */
  ghost predicate Filled(texts: seq<string>, found: seq<Option<Vector>>, made: map<string, Vector>, out: seq<Option<Vector>>) {
    && |found| == |out| == |texts|
    && forall i | 0 <= i < |texts| ::
         out[i] == if found[i].Some? then found[i] else if texts[i] in made then Some(made[texts[i]]) else None
  }

  method FillPositions(texts: seq<string>, ghost found: seq<Option<Vector>>, ghost made: map<string, Vector>,
                       positions: map<string, seq<nat>>, out: seq<Option<Vector>>, text: string, v: Vector)
    returns (out': seq<Option<Vector>>)
    requires Located(texts, found, positions) && Filled(texts, found, made, out) && text in positions
    ensures Filled(texts, found, made[text := v], out')
  {
    out' := out;
    var ps := positions[text];
    assert PlacesOf(texts, found, text, ps);
    for j := 0 to |ps|
      invariant |out'| == |texts|
      invariant forall i | 0 <= i < |texts| :: out'[i] == if i in ps[..j] then Some(v) else out[i]
    {
      var p: nat := ps[j];
      assert p in ps;
      out' := out'[p := Some(v)];
      assert ps[..j + 1] == ps[..j] + [p];
    }
    assert ps[..|ps|] == ps;
  }

  /** Caches the vectors of one batch and puts them where their texts are missing. */
  method ScatterBatch(cache: LruEmbeddingCache?, texts: seq<string>, ghost found: seq<Option<Vector>>,
                      ghost made: map<string, Vector>, positions: map<string, seq<nat>>, out: seq<Option<Vector>>,
                      batch: seq<string>, vectors: seq<Vector>)
    returns (out': seq<Option<Vector>>)
    requires cache != null ==> cache.Valid()
    requires Located(texts, found, positions) && Filled(texts, found, made, out)
    requires |batch| == |vectors| && forall x | x in batch :: x in positions
    modifies cache
    ensures cache != null ==> cache.Valid() && cache.store == SetAll(old(cache.store), cache.maxItems, batch, vectors)
    ensures Filled(texts, found, ZipOnto(made, batch, vectors), out')
  {
    hide Located, Filled, AfterSet, SetAll, ZipOnto, LruEmbeddingCache.Valid;
    out' := out;
    BulkStart(if cache == null then [] else cache.store, 0, made);
    if cache != null { BulkStart(cache.store, cache.maxItems, made); }
    assert batch[..0] == [] && vectors[..0] == [];
    for j := 0 to |batch|
      invariant cache != null ==> cache.Valid()
      invariant cache != null ==> cache.store == SetAll(old(cache.store), cache.maxItems, batch[..j], vectors[..j])
      invariant Filled(texts, found, ZipOnto(made, batch[..j], vectors[..j]), out')
    {
      assert batch[j] in batch;
      BulkSnoc([], 0, made, batch, vectors, j);
      if cache != null {
        BulkSnoc(old(cache.store), cache.maxItems, made, batch, vectors, j);
        cache.Set(batch[j], vectors[j]);
      }
      out' := FillPositions(texts, found, ZipOnto(made, batch[..j], vectors[..j]), positions, out', batch[j], vectors[j]);
    }
    assert batch[..|batch|] == batch && vectors[..|vectors|] == vectors;
  }

  /** Python's `[item for item in out if item is not None]`. */
  function Present(out: seq<Option<Vector>>): seq<Vector> {
    if out == [] then []
    else Present(out[..|out| - 1]) + (if out[|out| - 1].Some? then [out[|out| - 1].value] else [])
  }

  lemma {:induction false} AllPresent(out: seq<Option<Vector>>)
    requires forall i | 0 <= i < |out| :: out[i].Some?
    ensures |Present(out)| == |out|
    ensures forall i | 0 <= i < |out| :: Present(out)[i] == out[i].value
  {
    if out != [] {
      AllPresent(out[..|out| - 1]);
    }
  }

  /** The end of `embed_texts`: everything is there, as cached or as made. */
  lemma FilledAnswers(s: Cache, texts: seq<string>, found: seq<Option<Vector>>, misses: seq<string>,
                      made: map<string, Vector>, out: seq<Option<Vector>>)
    requires Distinct(Keys(s))
    requires Scan(s, texts).1 == found && Scan(s, texts).2 == misses
    requires Filled(texts, found, made, out) && made.Keys == set x | x in misses
    ensures made.Keys == set x | x in texts && Lookup(s, x) == None
    ensures |Present(out)| == |texts|
    ensures Present(out) == Answers(s, texts, MadeVector(made))
  {
    ScanFinds(s, texts);
    forall i | 0 <= i < |out| ensures out[i].Some? && out[i].value == Answers(s, texts, MadeVector(made))[i] {
      if found[i] == None {
        assert texts[i] in misses;
      }
    }
    AllPresent(out);
  }

  /** If the vectors made for the misses are `f` of their texts, the answers are those of `f`. */
  lemma AnswersOfMap(s: Cache, texts: seq<string>, f: string -> Vector)
    requires Distinct(Keys(s))
    ensures var misses := Scan(s, texts).2;
            && |Mapped(f, misses)| == |misses|
            && Answers(s, texts, MadeVector(ZipOnto(map[], misses, Mapped(f, misses)))) == Answers(s, texts, f)
  {
    var misses := Scan(s, texts).2;
    ScanFinds(s, texts);
    ZipOfMap(misses, f);
    var made := ZipOnto(map[], misses, Mapped(f, misses));
    var a, b := Answers(s, texts, MadeVector(made)), Answers(s, texts, f);
    forall i | 0 <= i < |texts| ensures a[i] == b[i] {
      assert Lookup(s, texts[i]) == None ==> texts[i] in misses;
    }
  }

  /** All that a pointwise encoder makes of a list: its map where the cache has no vector, its plain
      map if the cache was right, and a cache that is right again. */
  lemma MapThroughCache(s: Cache, maxItems: nat, texts: seq<string>, f: string -> Vector)
    requires Distinct(Keys(s))
    ensures var (t, _, misses) := Scan(s, texts);
            && |Mapped(f, misses)| == |misses|
            && Answers(s, texts, MadeVector(ZipOnto(map[], misses, Mapped(f, misses)))) == Answers(s, texts, f)
            && (Faithful(s, f) ==>
                  && Answers(s, texts, f) == Mapped(f, texts)
                  && Faithful(SetAll(t, maxItems, misses, Mapped(f, misses)), f))
  {
    hide Scan, Answers, ZipOnto, Keys;
    var t, misses := Scan(s, texts).0, Scan(s, texts).2;
    AnswersOfMap(s, texts, f);
    ScanFinds(s, texts);
    if Faithful(s, f) {
      FaithfulAnswersAreMap(s, texts, f);
      SetAllFaithful(t, maxItems, misses, f);
    }
  }

  /** The cache after the vectors of `keys` were stored on top of `t`; none without a cache. */
  function Stored(cache: LruEmbeddingCache?, t: Cache, keys: seq<string>, vs: seq<Vector>): Cache
    requires |keys| == |vs|
  {
    if cache == null then [] else SetAll(t, cache.maxItems, keys, vs)
  }

  class OpenAICompatibleEmbedder {
    const configured: bool
    const oracle: Oracle
    const dimensions: nat
    const batchSize: int
    const cache: LruEmbeddingCache?
    const fallback: string -> Vector
    const queryPrefix: string
    const passagePrefix: string
    /** The batches sent so far. */
    var sent: seq<seq<string>>

    ghost predicate Valid()
      reads this, cache
    {
      cache != null ==> cache.Valid()
    }

    function Cached(): Cache
      reads this, cache
    {
      if cache == null then [] else cache.store
    }

    constructor (configured: bool, oracle: Oracle, dimensions: nat, batchSize: int, cacheEnabled: bool, maxItems: int,
                 fallback: string -> Vector, queryPrefix: string, passagePrefix: string)
      ensures Valid() && (cache != null ==> fresh(cache)) && sent == [] && Cached() == []
    {
      this.configured, this.oracle, this.dimensions := configured, oracle, dimensions;
      this.batchSize := if batchSize < 1 then 1 else batchSize;
      this.fallback, this.queryPrefix, this.passagePrefix := fallback, queryPrefix, passagePrefix;
      if cacheEnabled {
        cache := new LruEmbeddingCache(maxItems);
      } else {
        cache := null;
      }
      sent := [];
    }

    method EmbedRemoteBatch(batch: seq<string>) returns (vectors: Option<seq<Vector>>)
      modifies this`sent
      ensures sent == old(sent) + [batch]
      ensures vectors == RemoteAnswer(oracle, dimensions, |old(sent)|, batch)
      // As many vectors as texts, each cut or padded with zeros to the configured size.
      ensures var raw := oracle(|old(sent)|, batch);
              && (vectors.Some? <==> raw.Some? && |raw.value| == |batch|)
              && (vectors.Some? ==>
                    && |vectors.value| == |batch|
                    && forall j | 0 <= j < |batch| ::
                         && |vectors.value[j]| == dimensions
                         && forall i | 0 <= i < dimensions ::
                              vectors.value[j][i] == if i < |raw.value[j]| then raw.value[j][i] else 0.0)
    {
      var raw := oracle(|sent|, batch);
      sent := sent + [batch];
      if raw == None || |raw.value| != |batch| {
        return None;
      }
      var fitted: seq<Vector> := [];
      for i := 0 to |batch|
        invariant |fitted| == i && forall j | 0 <= j < i :: fitted[j] == Fit(raw.value[j], dimensions)
      {
        fitted := fitted + [Fit(raw.value[i], dimensions)];
      }
      assert fitted == RemoteAnswer(oracle, dimensions, |old(sent)|, batch).value;
      vectors := Some(fitted);
    }

    method EmbedQuery(text: string) returns (v: Vector)
      requires Valid()
      modifies this`sent, cache
      ensures Valid()
      // A hit costs no call; a miss is encoded alone, or by the fallback, and then cached.
      ensures Lookup(old(Cached()), text).Some? ==>
                && v == Lookup(old(Cached()), text).value && sent == old(sent)
                && Cached() == AfterGet(old(Cached()), text)
      ensures Lookup(old(Cached()), text) == None ==>
                && sent == old(sent) + (if configured then [[queryPrefix + text]] else [])
                && (var raw := oracle(|old(sent)|, [queryPrefix + text]);
                    if configured && raw.Some? && |raw.value| == 1
                    then |v| == dimensions && forall i | 0 <= i < dimensions :: v[i] == if i < |raw.value[0]| then raw.value[0][i] else 0.0
                    else v == fallback(text))
                && Cached() == if cache == null then [] else AfterSet(old(Cached()), cache.maxItems, text, v)
      ensures cache != null ==> Cached() == AfterQuery(old(Cached()), cache.maxItems, text, v)
      ensures forall encode :: configured && RemotePointwise(oracle, dimensions, encode) ==>
                && (Lookup(old(Cached()), text) == None ==> v == encode(queryPrefix + text))
                && (cache != null ==>
                      Cached() == AfterAsk(old(Cached()), cache.maxItems, Setup(encode, queryPrefix, passagePrefix), Query(text)))
                && (Faithful(old(Cached()), WithPrefix(encode, queryPrefix)) ==>
                      && v == encode(queryPrefix + text)
                      && Faithful(Cached(), WithPrefix(encode, queryPrefix)))
    {
      hide Keys, AfterSet, AfterGet, Lookup, RemoteAnswer, LruEmbeddingCache.Valid;
      CacheDistinct();
      if cache != null {
        var cached := cache.Get(text);
        if cached.Some? {
          QueryLeaves(old(Cached()), cache.maxItems, text, cached.value);
          return cached.value;
        }
        GetMiss(old(Cached()), text);
      } else {
        EmptyStoreStaysEmpty(text);
      }
      if !configured {
        v := fallback(text);
      } else {
        var vectors := EmbedRemoteBatch([queryPrefix + text]);
        if vectors.Some? && |vectors.value| > 0 {
          v := vectors.value[0];
        } else {
          v := fallback(text);
        }
      }
      if cache != null {
        cache.Set(text, v);
        QueryLeaves(old(Cached()), cache.maxItems, text, v);
      }
    }

    /** What the service is asked with for passages. */
    function Service(): Remote {
      Remote(oracle, dimensions, fallback, passagePrefix)
    }

    /** One vector per text, equal texts getting equal vectors, whatever the encoder does; and the
        plain map through the cache when the encoder works pointwise. */
    method EmbedTexts(texts: seq<string>) returns (result: seq<Vector>)
      requires Valid()
      modifies this`sent, cache
      ensures Valid() && |result| == |texts|
      ensures forall i, j | 0 <= i < |texts| && 0 <= j < |texts| && texts[i] == texts[j] :: result[i] == result[j]
      ensures !configured ==> result == Mapped(fallback, texts) && sent == old(sent) && Cached() == old(Cached())
      // Every distinct miss is sent once, in batches; a failing batch, and no other, falls back.
      ensures configured ==>
                var (t, _, misses) := Scan(old(Cached()), texts);
                var batches := Batches(misses, batchSize);
                var vs := RemoteVectors(Service(), |old(sent)|, batches);
                && sent == old(sent) + PrefixedAll(passagePrefix, batches)
                && |vs| == |misses|
                && result == Answers(old(Cached()), texts, MadeVector(ZipOnto(map[], misses, vs)))
                && Cached() == Stored(cache, t, misses, vs)
      ensures forall encode :: configured && RemotePointwise(oracle, dimensions, encode) ==>
                && result == Answers(old(Cached()), texts, WithPrefix(encode, passagePrefix))
                && (cache != null ==>
                      Cached() == AfterAsk(old(Cached()), cache.maxItems, Setup(encode, queryPrefix, passagePrefix), Passages(texts)))
                && sent == old(sent) + PrefixedAll(passagePrefix, Batches(Scan(old(Cached()), texts).2, batchSize))
                && (Faithful(old(Cached()), WithPrefix(encode, passagePrefix)) ==>
                      && result == Mapped(WithPrefix(encode, passagePrefix), texts)
                      && (forall i | 0 <= i < |texts| :: result[i] == encode(passagePrefix + texts[i]))
                      && Faithful(Cached(), WithPrefix(encode, passagePrefix)))
    {
      hide Answers, Lookup, Scan, Batches, RemoteAnswer, Located, Filled, SetAll, ZipOnto, PrefixedAll, LruEmbeddingCache.Valid;
      if !configured {
        return Mapped(fallback, texts);
      }
      ghost var s := Cached();
      CacheDistinct();
      ScanFinds(s, texts);
      var out, misses, positions := LookUpAll(cache, texts);
      ghost var found, batches := out, Batches(misses, batchSize);
      ghost var vs;
      out, vs := EncodeMisses(texts, found, misses, positions, out);
      ZipOntoKeys(map[], misses, vs);
      FilledAnswers(s, texts, found, misses, ZipOnto(map[], misses, vs), out);
      BatchesPartition(misses, batchSize);
      forall encode | RemotePointwise(oracle, dimensions, encode)
        ensures vs == Mapped(WithPrefix(encode, passagePrefix), misses)
        ensures Answers(s, texts, MadeVector(ZipOnto(map[], misses, vs))) == Answers(s, texts, WithPrefix(encode, passagePrefix))
        ensures Faithful(s, WithPrefix(encode, passagePrefix)) ==>
                  && Answers(s, texts, WithPrefix(encode, passagePrefix)) == Mapped(WithPrefix(encode, passagePrefix), texts)
                  && Faithful(Cached(), WithPrefix(encode, passagePrefix))
      {
        RemoteVectorsAreMap(Service(), |old(sent)|, batches, encode);
        MapThroughCache(s, if cache == null then 0 else cache.maxItems, texts, WithPrefix(encode, passagePrefix));
      }
      AnswersShape(s, texts, MadeVector(ZipOnto(map[], misses, vs)));
      var final := Present(out);
      if |final| != |texts| {
        return Mapped(fallback, texts);
      }
      return final;
    }

    lemma CacheDistinct()
      requires Valid()
      ensures Distinct(Keys(Cached()))
    {}

    /** The batches of misses, each encoded remotely or, failing that, by the fallback. */
    method EncodeMisses(texts: seq<string>, ghost found: seq<Option<Vector>>, misses: seq<string>,
                        positions: map<string, seq<nat>>, out: seq<Option<Vector>>)
      returns (out': seq<Option<Vector>>, ghost vs: seq<Vector>)
      requires Valid() && Located(texts, found, positions) && out == found
      requires positions.Keys == set x | x in misses
      modifies this`sent, cache
      ensures Valid() && |vs| == |misses|
      ensures vs == RemoteVectors(Service(), |old(sent)|, Batches(misses, batchSize))
      ensures sent == old(sent) + PrefixedAll(passagePrefix, Batches(misses, batchSize))
      ensures Filled(texts, found, ZipOnto(map[], misses, vs), out')
      ensures Cached() == Stored(cache, old(Cached()), misses, vs)
    {
      hide RemoteAnswer, Located, Filled, Batches, Mapped, Prefixed, PrefixedAll, Flatten, SetAll, ZipOnto, RemoteVectors, LruEmbeddingCache.Valid;
      out', vs := out, [];
      var batches := Batches(misses, batchSize);
      BatchesPartition(misses, batchSize);
      NoBatches(passagePrefix, batches);
      NothingMade(texts, found, positions);
      BulkStart([], 0, map[]);
      if cache != null { BulkStart(cache.store, cache.maxItems, map[]); }
      NoRemoteVectors(Service(), |sent|, batches);
      for b := 0 to |batches|
        invariant Valid() && |sent| == |old(sent)| + b
        invariant vs == RemoteVectors(Service(), |old(sent)|, batches[..b]) && |vs| == |Flatten(batches[..b])|
        invariant sent == old(sent) + PrefixedAll(passagePrefix, batches[..b])
        invariant Filled(texts, found, ZipOnto(map[], Flatten(batches[..b]), vs), out')
        invariant Cached() == Stored(cache, old(Cached()), Flatten(batches[..b]), vs)
      {
        var batch := batches[b];
        BatchIsListed(misses, batches, b);
        ghost var n := |sent|;
        var vectors := EmbedRemoteBatch(Prefixed(passagePrefix, batch));
        if vectors == None {
          vectors := Some(Mapped(fallback, batch));
        }
        SameLength(fallback, passagePrefix, batch);
        assert vectors.value == BatchVectors(Service(), n, batch);
        RemoteSnoc(Service(), |old(sent)|, batches, b);
        PrefixedAllSnoc(passagePrefix, batches, b);
        BulkConcat([], 0, map[], Flatten(batches[..b]), vs, batch, vectors.value);
        if cache != null {
          BulkConcat(old(cache.store), cache.maxItems, map[], Flatten(batches[..b]), vs, batch, vectors.value);
        }
        out' := ScatterBatch(cache, texts, found, ZipOnto(map[], Flatten(batches[..b]), vs), positions, out', batch, vectors.value);
        vs := vs + vectors.value;
      }
      assert batches[..|batches|] == batches;
    }
  }

  lemma NoRemoteVectors(r: Remote, n: nat, batches: seq<seq<string>>)
    ensures RemoteVectors(r, n, batches[..0]) == []
  {}

  /** A batch's texts are listed, and it comes after the batches before it. */
  lemma BatchIsListed(items: seq<string>, batches: seq<seq<string>>, b: nat)
    requires Flatten(batches) == items && b < |batches|
    ensures Flatten(batches[..b + 1]) == Flatten(batches[..b]) + batches[b]
    ensures forall x | x in batches[b] :: x in items
  {
    FlattenSnoc(batches, b);
    FlattenSplit(batches, b + 1);
  }

  lemma SameLength(f: string -> Vector, prefix: string, batch: seq<string>)
    ensures |Mapped(f, batch)| == |Prefixed(prefix, batch)| == |batch|
  {}

  lemma NoBatches(prefix: string, batches: seq<seq<string>>)
    ensures PrefixedAll(prefix, batches[..0]) == [] && Flatten(batches[..0]) == []
    ensures forall f: string -> Vector :: Mapped(f, []) == []
  {}

  lemma NothingMade(texts: seq<string>, found: seq<Option<Vector>>, positions: map<string, seq<nat>>)
    requires Located(texts, found, positions)
    ensures Filled(texts, found, map[], found)
  {}

  lemma AnswersShape(s: Cache, texts: seq<string>, f: string -> Vector)
    ensures |Answers(s, texts, f)| == |texts|
    ensures forall i, j | 0 <= i < |texts| && 0 <= j < |texts| && texts[i] == texts[j] ::
              Answers(s, texts, f)[i] == Answers(s, texts, f)[j]
  {}

  /** What a query with the vector `v` leaves, in the terms of every encoder. */
  lemma QueryLeaves(s: Cache, maxItems: nat, text: string, v: Vector)
    requires Distinct(Keys(s))
    ensures forall p: Setup | Lookup(s, text).Some? || v == p.encode(p.query + text) ::
              AfterAsk(s, maxItems, p, Query(text)) == AfterQuery(s, maxItems, text, v)
    ensures forall encode, prefix | Faithful(s, WithPrefix(encode, prefix)) ::
              && (Lookup(s, text).Some? ==> Lookup(s, text).value == encode(prefix + text))
              && (Lookup(s, text).Some? || v == encode(prefix + text) ==>
                    Faithful(AfterQuery(s, maxItems, text, v), WithPrefix(encode, prefix)))
  {
    forall encode, prefix | Faithful(s, WithPrefix(encode, prefix))
      ensures Lookup(s, text).Some? ==> Lookup(s, text).value == encode(prefix + text)
      ensures Lookup(s, text).Some? || v == encode(prefix + text) ==>
                Faithful(AfterQuery(s, maxItems, text, v), WithPrefix(encode, prefix))
    {
      QueryKeepsFaithful(s, maxItems, text, v, WithPrefix(encode, prefix));
    }
  }

  lemma GetMiss(s: Cache, text: string)
    requires Lookup(s, text) == None
    ensures AfterGet(s, text) == s
  {}

  /** The local model: batches are encoded one after the other; a failure or a miscount anywhere
      sends the whole list to the fallback. `loaded` says whether the model could be loaded. */
  class LocalSentenceTransformerEmbedder {
    const loaded: bool
    const oracle: Oracle
    const batchSize: int
    const cache: LruEmbeddingCache?
    const fallback: string -> Vector
    const queryPrefix: string
    const passagePrefix: string
    /** The batches given to the model so far. */
    var sent: seq<seq<string>>

    ghost predicate Valid()
      reads this, cache
    {
      cache != null ==> cache.Valid()
    }

    function Cached(): Cache
      reads this, cache
    {
      if cache == null then [] else cache.store
    }

    constructor (loaded: bool, oracle: Oracle, batchSize: int, cacheEnabled: bool, maxItems: int,
                 fallback: string -> Vector, queryPrefix: string, passagePrefix: string)
      ensures Valid() && (cache != null ==> fresh(cache)) && sent == [] && Cached() == []
    {
      this.loaded, this.oracle := loaded, oracle;
      this.batchSize := if batchSize < 1 then 1 else batchSize;
      this.fallback, this.queryPrefix, this.passagePrefix := fallback, queryPrefix, passagePrefix;
      if cacheEnabled {
        cache := new LruEmbeddingCache(maxItems);
      } else {
        cache := null;
      }
      sent := [];
    }

    method Encode(batch: seq<string>) returns (vectors: Option<seq<Vector>>)
      modifies this`sent
      ensures sent == old(sent) + [batch] && vectors == oracle(|old(sent)|, batch)
    {
      vectors := oracle(|sent|, batch);
      sent := sent + [batch];
    }

    method EmbedQuery(text: string) returns (v: Vector)
      requires Valid()
      modifies this`sent, cache
      ensures Valid()
      // A hit costs no call; a miss is encoded alone, or by the fallback, and then cached.
      ensures Lookup(old(Cached()), text).Some? ==>
                && v == Lookup(old(Cached()), text).value && sent == old(sent)
                && Cached() == AfterGet(old(Cached()), text)
      ensures Lookup(old(Cached()), text) == None ==>
                && sent == old(sent) + (if loaded then [[queryPrefix + text]] else [])
                && (var raw := oracle(|old(sent)|, [queryPrefix + text]);
                    v == if loaded && raw.Some? && |raw.value| > 0 then raw.value[0] else fallback(text))
                && Cached() == if cache == null then [] else AfterSet(old(Cached()), cache.maxItems, text, v)
      ensures cache != null ==> Cached() == AfterQuery(old(Cached()), cache.maxItems, text, v)
      ensures forall encode :: loaded && Pointwise(oracle, encode) ==>
                && (Lookup(old(Cached()), text) == None ==> v == encode(queryPrefix + text))
                && (cache != null ==>
                      Cached() == AfterAsk(old(Cached()), cache.maxItems, Setup(encode, queryPrefix, passagePrefix), Query(text)))
                && (Faithful(old(Cached()), WithPrefix(encode, queryPrefix)) ==>
                      && v == encode(queryPrefix + text)
                      && Faithful(Cached(), WithPrefix(encode, queryPrefix)))
    {
      hide Keys, AfterSet, AfterGet, Lookup, LruEmbeddingCache.Valid;
      CacheDistinct();
      if cache != null {
        var cached := cache.Get(text);
        if cached.Some? {
          QueryLeaves(old(Cached()), cache.maxItems, text, cached.value);
          return cached.value;
        }
        GetMiss(old(Cached()), text);
      } else {
        EmptyStoreStaysEmpty(text);
      }
      if !loaded {
        v := fallback(text);
      } else {
        var vectors := Encode([queryPrefix + text]);
        if vectors.Some? && |vectors.value| > 0 {
          v := vectors.value[0];
        } else {
          v := fallback(text);
        }
      }
      if cache != null {
        cache.Set(text, v);
        QueryLeaves(old(Cached()), cache.maxItems, text, v);
      }
    }

    /** One vector per text, equal texts getting equal vectors, whatever the encoder does; and the
        plain map through the cache, each distinct miss encoded once, when it works pointwise. */
    method EmbedTexts(texts: seq<string>) returns (result: seq<Vector>)
      requires Valid()
      modifies this`sent, cache
      ensures Valid() && |result| == |texts|
      ensures forall i, j | 0 <= i < |texts| && 0 <= j < |texts| && texts[i] == texts[j] :: result[i] == result[j]
      ensures !loaded ==> result == Mapped(fallback, texts) && sent == old(sent) && Cached() == old(Cached())
      // A failure or a miscount anywhere sends the whole list to the fallback and caches nothing.
      ensures loaded ==>
                var (t, _, misses) := Scan(old(Cached()), texts);
                var vs := LocalVectors(oracle, passagePrefix, |old(sent)|, Batches(misses, batchSize));
                if vs == None || |vs.value| != |misses| then result == Mapped(fallback, texts) && Cached() == t
                else
                  && result == Answers(old(Cached()), texts, MadeVector(ZipOnto(map[], misses, vs.value)))
                  && Cached() == Stored(cache, t, misses, vs.value)
      ensures forall encode :: loaded && Pointwise(oracle, encode) ==>
                && result == Answers(old(Cached()), texts, WithPrefix(encode, passagePrefix))
                && (cache != null ==>
                      Cached() == AfterAsk(old(Cached()), cache.maxItems, Setup(encode, queryPrefix, passagePrefix), Passages(texts)))
                && sent == old(sent) + PrefixedAll(passagePrefix, Batches(Scan(old(Cached()), texts).2, batchSize))
                && (Faithful(old(Cached()), WithPrefix(encode, passagePrefix)) ==>
                      && result == Mapped(WithPrefix(encode, passagePrefix), texts)
                      && (forall i | 0 <= i < |texts| :: result[i] == encode(passagePrefix + texts[i]))
                      && Faithful(Cached(), WithPrefix(encode, passagePrefix)))
    {
      hide Answers, Lookup, Scan, Batches, Located, Filled, SetAll, ZipOnto, PrefixedAll, LocalVectors, LruEmbeddingCache.Valid;
      if !loaded {
        return Mapped(fallback, texts);
      }
      ghost var s := Cached();
      CacheDistinct();
      ScanFinds(s, texts);
      var out, misses, positions := LookUpAll(cache, texts);
      ghost var found, batches := out, Batches(misses, batchSize);
      NothingMade(texts, found, positions);
      BatchesPartition(misses, batchSize);
      SameLength(fallback, passagePrefix, misses);
      forall encode | Pointwise(oracle, encode)
        ensures LocalVectors(oracle, passagePrefix, |old(sent)|, batches) == Some(Mapped(WithPrefix(encode, passagePrefix), misses))
        ensures |Mapped(WithPrefix(encode, passagePrefix), misses)| == |misses|
      {
        LocalVectorsAreMap(oracle, passagePrefix, |old(sent)|, batches, encode);
      }
      var encoded := EncodeAll(misses);
      if encoded == None || |encoded.value| != |misses| {
        return Mapped(fallback, texts);
      }
      var vs := encoded.value;
      out := ScatterBatch(cache, texts, found, map[], positions, out, misses, vs);
      ZipOntoKeys(map[], misses, vs);
      FilledAnswers(s, texts, found, misses, ZipOnto(map[], misses, vs), out);
      forall encode | Pointwise(oracle, encode)
        ensures Answers(s, texts, MadeVector(ZipOnto(map[], misses, vs))) == Answers(s, texts, WithPrefix(encode, passagePrefix))
        ensures Faithful(s, WithPrefix(encode, passagePrefix)) ==>
                  && Answers(s, texts, WithPrefix(encode, passagePrefix)) == Mapped(WithPrefix(encode, passagePrefix), texts)
                  && Faithful(Cached(), WithPrefix(encode, passagePrefix))
      {
        MapThroughCache(s, if cache == null then 0 else cache.maxItems, texts, WithPrefix(encode, passagePrefix));
      }
      AnswersShape(s, texts, MadeVector(ZipOnto(map[], misses, vs)));
      var final := Present(out);
      if |final| != |texts| {
        return Mapped(fallback, texts);
      }
      return final;
    }

    lemma CacheDistinct()
      requires Valid()
      ensures Distinct(Keys(Cached()))
    {}

    /** All batches of misses in turn, or nothing as soon as one of them fails. */
    method EncodeAll(misses: seq<string>) returns (encoded: Option<seq<Vector>>)
      modifies this`sent
      ensures encoded == LocalVectors(oracle, passagePrefix, |old(sent)|, Batches(misses, batchSize))
      ensures old(sent) <= sent <= old(sent) + PrefixedAll(passagePrefix, Batches(misses, batchSize))
      ensures encoded.Some? ==> sent == old(sent) + PrefixedAll(passagePrefix, Batches(misses, batchSize))
    {
      hide Batches, Prefixed, PrefixedAll, LocalVectors;
      var batches := Batches(misses, batchSize);
      var vectors: seq<Vector> := [];
      NoBatches(passagePrefix, batches);
      NoLocalVectors(oracle, passagePrefix, |sent|, batches);
      for b := 0 to |batches|
        invariant |sent| == |old(sent)| + b
        invariant sent == old(sent) + PrefixedAll(passagePrefix, batches[..b])
        invariant LocalVectors(oracle, passagePrefix, |old(sent)|, batches[..b]) == Some(vectors)
      {
        var part := Encode(Prefixed(passagePrefix, batches[b]));
        LocalSnoc(oracle, passagePrefix, |old(sent)|, batches, b);
        PrefixedAllSnoc(passagePrefix, batches, b);
        if part == None {
          LocalFailsForGood(oracle, passagePrefix, |old(sent)|, batches, b + 1);
          PrefixedAllPrefix(passagePrefix, batches, b + 1);
          return None;
        }
        vectors := vectors + part.value;
      }
      assert batches[..|batches|] == batches;
      return Some(vectors);
    }
  }

  lemma NoLocalVectors(oracle: Oracle, prefix: string, n: nat, batches: seq<seq<string>>)
    ensures LocalVectors(oracle, prefix, n, batches[..0]) == Some([])
  {}

  lemma PrefixedAllPrefix(prefix: string, batches: seq<seq<string>>, b: nat)
    requires b <= |batches|
    ensures PrefixedAll(prefix, batches[..b]) <= PrefixedAll(prefix, batches)
  {}
}
