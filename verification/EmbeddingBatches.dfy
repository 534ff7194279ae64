/**
 What a list of batches yields, call by call: the vectors of the remote service with its
 fallback, those of the local model, and the cache once they are stored in order.
 */
module EmbeddingBatches {
  import opened Uris
  import opened LruCache
  import opened Embeddings

  // ---------------------------------------------------------------- storing and looking up in bulk

  /** The cache after storing the vectors of `keys` one by one, in order. */
  function SetAll(s: Cache, maxItems: nat, keys: seq<string>, vs: seq<Vector>): Cache
    requires |keys| == |vs|
  {
    if keys == [] then s
    else
      var i := |keys| - 1;
      AfterSet(SetAll(s, maxItems, keys[..i], vs[..i]), maxItems, keys[i], vs[i])
  }

  /** `made` with the vectors of `keys` added. */
  function ZipOnto(made: map<string, Vector>, keys: seq<string>, vs: seq<Vector>): map<string, Vector>
    requires |keys| == |vs|
  {
    if keys == [] then made
    else
      var i := |keys| - 1;
      ZipOnto(made, keys[..i], vs[..i])[keys[i] := vs[i]]
  }

  function MadeVector(made: map<string, Vector>): string -> Vector {
    x => if x in made then made[x] else []
  }

  lemma BulkStart(s: Cache, maxItems: nat, made: map<string, Vector>)
    ensures SetAll(s, maxItems, [], []) == s && ZipOnto(made, [], []) == made
  {}

  lemma BulkSnoc(s: Cache, maxItems: nat, made: map<string, Vector>, keys: seq<string>, vs: seq<Vector>, j: nat)
    requires |keys| == |vs| && j < |keys|
    ensures SetAll(s, maxItems, keys[..j + 1], vs[..j + 1])
         == AfterSet(SetAll(s, maxItems, keys[..j], vs[..j]), maxItems, keys[j], vs[j])
    ensures ZipOnto(made, keys[..j + 1], vs[..j + 1]) == ZipOnto(made, keys[..j], vs[..j])[keys[j] := vs[j]]
  {
    assert keys[..j + 1][..j] == keys[..j] && vs[..j + 1][..j] == vs[..j];
  }

  lemma BulkConcat(s: Cache, maxItems: nat, made: map<string, Vector>, a: seq<string>, x: seq<Vector>, b: seq<string>, y: seq<Vector>)
    requires |a| == |x| && |b| == |y|
    ensures SetAll(s, maxItems, a + b, x + y) == SetAll(SetAll(s, maxItems, a, x), maxItems, b, y)
    ensures ZipOnto(made, a + b, x + y) == ZipOnto(ZipOnto(made, a, x), b, y)
  {
    SetAllConcat(s, maxItems, a, x, b, y);
    ZipOntoConcat(made, a, x, b, y);
  }

  lemma {:induction false} SetAllConcat(s: Cache, maxItems: nat, a: seq<string>, x: seq<Vector>, b: seq<string>, y: seq<Vector>)
    requires |a| == |x| && |b| == |y|
    ensures SetAll(s, maxItems, a + b, x + y) == SetAll(SetAll(s, maxItems, a, x), maxItems, b, y)
  {
    hide AfterSet;
    if b == [] {
      assert a + b == a && x + y == x;
    } else {
      var i := |b| - 1;
      SetAllConcat(s, maxItems, a, x, b[..i], y[..i]);
      SnocOfConcat(a, b);
      SnocOfConcat(x, y);
    }
  }

  lemma {:induction false} ZipOntoConcat(made: map<string, Vector>, a: seq<string>, x: seq<Vector>, b: seq<string>, y: seq<Vector>)
    requires |a| == |x| && |b| == |y|
    ensures ZipOnto(made, a + b, x + y) == ZipOnto(ZipOnto(made, a, x), b, y)
  {
    if b == [] {
      assert a + b == a && x + y == x;
    } else {
      var i := |b| - 1;
      ZipOntoConcat(made, a, x, b[..i], y[..i]);
      SnocOfConcat(a, b);
      SnocOfConcat(x, y);
    }
  }

  lemma SnocOfConcat<T>(a: seq<T>, b: seq<T>)
    requires b != []
    ensures (a + b)[..|a + b| - 1] == a + b[..|b| - 1] && (a + b)[|a + b| - 1] == b[|b| - 1]
  {}

  lemma {:induction false} ZipOntoKeys(made: map<string, Vector>, keys: seq<string>, vs: seq<Vector>)
    requires |keys| == |vs|
    ensures ZipOnto(made, keys, vs).Keys == made.Keys + set x | x in keys
  {
    if keys != [] {
      var i := |keys| - 1;
      ZipOntoKeys(made, keys[..i], vs[..i]);
      assert keys == keys[..i] + [keys[i]];
    }
  }

  /** Any vectors for distinct keys are those of the map made of them. */
  lemma {:induction false} ZipGives(keys: seq<string>, vs: seq<Vector>)
    requires |keys| == |vs| && Distinct(keys)
    ensures Mapped(MadeVector(ZipOnto(map[], keys, vs)), keys) == vs
  {
    ZipOntoKeys(map[], keys, vs);
    if keys != [] {
      var i := |keys| - 1;
      ZipGives(keys[..i], vs[..i]);
      var front, all := ZipOnto(map[], keys[..i], vs[..i]), ZipOnto(map[], keys, vs);
      forall j | 0 <= j < i ensures MadeVector(all)(keys[j]) == vs[j] {
        assert Mapped(MadeVector(front), keys[..i])[j] == vs[..i][j];
        assert keys[..i][j] == keys[j];
      }
    }
  }

  /** If each vector is `f` of its key, so is each vector of the map. */
  lemma {:induction false} ZipOfMap(keys: seq<string>, f: string -> Vector)
    ensures |Mapped(f, keys)| == |keys|
    ensures forall x | x in keys ::
              x in ZipOnto(map[], keys, Mapped(f, keys)) && ZipOnto(map[], keys, Mapped(f, keys))[x] == f(x)
  {
    if keys != [] {
      var i := |keys| - 1;
      ZipOfMap(keys[..i], f);
      assert Mapped(f, keys)[..i] == Mapped(f, keys[..i]);
      assert keys == keys[..i] + [keys[i]];
    }
  }

  /** A cache that was right stays right when right vectors are stored. */
  lemma {:induction false} SetAllFaithful(s: Cache, maxItems: nat, keys: seq<string>, f: string -> Vector)
    requires Distinct(Keys(s)) && Faithful(s, f)
    ensures |Mapped(f, keys)| == |keys|
    ensures Distinct(Keys(SetAll(s, maxItems, keys, Mapped(f, keys)))) && Faithful(SetAll(s, maxItems, keys, Mapped(f, keys)), f)
  {
    if keys != [] {
      hide Keys, AfterSet;
      var i := |keys| - 1;
      SetAllFaithful(s, maxItems, keys[..i], f);
      assert Mapped(f, keys)[..i] == Mapped(f, keys[..i]);
      AfterSetKeeps(SetAll(s, maxItems, keys[..i], Mapped(f, keys[..i])), maxItems, keys[i], f(keys[i]));
    }
  }

  // ---------------------------------------------------------------- the remote service

  /** A vector cut or padded with zeros to the configured size. */
  function Fit(v: Vector, dimensions: nat): Vector {
    if |v| < dimensions then v + seq(dimensions - |v|, i => 0.0) else v[..dimensions]
  }

  /** What a remote batch call yields: nothing if it fails or miscounts. */
  function RemoteAnswer(oracle: Oracle, dimensions: nat, n: nat, batch: seq<string>): Option<seq<Vector>> {
    var raw := oracle(n, batch);
    if raw == None || |raw.value| != |batch| then None
    else Some(seq(|batch|, i requires 0 <= i < |batch| => Fit(raw.value[i], dimensions)))
  }

  /** The remote encoder never fails, and encodes each text on its own. */
  ghost predicate RemotePointwise(oracle: Oracle, dimensions: nat, encode: string -> Vector) {
    forall n: nat, batch :: RemoteAnswer(oracle, dimensions, n, batch) == Some(Mapped(encode, batch))
  }

  /** The remote service with the settings that shape its answers. */
  datatype Remote = Remote(oracle: Oracle, dimensions: nat, fallback: string -> Vector, prefix: string)

  /** The vectors of one batch: the service's, or the fallback's for this batch alone. */
  function BatchVectors(r: Remote, n: nat, batch: seq<string>): seq<Vector> {
    var answer := RemoteAnswer(r.oracle, r.dimensions, n, Prefixed(r.prefix, batch));
    if answer.Some? then answer.value else Mapped(r.fallback, batch)
  }

  /** The vectors of all batches, the first of which is call number `n`. */
  function RemoteVectors(r: Remote, n: nat, batches: seq<seq<string>>): seq<Vector> {
    if batches == [] then []
    else
      var b := |batches| - 1;
      RemoteVectors(r, n, batches[..b]) + BatchVectors(r, n + b, batches[b])
  }

  lemma RemoteSnoc(r: Remote, n: nat, batches: seq<seq<string>>, b: nat)
    requires b < |batches|
    ensures RemoteVectors(r, n, batches[..0]) == []
    ensures RemoteVectors(r, n, batches[..b + 1]) == RemoteVectors(r, n, batches[..b]) + BatchVectors(r, n + b, batches[b])
    ensures |BatchVectors(r, n + b, batches[b])| == |batches[b]|
  {
    assert batches[..b + 1][..b] == batches[..b];
  }

  /** A pointwise service gives the map of its encoder, however the texts are batched. */
  lemma {:induction false} RemoteVectorsAreMap(r: Remote, n: nat, batches: seq<seq<string>>, encode: string -> Vector)
    requires RemotePointwise(r.oracle, r.dimensions, encode)
    ensures RemoteVectors(r, n, batches) == Mapped(WithPrefix(encode, r.prefix), Flatten(batches))
  {
    hide RemoteAnswer, Mapped, Prefixed;
    var f := WithPrefix(encode, r.prefix);
    if batches == [] {
      EmptyMap(f);
    } else {
      var b := |batches| - 1;
      RemoteVectorsAreMap(r, n, batches[..b], encode);
      MappedPrefixed(encode, r.prefix, batches[b]);
      MappedConcat(f, Flatten(batches[..b]), batches[b]);
    }
  }

  lemma EmptyMap(f: string -> Vector)
    ensures Mapped(f, []) == []
  {}

  // ---------------------------------------------------------------- the local model

  /** The vectors of all batches, or nothing if the model fails on any of them. */
  function LocalVectors(oracle: Oracle, prefix: string, n: nat, batches: seq<seq<string>>): Option<seq<Vector>> {
    if batches == [] then Some([])
    else
      var b := |batches| - 1;
      var front := LocalVectors(oracle, prefix, n, batches[..b]);
      if front == None then None
      else
        var part := oracle(n + b, Prefixed(prefix, batches[b]));
        if part == None then None else Some(front.value + part.value)
  }

  lemma LocalSnoc(oracle: Oracle, prefix: string, n: nat, batches: seq<seq<string>>, b: nat)
    requires b < |batches|
    ensures LocalVectors(oracle, prefix, n, batches[..0]) == Some([])
    ensures var front, part := LocalVectors(oracle, prefix, n, batches[..b]), oracle(n + b, Prefixed(prefix, batches[b]));
            LocalVectors(oracle, prefix, n, batches[..b + 1]) ==
              if front == None || part == None then None else Some(front.value + part.value)
  {
    assert batches[..b + 1][..b] == batches[..b];
  }

  /** A failure is final: no later batch changes the outcome. */
  lemma {:induction false} LocalFailsForGood(oracle: Oracle, prefix: string, n: nat, batches: seq<seq<string>>, b: nat)
    requires b <= |batches| && LocalVectors(oracle, prefix, n, batches[..b]) == None
    ensures LocalVectors(oracle, prefix, n, batches) == None
    decreases |batches|
  {
    if b < |batches| {
      assert batches[..|batches| - 1][..b] == batches[..b];
      LocalFailsForGood(oracle, prefix, n, batches[..|batches| - 1], b);
    } else {
      assert batches[..b] == batches;
    }
  }

  lemma {:induction false} LocalVectorsAreMap(oracle: Oracle, prefix: string, n: nat, batches: seq<seq<string>>, encode: string -> Vector)
    requires Pointwise(oracle, encode)
    ensures LocalVectors(oracle, prefix, n, batches) == Some(Mapped(WithPrefix(encode, prefix), Flatten(batches)))
  {
    hide Mapped, Prefixed;
    var f := WithPrefix(encode, prefix);
    if batches == [] {
      EmptyMap(f);
    } else {
      var b := |batches| - 1;
      LocalVectorsAreMap(oracle, prefix, n, batches[..b], encode);
      MappedPrefixed(encode, prefix, batches[b]);
      MappedConcat(f, Flatten(batches[..b]), batches[b]);
    }
  }

  // ---------------------------------------------------------------- vector by vector

  /** Where the texts of a batch stand in the whole list. */
  lemma {:induction false} BatchOffset(batches: seq<seq<string>>, b: nat, j: nat)
    requires b < |batches| && j < |batches[b]|
    ensures |Flatten(batches[..b])| + j < |Flatten(batches)|
    ensures Flatten(batches)[|Flatten(batches[..b])| + j] == batches[b][j]
  {
    FlattenSplit(batches, b + 1);
    FlattenSnoc(batches, b);
  }

  lemma {:induction false} RemoteVectorsAt(r: Remote, n: nat, batches: seq<seq<string>>, b: nat, j: nat)
    requires b < |batches| && j < |batches[b]|
    ensures |BatchVectors(r, n + b, batches[b])| == |batches[b]|
    ensures |Flatten(batches[..b])| + j < |RemoteVectors(r, n, batches)|
    ensures RemoteVectors(r, n, batches)[|Flatten(batches[..b])| + j] == BatchVectors(r, n + b, batches[b])[j]
    decreases |batches|
  {
    hide BatchVectors, RemoteVectors, Flatten;
    var last := |batches| - 1;
    RemoteVectorsLength(r, n, batches[..last]);
    RemoteSnoc(r, n, batches, b);
    RemoteSnoc(r, n, batches, last);
    assert batches[..last + 1] == batches;
    if b < last {
      assert batches[..last][..b] == batches[..b] && batches[..last][b] == batches[b];
      RemoteVectorsAt(r, n, batches[..last], b, j);
    }
  }

  /** Text `j` of batch `b` gets the service's vector, cut or padded with zeros to the configured size,
      if the call of its batch answers with as many vectors as it was given texts, each after the
      prefix; else the fallback's vector of the bare text. */
  lemma RemoteVectorsExact(r: Remote, n: nat, batches: seq<seq<string>>, b: nat, j: nat)
    requires b < |batches| && j < |batches[b]|
    ensures var raw := r.oracle(n + b, seq(|batches[b]|, i requires 0 <= i < |batches[b]| => r.prefix + batches[b][i]));
            var p := |Flatten(batches[..b])| + j;
            && p < |RemoteVectors(r, n, batches)| == |Flatten(batches)| && Flatten(batches)[p] == batches[b][j]
            && var v := RemoteVectors(r, n, batches)[p];
               if raw.Some? && |raw.value| == |batches[b]|
               then |v| == r.dimensions
                    && forall i | 0 <= i < r.dimensions :: v[i] == if i < |raw.value[j]| then raw.value[j][i] else 0.0
               else v == r.fallback(batches[b][j])
  {
    hide BatchVectors, RemoteVectors, Flatten;
    BatchOffset(batches, b, j);
    RemoteVectorsLength(r, n, batches);
    RemoteVectorsAt(r, n, batches, b, j);
    BatchVectorsExact(r, n + b, batches[b], j);
  }

  lemma {:induction false} RemoteVectorsLength(r: Remote, n: nat, batches: seq<seq<string>>)
    ensures |RemoteVectors(r, n, batches)| == |Flatten(batches)|
  {
    if batches != [] {
      var b := |batches| - 1;
      RemoteVectorsLength(r, n, batches[..b]);
      RemoteSnoc(r, n, batches, b);
      assert batches[..b + 1] == batches;
    }
  }

  lemma BatchVectorsExact(r: Remote, n: nat, batch: seq<string>, j: nat)
    requires j < |batch|
    ensures var raw := r.oracle(n, seq(|batch|, i requires 0 <= i < |batch| => r.prefix + batch[i]));
            && |BatchVectors(r, n, batch)| == |batch|
            && var v := BatchVectors(r, n, batch)[j];
               if raw.Some? && |raw.value| == |batch|
               then |v| == r.dimensions
                    && forall i | 0 <= i < r.dimensions :: v[i] == if i < |raw.value[j]| then raw.value[j][i] else 0.0
               else v == r.fallback(batch[j])
  {
    assert Prefixed(r.prefix, batch) == seq(|batch|, i requires 0 <= i < |batch| => r.prefix + batch[i]);
  }

  lemma {:induction false} LocalFailsIff(oracle: Oracle, prefix: string, n: nat, batches: seq<seq<string>>)
    ensures LocalVectors(oracle, prefix, n, batches) == None <==>
            exists b :: 0 <= b < |batches| && oracle(n + b, Prefixed(prefix, batches[b])) == None
  {
    hide Prefixed;
    if batches != [] {
      var last := |batches| - 1;
      LocalFailsIff(oracle, prefix, n, batches[..last]);
      assert forall b | 0 <= b < last :: batches[..last][b] == batches[b];
    }
  }

  /** The local model yields nothing exactly when one of its calls fails; else it yields what the calls
      answered, one after the other. */
  lemma {:induction false} LocalVectorsExact(oracle: Oracle, prefix: string, n: nat, batches: seq<seq<string>>) returns (parts: seq<seq<Vector>>)
    ensures LocalVectors(oracle, prefix, n, batches) == None <==>
            exists b :: 0 <= b < |batches| && oracle(n + b, Prefixed(prefix, batches[b])) == None
    ensures LocalVectors(oracle, prefix, n, batches).Some? ==>
              && |parts| == |batches| && LocalVectors(oracle, prefix, n, batches).value == Flatten(parts)
              && forall b | 0 <= b < |batches| :: oracle(n + b, Prefixed(prefix, batches[b])) == Some(parts[b])
  {
    LocalFailsIff(oracle, prefix, n, batches);
    hide Prefixed, LocalVectors, Flatten;
    parts := [];
    if batches == [] {
      NoBatchVectors(oracle, prefix, n);
    } else {
      var last := |batches| - 1;
      LocalSnoc(oracle, prefix, n, batches, last);
      assert batches[..last + 1] == batches;
      if LocalVectors(oracle, prefix, n, batches).Some? {
        var front := LocalVectorsExact(oracle, prefix, n, batches[..last]);
        parts := front + [oracle(n + last, Prefixed(prefix, batches[last])).value];
        FlattenSnoc(parts, last);
        assert parts[..last] == front && parts[..last + 1] == parts;
        forall b | 0 <= b < |batches| ensures oracle(n + b, Prefixed(prefix, batches[b])) == Some(parts[b]) {
          if b < last { assert batches[..last][b] == batches[b]; }
        }
      }
    }
  }

  lemma NoBatchVectors(oracle: Oracle, prefix: string, n: nat)
    ensures LocalVectors(oracle, prefix, n, []) == Some([]) && Flatten<Vector>([]) == []
  {}
}
