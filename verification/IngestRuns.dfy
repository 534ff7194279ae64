/**
 Runs that end in agreement: from settled stores, if a key left in mid-ingestion is only taken up
 with a text of no fewer chunks, every key that is not in mid-ingestion agrees with its text, and
 one that is can be healed.
 */
module IngestRuns {
  import opened Uris
  import opened IngestState
  import opened IngestPlan
  import opened IngestRecovery
  import opened IngestSystem

  function Count(cfg: Config, k: Key, text: string): nat {
    |cfg.chunker(k.path, text)|
  }

  /** A key left unsettled is taken up with the same text, or with any other of no fewer chunks. */
  ghost predicate Allowed(cfg: Config, keys: iset<Key>, y: System, e: Event) {
    e.Begin? ==>
      && e.key in keys
      && (e.key in y.unsettled ==> Count(cfg, e.key, y.unsettled[e.key]) <= Count(cfg, e.key, e.text))
  }

  ghost predicate AllAllowed(cfg: Config, keys: iset<Key>, y: System, es: seq<Event>) {
    es != [] ==>
      && AllAllowed(cfg, keys, y, es[..|es| - 1])
      && Allowed(cfg, keys, Steps(cfg, y, es[..|es| - 1]), es[|es| - 1])
  }

  // ---------------------------------------------------------------- the invariant

  /** The stores agree with the recorded checksum of the key, or hold nothing for it. */
  ghost predicate Settled(cfg: Config, docs: map<DocId, DocRecord>, s: Stores, k: Key) {
    if k in s.checksums then Agrees(cfg, s, Identity(docs, k), k, s.checksums[k].text)
    else Vacant(s, Identity(docs, k))
  }

  ghost predicate KeySound(cfg: Config, docs: map<DocId, DocRecord>, y: System, k: Key) {
    if k in y.unsettled then
      && Recoverable(y.stores, Identity(docs, k), k.workspace, Count(cfg, k, y.unsettled[k]))
      && !Skips(y.stores, k, y.unsettled[k])
    else Settled(cfg, docs, y.stores, k)
  }

  ghost predicate JobSound(cfg: Config, docs: map<DocId, DocRecord>, y: System, j: Job) {
    && Recoverable(j.before, Identity(docs, j.key), j.key.workspace, Count(cfg, j.key, j.text))
    && (j.pos > 0 ==> j.key in y.unsettled && y.unsettled[j.key] == j.text)
    && !Skips(y.stores, j.key, j.text)
  }

  ghost predicate Sound(cfg: Config, docs: map<DocId, DocRecord>, keys: iset<Key>, y: System) {
    && (forall k | k in keys :: KeySound(cfg, docs, y, k))
    && (forall ws | ws in y.jobs :: JobSound(cfg, docs, y, y.jobs[ws]))
  }

  // ---------------------------------------------------------------- every step keeps the invariant

  lemma SoundIsRecoverable(cfg: Config, docs: map<DocId, DocRecord>, y: System, k: Key, n: nat)
    requires KeySound(cfg, docs, y, k)
    requires k in y.unsettled ==> Count(cfg, k, y.unsettled[k]) <= n
    ensures Recoverable(y.stores, Identity(docs, k), k.workspace, n)
  {
    hide CellOf, Identity, Target, Listed;
    if k !in y.unsettled {
      AgreesIsRecoverable(cfg, y.stores, Identity(docs, k), k, if k in y.stores.checksums then y.stores.checksums[k].text else "", n);
    }
  }

  lemma BeginKeepsSound(cfg: Config, docs: map<DocId, DocRecord>, keys: iset<Key>, y: System, e: Event)
    requires Sound(cfg, docs, keys, y) && e.Begin? && Allowed(cfg, keys, y, e)
    ensures Sound(cfg, docs, keys, Step(cfg, y, e))
  {
    hide Identity, Agrees, Vacant, Recoverable, Count;
    var z := Step(cfg, y, e);
    assert KeySound(cfg, docs, y, e.key);
    SoundIsRecoverable(cfg, docs, y, e.key, Count(cfg, e.key, e.text));
    forall k | k in keys ensures KeySound(cfg, docs, z, k) {
      assert KeySound(cfg, docs, y, k);
    }
    forall ws | ws in z.jobs ensures JobSound(cfg, docs, z, z.jobs[ws]) {
      if z.jobs[ws].pos > 0 || ws != e.key.workspace { assert JobSound(cfg, docs, y, y.jobs[ws]); }
    }
  }

  lemma StopKeepsSound(cfg: Config, docs: map<DocId, DocRecord>, keys: iset<Key>, y: System, e: Event)
    requires Sound(cfg, docs, keys, y) && e.Stop?
    ensures Sound(cfg, docs, keys, Step(cfg, y, e))
  {
    hide Identity, Agrees, Vacant, Recoverable, Count;
    var z := Step(cfg, y, e);
    forall k | k in keys ensures KeySound(cfg, docs, z, k) {
      assert KeySound(cfg, docs, y, k);
    }
    forall ws | ws in z.jobs ensures JobSound(cfg, docs, z, z.jobs[ws]) {
      assert JobSound(cfg, docs, y, y.jobs[ws]);
    }
  }

  lemma RecoverableBySameCells(s: Stores, t: Stores, d: DocId, ws: string, n: nat)
    requires SameCells(s, t, d) && Recoverable(s, d, ws, n)
    ensures Recoverable(t, d, ws, n)
  {
    hide CellOf, Listed;
  }

  /** The key of the advancing job: recoverable while it runs, settled once it has finished. */
  lemma AdvancingKey(cfg: Config, docs: map<DocId, DocRecord>, y: System, ws: string, j: Job)
    requires ValidConfig(cfg) && ws in y.jobs && y.jobs[ws] == j
    requires JobTracks(cfg, docs, y.stores, ws, j) && JobSound(cfg, docs, y, j)
    requires WellKeyed(y.stores) && SameLegacy(docs, y.stores.docs)
    ensures var z := Step(cfg, y, Advance(ws));
            && KeySound(cfg, docs, z, j.key)
            && (ws in z.jobs ==> JobSound(cfg, docs, z, z.jobs[ws]))
  {
    hide Apply, Run, Plan, CellOf, Agrees, Recoverable, OnTrack, SameCells, WellKeyed, SameLegacy;
    var z := Step(cfg, y, Advance(ws));
    var d := Identity(docs, j.key);
    var n, plan := Count(cfg, j.key, j.text), JobPlan(cfg, j);
    IdentityFollows(docs, j.before.docs, j.key);
    WriteOnFields(cfg, docs, y.stores, j);
    if j.pos + 1 == |plan| {
      FinishAgreesIff(cfg, docs, y.stores, ws, j);
    } else {
      CutKeepsRecoverable(cfg, j.before, j.key, j.text, j.acl, j.pos + 1);
      NextOnTrack(cfg, d, y.stores, j);
      RecoverableBySameCells(Run(j.before, plan[..j.pos + 1]), z.stores, d, ws, n);
    }
  }

  lemma NextOnTrack(cfg: Config, d: DocId, s: Stores, j: Job)
    requires j.pos < |JobPlan(cfg, j)| && OnTrack(cfg, d, s, j)
    ensures SameCells(Run(j.before, JobPlan(cfg, j)[..j.pos + 1]), Apply(s, JobPlan(cfg, j)[j.pos]), d)
  {
    hide Apply, Run, Plan, CellOf;
    WriteStaysOnTrack(cfg, d, s, j);
  }

  /** A key that another key's write leaves alone is as sound as before. */
  lemma KeyUndisturbed(cfg: Config, docs: map<DocId, DocRecord>, y: System, z: System, k: Key)
    requires KeySound(cfg, docs, y, k) && SameCells(y.stores, z.stores, Identity(docs, k))
    requires k in z.unsettled <==> k in y.unsettled
    requires k in y.unsettled ==> z.unsettled[k] == y.unsettled[k]
    requires k in z.stores.checksums <==> k in y.stores.checksums
    requires k in y.stores.checksums ==> z.stores.checksums[k] == y.stores.checksums[k]
    ensures KeySound(cfg, docs, z, k)
  {
    hide CellOf, Identity, Agrees, Vacant, Recoverable, SameCells;
    var d := Identity(docs, k);
    if k in y.unsettled {
      RecoverableBySameCells(y.stores, z.stores, d, k.workspace, Count(cfg, k, y.unsettled[k]));
    } else {
      SameCellsAgree(cfg, y.stores, z.stores, d, k, if k in y.stores.checksums then y.stores.checksums[k].text else "");
    }
  }

  lemma AdvanceKeepsSound(cfg: Config, docs: map<DocId, DocRecord>, keys: iset<Key>, y: System, e: Event)
    requires ValidConfig(cfg) && Apart(keys)
    requires Tracks(cfg, docs, keys, y) && Sound(cfg, docs, keys, y) && e.Advance?
    ensures Sound(cfg, docs, keys, Step(cfg, y, e))
  {
    hide JobPlan, CellOf, JobTracks, KeySound, Recoverable, Apply, WellKeyed, SameLegacy, SameCells, Identity;
    var z := Step(cfg, y, e);
    if z != y {
      var j := y.jobs[e.ws];
      JobFields(cfg, docs, y.stores, e.ws, j);
      assert JobSound(cfg, docs, y, j);
      AdvancingKey(cfg, docs, y, e.ws, j);
      WriteOnFields(cfg, docs, y.stores, j);
      forall k | k in keys ensures KeySound(cfg, docs, z, k) {
        if k != j.key {
          if Identity(docs, k) == Identity(docs, j.key) { IdentityInjective(docs, keys, k, j.key); }
          OthersSpared(cfg, docs, y.stores, e.ws, j, Identity(docs, k));
          KeyUndisturbed(cfg, docs, y, z, k);
        }
      }
      forall ws | ws in z.jobs ensures JobSound(cfg, docs, z, z.jobs[ws]) {
        if ws != e.ws {
          JobFields(cfg, docs, y.stores, ws, y.jobs[ws]);
          assert JobSound(cfg, docs, y, y.jobs[ws]);
        }
      }
    }
  }

  // ---------------------------------------------------------------- main results

  /** A start: no job, and every one of these keys settled. */
  ghost predicate Initial(cfg: Config, keys: iset<Key>, y: System) {
    && y.jobs == map[] && y.unsettled == map[] && WellKeyed(y.stores)
    && forall k | k in keys :: Settled(cfg, y.stores.docs, y.stores, k)
  }

  lemma {:induction false} AllowedUses(cfg: Config, keys: iset<Key>, y: System, es: seq<Event>)
    requires AllAllowed(cfg, keys, y, es)
    ensures Uses(keys, es)
  {
    if es != [] {
      assert es == es[..|es| - 1] + [es[|es| - 1]];
      AllowedUses(cfg, keys, y, es[..|es| - 1]);
    }
  }

  lemma {:induction false} StepsKeepSound(cfg: Config, keys: iset<Key>, y: System, es: seq<Event>)
    requires ValidConfig(cfg) && Apart(keys) && Initial(cfg, keys, y)
    requires AllAllowed(cfg, keys, y, es)
    ensures Sound(cfg, y.stores.docs, keys, Steps(cfg, y, es))
  {
    hide Step, Settled, Tracks, WellKeyed, Allowed;
    if es != [] {
      var front, e := es[..|es| - 1], es[|es| - 1];
      StepsKeepSound(cfg, keys, y, front);
      AllowedUses(cfg, keys, y, front);
      StepsKeepTracks(cfg, keys, y, front);
      var z := Steps(cfg, y, front);
      match e
      case Begin(_, _, _) => BeginKeepsSound(cfg, y.stores.docs, keys, z, e);
      case Advance(_) => AdvanceKeepsSound(cfg, y.stores.docs, keys, z, e);
      case Stop(_) => StopKeepsSound(cfg, y.stores.docs, keys, z, e);
    }
  }

  /** Over every such run, interleaved write by write and stopped anywhere: every key that is not in
      mid-ingestion agrees with the text of its last finished job; without one it is as settled as
      it was at the start. */
  lemma EveryRunAgrees(cfg: Config, keys: iset<Key>, y: System, es: seq<Event>, k: Key)
    requires ValidConfig(cfg) && Apart(keys) && Initial(cfg, keys, y)
    requires AllAllowed(cfg, keys, y, es)
    requires k in keys
    ensures var s, last := Steps(cfg, y, es).stores, LastFinished(cfg, y, es, k);
            && Identity(s.docs, k) == Identity(y.stores.docs, k)
            && (k !in Steps(cfg, y, es).unsettled ==>
                  if last.Some? then Agrees(cfg, s, Identity(s.docs, k), k, last.value.text)
                  else if k in y.stores.checksums
                  then Agrees(cfg, s, Identity(s.docs, k), k, y.stores.checksums[k].text)
                  else Vacant(s, Identity(s.docs, k)))
  {
    hide Steps, AllAllowed, Agrees, Vacant, Identity, WellKeyed, SameLegacy, JobTracks, JobSound, LastFinished;
    StepsKeepSound(cfg, keys, y, es);
    AllowedUses(cfg, keys, y, es);
    StepsKeepTracks(cfg, keys, y, es);
    LastFinishedIsRecorded(cfg, keys, y, es, k);
    IdentityFollows(y.stores.docs, Steps(cfg, y, es).stores.docs, k);
    assert KeySound(cfg, y.stores.docs, Steps(cfg, y, es), k);
  }

  /** And a key in mid-ingestion is healed by one undisturbed ingestion of any text with no fewer
      chunks than the one it was left with, which itself is not skipped. */
  lemma EveryRunHeals(cfg: Config, keys: iset<Key>, y: System, es: seq<Event>, k: Key, text: string, acl: seq<string>)
    requires ValidConfig(cfg) && Apart(keys) && Initial(cfg, keys, y)
    requires AllAllowed(cfg, keys, y, es)
    requires k in keys && k in Steps(cfg, y, es).unsettled
    requires Count(cfg, k, Steps(cfg, y, es).unsettled[k]) <= Count(cfg, k, text)
    ensures var z := Steps(cfg, y, es);
            && !Skips(z.stores, k, z.unsettled[k])
            && Agrees(cfg, Run(z.stores, Plan(cfg, z.stores, k, text, acl)), Identity(y.stores.docs, k), k, text)
  {
    hide Run, Plan, Agrees, Identity, Recoverable, WellKeyed, SameLegacy, JobTracks, JobSound;
    StepsKeepSound(cfg, keys, y, es);
    AllowedUses(cfg, keys, y, es);
    StepsKeepTracks(cfg, keys, y, es);
    var z := Steps(cfg, y, es);
    IdentityFollows(y.stores.docs, z.stores.docs, k);
    assert KeySound(cfg, y.stores.docs, z, k);
    SoundIsRecoverable(cfg, y.stores.docs, z, k, Count(cfg, k, text));
    PlanAgreesIff(cfg, z.stores, k, text, acl);
  }
}
