/**
 Ingestion as a protocol: one job at a time in each workspace (the workspace lock), jobs of
 different workspaces interleaving write by write, any job stopping after any write. A key is
 `unsettled` from the first write of a job to the last.
 */
module IngestSystem {
  import opened Uris
  import opened IngestState
  import opened IngestPlan
  import opened IngestRecovery
  import Graph

  /** A running ingestion: what it ingests, the stores when it began, the writes done so far. */
  datatype Job = Job(key: Key, text: string, acl: seq<string>, before: Stores, pos: nat)

  datatype System = System(stores: Stores, jobs: map<string, Job>, unsettled: map<Key, string>)

  datatype Event =
    | Begin(key: Key, text: string, acl: seq<string>)
    | Advance(ws: string)
    | Stop(ws: string)

  function JobPlan(cfg: Config, j: Job): seq<Write> {
    Plan(cfg, j.before, j.key, j.text, j.acl)
  }

  function Step(cfg: Config, y: System, e: Event): System {
    match e
    case Begin(k, text, acl) =>
      if k.workspace in y.jobs || k.path == "" || text == "" || Skips(y.stores, k, text) then y
      else y.(jobs := y.jobs[k.workspace := Job(k, text, acl, y.stores, 0)])
    case Advance(ws) =>
      if ws !in y.jobs || y.jobs[ws].pos >= |JobPlan(cfg, y.jobs[ws])| then y
      else
        var j := y.jobs[ws];
        var plan := JobPlan(cfg, j);
        var stores := Apply(y.stores, plan[j.pos]);
        if j.pos + 1 == |plan| then System(stores, y.jobs - {ws}, y.unsettled - {j.key})
        else System(stores, y.jobs[ws := j.(pos := j.pos + 1)], y.unsettled[j.key := j.text])
    case Stop(ws) => y.(jobs := y.jobs - {ws})
  }

  function Steps(cfg: Config, y: System, es: seq<Event>): System {
    if es == [] then y else Step(cfg, Steps(cfg, y, es[..|es| - 1]), es[|es| - 1])
  }

  /** Every job ingests one of the keys; texts are arbitrary. */
  ghost predicate Uses(keys: iset<Key>, es: seq<Event>) {
    forall e | e in es && e.Begin? :: e.key in keys
  }

  // ---------------------------------------------------------------- the invariant of every run

  /** The chunks of a job's document are what that job alone would have made them by now. */
  ghost predicate OnTrack(cfg: Config, d: DocId, s: Stores, j: Job) {
    j.pos <= |JobPlan(cfg, j)| && forall id: ChunkId | id.doc == d ::
      CellOf(s, id) == CellOf(Run(j.before, JobPlan(cfg, j)[..j.pos]), id)
  }

  ghost predicate JobTracks(cfg: Config, docs: map<DocId, DocRecord>, s: Stores, ws: string, j: Job) {
    && j.key.workspace == ws && j.pos < |JobPlan(cfg, j)|
    && WellKeyed(j.before) && SameLegacy(docs, j.before.docs)
    && OnTrack(cfg, Identity(docs, j.key), s, j)
  }

  ghost predicate Tracks(cfg: Config, docs: map<DocId, DocRecord>, keys: iset<Key>, y: System) {
    && WellKeyed(y.stores) && SameLegacy(docs, y.stores.docs)
    && forall ws | ws in y.jobs :: y.jobs[ws].key in keys && JobTracks(cfg, docs, y.stores, ws, y.jobs[ws])
  }

  // ---------------------------------------------------------------- one write of one job

  lemma IdentityFollows(a: map<DocId, DocRecord>, b: map<DocId, DocRecord>, k: Key)
    requires SameLegacy(a, b)
    ensures Identity(a, k) == Identity(b, k)
  {}

  /** A write of a job leaves the chunks of every other document alone. */
  lemma WriteSparesOthers(cfg: Config, docs: map<DocId, DocRecord>, s: Stores, ws: string, j: Job, id: ChunkId)
    requires ValidConfig(cfg) && JobTracks(cfg, docs, s, ws, j) && id.doc != Identity(docs, j.key)
    ensures CellOf(Apply(s, JobPlan(cfg, j)[j.pos]), id) == CellOf(s, id)
  {
    hide Apply, Run, Plan, CellOf, Relevant, Touches, OnTrack;
    IdentityFollows(docs, j.before.docs, j.key);
    RelevantPlan(cfg, j.before, j.key, j.text, j.acl, id);
    WellKeyedPlanIsLocal(cfg, j.before, j.key, j.text, j.acl, id);
    RelevantEmpty(JobPlan(cfg, j), id, JobPlan(cfg, j)[j.pos]);
    ApplyOnCell(s, JobPlan(cfg, j)[j.pos], id);
  }

  lemma OthersSpared(cfg: Config, docs: map<DocId, DocRecord>, s: Stores, ws: string, j: Job, d: DocId)
    requires ValidConfig(cfg) && JobTracks(cfg, docs, s, ws, j) && d != Identity(docs, j.key)
    ensures SameCells(s, Apply(s, JobPlan(cfg, j)[j.pos]), d)
  {
    forall id: ChunkId | id.doc == d
      ensures CellOf(Apply(s, JobPlan(cfg, j)[j.pos]), id) == CellOf(s, id) {
      WriteSparesOthers(cfg, docs, s, ws, j, id);
    }
  }

  /** Before and after, the stores hold the same for every chunk of the document. */
  ghost predicate SameCells(s: Stores, t: Stores, d: DocId) {
    forall id: ChunkId | id.doc == d :: CellOf(t, id) == CellOf(s, id)
  }

  lemma WellKeyedPlanIsLocal(cfg: Config, s: Stores, k: Key, text: string, acl: seq<string>, id: ChunkId)
    requires ValidConfig(cfg) && WellKeyed(s) && id.doc != Identity(s.docs, k)
    ensures CellPlan(cfg, s, k, text, acl, id) == []
  {}

  /** On its own document the job stays on track. */
  lemma WriteStaysOnTrack(cfg: Config, d: DocId, s: Stores, j: Job)
    requires j.pos < |JobPlan(cfg, j)| && OnTrack(cfg, d, s, j)
    ensures forall id: ChunkId | id.doc == d ::
              CellOf(Apply(s, JobPlan(cfg, j)[j.pos]), id) == CellOf(Run(j.before, JobPlan(cfg, j)[..j.pos + 1]), id)
  {
    hide Apply, Run, Plan, CellOf, Touches;
    var plan := JobPlan(cfg, j);
    RunSnoc(j.before, plan[..j.pos], plan[j.pos]);
    assert plan[..j.pos] + [plan[j.pos]] == plan[..j.pos + 1];
    forall id: ChunkId | id.doc == d
      ensures CellOf(Apply(s, plan[j.pos]), id) == CellOf(Run(j.before, plan[..j.pos + 1]), id)
    {
      ApplyOnCell(s, plan[j.pos], id);
      ApplyOnCell(Run(j.before, plan[..j.pos]), plan[j.pos], id);
    }
  }

  /** What a write of a job does to the metadata fields. */
  lemma WriteOnFields(cfg: Config, docs: map<DocId, DocRecord>, s: Stores, j: Job)
    requires WellKeyed(s) && SameLegacy(docs, s.docs) && SameLegacy(docs, j.before.docs)
    requires j.pos < |JobPlan(cfg, j)|
    ensures var t := Apply(s, JobPlan(cfg, j)[j.pos]);
            && WellKeyed(t) && SameLegacy(docs, t.docs)
            && t.checksums == if j.pos + 1 == |JobPlan(cfg, j)|
                              then s.checksums[j.key := Sha256(j.text)] else s.checksums
  {
    hide Apply, Body, WellKeyed, SameLegacy;
    PlanShape(cfg, j.before, j.key, j.text, j.acl);
    IdentityFollows(docs, j.before.docs, j.key);
    var plan, body := JobPlan(cfg, j), Body(cfg, j.before, j.key, j.text, j.acl);
    var w := plan[j.pos];
    assert w in plan;
    if j.pos < |body| {
      assert w == body[j.pos] && w in body;
    }
    ApplyOnFields(docs, s, w, j.key, j.text);
  }

  lemma ApplyOnFields(docs: map<DocId, DocRecord>, s: Stores, w: Write, k: Key, text: string)
    requires WellKeyed(s) && SameLegacy(docs, s.docs)
    requires w.PutDoc? ==> w.doc == Identity(docs, k) && w.key == k
    requires w.SetChecksum? ==> w == SetChecksum(k, Sha256(text))
    ensures var t := Apply(s, w);
            && WellKeyed(t) && SameLegacy(docs, t.docs)
            && t.checksums == if w.SetChecksum? then s.checksums[k := Sha256(text)] else s.checksums
  {
    hide Graph.UpsertMentions, Graph.UpsertRelations, Graph.DeleteNodes;
  }

  // ---------------------------------------------------------------- every step keeps the invariant

  lemma FreshJob(cfg: Config, d: DocId, j: Job)
    requires j.pos == 0
    ensures 0 < |JobPlan(cfg, j)| && OnTrack(cfg, d, j.before, j)
  {}

  lemma BeginKeepsTracks(cfg: Config, docs: map<DocId, DocRecord>, keys: iset<Key>, y: System, e: Event)
    requires Tracks(cfg, docs, keys, y) && e.Begin? && e.key in keys
    ensures Tracks(cfg, docs, keys, Step(cfg, y, e))
  {
    hide JobPlan, OnTrack, WellKeyed, SameLegacy, Identity;
    var j := Job(e.key, e.text, e.acl, y.stores, 0);
    FreshJob(cfg, Identity(docs, e.key), j);
  }

  lemma TracksWhileSpared(cfg: Config, docs: map<DocId, DocRecord>, s: Stores, t: Stores, ws: string, j: Job)
    requires JobTracks(cfg, docs, s, ws, j) && SameCells(s, t, Identity(docs, j.key))
    ensures JobTracks(cfg, docs, t, ws, j)
  {
    hide CellOf, Identity, Run, JobPlan, WellKeyed, SameLegacy;
  }

  lemma JobFields(cfg: Config, docs: map<DocId, DocRecord>, s: Stores, ws: string, j: Job)
    requires JobTracks(cfg, docs, s, ws, j)
    ensures j.key.workspace == ws && j.pos < |JobPlan(cfg, j)| && WellKeyed(j.before) && SameLegacy(docs, j.before.docs)
    ensures OnTrack(cfg, Identity(docs, j.key), s, j)
  {}

  /** The advancing job itself. */
  lemma AdvancingTracks(cfg: Config, docs: map<DocId, DocRecord>, s: Stores, ws: string, j: Job)
    requires JobTracks(cfg, docs, s, ws, j) && j.pos + 1 < |JobPlan(cfg, j)|
    ensures JobTracks(cfg, docs, Apply(s, JobPlan(cfg, j)[j.pos]), ws, j.(pos := j.pos + 1))
  {
    hide Apply, Run, Plan, CellOf, Identity, WellKeyed, SameLegacy;
    WriteStaysOnTrack(cfg, Identity(docs, j.key), s, j);
  }

  /** One write of one job keeps every job's document as that job alone would have made it. */
  lemma AdvanceKeepsTracks(cfg: Config, docs: map<DocId, DocRecord>, keys: iset<Key>, y: System, e: Event)
    requires ValidConfig(cfg) && Apart(keys)
    requires Tracks(cfg, docs, keys, y) && e.Advance?
    ensures Tracks(cfg, docs, keys, Step(cfg, y, e))
  {
    hide JobPlan, CellOf, JobTracks, Apply, WellKeyed, SameLegacy, SameCells, Identity;
    var z := Step(cfg, y, e);
    if z != y {
      var j := y.jobs[e.ws];
      JobFields(cfg, docs, y.stores, e.ws, j);
      WriteOnFields(cfg, docs, y.stores, j);
      forall ws | ws in z.jobs ensures z.jobs[ws].key in keys && JobTracks(cfg, docs, z.stores, ws, z.jobs[ws]) {
        if ws == e.ws {
          AdvancingTracks(cfg, docs, y.stores, ws, j);
        } else {
          var i := y.jobs[ws];
          JobFields(cfg, docs, y.stores, ws, i);
          if Identity(docs, i.key) == Identity(docs, j.key) { IdentityInjective(docs, keys, i.key, j.key); }
          OthersSpared(cfg, docs, y.stores, e.ws, j, Identity(docs, i.key));
          TracksWhileSpared(cfg, docs, y.stores, z.stores, ws, i);
        }
      }
    }
  }

  lemma {:induction false} StepsKeepTracks(cfg: Config, keys: iset<Key>, y: System, es: seq<Event>)
    requires ValidConfig(cfg) && Apart(keys) && Uses(keys, es)
    requires WellKeyed(y.stores) && y.jobs == map[]
    ensures Tracks(cfg, y.stores.docs, keys, Steps(cfg, y, es))
  {
    hide JobTracks, WellKeyed;
    if es != [] {
      var front, e := es[..|es| - 1], es[|es| - 1];
      assert es == front + [e];
      StepsKeepTracks(cfg, keys, y, front);
      var z := Steps(cfg, y, front);
      match e
      case Begin(_, _, _) => BeginKeepsTracks(cfg, y.stores.docs, keys, z, e);
      case Advance(_) => AdvanceKeepsTracks(cfg, y.stores.docs, keys, z, e);
      case Stop(_) =>
    }
  }

  // ---------------------------------------------------------------- main results

  /** The events of one undisturbed ingestion: its beginning and `n` writes. */
  function Alone(k: Key, text: string, acl: seq<string>, n: nat): seq<Event> {
    [Begin(k, text, acl)] + seq(n, i => Advance(k.workspace))
  }

  /** How far an undisturbed job has come after `n` of its writes. */
  ghost predicate After(cfg: Config, y: System, z: System, k: Key, text: string, acl: seq<string>, n: nat)
    requires n <= |Plan(cfg, y.stores, k, text, acl)|
  {
    var plan := Plan(cfg, y.stores, k, text, acl);
    && z.stores == Run(y.stores, plan[..n])
    && z.jobs == (if n < |plan| then y.jobs[k.workspace := Job(k, text, acl, y.stores, n)] else y.jobs)
    && z.unsettled == (if n == 0 then y.unsettled else if n < |plan| then y.unsettled[k := text] else y.unsettled - {k})
  }

  lemma OneMoreWrite(cfg: Config, y: System, z: System, k: Key, text: string, acl: seq<string>, n: nat)
    requires n < |Plan(cfg, y.stores, k, text, acl)| && k.workspace !in y.jobs
    requires After(cfg, y, z, k, text, acl, n)
    ensures After(cfg, y, Step(cfg, z, Advance(k.workspace)), k, text, acl, n + 1)
  {
    hide Run, Plan, Apply;
    var plan := Plan(cfg, y.stores, k, text, acl);
    assert plan[..n + 1] == plan[..n] + [plan[n]];
    RunSnoc(y.stores, plan[..n], plan[n]);
    assert y.jobs[k.workspace := Job(k, text, acl, y.stores, n)] - {k.workspace} == y.jobs;
    assert y.unsettled[k := text] - {k} == y.unsettled - {k};
  }

  /** A job that is let run makes the writes of its plan one by one and then ends, the key being settled
      again. */
  lemma {:induction false} AloneRuns(cfg: Config, y: System, k: Key, text: string, acl: seq<string>, n: nat)
    requires n <= |Plan(cfg, y.stores, k, text, acl)| && k.workspace !in y.jobs && k.path != "" && text != ""
    requires !(k in y.stores.checksums && y.stores.checksums[k] == Sha256(text))
    ensures After(cfg, y, Steps(cfg, y, Alone(k, text, acl, n)), k, text, acl, n)
  {
    hide Run, Plan, Apply;
    var all := Alone(k, text, acl, n);
    PlanIsSomething(cfg, y.stores, k, text, acl);
    if n == 0 {
      assert all == [Begin(k, text, acl)] && all[..0] == [];
      RunEmpty(y.stores);
      assert Plan(cfg, y.stores, k, text, acl)[..0] == [];
    } else {
      hide After, Step;
      AloneRuns(cfg, y, k, text, acl, n - 1);
      assert all[..|all| - 1] == Alone(k, text, acl, n - 1) && all[|all| - 1] == Advance(k.workspace);
      OneMoreWrite(cfg, y, Steps(cfg, y, Alone(k, text, acl, n - 1)), k, text, acl, n - 1);
    }
  }

  /** A job that is stopped after some of its writes leaves exactly those, and its key in mid-ingestion. */
  lemma StopLeavesWrites(cfg: Config, y: System, k: Key, text: string, acl: seq<string>, n: nat)
    requires 0 < n < |Plan(cfg, y.stores, k, text, acl)| && k.workspace !in y.jobs && k.path != "" && text != ""
    requires !(k in y.stores.checksums && y.stores.checksums[k] == Sha256(text))
    ensures Steps(cfg, y, Alone(k, text, acl, n) + [Stop(k.workspace)])
            == System(Run(y.stores, Plan(cfg, y.stores, k, text, acl)[..n]), y.jobs, y.unsettled[k := text])
  {
    hide Run, Plan;
    var all := Alone(k, text, acl, n) + [Stop(k.workspace)];
    assert all[..|all| - 1] == Alone(k, text, acl, n);
    AloneRuns(cfg, y, k, text, acl, n);
    assert y.jobs[k.workspace := Job(k, text, acl, y.stores, n)] - {k.workspace} == y.jobs;
  }

  /** A request changes nothing while the workspace has a job, without a path or text, or when the text
      is the recorded one. */
  lemma RequestPassedOver(cfg: Config, y: System, k: Key, text: string, acl: seq<string>)
    ensures Step(cfg, y, Begin(k, text, acl)) == y <==>
            || k.workspace in y.jobs || k.path == "" || text == ""
            || (k in y.stores.checksums && y.stores.checksums[k] == Sha256(text))
  {}

  lemma PlanIsSomething(cfg: Config, s: Stores, k: Key, text: string, acl: seq<string>)
    ensures |Plan(cfg, s, k, text, acl)| > 0
  {}

  /** Does this step finish a job of the key? */
  predicate Finishes(cfg: Config, y: System, e: Event, k: Key) {
    && e.Advance? && e.ws in y.jobs && y.jobs[e.ws].key == k
    && y.jobs[e.ws].pos + 1 == |JobPlan(cfg, y.jobs[e.ws])|
  }

  /** The last job of the key that finished in the run. */
  function LastFinished(cfg: Config, y: System, es: seq<Event>, k: Key): Option<Job> {
    if es == [] then None
    else
      var front, e := es[..|es| - 1], es[|es| - 1];
      var z := Steps(cfg, y, front);
      if Finishes(cfg, z, e, k) then Some(z.jobs[e.ws]) else LastFinished(cfg, y, front, k)
  }

  /** The checksum of a key is always that of the text of its last finished job. */
  lemma {:induction false} LastFinishedIsRecorded(cfg: Config, keys: iset<Key>, y: System, es: seq<Event>, k: Key)
    requires ValidConfig(cfg) && Apart(keys) && Uses(keys, es)
    requires WellKeyed(y.stores) && y.jobs == map[]
    ensures var s, last := Steps(cfg, y, es).stores, LastFinished(cfg, y, es, k);
            if last.Some? then k in s.checksums && s.checksums[k] == Sha256(last.value.text)
            else (k in s.checksums <==> k in y.stores.checksums)
                 && (k in s.checksums ==> s.checksums[k] == y.stores.checksums[k])
  {
    hide JobTracks, Apply, JobPlan, WellKeyed;
    if es != [] {
      var front, e := es[..|es| - 1], es[|es| - 1];
      assert es == front + [e];
      LastFinishedIsRecorded(cfg, keys, y, front, k);
      StepsKeepTracks(cfg, keys, y, front);
      var z := Steps(cfg, y, front);
      if e.Advance? && e.ws in z.jobs {
        JobFields(cfg, y.stores.docs, z.stores, e.ws, z.jobs[e.ws]);
        WriteOnFields(cfg, y.stores.docs, z.stores, z.jobs[e.ws]);
      }
    }
  }

  /** What a finished job leaves agrees with its text if and only if no surplus chunk had been lost
      from metadata when it began, whatever ran meanwhile. */
  lemma FinishAgreesIff(cfg: Config, docs: map<DocId, DocRecord>, s: Stores, ws: string, j: Job)
    requires ValidConfig(cfg) && JobTracks(cfg, docs, s, ws, j) && j.pos + 1 == |JobPlan(cfg, j)|
    ensures var d := Identity(docs, j.key);
            Agrees(cfg, Apply(s, JobPlan(cfg, j)[j.pos]), d, j.key, j.text)
            <==> Recoverable(j.before, d, j.key.workspace, |cfg.chunker(j.key.path, j.text)|)
  {
    hide Apply, Run, Plan, CellOf, Target, Listed;
    var d, plan := Identity(docs, j.key), JobPlan(cfg, j);
    IdentityFollows(docs, j.before.docs, j.key);
    WriteStaysOnTrack(cfg, d, s, j);
    assert plan[..j.pos + 1] == plan;
    PlanAgreesIff(cfg, j.before, j.key, j.text, j.acl);
    SameCellsAgree(cfg, Run(j.before, plan), Apply(s, plan[j.pos]), d, j.key, j.text);
  }

  lemma SameCellsAgree(cfg: Config, s: Stores, t: Stores, d: DocId, k: Key, text: string)
    requires SameCells(s, t, d)
    ensures Agrees(cfg, s, d, k, text) <==> Agrees(cfg, t, d, k, text)
    ensures Vacant(s, d) <==> Vacant(t, d)
  {
    hide CellOf, Target;
    if Agrees(cfg, s, d, k, text) { assert Agrees(cfg, t, d, k, text); }
    if Vacant(s, d) { assert Vacant(t, d); }
    if Agrees(cfg, t, d, k, text) {
      forall id: ChunkId | id.doc == d ensures CellOf(s, id) == Target(cfg, k, text, id) {
        assert CellOf(t, id) == CellOf(s, id);
      }
    }
    if Vacant(t, d) {
      forall id: ChunkId | id.doc == d ensures CellOf(s, id) == ABSENT {
        assert CellOf(t, id) == CellOf(s, id);
      }
    }
  }

  /** Over every run, whatever texts are ingested in whatever order, with jobs of different workspaces
      interleaved write by write and any of them stopped anywhere: the chosen document of each key
      never changes; and a key that no job has written since its last finished one agrees with that
      one's text if and only if no surplus chunk had been lost from metadata when it began. A key
      that no job has written is as it was at the start. */
  lemma {:induction false} EveryRunAgreesIff(cfg: Config, keys: iset<Key>, y: System, es: seq<Event>, k: Key)
    requires ValidConfig(cfg) && Apart(keys) && Uses(keys, es)
    requires WellKeyed(y.stores) && y.jobs == map[] && k in keys
    ensures var z, d, last := Steps(cfg, y, es), Identity(y.stores.docs, k), LastFinished(cfg, y, es, k);
            && Identity(z.stores.docs, k) == d
            && (k !in z.unsettled ==>
                  if last.Some?
                  then Agrees(cfg, z.stores, d, k, last.value.text)
                       <==> Recoverable(last.value.before, d, k.workspace, |cfg.chunker(k.path, last.value.text)|)
                  else SameCells(y.stores, z.stores, d))
  {
    hide JobPlan, CellOf, JobTracks, Apply, Agrees, Recoverable, WellKeyed, SameLegacy, SameCells, Identity;
    StepsKeepTracks(cfg, keys, y, es);
    IdentityFollows(y.stores.docs, Steps(cfg, y, es).stores.docs, k);
    if es == [] {
      SameCellsRefl(y.stores, Identity(y.stores.docs, k));
    } else {
      var front, e := es[..|es| - 1], es[|es| - 1];
      assert es == front + [e];
      EveryRunAgreesIff(cfg, keys, y, front, k);
      StepsKeepTracks(cfg, keys, y, front);
      var z, docs := Steps(cfg, y, front), y.stores.docs;
      if e.Advance? && e.ws in z.jobs {
        var j := z.jobs[e.ws];
        JobFields(cfg, docs, z.stores, e.ws, j);
        if Finishes(cfg, z, e, k) {
          FinishAgreesIff(cfg, docs, z.stores, e.ws, j);
        } else if j.key != k {
          QuietStep(cfg, docs, keys, y.stores, z.stores, e.ws, j, k, LastFinished(cfg, y, front, k));
        }
      }
    }
  }

  lemma SameCellsRefl(s: Stores, d: DocId)
    ensures SameCells(s, s, d)
  {}

  /** Another key's write changes neither the agreement of this key nor its being as at the start. */
  lemma QuietStep(cfg: Config, docs: map<DocId, DocRecord>, keys: iset<Key>, start: Stores, s: Stores, ws: string, j: Job,
                  k: Key, last: Option<Job>)
    requires ValidConfig(cfg) && Apart(keys) && JobTracks(cfg, docs, s, ws, j)
    requires k in keys && j.key in keys && j.key != k
    ensures var t, d := Apply(s, JobPlan(cfg, j)[j.pos]), Identity(docs, k);
            && (last.Some? ==> (Agrees(cfg, s, d, k, last.value.text) <==> Agrees(cfg, t, d, k, last.value.text)))
            && (SameCells(start, s, d) ==> SameCells(start, t, d))
  {
    hide CellOf, Apply, Agrees, JobTracks, JobPlan, Identity;
    JobFields(cfg, docs, s, ws, j);
    var t, d := Apply(s, JobPlan(cfg, j)[j.pos]), Identity(docs, k);
    if d == Identity(docs, j.key) { IdentityInjective(docs, keys, k, j.key); }
    OthersSpared(cfg, docs, s, ws, j, d);
    if last.Some? { SameCellsAgree(cfg, s, t, d, k, last.value.text); }
  }
}
