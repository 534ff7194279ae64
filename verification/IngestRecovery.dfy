/**
 Agreement of the three stores on one document, and recovery: when a full ingestion ends in
 agreement, and what an ingestion that stops after any write leaves behind.
 */
module IngestRecovery {
  import opened Uris
  import opened IngestState
  import opened IngestPlan
  import Graph

  /** What the stores hold for a chunk when they agree on `text`. */
  function Target(cfg: Config, k: Key, text: string, id: ChunkId): Cell {
    var texts := cfg.chunker(k.path, text);
    if id.index < |texts|
    then Cell(Some(ChunkRecord(id.doc, texts[id.index], k.workspace)),
              Some(Passage(texts[id.index], k.workspace)),
              Some(k.workspace))
    else ABSENT
  }

  /** Metadata, vector store and graph hold exactly the chunks of `text` under document `d`. */
  ghost predicate Agrees(cfg: Config, s: Stores, d: DocId, k: Key, text: string) {
    forall id: ChunkId | id.doc == d :: CellOf(s, id) == Target(cfg, k, text, id)
  }

  /** Nothing at all is stored under document `d`. */
  ghost predicate Vacant(s: Stores, d: DocId) {
    forall id: ChunkId | id.doc == d :: CellOf(s, id) == ABSENT
  }

  /** Metadata files each chunk under the document its id names. */
  ghost predicate WellKeyed(s: Stores) {
    forall id | id in s.chunks :: s.chunks[id].doc == id.doc
  }

  /** A surplus chunk can be cleaned up: metadata still lists it, in the caller's workspace. */
  predicate Listed(c: Cell, ws: string) {
    && (c.passage.Some? ==> c.chunk.Some? && PassageMatches(c.passage.value, ws))
    && (c.node.Some? ==> c.chunk.Some? && c.node.value == ws)
  }

  /** Every chunk of `d` from index `n` on that is still in the vector store or the graph is
      still listed in metadata. */
  ghost predicate Recoverable(s: Stores, d: DocId, ws: string, n: nat) {
    forall id: ChunkId | id.doc == d && id.index >= n :: Listed(CellOf(s, id), ws)
  }

  // ---------------------------------------------------------------- one cell

  lemma CellRunSmall(c: Cell, w: seq<Write>)
    ensures w == [] ==> CellRun(c, w) == c
    ensures |w| == 1 ==> CellRun(c, w) == CellApply(c, w[0])
    ensures |w| == 2 ==> CellRun(c, w) == CellApply(CellApply(c, w[0]), w[1])
    ensures |w| == 3 ==> CellRun(c, w) == CellApply(CellApply(CellApply(c, w[0]), w[1]), w[2])
  {
    if |w| == 3 {
      assert w[..2][..1] == w[..1] && w[..1][..0] == [];
    } else if |w| == 2 {
      assert w[..1][..0] == [];
    }
  }

  lemma CellAfterPlan(cfg: Config, s: Stores, k: Key, text: string, acl: seq<string>, id: ChunkId)
    requires ValidConfig(cfg) && WellKeyed(s) && id.doc == Identity(s.docs, k)
    ensures CellOf(Run(s, Plan(cfg, s, k, text, acl)), id) == Target(cfg, k, text, id)
            <==> id.index < |cfg.chunker(k.path, text)| || Listed(CellOf(s, id), k.workspace)
  {
    hide Plan, Run, Relevant;
    RunOnCell(s, Plan(cfg, s, k, text, acl), id);
    RelevantPlan(cfg, s, k, text, acl, id);
    CellRunSmall(CellOf(s, id), CellPlan(cfg, s, k, text, acl, id));
  }

  lemma CellAfterCut(cfg: Config, s: Stores, k: Key, text: string, acl: seq<string>, m: nat, id: ChunkId)
    requires ValidConfig(cfg) && WellKeyed(s) && m <= |Plan(cfg, s, k, text, acl)|
    ensures var c := CellOf(Run(s, Plan(cfg, s, k, text, acl)[..m]), id);
            if id.doc != Identity(s.docs, k) then c == CellOf(s, id)
            else id.index >= |cfg.chunker(k.path, text)| && Listed(CellOf(s, id), k.workspace) ==> Listed(c, k.workspace)
  {
    hide Plan, Run, Relevant;
    var plan := Plan(cfg, s, k, text, acl);
    RunOnCell(s, plan[..m], id);
    RelevantPlan(cfg, s, k, text, acl, id);
    RelevantPrefix(plan, m, id);
    CellRunSmall(CellOf(s, id), Relevant(plan[..m], id));
  }

  // ---------------------------------------------------------------- main results for one document

  /** Ingesting a text to the end puts the stores in agreement on it, from any state whatever,
      if and only if no surplus chunk has been lost from metadata beforehand. */
  lemma PlanAgreesIff(cfg: Config, s: Stores, k: Key, text: string, acl: seq<string>)
    requires ValidConfig(cfg) && WellKeyed(s)
    ensures var d := Identity(s.docs, k);
            Agrees(cfg, Run(s, Plan(cfg, s, k, text, acl)), d, k, text)
            <==> Recoverable(s, d, k.workspace, |cfg.chunker(k.path, text)|)
  {
    hide Plan, Run, Identity, Target, Listed, CellOf;
    var after := Run(s, Plan(cfg, s, k, text, acl));
    var d := Identity(s.docs, k);
    var n := |cfg.chunker(k.path, text)|;
    forall id: ChunkId | id.doc == d
      ensures CellOf(after, id) == Target(cfg, k, text, id) <==> id.index < n || Listed(CellOf(s, id), k.workspace)
    {
      CellAfterPlan(cfg, s, k, text, acl, id);
    }
    if Agrees(cfg, after, d, k, text) {
      forall id: ChunkId | id.doc == d && id.index >= n ensures Listed(CellOf(s, id), k.workspace) {
        assert CellOf(after, id) == Target(cfg, k, text, id);
      }
    }
  }

  /** Stopping after any number of writes loses no surplus chunk from metadata. */
  lemma CutKeepsRecoverable(cfg: Config, s: Stores, k: Key, text: string, acl: seq<string>, m: nat)
    requires ValidConfig(cfg) && WellKeyed(s) && m <= |Plan(cfg, s, k, text, acl)|
    requires Recoverable(s, Identity(s.docs, k), k.workspace, |cfg.chunker(k.path, text)|)
    ensures Recoverable(Run(s, Plan(cfg, s, k, text, acl)[..m]), Identity(s.docs, k), k.workspace, |cfg.chunker(k.path, text)|)
  {
    hide Plan, Run, Identity, Listed, CellOf;
    var d := Identity(s.docs, k);
    var n := |cfg.chunker(k.path, text)|;
    var after := Run(s, Plan(cfg, s, k, text, acl)[..m]);
    forall id: ChunkId | id.doc == d && id.index >= n ensures Listed(CellOf(after, id), k.workspace) {
      CellAfterCut(cfg, s, k, text, acl, m, id);
    }
  }

  /** However far it gets, ingesting one document touches no chunk of another one. */
  lemma CutSparesOthers(cfg: Config, s: Stores, k: Key, text: string, acl: seq<string>, m: nat, id: ChunkId)
    requires ValidConfig(cfg) && WellKeyed(s) && m <= |Plan(cfg, s, k, text, acl)|
    requires id.doc != Identity(s.docs, k)
    ensures CellOf(Run(s, Plan(cfg, s, k, text, acl)[..m]), id) == CellOf(s, id)
  {
    CellAfterCut(cfg, s, k, text, acl, m, id);
  }

  lemma AgreesIsRecoverable(cfg: Config, s: Stores, d: DocId, k: Key, text: string, n: nat)
    requires Agrees(cfg, s, d, k, text) || Vacant(s, d)
    ensures Recoverable(s, d, k.workspace, n)
  {}

  lemma ScopedKeyTail(k: Key)
    ensures ScopedKey(k)[|k.workspace| + 1..] == k.path
  {}

  /** Two keys under one document id can never both be in agreement, unless there is nothing to
      agree on: so distinct ids are what agreement of every key needs. */
  lemma SharedIdNeverAgrees(cfg: Config, s: Stores, j: Key, k: Key, a: string, b: string)
    requires j != k && Identity(s.docs, j) == Identity(s.docs, k)
    requires cfg.chunker(j.path, a) != []
    ensures !(Agrees(cfg, s, Identity(s.docs, j), j, a) && Agrees(cfg, s, Identity(s.docs, k), k, b))
  {
    var id := ChunkId(Identity(s.docs, j), 0);
    ScopedKeyTail(j);
    ScopedKeyTail(k);
    if Agrees(cfg, s, Identity(s.docs, j), j, a) {
      assert CellOf(s, id) == Target(cfg, j, a, id);
    }
  }

  // ---------------------------------------------------------------- what the writes keep

  lemma ApplyKeepsWellKeyed(s: Stores, w: Write)
    requires WellKeyed(s)
    ensures WellKeyed(Apply(s, w))
  {
    hide Graph.UpsertMentions, Graph.UpsertRelations, Graph.DeleteNodes;
  }

  lemma {:induction false} RunKeepsWellKeyed(s: Stores, ws: seq<Write>)
    requires WellKeyed(s)
    ensures WellKeyed(Run(s, ws))
  {
    hide Apply, WellKeyed;
    if ws != [] {
      RunKeepsWellKeyed(s, ws[..|ws| - 1]);
      ApplyKeepsWellKeyed(Run(s, ws[..|ws| - 1]), ws[|ws| - 1]);
    }
  }

  lemma ApplyOnDocs(s: Stores, w: Write)
    ensures Apply(s, w).docs == if w.PutDoc? then s.docs[w.doc := DocRecord(w.key.workspace, w.key.path)] else s.docs
  {
    hide Graph.UpsertMentions, Graph.UpsertRelations, Graph.DeleteNodes, EntityUris, EntityRelations, ChunkUris;
  }

  lemma {:induction false} RunOnDocs(s: Stores, ws: seq<Write>, d: DocId, k: Key)
    requires forall w | w in ws :: w.PutDoc? ==> w.doc == d && w.key == k
    requires d == Identity(s.docs, k)
    ensures SameLegacy(s.docs, Run(s, ws).docs)
  {
    hide Apply;
    if ws != [] {
      assert ws == ws[..|ws| - 1] + [ws[|ws| - 1]];
      RunOnDocs(s, ws[..|ws| - 1], d, k);
      ApplyOnDocs(Run(s, ws[..|ws| - 1]), ws[|ws| - 1]);
    }
  }

  lemma {:induction false} LinksOnlyLink(cfg: Config, d: DocId, texts: seq<string>, ws: string, acl: seq<string>)
    ensures forall w | w in Links(cfg, d, texts, ws, acl) :: !w.PutDoc? && !w.SetChecksum?
  {
    if texts != [] { LinksOnlyLink(cfg, d, texts[..|texts| - 1], ws, acl); }
  }

  lemma PlanShape(cfg: Config, s: Stores, k: Key, text: string, acl: seq<string>)
    ensures forall w | w in Plan(cfg, s, k, text, acl) ::
              (w.PutDoc? ==> w.doc == Identity(s.docs, k) && w.key == k)
              && (w.SetChecksum? ==> w == SetChecksum(k, Sha256(text)))
    ensures forall w | w in Body(cfg, s, k, text, acl) :: !w.SetChecksum?
  {
    LinksOnlyLink(cfg, Identity(s.docs, k), cfg.chunker(k.path, text), k.workspace, acl);
  }

  /** The document URI chosen for any key is the same before, during and after an ingestion. */
  lemma CutKeepsIdentity(cfg: Config, s: Stores, k: Key, text: string, acl: seq<string>, m: nat, j: Key)
    requires m <= |Plan(cfg, s, k, text, acl)|
    ensures SameLegacy(s.docs, Run(s, Plan(cfg, s, k, text, acl)[..m]).docs)
    ensures Identity(Run(s, Plan(cfg, s, k, text, acl)[..m]).docs, j) == Identity(s.docs, j)
  {
    PlanShape(cfg, s, k, text, acl);
    RunOnDocs(s, Plan(cfg, s, k, text, acl)[..m], Identity(s.docs, k), k);
  }

  /** The checksum is written last: a cut plan leaves every checksum alone, the whole plan sets one. */
  lemma CutOnChecksums(cfg: Config, s: Stores, k: Key, text: string, acl: seq<string>, m: nat)
    requires m <= |Plan(cfg, s, k, text, acl)|
    ensures Run(s, Plan(cfg, s, k, text, acl)[..m]).checksums ==
            if m < |Plan(cfg, s, k, text, acl)| then s.checksums else s.checksums[k := Sha256(text)]
  {
    hide Run, Body;
    var plan, body := Plan(cfg, s, k, text, acl), Body(cfg, s, k, text, acl);
    PlanShape(cfg, s, k, text, acl);
    var cut := if m < |plan| then plan[..m] else body;
    assert forall w | w in cut :: w in body;
    forall j: Key ensures (j in Run(s, cut).checksums <==> j in s.checksums)
        && (j in s.checksums ==> Run(s, cut).checksums[j] == s.checksums[j]) {
      RunOnChecksum(s, cut, j);
    }
    assert Run(s, cut).checksums == s.checksums;
    if m == |plan| {
      assert plan[..m] == body + [SetChecksum(k, Sha256(text))];
      RunSnoc(s, body, SetChecksum(k, Sha256(text)));
      assert plan[..m] == plan;
    }
  }

  // ---------------------------------------------------------------- crashes and retries

  /** The same text already ingested: the request is skipped. */
  predicate Skips(s: Stores, k: Key, text: string) {
    k in s.checksums && s.checksums[k] == Sha256(text)
  }

  /** One ingestion of `text` per entry of `cuts`, each stopped before its checksum is written. */
  function Attempts(cfg: Config, s: Stores, k: Key, text: string, acl: seq<string>, cuts: seq<nat>): Stores {
    if cuts == [] then s
    else
      var before := Attempts(cfg, s, k, text, acl, cuts[..|cuts| - 1]);
      var body := Body(cfg, before, k, text, acl);
      var cut := cuts[|cuts| - 1];
      Run(before, body[..if cut < |body| then cut else |body|])
  }

  lemma {:induction false} AttemptsKeep(cfg: Config, s: Stores, k: Key, text: string, acl: seq<string>, cuts: seq<nat>)
    requires ValidConfig(cfg) && WellKeyed(s)
    requires Recoverable(s, Identity(s.docs, k), k.workspace, |cfg.chunker(k.path, text)|)
    ensures var a := Attempts(cfg, s, k, text, acl, cuts);
            && WellKeyed(a) && a.checksums == s.checksums && Identity(a.docs, k) == Identity(s.docs, k)
            && Recoverable(a, Identity(s.docs, k), k.workspace, |cfg.chunker(k.path, text)|)
            && forall id: ChunkId | id.doc != Identity(s.docs, k) :: CellOf(a, id) == CellOf(s, id)
  {
    hide Run, Body, Recoverable, WellKeyed, Identity, CellOf;
    if cuts != [] {
      AttemptsKeep(cfg, s, k, text, acl, cuts[..|cuts| - 1]);
      var before := Attempts(cfg, s, k, text, acl, cuts[..|cuts| - 1]);
      var body := Body(cfg, before, k, text, acl);
      var cut := cuts[|cuts| - 1];
      var m := if cut < |body| then cut else |body|;
      assert Plan(cfg, before, k, text, acl)[..m] == body[..m];
      CutKeepsRecoverable(cfg, before, k, text, acl, m);
      CutKeepsIdentity(cfg, before, k, text, acl, m, k);
      CutOnChecksums(cfg, before, k, text, acl, m);
      RunKeepsWellKeyed(before, body[..m]);
      forall id: ChunkId | id.doc != Identity(s.docs, k)
        ensures CellOf(Run(before, body[..m]), id) == CellOf(before, id) {
        CutSparesOthers(cfg, before, k, text, acl, m, id);
      }
    }
  }

  /** Crash recovery: a document in agreement, or not yet stored, is re-ingested with a new text
      and the process stops after any write, any number of times. Ingesting that text again is
      not skipped, ends in agreement on it, and no other document's chunk has changed. */
  lemma CrashRecovery(cfg: Config, s: Stores, k: Key, earlier: string, text: string, acl: seq<string>, cuts: seq<nat>)
    requires ValidConfig(cfg) && WellKeyed(s) && !Skips(s, k, text)
    requires Agrees(cfg, s, Identity(s.docs, k), k, earlier) || Vacant(s, Identity(s.docs, k))
    ensures var broken := Attempts(cfg, s, k, text, acl, cuts);
            var plan := Plan(cfg, broken, k, text, acl);
            var healed := Run(broken, plan);
            && !Skips(broken, k, text)
            && Agrees(cfg, healed, Identity(s.docs, k), k, text) && Skips(healed, k, text)
            && Identity(healed.docs, k) == Identity(s.docs, k)
            && forall id: ChunkId | id.doc != Identity(s.docs, k) :: CellOf(healed, id) == CellOf(s, id)
  {
    hide Run, Plan, Recoverable, WellKeyed, Identity, CellOf, Attempts, Agrees;
    AgreesIsRecoverable(cfg, s, Identity(s.docs, k), k, earlier, |cfg.chunker(k.path, text)|);
    AttemptsKeep(cfg, s, k, text, acl, cuts);
    var broken := Attempts(cfg, s, k, text, acl, cuts);
    var plan := Plan(cfg, broken, k, text, acl);
    assert plan[..|plan|] == plan;
    PlanAgreesIff(cfg, broken, k, text, acl);
    CutKeepsIdentity(cfg, broken, k, text, acl, |plan|, k);
    CutOnChecksums(cfg, broken, k, text, acl, |plan|);
    forall id: ChunkId | id.doc != Identity(s.docs, k)
      ensures CellOf(Run(broken, plan), id) == CellOf(broken, id) {
      CutSparesOthers(cfg, broken, k, text, acl, |plan|, id);
    }
  }
}
