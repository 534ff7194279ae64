/** The ingestion pipeline over its three stores, writing them in place. */
module Ingestion {
  import opened Uris
  import opened IngestState
  import opened IngestPlan
  import opened IngestCall
  import opened StoreClasses
  import opened GraphStore
  import Graph

  lemma {:induction false} RunPassages(s: Stores, d: DocId, texts: seq<string>, ws: string)
    ensures Run(s, Passages(d, texts, ws)) == s.(passages := PassagesPut(s.passages, d, texts, ws))
  {
    var plan := Passages(d, texts, ws);
    if texts != [] {
      var i := |texts| - 1;
      assert plan[..i] == Passages(d, texts[..i], ws);
      RunPassages(s, d, texts[..i], ws);
    }
  }

  lemma {:induction false} RunPassageDrops(s: Stores, ids: seq<ChunkId>, ws: string)
    ensures Run(s, PassageDrops(ids, ws)) == s.(passages := PassagesDropped(s.passages, ids, ws))
  {
    var plan := PassageDrops(ids, ws);
    if ids != [] {
      var i := |ids| - 1;
      assert plan[..i] == PassageDrops(ids[..i], ws);
      RunPassageDrops(s, ids[..i], ws);
    }
  }

  /** The write log with one more write, and what the stores are by then. */
  ghost function Logged(start: Stores, done: seq<Write>, w: Write): (all: seq<Write>)
    ensures all == done + [w] && Run(start, all) == Apply(Run(start, done), w)
  {
    RunSnoc(start, done, w);
    done + [w]
  }

  lemma ChunkDropsSteps(stale: seq<ChunkId>)
    ensures ChunkDrops(stale[..0]) == []
    ensures forall i | 0 <= i < |stale| :: ChunkDrops(stale[..i + 1]) == ChunkDrops(stale[..i]) + [DropChunk(stale[i])]
  {}

  lemma BodyAssembles(cfg: Config, s: Stores, k: Key, text: string, acl: seq<string>, oldChunks: set<ChunkId>)
    requires oldChunks == set id | id in s.chunks && s.chunks[id].doc == Identity(s.docs, k)
    ensures var d := Identity(s.docs, k);
            var texts := cfg.chunker(k.path, text);
            var stale := cfg.listed(set id | id in oldChunks && !(id.doc == d && id.index < |texts|));
            Body(cfg, s, k, text, acl) ==
              [] + [PutDoc(d, k)] + Passages(d, texts, k.workspace) + Links(cfg, d, texts, k.workspace, acl)
                + (if stale == [] then [] else Drops(stale, k.workspace))
  {
    var d := Identity(s.docs, k);
    var n := |cfg.chunker(k.path, text)|;
    assert (set id | id in oldChunks && !(id.doc == d && id.index < n)) == Stale(s.chunks, d, n);
  }

  class IngestionPipeline {
    const cfg: Config
    const metadata: MetadataStore
    const vector: InMemoryVectorStore
    const graph: InMemoryGraphStore
    var busy: set<string>
    /** Every store write made so far, in order. */
    ghost var history: seq<Write>

    constructor (cfg: Config, metadata: MetadataStore, vector: InMemoryVectorStore, graph: InMemoryGraphStore)
      ensures this.cfg == cfg && this.metadata == metadata && this.vector == vector && this.graph == graph
      ensures busy == {} && history == []
    {
      this.cfg, this.metadata, this.vector, this.graph := cfg, metadata, vector, graph;
      busy, history := {}, [];
    }

    function Value(): Stores
      reads metadata, vector, graph
    {
      Stores(metadata.docs, metadata.chunks, metadata.checksums, vector.passages, graph.Value())
    }

    /** Under the path-only id if that document is this workspace's, else under the scoped id. */
    method ChooseDocIdentity(k: Key) returns (d: DocId)
      ensures d == Identity(metadata.docs, k)
      ensures d == if Legacy(k.path) in metadata.docs && metadata.docs[Legacy(k.path)].workspace == k.workspace
                   then Legacy(k.path) else Scoped(k.workspace + ":" + k.path)
    {
      var legacy := Legacy(k.path);
      if legacy in metadata.docs && metadata.docs[legacy].workspace == k.workspace {
        return legacy;
      }
      return Scoped(k.workspace + ":" + k.path);
    }

    /** Ingests one document that is neither skipped nor only counted: the stores go through
        exactly the writes of its plan, in that order. */
    method IngestDocument(k: Key, text: string, acl: seq<string>)
      modifies this`history, metadata, vector, graph
      ensures history == old(history) + Plan(cfg, old(Value()), k, text, acl)
      ensures Value() == Run(old(Value()), Plan(cfg, old(Value()), k, text, acl))
    {
      hide Run, Graph.UpsertMentions, Graph.UpsertRelations, Graph.DeleteNodes, Links, Drops, Passages, Body;
      ghost var start := Value();
      RunEmpty(start);
      var d := ChooseDocIdentity(k);
      metadata.PutDoc(d, k);
      ghost var done := Logged(start, [], PutDoc(d, k));
      var oldChunks := metadata.ListChunksByDoc(d);
      var texts := cfg.chunker(k.path, text);

      vector.UpsertChunks(d, texts, k.workspace);
      RunPassages(Run(start, done), d, texts, k.workspace);
      RunConcat(start, done, Passages(d, texts, k.workspace));
      done := done + Passages(d, texts, k.workspace);

      done := LinkChunks(k, d, texts, acl, start, done);
      var stale := cfg.listed(set id | id in oldChunks && !(id.doc == d && id.index < |texts|));
      if stale != [] {
        done := DropStale(k, stale, start, done);
      }
      BodyAssembles(cfg, start, k, text, acl, oldChunks);
      assert done == Body(cfg, start, k, text, acl);
      assert Value() == Run(start, done);
      metadata.SetChecksum(k, Sha256(text));
      done := Logged(start, done, SetChecksum(k, Sha256(text)));
      assert done == Plan(cfg, start, k, text, acl);
      history := history + done;
    }

    /** The loop over the prepared chunks: metadata, then the graph. */
    method LinkChunks(k: Key, d: DocId, texts: seq<string>, acl: seq<string>, ghost start: Stores, ghost before: seq<Write>)
      returns (ghost done: seq<Write>)
      requires Value() == Run(start, before)
      modifies metadata`chunks, graph
      ensures done == before + Links(cfg, d, texts, k.workspace, acl)
      ensures Value() == Run(start, done)
    {
      hide Run, Graph.UpsertMentions, Graph.UpsertRelations;
      done := before;
      for i := 0 to |texts|
        invariant done == before + Links(cfg, d, texts[..i], k.workspace, acl)
        invariant Value() == Run(start, done)
      {
        var t := texts[i];
        metadata.PutChunk(ChunkId(d, i), t, k.workspace);
        done := Logged(start, done, PutChunk(ChunkId(d, i), t, k.workspace));
        graph.UpsertMentions(Doc(d), Chunk(ChunkId(d, i)), EntityUris(cfg.entities(t)), k.workspace, acl);
        done := Logged(start, done, LinkMentions(ChunkId(d, i), cfg.entities(t), k.workspace, acl));
        graph.UpsertEntityRelations(EntityRelations(cfg.relations(t)), k.workspace, acl);
        done := Logged(start, done, LinkRelations(cfg.relations(t), k.workspace, acl));
        assert texts[..i + 1][..i] == texts[..i];
      }
      assert texts[..|texts|] == texts;
    }

    /** The clean-up of stale chunks: vector store, graph, then metadata. */
    method DropStale(k: Key, stale: seq<ChunkId>, ghost start: Stores, ghost before: seq<Write>)
      returns (ghost done: seq<Write>)
      requires stale != [] && Value() == Run(start, before)
      modifies metadata`chunks, vector`passages, graph
      ensures done == before + Drops(stale, k.workspace)
      ensures Value() == Run(start, done)
    {
      hide Run, Graph.DeleteNodes, PassageDrops, ChunkDrops, PassagesDropped;
      var ws := k.workspace;
      var _ := vector.DeleteChunks(stale, ws);
      RunPassageDrops(Run(start, before), stale, ws);
      RunConcat(start, before, PassageDrops(stale, ws));
      done := before + PassageDrops(stale, ws);
      var _ := graph.DeleteNodes(ChunkUris(stale), ws);
      done := Logged(start, done, DropNodes(stale, ws));
      done := DropRecords(stale, start, done);
    }

    method DropRecords(stale: seq<ChunkId>, ghost start: Stores, ghost before: seq<Write>) returns (ghost done: seq<Write>)
      requires Value() == Run(start, before)
      modifies metadata`chunks
      ensures done == before + ChunkDrops(stale)
      ensures Value() == Run(start, done)
    {
      hide Run, ChunkDrops;
      done := before;
      ChunkDropsSteps(stale);
      for i := 0 to |stale|
        invariant done == before + ChunkDrops(stale[..i])
        invariant Value() == Run(start, done)
      {
        var _ := metadata.DeleteChunk(stale[i]);
        done := Logged(start, done, DropChunk(stale[i]));
      }
      assert stale[..|stale|] == stale;
    }

    /** A whole call. It is refused while another one holds the workspace's lock. */
    method IngestFilesystem(ws: string, acl: seq<string>, docs: seq<Document>, dryRun: bool) returns (counts: Option<Counts>)
      modifies this`history, this`busy, metadata, vector, graph
      ensures busy == old(busy)
      ensures ws in old(busy) ==> counts == None && history == old(history) && Value() == old(Value())
      ensures ws !in old(busy) ==>
                var writes := CallWrites(cfg, old(Value()), ws, acl, docs, dryRun);
                && counts == Some(CallCounts(cfg, old(Value()), ws, acl, docs, dryRun))
                && history == old(history) + writes
                && Value() == Run(old(Value()), writes)
    {
      hide Run, CallWrites, CallCounts;
      if ws in busy {
        return None;
      }
      busy := busy + {ws};
      var c := IngestAll(ws, acl, docs, dryRun);
      busy := busy - {ws};
      counts := Some(c);
    }

    /** The loop over the documents, under the workspace's lock. */
    method IngestAll(ws: string, acl: seq<string>, docs: seq<Document>, dryRun: bool) returns (c: Counts)
      modifies this`history, metadata, vector, graph
      ensures var writes := CallWrites(cfg, old(Value()), ws, acl, docs, dryRun);
              && c == CallCounts(cfg, old(Value()), ws, acl, docs, dryRun)
              && history == old(history) + writes
              && Value() == Run(old(Value()), writes)
    {
      hide Run, CallWrites, CallCounts, WritesOf, Judge, Tally;
      ghost var start := Value();
      c := Counts(0, 0, 0);
      CallStarts(cfg, start, ws, acl, docs, dryRun);
      for i := 0 to |docs|
        invariant c == CallCounts(cfg, start, ws, acl, docs[..i], dryRun)
        invariant history == old(history) + CallWrites(cfg, start, ws, acl, docs[..i], dryRun)
        invariant Value() == Run(start, CallWrites(cfg, start, ws, acl, docs[..i], dryRun))
      {
        CallGoesOn(cfg, start, ws, acl, docs, dryRun, i);
        c := TakeDocument(ws, acl, docs[i], dryRun, c);
      }
      assert docs[..|docs|] == docs;
    }

    /** One round of the call: the document is skipped, counted, or ingested and counted. */
    method TakeDocument(ws: string, acl: seq<string>, doc: Document, dryRun: bool, before: Counts) returns (after: Counts)
      modifies this`history, metadata, vector, graph
      ensures after == Tally(before, Judge(old(Value()), Key(ws, doc.path), doc.text))
      ensures var writes := WritesOf(cfg, old(Value()), ws, acl, doc, dryRun);
              history == old(history) + writes && Value() == Run(old(Value()), writes)
    {
      hide Run, Plan;
      RunEmpty(Value());
      var k := Key(ws, doc.path);
      after := before;
      if doc.path == "" || doc.text == "" {
        return after.(skipped := after.skipped + 1);
      }
      if k in metadata.checksums && metadata.checksums[k] == Sha256(doc.text) {
        return after.(skipped := after.skipped + 1);
      }
      var known := k in metadata.checksums;
      if !dryRun {
        IngestDocument(k, doc.text, acl);
      }
      if known {
        after := after.(updated := after.updated + 1);
      } else {
        after := after.(created := after.created + 1);
      }
    }
  }

  lemma CallStarts(cfg: Config, s: Stores, ws: string, acl: seq<string>, docs: seq<Document>, dryRun: bool)
    ensures CallWrites(cfg, s, ws, acl, docs[..0], dryRun) == [] && Run(s, []) == s
    ensures CallCounts(cfg, s, ws, acl, docs[..0], dryRun) == Counts(0, 0, 0)
  {}

  /** A call on one more document: its writes after those before it, and one more verdict. */
  lemma CallGoesOn(cfg: Config, s: Stores, ws: string, acl: seq<string>, docs: seq<Document>, dryRun: bool, i: nat)
    requires i < |docs|
    ensures var front := CallWrites(cfg, s, ws, acl, docs[..i], dryRun);
            var now := Run(s, front);
            var more := WritesOf(cfg, now, ws, acl, docs[i], dryRun);
            && CallWrites(cfg, s, ws, acl, docs[..i + 1], dryRun) == front + more
            && Run(s, front + more) == Run(now, more)
            && CallCounts(cfg, s, ws, acl, docs[..i + 1], dryRun)
               == Tally(CallCounts(cfg, s, ws, acl, docs[..i], dryRun), Judge(now, Key(ws, docs[i].path), docs[i].text))
  {
    hide Run, Plan, Judge;
    assert docs[..i + 1][..i] == docs[..i];
    var front := CallWrites(cfg, s, ws, acl, docs[..i], dryRun);
    RunConcat(s, front, WritesOf(cfg, Run(s, front), ws, acl, docs[i], dryRun));
  }
}
