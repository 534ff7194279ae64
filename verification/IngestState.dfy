/**
 The three stores that ingestion writes (metadata, vector, graph), each single write as a
 value, and what a sequence of writes does to one chunk.
 */
module IngestState {
  import opened Uris
  import Graph

  /** A document is keyed by its workspace and source path. */
  datatype Key = Key(workspace: string, path: string)

  /** The content digest; equal digests mean equal texts. */
  datatype Digest = Sha256(text: string)

  datatype DocRecord = DocRecord(workspace: string, path: string)
  datatype ChunkRecord = ChunkRecord(doc: DocId, text: string, workspace: string)
  datatype Passage = Passage(text: string, workspace: string)

  /** Metadata `docs`, `chunks`, `checksums`; vector `passages`; and the graph. */
  datatype Stores = Stores(
    docs: map<DocId, DocRecord>,
    chunks: map<ChunkId, ChunkRecord>,
    checksums: map<Key, Digest>,
    passages: map<ChunkId, Passage>,
    graph: Graph.State)

  /** The writes of one document's ingestion, one per store call (per chunk for the vector batch calls). */
  datatype Write =
    | PutDoc(doc: DocId, key: Key)
    | PutPassage(id: ChunkId, text: string, ws: string)
    | PutChunk(id: ChunkId, text: string, ws: string)
    | LinkMentions(id: ChunkId, entities: seq<string>, ws: string, acl: seq<string>)
    | LinkRelations(relations: seq<(string, Graph.Rel, string)>, ws: string, acl: seq<string>)
    | DropPassage(id: ChunkId, ws: string)
    | DropNodes(ids: seq<ChunkId>, ws: string)
    | DropChunk(id: ChunkId)
    | SetChecksum(key: Key, digest: Digest)

  function EntityUris(names: seq<string>): seq<Uri> {
    seq(|names|, i requires 0 <= i < |names| => Entity(names[i]))
  }

  function EntityRelations(rs: seq<(string, Graph.Rel, string)>): seq<Graph.Relation> {
    seq(|rs|, i requires 0 <= i < |rs| => Graph.Relation(Entity(rs[i].0), rs[i].1, Entity(rs[i].2)))
  }

  function ChunkUris(ids: seq<ChunkId>): seq<Uri> {
    seq(|ids|, i requires 0 <= i < |ids| => Chunk(ids[i]))
  }

  /** The vector store's filter with only a workspace in it; the empty workspace matches all. */
  predicate PassageMatches(p: Passage, ws: string) {
    ws == "" || p.workspace == ws
  }

  function Apply(s: Stores, w: Write): Stores {
    match w
    case PutDoc(d, k) => s.(docs := s.docs[d := DocRecord(k.workspace, k.path)])
    case PutPassage(id, text, ws) => s.(passages := s.passages[id := Passage(text, ws)])
    case PutChunk(id, text, ws) => s.(chunks := s.chunks[id := ChunkRecord(id.doc, text, ws)])
    case LinkMentions(id, entities, ws, acl) =>
      s.(graph := Graph.UpsertMentions(s.graph, Doc(id.doc), Chunk(id), EntityUris(entities), ws, acl))
    case LinkRelations(rs, ws, acl) =>
      s.(graph := Graph.UpsertRelations(s.graph, EntityRelations(rs), ws, acl))
    case DropPassage(id, ws) =>
      if id in s.passages && PassageMatches(s.passages[id], ws) then s.(passages := s.passages - {id}) else s
    case DropNodes(ids, ws) => s.(graph := Graph.DeleteNodes(s.graph, ChunkUris(ids), ws))
    case DropChunk(id) => s.(chunks := s.chunks - {id})
    case SetChecksum(k, digest) => s.(checksums := s.checksums[k := digest])
  }

  function Run(s: Stores, ws: seq<Write>): Stores {
    if ws == [] then s else Apply(Run(s, ws[..|ws| - 1]), ws[|ws| - 1])
  }

  lemma RunSnoc(s: Stores, ws: seq<Write>, w: Write)
    ensures Run(s, ws + [w]) == Apply(Run(s, ws), w)
  {
    assert (ws + [w])[..|ws|] == ws;
  }

  lemma {:induction false} RunConcat(s: Stores, a: seq<Write>, b: seq<Write>)
    ensures Run(s, a + b) == Run(Run(s, a), b)
  {
    if b == [] {
      assert a + b == a;
    } else {
      RunConcat(s, a, b[..|b| - 1]);
      assert (a + b)[..|a + b| - 1] == a + b[..|b| - 1];
    }
  }

  lemma RunEmpty(s: Stores)
    ensures Run(s, []) == s
  {}

  // ---------------------------------------------------------------- one chunk across the stores

  /** What the three stores hold for one chunk: its metadata record, its vector item, and the
      workspace of its graph node. */
  datatype Cell = Cell(chunk: Option<ChunkRecord>, passage: Option<Passage>, node: Option<string>)

  const ABSENT := Cell(None, None, None)

  function CellOf(s: Stores, id: ChunkId): Cell {
    Cell(if id in s.chunks then Some(s.chunks[id]) else None,
         if id in s.passages then Some(s.passages[id]) else None,
         if Chunk(id) in s.graph.nodes then Some(s.graph.nodes[Chunk(id)].workspace) else None)
  }

  predicate Touches(w: Write, id: ChunkId) {
    match w
    case PutPassage(i, _, _) => i == id
    case PutChunk(i, _, _) => i == id
    case LinkMentions(i, _, _, _) => i == id
    case DropPassage(i, _) => i == id
    case DropNodes(ids, _) => id in ids
    case DropChunk(i) => i == id
    case _ => false
  }

  function CellApply(c: Cell, w: Write): Cell {
    match w
    case PutPassage(id, text, ws) => c.(passage := Some(Passage(text, ws)))
    case PutChunk(id, text, ws) => c.(chunk := Some(ChunkRecord(id.doc, text, ws)))
    case LinkMentions(_, _, ws, _) => c.(node := Some(ws))
    case DropPassage(_, ws) =>
      if c.passage.Some? && PassageMatches(c.passage.value, ws) then c.(passage := None) else c
    case DropNodes(_, ws) => if c.node == Some(ws) then c.(node := None) else c
    case DropChunk(_) => c.(chunk := None)
    case _ => c
  }

  function CellRun(c: Cell, ws: seq<Write>): Cell {
    if ws == [] then c else CellApply(CellRun(c, ws[..|ws| - 1]), ws[|ws| - 1])
  }

  /** The writes of a sequence that concern one chunk, in order. */
  function Relevant(ws: seq<Write>, id: ChunkId): seq<Write> {
    if ws == [] then []
    else Relevant(ws[..|ws| - 1], id) + (if Touches(ws[|ws| - 1], id) then [ws[|ws| - 1]] else [])
  }

  lemma MentionsOnCell(g: Graph.State, i: ChunkId, entities: seq<string>, ws: string, acl: seq<string>, id: ChunkId)
    ensures var h := Graph.UpsertMentions(g, Doc(i.doc), Chunk(i), EntityUris(entities), ws, acl);
            && (Chunk(id) in h.nodes <==> Chunk(id) in g.nodes || id == i)
            && (Chunk(id) in h.nodes ==> h.nodes[Chunk(id)].workspace == if id == i then ws else g.nodes[Chunk(id)].workspace)
  {
    hide Graph.TouchAll, Graph.MentionTargets;
    var es := EntityUris(entities);
    Graph.MentionTargetsContents(Doc(i.doc), Chunk(i), es, Chunk(id));
    Graph.TouchAllEffect(g.nodes, Graph.MentionTargets(Doc(i.doc), Chunk(i), es), ws, acl, Chunk(id));
  }

  lemma RelationsOnCell(g: Graph.State, rs: seq<(string, Graph.Rel, string)>, ws: string, acl: seq<string>, id: ChunkId)
    ensures var h := Graph.UpsertRelations(g, EntityRelations(rs), ws, acl);
            && (Chunk(id) in h.nodes <==> Chunk(id) in g.nodes)
            && (Chunk(id) in h.nodes ==> h.nodes[Chunk(id)] == g.nodes[Chunk(id)])
  {
    hide Graph.TouchAll, Graph.RelationTargets;
    var rels := EntityRelations(rs);
    Graph.RelationContents(rels);
    Graph.TouchAllEffect(g.nodes, Graph.RelationTargets(rels), ws, acl, Chunk(id));
    if k :| (Chunk(id), k) in Graph.RelationTargets(rels) {
      var r :| r in rels && (Chunk(id) == r.src || Chunk(id) == r.dst);
      assert false;
    }
  }

  lemma DeleteOnCell(g: Graph.State, ids: seq<ChunkId>, ws: string, id: ChunkId)
    ensures var h := Graph.DeleteNodes(g, ChunkUris(ids), ws);
            && (Chunk(id) in h.nodes <==> Chunk(id) in g.nodes && !(id in ids && g.nodes[Chunk(id)].workspace == ws))
            && (Chunk(id) in h.nodes ==> h.nodes[Chunk(id)] == g.nodes[Chunk(id)])
  {
    if id in ids {
      var j :| 0 <= j < |ids| && ids[j] == id;
      assert ChunkUris(ids)[j] == Chunk(id);
    }
  }

  lemma ApplyOnCell(s: Stores, w: Write, id: ChunkId)
    ensures CellOf(Apply(s, w), id) == if Touches(w, id) then CellApply(CellOf(s, id), w) else CellOf(s, id)
  {
    if w.LinkMentions? || w.LinkRelations? || w.DropNodes? {
      GraphWriteOnCell(s, w, id);
    } else {
      MapWriteOnCell(s, w, id);
    }
  }

  lemma GraphWriteOnCell(s: Stores, w: Write, id: ChunkId)
    requires w.LinkMentions? || w.LinkRelations? || w.DropNodes?
    ensures CellOf(Apply(s, w), id) == if Touches(w, id) then CellApply(CellOf(s, id), w) else CellOf(s, id)
  {
    hide Graph.UpsertMentions, Graph.UpsertRelations, Graph.DeleteNodes, EntityUris, EntityRelations, ChunkUris;
    match w
    case LinkMentions(i, entities, ws, acl) => MentionsOnCell(s.graph, i, entities, ws, acl, id);
    case LinkRelations(rs, ws, acl) => RelationsOnCell(s.graph, rs, ws, acl, id);
    case DropNodes(ids, ws) => DeleteOnCell(s.graph, ids, ws, id);
  }

  lemma MapWriteOnCell(s: Stores, w: Write, id: ChunkId)
    requires !w.LinkMentions? && !w.LinkRelations? && !w.DropNodes?
    ensures CellOf(Apply(s, w), id) == if Touches(w, id) then CellApply(CellOf(s, id), w) else CellOf(s, id)
  {
    hide PassageMatches, Graph.UpsertMentions, Graph.UpsertRelations, Graph.DeleteNodes, EntityUris, EntityRelations, ChunkUris;
  }

  /** The stores seen through one chunk: only the writes that concern it count. This holds for
      every sequence of writes, hence for every interleaving of several ingestions. */
  lemma {:induction false} RunOnCell(s: Stores, ws: seq<Write>, id: ChunkId)
    ensures CellOf(Run(s, ws), id) == CellRun(CellOf(s, id), Relevant(ws, id))
  {
    if ws != [] {
      var front, last := ws[..|ws| - 1], ws[|ws| - 1];
      RunOnCell(s, front, id);
      ApplyOnCell(Run(s, front), last, id);
      assert (Relevant(front, id) + [last])[..|Relevant(front, id)|] == Relevant(front, id);
      assert Relevant(front, id) + [] == Relevant(front, id);
    }
  }

  lemma {:induction false} RelevantConcat(a: seq<Write>, b: seq<Write>, id: ChunkId)
    ensures Relevant(a + b, id) == Relevant(a, id) + Relevant(b, id)
  {
    if b == [] {
      assert a + b == a;
    } else {
      RelevantConcat(a, b[..|b| - 1], id);
      assert (a + b)[..|a + b| - 1] == a + b[..|b| - 1];
    }
  }

  lemma RelevantSnoc(ws: seq<Write>, w: Write, id: ChunkId)
    ensures Relevant(ws + [w], id) == Relevant(ws, id) + (if Touches(w, id) then [w] else [])
  {
    assert (ws + [w])[..|ws|] == ws;
  }

  lemma {:induction false} RelevantNone(ws: seq<Write>, id: ChunkId)
    requires forall i | 0 <= i < |ws| :: !Touches(ws[i], id)
    ensures Relevant(ws, id) == []
  {
    if ws != [] { RelevantNone(ws[..|ws| - 1], id); }
  }

  lemma {:induction false} RelevantOne(ws: seq<Write>, id: ChunkId, k: nat)
    requires k < |ws|
    requires forall i | 0 <= i < |ws| :: Touches(ws[i], id) <==> i == k
    ensures Relevant(ws, id) == [ws[k]]
  {
    if k == |ws| - 1 {
      RelevantNone(ws[..k], id);
    } else {
      RelevantOne(ws[..|ws| - 1], id, k);
    }
  }

  lemma {:induction false} RelevantEmpty(ws: seq<Write>, id: ChunkId, w: Write)
    requires Relevant(ws, id) == [] && w in ws
    ensures !Touches(w, id)
  {
    assert ws == ws[..|ws| - 1] + [ws[|ws| - 1]];
    if w != ws[|ws| - 1] { RelevantEmpty(ws[..|ws| - 1], id, w); }
  }

  lemma RelevantPrefix(ws: seq<Write>, k: nat, id: ChunkId)
    requires k <= |ws|
    ensures Relevant(ws[..k], id) <= Relevant(ws, id)
  {
    RelevantConcat(ws[..k], ws[k..], id);
    assert ws[..k] + ws[k..] == ws;
  }

  // ---------------------------------------------------------------- the other fields

  lemma ApplyOnChecksum(s: Stores, w: Write, k: Key)
    requires !(w.SetChecksum? && w.key == k)
    ensures k in Apply(s, w).checksums <==> k in s.checksums
    ensures k in s.checksums ==> Apply(s, w).checksums[k] == s.checksums[k]
  {
    hide Graph.UpsertMentions, Graph.UpsertRelations, Graph.DeleteNodes, EntityUris, EntityRelations, ChunkUris;
  }

  lemma {:induction false} RunOnChecksum(s: Stores, ws: seq<Write>, k: Key)
    requires forall w | w in ws :: !(w.SetChecksum? && w.key == k)
    ensures k in Run(s, ws).checksums <==> k in s.checksums
    ensures k in s.checksums ==> Run(s, ws).checksums[k] == s.checksums[k]
  {
    hide Apply;
    if ws != [] {
      assert ws == ws[..|ws| - 1] + [ws[|ws| - 1]];
      RunOnChecksum(s, ws[..|ws| - 1], k);
      ApplyOnChecksum(Run(s, ws[..|ws| - 1]), ws[|ws| - 1], k);
    }
  }
}
