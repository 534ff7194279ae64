/**
 What an ingestion leaves in the graph and in the document table, said outright: the edges of the
 chunks, their entities and their relations, the readers of the nodes, and the document's record.
 */
module IngestGraph {
  import opened Uris
  import opened IngestState
  import opened IngestPlan
  import G = Graph
  import opened GraphExact

  // ---------------------------------------------------------------- edges

  /** The edge belongs to chunk `i`: it contains the chunk, mentions one of the chunk's entities, leads
      from that entity back to the document, or is one of the chunk's relations. */
  ghost predicate EdgeOfChunk(cfg: Config, d: DocId, texts: seq<string>, i: nat, e: G.Edge)
    requires i < |texts|
  {
    || e == G.Edge(Doc(d), G.CONTAINS, Chunk(ChunkId(d, i)))
    || (exists n :: n in cfg.entities(texts[i]) && e == G.Edge(Chunk(ChunkId(d, i)), G.MENTIONS, Entity(n)))
    || (exists n :: n in cfg.entities(texts[i]) && e == G.Edge(Entity(n), G.DOCUMENTED_IN, Doc(d)))
    || (exists r :: r in cfg.relations(texts[i])
          && (r.1 == G.DEPENDS_ON || r.1 == G.CALLS || r.1 == G.OWNS || r.1 == G.IMPLEMENTS || r.1 == G.AFFECTS)
          && e == G.Edge(Entity(r.0), r.1, Entity(r.2)))
  }

  ghost predicate EdgeOfText(cfg: Config, d: DocId, texts: seq<string>, e: G.Edge) {
    exists i: nat :: i < |texts| && EdgeOfChunk(cfg, d, texts, i, e)
  }

  lemma MentionsOfChunk(doc: Uri, chunk: Uri, names: seq<string>)
    ensures forall e :: e in G.MentionEdges(doc, chunk, EntityUris(names)) <==>
              || e == G.Edge(doc, G.CONTAINS, chunk)
              || (exists n :: n in names && e == G.Edge(chunk, G.MENTIONS, Entity(n)))
              || (exists n :: n in names && e == G.Edge(Entity(n), G.DOCUMENTED_IN, doc))
  {
    var es := EntityUris(names);
    G.MentionEdgesContents(doc, chunk, es);
    forall u ensures u in es <==> exists n :: n in names && u == Entity(n) {
      if n :| n in names && u == Entity(n) {
        var i :| 0 <= i < |names| && names[i] == n;
        assert es[i] == u;
      }
    }
  }

  lemma RelationsOfChunk(rs: seq<(string, G.Rel, string)>)
    ensures forall e :: e in G.RelationEdges(EntityRelations(rs)) <==>
              exists r :: r in rs
                && (r.1 == G.DEPENDS_ON || r.1 == G.CALLS || r.1 == G.OWNS || r.1 == G.IMPLEMENTS || r.1 == G.AFFECTS)
                && e == G.Edge(Entity(r.0), r.1, Entity(r.2))
  {
    var all := EntityRelations(rs);
    RelationEdgesIff(all);
    forall r | r in rs ensures G.Relation(Entity(r.0), r.1, Entity(r.2)) in all {
      var i :| 0 <= i < |rs| && rs[i] == r;
      assert all[i] == G.Relation(Entity(r.0), r.1, Entity(r.2));
    }
    forall x | x in all ensures exists r :: r in rs && x == G.Relation(Entity(r.0), r.1, Entity(r.2)) {
      var i :| 0 <= i < |all| && all[i] == x;
      assert rs[i] in rs;
    }
  }

  /** The three writes of one chunk. */
  function ChunkWrites(cfg: Config, d: DocId, i: nat, t: string, ws: string, acl: seq<string>): seq<Write> {
    [PutChunk(ChunkId(d, i), t, ws), LinkMentions(ChunkId(d, i), cfg.entities(t), ws, acl), LinkRelations(cfg.relations(t), ws, acl)]
  }

  lemma ChunkWritesGraph(cfg: Config, s: Stores, d: DocId, i: nat, t: string, ws: string, acl: seq<string>)
    ensures Run(s, ChunkWrites(cfg, d, i, t, ws, acl)).graph ==
            G.UpsertRelations(
              G.UpsertMentions(s.graph, Doc(d), Chunk(ChunkId(d, i)), EntityUris(cfg.entities(t)), ws, acl),
              EntityRelations(cfg.relations(t)), ws, acl)
  {
    hide G.UpsertMentions, G.UpsertRelations, EntityUris, EntityRelations;
    var a, b, c := PutChunk(ChunkId(d, i), t, ws), LinkMentions(ChunkId(d, i), cfg.entities(t), ws, acl),
                   LinkRelations(cfg.relations(t), ws, acl);
    RunOne(s, a);
    RunSnoc(s, [a], b);
    RunSnoc(s, [a] + [b], c);
    assert [a] + [b] + [c] == ChunkWrites(cfg, d, i, t, ws, acl);
  }

  lemma LinksSnoc(cfg: Config, d: DocId, texts: seq<string>, ws: string, acl: seq<string>)
    requires texts != []
    ensures var i := |texts| - 1;
            Links(cfg, d, texts, ws, acl) == Links(cfg, d, texts[..i], ws, acl) + ChunkWrites(cfg, d, i, texts[i], ws, acl)
  {}

  lemma ChunkAdds(cfg: Config, s: Stores, d: DocId, texts: seq<string>, i: nat, ws: string, acl: seq<string>)
    requires i < |texts|
    ensures forall e :: e in Run(s, ChunkWrites(cfg, d, i, texts[i], ws, acl)).graph.edges
                        <==> e in s.graph.edges || EdgeOfChunk(cfg, d, texts, i, e)
  {
    hide Run, G.MentionEdges, G.RelationEdges, G.TouchAll, EntityUris, EntityRelations, G.MentionTargets, G.RelationTargets;
    ChunkWritesGraph(cfg, s, d, i, texts[i], ws, acl);
    MentionsOfChunk(Doc(d), Chunk(ChunkId(d, i)), cfg.entities(texts[i]));
    RelationsOfChunk(cfg.relations(texts[i]));
  }

  lemma EdgeOfFront(cfg: Config, d: DocId, texts: seq<string>, e: G.Edge)
    requires texts != []
    ensures EdgeOfText(cfg, d, texts, e) <==>
            EdgeOfText(cfg, d, texts[..|texts| - 1], e) || EdgeOfChunk(cfg, d, texts, |texts| - 1, e)
  {
    var front := texts[..|texts| - 1];
    assert forall i: nat | i < |front| :: EdgeOfChunk(cfg, d, front, i, e) <==> EdgeOfChunk(cfg, d, texts, i, e);
  }

  lemma {:induction false} LinksAdd(cfg: Config, s: Stores, d: DocId, texts: seq<string>, ws: string, acl: seq<string>)
    ensures forall e :: e in Run(s, Links(cfg, d, texts, ws, acl)).graph.edges
                        <==> e in s.graph.edges || EdgeOfText(cfg, d, texts, e)
  {
    hide Links, ChunkWrites, EdgeOfChunk, Apply;
    if texts == [] {
      NoLinks(cfg, s, d, ws, acl);
    } else {
      var i := |texts| - 1;
      LinksAdd(cfg, s, d, texts[..i], ws, acl);
      LinksSnoc(cfg, d, texts, ws, acl);
      RunConcat(s, Links(cfg, d, texts[..i], ws, acl), ChunkWrites(cfg, d, i, texts[i], ws, acl));
      ChunkAdds(cfg, Run(s, Links(cfg, d, texts[..i], ws, acl)), d, texts, i, ws, acl);
      forall e { EdgeOfFront(cfg, d, texts, e); }
    }
  }

  lemma NoLinks(cfg: Config, s: Stores, d: DocId, ws: string, acl: seq<string>)
    ensures Run(s, Links(cfg, d, [], ws, acl)) == s
  {}

  // ---------------------------------------------------------------- the whole ingestion

  predicate TouchesGraph(w: Write) {
    w.LinkMentions? || w.LinkRelations? || w.DropNodes?
  }

  lemma {:induction false} GraphUntouched(s: Stores, ws: seq<Write>)
    requires forall i | 0 <= i < |ws| :: !TouchesGraph(ws[i])
    ensures Run(s, ws).graph == s.graph
  {
    if ws != [] { GraphUntouched(s, ws[..|ws| - 1]); }
  }

  /** The graph after an ingestion: that of its links, less the stale chunks of the workspace. */
  lemma PlanGraph(cfg: Config, s: Stores, k: Key, text: string, acl: seq<string>)
    requires ValidConfig(cfg)
    ensures var d, texts := Identity(s.docs, k), cfg.chunker(k.path, text);
            var head := [PutDoc(d, k)] + Passages(d, texts, k.workspace);
            var stale := cfg.listed(Stale(s.chunks, d, |texts|));
            && Run(s, head).graph == s.graph
            && Run(s, Plan(cfg, s, k, text, acl)).graph
               == G.DeleteNodes(Run(Run(s, head), Links(cfg, d, texts, k.workspace, acl)).graph, ChunkUris(stale), k.workspace)
  {
    hide Links, G.DeleteNodes, Identity, Stale, ChunkUris, G.UpsertMentions, G.UpsertRelations;
    var d, texts, ws := Identity(s.docs, k), cfg.chunker(k.path, text), k.workspace;
    var head, links := [PutDoc(d, k)] + Passages(d, texts, ws), Links(cfg, d, texts, ws, acl);
    var stale := cfg.listed(Stale(s.chunks, d, |texts|));
    var drops, last := Drops(stale, ws), [SetChecksum(k, Sha256(text))];
    assert Plan(cfg, s, k, text, acl) == head + links + (drops + last);
    RunConcat(s, head + links, drops + last);
    RunConcat(s, head, links);
    GraphUntouched(s, head);
    DropsGraph(Run(Run(s, head), links), stale, ws, last);
  }

  lemma DropsGraph(s: Stores, stale: seq<ChunkId>, ws: string, last: seq<Write>)
    requires forall i | 0 <= i < |last| :: !TouchesGraph(last[i])
    ensures Run(s, Drops(stale, ws) + last).graph == G.DeleteNodes(s.graph, ChunkUris(stale), ws)
  {
    hide G.DeleteNodes, Run;
    if stale == [] {
      DeleteNothing(s.graph, ws);
      assert Drops(stale, ws) + last == last;
      GraphUntouched(s, last);
    } else {
      var a, c := PassageDrops(stale, ws), ChunkDrops(stale) + last;
      assert Drops(stale, ws) + last == a + ([DropNodes(stale, ws)] + c);
      RunConcat(s, a, [DropNodes(stale, ws)] + c);
      RunConcat(Run(s, a), [DropNodes(stale, ws)], c);
      GraphUntouched(s, a);
      RunOne(Run(s, a), DropNodes(stale, ws));
      GraphUntouched(Run(Run(s, a), [DropNodes(stale, ws)]), c);
    }
  }

  lemma RunOne(s: Stores, w: Write)
    ensures Run(s, [w]) == Apply(s, w)
  {
    assert [w][..0] == [];
  }

  lemma DeleteNothing(g: G.State, ws: string)
    ensures ChunkUris([]) == [] && G.DeleteNodes(g, [], ws) == g
  {
    G.EdgesAvoidingContents(g.edges, {});
    assert G.Victims(g, [], ws) == {} && g.nodes - {} == g.nodes;
  }

  /** A node that the clean-up takes: a stale chunk's, in the caller's workspace. */
  predicate Gone(cfg: Config, s: Stores, k: Key, text: string, u: Uri) {
    && u.Chunk? && u in s.graph.nodes && s.graph.nodes[u].workspace == k.workspace
    && u.chunk in s.chunks && s.chunks[u.chunk].doc == Identity(s.docs, k)
    && !(u.chunk.doc == Identity(s.docs, k) && u.chunk.index < |cfg.chunker(k.path, text)|)
  }

  lemma ChunkUrisMembers(ids: seq<ChunkId>, u: Uri)
    ensures u in ChunkUris(ids) <==> u.Chunk? && u.chunk in ids
  {
    if u.Chunk? && u.chunk in ids {
      var i :| 0 <= i < |ids| && ids[i] == u.chunk;
      assert ChunkUris(ids)[i] == u;
    }
  }

  /** What the clean-up takes is what it took of the stores before the links: links name no stale chunk. */
  lemma GoneIsStale(cfg: Config, s: Stores, k: Key, text: string, acl: seq<string>, u: Uri)
    requires ValidConfig(cfg)
    ensures var d, texts := Identity(s.docs, k), cfg.chunker(k.path, text);
            var g := Run(Run(s, [PutDoc(d, k)] + Passages(d, texts, k.workspace)), Links(cfg, d, texts, k.workspace, acl)).graph;
            Gone(cfg, s, k, text, u) <==>
              u in ChunkUris(cfg.listed(Stale(s.chunks, d, |texts|))) && u in g.nodes && g.nodes[u].workspace == k.workspace
  {
    hide Links, Run, Relevant, Identity, CellRun;
    var d, texts := Identity(s.docs, k), cfg.chunker(k.path, text);
    var stale := Stale(s.chunks, d, |texts|);
    assert Enumerates(cfg.listed(stale), stale);
    ChunkUrisMembers(cfg.listed(stale), u);
    if u.Chunk? && u.chunk in stale {
      StaleCellUntouched(cfg, s, k, texts, acl, u.chunk);
    }
  }

  lemma StaleCellUntouched(cfg: Config, s: Stores, k: Key, texts: seq<string>, acl: seq<string>, id: ChunkId)
    requires !(id.doc == Identity(s.docs, k) && id.index < |texts|)
    ensures var d := Identity(s.docs, k);
            CellOf(Run(Run(s, [PutDoc(d, k)] + Passages(d, texts, k.workspace)), Links(cfg, d, texts, k.workspace, acl)), id)
            == CellOf(s, id)
  {
    hide Links, Run, Relevant, Identity, CellOf, Passages;
    var d := Identity(s.docs, k);
    var head, links := [PutDoc(d, k)] + Passages(d, texts, k.workspace), Links(cfg, d, texts, k.workspace, acl);
    RelevantConcat([PutDoc(d, k)], Passages(d, texts, k.workspace), id);
    RelevantQuiet(PutDoc(d, k), id);
    RelevantPassages(d, texts, k.workspace, id);
    RelevantLinks(cfg, d, texts, k.workspace, acl, id);
    RunOnCell(s, head, id);
    RunOnCell(Run(s, head), links, id);
  }

  /** The edges after an ingestion: those of the chunks of its text, and those that were there and
      touch no node that the clean-up takes. */
  lemma IngestedEdges(cfg: Config, s: Stores, k: Key, text: string, acl: seq<string>)
    requires ValidConfig(cfg)
    ensures var d, texts := Identity(s.docs, k), cfg.chunker(k.path, text);
            forall e :: e in Run(s, Plan(cfg, s, k, text, acl)).graph.edges <==>
              || EdgeOfText(cfg, d, texts, e)
              || (e in s.graph.edges && !Gone(cfg, s, k, text, e.src) && !Gone(cfg, s, k, text, e.dst))
  {
    hide Links, Run, Plan, G.DeleteNodes, Identity, Stale, ChunkUris, EdgeOfChunk, Passages;
    var d, texts := Identity(s.docs, k), cfg.chunker(k.path, text);
    var head := [PutDoc(d, k)] + Passages(d, texts, k.workspace);
    var linked := Run(Run(s, head), Links(cfg, d, texts, k.workspace, acl)).graph;
    PlanGraph(cfg, s, k, text, acl);
    LinksAdd(cfg, Run(s, head), d, texts, k.workspace, acl);
    DeleteExact(linked, ChunkUris(cfg.listed(Stale(s.chunks, d, |texts|))), k.workspace);
    forall e
      ensures e in Run(s, Plan(cfg, s, k, text, acl)).graph.edges <==>
              || EdgeOfText(cfg, d, texts, e)
              || (e in s.graph.edges && !Gone(cfg, s, k, text, e.src) && !Gone(cfg, s, k, text, e.dst))
    {
      GoneIsStale(cfg, s, k, text, acl, e.src);
      GoneIsStale(cfg, s, k, text, acl, e.dst);
      if EdgeOfText(cfg, d, texts, e) { TextEdgesStay(cfg, s, k, text, e); }
    }
  }

  lemma TextEdgesStay(cfg: Config, s: Stores, k: Key, text: string, e: G.Edge)
    requires EdgeOfText(cfg, Identity(s.docs, k), cfg.chunker(k.path, text), e)
    ensures !Gone(cfg, s, k, text, e.src) && !Gone(cfg, s, k, text, e.dst)
  {
    hide Identity;
  }

  /** In particular the relations: each relation of known type that is found in a chunk is stored, as it
      stands, and every new edge of those types comes from one. */
  lemma IngestedRelations(cfg: Config, s: Stores, k: Key, text: string, acl: seq<string>)
    requires ValidConfig(cfg)
    ensures var edges, texts := Run(s, Plan(cfg, s, k, text, acl)).graph.edges, cfg.chunker(k.path, text);
            && (forall i: nat, r | i < |texts| && r in cfg.relations(texts[i])
                  && r.1 in {G.DEPENDS_ON, G.CALLS, G.OWNS, G.IMPLEMENTS, G.AFFECTS} :: G.Edge(Entity(r.0), r.1, Entity(r.2)) in edges)
            && (forall e | e in edges && e !in s.graph.edges && e.rel in {G.DEPENDS_ON, G.CALLS, G.OWNS, G.IMPLEMENTS, G.AFFECTS} ::
                  exists i: nat, r :: i < |texts| && r in cfg.relations(texts[i]) && e == G.Edge(Entity(r.0), r.1, Entity(r.2)))
  {
    hide Plan, Run, Gone, Identity;
    IngestedEdges(cfg, s, k, text, acl);
    var d, texts := Identity(s.docs, k), cfg.chunker(k.path, text);
    forall i: nat, r | i < |texts| && r in cfg.relations(texts[i]) && r.1 in {G.DEPENDS_ON, G.CALLS, G.OWNS, G.IMPLEMENTS, G.AFFECTS}
      ensures G.Edge(Entity(r.0), r.1, Entity(r.2)) in Run(s, Plan(cfg, s, k, text, acl)).graph.edges
    {
      assert EdgeOfChunk(cfg, d, texts, i, G.Edge(Entity(r.0), r.1, Entity(r.2)));
    }
  }

  // ---------------------------------------------------------------- nodes

  /** The text names the node: its document, one of its chunks, an entity of a chunk, or an end of a
      relation of known type found in a chunk. */
  ghost predicate NamedByChunk(cfg: Config, d: DocId, texts: seq<string>, i: nat, u: Uri)
    requires i < |texts|
  {
    || u == Doc(d) || u == Chunk(ChunkId(d, i))
    || (exists n :: n in cfg.entities(texts[i]) && u == Entity(n))
    || (exists r :: r in cfg.relations(texts[i])
          && (r.1 == G.DEPENDS_ON || r.1 == G.CALLS || r.1 == G.OWNS || r.1 == G.IMPLEMENTS || r.1 == G.AFFECTS)
          && (u == Entity(r.0) || u == Entity(r.2)))
  }

  ghost predicate NamedByText(cfg: Config, d: DocId, texts: seq<string>, u: Uri) {
    exists i: nat :: i < |texts| && NamedByChunk(cfg, d, texts, i, u)
  }

  function KindOf(u: Uri): G.Kind {
    if u.Doc? then G.DocumentNode else if u.Chunk? then G.ChunkNode else G.EntityNode
  }

  /** How a node may change: if it is named it is in the workspace, open to the list; whoever could read
      it still can, and beside them only the list's names; a new node is of the kind of its URI; and
      a node that is not named stays as it was. */
  ghost predicate Opened(before: G.Nodes, after: G.Nodes, ws: string, acl: seq<string>, named: bool, u: Uri) {
    && (named ==> u in after && after[u].workspace == ws && G.Permitted(acl) <= G.Permitted(after[u].acl))
    && (!named ==> (u in after <==> u in before) && (u in before ==> after[u] == before[u]))
    && (u in before ==>
          && u in after && after[u].kind == before[u].kind
          && G.Permitted(before[u].acl) <= G.Permitted(after[u].acl)
          && G.Stripped(after[u].acl) <= G.Stripped(before[u].acl) + G.Stripped(acl))
    && (u !in before && u in after ==>
          after[u].kind == KindOf(u) && G.Stripped(after[u].acl) <= G.Stripped(acl))
  }

  lemma OpenedTwice(a: G.Nodes, b: G.Nodes, c: G.Nodes, ws: string, acl: seq<string>, m: bool, n: bool, u: Uri)
    requires Opened(a, b, ws, acl, m, u) && Opened(b, c, ws, acl, n, u)
    ensures Opened(a, c, ws, acl, m || n, u)
  {
    hide G.Permitted, G.Stripped;
  }

  lemma TouchOpens(nodes: G.Nodes, targets: seq<(Uri, G.Kind)>, ws: string, acl: seq<string>, u: Uri)
    requires forall t | t in targets :: t.1 == KindOf(t.0)
    ensures Opened(nodes, G.TouchAll(nodes, targets, ws, acl), ws, acl, exists k :: (u, k) in targets, u)
  {
    hide G.TouchAll, G.Permitted, G.Stripped;
    G.TouchAllEffect(nodes, targets, ws, acl, u);
    if exists k :: (u, k) in targets {
      TouchAllReaders(nodes, targets, ws, acl, u);
    } else if u in nodes {
      assert G.Permitted(nodes[u].acl) <= G.Permitted(G.TouchAll(nodes, targets, ws, acl)[u].acl);
    }
  }

  lemma MentionsOpen(g: G.State, d: DocId, id: ChunkId, names: seq<string>, ws: string, acl: seq<string>, u: Uri)
    ensures Opened(g.nodes, G.UpsertMentions(g, Doc(d), Chunk(id), EntityUris(names), ws, acl).nodes, ws, acl,
                   u == Doc(d) || u == Chunk(id) || exists n :: n in names && u == Entity(n), u)
  {
    hide Opened, G.TouchAll;
    var es := EntityUris(names);
    var ts := G.MentionTargets(Doc(d), Chunk(id), es);
    G.MentionTargetsContents(Doc(d), Chunk(id), es, u);
    if n :| n in names && u == Entity(n) {
      var i :| 0 <= i < |names| && names[i] == n;
      assert es[i] == u;
    }
    assert (exists k :: (u, k) in ts) <==> u == Doc(d) || u == Chunk(id) || exists n :: n in names && u == Entity(n);
    TouchOpens(g.nodes, ts, ws, acl, u);
  }

  lemma RelationsOpen(g: G.State, rs: seq<(string, G.Rel, string)>, ws: string, acl: seq<string>, u: Uri)
    ensures Opened(g.nodes, G.UpsertRelations(g, EntityRelations(rs), ws, acl).nodes, ws, acl,
                   (exists r :: r in rs
                      && (r.1 == G.DEPENDS_ON || r.1 == G.CALLS || r.1 == G.OWNS || r.1 == G.IMPLEMENTS || r.1 == G.AFFECTS)
                      && (u == Entity(r.0) || u == Entity(r.2))), u)
  {
    hide Opened, G.TouchAll, G.RelationTargets;
    var all := EntityRelations(rs);
    var ts := G.RelationTargets(all);
    G.RelationContents(all);
    TargetsAreEntities(all);
    if r :| && r in rs
            && (r.1 == G.DEPENDS_ON || r.1 == G.CALLS || r.1 == G.OWNS || r.1 == G.IMPLEMENTS || r.1 == G.AFFECTS)
            && (u == Entity(r.0) || u == Entity(r.2)) {
      var i :| 0 <= i < |rs| && rs[i] == r;
      assert all[i] == G.Relation(Entity(r.0), r.1, Entity(r.2));
      G.RelationTargetsComplete(all, all[i]);
    }
    if k :| (u, k) in ts {
      var x :| x in all && G.StorableRelation(x) && (u == x.src || u == x.dst);
      var i :| 0 <= i < |all| && all[i] == x;
      assert rs[i] in rs;
    }
    TouchOpens(g.nodes, ts, ws, acl, u);
  }

  lemma {:induction false} TargetsAreEntities(rs: seq<G.Relation>)
    requires forall r | r in rs :: r.src.Entity? && r.dst.Entity?
    ensures forall t | t in G.RelationTargets(rs) :: t.0.Entity? && t.1 == G.EntityNode
  {
    if rs != [] {
      assert rs == rs[..|rs| - 1] + [rs[|rs| - 1]];
      TargetsAreEntities(rs[..|rs| - 1]);
    }
  }

  lemma ChunkOpens(cfg: Config, s: Stores, d: DocId, texts: seq<string>, i: nat, ws: string, acl: seq<string>, u: Uri)
    requires i < |texts|
    ensures Opened(s.graph.nodes, Run(s, ChunkWrites(cfg, d, i, texts[i], ws, acl)).graph.nodes, ws, acl,
                   NamedByChunk(cfg, d, texts, i, u), u)
  {
    hide Run, Opened, G.TouchAll, G.UpsertMentions, G.UpsertRelations, EntityUris, EntityRelations;
    var t := texts[i];
    var mid := G.UpsertMentions(s.graph, Doc(d), Chunk(ChunkId(d, i)), EntityUris(cfg.entities(t)), ws, acl);
    ChunkWritesGraph(cfg, s, d, i, t, ws, acl);
    MentionsOpen(s.graph, d, ChunkId(d, i), cfg.entities(t), ws, acl, u);
    RelationsOpen(mid, cfg.relations(t), ws, acl, u);
    OpenedTwice(s.graph.nodes, mid.nodes, Run(s, ChunkWrites(cfg, d, i, t, ws, acl)).graph.nodes, ws, acl,
      u == Doc(d) || u == Chunk(ChunkId(d, i)) || exists n :: n in cfg.entities(t) && u == Entity(n),
      (exists r :: r in cfg.relations(t)
         && (r.1 == G.DEPENDS_ON || r.1 == G.CALLS || r.1 == G.OWNS || r.1 == G.IMPLEMENTS || r.1 == G.AFFECTS)
         && (u == Entity(r.0) || u == Entity(r.2))), u);
  }

  lemma NamedByFront(cfg: Config, d: DocId, texts: seq<string>, u: Uri)
    requires texts != []
    ensures NamedByText(cfg, d, texts, u) <==>
            NamedByText(cfg, d, texts[..|texts| - 1], u) || NamedByChunk(cfg, d, texts, |texts| - 1, u)
  {
    var front := texts[..|texts| - 1];
    assert forall i: nat | i < |front| :: NamedByChunk(cfg, d, front, i, u) <==> NamedByChunk(cfg, d, texts, i, u);
  }

  lemma {:induction false} LinksOpen(cfg: Config, s: Stores, d: DocId, texts: seq<string>, ws: string, acl: seq<string>, u: Uri)
    ensures Opened(s.graph.nodes, Run(s, Links(cfg, d, texts, ws, acl)).graph.nodes, ws, acl, NamedByText(cfg, d, texts, u), u)
  {
    hide Links, ChunkWrites, NamedByChunk, Apply;
    if texts == [] {
      NoLinks(cfg, s, d, ws, acl);
    } else {
      hide Opened;
      var i := |texts| - 1;
      var mid := Run(s, Links(cfg, d, texts[..i], ws, acl));
      LinksOpen(cfg, s, d, texts[..i], ws, acl, u);
      LinksSnoc(cfg, d, texts, ws, acl);
      RunConcat(s, Links(cfg, d, texts[..i], ws, acl), ChunkWrites(cfg, d, i, texts[i], ws, acl));
      ChunkOpens(cfg, mid, d, texts, i, ws, acl, u);
      NamedByFront(cfg, d, texts, u);
      OpenedTwice(s.graph.nodes, mid.graph.nodes, Run(s, Links(cfg, d, texts, ws, acl)).graph.nodes, ws, acl,
        NamedByText(cfg, d, texts[..i], u), NamedByChunk(cfg, d, texts, i, u), u);
    }
  }

  /** The nodes after an ingestion: a node that the clean-up takes is gone; every other one has been
      opened to the list if the text names it, and is as it was if not. */
  lemma IngestedNodes(cfg: Config, s: Stores, k: Key, text: string, acl: seq<string>, u: Uri)
    requires ValidConfig(cfg)
    ensures var after := Run(s, Plan(cfg, s, k, text, acl)).graph.nodes;
            if Gone(cfg, s, k, text, u) then u !in after
            else Opened(s.graph.nodes, after, k.workspace, acl,
                        NamedByText(cfg, Identity(s.docs, k), cfg.chunker(k.path, text), u), u)
  {
    hide Links, Run, Plan, G.DeleteNodes, Identity, Stale, ChunkUris, NamedByChunk, Passages;
    var d, texts := Identity(s.docs, k), cfg.chunker(k.path, text);
    var head := [PutDoc(d, k)] + Passages(d, texts, k.workspace);
    var linked := Run(Run(s, head), Links(cfg, d, texts, k.workspace, acl)).graph;
    PlanGraph(cfg, s, k, text, acl);
    LinksOpen(cfg, Run(s, head), d, texts, k.workspace, acl, u);
    DeleteExact(linked, ChunkUris(cfg.listed(Stale(s.chunks, d, |texts|))), k.workspace);
    GoneIsStale(cfg, s, k, text, acl, u);
  }

  // ---------------------------------------------------------------- the document table

  lemma {:induction false} RunOnDocTable(s: Stores, ws: seq<Write>)
    requires forall i | 0 <= i < |ws| :: !ws[i].PutDoc?
    ensures Run(s, ws).docs == s.docs
  {
    hide G.UpsertMentions, G.UpsertRelations, G.DeleteNodes;
    if ws != [] { RunOnDocTable(s, ws[..|ws| - 1]); }
  }

  /** An ingestion files its document under the caller's workspace and path, and no other one: under the
      path-only id if that document is the workspace's own, else under the scoped id. */
  lemma IngestedDocument(cfg: Config, s: Stores, k: Key, text: string, acl: seq<string>)
    ensures var kept := Legacy(k.path) in s.docs && s.docs[Legacy(k.path)].workspace == k.workspace;
            Run(s, Plan(cfg, s, k, text, acl)).docs
            == s.docs[(if kept then Legacy(k.path) else Scoped(k.workspace + ":" + k.path)) := DocRecord(k.workspace, k.path)]
  {
    var plan, first := Plan(cfg, s, k, text, acl), PutDoc(Identity(s.docs, k), k);
    assert plan == [first] + plan[1..];
    RunConcat(s, [first], plan[1..]);
    RunOne(s, first);
    forall i | 1 <= i < |plan| ensures !plan[i].PutDoc? {
      PutsOneDoc(cfg, s, k, text, acl, i);
    }
    RunOnDocTable(Run(s, [first]), plan[1..]);
  }

  lemma PutsOneDoc(cfg: Config, s: Stores, k: Key, text: string, acl: seq<string>, i: nat)
    requires 1 <= i < |Plan(cfg, s, k, text, acl)|
    ensures !Plan(cfg, s, k, text, acl)[i].PutDoc?
  {
    var d, texts := Identity(s.docs, k), cfg.chunker(k.path, text);
    var links := Links(cfg, d, texts, k.workspace, acl);
    LinksPutNoDoc(cfg, d, texts, k.workspace, acl);
    var n := 1 + |texts|;
    assert n <= i < n + |links| ==> Plan(cfg, s, k, text, acl)[i] == links[i - n];
  }

  lemma {:induction false} LinksPutNoDoc(cfg: Config, d: DocId, texts: seq<string>, ws: string, acl: seq<string>)
    ensures forall i | 0 <= i < |Links(cfg, d, texts, ws, acl)| :: !Links(cfg, d, texts, ws, acl)[i].PutDoc?
  {
    if texts != [] { LinksPutNoDoc(cfg, d, texts[..|texts| - 1], ws, acl); }
  }
}
