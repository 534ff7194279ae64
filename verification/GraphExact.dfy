/**
 What each graph operation leaves, said outright: which nodes a reader sees, which edges are added
 in which order, who may read a named node, and what a delete takes away.
 */
module GraphExact {
  import opened Text
  import opened Uris
  import opened Graph

  /** A node is seen from its own workspace, by anyone if access lists are not enforced, else by a
      reader whose trimmed subject, or one of whose trimmed roles after `role:`, is on its list. */
  lemma VisibleIff(nodes: Nodes, f: Filters, u: Uri)
    ensures Visible(nodes, f, u) <==>
            && u in nodes && nodes[u].workspace == f.workspace
            && (f.enforceAcl ==>
                  || (Strip(f.subject) != "" && Strip(f.subject) in nodes[u].acl)
                  || exists r :: r in f.roles && Strip(r) != "" && "role:" + Strip(r) in nodes[u].acl)
  {
    if u in nodes {
      var acl := nodes[u].acl;
      if v :| v in acl && v in AclSubjects(f) {
        if v != Strip(f.subject) {
          var r :| r in f.roles && Strip(r) != "" && v == RoleSubject(Strip(r));
        }
      }
      if r :| r in f.roles && Strip(r) != "" && "role:" + Strip(r) in acl {
        assert RoleSubject(Strip(r)) in AclSubjects(f);
      }
    }
  }

  // ---------------------------------------------------------------- edges

  /** Both ends are there and the type is one of the five. */
  predicate Complete(r: Relation) {
    r.src != Blank && r.dst != Blank
    && (r.rel == DEPENDS_ON || r.rel == CALLS || r.rel == OWNS || r.rel == IMPLEMENTS || r.rel == AFFECTS)
  }

  /** The edges of a list of relations: one for each complete one, from its source to its destination,
      in list order, and none for the others; `picks` are the places of the complete ones. */
  lemma {:induction false} RelationEdgesInOrder(rs: seq<Relation>) returns (picks: seq<nat>)
    ensures forall i, j | 0 <= i < j < |picks| :: picks[i] < picks[j]
    ensures forall i | i in picks :: i < |rs| && Complete(rs[i])
    ensures forall i: nat | i < |rs| && Complete(rs[i]) :: i in picks
    ensures |RelationEdges(rs)| == |picks|
    ensures forall j | 0 <= j < |picks| :: picks[j] < |rs| && RelationEdges(rs)[j] == EdgeOf(rs[picks[j]])
  {
    hide RelationEdges, StorableRelation, Complete, EdgeOf;
    picks := [];
    RelationEdgesSnoc(rs);
    if rs != [] {
      var n := |rs| - 1;
      var front := RelationEdgesInOrder(rs[..n]);
      picks := if Complete(rs[n]) then front + [n] else front;
      forall j | 0 <= j < |picks| ensures picks[j] < |rs| && RelationEdges(rs)[j] == EdgeOf(rs[picks[j]]) {
        if j < |front| { assert front[j] < n && picks[j] == front[j]; }
      }
      forall i | i in picks ensures i < |rs| && Complete(rs[i]) {
        if i in front { assert rs[..n][i] == rs[i]; }
      }
      forall i: nat | i < |rs| && Complete(rs[i]) ensures i in picks {
        if i < n { assert rs[..n][i] == rs[i]; }
      }
    }
  }

  lemma RelationEdgesSnoc(rs: seq<Relation>)
    ensures if rs == [] then RelationEdges(rs) == []
            else
              var n := |rs| - 1;
              RelationEdges(rs) == RelationEdges(rs[..n]) + if Complete(rs[n]) then [EdgeOf(rs[n])] else []
  {}

  function EdgeOf(r: Relation): (e: Edge)
    ensures e.src == r.src && e.rel == r.rel && e.dst == r.dst
  {
    Edge(r.src, r.rel, r.dst)
  }

  /** What an upsert of relations adds: those edges, in that order. */
  lemma RelationEdgesExact(g: State, rs: seq<Relation>, ws: string, acl: seq<string>) returns (picks: seq<nat>)
    ensures forall i, j | 0 <= i < j < |picks| :: picks[i] < picks[j]
    ensures forall i | i in picks :: i < |rs| && Complete(rs[i])
    ensures forall i: nat | i < |rs| && Complete(rs[i]) :: i in picks
    ensures var h := UpsertRelations(g, rs, ws, acl);
            && |h.edges| == |g.edges| + |picks| && h.edges[..|g.edges|] == g.edges
            && forall j | 0 <= j < |picks| ::
                 && picks[j] < |rs|
                 && h.edges[|g.edges| + j] == Edge(rs[picks[j]].src, rs[picks[j]].rel, rs[picks[j]].dst)
  {
    hide RelationEdges, TouchAll, RelationTargets;
    picks := RelationEdgesInOrder(rs);
  }

  /** As a set: the new edges are exactly those of the complete relations. */
  lemma RelationEdgesIff(rs: seq<Relation>)
    ensures forall e :: e in RelationEdges(rs) <==>
              exists r :: r in rs && r.src != Blank && r.dst != Blank
                && (r.rel == DEPENDS_ON || r.rel == CALLS || r.rel == OWNS || r.rel == IMPLEMENTS || r.rel == AFFECTS)
                && e.src == r.src && e.rel == r.rel && e.dst == r.dst
  {
    hide RelationEdges;
    var picks := RelationEdgesInOrder(rs);
    var edges := RelationEdges(rs);
    forall e | e in edges ensures exists r :: r in rs && Complete(r) && e.src == r.src && e.rel == r.rel && e.dst == r.dst {
      var j :| 0 <= j < |edges| && edges[j] == e;
      assert picks[j] in picks && rs[picks[j]] in rs;
    }
    forall r | r in rs && Complete(r) ensures Edge(r.src, r.rel, r.dst) in edges {
      var i: nat :| i < |rs| && rs[i] == r;
      assert i in picks;
      var j :| 0 <= j < |picks| && picks[j] == i;
      assert edges[j] == EdgeOf(r);
    }
  }

  lemma {:induction false} MentionEdgesInOrder(doc: Uri, chunk: Uri, entities: seq<Uri>)
    ensures var edges := MentionEdges(doc, chunk, entities);
            && |edges| == 1 + 2 * |entities| && edges[0] == Edge(doc, CONTAINS, chunk)
            && forall i | 0 <= i < |entities| ::
                 && edges[1 + 2 * i] == Edge(chunk, MENTIONS, entities[i])
                 && edges[2 + 2 * i] == Edge(entities[i], DOCUMENTED_IN, doc)
  {
    if entities != [] {
      var k := |entities| - 1;
      MentionEdgesInOrder(doc, chunk, entities[..k]);
      var front, edges := MentionEdges(doc, chunk, entities[..k]), MentionEdges(doc, chunk, entities);
      forall i | 0 <= i < |entities|
        ensures edges[1 + 2 * i] == Edge(chunk, MENTIONS, entities[i])
        ensures edges[2 + 2 * i] == Edge(entities[i], DOCUMENTED_IN, doc)
      {
        if i < k {
          assert front[1 + 2 * i] == Edge(chunk, MENTIONS, entities[..k][i]);
          assert front[2 + 2 * i] == Edge(entities[..k][i], DOCUMENTED_IN, doc);
        }
      }
    }
  }

  /** A chunk adds one CONTAINS edge, then for each entity in turn one MENTIONS and one DOCUMENTED_IN. */
  lemma MentionEdgesExact(g: State, doc: Uri, chunk: Uri, entities: seq<Uri>, ws: string, acl: seq<string>)
    ensures var n, edges := |g.edges|, UpsertMentions(g, doc, chunk, entities, ws, acl).edges;
            && |edges| == n + 1 + 2 * |entities| && edges[..n] == g.edges
            && edges[n] == Edge(doc, CONTAINS, chunk)
            && forall i | 0 <= i < |entities| ::
                 && edges[n + 1 + 2 * i] == Edge(chunk, MENTIONS, entities[i])
                 && edges[n + 2 + 2 * i] == Edge(entities[i], DOCUMENTED_IN, doc)
  {
    hide MentionEdges, TouchAll, MentionTargets;
    MentionEdgesInOrder(doc, chunk, entities);
    var n, added := |g.edges|, MentionEdges(doc, chunk, entities);
    forall i | 0 <= i < |added| ensures UpsertMentions(g, doc, chunk, entities, ws, acl).edges[n + i] == added[i] {
    }
  }

  /** A memory adds one edge to each entity it refers to, in order. */
  lemma MemoryEdgesExact(g: State, memory: Uri, entities: seq<Uri>, ws: string)
    ensures var n, edges := |g.edges|, UpsertMemoryLinks(g, memory, entities, ws).edges;
            && |edges| == n + |entities| && edges[..n] == g.edges
            && forall i | 0 <= i < |entities| :: edges[n + i] == Edge(memory, MEMORY_REFERS_TO, entities[i])
  {}

  // ---------------------------------------------------------------- nodes

  /** Who may read a named node: whom the caller's list names, trimmed, and whoever could before. A new
      node is of a kind it was named with. */
  lemma {:induction false} TouchAllReaders(nodes: Nodes, targets: seq<(Uri, Kind)>, ws: string, acl: seq<string>, u: Uri)
    requires exists k :: (u, k) in targets
    ensures var n := TouchAll(nodes, targets, ws, acl);
            && u in n && n[u].workspace == ws
            && Permitted(acl) <= Permitted(n[u].acl)
            && (u in nodes ==>
                  && n[u].kind == nodes[u].kind
                  && Permitted(n[u].acl) == Stripped(n[u].acl) == Stripped(nodes[u].acl) + Stripped(acl))
            && (u !in nodes ==> (u, n[u].kind) in targets && Stripped(n[u].acl) == Stripped(acl))
  {
    hide MergeAcl, Permitted, Stripped;
    var front, last := targets[..|targets| - 1], targets[|targets| - 1];
    assert targets == front + [last];
    var mid := TouchAll(nodes, front, ws, acl);
    PermittedIsStripped(acl);
    TouchAllEffect(nodes, front, ws, acl, u);
    if exists k :: (u, k) in front {
      TouchAllReaders(nodes, front, ws, acl, u);
    }
    if last.0 == u && u in mid {
      MergeAclContents(mid[u].acl, acl);
    }
  }

  /** A delete takes the listed nodes of the caller's workspace and the edges that touch them, and
      nothing else. */
  lemma DeleteExact(g: State, uris: seq<Uri>, ws: string)
    ensures var h := DeleteNodes(g, uris, ws);
            && (forall u :: u in h.nodes <==> u in g.nodes && !(u in uris && g.nodes[u].workspace == ws))
            && (forall u | u in h.nodes :: h.nodes[u] == g.nodes[u])
            && (forall e :: e in h.edges <==>
                  && e in g.edges
                  && !(e.src in uris && e.src in g.nodes && g.nodes[e.src].workspace == ws)
                  && !(e.dst in uris && e.dst in g.nodes && g.nodes[e.dst].workspace == ws))
  {
    EdgesAvoidingContents(g.edges, Victims(g, uris, ws));
  }

  /** Memory links leave stored nodes as they are, and store the missing ones bare in the workspace. */
  lemma MemoryNodesExact(g: State, memory: Uri, entities: seq<Uri>, ws: string, u: Uri)
    ensures var n := UpsertMemoryLinks(g, memory, entities, ws).nodes;
            && (u in n <==> u in g.nodes || u == memory || u in entities)
            && (u in g.nodes ==> n[u] == g.nodes[u])
            && (u !in g.nodes && u == memory ==> n[u] == Node(MemoryNode, ws, []))
            && (u !in g.nodes && u != memory && u in entities ==> n[u] == Node(EntityNode, ws, []))
  {
    EnsureAllEffect(Ensure(g.nodes, memory, MemoryNode, ws), entities, ws, u);
  }
}
