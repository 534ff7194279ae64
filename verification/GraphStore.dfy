/** The in-memory graph store: fields updated in place, and the bounded expansion. */
module GraphStore {
  import opened Text
  import opened Uris
  import opened Graph
  import opened GraphReach

  const DEFAULT_EDGE_TYPES := {CONTAINS, MENTIONS, DOCUMENTED_IN, DEPENDS_ON, CALLS, OWNS, IMPLEMENTS, AFFECTS}

  /** The number of rounds of Python's `range(depth)`. */
  function Hops(depth: int): nat {
    if depth < 0 then 0 else depth
  }

  function Elements<T>(s: seq<T>): set<T> {
    set x | x in s
  }

  /** `found` lists the discovered nodes in order, one per returned edge: edge `j` is usable
      and joins `found[j]` to a seed or to a node discovered before it. */
  ghost predicate Discovery(v: View, seeds: set<Uri>, found: seq<Uri>, tree: seq<Edge>) {
    && |found| == |tree|
    && Distinct(found)
    && (forall j | 0 <= j < |found| :: found[j] !in seeds)
    && (forall j | 0 <= j < |tree| ::
          && tree[j] in v.graph.edges && Usable(v, tree[j])
          && exists a :: a in seeds + Elements(found[..j]) && Joins(tree[j], a, found[j]))
  }

  /** The same reader's view of the returned edges alone. */
  function TreeView(v: View, tree: seq<Edge>): View {
    View(State(v.graph.nodes, tree), v.filters, v.allowed)
  }

  /** The returned edges form a forest over the returned nodes, rooted at the visible seeds, in which
      each node is at most `hops` edges away from a root. */
  ghost predicate SpanningForest(v: View, seeds: set<Uri>, reached: set<Uri>, tree: seq<Edge>, hops: nat) {
    && (exists found :: Discovery(v, seeds, found, tree) && reached == seeds + Elements(found))
    && forall u | u in reached :: Within(TreeView(v, tree), seeds, u, hops)
  }

  lemma DiscoveryExtends(v: View, seeds: set<Uri>, found: seq<Uri>, tree: seq<Edge>, e: Edge, a: Uri, b: Uri)
    requires Discovery(v, seeds, found, tree)
    requires e in v.graph.edges && Usable(v, e) && Joins(e, a, b)
    requires a in seeds + Elements(found) && b !in seeds + Elements(found)
    ensures Discovery(v, seeds, found + [b], tree + [e])
  {
    var f, t := found + [b], tree + [e];
    forall j | 0 <= j < |t|
      ensures t[j] in v.graph.edges && Usable(v, t[j])
      ensures exists c :: c in seeds + Elements(f[..j]) && Joins(t[j], c, f[j])
    {
      if j < |tree| {
        assert f[..j] == found[..j];
      } else {
        assert f[..j] == found;
        assert Joins(t[j], a, f[j]);
      }
    }
  }

  lemma {:induction false} DistinctCount(s: seq<Uri>)
    requires Distinct(s)
    ensures |Elements(s)| == |s|
  {
    if s != [] {
      var front := s[..|s| - 1];
      DistinctCount(front);
      assert Elements(s) == Elements(front) + {s[|s| - 1]};
    }
  }

  /** A forest has as many edges as non-root nodes: each non-seed has its own edge. */
  lemma ForestEdgeCount(v: View, seeds: set<Uri>, reached: set<Uri>, tree: seq<Edge>, hops: nat)
    requires SpanningForest(v, seeds, reached, tree, hops)
    ensures seeds <= reached && |tree| == |reached| - |seeds|
  {
    var found :| Discovery(v, seeds, found, tree) && reached == seeds + Elements(found);
    DistinctCount(found);
    assert seeds !! Elements(found);
  }

  lemma ForestEdgesUsable(v: View, seeds: set<Uri>, reached: set<Uri>, tree: seq<Edge>, hops: nat)
    requires SpanningForest(v, seeds, reached, tree, hops)
    ensures forall e | e in tree :: e in v.graph.edges && e.rel in v.allowed
  {
    var found :| Discovery(v, seeds, found, tree) && reached == seeds + Elements(found);
    forall e | e in tree ensures e in v.graph.edges && e.rel in v.allowed {
      var j :| 0 <= j < |tree| && tree[j] == e;
    }
  }

  /** The nodes hang from the seeds by at most so many of the returned edges. */
  ghost predicate Hangs(v: View, seeds: set<Uri>, nodes: set<Uri>, tree: seq<Edge>, hops: nat) {
    nodes <= Ball(TreeView(v, tree), seeds, hops)
  }

  lemma SeedsHang(v: View, seeds: set<Uri>)
    requires forall s | s in seeds :: Sees(v, s)
    ensures Hangs(v, seeds, seeds, [], 0)
  {}

  lemma HangsDeeper(v: View, seeds: set<Uri>, nodes: set<Uri>, tree: seq<Edge>, hops: nat, more: nat)
    requires Hangs(v, seeds, nodes, tree, hops) && hops <= more
    ensures Hangs(v, seeds, nodes, tree, more)
  {
    hide Ball;
    BallGrows(TreeView(v, tree), seeds, hops, more);
  }

  lemma HangsFromMore(v: View, seeds: set<Uri>, nodes: set<Uri>, tree: seq<Edge>, e: Edge, hops: nat)
    requires Hangs(v, seeds, nodes, tree, hops)
    ensures Hangs(v, seeds, nodes, tree + [e], hops)
  {
    hide Ball, Within;
    var small, large := TreeView(v, tree), TreeView(v, tree + [e]);
    forall u | u in nodes ensures u in Ball(large, seeds, hops) {
      BallIsWithin(small, seeds, u, hops);
      WithinMonotone(small, large, seeds, u, hops);
      BallIsWithin(large, seeds, u, hops);
    }
  }

  lemma LinkEntersBall(v: View, seeds: set<Uri>, k: nat, a: Uri, b: Uri)
    requires Linked(v, a, b) && Sees(v, b)
    ensures a in Ball(v, seeds, k) ==> b in Ball(v, seeds, k + 1)
  {}

  /** A node found from the frontier hangs one edge deeper than the frontier does. */
  lemma FoundHangs(v: View, seeds: set<Uri>, frontier: seq<Uri>, visited: set<Uri>, tree: seq<Edge>, level: nat, e: Edge, a: Uri, b: Uri)
    requires Hangs(v, seeds, Elements(frontier), tree, level) && Hangs(v, seeds, visited, tree, level + 1)
    requires Usable(v, e) && Joins(e, a, b) && a in frontier
    ensures Hangs(v, seeds, Elements(frontier), tree + [e], level) && Hangs(v, seeds, visited + {b}, tree + [e], level + 1)
  {
    hide Ball;
    HangsFromMore(v, seeds, Elements(frontier), tree, e, level);
    HangsFromMore(v, seeds, visited, tree, e, level + 1);
    var t := TreeView(v, tree + [e]);
    assert (tree + [e])[|tree|] == e && Usable(t, e);
    LinkEntersBall(t, seeds, level, a, b);
  }

  lemma TouchAllSnoc(nodes: Nodes, targets: seq<(Uri, Kind)>, u: Uri, kind: Kind, ws: string, acl: seq<string>)
    ensures TouchAll(nodes, targets + [(u, kind)], ws, acl) == Touch(TouchAll(nodes, targets, ws, acl), u, kind, ws, acl)
  {
    var all := targets + [(u, kind)];
    assert all[..|all| - 1] == targets;
  }

  lemma TouchAllEmpty(nodes: Nodes, ws: string, acl: seq<string>)
    ensures TouchAll(nodes, [], ws, acl) == nodes
  {}

  /** Python's `list(visited)`: some enumeration of the set. */
  method Listed(s: set<Uri>) returns (l: seq<Uri>)
    ensures Elements(l) == s && Distinct(l)
  {
    l := [];
    var rest := s;
    while rest != {}
      invariant Elements(l) + rest == s && Elements(l) !! rest && Distinct(l)
      decreases |rest|
    {
      var u :| u in rest;
      rest := rest - {u};
      l := l + [u];
    }
  }

  /** Only the frontier may still have links leading out of the visited set. */
  ghost predicate Frontier(v: View, visited: set<Uri>, frontier: seq<Uri>) {
    && Elements(frontier) <= visited
    && forall a, b | a in visited && a !in frontier && Linked(v, a, b) :: b in visited
  }

  /** A level whose frontier edges have all been followed is the next ball. */
  lemma LevelCompletes(v: View, start: set<Uri>, level: nat, frontier: seq<Uri>, visited: set<Uri>, next: seq<Uri>)
    requires Frontier(v, Ball(v, start, level), frontier)
    requires MidLevel(v, start, level, frontier, v.graph.edges, visited, next)
    ensures visited == Ball(v, start, level + 1)
    ensures Frontier(v, visited, next)
  {
    var inner := Ball(v, start, level);
    forall a, b | a in inner && Linked(v, a, b) ensures b in visited {
      if a in frontier {
        var e :| e in v.graph.edges && Usable(v, e) && Joins(e, a, b);
      }
    }
  }

  /** Part-way through a level: `done` are the edges followed so far, `inner` the ball the level
      started from, `visited` that ball with the newly found nodes `next`. */
  ghost predicate MidLevel(v: View, start: set<Uri>, level: nat, frontier: seq<Uri>, done: seq<Edge>,
                           visited: set<Uri>, next: seq<Uri>) {
    && visited == Ball(v, start, level) + Elements(next)
    && visited <= Ball(v, start, level + 1)
    && Elements(frontier) <= Ball(v, start, level)
    && forall e, a, b | e in done && Usable(v, e) && a in frontier && Joins(e, a, b) :: b in visited
  }

  /** The expansion so far: its discovery order and its size. */
  ghost predicate Growing(v: View, seeds: set<Uri>, maxNodes: int, visited: set<Uri>, found: seq<Uri>, tree: seq<Edge>) {
    && Discovery(v, seeds, found, tree)
    && visited == seeds + Elements(found)
    && (|visited| <= maxNodes || |visited| <= |seeds| + 1)
  }

  lemma LevelStarts(v: View, start: set<Uri>, level: nat, frontier: seq<Uri>)
    requires Frontier(v, Ball(v, start, level), frontier)
    ensures MidLevel(v, start, level, frontier, [], Ball(v, start, level), [])
  {}

  lemma LevelHangs(v: View, seeds: set<Uri>, frontier: seq<Uri>, visited: set<Uri>, tree: seq<Edge>, level: nat)
    requires Elements(frontier) <= visited && Hangs(v, seeds, visited, tree, level)
    ensures Hangs(v, seeds, Elements(frontier), tree, level) && Hangs(v, seeds, visited, tree, level + 1)
  {
    HangsDeeper(v, seeds, visited, tree, level, level + 1);
  }

  lemma LevelStays(v: View, start: set<Uri>, level: nat, frontier: seq<Uri>, done: seq<Edge>,
                   visited: set<Uri>, next: seq<Uri>)
    requires MidLevel(v, start, level, frontier, done, visited, next)
    ensures Ball(v, start, level) <= visited <= Ball(v, start, level + 1)
    ensures next == [] ==> visited == Ball(v, start, level)
    ensures Elements(frontier) <= visited
  {}

  lemma UnusableSkips(v: View, start: set<Uri>, level: nat, frontier: seq<Uri>, done: seq<Edge>,
                      visited: set<Uri>, next: seq<Uri>, e: Edge)
    requires MidLevel(v, start, level, frontier, done, visited, next)
    requires !Usable(v, e) || (!(e.src in frontier && e.dst !in visited) && !(e.dst in frontier && e.src !in visited))
    ensures MidLevel(v, start, level, frontier, done + [e], visited, next)
  {}

  /** Following `e` out of the frontier, from `a` to the new node `b`: the level's side. */
  lemma UsableAdvances(v: View, start: set<Uri>, level: nat, frontier: seq<Uri>, done: seq<Edge>,
                       visited: set<Uri>, next: seq<Uri>, e: Edge, a: Uri, b: Uri)
    requires MidLevel(v, start, level, frontier, done, visited, next)
    requires e in v.graph.edges && Usable(v, e) && Joins(e, a, b)
    requires a in frontier && b !in visited
    ensures MidLevel(v, start, level, frontier, done + [e], visited + {b}, next + [b])
    ensures a in visited
  {
    assert Linked(v, a, b);
    assert b in Ball(v, start, level + 1);
    assert Elements(next + [b]) == Elements(next) + {b};
    forall x, c, d | x in done + [e] && Usable(v, x) && c in frontier && Joins(x, c, d) ensures d in visited + {b} {
      if x == e { assert d == b || d == a; }
    }
  }

  /** The same step on the side of the forest. */
  lemma UsableGrows(v: View, seeds: set<Uri>, maxNodes: int, visited: set<Uri>, found: seq<Uri>, tree: seq<Edge>,
                    e: Edge, a: Uri, b: Uri)
    requires Growing(v, seeds, maxNodes, visited, found, tree)
    requires |visited| < maxNodes || visited == seeds
    requires e in v.graph.edges && Usable(v, e) && Joins(e, a, b)
    requires a in visited && b !in visited
    ensures Growing(v, seeds, maxNodes, visited + {b}, found + [b], tree + [e])
  {
    hide Discovery, Usable, Joins;
    var visited', found' := visited + {b}, found + [b];
    assert visited' == seeds + Elements(found') by {
      assert Elements(found') == Elements(found) + {b};
    }
    DiscoveryExtends(v, seeds, found, tree, e, a, b);
  }

  lemma SeedsAreBall(v: View, seedUris: seq<Uri>)
    ensures (set u | u in seedUris && Visible(v.graph.nodes, v.filters, u)) == Ball(v, Elements(seedUris), 0)
  {}

  lemma SeedBallHangs(v: View, start: set<Uri>, seeds: set<Uri>)
    requires seeds == Ball(v, start, 0)
    ensures Hangs(v, seeds, seeds, [], 0)
  {
    SeedsHang(v, seeds);
  }

  lemma SeedsStart(v: View, seeds: set<Uri>, maxNodes: int, frontier: seq<Uri>)
    requires Elements(frontier) == seeds
    ensures Frontier(v, seeds, frontier)
    ensures Growing(v, seeds, maxNodes, seeds, [], [])
  {}

  lemma GrownIsForest(v: View, seeds: set<Uri>, maxNodes: int, visited: set<Uri>, found: seq<Uri>, tree: seq<Edge>, hops: nat)
    requires Growing(v, seeds, maxNodes, visited, found, tree) && Hangs(v, seeds, visited, tree, hops)
    ensures SpanningForest(v, seeds, visited, tree, hops)
    ensures |visited| <= maxNodes || |visited| <= |seeds| + 1
  {
    hide Ball, Within, Discovery;
    forall u | u in visited ensures Within(TreeView(v, tree), seeds, u, hops) {
      BallIsWithin(TreeView(v, tree), seeds, u, hops);
    }
  }

  /** Nodes are visited nearest first: whole levels, then a part of the next one. */
  ghost predicate WholeLevels(v: View, start: set<Uri>, hops: nat, visited: set<Uri>) {
    exists l: nat :: l <= hops && Ball(v, start, l) <= visited <= Ball(v, start, l + 1)
  }

  /** So no node is returned while one at a smaller distance is left out. */
  lemma NearestFirst(v: View, start: set<Uri>, hops: nat, visited: set<Uri>)
    requires WholeLevels(v, start, hops, visited)
    ensures forall u, w, k: nat | u in visited && Within(v, start, w, k) && !Within(v, start, u, k) :: w in visited
  {
    hide Ball, Within;
    var l: nat :| l <= hops && Ball(v, start, l) <= visited <= Ball(v, start, l + 1);
    forall u, w, k: nat | u in visited && Within(v, start, w, k) && !Within(v, start, u, k) ensures w in visited {
      BallIsWithin(v, start, u, k);
      BallIsWithin(v, start, w, k);
      if k <= l { BallGrows(v, start, k, l); } else { BallGrows(v, start, l + 1, k); }
    }
  }

  lemma {:induction false} BallIsVisible(v: View, start: set<Uri>, hops: nat)
    ensures forall u | u in Ball(v, start, hops) :: Sees(v, u)
  {
    if hops > 0 { BallIsVisible(v, start, hops - 1); }
  }

  /** From the ball of the last level to the declarative answer. */
  lemma BallAnswers(v: View, start: set<Uri>, hops: nat, visited: set<Uri>, maxNodes: int)
    requires visited <= Ball(v, start, hops)
    requires |visited| < maxNodes ==> visited == Ball(v, start, hops)
    ensures visited <= v.graph.nodes.Keys
    ensures forall u | u in visited :: Within(v, start, u, hops)
    ensures |visited| < maxNodes ==> forall u | Within(v, start, u, hops) :: u in visited
  {
    BallIsVisible(v, start, hops);
    forall u ensures u in Ball(v, start, hops) <==> Within(v, start, u, hops) {
      BallIsWithin(v, start, u, hops);
    }
  }

  /** Stopping early, at the cap or with nothing new: what holds of the ball of the last level. */
  lemma LastLevel(v: View, start: set<Uri>, level: nat, hops: nat, inner: set<Uri>, visited: set<Uri>, maxNodes: int, stuck: bool)
    requires 0 < level <= hops
    requires inner == Ball(v, start, level - 1) && visited <= Ball(v, start, level)
    requires |visited| < maxNodes ==> visited == Ball(v, start, level)
    requires inner <= visited && if stuck then visited == inner else |visited| >= maxNodes
    ensures visited <= Ball(v, start, hops) && WholeLevels(v, start, hops, visited)
    ensures |visited| < maxNodes ==> visited == Ball(v, start, hops)
  {
    hide Ball;
    BallGrows(v, start, level, hops);
    assert level - 1 + 1 == level;
    if |visited| < maxNodes {
      BallFixpoint(v, start, level - 1, hops);
    }
  }

  function Picked(nodes: Nodes, visited: set<Uri>): (r: Nodes)
    ensures r.Keys == visited * nodes.Keys
    ensures forall u | u in r :: r[u] == nodes[u]
  {
    map u | u in visited && u in nodes :: nodes[u]
  }

  lemma VictimsStart(g: State, uris: seq<Uri>, ws: string)
    ensures Victims(g, uris[..0], ws) == {}
  {}

  lemma VictimsStep(g: State, uris: seq<Uri>, ws: string, i: nat)
    requires i < |uris|
    ensures Victims(g, uris[..i + 1], ws) == Victims(g, uris[..i], ws)
              + (if uris[i] in g.nodes && g.nodes[uris[i]].workspace == ws then {uris[i]} else {})
  {
    assert uris[..i + 1] == uris[..i] + [uris[i]];
  }

  lemma EdgesAvoidingStart(edges: seq<Edge>, gone: set<Uri>)
    ensures EdgesAvoiding(edges[..0], gone) == []
  {}

  lemma EdgesAvoidingStep(edges: seq<Edge>, gone: set<Uri>, i: nat)
    requires i < |edges|
    ensures EdgesAvoiding(edges[..i + 1], gone) == EdgesAvoiding(edges[..i], gone)
              + (if edges[i].src !in gone && edges[i].dst !in gone then [edges[i]] else [])
  {
    assert edges[..i + 1][..i] == edges[..i];
  }

  class InMemoryGraphStore {
    var nodes: Nodes
    var edges: seq<Edge>

    function Value(): State
      reads this
    {
      State(nodes, edges)
    }

    constructor ()
      ensures Value() == EMPTY
    {
      nodes, edges := map[], [];
    }

    static method MergeAclLists(existing: seq<string>, incoming: seq<string>) returns (values: seq<string>)
      ensures values == MergeAcl(existing, incoming)
    {
      values := [];
      for i := 0 to |existing|
        invariant values == KeepAll([], existing[..i])
      {
        var item := Strip(existing[i]);
        assert existing[..i + 1][..i] == existing[..i];
        if item != "" && item !in values {
          values := values + [item];
        }
      }
      ghost var base := values;
      assert existing[..|existing|] == existing;
      for i := 0 to |incoming|
        invariant values == KeepAll(base, incoming[..i])
      {
        var item := Strip(incoming[i]);
        assert incoming[..i + 1][..i] == incoming[..i];
        if item != "" && item !in values {
          values := values + [item];
        }
      }
      assert incoming[..|incoming|] == incoming;
    }

    method TouchNode(u: Uri, kind: Kind, ws: string, acl: seq<string>)
      modifies this`nodes
      ensures nodes == Touch(old(nodes), u, kind, ws, acl)
    {
      if u !in nodes {
        nodes := nodes[u := Node(kind, ws, acl)];
      } else {
        var merged := MergeAclLists(nodes[u].acl, acl);
        nodes := nodes[u := nodes[u].(workspace := ws, acl := merged)];
      }
    }

    method UpsertMentions(doc: Uri, chunk: Uri, entities: seq<Uri>, ws: string, acl: seq<string>)
      modifies this
      ensures Value() == Graph.UpsertMentions(old(Value()), doc, chunk, entities, ws, acl)
    {
      hide TouchAll, Touch;
      ghost var targets := MentionTargets(doc, chunk, entities);
      TouchAllEmpty(old(nodes), ws, acl);
      TouchNode(doc, DocumentNode, ws, acl);
      TouchAllSnoc(old(nodes), [], doc, DocumentNode, ws, acl);
      TouchNode(chunk, ChunkNode, ws, acl);
      TouchAllSnoc(old(nodes), [(doc, DocumentNode)], chunk, ChunkNode, ws, acl);
      edges := edges + [Edge(doc, CONTAINS, chunk)];
      assert [] + [(doc, DocumentNode)] == [(doc, DocumentNode)];
      assert targets[..2] == [(doc, DocumentNode)] + [(chunk, ChunkNode)];
      for i := 0 to |entities|
        invariant nodes == TouchAll(old(nodes), targets[..i + 2], ws, acl)
        invariant edges == old(edges) + MentionEdges(doc, chunk, entities[..i])
      {
        TouchNode(entities[i], EntityNode, ws, acl);
        TouchAllSnoc(old(nodes), targets[..i + 2], entities[i], EntityNode, ws, acl);
        assert targets[..i + 3] == targets[..i + 2] + [(entities[i], EntityNode)];
        edges := edges + [Edge(chunk, MENTIONS, entities[i])];
        edges := edges + [Edge(entities[i], DOCUMENTED_IN, doc)];
        assert entities[..i + 1][..i] == entities[..i];
      }
      assert targets[..|entities| + 2] == targets && entities[..|entities|] == entities;
    }

    method UpsertEntityRelations(relations: seq<Relation>, ws: string, acl: seq<string>)
      modifies this
      ensures Value() == UpsertRelations(old(Value()), relations, ws, acl)
    {
      hide TouchAll, Touch;
      TouchAllEmpty(old(nodes), ws, acl);
      assert relations[..0] == [];
      for i := 0 to |relations|
        invariant nodes == TouchAll(old(nodes), RelationTargets(relations[..i]), ws, acl)
        invariant edges == old(edges) + RelationEdges(relations[..i])
      {
        var r := relations[i];
        assert relations[..i + 1][..i] == relations[..i] && relations[..i + 1][i] == r;
        if !StorableRelation(r) {
          assert RelationTargets(relations[..i + 1]) == RelationTargets(relations[..i]);
          continue;
        }
        ghost var before := RelationTargets(relations[..i]);
        TouchNode(r.src, EntityNode, ws, acl);
        TouchNode(r.dst, EntityNode, ws, acl);
        TouchAllSnoc(old(nodes), before, r.src, EntityNode, ws, acl);
        TouchAllSnoc(old(nodes), before + [(r.src, EntityNode)], r.dst, EntityNode, ws, acl);
        assert RelationTargets(relations[..i + 1]) == before + [(r.src, EntityNode)] + [(r.dst, EntityNode)];
        edges := edges + [Edge(r.src, r.rel, r.dst)];
      }
      assert relations[..|relations|] == relations;
    }

    method UpsertMemoryLinks(memory: Uri, entities: seq<Uri>, ws: string)
      modifies this
      ensures Value() == Graph.UpsertMemoryLinks(old(Value()), memory, entities, ws)
    {
      if memory !in nodes {
        nodes := nodes[memory := Node(MemoryNode, ws, [])];
      }
      ghost var base := nodes;
      for i := 0 to |entities|
        invariant nodes == EnsureAll(base, entities[..i], ws)
        invariant edges == old(edges) + MemoryEdges(memory, entities[..i])
      {
        if entities[i] !in nodes {
          nodes := nodes[entities[i] := Node(EntityNode, ws, [])];
        }
        edges := edges + [Edge(memory, MEMORY_REFERS_TO, entities[i])];
        assert entities[..i + 1][..i] == entities[..i];
        assert MemoryEdges(memory, entities[..i + 1])
            == MemoryEdges(memory, entities[..i]) + [Edge(memory, MEMORY_REFERS_TO, entities[i])];
      }
      assert entities[..|entities|] == entities;
    }

    /** Both `delete_chunks` and `delete_memory_nodes`; returns how many edges went. */
    method DeleteNodes(uris: seq<Uri>, ws: string) returns (removed: nat)
      modifies this
      ensures Value() == Graph.DeleteNodes(old(Value()), uris, ws)
      ensures removed == |old(edges)| - |edges|
    {
      hide Victims, EdgesAvoiding;
      var gone: set<Uri> := {};
      VictimsStart(Value(), uris, ws);
      for i := 0 to |uris|
        invariant nodes == old(nodes) && edges == old(edges)
        invariant gone == Victims(Value(), uris[..i], ws)
      {
        VictimsStep(Value(), uris, ws, i);
        if uris[i] in nodes && nodes[uris[i]].workspace == ws {
          gone := gone + {uris[i]};
        }
      }
      assert uris[..|uris|] == uris;
      EdgesAvoidingContents(edges, gone);
      EdgesAvoidingStart(edges, gone);
      if gone == {} {
        assert nodes - gone == nodes;
        return 0;
      }
      var before := |edges|;
      nodes := map u | u in nodes && u !in gone :: nodes[u];
      var kept: seq<Edge> := [];
      for i := 0 to |edges|
        invariant nodes == old(nodes) - gone && edges == old(edges)
        invariant kept == EdgesAvoiding(edges[..i], gone)
      {
        EdgesAvoidingStep(edges, gone, i);
        if edges[i].src !in gone && edges[i].dst !in gone {
          kept := kept + [edges[i]];
        }
      }
      assert edges[..|edges|] == edges;
      edges := kept;
      removed := before - |edges|;
    }

    /** One level of the expansion: follow every edge in list order, stopping early once the
        node cap is reached. `found` shadows the discoveries made so far. */
    method ExpandLevel(visited: set<Uri>, frontier: seq<Uri>, tree: seq<Edge>, allowed: set<Rel>,
                       maxNodes: int, filters: Filters,
                       ghost start: set<Uri>, ghost level: nat, ghost seeds: set<Uri>, ghost found: seq<Uri>)
      returns (visited': set<Uri>, next: seq<Uri>, tree': seq<Edge>, ghost found': seq<Uri>)
      requires var v := View(Value(), filters, allowed);
               && visited == Ball(v, start, level) && Frontier(v, visited, frontier)
               && Growing(v, seeds, maxNodes, visited, found, tree) && Hangs(v, seeds, visited, tree, level)
      requires |visited| < maxNodes || visited == seeds
      ensures var v := View(Value(), filters, allowed);
              && visited <= visited' <= Ball(v, start, level + 1) && (next == [] ==> visited' == visited)
              && Hangs(v, seeds, visited', tree', level + 1)
              && Growing(v, seeds, maxNodes, visited', found', tree')
              && (|visited'| < maxNodes ==> visited' == Ball(v, start, level + 1) && Frontier(v, visited', next))
    {
      hide Ball, Frontier, Growing, MidLevel, Hangs;
      ghost var v := View(Value(), filters, allowed);
      visited', next, tree', found' := visited, [], tree, found;
      var i := 0;
      LevelStarts(v, start, level, frontier);
      LevelHangs(v, seeds, frontier, visited, tree, level);
      while i < |edges|
        invariant 0 <= i <= |edges|
        invariant MidLevel(v, start, level, frontier, edges[..i], visited', next)
        invariant Growing(v, seeds, maxNodes, visited', found', tree')
        invariant Hangs(v, seeds, Elements(frontier), tree', level) && Hangs(v, seeds, visited', tree', level + 1)
        invariant |visited'| < maxNodes || visited' == seeds
      {
        var edge := edges[i];
        ghost var done := edges[..i];
        LevelStays(v, start, level, frontier, done, visited', next);
        i := i + 1;
        assert edges[..i] == done + [edge];
        if edge.rel !in allowed || !Visible(nodes, filters, edge.src) || !Visible(nodes, filters, edge.dst) {
          UnusableSkips(v, start, level, frontier, done, visited', next, edge);
          continue;
        }
        ghost var idle := true;
        if edge.src in frontier && edge.dst !in visited' {
          UsableAdvances(v, start, level, frontier, done, visited', next, edge, edge.src, edge.dst);
          UsableGrows(v, seeds, maxNodes, visited', found', tree', edge, edge.src, edge.dst);
          FoundHangs(v, seeds, frontier, visited', tree', level, edge, edge.src, edge.dst);
          visited', next, tree', found' := visited' + {edge.dst}, next + [edge.dst], tree' + [edge], found' + [edge.dst];
          idle := false;
        }
        if edge.dst in frontier && edge.src !in visited' {
          UsableAdvances(v, start, level, frontier, done, visited', next, edge, edge.dst, edge.src);
          UsableGrows(v, seeds, maxNodes, visited', found', tree', edge, edge.dst, edge.src);
          FoundHangs(v, seeds, frontier, visited', tree', level, edge, edge.dst, edge.src);
          visited', next, tree', found' := visited' + {edge.src}, next + [edge.src], tree' + [edge], found' + [edge.src];
          idle := false;
        }
        if idle {
          UnusableSkips(v, start, level, frontier, done, visited', next, edge);
        }
        if |visited'| >= maxNodes { break; }
      }
      LevelStays(v, start, level, frontier, edges[..i], visited', next);
      if |visited'| < maxNodes {
        assert edges[..i] == edges;
        LevelCompletes(v, start, level, frontier, visited', next);
      }
    }

    /** The level loop, from the visible seeds on. */
    method ExpandLevels(seeds: set<Uri>, depth: int, allowed: set<Rel>, maxNodes: int, filters: Filters,
                        ghost start: set<Uri>)
      returns (visited: set<Uri>, tree: seq<Edge>)
      requires seeds == Ball(View(Value(), filters, allowed), start, 0)
      ensures var v := View(Value(), filters, allowed);
              && visited <= Ball(v, start, Hops(depth))
              && (|visited| < maxNodes ==> visited == Ball(v, start, Hops(depth)))
              && WholeLevels(v, start, Hops(depth), visited)
              && SpanningForest(v, seeds, visited, tree, Hops(depth))
      ensures |visited| <= maxNodes || |visited| <= |seeds| + 1
    {
      hide Ball, Frontier, Growing, Hangs, SpanningForest;
      ghost var v := View(Value(), filters, allowed);
      visited := seeds;
      var frontier := Listed(visited);
      SeedsStart(v, seeds, maxNodes, frontier);
      SeedBallHangs(v, start, seeds);
      tree := [];
      ghost var found: seq<Uri> := [];
      var level: nat := 0;
      while level < depth
        invariant level <= Hops(depth)
        invariant visited == Ball(v, start, level) && Frontier(v, visited, frontier)
        invariant Growing(v, seeds, maxNodes, visited, found, tree) && Hangs(v, seeds, visited, tree, level)
        invariant |visited| < maxNodes || visited == seeds
        decreases depth - level
      {
        ghost var inner := visited;
        visited, frontier, tree, found :=
          ExpandLevel(visited, frontier, tree, allowed, maxNodes, filters, start, level, seeds, found);
        level := level + 1;
        if frontier == [] || |visited| >= maxNodes {
          LastLevel(v, start, level, Hops(depth), inner, visited, maxNodes, frontier == []);
          break;
        }
      }
      BallGrows(v, start, Hops(depth), Hops(depth) + 1);
      HangsDeeper(v, seeds, visited, tree, level, Hops(depth));
      GrownIsForest(v, seeds, maxNodes, visited, found, tree, Hops(depth));
    }

    /** Level-by-level undirected expansion from the visible seeds: `reached` are the returned
        nodes by URI, `tree` the returned edges. */
    method Expand(seedUris: seq<Uri>, depth: int, edgeTypes: seq<Rel>, maxNodes: int, filters: Filters)
      returns (reached: map<Uri, Node>, tree: seq<Edge>)
      // The edge types asked for, or all but memory links; a negative depth means none.
      ensures var allowed := if edgeTypes != [] then set r | r in edgeTypes
                             else {CONTAINS, MENTIONS, DOCUMENTED_IN, DEPENDS_ON, CALLS, OWNS, IMPLEMENTS, AFFECTS};
              var v, hops: nat := View(Value(), filters, allowed), if depth < 0 then 0 else depth;
              var start, seeds := set u | u in seedUris, set u | u in seedUris && Visible(nodes, filters, u);
              // Never more than the declarative answer, and all of it below the node cap.
              && (forall u | u in reached :: Within(v, start, u, hops))
              && (|reached| < maxNodes ==> forall u | Within(v, start, u, hops) :: u in reached)
              // Cut short, it leaves out no node that is nearer than one it returns.
              && (forall u, w, k: nat | u in reached && Within(v, start, w, k) && !Within(v, start, u, k) :: w in reached)
              // One discovering edge for each node that is not a visible seed, the depth and the size bound.
              && SpanningForest(v, seeds, reached.Keys, tree, hops)
              && (|reached| <= maxNodes || |reached| <= |seeds| + 1)
      ensures forall u | u in reached :: u in nodes && reached[u] == nodes[u]
      ensures forall e | e in tree :: e in edges && if edgeTypes != [] then e.rel in edgeTypes else e.rel in DEFAULT_EDGE_TYPES
    {
      hide Ball, Within, SpanningForest, WholeLevels;
      var allowed := if edgeTypes != [] then set r | r in edgeTypes else DEFAULT_EDGE_TYPES;
      var v := View(Value(), filters, allowed);
      var seeds := set u | u in seedUris && Visible(nodes, filters, u);
      SeedsAreBall(v, seedUris);
      var visited;
      visited, tree := ExpandLevels(seeds, depth, allowed, maxNodes, filters, Elements(seedUris));
      BallAnswers(v, Elements(seedUris), Hops(depth), visited, maxNodes);
      NearestFirst(v, Elements(seedUris), Hops(depth), visited);
      ForestEdgesUsable(v, seeds, visited, tree, Hops(depth));
      reached := Picked(nodes, visited);
      assert visited * nodes.Keys == visited;
      assert |reached| == |reached.Keys|;
    }
  }
}
