/**
 The in-memory graph as a value: nodes by URI, a list of directed edges, the ACL merge, the
 upserts and deletes, and what a reader may see. `GraphStore` holds the class that updates
 these values in place, and its traversal.
 */
module Graph {
  import opened Text
  import opened Uris

  datatype Kind = DocumentNode | ChunkNode | EntityNode | MemoryNode

  /** `acl` is empty when the stored node has no `acl_allow` property. */
  datatype Node = Node(kind: Kind, workspace: string, acl: seq<string>)

  datatype Rel =
    | CONTAINS | MENTIONS | DOCUMENTED_IN
    | DEPENDS_ON | CALLS | OWNS | IMPLEMENTS | AFFECTS
    | MEMORY_REFERS_TO
    | OtherRel(name: string)

  datatype Edge = Edge(src: Uri, rel: Rel, dst: Uri)

  datatype Relation = Relation(src: Uri, rel: Rel, dst: Uri)

  type Nodes = map<Uri, Node>

  datatype State = State(nodes: Nodes, edges: seq<Edge>)

  const EMPTY := State(map[], [])

  // ---------------------------------------------------------------- access lists

  /** The accumulator step of `_merge_acl`: keep the stripped value if it is new. */
  function Keep(values: seq<string>, item: string): seq<string> {
    var v := Strip(item);
    if v != "" && v !in values then values + [v] else values
  }

  function KeepAll(values: seq<string>, items: seq<string>): seq<string> {
    if items == [] then values else Keep(KeepAll(values, items[..|items| - 1]), items[|items| - 1])
  }

  function MergeAcl(existing: seq<string>, incoming: seq<string>): seq<string> {
    KeepAll(KeepAll([], existing), incoming)
  }

  /** The entries of an access list after stripping. */
  function Stripped(acl: seq<string>): set<string> {
    set e | e in acl && Strip(e) != "" :: Strip(e)
  }

  /** The entries of an access list that can ever match a reader. */
  function Permitted(acl: seq<string>): set<string> {
    set e | e in acl && Trimmed(e)
  }

  lemma {:induction false} KeepAllContents(values: seq<string>, items: seq<string>)
    requires Distinct(values)
    ensures Distinct(KeepAll(values, items))
    ensures values <= KeepAll(values, items)
    ensures forall v :: v in KeepAll(values, items) <==> v in values || v in Stripped(items)
  {
    if items != [] {
      var front, last := items[..|items| - 1], items[|items| - 1];
      KeepAllContents(values, front);
      assert Stripped(items) == Stripped(front) + Stripped([last]) by {
        assert items == front + [last];
      }
      assert Stripped([last]) == if Strip(last) != "" then {Strip(last)} else {} by {
        assert last in [last];
      }
    }
  }

  /** Merging keeps every stripped, non-empty entry of both lists exactly once, and nothing else. */
  lemma MergeAclContents(existing: seq<string>, incoming: seq<string>)
    ensures Distinct(MergeAcl(existing, incoming))
    ensures forall v :: v in MergeAcl(existing, incoming) <==> v in Stripped(existing) + Stripped(incoming)
    ensures Stripped(MergeAcl(existing, incoming)) == Stripped(existing) + Stripped(incoming)
    ensures Permitted(MergeAcl(existing, incoming)) == Stripped(existing) + Stripped(incoming)
  {
    KeepAllContents([], existing);
    KeepAllContents(KeepAll([], existing), incoming);
    var m := MergeAcl(existing, incoming);
    forall v | v in m ensures Trimmed(v) && Strip(v) == v {
      var e :| (e in existing || e in incoming) && Strip(e) != "" && Strip(e) == v;
      StripTrims(e);
      StripFixes(v);
    }
    assert forall v :: v in Stripped(m) <==> v in m;
  }

  lemma PermittedIsStripped(acl: seq<string>)
    ensures Permitted(acl) <= Stripped(acl)
  {
    forall e | e in Permitted(acl) ensures e in Stripped(acl) {
      StripFixes(e);
    }
  }

  // ---------------------------------------------------------------- visibility

  /** The identity part of the search filters. */
  datatype Filters = Filters(workspace: string, subject: string, roles: seq<string>, enforceAcl: bool)

  function RoleSubject(role: string): string {
    "role:" + role
  }

  function AclSubjects(f: Filters): set<string> {
    (if Strip(f.subject) != "" then {Strip(f.subject)} else {})
    + (set r | r in f.roles && Strip(r) != "" :: RoleSubject(Strip(r)))
  }

  predicate AclAllows(acl: seq<string>, f: Filters) {
    !f.enforceAcl || exists v | v in acl :: v in AclSubjects(f)
  }

  predicate Visible(nodes: Nodes, f: Filters, u: Uri) {
    u in nodes && nodes[u].workspace == f.workspace && AclAllows(nodes[u].acl, f)
  }

  lemma SubjectsAreTrimmed(f: Filters)
    ensures forall s | s in AclSubjects(f) :: Trimmed(s)
  {
    forall s | s in AclSubjects(f) ensures Trimmed(s) {
      if s == Strip(f.subject) {
        StripTrims(f.subject);
      } else {
        var r :| r in f.roles && Strip(r) != "" && s == RoleSubject(Strip(r));
        StripTrims(r);
        assert s[0] == 'r' && s[|s| - 1] == Strip(r)[|Strip(r)| - 1];
      }
    }
  }

  /** Only the trimmed entries of an access list decide what is visible. */
  lemma AclAllowsByPermitted(acl: seq<string>, f: Filters)
    ensures AclAllows(acl, f) <==> !f.enforceAcl || Permitted(acl) * AclSubjects(f) != {}
  {
    SubjectsAreTrimmed(f);
    if v :| v in acl && v in AclSubjects(f) {
      assert v in Permitted(acl) * AclSubjects(f);
    }
    if Permitted(acl) * AclSubjects(f) != {} {
      var v :| v in Permitted(acl) * AclSubjects(f);
      assert v in acl && v in AclSubjects(f);
    }
  }

  // ---------------------------------------------------------------- upserts

  /** Create the node, or re-home it to the caller's workspace and widen its access list. */
  function Touch(nodes: Nodes, u: Uri, kind: Kind, ws: string, acl: seq<string>): Nodes {
    if u in nodes
    then nodes[u := nodes[u].(workspace := ws, acl := MergeAcl(nodes[u].acl, acl))]
    else nodes[u := Node(kind, ws, acl)]
  }

  function TouchAll(nodes: Nodes, targets: seq<(Uri, Kind)>, ws: string, acl: seq<string>): Nodes {
    if targets == [] then nodes
    else
      var (u, kind) := targets[|targets| - 1];
      Touch(TouchAll(nodes, targets[..|targets| - 1], ws, acl), u, kind, ws, acl)
  }

  function MentionTargets(doc: Uri, chunk: Uri, entities: seq<Uri>): seq<(Uri, Kind)> {
    [(doc, DocumentNode), (chunk, ChunkNode)] + seq(|entities|, i requires 0 <= i < |entities| => (entities[i], EntityNode))
  }

  function MentionEdges(doc: Uri, chunk: Uri, entities: seq<Uri>): seq<Edge> {
    if entities == [] then [Edge(doc, CONTAINS, chunk)]
    else
      var e := entities[|entities| - 1];
      MentionEdges(doc, chunk, entities[..|entities| - 1])
        + [Edge(chunk, MENTIONS, e), Edge(e, DOCUMENTED_IN, doc)]
  }

  function UpsertMentions(g: State, doc: Uri, chunk: Uri, entities: seq<Uri>, ws: string, acl: seq<string>): State {
    State(TouchAll(g.nodes, MentionTargets(doc, chunk, entities), ws, acl),
          g.edges + MentionEdges(doc, chunk, entities))
  }

  predicate StorableRelation(r: Relation) {
    && r.src != Blank && r.dst != Blank
    && r.rel in {DEPENDS_ON, CALLS, OWNS, IMPLEMENTS, AFFECTS}
  }

  function RelationTargets(rs: seq<Relation>): seq<(Uri, Kind)> {
    if rs == [] then []
    else
      var r := rs[|rs| - 1];
      RelationTargets(rs[..|rs| - 1])
        + (if StorableRelation(r) then [(r.src, EntityNode), (r.dst, EntityNode)] else [])
  }

  function RelationEdges(rs: seq<Relation>): seq<Edge> {
    if rs == [] then []
    else
      var r := rs[|rs| - 1];
      RelationEdges(rs[..|rs| - 1]) + (if StorableRelation(r) then [Edge(r.src, r.rel, r.dst)] else [])
  }

  function UpsertRelations(g: State, rs: seq<Relation>, ws: string, acl: seq<string>): State {
    State(TouchAll(g.nodes, RelationTargets(rs), ws, acl), g.edges + RelationEdges(rs))
  }

  /** Create the node when it is missing; a node that exists is left as it is. */
  function Ensure(nodes: Nodes, u: Uri, kind: Kind, ws: string): Nodes {
    if u in nodes then nodes else nodes[u := Node(kind, ws, [])]
  }

  function EnsureAll(nodes: Nodes, entities: seq<Uri>, ws: string): Nodes {
    if entities == [] then nodes
    else Ensure(EnsureAll(nodes, entities[..|entities| - 1], ws), entities[|entities| - 1], EntityNode, ws)
  }

  function MemoryEdges(memory: Uri, entities: seq<Uri>): seq<Edge> {
    seq(|entities|, i requires 0 <= i < |entities| => Edge(memory, MEMORY_REFERS_TO, entities[i]))
  }

  function UpsertMemoryLinks(g: State, memory: Uri, entities: seq<Uri>, ws: string): State {
    State(EnsureAll(Ensure(g.nodes, memory, MemoryNode, ws), entities, ws),
          g.edges + MemoryEdges(memory, entities))
  }

  // ---------------------------------------------------------------- deletes

  /** The listed nodes that are stored in the caller's workspace. */
  function Victims(g: State, uris: seq<Uri>, ws: string): set<Uri> {
    set u | u in uris && u in g.nodes && g.nodes[u].workspace == ws
  }

  function EdgesAvoiding(edges: seq<Edge>, gone: set<Uri>): seq<Edge> {
    if edges == [] then []
    else
      var e := edges[|edges| - 1];
      EdgesAvoiding(edges[..|edges| - 1], gone) + (if e.src !in gone && e.dst !in gone then [e] else [])
  }

  /** `delete_chunks` and `delete_memory_nodes` are this same operation. */
  function DeleteNodes(g: State, uris: seq<Uri>, ws: string): State {
    var gone := Victims(g, uris, ws);
    State(g.nodes - gone, EdgesAvoiding(g.edges, gone))
  }

  // ---------------------------------------------------------------- effect on single nodes

  lemma {:induction false} TouchAllEffect(nodes: Nodes, targets: seq<(Uri, Kind)>, ws: string, acl: seq<string>, u: Uri)
    ensures u in TouchAll(nodes, targets, ws, acl) <==> u in nodes || exists k :: (u, k) in targets
    ensures (forall k :: (u, k) !in targets) && u in nodes ==> TouchAll(nodes, targets, ws, acl)[u] == nodes[u]
    ensures (exists k :: (u, k) in targets) ==> TouchAll(nodes, targets, ws, acl)[u].workspace == ws
    ensures u in nodes ==>
              TouchAll(nodes, targets, ws, acl)[u].kind == nodes[u].kind
              && Permitted(nodes[u].acl) <= Permitted(TouchAll(nodes, targets, ws, acl)[u].acl)
  {
    if targets != [] {
      var front, last := targets[..|targets| - 1], targets[|targets| - 1];
      assert targets == front + [last];
      TouchAllEffect(nodes, front, ws, acl, u);
      var before := TouchAll(nodes, front, ws, acl);
      if last.0 == u {
        assert (u, last.1) in targets;
        if u in before {
          MergeAclContents(before[u].acl, acl);
          PermittedIsStripped(before[u].acl);
        }
      } else {
        assert forall k :: (u, k) in targets <==> (u, k) in front;
      }
    }
  }

  lemma {:induction false} EnsureAllEffect(nodes: Nodes, entities: seq<Uri>, ws: string, u: Uri)
    ensures u in EnsureAll(nodes, entities, ws) <==> u in nodes || u in entities
    ensures u in nodes ==> EnsureAll(nodes, entities, ws)[u] == nodes[u]
    ensures u in entities && u !in nodes ==> EnsureAll(nodes, entities, ws)[u] == Node(EntityNode, ws, [])
  {
    if entities != [] {
      assert entities == entities[..|entities| - 1] + [entities[|entities| - 1]];
      EnsureAllEffect(nodes, entities[..|entities| - 1], ws, u);
    }
  }

  lemma {:induction false} EdgesAvoidingContents(edges: seq<Edge>, gone: set<Uri>)
    ensures forall e :: e in EdgesAvoiding(edges, gone) <==> e in edges && e.src !in gone && e.dst !in gone
    ensures |EdgesAvoiding(edges, gone)| <= |edges|
    ensures gone == {} ==> EdgesAvoiding(edges, gone) == edges
  {
    if edges != [] {
      assert edges == edges[..|edges| - 1] + [edges[|edges| - 1]];
      EdgesAvoidingContents(edges[..|edges| - 1], gone);
    }
  }

  lemma {:induction false} MentionEdgesContents(doc: Uri, chunk: Uri, entities: seq<Uri>)
    ensures forall e :: e in MentionEdges(doc, chunk, entities) <==>
              || e == Edge(doc, CONTAINS, chunk)
              || (e.rel == MENTIONS && e.src == chunk && e.dst in entities)
              || (e.rel == DOCUMENTED_IN && e.dst == doc && e.src in entities)
  {
    if entities != [] {
      assert entities == entities[..|entities| - 1] + [entities[|entities| - 1]];
      MentionEdgesContents(doc, chunk, entities[..|entities| - 1]);
    }
  }

  lemma MentionTargetsContents(doc: Uri, chunk: Uri, entities: seq<Uri>, u: Uri)
    ensures (exists k :: (u, k) in MentionTargets(doc, chunk, entities)) <==> u == doc || u == chunk || u in entities
  {
    var t := MentionTargets(doc, chunk, entities);
    assert t[0] == (doc, DocumentNode) && t[1] == (chunk, ChunkNode);
    if u in entities {
      var i :| 0 <= i < |entities| && entities[i] == u;
      assert t[i + 2] == (u, EntityNode);
    }
  }

  lemma {:induction false} RelationContents(rs: seq<Relation>)
    ensures forall e | e in RelationEdges(rs) ::
              && (e.src, EntityNode) in RelationTargets(rs)
              && (e.dst, EntityNode) in RelationTargets(rs)
    ensures forall t | t in RelationTargets(rs) ::
              exists r :: r in rs && StorableRelation(r) && (t.0 == r.src || t.0 == r.dst)
  {
    if rs != [] {
      RelationContents(rs[..|rs| - 1]);
      assert rs == rs[..|rs| - 1] + [rs[|rs| - 1]];
    }
  }

  // ---------------------------------------------------------------- the graph invariant over runs

  datatype Op =
    | MentionsOp(doc: Uri, chunk: Uri, entities: seq<Uri>, ws: string, acl: seq<string>)
    | RelationsOp(relations: seq<Relation>, ws: string, acl: seq<string>)
    | MemoryLinksOp(memory: Uri, refs: seq<Uri>, ws: string)
    | DeleteOp(uris: seq<Uri>, ws: string)

  function Apply(g: State, op: Op): State {
    match op
    case MentionsOp(doc, chunk, entities, ws, acl) => UpsertMentions(g, doc, chunk, entities, ws, acl)
    case RelationsOp(rs, ws, acl) => UpsertRelations(g, rs, ws, acl)
    case MemoryLinksOp(memory, refs, ws) => UpsertMemoryLinks(g, memory, refs, ws)
    case DeleteOp(uris, ws) => DeleteNodes(g, uris, ws)
  }

  function Run(g: State, ops: seq<Op>): State {
    if ops == [] then g else Apply(Run(g, ops[..|ops| - 1]), ops[|ops| - 1])
  }

  /** Every edge joins two stored nodes. */
  ghost predicate Closed(g: State) {
    forall e | e in g.edges :: e.src in g.nodes && e.dst in g.nodes
  }

  lemma ApplyKeepsClosed(g: State, op: Op)
    requires Closed(g)
    ensures Closed(Apply(g, op))
  {
    forall e | e in Apply(g, op).edges
      ensures e.src in Apply(g, op).nodes && e.dst in Apply(g, op).nodes
    {
      match op
      case MentionsOp(doc, chunk, entities, ws, acl) =>
        MentionEdgesContents(doc, chunk, entities);
        forall u | u == e.src || u == e.dst ensures u in Apply(g, op).nodes {
          MentionTargetsContents(doc, chunk, entities, u);
          TouchAllEffect(g.nodes, MentionTargets(doc, chunk, entities), ws, acl, u);
        }
      case RelationsOp(rs, ws, acl) =>
        RelationContents(rs);
        TouchAllEffect(g.nodes, RelationTargets(rs), ws, acl, e.src);
        TouchAllEffect(g.nodes, RelationTargets(rs), ws, acl, e.dst);
      case MemoryLinksOp(memory, refs, ws) =>
        EnsureAllEffect(Ensure(g.nodes, memory, MemoryNode, ws), refs, ws, e.src);
        EnsureAllEffect(Ensure(g.nodes, memory, MemoryNode, ws), refs, ws, e.dst);
      case DeleteOp(uris, ws) =>
        EdgesAvoidingContents(g.edges, Victims(g, uris, ws));
    }
  }

  /** Over every run of upserts and deletes from the empty graph, no edge dangles. */
  lemma {:induction false} RunKeepsClosed(ops: seq<Op>)
    ensures Closed(Run(EMPTY, ops))
  {
    if ops != [] {
      RunKeepsClosed(ops[..|ops| - 1]);
      ApplyKeepsClosed(Run(EMPTY, ops[..|ops| - 1]), ops[|ops| - 1]);
    }
  }

  // ---------------------------------------------------------------- upserts and the caller's readers

  lemma UpsertKeepsVisible(g: State, op: Op, f: Filters, u: Uri)
    requires !op.DeleteOp? && f.workspace == op.ws
    requires Visible(g.nodes, f, u)
    ensures Visible(Apply(g, op).nodes, f, u)
  {
    match op
    case MentionsOp(doc, chunk, entities, ws, acl) =>
      var ts := MentionTargets(doc, chunk, entities);
      TouchAllEffect(g.nodes, ts, ws, acl, u);
      AclAllowsByPermitted(g.nodes[u].acl, f);
      AclAllowsByPermitted(Apply(g, op).nodes[u].acl, f);
    case RelationsOp(rs, ws, acl) =>
      TouchAllEffect(g.nodes, RelationTargets(rs), ws, acl, u);
      AclAllowsByPermitted(g.nodes[u].acl, f);
      AclAllowsByPermitted(Apply(g, op).nodes[u].acl, f);
    case MemoryLinksOp(memory, refs, ws) =>
      EnsureAllEffect(Ensure(g.nodes, memory, MemoryNode, ws), refs, ws, u);
  }

  /** The nodes an upsert names, that is, the ones it may re-home. */
  function Named(op: Op): set<Uri> {
    match op
    case MentionsOp(doc, chunk, entities, _, _) => {doc, chunk} + set e | e in entities
    case RelationsOp(rs, _, _) =>
      (set r | r in rs && StorableRelation(r) :: r.src) + (set r | r in rs && StorableRelation(r) :: r.dst)
    case MemoryLinksOp(_, _, _) => {}
    case DeleteOp(_, _) => {}
  }

  lemma {:induction false} RelationTargetsComplete(rs: seq<Relation>, r: Relation)
    requires r in rs && StorableRelation(r)
    ensures (r.src, EntityNode) in RelationTargets(rs) && (r.dst, EntityNode) in RelationTargets(rs)
  {
    assert rs == rs[..|rs| - 1] + [rs[|rs| - 1]];
    if r != rs[|rs| - 1] {
      RelationTargetsComplete(rs[..|rs| - 1], r);
    }
  }

  /** A reader of another workspace keeps a node through an upsert if and only if the upsert
      does not name it: naming a node moves it to the caller's workspace. */
  lemma UpsertHidesForeignNode(g: State, op: Op, f: Filters, u: Uri)
    requires !op.DeleteOp? && f.workspace != op.ws
    requires Visible(g.nodes, f, u)
    ensures Visible(Apply(g, op).nodes, f, u) <==> u !in Named(op)
  {
    match op
    case MentionsOp(doc, chunk, entities, ws, acl) =>
      MentionTargetsContents(doc, chunk, entities, u);
      TouchAllEffect(g.nodes, MentionTargets(doc, chunk, entities), ws, acl, u);
    case RelationsOp(rs, ws, acl) =>
      var ts := RelationTargets(rs);
      TouchAllEffect(g.nodes, ts, ws, acl, u);
      if u in Named(op) {
        var r :| r in rs && StorableRelation(r) && (u == r.src || u == r.dst);
        RelationTargetsComplete(rs, r);
      } else if k :| (u, k) in ts {
        RelationContents(rs);
        assert false;
      }
    case MemoryLinksOp(memory, refs, ws) =>
      EnsureAllEffect(Ensure(g.nodes, memory, MemoryNode, ws), refs, ws, u);
  }
}
