/**
 What a bounded expansion should return, said without an algorithm: the visible nodes that a
 walk of at most so many undirected hops joins to a visible seed. Also how upserts and
 repeated upserts act on that set.
 */
module GraphReach {
  import opened Text
  import opened Uris
  import opened Graph

  /** One reader's view of one graph: which nodes it may see and which edge types it follows. */
  datatype View = View(graph: State, filters: Filters, allowed: set<Rel>)

  predicate Sees(v: View, u: Uri) {
    Visible(v.graph.nodes, v.filters, u)
  }

  predicate Usable(v: View, e: Edge) {
    e.rel in v.allowed && Sees(v, e.src) && Sees(v, e.dst)
  }

  predicate Joins(e: Edge, a: Uri, b: Uri) {
    (e.src == a && e.dst == b) || (e.src == b && e.dst == a)
  }

  ghost predicate Linked(v: View, a: Uri, b: Uri) {
    exists e :: e in v.graph.edges && Usable(v, e) && Joins(e, a, b)
  }

  /** A walk visits visible nodes only, each step over one usable edge in either direction. */
  ghost predicate Walk(v: View, p: seq<Uri>) {
    && p != []
    && (forall i | 0 <= i < |p| :: Sees(v, p[i]))
    && (forall i | 0 <= i < |p| - 1 :: Linked(v, p[i], p[i + 1]))
  }

  /** `u` is at most `hops` steps away from one of the seeds. */
  ghost predicate Within(v: View, seeds: set<Uri>, u: Uri, hops: nat) {
    exists p :: Walk(v, p) && p[0] in seeds && p[|p| - 1] == u && |p| <= hops + 1
  }

  /** The reachable nodes by distance: the set the traversal grows level by level. */
  ghost function Ball(v: View, seeds: set<Uri>, hops: nat): set<Uri> {
    if hops == 0 then set u | u in seeds && Sees(v, u)
    else
      var inner := Ball(v, seeds, hops - 1);
      inner + set u | u in v.graph.nodes && exists a :: a in inner && Linked(v, a, u)
  }

  lemma {:induction false} WalkInBall(v: View, seeds: set<Uri>, p: seq<Uri>, hops: nat)
    requires Walk(v, p) && p[0] in seeds && |p| <= hops + 1
    ensures p[|p| - 1] in Ball(v, seeds, hops)
  {
    if hops > 0 {
      if |p| == 1 {
        WalkInBall(v, seeds, p, hops - 1);
      } else {
        var q := p[..|p| - 1];
        WalkInBall(v, seeds, q, hops - 1);
        assert Linked(v, p[|p| - 2], p[|p| - 2 + 1]);
      }
    }
  }

  lemma WalkExtends(v: View, p: seq<Uri>, u: Uri)
    requires Walk(v, p) && Linked(v, p[|p| - 1], u)
    ensures Walk(v, p + [u])
  {
    var q := p + [u];
    forall i | 0 <= i < |q| - 1 ensures Linked(v, q[i], q[i + 1]) {
      if i < |p| - 1 { assert Linked(v, p[i], p[i + 1]); }
    }
  }

  lemma {:induction false} BallHasWalk(v: View, seeds: set<Uri>, u: Uri, hops: nat) returns (p: seq<Uri>)
    requires u in Ball(v, seeds, hops)
    ensures Walk(v, p) && p[0] in seeds && p[|p| - 1] == u && |p| <= hops + 1
    decreases hops
  {
    hide Linked;
    if hops == 0 {
      p := [u];
    } else if u in Ball(v, seeds, hops - 1) {
      p := BallHasWalk(v, seeds, u, hops - 1);
    } else {
      var a :| a in Ball(v, seeds, hops - 1) && Linked(v, a, u);
      var q := BallHasWalk(v, seeds, a, hops - 1);
      WalkExtends(v, q, u);
      p := q + [u];
    }
  }

  lemma BallIsWithin(v: View, seeds: set<Uri>, u: Uri, hops: nat)
    ensures u in Ball(v, seeds, hops) <==> Within(v, seeds, u, hops)
  {
    if u in Ball(v, seeds, hops) {
      var p := BallHasWalk(v, seeds, u, hops);
    }
    if Within(v, seeds, u, hops) {
      var p :| Walk(v, p) && p[0] in seeds && p[|p| - 1] == u && |p| <= hops + 1;
      WalkInBall(v, seeds, p, hops);
    }
  }

  /** Once a ball stops growing it never grows again. */
  lemma {:induction false} BallFixpoint(v: View, seeds: set<Uri>, k: nat, n: nat)
    requires k <= n
    requires Ball(v, seeds, k + 1) <= Ball(v, seeds, k)
    ensures Ball(v, seeds, n) == Ball(v, seeds, k)
    decreases n - k
  {
    hide Linked;
    if k < n {
      assert Ball(v, seeds, k + 1) == Ball(v, seeds, k);
      BallFixpoint(v, seeds, k + 1, n);
    }
  }

  lemma {:induction false} BallGrows(v: View, seeds: set<Uri>, k: nat, n: nat)
    requires k <= n
    ensures Ball(v, seeds, k) <= Ball(v, seeds, n)
    decreases n
  {
    if k < n { BallGrows(v, seeds, k, n - 1); }
  }

  // ---------------------------------------------------------------- comparing two graphs

  /** If every visible node and usable edge of one view is in the other, so is every walk. */
  lemma WithinMonotone(v: View, w: View, seeds: set<Uri>, u: Uri, hops: nat)
    requires forall x | Sees(v, x) :: Sees(w, x)
    requires v.allowed <= w.allowed
    requires forall e | e in v.graph.edges :: e in w.graph.edges
    requires Within(v, seeds, u, hops)
    ensures Within(w, seeds, u, hops)
  {
    var p :| Walk(v, p) && p[0] in seeds && p[|p| - 1] == u && |p| <= hops + 1;
    forall i | 0 <= i < |p| - 1 ensures Linked(w, p[i], p[i + 1]) {
      assert Linked(v, p[i], p[i + 1]);
      var e :| e in v.graph.edges && Usable(v, e) && Joins(e, p[i], p[i + 1]);
      assert Usable(w, e);
    }
    assert Walk(w, p);
  }

  /** An upsert made in a workspace takes nothing away from that workspace's readers: from any
      seeds, to any depth, over any edge types, they still reach what they reached. */
  lemma UpsertKeepsReach(g: State, op: Op, f: Filters, allowed: set<Rel>, seeds: set<Uri>, u: Uri, hops: nat)
    requires !op.DeleteOp? && f.workspace == op.ws
    requires Within(View(g, f, allowed), seeds, u, hops)
    ensures Within(View(Apply(g, op), f, allowed), seeds, u, hops)
  {
    var v, w := View(g, f, allowed), View(Apply(g, op), f, allowed);
    forall x | Sees(v, x) ensures Sees(w, x) {
      UpsertKeepsVisible(g, op, f, x);
    }
    WithinMonotone(v, w, seeds, u, hops);
  }

  // ---------------------------------------------------------------- repeating an upsert

  /** The two graphs look the same to every reader. */
  ghost predicate SameForReaders(g: State, h: State) {
    && (forall f: Filters, u: Uri :: Visible(g.nodes, f, u) <==> Visible(h.nodes, f, u))
    && (forall e :: e in g.edges <==> e in h.edges)
  }

  /** Every non-blank entry of the list is also there in trimmed form. */
  predicate WellTrimmed(acl: seq<string>) {
    forall e | e in acl :: Strip(e) == "" || Strip(e) in acl
  }

  /** The node already carries everything that touching it with (ws, acl) would add. */
  ghost predicate Saturated(nodes: Nodes, u: Uri, ws: string, acl: seq<string>) {
    && u in nodes && nodes[u].workspace == ws
    && Permitted(nodes[u].acl) == Stripped(nodes[u].acl)
    && Stripped(acl) <= Permitted(nodes[u].acl)
  }

  lemma WellTrimmedPermits(acl: seq<string>)
    requires WellTrimmed(acl)
    ensures Permitted(acl) == Stripped(acl)
  {
    PermittedIsStripped(acl);
    forall s | s in Stripped(acl) ensures s in Permitted(acl) {
      var e :| e in acl && Strip(e) != "" && Strip(e) == s;
      StripTrims(e);
    }
  }

  lemma TouchSaturates(nodes: Nodes, u: Uri, kind: Kind, x: Uri, ws: string, acl: seq<string>)
    requires x == u || Saturated(nodes, x, ws, acl)
    requires u in nodes || WellTrimmed(acl) || x != u
    ensures Saturated(Touch(nodes, u, kind, ws, acl), x, ws, acl)
  {
    if u in nodes {
      MergeAclContents(nodes[u].acl, acl);
    } else if x == u {
      WellTrimmedPermits(acl);
      PermittedIsStripped(acl);
    }
  }

  /** The target at `i` is the only one of its name. */
  predicate Once(targets: seq<(Uri, Kind)>, i: nat)
    requires i < |targets|
  {
    forall j | 0 <= j < |targets| && j != i :: targets[j].0 != targets[i].0
  }

  /** The upsert stores a node that is missing and that it names once. */
  predicate StoresFresh(nodes: Nodes, targets: seq<(Uri, Kind)>) {
    exists i :: 0 <= i < |targets| && targets[i].0 !in nodes && Once(targets, i)
  }

  /** The entry list reaches every target well-trimmed: as given, or by being merged. */
  predicate Merges(nodes: Nodes, targets: seq<(Uri, Kind)>, acl: seq<string>) {
    WellTrimmed(acl) || !StoresFresh(nodes, targets)
  }

  lemma {:induction false} TouchAllSaturates(nodes: Nodes, targets: seq<(Uri, Kind)>, ws: string, acl: seq<string>, i: nat)
    requires i < |targets| && (WellTrimmed(acl) || targets[i].0 in nodes || !Once(targets, i))
    ensures Saturated(TouchAll(nodes, targets, ws, acl), targets[i].0, ws, acl)
  {
    hide Touch, Saturated, WellTrimmed;
    var front, last := targets[..|targets| - 1], targets[|targets| - 1];
    var u := targets[i].0;
    TouchAllEffect(nodes, front, ws, acl, u);
    if last.0 != u {
      assert front[i] == targets[i];
      TouchAllSaturates(nodes, front, ws, acl, i);
    } else if !Once(targets, i) {
      var j :| 0 <= j < |targets| && j != i && targets[j].0 == u;
      var m := if j < i then j else i;
      assert front[m] == targets[m] && (u, front[m].1) in front;
    }
    TouchSaturates(TouchAll(nodes, front, ws, acl), last.0, last.1, u, ws, acl);
  }

  /** Touching saturated nodes changes what no reader sees. */
  lemma {:induction false} TouchSaturatedIsInvisible(nodes: Nodes, targets: seq<(Uri, Kind)>, ws: string, acl: seq<string>)
    requires forall t | t in targets :: Saturated(nodes, t.0, ws, acl)
    ensures forall u :: u in TouchAll(nodes, targets, ws, acl) <==> u in nodes
    ensures forall u | u in nodes ::
              var n := TouchAll(nodes, targets, ws, acl)[u];
              n.workspace == nodes[u].workspace && Permitted(n.acl) == Permitted(nodes[u].acl)
    ensures forall u | Saturated(nodes, u, ws, acl) :: Saturated(TouchAll(nodes, targets, ws, acl), u, ws, acl)
  {
    if targets != [] {
      var front, last := targets[..|targets| - 1], targets[|targets| - 1];
      assert targets == front + [last];
      TouchSaturatedIsInvisible(nodes, front, ws, acl);
      var mid := TouchAll(nodes, front, ws, acl);
      assert Saturated(mid, last.0, ws, acl);
      MergeAclContents(mid[last.0].acl, acl);
      forall u | Saturated(nodes, u, ws, acl) ensures Saturated(TouchAll(nodes, targets, ws, acl), u, ws, acl) {
        TouchSaturates(mid, last.0, last.1, u, ws, acl);
      }
    }
  }

  /** Repeating `upsert_mentions` adds duplicate edges but leaves every reader's picture, hence every
      untruncated expansion, as it was, if the list is well-trimmed or no node was stored with it. */
  lemma RepeatedMentionsUnseen(g: State, doc: Uri, chunk: Uri, entities: seq<Uri>, ws: string, acl: seq<string>)
    requires Merges(g.nodes, MentionTargets(doc, chunk, entities), acl)
    ensures var once := UpsertMentions(g, doc, chunk, entities, ws, acl);
            SameForReaders(once, UpsertMentions(once, doc, chunk, entities, ws, acl))
  {
    hide Saturated, TouchAll, MentionTargets, WellTrimmed, Once;
    var once := UpsertMentions(g, doc, chunk, entities, ws, acl);
    var twice := UpsertMentions(once, doc, chunk, entities, ws, acl);
    var ts := MentionTargets(doc, chunk, entities);
    forall t | t in ts ensures Saturated(once.nodes, t.0, ws, acl) {
      var i :| 0 <= i < |ts| && ts[i] == t;
      TouchAllSaturates(g.nodes, ts, ws, acl, i);
    }
    TouchSaturatedIsInvisible(once.nodes, ts, ws, acl);
    forall f: Filters, u: Uri ensures Visible(once.nodes, f, u) <==> Visible(twice.nodes, f, u) {
      if u in once.nodes {
        AclAllowsByPermitted(once.nodes[u].acl, f);
        AclAllowsByPermitted(twice.nodes[u].acl, f);
      }
    }
  }

  lemma SameForReadersSameReach(g: State, h: State, f: Filters, allowed: set<Rel>, seeds: set<Uri>, u: Uri, hops: nat)
    requires SameForReaders(g, h)
    ensures Within(View(g, f, allowed), seeds, u, hops) <==> Within(View(h, f, allowed), seeds, u, hops)
  {
    var v, w := View(g, f, allowed), View(h, f, allowed);
    if Within(v, seeds, u, hops) { WithinMonotone(v, w, seeds, u, hops); }
    if Within(w, seeds, u, hops) { WithinMonotone(w, v, seeds, u, hops); }
  }

  /** In terms of walks: from any seeds, to any depth, over any edge types, every reader reaches the
      same nodes after the repeat as before it. */
  lemma RepeatedMentionsSameReach(g: State, doc: Uri, chunk: Uri, entities: seq<Uri>, ws: string, acl: seq<string>,
                                  f: Filters, allowed: set<Rel>, seeds: set<Uri>, u: Uri, hops: nat)
    requires Merges(g.nodes, MentionTargets(doc, chunk, entities), acl)
    ensures var once := UpsertMentions(g, doc, chunk, entities, ws, acl);
            var twice := UpsertMentions(once, doc, chunk, entities, ws, acl);
            Within(View(once, f, allowed), seeds, u, hops) <==> Within(View(twice, f, allowed), seeds, u, hops)
  {
    hide UpsertMentions, Within, Merges;
    var once := UpsertMentions(g, doc, chunk, entities, ws, acl);
    RepeatedMentionsUnseen(g, doc, chunk, entities, ws, acl);
    SameForReadersSameReach(once, UpsertMentions(once, doc, chunk, entities, ws, acl), f, allowed, seeds, u, hops);
  }

  /** The condition is the exact one, graph by graph: only a missing node, named once, is stored with
      the list as given, and only an entry whose trimmed form is not listed shows it the second time. */
  lemma RepeatedMentionsUnseenIff(g: State, doc: Uri, chunk: Uri, entities: seq<Uri>, ws: string, acl: seq<string>)
    ensures var once := UpsertMentions(g, doc, chunk, entities, ws, acl);
            SameForReaders(once, UpsertMentions(once, doc, chunk, entities, ws, acl))
            <==> WellTrimmed(acl) || !StoresFresh(g.nodes, MentionTargets(doc, chunk, entities))
  {
    hide UpsertMentions, MentionTargets, Once, Strip;
    var ts := MentionTargets(doc, chunk, entities);
    if Merges(g.nodes, ts, acl) {
      RepeatedMentionsUnseen(g, doc, chunk, entities, ws, acl);
    } else {
      var e :| e in acl && Strip(e) != "" && Strip(e) !in acl;
      var i: nat :| i < |ts| && ts[i].0 !in g.nodes && Once(ts, i);
      UntrimmedEntryShows(g, doc, chunk, entities, ws, acl, e, i);
    }
  }

  /** An entry whose trimmed form is missing shows a freshly stored node to that reader only the
      second time. */
  lemma UntrimmedEntryShows(g: State, doc: Uri, chunk: Uri, entities: seq<Uri>, ws: string, acl: seq<string>, e: string, i: nat)
    requires var ts := MentionTargets(doc, chunk, entities);
             i < |ts| && ts[i].0 !in g.nodes && Once(ts, i)
    requires e in acl && Strip(e) != "" && Strip(e) !in acl
    ensures var once := UpsertMentions(g, doc, chunk, entities, ws, acl);
            var twice := UpsertMentions(once, doc, chunk, entities, ws, acl);
            var reader, u := Filters(ws, e, [], true), MentionTargets(doc, chunk, entities)[i].0;
            !Visible(once.nodes, reader, u) && Visible(twice.nodes, reader, u)
  {
    hide MergeAcl, TouchAll, Strip, MentionTargets, Once, Visible;
    var ts := MentionTargets(doc, chunk, entities);
    var once := UpsertMentions(g, doc, chunk, entities, ws, acl);
    OnlyTouch(g.nodes, ts, ws, acl, i);
    OnlyTouch(once.nodes, ts, ws, acl, i);
    ReaderSees(once.nodes, ts[i].0, ws, e);
    ReaderSees(UpsertMentions(once, doc, chunk, entities, ws, acl).nodes, ts[i].0, ws, e);
    MergeAclContents(acl, acl);
    StrippedHas(acl, e);
  }

  lemma StrippedHas(acl: seq<string>, e: string)
    requires e in acl && Strip(e) != ""
    ensures Strip(e) in Stripped(acl)
  {}

  lemma ReaderSees(nodes: Nodes, u: Uri, ws: string, e: string)
    requires u in nodes && nodes[u].workspace == ws && Strip(e) != ""
    ensures Visible(nodes, Filters(ws, e, [], true), u) <==> Strip(e) in nodes[u].acl
  {
    hide Strip;
    assert AclSubjects(Filters(ws, e, [], true)) == {Strip(e)};
  }

  /** A node touched once takes the list as given if it was missing, else the merged list. */
  lemma {:induction false} OnlyTouch(nodes: Nodes, targets: seq<(Uri, Kind)>, ws: string, acl: seq<string>, i: nat)
    requires i < |targets| && Once(targets, i)
    ensures var (u, kind) := targets[i];
            && u in TouchAll(nodes, targets, ws, acl)
            && TouchAll(nodes, targets, ws, acl)[u] ==
                 if u in nodes then Node(nodes[u].kind, ws, MergeAcl(nodes[u].acl, acl)) else Node(kind, ws, acl)
  {
    hide MergeAcl;
    var front, last := targets[..|targets| - 1], targets[|targets| - 1];
    var u := targets[i].0;
    if i < |front| {
      assert front[i] == targets[i];
      OnlyTouch(nodes, front, ws, acl, i);
    } else {
      assert forall k :: (u, k) !in front;
      TouchAllEffect(nodes, front, ws, acl, u);
    }
  }
}
