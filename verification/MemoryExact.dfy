/**
 What upserts and deletes of memories answer and leave, said outright: the reasons given for rejected
 items, the graph edges of accepted ones, and what a delete takes from each store.
 */
module MemoryExact {
  import opened Uris
  import opened MemoryModel
  import G = Graph
  import opened GraphExact

  // ---------------------------------------------------------------- the answer of an upsert

  predicate Rejected(rules: Rules, items: seq<Item>, i: nat) {
    i < |items| && rules.validate(items[i]) != []
  }

  /** Item `i` was rejected and no later rejected item is reported under the same heading. */
  ghost predicate LastRejected(rules: Rules, items: seq<Item>, i: nat) {
    && Rejected(rules, items, i)
    && forall j: nat | i < j && Rejected(rules, items, j) :: Label(items[j].text) != Label(items[i].text)
  }

  lemma StoreAllSnoc(rules: Rules, s: Memories, ws: string, subject: string, items: seq<Item>)
    ensures if items == [] then StoreAll(rules, s, ws, subject, items).1.reports == map[]
            else
              var n := |items| - 1;
              var before := StoreAll(rules, s, ws, subject, items[..n]).1.reports;
              StoreAll(rules, s, ws, subject, items).1.reports ==
                if rules.validate(items[n]) != [] then before[Label(items[n].text) := rules.validate(items[n])] else before
  {}

  lemma {:induction false} ReportHeadings(rules: Rules, s: Memories, ws: string, subject: string, items: seq<Item>, heading: string)
    ensures heading in StoreAll(rules, s, ws, subject, items).1.reports <==>
            exists i: nat :: Rejected(rules, items, i) && heading == Label(items[i].text)
  {
    hide StoreAll, Label;
    StoreAllSnoc(rules, s, ws, subject, items);
    if items != [] {
      var n := |items| - 1;
      ReportHeadings(rules, s, ws, subject, items[..n], heading);
      assert forall i: nat | i < n :: Rejected(rules, items[..n], i) <==> Rejected(rules, items, i);
      assert Rejected(rules, items, n) <==> rules.validate(items[n]) != [];
      if i: nat :| Rejected(rules, items[..n], i) && heading == Label(items[..n][i].text) {
        assert Rejected(rules, items, i) && items[i] == items[..n][i];
      }
      if i: nat :| Rejected(rules, items, i) && heading == Label(items[i].text) {
        if i < n { assert Rejected(rules, items[..n], i) && items[i] == items[..n][i]; }
      }
    }
  }

  lemma {:induction false} ReportReasons(rules: Rules, s: Memories, ws: string, subject: string, items: seq<Item>, i: nat)
    requires LastRejected(rules, items, i)
    ensures var reports := StoreAll(rules, s, ws, subject, items).1.reports;
            Label(items[i].text) in reports && reports[Label(items[i].text)] == rules.validate(items[i])
  {
    hide StoreAll, Label;
    StoreAllSnoc(rules, s, ws, subject, items);
    var n := |items| - 1;
    if i < n {
      forall j: nat | i < j && Rejected(rules, items[..n], j) ensures Label(items[..n][j].text) != Label(items[..n][i].text) {
        assert Rejected(rules, items, j);
      }
      assert LastRejected(rules, items[..n], i);
      ReportReasons(rules, s, ws, subject, items[..n], i);
      if Rejected(rules, items, n) { assert Label(items[n].text) != Label(items[i].text); }
    }
  }

  /** The answer reports each rejected item, under the first forty characters of its text, with the
      reasons of the last item so reported, and nothing else. */
  lemma ReportsExact(rules: Rules, s: Memories, ws: string, subject: string, items: seq<Item>, heading: string)
    ensures var reports := StoreAll(rules, s, ws, subject, items).1.reports;
            && (heading in reports <==>
                  exists i :: 0 <= i < |items| && rules.validate(items[i]) != []
                    && if |items[i].text| <= 40 then heading == items[i].text else heading == items[i].text[..40])
            && forall i | 0 <= i < |items| && rules.validate(items[i]) != []
                 && (if |items[i].text| <= 40 then heading == items[i].text else heading == items[i].text[..40])
                 && (forall j | i < j < |items| && rules.validate(items[j]) != [] ::
                       if |items[j].text| <= 40 then heading != items[j].text else heading != items[j].text[..40]) ::
                 reports[heading] == rules.validate(items[i])
  {
    hide StoreAll;
    ReportHeadings(rules, s, ws, subject, items, heading);
    if i: nat :| Rejected(rules, items, i) && heading == Label(items[i].text) {
      assert rules.validate(items[i]) != [];
    }
    forall i | 0 <= i < |items| && rules.validate(items[i]) != []
        && (if |items[i].text| <= 40 then heading == items[i].text else heading == items[i].text[..40])
      ensures Rejected(rules, items, i) && heading == Label(items[i].text)
    {}
    forall i | 0 <= i < |items| && rules.validate(items[i]) != []
        && (if |items[i].text| <= 40 then heading == items[i].text else heading == items[i].text[..40])
        && (forall j | i < j < |items| && rules.validate(items[j]) != [] ::
              if |items[j].text| <= 40 then heading != items[j].text else heading != items[j].text[..40])
      ensures StoreAll(rules, s, ws, subject, items).1.reports[heading] == rules.validate(items[i])
    {
      ReportReasons(rules, s, ws, subject, items, i);
    }
  }

  /** An unkeyed upsert stores no reply; a keyed one stores its own answer and no other. */
  lemma UpsertReplies(rules: Rules, s: Memories, ws: string, subject: string, items: seq<Item>, key: string)
    ensures var (t, a) := Upsert(rules, s, ws, subject, items, key);
            t.replies == if key == "" then s.replies else s.replies[ReplyKey(rules, ws, subject, key, items) := a]
  {
    StoreAllKeepsReplies(rules, s, ws, subject, items);
    var rk := ReplyKey(rules, ws, subject, key, items);
    if rk in s.replies { assert s.replies[rk := s.replies[rk]] == s.replies; }
  }

  // ---------------------------------------------------------------- the graph side

  /** An upsert adds exactly one kind of edge: from each stored memory to each entity it refers to. */
  lemma {:induction false} StoreAllEdges(rules: Rules, s: Memories, ws: string, subject: string, items: seq<Item>)
    ensures var t, ok := StoreAll(rules, s, ws, subject, items).0, Accepted(rules, items);
            && t.nextId == s.nextId + |ok|
            && forall e :: e in t.graph.edges <==>
                 || e in s.graph.edges
                 || exists i: nat, u :: i < |ok| && u in ok[i].refs && e == G.Edge(Memory(s.nextId + i), G.MEMORY_REFERS_TO, u)
  {
    if items != [] {
      hide G.UpsertMemoryLinks;
      var n := |items| - 1;
      StoreAllEdges(rules, s, ws, subject, items[..n]);
      var t, front := StoreAll(rules, s, ws, subject, items[..n]).0, Accepted(rules, items[..n]);
      var ok := Accepted(rules, items);
      if rules.validate(items[n]) == [] {
        assert ok == front + [items[n]];
        LinksAdd(t.graph, Memory(t.nextId), items[n].refs, ws);
        forall e
          ensures e in StoreAll(rules, s, ws, subject, items).0.graph.edges <==>
                  || e in s.graph.edges
                  || exists i: nat, u :: i < |ok| && u in ok[i].refs && e == G.Edge(Memory(s.nextId + i), G.MEMORY_REFERS_TO, u)
        {
          if i: nat, u :| i < |front| && u in front[i].refs && e == G.Edge(Memory(s.nextId + i), G.MEMORY_REFERS_TO, u) {
            assert ok[i] == front[i];
          }
          if u :| u in items[n].refs && e == G.Edge(Memory(t.nextId), G.MEMORY_REFERS_TO, u) {
            assert ok[|front|] == items[n];
          }
          if i: nat, u :| i < |ok| && u in ok[i].refs && e == G.Edge(Memory(s.nextId + i), G.MEMORY_REFERS_TO, u) {
            if i < |front| { assert ok[i] == front[i]; }
          }
        }
      } else {
        assert ok == front;
      }
    }
  }

  lemma LinksAdd(g: G.State, memory: Uri, refs: seq<Uri>, ws: string)
    ensures forall e :: e in G.UpsertMemoryLinks(g, memory, refs, ws).edges <==>
              e in g.edges || exists u :: u in refs && e == G.Edge(memory, G.MEMORY_REFERS_TO, u)
  {
    MemoryEdgesExact(g, memory, refs, ws);
    var n, edges := |g.edges|, G.UpsertMemoryLinks(g, memory, refs, ws).edges;
    forall u | u in refs ensures G.Edge(memory, G.MEMORY_REFERS_TO, u) in edges {
      var i :| 0 <= i < |refs| && refs[i] == u;
      assert edges[n + i] == G.Edge(memory, G.MEMORY_REFERS_TO, u);
    }
    forall e | e in g.edges ensures e in edges {
      var i :| 0 <= i < n && g.edges[i] == e;
      assert edges[..n][i] == e;
    }
    forall e | e in edges ensures e in g.edges || exists u :: u in refs && e == G.Edge(memory, G.MEMORY_REFERS_TO, u) {
      var i :| 0 <= i < |edges| && edges[i] == e;
      if i < n { assert edges[..n][i] == e; } else { assert edges[n + (i - n)] == e && refs[i - n] in refs; }
    }
  }

  // ---------------------------------------------------------------- deletes

  /** A delete takes from the vector store the listed items of the workspace and subject (each ignored
      when empty), from metadata every listed record, and from the graph the listed memory nodes of
      the workspace with all edges that touch them; the rest stays. */
  lemma DeleteTakes(s: Memories, ws: string, subject: string, ids: seq<nat>)
    ensures var t := DeleteIds(s, ws, subject, ids);
            && (forall id :: id in t.items <==>
                  && id in s.items
                  && !(id in ids && (ws == "" || s.items[id].workspace == ws) && (subject == "" || subject in s.items[id].acl)))
            && (forall id | id in t.items :: t.items[id] == s.items[id])
            && (forall id :: id in t.records <==> id in s.records && id !in ids)
            && (forall id | id in t.records :: t.records[id] == s.records[id])
            && t.replies == s.replies && t.nextId == s.nextId
  {}

  predicate TakenNode(s: Memories, ws: string, ids: seq<nat>, u: Uri) {
    u.Memory? && u.memoryId in ids && u in s.graph.nodes && s.graph.nodes[u].workspace == ws
  }

  /** After a delete no listed memory node of the workspace is stored and no edge touches one; every
      other node and edge stays. */
  lemma DeleteForgets(s: Memories, ws: string, subject: string, ids: seq<nat>)
    ensures var g := DeleteIds(s, ws, subject, ids).graph;
            && (forall u :: u in g.nodes <==> u in s.graph.nodes && !TakenNode(s, ws, ids, u))
            && (forall u | u in g.nodes :: g.nodes[u] == s.graph.nodes[u])
            && (forall e :: e in g.edges <==>
                  e in s.graph.edges && !TakenNode(s, ws, ids, e.src) && !TakenNode(s, ws, ids, e.dst))
  {
    DeleteExact(s.graph, MemoryUris(ids), ws);
    forall u ensures u in MemoryUris(ids) <==> u.Memory? && u.memoryId in ids {
      if u.Memory? && u.memoryId in ids {
        var i :| 0 <= i < |ids| && ids[i] == u.memoryId;
        assert MemoryUris(ids)[i] == u;
      }
    }
  }

  lemma DroppedCount<V>(m: map<nat, V>, gone: set<nat>)
    requires gone <= m.Keys
    ensures |m - gone| == |m| - |gone|
  {
    assert (m - gone).Keys == m.Keys - gone;
    assert |(m - gone).Keys| == |m - gone|;
  }

  /** The count a delete returns: how many vector items went, if no metadata record did, else the
      smaller of the two numbers. */
  lemma DeletedCountExact(s: Memories, ws: string, subject: string, ids: seq<nat>)
    ensures var t := DeleteIds(s, ws, subject, ids);
            var v, m := |s.items| - |t.items|, |s.records| - |t.records|;
            DeletedCount(s, ws, subject, ids) == if m == 0 then v else if v < m then v else m
  {
    DroppedCount(s.items, Matching(s.items, ws, subject, ids));
    DroppedCount(s.records, Recorded(s.records, ids));
  }
}
