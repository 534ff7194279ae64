/**
 What an ingestion that stopped leaves to a request for another text: the state of each chunk
 after exactly so many writes, when going back to the recorded text is harmless, and when going on
 to a third text heals.
 */
module IngestRevert {
  import opened Uris
  import opened IngestState
  import opened IngestPlan
  import opened IngestRecovery
  import Graph

  // ---------------------------------------------------------------- where each write stands

  function Texts(cfg: Config, k: Key, text: string): seq<string> {
    cfg.chunker(k.path, text)
  }

  lemma {:induction false} LinksLength(cfg: Config, d: DocId, texts: seq<string>, ws: string, acl: seq<string>)
    ensures |Links(cfg, d, texts, ws, acl)| == 3 * |texts|
  {
    if texts != [] { LinksLength(cfg, d, texts[..|texts| - 1], ws, acl); }
  }

  lemma LinksSnoc(cfg: Config, d: DocId, texts: seq<string>, ws: string, acl: seq<string>)
    requires texts != []
    ensures var n, t := |texts| - 1, texts[|texts| - 1];
            Links(cfg, d, texts, ws, acl) == Links(cfg, d, texts[..n], ws, acl)
              + [PutChunk(ChunkId(d, n), t, ws), LinkMentions(ChunkId(d, n), cfg.entities(t), ws, acl),
                 LinkRelations(cfg.relations(t), ws, acl)]
  {}

  lemma {:induction false} LinksAt(cfg: Config, d: DocId, texts: seq<string>, ws: string, acl: seq<string>, i: nat)
    requires i <= |texts|
    ensures |Links(cfg, d, texts, ws, acl)| == 3 * |texts|
    ensures Links(cfg, d, texts, ws, acl)[..3 * i] == Links(cfg, d, texts[..i], ws, acl)
    ensures i < |texts| ==>
              && Links(cfg, d, texts, ws, acl)[3 * i] == PutChunk(ChunkId(d, i), texts[i], ws)
              && Links(cfg, d, texts, ws, acl)[3 * i + 1] == LinkMentions(ChunkId(d, i), cfg.entities(texts[i]), ws, acl)
              && Links(cfg, d, texts, ws, acl)[3 * i + 2] == LinkRelations(cfg.relations(texts[i]), ws, acl)
  {
    hide Links;
    LinksLength(cfg, d, texts, ws, acl);
    if i == |texts| {
      assert texts[..i] == texts;
    } else {
      var n := |texts| - 1;
      LinksSnoc(cfg, d, texts, ws, acl);
      LinksLength(cfg, d, texts[..n], ws, acl);
      if i == n {
        assert texts[..i] == texts[..n];
      } else {
        LinksAt(cfg, d, texts[..n], ws, acl, i);
        assert texts[..n][..i] == texts[..i] && texts[..n][i] == texts[i];
      }
    }
  }

  /** The plan in its four parts; `n` chunks make `1 + 4 * n` writes before the first clean-up. */
  lemma PlanLayout(cfg: Config, s: Stores, k: Key, text: string, acl: seq<string>)
    ensures var d, texts := Identity(s.docs, k), Texts(cfg, k, text);
            var n, plan := |texts|, Plan(cfg, s, k, text, acl);
            && 1 + 4 * n < |plan|
            && plan[..1 + n] == [PutDoc(d, k)] + Passages(d, texts, k.workspace)
            && plan[1 + n..1 + 4 * n] == Links(cfg, d, texts, k.workspace, acl)
            && plan[1 + 4 * n..] == Drops(cfg.listed(Stale(s.chunks, d, n)), k.workspace) + [SetChecksum(k, Sha256(text))]
  {
    var d, texts := Identity(s.docs, k), Texts(cfg, k, text);
    LinksAt(cfg, d, texts, k.workspace, acl, |texts|);
    var a, b := [PutDoc(d, k)] + Passages(d, texts, k.workspace), Links(cfg, d, texts, k.workspace, acl);
    var c := Drops(cfg.listed(Stale(s.chunks, d, |texts|)), k.workspace) + [SetChecksum(k, Sha256(text))];
    assert Plan(cfg, s, k, text, acl) == a + b + c;
  }

  lemma PlanPuts(cfg: Config, s: Stores, k: Key, text: string, acl: seq<string>, i: nat)
    requires i < |Texts(cfg, k, text)|
    ensures var d, texts, plan := Identity(s.docs, k), Texts(cfg, k, text), Plan(cfg, s, k, text, acl);
            var n := |texts|;
            && 1 + 4 * n < |plan|
            && plan[1 + i] == PutPassage(ChunkId(d, i), texts[i], k.workspace)
            && plan[1 + n + 3 * i] == PutChunk(ChunkId(d, i), texts[i], k.workspace)
            && plan[2 + n + 3 * i] == LinkMentions(ChunkId(d, i), cfg.entities(texts[i]), k.workspace, acl)
            && plan[3 + n + 3 * i] == LinkRelations(cfg.relations(texts[i]), k.workspace, acl)
  {
    hide Links, Plan, Identity;
    PlanLayout(cfg, s, k, text, acl);
    var texts, plan := Texts(cfg, k, text), Plan(cfg, s, k, text, acl);
    var n := |texts|;
    var head, links := plan[..1 + n], plan[1 + n..1 + 4 * n];
    LinksAt(cfg, Identity(s.docs, k), texts, k.workspace, acl, i);
    assert plan[1 + i] == head[1 + i];
    assert plan[1 + n + 3 * i] == links[3 * i] && plan[2 + n + 3 * i] == links[3 * i + 1] && plan[3 + n + 3 * i] == links[3 * i + 2];
  }

  lemma DropsAt(stale: seq<ChunkId>, ws: string, i: nat)
    requires stale != []
    ensures var m, drops := |stale|, Drops(stale, ws);
            && |drops| == 2 * m + 1 && drops[m] == DropNodes(stale, ws)
            && (i < m ==> drops[i] == DropPassage(stale[i], ws) && drops[m + 1 + i] == DropChunk(stale[i]))
  {}

  lemma PlanDrops(cfg: Config, s: Stores, k: Key, text: string, acl: seq<string>, i: nat)
    ensures var d, n, plan := Identity(s.docs, k), |Texts(cfg, k, text)|, Plan(cfg, s, k, text, acl);
            var stale := cfg.listed(set id | id in s.chunks && s.chunks[id].doc == d && !(id.doc == d && id.index < n));
            var m := |stale|;
            && |plan| == 2 + 4 * n + (if m == 0 then 0 else 2 * m + 1)
            && plan[0] == PutDoc(d, k) && plan[|plan| - 1] == SetChecksum(k, Sha256(text))
            && (m > 0 ==> plan[1 + 4 * n + m] == DropNodes(stale, k.workspace))
            && (i < m ==>
                  && plan[1 + 4 * n + i] == DropPassage(stale[i], k.workspace)
                  && plan[2 + 4 * n + m + i] == DropChunk(stale[i]))
  {
    hide Links, Plan, Identity, Drops;
    PlanLayout(cfg, s, k, text, acl);
    var n, plan := |Texts(cfg, k, text)|, Plan(cfg, s, k, text, acl);
    var head, tail := plan[..1 + n], plan[1 + 4 * n..];
    assert plan[0] == head[0] && plan[|plan| - 1] == tail[|tail| - 1];
    var stale := cfg.listed(Stale(s.chunks, Identity(s.docs, k), n));
    if stale == [] {
      NothingDropped(k.workspace);
    } else {
      DropsAt(stale, k.workspace, i);
      assert plan[1 + 4 * n + |stale|] == tail[|stale|];
      if i < |stale| {
        assert plan[1 + 4 * n + i] == tail[i] && plan[2 + 4 * n + |stale| + i] == tail[|stale| + 1 + i];
      }
    }
  }

  lemma NothingDropped(ws: string)
    ensures Drops([], ws) == []
  {}

  /** Every write of a plan by its place: the document; the vector items of the chunks; for each chunk
      its record, its mentions and its relations; for each stale chunk the vector item, then all
      their nodes at once, then their records; the checksum. */
  lemma PlanWrites(cfg: Config, s: Stores, k: Key, text: string, acl: seq<string>, i: nat)
    ensures var d, texts, plan := Identity(s.docs, k), Texts(cfg, k, text), Plan(cfg, s, k, text, acl);
            var n := |texts|;
            var stale := cfg.listed(set id | id in s.chunks && s.chunks[id].doc == d && !(id.doc == d && id.index < n));
            var m := |stale|;
            && |plan| == 2 + 4 * n + (if m == 0 then 0 else 2 * m + 1)
            && plan[0] == PutDoc(d, k) && plan[|plan| - 1] == SetChecksum(k, Sha256(text))
            && (i < n ==>
                  && plan[1 + i] == PutPassage(ChunkId(d, i), texts[i], k.workspace)
                  && plan[1 + n + 3 * i] == PutChunk(ChunkId(d, i), texts[i], k.workspace)
                  && plan[2 + n + 3 * i] == LinkMentions(ChunkId(d, i), cfg.entities(texts[i]), k.workspace, acl)
                  && plan[3 + n + 3 * i] == LinkRelations(cfg.relations(texts[i]), k.workspace, acl))
            && (m > 0 ==> plan[1 + 4 * n + m] == DropNodes(stale, k.workspace))
            && (i < m ==>
                  && plan[1 + 4 * n + i] == DropPassage(stale[i], k.workspace)
                  && plan[2 + 4 * n + m + i] == DropChunk(stale[i]))
  {
    hide Plan, Identity;
    PlanDrops(cfg, s, k, text, acl, i);
    if i < |Texts(cfg, k, text)| { PlanPuts(cfg, s, k, text, acl, i); }
  }

  /** A chunk of the new text is untouched until its vector item is put. */
  lemma UntouchedUntilPut(cfg: Config, s: Stores, k: Key, text: string, acl: seq<string>, m: nat, id: ChunkId)
    requires m <= |Plan(cfg, s, k, text, acl)| && id.doc == Identity(s.docs, k) && id.index < |Texts(cfg, k, text)|
    ensures Relevant(Plan(cfg, s, k, text, acl)[..m], id) == [] <==> m <= 1 + id.index
  {
    hide Plan, Relevant;
    PlanLayout(cfg, s, k, text, acl);
    var plan, n := Plan(cfg, s, k, text, acl), |Texts(cfg, k, text)|;
    var head := plan[..1 + n];
    assert head[1 + id.index] == PutPassage(id, Texts(cfg, k, text)[id.index], k.workspace);
    if m <= 1 + id.index {
      assert plan[..m] == head[..m];
      RelevantNone(plan[..m], id);
    } else if Relevant(plan[..m], id) == [] {
      assert plan[..m][1 + id.index] == head[1 + id.index];
      RelevantEmpty(plan[..m], id, head[1 + id.index]);
    }
  }

  /** It has its vector item alone until its metadata record is put. */
  lemma AloneUntilFiled(cfg: Config, s: Stores, k: Key, text: string, acl: seq<string>, m: nat, id: ChunkId)
    requires m <= |Plan(cfg, s, k, text, acl)| && id.doc == Identity(s.docs, k) && id.index < |Texts(cfg, k, text)|
    ensures |Relevant(Plan(cfg, s, k, text, acl)[..m], id)| <= 1 <==> m <= 1 + |Texts(cfg, k, text)| + 3 * id.index
  {
    hide Plan, Relevant, Links, Passages;
    PlanLayout(cfg, s, k, text, acl);
    var plan, texts, d := Plan(cfg, s, k, text, acl), Texts(cfg, k, text), Identity(s.docs, k);
    var i, n := id.index, |texts|;
    var a, b := plan[..1 + n], plan[1 + n..1 + 4 * n];
    LinksAt(cfg, d, texts, k.workspace, acl, i);
    RelevantHead(cfg, s, k, text, id);
    var upTo := 1 + n + 3 * i;
    assert plan[..upTo] == a + b[..3 * i];
    RelevantConcat(a, b[..3 * i], id);
    RelevantLinks(cfg, d, texts[..i], k.workspace, acl, id);
    assert |Relevant(plan[..upTo], id)| == 1;
    if m <= upTo {
      assert plan[..upTo][..m] == plan[..m];
      RelevantPrefix(plan[..upTo], m, id);
    } else {
      assert plan[..upTo + 1] == plan[..upTo] + [b[3 * i]];
      RelevantSnoc(plan[..upTo], b[3 * i], id);
      assert plan[..m][..upTo + 1] == plan[..upTo + 1];
      RelevantPrefix(plan[..m], upTo + 1, id);
    }
  }

  lemma RelevantHead(cfg: Config, s: Stores, k: Key, text: string, id: ChunkId)
    ensures var d, texts := Identity(s.docs, k), Texts(cfg, k, text);
            Relevant([PutDoc(d, k)] + Passages(d, texts, k.workspace), id)
            == if id.doc == d && id.index < |texts| then [PutPassage(id, texts[id.index], k.workspace)] else []
  {
    hide Relevant, Passages;
    var d, texts := Identity(s.docs, k), Texts(cfg, k, text);
    RelevantConcat([PutDoc(d, k)], Passages(d, texts, k.workspace), id);
    RelevantQuiet(PutDoc(d, k), id);
    RelevantPassages(d, texts, k.workspace, id);
  }

  /** A chunk beyond the new text is untouched until the clean-up begins. */
  lemma SurplusUntouched(cfg: Config, s: Stores, k: Key, text: string, acl: seq<string>, m: nat, id: ChunkId)
    requires m <= 1 + 4 * |Texts(cfg, k, text)| && m <= |Plan(cfg, s, k, text, acl)|
    requires id.doc == Identity(s.docs, k) && id.index >= |Texts(cfg, k, text)|
    ensures Relevant(Plan(cfg, s, k, text, acl)[..m], id) == []
  {
    hide Plan, Relevant, Links, Passages;
    PlanLayout(cfg, s, k, text, acl);
    var plan, n := Plan(cfg, s, k, text, acl), |Texts(cfg, k, text)|;
    var a, b := plan[..1 + n], plan[1 + n..1 + 4 * n];
    assert plan[..1 + 4 * n] == a + b;
    RelevantHead(cfg, s, k, text, id);
    RelevantLinks(cfg, Identity(s.docs, k), Texts(cfg, k, text), k.workspace, acl, id);
    RelevantConcat(a, b, id);
    assert plan[..1 + 4 * n][..m] == plan[..m];
    RelevantPrefix(plan[..1 + 4 * n], m, id);
  }

  /** The first write of the clean-up takes a stale chunk out of the vector store. */
  lemma FirstDrop(cfg: Config, s: Stores, k: Key, text: string, acl: seq<string>, m: nat) returns (id: ChunkId)
    requires ValidConfig(cfg) && 1 + 4 * |Texts(cfg, k, text)| < m < |Plan(cfg, s, k, text, acl)|
    ensures id in Stale(s.chunks, Identity(s.docs, k), |Texts(cfg, k, text)|)
    ensures Relevant(Plan(cfg, s, k, text, acl)[..m], id) != []
  {
    hide Plan, Relevant;
    PlanLayout(cfg, s, k, text, acl);
    var plan, n := Plan(cfg, s, k, text, acl), |Texts(cfg, k, text)|;
    var stale := cfg.listed(Stale(s.chunks, Identity(s.docs, k), n));
    assert Enumerates(stale, Stale(s.chunks, Identity(s.docs, k), n));
    id := stale[0];
    assert plan[1 + 4 * n..][0] == DropPassage(id, k.workspace);
    assert plan[..m][1 + 4 * n] == DropPassage(id, k.workspace);
    if Relevant(plan[..m], id) == [] {
      RelevantEmpty(plan[..m], id, DropPassage(id, k.workspace));
    }
  }

  // ---------------------------------------------------------------- going back to the recorded text

  /** The new text starts with the recorded chunks for as far as the vector store was rewritten. */
  predicate SameSoFar(was: seq<string>, texts: seq<string>, m: nat) {
    m == 0 || texts[..if m - 1 < |texts| then m - 1 else |texts|] <= was
  }

  predicate SameAt(was: seq<string>, texts: seq<string>, i: nat)
    requires i < |texts|
  {
    i < |was| && was[i] == texts[i]
  }

  /** One chunk of the new text still fits the recorded one. */
  lemma PutCellAgrees(cfg: Config, s: Stores, k: Key, earlier: string, text: string, acl: seq<string>, m: nat, id: ChunkId)
    requires ValidConfig(cfg) && WellKeyed(s) && m <= |Plan(cfg, s, k, text, acl)|
    requires id.doc == Identity(s.docs, k) && id.index < |Texts(cfg, k, text)|
    requires CellOf(s, id) == Target(cfg, k, earlier, id)
    ensures var was, texts, i := Texts(cfg, k, earlier), Texts(cfg, k, text), id.index;
            CellOf(Run(s, Plan(cfg, s, k, text, acl)[..m]), id) == Target(cfg, k, earlier, id)
            <==> m <= 1 + i || SameAt(was, texts, i)
  {
    hide Plan, Run, Relevant;
    var plan := Plan(cfg, s, k, text, acl);
    RunOnCell(s, plan[..m], id);
    RelevantPlan(cfg, s, k, text, acl, id);
    RelevantPrefix(plan, m, id);
    UntouchedUntilPut(cfg, s, k, text, acl, m, id);
    CellRunSmall(CellOf(s, id), Relevant(plan[..m], id));
  }

  /** Over every text and every stop: from agreement on the recorded text, the stores still agree on
      it if and only if no clean-up write was made and the vector items written so far are those
      that were there. */
  lemma CutStillAgreesIff(cfg: Config, s: Stores, k: Key, earlier: string, text: string, acl: seq<string>, m: nat)
    requires ValidConfig(cfg) && WellKeyed(s) && m < |Plan(cfg, s, k, text, acl)|
    requires Agrees(cfg, s, Identity(s.docs, k), k, earlier)
    ensures var was, texts := Texts(cfg, k, earlier), Texts(cfg, k, text);
            Agrees(cfg, Run(s, Plan(cfg, s, k, text, acl)[..m]), Identity(s.docs, k), k, earlier)
            <==> m <= 1 + 4 * |texts| && SameSoFar(was, texts, m)
  {
    hide Plan, Run, Relevant, CellOf, Target, Identity, SameSoFar;
    var d, was, texts := Identity(s.docs, k), Texts(cfg, k, earlier), Texts(cfg, k, text);
    var after := Run(s, Plan(cfg, s, k, text, acl)[..m]);
    if m <= 1 + 4 * |texts| {
      forall id: ChunkId | id.doc == d
        ensures CellOf(after, id) == Target(cfg, k, earlier, id) <==>
                id.index >= |texts| || m <= 1 + id.index || SameAt(was, texts, id.index)
      {
        if id.index < |texts| {
          PutCellAgrees(cfg, s, k, earlier, text, acl, m, id);
        } else {
          SurplusUntouched(cfg, s, k, text, acl, m, id);
          UntouchedCell(s, Plan(cfg, s, k, text, acl)[..m], id);
        }
      }
      SameSoFarPointwise(was, texts, m);
      if Agrees(cfg, after, d, k, earlier) {
        forall i: nat | i < |texts| && i + 1 < m ensures SameAt(was, texts, i) {
          assert CellOf(after, ChunkId(d, i)) == Target(cfg, k, earlier, ChunkId(d, i));
        }
        assert SameSoFar(was, texts, m);
      }
    } else {
      var id := FirstDrop(cfg, s, k, text, acl, m);
      DroppedCell(cfg, s, k, earlier, text, acl, m, id);
    }
  }

  lemma UntouchedCell(s: Stores, ws: seq<Write>, id: ChunkId)
    requires Relevant(ws, id) == []
    ensures CellOf(Run(s, ws), id) == CellOf(s, id)
  {
    RunOnCell(s, ws, id);
  }

  lemma SameSoFarPointwise(was: seq<string>, texts: seq<string>, m: nat)
    ensures SameSoFar(was, texts, m) <==> forall i: nat | i < |texts| && i + 1 < m :: SameAt(was, texts, i)
  {
    if m > 0 {
      var head := texts[..if m - 1 < |texts| then m - 1 else |texts|];
      if forall i: nat | i < |texts| && i + 1 < m :: SameAt(was, texts, i) {
        if head != [] { assert SameAt(was, texts, |head| - 1); }
        forall i | 0 <= i < |head| ensures i < |was| && head[i] == was[i] {
          assert SameAt(was, texts, i);
        }
        assert |head| <= |was|;
      }
    }
  }

  /** A stale chunk that the clean-up has reached is gone from the vector store. */
  lemma DroppedCell(cfg: Config, s: Stores, k: Key, earlier: string, text: string, acl: seq<string>, m: nat, id: ChunkId)
    requires ValidConfig(cfg) && WellKeyed(s) && m <= |Plan(cfg, s, k, text, acl)|
    requires id in Stale(s.chunks, Identity(s.docs, k), |Texts(cfg, k, text)|)
    requires Relevant(Plan(cfg, s, k, text, acl)[..m], id) != []
    requires Agrees(cfg, s, Identity(s.docs, k), k, earlier)
    ensures !Agrees(cfg, Run(s, Plan(cfg, s, k, text, acl)[..m]), Identity(s.docs, k), k, earlier)
  {
    hide Plan, Run, Relevant, Identity;
    var plan := Plan(cfg, s, k, text, acl);
    assert id.doc == Identity(s.docs, k);
    assert CellOf(s, id) == Target(cfg, k, earlier, id);
    RunOnCell(s, plan[..m], id);
    RelevantPlan(cfg, s, k, text, acl, id);
    RelevantPrefix(plan, m, id);
    CellRunSmall(CellOf(s, id), Relevant(plan[..m], id));
    assert CellOf(Run(s, plan[..m]), id).passage == None;
  }

  /** Going back to the recorded text after a stop is skipped outright, and that is harmless if and
      only if the stopped ingestion had changed nothing that the recorded text put there. */
  lemma RevertIsSkipped(cfg: Config, s: Stores, k: Key, earlier: string, text: string, acl: seq<string>, m: nat)
    requires ValidConfig(cfg) && WellKeyed(s) && m < |Plan(cfg, s, k, text, acl)|
    requires Skips(s, k, earlier) && Agrees(cfg, s, Identity(s.docs, k), k, earlier)
    ensures var broken := Run(s, Plan(cfg, s, k, text, acl)[..m]);
            var was, texts := Texts(cfg, k, earlier), Texts(cfg, k, text);
            && Skips(broken, k, earlier)
            && (Agrees(cfg, broken, Identity(s.docs, k), k, earlier) <==> m <= 1 + 4 * |texts| && SameSoFar(was, texts, m))
  {
    hide Plan, Run, Agrees, SameSoFar;
    CutStillAgreesIff(cfg, s, k, earlier, text, acl, m);
    CutOnChecksums(cfg, s, k, text, acl, m);
  }

  // ---------------------------------------------------------------- going on to another text

  /** Before the stopped ingestion the document held the `w` chunks of an earlier text, or nothing. */
  ghost predicate Held(cfg: Config, s: Stores, k: Key, earlier: string, w: nat) {
    || (Agrees(cfg, s, Identity(s.docs, k), k, earlier) && w == |Texts(cfg, k, earlier)|)
    || (Vacant(s, Identity(s.docs, k)) && w == 0)
  }

  /** A chunk of the stopped text can be cleaned up unless it is new and has only its vector item. */
  lemma PutCellListed(cfg: Config, s: Stores, k: Key, earlier: string, w: nat, text: string, acl: seq<string>, m: nat, id: ChunkId)
    requires ValidConfig(cfg) && WellKeyed(s) && m <= |Plan(cfg, s, k, text, acl)|
    requires Held(cfg, s, k, earlier, w)
    requires id.doc == Identity(s.docs, k) && id.index < |Texts(cfg, k, text)|
    ensures Listed(CellOf(Run(s, Plan(cfg, s, k, text, acl)[..m]), id), k.workspace)
            <==> id.index < w || m <= 1 + id.index || m > 1 + |Texts(cfg, k, text)| + 3 * id.index
  {
    hide Plan, Run, Relevant, Identity;
    var plan := Plan(cfg, s, k, text, acl);
    assert CellOf(s, id) == if id.index < w then Target(cfg, k, earlier, id) else ABSENT;
    RunOnCell(s, plan[..m], id);
    RelevantPlan(cfg, s, k, text, acl, id);
    RelevantPrefix(plan, m, id);
    UntouchedUntilPut(cfg, s, k, text, acl, m, id);
    AloneUntilFiled(cfg, s, k, text, acl, m, id);
    CellRunSmall(CellOf(s, id), Relevant(plan[..m], id));
  }

  /** Chunk `i` of the stopped text is new, has its vector item, and is not filed yet. */
  predicate Orphan(w: nat, n: nat, m: nat, i: nat) {
    w <= i < n && 1 + i < m <= 1 + n + 3 * i
  }

  /** The last chunk put into the vector store is the one to look at. */
  lemma LastOrphan(w: nat, o: nat, n: nat, m: nat)
    ensures (forall i: nat | o <= i :: !Orphan(w, n, m, i))
            <==> m >= 4 * n - 1 || (if m - 1 < n then m - 1 else n) <= (if w < o then o else w)
  {
    var last := (if m - 1 < n then m - 1 else n) - 1;
    if last >= 0 {
      assert forall i: nat | Orphan(w, n, m, i) :: i <= last && m <= 1 + n + 3 * last;
      assert Orphan(w, n, m, last) <==> last >= w && m <= 4 * n - 2;
    }
  }

  /** Over every text and every stop: going on to another text instead, in full, ends in agreement on
      it if and only if the stopped ingestion had filed its last chunk, or had put no chunk beyond
      those already held and those the other text has. */
  lemma OtherTextHealsIff(cfg: Config, s: Stores, k: Key, earlier: string, w: nat, text: string, m: nat, other: string, acl: seq<string>)
    requires ValidConfig(cfg) && WellKeyed(s) && m <= |Plan(cfg, s, k, text, acl)|
    requires Held(cfg, s, k, earlier, w)
    ensures var broken := Run(s, Plan(cfg, s, k, text, acl)[..m]);
            var n, o := |Texts(cfg, k, text)|, |Texts(cfg, k, other)|;
            Agrees(cfg, Run(broken, Plan(cfg, broken, k, other, acl)), Identity(s.docs, k), k, other)
            <==> m >= 4 * n - 1 || (if m - 1 < n then m - 1 else n) <= (if w < o then o else w)
  {
    hide Plan, Run, Relevant, CellOf, Target, Identity, Listed, Held, Vacant, Agrees, WellKeyed;
    var d, n, o := Identity(s.docs, k), |Texts(cfg, k, text)|, |Texts(cfg, k, other)|;
    var plan := Plan(cfg, s, k, text, acl);
    var broken := Run(s, plan[..m]);
    CutKeepsIdentity(cfg, s, k, text, acl, m, k);
    RunKeepsWellKeyed(s, plan[..m]);
    PlanAgreesIff(cfg, broken, k, other, acl);
    HeldIsRecoverable(cfg, s, k, earlier, w);
    forall id: ChunkId | id.doc == d
      ensures Listed(CellOf(broken, id), k.workspace) <==> !Orphan(w, n, m, id.index)
    {
      if id.index < n {
        PutCellListed(cfg, s, k, earlier, w, text, acl, m, id);
      } else {
        assert Listed(CellOf(s, id), k.workspace);
        CellAfterCut(cfg, s, k, text, acl, m, id);
      }
    }
    LastOrphan(w, o, n, m);
    if Recoverable(broken, d, k.workspace, o) {
      forall i: nat | o <= i ensures !Orphan(w, n, m, i) {
        assert Listed(CellOf(broken, ChunkId(d, i)), k.workspace);
      }
    }
  }

  lemma HeldIsRecoverable(cfg: Config, s: Stores, k: Key, earlier: string, w: nat)
    requires Held(cfg, s, k, earlier, w)
    ensures Recoverable(s, Identity(s.docs, k), k.workspace, 0)
  {
    AgreesIsRecoverable(cfg, s, Identity(s.docs, k), k, earlier, 0);
  }

  /** So any first ingestion that stops once its vector items are written leaves an item that a
      shorter text never cleans up. */
  lemma OtherTextLeavesOrphan(cfg: Config, k: Key, long: string, short: string, acl: seq<string>)
    requires ValidConfig(cfg)
    requires |cfg.chunker(k.path, short)| < |cfg.chunker(k.path, long)|
    ensures var empty := Stores(map[], map[], map[], map[], Graph.EMPTY);
            var cut := 1 + |cfg.chunker(k.path, long)|;
            cut < |Plan(cfg, empty, k, long, acl)|
            && var broken := Run(empty, Plan(cfg, empty, k, long, acl)[..cut]);
               !Agrees(cfg, Run(broken, Plan(cfg, broken, k, short, acl)), Identity(broken.docs, k), k, short)
  {
    hide Plan, Run, Agrees;
    var empty := Stores(map[], map[], map[], map[], Graph.EMPTY);
    var cut := 1 + |cfg.chunker(k.path, long)|;
    PlanLayout(cfg, empty, k, long, acl);
    OtherTextHealsIff(cfg, empty, k, "", 0, long, cut, short, acl);
    CutKeepsIdentity(cfg, empty, k, long, acl, cut, k);
  }
}
