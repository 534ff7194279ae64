/**
 One document's ingestion as the list of writes it makes, in the order it makes them, and what
 that list does to every chunk when it is carried out in full or cut off after any write.
 */
module IngestPlan {
  import opened Uris
  import opened IngestState
  import Graph

  /** What ingestion is configured with: the chunker (on source path and text), the extractors
      (on chunk text), and the order in which stale chunks are listed. */
  datatype Config = Config(
    chunker: (string, string) -> seq<string>,
    entities: string -> seq<string>,
    relations: string -> seq<(string, Graph.Rel, string)>,
    listed: set<ChunkId> -> seq<ChunkId>)

  ghost predicate ValidConfig(cfg: Config) {
    forall ids: set<ChunkId> :: Enumerates(cfg.listed(ids), ids)
  }

  ghost predicate Enumerates(ids: seq<ChunkId>, s: set<ChunkId>) {
    Distinct(ids) && forall id :: id in ids <==> id in s
  }

  // ---------------------------------------------------------------- document identity

  /** The string that the workspace-scoped document id is a digest of. */
  function ScopedKey(k: Key): string {
    k.workspace + ":" + k.path
  }

  /** A document stored under the old, path-only id keeps it in its own workspace. */
  function Identity(docs: map<DocId, DocRecord>, k: Key): DocId {
    if Legacy(k.path) in docs && docs[Legacy(k.path)].workspace == k.workspace
    then Legacy(k.path)
    else Scoped(ScopedKey(k))
  }

  /** No two of these keys are digested from the same string. */
  ghost predicate Apart(keys: iset<Key>) {
    forall j, k | j in keys && k in keys && ScopedKey(j) == ScopedKey(k) :: j == k
  }

  /** From any stored documents, two keys of such a set never share an id. */
  lemma IdentityInjective(docs: map<DocId, DocRecord>, keys: iset<Key>, j: Key, k: Key)
    requires Apart(keys) && j in keys && k in keys
    requires Identity(docs, j) == Identity(docs, k)
    ensures j == k
  {}

  /** All keys of the given workspaces with a path that starts with `root`: every path for the empty
      root, every absolute one for a slash. */
  ghost function KeysUnder(workspaces: set<string>, root: string): iset<Key> {
    iset k: Key | k.workspace in workspaces && root <= k.path
  }

  lemma ScopedKeySplits(j: Key, k: Key, root: string)
    requires ScopedKey(j) == ScopedKey(k) && |j.workspace| <= |k.workspace|
    requires root <= j.path && ':' !in root
    ensures j == k || j.workspace + ":" + root <= k.workspace
  {
    var s := ScopedKey(j);
    var n, m := |j.workspace|, |k.workspace|;
    assert s[..n] == j.workspace && s[..m] == k.workspace;
    assert s[n] == ':' && s[m] == ':';
    assert s[n + 1..] == j.path && s[m + 1..] == k.path;
    if n < m {
      assert s[n + 1..n + 1 + |root|] == root;
      assert forall q | n < q <= n + |root| :: s[q] == root[q - n - 1];
      assert j.workspace + ":" + root == s[..n + 1 + |root|] == k.workspace[..n + 1 + |root|];
    }
  }

  /** Two keys under the root share an id, when no path-only document is stored, if and only if one
      workspace name goes on after another one with a colon and the root. */
  lemma IdentityInjectiveIff(workspaces: set<string>, root: string)
    requires ':' !in root
    ensures Apart(KeysUnder(workspaces, root)) <==>
            forall v, w | v in workspaces && w in workspaces :: !(v + ":" + root <= w)
    ensures Apart(KeysUnder(workspaces, root)) <==>
            forall j, k | j in KeysUnder(workspaces, root) && k in KeysUnder(workspaces, root)
              && Identity(map[], j) == Identity(map[], k) :: j == k
  {
    var keys := KeysUnder(workspaces, root);
    if forall v, w | v in workspaces && w in workspaces :: !(v + ":" + root <= w) {
      forall j, k | j in keys && k in keys && ScopedKey(j) == ScopedKey(k) ensures j == k {
        if |j.workspace| <= |k.workspace| { ScopedKeySplits(j, k, root); } else { ScopedKeySplits(k, j, root); }
      }
    } else {
      var v, w :| v in workspaces && w in workspaces && v + ":" + root <= w;
      var rest := w[|v| + 1 + |root|..];
      var path := root + "notes.md";
      var j, k := Key(v, root + rest + ":" + path), Key(w, path);
      assert w == v + ":" + root + rest;
      assert ScopedKey(j) == ScopedKey(k);
      assert j in keys && k in keys && |j.workspace| < |k.workspace|;
    }
    assert forall k :: Identity(map[], k) == Scoped(ScopedKey(k));
  }

  /** The same legacy documents, in the same workspaces. */
  ghost predicate SameLegacy(a: map<DocId, DocRecord>, b: map<DocId, DocRecord>) {
    forall p ::
      && (Legacy(p) in a <==> Legacy(p) in b)
      && (Legacy(p) in a ==> a[Legacy(p)].workspace == b[Legacy(p)].workspace)
  }

  // ---------------------------------------------------------------- the writes of one document

  function Stale(chunks: map<ChunkId, ChunkRecord>, d: DocId, n: nat): set<ChunkId> {
    set id | id in chunks && chunks[id].doc == d && !(id.doc == d && id.index < n)
  }

  function Passages(d: DocId, texts: seq<string>, ws: string): seq<Write> {
    seq(|texts|, i requires 0 <= i < |texts| => PutPassage(ChunkId(d, i), texts[i], ws))
  }

  function Links(cfg: Config, d: DocId, texts: seq<string>, ws: string, acl: seq<string>): seq<Write> {
    if texts == [] then []
    else
      var i, t := |texts| - 1, texts[|texts| - 1];
      Links(cfg, d, texts[..i], ws, acl)
        + [PutChunk(ChunkId(d, i), t, ws),
           LinkMentions(ChunkId(d, i), cfg.entities(t), ws, acl),
           LinkRelations(cfg.relations(t), ws, acl)]
  }

  function PassageDrops(stale: seq<ChunkId>, ws: string): seq<Write> {
    seq(|stale|, i requires 0 <= i < |stale| => DropPassage(stale[i], ws))
  }

  function ChunkDrops(stale: seq<ChunkId>): seq<Write> {
    seq(|stale|, i requires 0 <= i < |stale| => DropChunk(stale[i]))
  }

  function Drops(stale: seq<ChunkId>, ws: string): seq<Write> {
    if stale == [] then [] else PassageDrops(stale, ws) + [DropNodes(stale, ws)] + ChunkDrops(stale)
  }

  /** All writes but the checksum. */
  function Body(cfg: Config, s: Stores, k: Key, text: string, acl: seq<string>): seq<Write> {
    var d := Identity(s.docs, k);
    var texts := cfg.chunker(k.path, text);
    [PutDoc(d, k)]
      + Passages(d, texts, k.workspace)
      + Links(cfg, d, texts, k.workspace, acl)
      + Drops(cfg.listed(Stale(s.chunks, d, |texts|)), k.workspace)
  }

  function Plan(cfg: Config, s: Stores, k: Key, text: string, acl: seq<string>): seq<Write> {
    Body(cfg, s, k, text, acl) + [SetChecksum(k, Sha256(text))]
  }

  // ---------------------------------------------------------------- what the plan does to one chunk

  lemma {:induction false} RelevantLinks(cfg: Config, d: DocId, texts: seq<string>, ws: string, acl: seq<string>, id: ChunkId)
    ensures Relevant(Links(cfg, d, texts, ws, acl), id) ==
            if id.doc == d && id.index < |texts|
            then [PutChunk(id, texts[id.index], ws), LinkMentions(id, cfg.entities(texts[id.index]), ws, acl)]
            else []
  {
    if texts != [] {
      var i, t := |texts| - 1, texts[|texts| - 1];
      RelevantLinks(cfg, d, texts[..i], ws, acl, id);
      var a, b, c := PutChunk(ChunkId(d, i), t, ws), LinkMentions(ChunkId(d, i), cfg.entities(t), ws, acl),
                     LinkRelations(cfg.relations(t), ws, acl);
      var front := Links(cfg, d, texts[..i], ws, acl);
      RelevantThree(front, a, b, c, id);
      assert Links(cfg, d, texts, ws, acl) == front + [a, b, c];
    }
  }

  lemma RelevantThree(front: seq<Write>, a: Write, b: Write, c: Write, id: ChunkId)
    ensures Relevant(front + [a, b, c], id) ==
            Relevant(front, id) + (if Touches(a, id) then [a] else [])
              + (if Touches(b, id) then [b] else []) + (if Touches(c, id) then [c] else [])
  {
    hide Relevant;
    RelevantSnoc(front, a, id);
    RelevantSnoc(front + [a], b, id);
    RelevantSnoc(front + [a] + [b], c, id);
    assert front + [a] + [b] + [c] == front + [a, b, c];
  }

  lemma RelevantPassages(d: DocId, texts: seq<string>, ws: string, id: ChunkId)
    ensures Relevant(Passages(d, texts, ws), id) ==
            if id.doc == d && id.index < |texts| then [PutPassage(id, texts[id.index], ws)] else []
  {
    if id.doc == d && id.index < |texts| {
      RelevantOne(Passages(d, texts, ws), id, id.index);
    } else {
      RelevantNone(Passages(d, texts, ws), id);
    }
  }

  lemma RelevantDrops(stale: seq<ChunkId>, ws: string, id: ChunkId)
    requires Distinct(stale)
    ensures Relevant(Drops(stale, ws), id) ==
            if id in stale then [DropPassage(id, ws), DropNodes(stale, ws), DropChunk(id)] else []
  {
    hide Relevant;
    if stale == [] {
      RelevantNone([], id);
    } else {
      var a, b, c := PassageDrops(stale, ws), [DropNodes(stale, ws)], ChunkDrops(stale);
      RelevantConcat(a + b, c, id);
      RelevantConcat(a, b, id);
      if id in stale {
        var j :| 0 <= j < |stale| && stale[j] == id;
        RelevantOne(a, id, j);
        RelevantOne(b, id, 0);
        RelevantOne(c, id, j);
      } else {
        RelevantNone(a, id);
        RelevantNone(b, id);
        RelevantNone(c, id);
      }
    }
  }

  lemma RelevantQuiet(w: Write, id: ChunkId)
    requires w.PutDoc? || w.SetChecksum?
    ensures Relevant([w], id) == []
  {
    RelevantNone([w], id);
  }

  /** The writes one chunk sees of a plan: three puts, three drops, or nothing. */
  function CellPlan(cfg: Config, s: Stores, k: Key, text: string, acl: seq<string>, id: ChunkId): seq<Write> {
    var d := Identity(s.docs, k);
    var texts := cfg.chunker(k.path, text);
    var stale := Stale(s.chunks, d, |texts|);
    if id.doc == d && id.index < |texts| then
      [PutPassage(id, texts[id.index], k.workspace),
       PutChunk(id, texts[id.index], k.workspace),
       LinkMentions(id, cfg.entities(texts[id.index]), k.workspace, acl)]
    else if id in stale then
      [DropPassage(id, k.workspace), DropNodes(cfg.listed(stale), k.workspace), DropChunk(id)]
    else []
  }

  lemma RelevantPlan(cfg: Config, s: Stores, k: Key, text: string, acl: seq<string>, id: ChunkId)
    requires ValidConfig(cfg)
    ensures Relevant(Plan(cfg, s, k, text, acl), id) == CellPlan(cfg, s, k, text, acl, id)
  {
    hide Relevant, Passages, Links, Drops, Identity, Touches;
    var d := Identity(s.docs, k);
    var texts := cfg.chunker(k.path, text);
    var ws := k.workspace;
    var stale := cfg.listed(Stale(s.chunks, d, |texts|));
    assert Enumerates(stale, Stale(s.chunks, d, |texts|));
    var a, b, c, e, f := [PutDoc(d, k)], Passages(d, texts, ws), Links(cfg, d, texts, ws, acl), Drops(stale, ws),
                         [SetChecksum(k, Sha256(text))];
    RelevantConcat(a + b + c + e, f, id);
    RelevantConcat(a + b + c, e, id);
    RelevantConcat(a + b, c, id);
    RelevantConcat(a, b, id);
    RelevantQuiet(PutDoc(d, k), id);
    RelevantQuiet(SetChecksum(k, Sha256(text)), id);
    RelevantPassages(d, texts, ws, id);
    RelevantLinks(cfg, d, texts, ws, acl, id);
    RelevantDrops(stale, ws, id);
    assert Plan(cfg, s, k, text, acl) == a + b + c + e + f;
    assert Relevant(Plan(cfg, s, k, text, acl), id) == Relevant(b, id) + Relevant(c, id) + Relevant(e, id);
  }
}
