/** The metadata and vector stores: dictionaries updated in place. */
module StoreClasses {
  import opened Uris
  import opened IngestState
  import M = MemoryModel

  class MetadataStore {
    var docs: map<DocId, DocRecord>
    var chunks: map<ChunkId, ChunkRecord>
    var checksums: map<Key, Digest>
    var memory: map<nat, M.MemoryRecord>
    var replies: map<string, M.Answer>

    constructor ()
      ensures docs == map[] && chunks == map[] && checksums == map[] && memory == map[] && replies == map[]
    {
      docs, chunks, checksums, memory, replies := map[], map[], map[], map[], map[];
    }

    method PutDoc(d: DocId, k: Key)
      modifies this`docs
      ensures docs == old(docs)[d := DocRecord(k.workspace, k.path)]
    {
      docs := docs[d := DocRecord(k.workspace, k.path)];
    }

    method PutChunk(id: ChunkId, text: string, ws: string)
      modifies this`chunks
      ensures chunks == old(chunks)[id := ChunkRecord(id.doc, text, ws)]
    {
      chunks := chunks[id := ChunkRecord(id.doc, text, ws)];
    }

    /** The ids of the chunks filed under a document, in no particular order. */
    method ListChunksByDoc(d: DocId) returns (out: set<ChunkId>)
      ensures out == set id | id in chunks && chunks[id].doc == d
    {
      out := {};
      var rest := chunks.Keys;
      while rest != {}
        invariant rest <= chunks.Keys
        invariant out == set id | id in chunks && id !in rest && chunks[id].doc == d
        decreases |rest|
      {
        var id :| id in rest;
        rest := rest - {id};
        if chunks[id].doc == d {
          out := out + {id};
        }
      }
    }

    method DeleteChunk(id: ChunkId) returns (existed: bool)
      modifies this`chunks
      ensures chunks == old(chunks) - {id} && existed == (id in old(chunks))
    {
      existed := id in chunks;
      chunks := chunks - {id};
    }

    method SetChecksum(k: Key, digest: Digest)
      modifies this`checksums
      ensures checksums == old(checksums)[k := digest]
    {
      checksums := checksums[k := digest];
    }

    method PutMemory(id: nat, record: M.MemoryRecord)
      modifies this`memory
      ensures memory == old(memory)[id := record]
    {
      memory := memory[id := record];
    }

    method DeleteMemory(id: nat) returns (existed: bool)
      modifies this`memory
      ensures memory == old(memory) - {id} && existed == (id in old(memory))
    {
      existed := id in memory;
      memory := memory - {id};
    }

    /** The memories of one owner, listed once each. */
    method ListMemory(ws: string, subject: string) returns (out: seq<nat>)
      ensures forall i, j | 0 <= i < j < |out| :: out[i] != out[j]
      ensures forall id :: id in out <==> id in memory && memory[id].workspace == ws && memory[id].subject == subject
    {
      out := [];
      var rest := memory.Keys;
      while rest != {}
        invariant rest <= memory.Keys
        invariant forall i, j | 0 <= i < j < |out| :: out[i] != out[j]
        invariant forall id :: id in out <==>
                    id in memory && id !in rest && memory[id].workspace == ws && memory[id].subject == subject
        decreases |rest|
      {
        var id :| id in rest;
        rest := rest - {id};
        if memory[id].workspace == ws && memory[id].subject == subject {
          out := out + [id];
        }
      }
    }

    method SetIdempotency(key: string, answer: M.Answer)
      modifies this`replies
      ensures replies == old(replies)[key := answer]
    {
      replies := replies[key := answer];
    }
  }

  class InMemoryVectorStore {
    var passages: map<ChunkId, Passage>
    var memory: map<nat, M.MemoryItem>

    constructor ()
      ensures passages == map[] && memory == map[]
    {
      passages, memory := map[], map[];
    }

    method UpsertChunk(id: ChunkId, text: string, ws: string)
      modifies this`passages
      ensures passages == old(passages)[id := Passage(text, ws)]
    {
      passages := passages[id := Passage(text, ws)];
    }

    /** The batch upsert is one single upsert after another. */
    method UpsertChunks(d: DocId, texts: seq<string>, ws: string)
      modifies this`passages
      ensures passages == PassagesPut(old(passages), d, texts, ws)
      ensures forall id :: id in passages <==> id in old(passages) || (id.doc == d && id.index < |texts|)
      ensures forall id | id in passages ::
                passages[id] == if id.doc == d && id.index < |texts| then Passage(texts[id.index], ws) else old(passages)[id]
    {
      forall id { PutExact(passages, d, texts, ws, id); }
      for i := 0 to |texts|
        invariant passages == PassagesPut(old(passages), d, texts[..i], ws)
      {
        UpsertChunk(ChunkId(d, i), texts[i], ws);
        assert texts[..i + 1][..i] == texts[..i];
      }
      assert texts[..|texts|] == texts;
    }

    method DeleteChunks(ids: seq<ChunkId>, ws: string) returns (deleted: nat)
      modifies this`passages
      ensures passages == PassagesDropped(old(passages), ids, ws)
      ensures forall id :: id in passages <==>
                id in old(passages) && !(id in ids && (ws == "" || old(passages)[id].workspace == ws))
      ensures forall id | id in passages :: passages[id] == old(passages)[id]
      ensures deleted == |old(passages)| - |passages|
    {
      DroppedExact(passages, ids, ws);
      deleted := 0;
      for i := 0 to |ids|
        invariant passages == PassagesDropped(old(passages), ids[..i], ws)
        invariant deleted == |old(passages)| - |passages|
      {
        assert ids[..i + 1][..i] == ids[..i];
        if ids[i] in passages && PassageMatches(passages[ids[i]], ws) {
          assert passages.Keys == (passages - {ids[i]}).Keys + {ids[i]};
          passages := passages - {ids[i]};
          deleted := deleted + 1;
        }
      }
      assert ids[..|ids|] == ids;
    }

    method UpsertMemory(id: nat, item: M.MemoryItem)
      modifies this`memory
      ensures memory == old(memory)[id := item]
    {
      memory := memory[id := item];
    }

    /** Removes the listed memories that pass the filter, and counts them. */
    method DeleteMemory(ids: seq<nat>, ws: string, subject: string) returns (deleted: nat)
      modifies this`memory
      ensures var gone := M.Matching(old(memory), ws, subject, ids);
              memory == old(memory) - gone && deleted == |gone|
      ensures forall id :: id in memory <==>
                && id in old(memory)
                && !(id in ids && (ws == "" || old(memory)[id].workspace == ws)
                     && (subject == "" || subject in old(memory)[id].acl))
    {
      MatchingExact(memory, ws, subject, ids);
      hide M.Matching;
      deleted := 0;
      MatchingStart(memory, ws, subject, ids);
      for i := 0 to |ids|
        invariant memory == old(memory) - M.Matching(old(memory), ws, subject, ids[..i])
        invariant deleted == |M.Matching(old(memory), ws, subject, ids[..i])|
      {
        MatchingStep(old(memory), ws, subject, ids, i);
        if ids[i] in memory && M.Matches(memory[ids[i]], ws, subject) {
          memory := memory - {ids[i]};
          deleted := deleted + 1;
        }
      }
      assert ids[..|ids|] == ids;
    }
  }

  lemma MatchingExact(items: map<nat, M.MemoryItem>, ws: string, subject: string, ids: seq<nat>)
    ensures forall id :: id in M.Matching(items, ws, subject, ids) <==>
              && id in ids && id in items
              && (ws == "" || items[id].workspace == ws) && (subject == "" || subject in items[id].acl)
  {}

  lemma MatchingStart(items: map<nat, M.MemoryItem>, ws: string, subject: string, ids: seq<nat>)
    ensures M.Matching(items, ws, subject, ids[..0]) == {}
  {}

  /** One more listed id joins the matching ones if it is new there and passes the filter. */
  lemma MatchingStep(items: map<nat, M.MemoryItem>, ws: string, subject: string, ids: seq<nat>, i: nat)
    requires i < |ids|
    ensures var gone, id := M.Matching(items, ws, subject, ids[..i]), ids[i];
            && (id in items && id !in gone && M.Matches(items[id], ws, subject) ==>
                  M.Matching(items, ws, subject, ids[..i + 1]) == gone + {id})
            && (id !in items || id in gone || !M.Matches(items[id], ws, subject) ==>
                  M.Matching(items, ws, subject, ids[..i + 1]) == gone)
  {
    assert ids[..i + 1] == ids[..i] + [ids[i]];
  }

  lemma {:induction false} PutExact(ps: map<ChunkId, Passage>, d: DocId, texts: seq<string>, ws: string, id: ChunkId)
    ensures var qs := PassagesPut(ps, d, texts, ws);
            if id.doc == d && id.index < |texts| then id in qs && qs[id] == Passage(texts[id.index], ws)
            else (id in qs <==> id in ps) && (id in ps ==> qs[id] == ps[id])
  {
    if texts != [] { PutExact(ps, d, texts[..|texts| - 1], ws, id); }
  }

  lemma {:induction false} DroppedExact(ps: map<ChunkId, Passage>, ids: seq<ChunkId>, ws: string)
    ensures var qs := PassagesDropped(ps, ids, ws);
            && (forall id :: id in qs <==> id in ps && !(id in ids && (ws == "" || ps[id].workspace == ws)))
            && forall id | id in qs :: qs[id] == ps[id]
  {
    if ids != [] {
      assert ids == ids[..|ids| - 1] + [ids[|ids| - 1]];
      DroppedExact(ps, ids[..|ids| - 1], ws);
    }
  }

  function PassagesPut(ps: map<ChunkId, Passage>, d: DocId, texts: seq<string>, ws: string): map<ChunkId, Passage> {
    if texts == [] then ps
    else
      var i := |texts| - 1;
      PassagesPut(ps, d, texts[..i], ws)[ChunkId(d, i) := Passage(texts[i], ws)]
  }

  function PassagesDropped(ps: map<ChunkId, Passage>, ids: seq<ChunkId>, ws: string): map<ChunkId, Passage> {
    if ids == [] then ps
    else
      var qs, id := PassagesDropped(ps, ids[..|ids| - 1], ws), ids[|ids| - 1];
      if id in qs && PassageMatches(qs[id], ws) then qs - {id} else qs
  }
}
