/** The memory service over the vector, metadata and graph stores. */
module MemoryService {
  import opened Uris
  import opened MemoryModel
  import opened StoreClasses
  import opened GraphStore
  import Graph

  class MemoryService {
    const rules: Rules
    const metadata: MetadataStore
    const vector: InMemoryVectorStore
    const graph: InMemoryGraphStore
    var nextId: nat

    constructor (rules: Rules, metadata: MetadataStore, vector: InMemoryVectorStore, graph: InMemoryGraphStore)
      ensures this.rules == rules && this.metadata == metadata && this.vector == vector && this.graph == graph
      ensures nextId == 0
    {
      this.rules, this.metadata, this.vector, this.graph := rules, metadata, vector, graph;
      nextId := 0;
    }

    function Value(): Memories
      reads this, metadata, vector, graph
    {
      Memories(vector.memory, metadata.memory, metadata.replies, graph.Value(), nextId)
    }

    /** Validates and stores the items one by one; a keyed call that was answered before is
        answered again from the stored reply. */
    method UpsertItems(ws: string, subject: string, items: seq<Item>, key: string) returns (answer: Answer)
      modifies this`nextId, metadata`memory, metadata`replies, vector`memory, graph
      ensures (Value(), answer) == Upsert(rules, old(Value()), ws, subject, items, key)
    {
      var replyKey := "";
      if key != "" {
        replyKey := ReplyKey(rules, ws, subject, key, items);
        if replyKey in metadata.replies {
          return metadata.replies[replyKey];
        }
      }
      var ids: seq<nat>, reports: map<string, seq<string>> := [], map[];
      assert items[..0] == [];
      for i := 0 to |items|
        invariant metadata.replies == old(metadata.replies)
        invariant (Value(), Answer(ids, reports)) == StoreAll(rules, old(Value()), ws, subject, items[..i])
      {
        var item := items[i];
        assert items[..i + 1][..i] == items[..i];
        var reasons := rules.validate(item);
        if reasons != [] {
          reports := reports[Label(item.text) := reasons];
          continue;
        }
        var id := nextId;
        nextId := nextId + 1;
        vector.UpsertMemory(id, MemoryItem(item.text, ws, [subject]));
        metadata.PutMemory(id, MemoryRecord(item.text, ws, subject));
        graph.UpsertMemoryLinks(Memory(id), item.refs, ws);
        ids := ids + [id];
      }
      assert items[..|items|] == items;
      answer := Answer(ids, reports);
      if key != "" {
        metadata.SetIdempotency(replyKey, answer);
      }
    }

    /** Deletes the given memories, or all of the owner's, and returns the count of the call. */
    method Delete(ws: string, subject: string, given: seq<nat>, allForSubject: bool) returns (count: nat, ghost ids: seq<nat>)
      modifies metadata`memory, vector`memory, graph
      ensures if allForSubject then Distinct(ids) && forall id :: id in ids <==> id in Owned(old(Value()), ws, subject)
              else ids == given
      ensures Value() == DeleteIds(old(Value()), ws, subject, ids)
      ensures count == DeletedCount(old(Value()), ws, subject, ids)
      ensures allForSubject && Agreement(old(Value())) ==>
                && Agreement(Value()) && count == |Owned(old(Value()), ws, subject)|
                && metadata.memory == old(metadata.memory) - Owned(old(Value()), ws, subject)
    {
      hide Graph.DeleteNodes;
      var listed := given;
      if allForSubject {
        listed := metadata.ListMemory(ws, subject);
      }
      ids := listed;
      if allForSubject && Agreement(Value()) {
        DeleteAllExact(Value(), ws, subject, ids);
      }
      var deletedVector := vector.DeleteMemory(listed, ws, subject);
      var _ := graph.DeleteNodes(MemoryUris(listed), ws);
      var deletedMetadata := DeleteRecords(listed);
      count := if deletedMetadata == 0 then deletedVector
               else if deletedVector < deletedMetadata then deletedVector else deletedMetadata;
    }

    /** The metadata half of a delete: every listed record goes, whoever owns it. */
    method DeleteRecords(ids: seq<nat>) returns (deleted: nat)
      modifies metadata`memory
      ensures metadata.memory == old(metadata.memory) - Recorded(old(metadata.memory), ids)
      ensures deleted == |Recorded(old(metadata.memory), ids)|
    {
      hide Recorded;
      deleted := 0;
      RecordedStart(metadata.memory, ids);
      for i := 0 to |ids|
        invariant metadata.memory == old(metadata.memory) - Recorded(old(metadata.memory), ids[..i])
        invariant deleted == |Recorded(old(metadata.memory), ids[..i])|
      {
        RecordedStep(old(metadata.memory), ids, i);
        var existed := metadata.DeleteMemory(ids[i]);
        if existed {
          deleted := deleted + 1;
        }
      }
      assert ids[..|ids|] == ids;
    }
  }

  lemma RecordedStart(records: map<nat, MemoryRecord>, ids: seq<nat>)
    ensures Recorded(records, ids[..0]) == {} && records - {} == records
  {}

  lemma RecordedStep(records: map<nat, MemoryRecord>, ids: seq<nat>, i: nat)
    requires i < |ids|
    ensures var gone, here := Recorded(records, ids[..i]), ids[i] in records - Recorded(records, ids[..i]);
            && Recorded(records, ids[..i + 1]) == (if here then gone + {ids[i]} else gone)
            && |Recorded(records, ids[..i + 1])| == |gone| + (if here then 1 else 0)
            && records - Recorded(records, ids[..i + 1]) == records - gone - {ids[i]}
  {
    var gone, here := Recorded(records, ids[..i]), ids[i] in records - Recorded(records, ids[..i]);
    assert ids[..i + 1] == ids[..i] + [ids[i]];
    assert Recorded(records, ids[..i + 1]) == if here then gone + {ids[i]} else gone;
  }
}
