# Verified models of the knowledge-base server's stateful core

The server ingests documents into three stores (metadata, vectors, a graph), answers queries by
expanding the graph around seeds, remembers things for its users, and stands behind a rate
limiter, a circuit breaker and a confirmation gate. This project models those algorithms in Dafny,
in the form the Python code has (classes updated in place, loops with invariants), and proves what
they are for. `dafny verify dfyconfig.toml` checks all of it.

## How it is laid out

Each part has a specification on values, with the theorems about it, and classes or methods proved
to follow that specification step by step. What a specification function computes is said once more
without it, in terms of its arguments, in the modules named `...Exact`, `IngestGraph` and
`ChunkResults`.

| part | specification and theorems | objects and loops |
|---|---|---|
| graph store | `Graph`, `GraphExact`, `GraphReach` | `GraphStore` |
| ingestion | `IngestState`, `IngestPlan`, `IngestRecovery`, `IngestRevert`, `IngestSystem`, `IngestRuns`, `IngestGraph`, `IngestCall` | `StoreClasses`, `Ingestion` |
| chunking | `ChunkSpans`, `ChunkMerge`, `Segments`, `ChunkModes`, `ChunkCuts`, `ChunkResults` | `Chunker` |
| embedding | `LruCache`, `Embeddings`, `EmbeddingBatches`, `SharedCache` | `Embedders` |
| admission | `RateLimit`, `CircuitBreaker`, `Admission` | `Middleware` |
| memories | `MemoryModel`, `MemoryExact` | `MemoryService` |
| confirmation | `Confirmation` | `Confirmation.ConfirmationGate` |

`Uris` and `Text` hold the names of stored objects and Python's whitespace and `strip`.

**Ingestion.** One document's ingestion is a list of writes, one per store call and per chunk of a
batch call. `Ingestion.IngestionPipeline` is proved to make exactly those writes in that order, so
what is proved about cutting the list after any write is about stopping the program there.
`IngestSystem` runs jobs of several workspaces interleaved write by write, each stopping anywhere.
A chunk's state across the three stores is a `Cell`; a theorem of `IngestState` reduces any sequence
of writes, seen through one chunk, to the writes that name it.

**Graph.** `Within` says which nodes an expansion should return by walks alone. The traversal, with
its visibility filter, edge filter, depth, and node cap that may stop it mid-level, is proved
against that and against a forest of discovering edges.

**Chunking.** The sentence pattern is a scanner, the similarity decisions an arbitrary sequence of
booleans. Greedy packing is compared with every grouping, merging with the char windows.

**Admission.** Bucket and breaker are compared with their history of calls, then composed with
requests that overlap freely.

## Conventions of the model

- A digest is kept as the string it digests, so equal digests mean equal strings; scoped document
  ids are digests of `workspace:path`, path-only ids of `path`, and the two kinds never coincide.
  Strings have no lone surrogates (the cache drops them when encoding).
- Chunker, extractors, validator, serialiser, encoder and similarity judge are arbitrary functions;
  an encoder is one of call number and batch, so it may fail or change its answers. The chunker is
  one of path and text. Stale chunks may be listed in any order.
- A clock reading is a parameter of each step, one per step. Opening a bucket reads the clock a
  second time in the source; the cap on tokens makes the difference unobservable.
- Times, rates, token levels and vector entries are reals; rates are not negative. Confirmation
  tokens and memory ids are fresh naturals.
- A job of `IngestSystem` fixes its list of writes when it begins. The source reads the document's
  old chunks just after its first write; only that job writes them meanwhile.
- A store call is atomic (for the vector batch calls, each chunk of the batch). The in-memory stores
  take no lock of their own, and the graph's deletes rebuild its node and edge collections, so jobs of
  two workspaces in two threads can lose a write inside a call; the model says nothing of that.

## What turned out to hold only under a condition

- Repeating `upsert_mentions` shows no reader anything new exactly when every access entry is also
  listed in trimmed form, or every node it names was stored before or is named more than once
  (`GraphReach.RepeatedMentionsUnseenIff`). A new node stores its list as given, a repeat strips it.
- Upserts of mentions and relations move every node they name into the caller's workspace: a reader
  elsewhere keeps a node exactly when it is not named (`Graph.UpsertHidesForeignNode`). Memory links
  leave stored nodes where they are.
- The ingestion theorems are about any set of keys digested from distinct strings. Absolute paths,
  which is what the filesystem connector lists (`kb_mcp/ingest/connectors/filesystem.py:14-27`), give
  such a set exactly when no workspace name goes on after another one with `:/`; names such as `team`
  and `team:blue` are fine. Over paths of any shape the plain colon decides
  (`IngestPlan.IdentityInjectiveIff`). Two keys under one id never both agree (`SharedIdNeverAgrees`).
- A full ingestion agrees on its text exactly when no surplus chunk is left in the vector store or
  graph that metadata does not list, or that another workspace holds
  (`IngestRecovery.PlanAgreesIff`). A retry with the same text always meets this. After a stop at
  write m of a text with n chunks, another text heals exactly when `m >= 4n - 1` or no more chunks
  were put than were held before or the other text has (`IngestRevert.OtherTextHealsIff`).
- Over runs with any texts, a finished job's text is agreed on exactly under that first condition, on
  the stores it began with (`IngestSystem.EveryRunAgreesIff`). It always holds when keys left in
  mid-ingestion are taken up with texts of no fewer chunks (`IngestRuns.EveryRunAgrees`).
- Going back to the recorded text after a stop is skipped outright. That is harmless exactly when the
  clean-up had not begun and the chunks put so far equal the recorded ones
  (`IngestRevert.RevertIsSkipped`).
- A dry run judges a document as the real call does under an exact condition on what was listed
  before it (`IngestCall.DryRunVerdictIff`). The filesystem connector lists each path once, so its
  dry runs always count right (`IngestCall.DryRunPredicts`).
- The window loop ends exactly when the text fits in one window or `overlap < max_chars`
  (`ChunkSpans.LoopEndsIff`). The chunking theorems assume `overlap < max_chars`, as the defaults 120
  and 800 satisfy.
- Code mode returns no chunk for a blank text that fits in one chunk.
- Queries and passages share one cache keyed by the bare text: every mix of requests is answered right
  for every encoder exactly when the two prefixes are equal (`SharedCache.SharedCacheRightIff`).
  After failed calls, whose fallback vectors are cached too, an answer is right exactly when each
  cached text in it was last given its right vector (`SharedCache.RightAfterFailuresIff`).
- The digest that keys a stored reply joins workspace, subject, key and payload with colons. Another
  asker's reply is given exactly when those strings are equal (`MemoryModel.AnsweredByAnotherIff`,
  `ReplyKeysEqualIff`); with JSON payloads that takes the same payload and names that join to the same
  string (`ListRepliesApart`), and never happens when they have no colon in them.
- Deleting memories by id keeps vector store and metadata in agreement exactly when each stored id
  passes the caller's filter (`MemoryModel.DeleteAgreesIff`), because metadata does not look at the
  owner. An empty workspace or subject in that filter matches everything.
- The change log speaks of token buckets per workspace and subject; the code keys them by subject,
  workspace and tool, and so does the model.

## Model

| member | source | states |
|---|---|---|
| GraphStore.InMemoryGraphStore.Expand | kb_mcp/storage/in_memory_graph.py:82-134 | with the edge types asked for, or the eight default ones, and a depth of none if negative: every returned node is within `depth` hops of a visible seed by a walk of visible nodes and allowed edges; below `max_nodes` all such nodes are returned, and cut short no node nearer than a returned one is left out; the edges are of allowed types and form a forest rooted at the visible seeds, no node more than `depth` returned edges away from one; at most max(`max_nodes`, seeds + 1) nodes |
| GraphStore.InMemoryGraphStore.ExpandLevels | kb_mcp/storage/in_memory_graph.py:105-131 | the levels grow the ball around the seeds: exactly the ball of the depth unless the cap is hit, else whole levels and a part of the next |
| GraphStore.InMemoryGraphStore.ExpandLevel | kb_mcp/storage/in_memory_graph.py:109-130 | one level takes the ball to the next one, or stops inside it at the cap, keeping the discovery order |
| GraphReach.BallIsWithin | kb_mcp/storage/in_memory_graph.py:105-131 | the level-by-level ball is exactly what walks reach |
| GraphStore.BallAnswers | kb_mcp/storage/in_memory_graph.py:102-134 | what the levels hold answers the walk specification, in full below the cap |
| GraphStore.LevelCompletes | kb_mcp/storage/in_memory_graph.py:109-129 | a level whose edges have all been followed holds the whole next ball |
| GraphStore.LastLevel | kb_mcp/storage/in_memory_graph.py:129-131 | stopping because nothing was new, or at the cap, loses nothing that the depth still promised below the cap |
| GraphStore.ForestEdgeCount | kb_mcp/storage/in_memory_graph.py:120-127 | edges returned = nodes returned - visible seeds |
| GraphStore.NearestFirst | kb_mcp/storage/in_memory_graph.py:105-131 | whole levels and a part of the next leave out no node nearer than one they hold |
| GraphStore.FoundHangs | kb_mcp/storage/in_memory_graph.py:120-127 | a node found from the frontier hangs from a seed by one returned edge more than the frontier does |
| Graph.MergeAclContents | kb_mcp/storage/in_memory_graph.py:28-40 | the merged list holds each stripped, non-empty entry of both lists exactly once and nothing else |
| GraphStore.InMemoryGraphStore.MergeAclLists | kb_mcp/storage/in_memory_graph.py:28-40 | the loops compute that merge, in order |
| Graph.SubjectsAreTrimmed | kb_mcp/storage/in_memory_graph.py:14-26 | a reader is only ever known by trimmed names |
| Text.StripExact | kb_mcp/storage/in_memory_graph.py:17-38 | `strip` takes all the whitespace off both ends and nothing else |
| Graph.AclAllowsByPermitted | kb_mcp/storage/in_memory_graph.py:48-57 | visibility under an access list is decided by its trimmed entries alone |
| GraphExact.VisibleIff | kb_mcp/storage/in_memory_graph.py:14-60 | a node is seen from its own workspace, by anyone if lists are not enforced, else by a trimmed subject, or a trimmed role after `role:`, on its list |
| Graph.TouchAllEffect | kb_mcp/storage/in_memory_graph.py:161-306 | an upsert stores every named node in the caller's workspace, keeps its kind and widens its permitted readers, and leaves unnamed nodes alone |
| GraphExact.TouchAllReaders | kb_mcp/storage/in_memory_graph.py:28-40 | who may read a named node: those the list names, and for a stored node exactly those beside the ones who could before |
| GraphExact.MemoryNodesExact | kb_mcp/storage/in_memory_graph.py:222-239 | memory links store the missing nodes bare in the workspace, the memory as such and the rest as entities |
| Graph.EnsureAllEffect | kb_mcp/storage/in_memory_graph.py:222-239 | memory links create missing nodes and leave stored ones as they are |
| Graph.EdgesAvoidingContents | kb_mcp/storage/in_memory_graph.py:241-265 | a delete keeps exactly the edges that touch no deleted node |
| GraphExact.DeleteExact | kb_mcp/storage/in_memory_graph.py:241-265 | a delete takes the listed nodes of the workspace and the edges that touch them, and nothing else |
| Graph.MentionEdgesContents | kb_mcp/storage/in_memory_graph.py:185-220 | the edges of a chunk: one CONTAINS, and MENTIONS and DOCUMENTED_IN for each entity |
| GraphExact.MentionEdgesExact | kb_mcp/storage/in_memory_graph.py:187-220 | added at the end: one CONTAINS edge from the document, then for each entity in turn one MENTIONS edge from the chunk and one DOCUMENTED_IN edge back |
| GraphExact.MemoryEdgesExact | kb_mcp/storage/in_memory_graph.py:230-239 | added at the end: one edge from the memory to each entity, in order |
| Graph.RelationContents | kb_mcp/storage/in_memory_graph.py:267-307 | relation edges join nodes the same call stores, and only complete relations of known type are stored |
| GraphExact.RelationEdgesExact | kb_mcp/storage/in_memory_graph.py:274-307 | added at the end: one edge for each complete relation of known type, from its source to its destination with its type, in list order |
| GraphExact.RelationEdgesIff | kb_mcp/storage/in_memory_graph.py:274-307 | an edge is added if and only if it is one of the relations with both ends and one of the five types |
| Graph.ApplyKeepsClosed | kb_mcp/storage/in_memory_graph.py:151-307 | no operation leaves an edge dangling |
| Graph.RunKeepsClosed | kb_mcp/storage/in_memory_graph.py:151-307 | over every run of upserts and deletes each edge joins two stored nodes |
| Graph.UpsertKeepsVisible | kb_mcp/storage/in_memory_graph.py:151-307 | an upsert hides no node from a reader of its own workspace |
| Graph.UpsertHidesForeignNode | kb_mcp/storage/in_memory_graph.py:151-307 | a reader of another workspace keeps a node if and only if the upsert does not name it |
| GraphReach.UpsertKeepsReach | kb_mcp/storage/in_memory_graph.py:82-307 | an upsert in a workspace takes nothing from what its readers reach, from any seeds to any depth |
| GraphReach.RepeatedMentionsUnseen | kb_mcp/storage/in_memory_graph.py:151-220 | repeating an upsert changes no reader's picture, duplicate edges notwithstanding, if its list is well-trimmed or it stored no missing node by a single mention |
| GraphReach.RepeatedMentionsSameReach | kb_mcp/storage/in_memory_graph.py:82-220 | so no expansion that is not cut short changes its nodes |
| GraphReach.RepeatedMentionsUnseenIff | kb_mcp/storage/in_memory_graph.py:151-220 | for each graph that is the exact condition |
| GraphReach.UntrimmedEntryShows | kb_mcp/storage/in_memory_graph.py:151-220 | an entry whose trimmed form is missing shows a freshly stored node to that reader only the second time |
| GraphReach.SameForReadersSameReach | kb_mcp/storage/in_memory_graph.py:82-134 | graphs with the same visible nodes and the same edges up to repetition give the same reach |
| GraphStore.InMemoryGraphStore.UpsertMentions | kb_mcp/storage/in_memory_graph.py:151-220 | the stored graph becomes the specified one, node by node and edge by edge in order |
| GraphStore.InMemoryGraphStore.UpsertEntityRelations | kb_mcp/storage/in_memory_graph.py:267-307 | the stored graph becomes the specified one; other relation types and incomplete relations are passed over |
| GraphStore.InMemoryGraphStore.UpsertMemoryLinks | kb_mcp/storage/in_memory_graph.py:222-239 | the stored graph becomes the specified one |
| GraphStore.InMemoryGraphStore.DeleteNodes | kb_mcp/storage/in_memory_graph.py:241-265 | the caller's listed nodes and their edges go, nothing else does, and the number of removed edges is returned |
| IngestRecovery.PlanAgreesIff | kb_mcp/ingest/pipeline.py:156-322 | from any state, a full ingestion ends with metadata, vector store and graph agreeing on the text if and only if each surplus chunk still stored is listed in metadata |
| IngestRecovery.CutKeepsRecoverable | kb_mcp/ingest/pipeline.py:169-322 | stopping after any write loses no surplus chunk from metadata |
| IngestRecovery.CrashRecovery | kb_mcp/ingest/pipeline.py:114-326 | stopped before the checksum after any write, any number of times, ingesting the same text again is not skipped and ends in agreement, all other documents untouched |
| IngestRecovery.CutSparesOthers | kb_mcp/ingest/pipeline.py:156-322 | however far it gets, an ingestion changes no chunk of another document |
| IngestRecovery.CutKeepsIdentity | kb_mcp/ingest/pipeline.py:85-94 | the document id chosen for any key is the same before, during and after an ingestion |
| IngestRecovery.CutOnChecksums | kb_mcp/ingest/pipeline.py:322 | the checksum comes last: cut short, no checksum changes; in full, exactly one does |
| IngestRecovery.RunKeepsWellKeyed | kb_mcp/ingest/pipeline.py:276-294 | metadata always files a chunk under the document its id names |
| IngestRevert.PlanLayout | kb_mcp/ingest/pipeline.py:156-322 | one document write, n vector puts, three writes for each chunk, the clean-up, the checksum: where each write of an ingestion stands |
| IngestRevert.PlanWrites | kb_mcp/ingest/pipeline.py:156-322 | every write of an ingestion by its place: document, vector items, for each chunk its record, mentions and relations, for the stale chunks their vector items, their nodes at once and their records, and the checksum |
| IngestRevert.CutStillAgreesIff | kb_mcp/ingest/pipeline.py:156-316 | stopped after m writes of a new text with n chunks, the stores still agree on the recorded text if and only if m <= 1 + 4n and the vector items put so far are the recorded ones |
| IngestRevert.RevertIsSkipped | kb_mcp/ingest/pipeline.py:144-148 | after a stop at any write, returning to the recorded text is skipped, and the stores agree on it exactly under that condition |
| IngestRevert.OtherTextHealsIff | kb_mcp/ingest/pipeline.py:156-322 | after a stop at any write m of a text with n chunks, a full ingestion of another text ends in agreement if and only if m >= 4n - 1, or no more chunks were put than were held before or the other text has |
| IngestRevert.OtherTextLeavesOrphan | kb_mcp/ingest/pipeline.py:171-172 | so a first ingestion stopped once its vector items are written is not healed by a text with fewer chunks |
| IngestSystem.WriteSparesOthers | kb_mcp/ingest/pipeline.py:247-316 | a single write of a job touches chunks of its own document only |
| IngestSystem.WriteStaysOnTrack | kb_mcp/ingest/pipeline.py:247-316 | whatever other jobs do, a job's document is what the job alone would have made of it |
| IngestSystem.AdvanceKeepsTracks | kb_mcp/ingest/pipeline.py:156-322 | one write of one job keeps every job's document as that job alone would have made it |
| IngestSystem.StepsKeepTracks | kb_mcp/ingest/pipeline.py:114-326 | this holds over every run, for any texts, stops and interleaving |
| IngestSystem.LastFinishedIsRecorded | kb_mcp/ingest/pipeline.py:144-322 | over every run the recorded checksum of a key is that of the text of its last finished job |
| IngestSystem.AloneRuns | kb_mcp/ingest/pipeline.py:141-322 | a job that is let run makes the writes of its plan one by one and ends |
| IngestSystem.StopLeavesWrites | kb_mcp/ingest/pipeline.py:325-326 | a job stopped after some writes leaves exactly those and frees its workspace |
| IngestSystem.RequestPassedOver | kb_mcp/ingest/pipeline.py:123-148 | a request changes nothing exactly when its workspace is busy, it has no path or text, or the text is the recorded one |
| IngestSystem.FinishAgreesIff | kb_mcp/ingest/pipeline.py:156-322 | what a finished job leaves agrees with its text if and only if every surplus chunk was listed in metadata when it began |
| IngestSystem.EveryRunAgreesIff | kb_mcp/ingest/pipeline.py:114-326 | over every run, from any stores, for any texts, stops and interleaving: the chosen ids never change; a key not in mid-ingestion agrees with the text of its last finished job if and only if every surplus chunk was listed when that job began; a key no job finished or left is untouched |
| IngestRuns.BeginKeepsSound | kb_mcp/ingest/pipeline.py:123-150 | taking up a key with a text of no fewer chunks than it was left with keeps every key settled or recoverable |
| IngestRuns.AdvanceKeepsSound | kb_mcp/ingest/pipeline.py:156-322 | so does one write of one job |
| IngestRuns.StepsKeepSound | kb_mcp/ingest/pipeline.py:114-326 | and so does every run from settled stores with such retries |
| IngestRuns.EveryRunAgrees | kb_mcp/ingest/pipeline.py:114-326 | over every such run, interleaved and stopped anywhere: every key not in mid-ingestion agrees in all three stores with the text of its last finished job, or is as settled as at the start |
| IngestRuns.EveryRunHeals | kb_mcp/ingest/pipeline.py:114-326 | a key in mid-ingestion is brought to agreement by one undisturbed ingestion of any text with no fewer chunks, and its own text is not skipped |
| IngestCall.PlanSettles | kb_mcp/ingest/pipeline.py:156-322 | one ingestion brings its key to agreement and disturbs no other key |
| IngestCall.CallSettles | kb_mcp/ingest/pipeline.py:134-326 | a whole call leaves every key in agreement, each listed one recorded with its last non-empty text, the others as they were |
| IngestCall.CallAgrees | kb_mcp/ingest/pipeline.py:134-326 | after a call the stores hold exactly the chunks of the last non-empty text of each listed path |
| IngestCall.CountsAddUp | kb_mcp/ingest/pipeline.py:130-154 | created, updated and skipped add up to the documents listed |
| IngestCall.CallChecksums | kb_mcp/ingest/pipeline.py:134-322 | a call leaves each key the checksum of the last non-empty text listed for it, any other key its own |
| IngestCall.LastTextExact | kb_mcp/ingest/pipeline.py:134-143 | the last listed text of a path is that of the last listed document with that path and some text |
| IngestCall.VerdictExact | kb_mcp/ingest/pipeline.py:141-148 | a document is skipped without path or text or when its text is the one last listed or else recorded, created when its path is neither listed before nor recorded, else updated |
| IngestCall.CountsAreTallies | kb_mcp/ingest/pipeline.py:318-324 | each counter is the number of documents with its verdict |
| IngestCall.DryRunVerdictIff | kb_mcp/ingest/pipeline.py:134-154 | a dry run judges the i-th document as the real call does if and only if it lacks a path or text, or its path is new in the list, or its path is recorded and the last listed text equals this one exactly when the recorded one does |
| IngestCall.DryRunPredicts | kb_mcp/ingest/pipeline.py:149-154 | a dry run writes nothing and, when no path is listed twice, counts what the real call would |
| IngestPlan.IdentityInjectiveIff | kb_mcp/ingest/pipeline.py:81-94 | keys with paths under a colon-free root have distinct ids if and only if no workspace name goes on after another one with a colon and that root; the slash as root gives absolute paths, the empty root all paths |
| IngestRecovery.SharedIdNeverAgrees | kb_mcp/ingest/pipeline.py:81-94 | two keys under one id are never both in agreement, unless there is no chunk to agree on |
| IngestPlan.RelevantPlan | kb_mcp/ingest/pipeline.py:247-316 | of an ingestion a chunk sees three puts, three drops, or nothing, in that order |
| IngestGraph.IngestedEdges | kb_mcp/ingest/pipeline.py:267-316 | the edges after an ingestion are exactly those of its chunks (containing, mentioning, documenting, related) and the earlier ones that touch no cleaned-up chunk |
| IngestGraph.IngestedRelations | kb_mcp/ingest/pipeline.py:303-307 | every relation of known type found in a chunk is stored as it stands, and every new edge of those types is one |
| IngestGraph.IngestedNodes | kb_mcp/ingest/pipeline.py:295-316 | every node the text names is in the workspace and open to the list, and to no one else who could not read it before; other nodes stay, but for the cleaned-up chunks |
| IngestGraph.IngestedDocument | kb_mcp/ingest/pipeline.py:156-169 | exactly one document record is written, under the id of the workspace's own path-only document if there is one, else under the scoped id |
| IngestState.ApplyOnCell | kb_mcp/ingest/pipeline.py:247-316 | one write changes one chunk's state as its name says and no other chunk's, in any of the three stores |
| IngestState.RunOnCell | kb_mcp/ingest/pipeline.py:247-316 | any sequence of writes acts on a chunk only through the writes that name it |
| Ingestion.IngestionPipeline.ChooseDocIdentity | kb_mcp/ingest/pipeline.py:85-94 | a stored path-only document of the same workspace keeps its id, any other key gets the scoped one |
| Ingestion.IngestionPipeline.IngestDocument | kb_mcp/ingest/pipeline.py:156-322 | the stores go through exactly the planned writes, in the planned order |
| Ingestion.IngestionPipeline.LinkChunks | kb_mcp/ingest/pipeline.py:267-307 | metadata and graph writes alternate chunk by chunk |
| Ingestion.IngestionPipeline.DropStale | kb_mcp/ingest/pipeline.py:309-316 | stale chunks leave the vector store, then the graph, then metadata |
| Ingestion.IngestionPipeline.TakeDocument | kb_mcp/ingest/pipeline.py:134-154 | one document is skipped, counted or ingested as judged from the stores it finds |
| Ingestion.IngestionPipeline.IngestAll | kb_mcp/ingest/pipeline.py:130-322 | the loop makes exactly the writes of the call and returns its counters |
| Ingestion.IngestionPipeline.IngestFilesystem | kb_mcp/ingest/pipeline.py:114-326 | a call is refused, unchanged, while its workspace is locked; else it makes exactly the writes of the call, returns its counters and releases the lock |
| StoreClasses.MetadataStore.ListChunksByDoc | kb_mcp/storage/metadata_store.py:102-107 | exactly the chunks filed under the document |
| StoreClasses.MetadataStore.DeleteChunk | kb_mcp/storage/metadata_store.py:109-110 | one chunk goes, and whether it was there |
| StoreClasses.MetadataStore.DeleteMemory | kb_mcp/storage/metadata_store.py:92-93 | one memory record goes whoever owns it, and whether it was there |
| StoreClasses.MetadataStore.ListMemory | kb_mcp/storage/metadata_store.py:95-100 | exactly the owner's memories, each once |
| StoreClasses.InMemoryVectorStore.UpsertChunks | kb_mcp/storage/in_memory_vector.py:129-136 | the batch equals single upserts in order |
| StoreClasses.InMemoryVectorStore.DeleteChunks | kb_mcp/storage/in_memory_vector.py:165-174 | the listed items that pass the workspace filter go, and their number is returned |
| StoreClasses.InMemoryVectorStore.DeleteMemory | kb_mcp/storage/in_memory_vector.py:154-163 | the listed items that pass the owner filter go, and their number is returned |
| ChunkSpans.WindowsTile | kb_mcp/ingest/chunking.py:11-38 | windows are non-empty, at most `max_chars`, advance at both ends, leave no gap, overlap by at most `overlap` and reach both ends of the text |
| ChunkSpans.TilesCoverAll | kb_mcp/ingest/chunking.py:11-38 | any such tiling covers every position |
| ChunkSpans.WindowsClosedForm | kb_mcp/ingest/chunking.py:18-38 | the k-th window starts k steps of `max_chars - overlap` in, cut at the end of the text; there are 1 + ceil((n - max_chars) / step) of them, or one when the text fits |
| ChunkSpans.WindowsGiveBackText | kb_mcp/ingest/chunking.py:18-38 | dropping the first `overlap` characters of each later window and joining gives back the text |
| ChunkSpans.RoundsAreWindows | kb_mcp/ingest/chunking.py:21-38 | round by round the loop stands at the start of the next window, and ends when they do |
| ChunkSpans.LoopEndsIff | kb_mcp/ingest/chunking.py:18-38 | the loop ends if and only if the text fits in one window or `overlap < max_chars` |
| Chunker.CharChunks | kb_mcp/ingest/chunking.py:11-38 | the loop ends and yields exactly those windows with their slices of the whole text |
| Segments.SentenceEndIsLeast | kb_mcp/ingest/chunking.py:46 | a match ends at the leftmost place where one of the closing alternatives fits |
| ChunkResults.SentenceShape | kb_mcp/ingest/chunking.py:46 | a sentence ends at the first mark before whitespace or first newline after its first character, through all the whitespace or newlines there, else at the end of the text |
| ChunkResults.SentencesAreMatches | kb_mcp/ingest/chunking.py:46 | every sentence is such a match |
| Segments.SentencesPartition | kb_mcp/ingest/chunking.py:46-49 | the matches of the sentence pattern adjoin and cover the text |
| Segments.LinesPartition | kb_mcp/ingest/chunking.py:166-168 | the lines adjoin and cover the text |
| Segments.LineEnd | kb_mcp/ingest/chunking.py:166-168 | a line is not empty and ends within the text |
| ChunkResults.LineShape | kb_mcp/ingest/chunking.py:168 | a line ends at the first line break, a carriage return and newline being one, or at the end of the text |
| ChunkResults.LinesAreLines | kb_mcp/ingest/chunking.py:168 | every line is one of those |
| ChunkMerge.MergeIsGrouping | kb_mcp/ingest/chunking.py:50-73 | greedy packing yields runs of consecutive sentences that fit, or one oversize sentence |
| ChunkMerge.PackingIsOptimal | kb_mcp/ingest/chunking.py:50-73 | no grouping of adjoining segments uses fewer groups |
| ChunkMerge.FittingSegmentIsWhole | kb_mcp/ingest/chunking.py:50-73 | a segment that fits lies inside one chunk |
| ChunkModes.SentencePackingOptimal | kb_mcp/ingest/chunking.py:41-73 | the sentence loop uses the fewest groups of all groupings of the text's sentences |
| ChunkModes.FittingSentenceIsWhole | kb_mcp/ingest/chunking.py:41-73 | no sentence that fits in `max_chars` is ever cut |
| ChunkModes.SentenceSpansTile | kb_mcp/ingest/chunking.py:41-73 | the chunks of sentence mode tile the text |
| ChunkResults.SentenceModeExact | kb_mcp/ingest/chunking.py:50-73 | sentence mode yields the groups of a grouping in which no group could take the next sentence, which has the fewest groups, with the windows of the groups that do not fit |
| ChunkResults.GreedyIsUnique | kb_mcp/ingest/chunking.py:50-73 | there is only one such grouping |
| Chunker.SentenceChunks | kb_mcp/ingest/chunking.py:41-73 | the loop yields exactly the packed groups, windows for oversize ones, and meets the chunk contract |
| ChunkMerge.MergeGuarantees | kb_mcp/ingest/chunking.py:138-154 | merging a tiling whose overlapping spans are full gives a tiling in which every two neighbours together span more than `max_chars` |
| ChunkMerge.UnmergeableAreFew | kb_mcp/ingest/chunking.py:138-154 | such a tiling has at most 2K - 1 chunks, K being the number of char windows |
| ChunkMerge.AllBlocksTile | kb_mcp/ingest/chunking.py:114-136 | adjoining blocks, the oversize ones windowed, tile the text |
| ChunkMerge.AllBlocksFull | kb_mcp/ingest/chunking.py:114-136 | only full windows overlap their successor |
| ChunkModes.MergedBlocksGuarantees | kb_mcp/ingest/chunking.py:114-154 | for any split decisions: a tiling, no two neighbours fit together, at most 2K - 1 chunks, one when the text fits |
| ChunkCuts.MergedBlocksRespectCuts | kb_mcp/ingest/chunking.py:114-154 | for any decisions: a run without a cut that fits is within one chunk, the full windows of one that does not fit are chunks, and chunks begin and end only at cuts or inside runs that do not fit |
| Chunker.MergePass | kb_mcp/ingest/chunking.py:138-154 | the pass over small chunks yields exactly the greedy merge, texts included |
| Chunker.CutSentences | kb_mcp/ingest/chunking.py:114-136 | the loop yields the blocks between the cuts, each kept whole or windowed |
| Chunker.SemanticChunks | kb_mcp/ingest/chunking.py:76-155 | each path (no embedder, one sentence, failing embedder, merging) yields its specified chunks and meets the chunk contract |
| ChunkResults.SemanticByJudge | kb_mcp/ingest/chunking.py:103-154 | with a decision between every two sentences the chunks respect the decisions as they stand |
| ChunkResults.SemanticFallsBack | kb_mcp/ingest/chunking.py:86-101 | without an embedder, or when it fails or miscounts, sentence mode; for a single sentence, char mode |
| ChunkModes.MarkedLineIsNotBlank | kb_mcp/ingest/chunking.py:168-209 | a block begun by a definition or paragraph line is not blank, so only a wholly blank text can lose its last block |
| Chunker.CutLines | kb_mcp/ingest/chunking.py:180-209 | the loop yields the blocks between marked lines, and none exactly when the text is blank and fits |
| Chunker.CodeChunks | kb_mcp/ingest/chunking.py:158-228 | code mode yields the merged blocks and meets the chunk contract, except for blank text that fits |
| ChunkResults.CodeByMarks | kb_mcp/ingest/chunking.py:171-209 | code mode cuts before each line that begins a definition in Python, or after a blank line at one that is not otherwise, and respects those cuts |
| ChunkModes.TilingMeetsContract | kb_mcp/ingest/chunking.py:231-247 | the slices of a tiling meet the chunk contract |
| Chunker.ChunkText | kb_mcp/ingest/chunking.py:231-247 | each mode name leads to its own chunks, any other to char mode, and all meet the contract: slices at their spans, bounded, advancing, gapless, covering the text |
| LruCache.CacheHoldsRecent | kb_mcp/ingest/embeddings.py:52-74 | after any run of queries, whatever vectors they were given (encoded or from the fallback), the cache holds, in order, exactly the `max_items` most recently asked distinct texts, each with a vector given to that text |
| LruCache.RecencyIsByLastAsk | kb_mcp/ingest/embeddings.py:61-74 | that order is the order of each text's last ask |
| LruCache.LargerCacheContains | kb_mcp/ingest/embeddings.py:52-74 | asked the same texts, a larger cache holds every text that a smaller one does, whatever vectors the two were given |
| LruCache.LargerCacheHitsMore | kb_mcp/ingest/embeddings.py:52-74 | so it never has fewer hits |
| SharedCache.ScanOrder | kb_mcp/ingest/embeddings.py:208-216 | the lookups of a list leave the cache in the order of use |
| SharedCache.ServedOrder | kb_mcp/ingest/embeddings.py:179-362 | one request moves what it finds, then what it stores, to the recent end and drops the oldest |
| SharedCache.RunHoldsRecent | kb_mcp/ingest/embeddings.py:52-74 | over every run of queries and lists, whatever calls fail, the cache holds, in order, exactly the `max_items` most recently used distinct texts |
| Embedders.LruEmbeddingCache.Get | kb_mcp/ingest/embeddings.py:61-67 | a hit returns the entry and makes it the most recent, a miss changes nothing |
| Embedders.LruEmbeddingCache.Set | kb_mcp/ingest/embeddings.py:69-74 | the entry becomes the most recent and the oldest beyond the capacity go |
| Embeddings.BatchesPartition | kb_mcp/ingest/embeddings.py:77-79 | the batches joined are the items again; all full but the last, none empty |
| Embeddings.ScanFinds | kb_mcp/ingest/embeddings.py:208-216 | the lookups find what the cache held at the start, lose no entry, and collect each missing text once |
| Embeddings.MissesInOrder | kb_mcp/ingest/embeddings.py:208-216 | the misses stand in the order in which the list first asks for them |
| Embeddings.EachMissSentOnce | kb_mcp/ingest/embeddings.py:208-229 | over all batches each uncached text is sent exactly once and no other is |
| Embeddings.FaithfulAnswersAreMap | kb_mcp/ingest/embeddings.py:199-245 | with only right entries cached the answer is the plain map of the encoder |
| SharedCache.QueryKeepsFaithful | kb_mcp/ingest/embeddings.py:179-197 | a query finds only right vectors in a right cache and leaves it right |
| SharedCache.MixKeepsFaithful | kb_mcp/ingest/embeddings.py:179-245 | over every mix of single queries and lists with equal prefixes, each text is cached once and with its own vector |
| SharedCache.SharedCacheRightIff | kb_mcp/ingest/embeddings.py:179-245 | with encoders that never fail, every request of every mix is answered with the right vectors if and only if the query and passage prefixes are equal |
| SharedCache.ListIsServed | kb_mcp/ingest/embeddings.py:342-357 | whatever vectors a list call stores for its misses, it is one of the requests that the next two rows speak of |
| SharedCache.FoundAsLastGiven | kb_mcp/ingest/embeddings.py:179-362 | over every run of requests, whatever calls fail, a cached text is found with what the last request that missed and stored it was given |
| SharedCache.RightAfterFailuresIff | kb_mcp/ingest/embeddings.py:192-197 | so after failures a request is answered right if and only if each of its cached texts was last given its right vector |
| EmbeddingBatches.RemoteVectorsAreMap | kb_mcp/ingest/embeddings.py:342-357 | a pointwise service gives the encoder's map whatever the batch size |
| EmbeddingBatches.LocalVectorsAreMap | kb_mcp/ingest/embeddings.py:218-229 | so does a pointwise local model |
| EmbeddingBatches.LocalFailsForGood | kb_mcp/ingest/embeddings.py:230-231 | a batch failure of the local model is final |
| EmbeddingBatches.RemoteVectorsExact | kb_mcp/ingest/embeddings.py:300-357 | each text of a batch gets the service's vector cut or padded to the configured size, if its batch is answered with as many vectors as texts, else the fallback's vector of the bare text |
| EmbeddingBatches.LocalVectorsExact | kb_mcp/ingest/embeddings.py:218-231 | nothing exactly when one of the calls fails, else what the calls answered, one after the other |
| EmbeddingBatches.SetAllFaithful | kb_mcp/ingest/embeddings.py:236-238 | storing right vectors keeps a right cache right, evictions included |
| Embedders.MapThroughCache | kb_mcp/ingest/embeddings.py:199-245 | for a pointwise encoder the cached answers are its map, and a right cache stays right |
| Embedders.FilledAnswers | kb_mcp/ingest/embeddings.py:242-245 | once every miss is filled the result has one vector per text, as cached or as made |
| Embedders.LookUpAll | kb_mcp/ingest/embeddings.py:204-216 | the lookup loop records every missing position of every missing text, and nothing else |
| Embedders.ScatterBatch | kb_mcp/ingest/embeddings.py:236-240 | the vectors of a batch are cached in order and reach every position of their texts |
| Embedders.LocalSentenceTransformerEmbedder.EmbedQuery | kb_mcp/ingest/embeddings.py:179-197 | a hit costs no call; a miss is encoded with the query prefix, or by the fallback on failure, and cached |
| Embedders.LocalSentenceTransformerEmbedder.EncodeAll | kb_mcp/ingest/embeddings.py:218-231 | the batches are encoded in turn up to the first failure, which voids them all |
| Embedders.LocalSentenceTransformerEmbedder.EmbedTexts | kb_mcp/ingest/embeddings.py:199-245 | one vector per text, equal texts equal vectors, under any failures; failure or miscount falls back for the whole list and caches nothing new; the plain map for a pointwise encoder and a right cache |
| Embedders.OpenAICompatibleEmbedder.EmbedRemoteBatch | kb_mcp/ingest/embeddings.py:300-322 | vectors fitted to the configured size, or nothing on failure or miscount |
| Embedders.OpenAICompatibleEmbedder.EmbedQuery | kb_mcp/ingest/embeddings.py:279-298 | a hit costs no call; a miss is encoded with the query prefix, or by the fallback on failure, and cached |
| Embedders.OpenAICompatibleEmbedder.EncodeMisses | kb_mcp/ingest/embeddings.py:342-357 | each batch is sent once, a failing one alone falls back, and all vectors are cached and scattered in order |
| Embedders.OpenAICompatibleEmbedder.EmbedTexts | kb_mcp/ingest/embeddings.py:324-362 | one vector per text, equal texts equal vectors, under any failures; each distinct miss sent once; the plain map for a pointwise service and a right cache |
| RateLimit.LevelIsLeastRoom | kb_mcp/middleware/rate_limit.py:15-24 | a bucket's level is the least room over the window from its opening and the windows from each earlier call |
| RateLimit.BucketExact | kb_mcp/middleware/rate_limit.py:15-24 | a call is accepted if and only if no window ending at it would hold more than burst + rps * length accepted calls |
| Middleware.TokenBucket.Consume | kb_mcp/middleware/rate_limit.py:15-24 | the bucket refills, caps and pays as specified, moving its clock also on rejection |
| Middleware.RateLimiter.IsAllowed | kb_mcp/middleware/rate_limit.py:34-40 | the caller's own bucket, opened on first use, decides; no other bucket changes |
| CircuitBreaker.RunMatchesHistory | kb_mcp/middleware/circuit_breaker.py:19-40 | the fields always match the failures since the last success and the time of the latest |
| CircuitBreaker.BreakerExact | kb_mcp/middleware/circuit_breaker.py:19-40 | a request is denied if and only if enough failures came after the last success and the latest is no older than the timeout; CLOSED exactly below the count; for any threshold |
| CircuitBreaker.PhaseExact | kb_mcp/middleware/circuit_breaker.py:19-40 | CLOSED below the count, then OPEN until a question comes later than the timeout after the latest failure, HALF_OPEN since |
| Middleware.CircuitBreaker.RecordSuccess | kb_mcp/middleware/circuit_breaker.py:19-22 | the failure history is forgotten |
| Middleware.CircuitBreaker.RecordFailure | kb_mcp/middleware/circuit_breaker.py:24-29 | one more failure, tripping at the threshold |
| Middleware.CircuitBreaker.AllowRequest | kb_mcp/middleware/circuit_breaker.py:31-40 | answers as specified and half-opens after the timeout |
| Admission.EachCallerAlone | kb_mcp/server/helpers.py:192-227 | under any interleaving each caller is answered as by a lone bucket given only its requests that got past the breaker |
| Admission.BreakerSeesOutcomes | kb_mcp/server/helpers.py:192-227 | the breaker is that of one question per request and one outcome per finished call |
| Admission.RejectionsLeaveNoTrace | kb_mcp/server/helpers.py:192-227 | over every run with a monotone clock, with either middleware on or off: without the requests that breaker or limiter turned away, every other request is answered the same and the same calls run |
| Admission.OneOutcomeEach | kb_mcp/server/helpers.py:218-227 | each started call has one start and, once finished, exactly one recorded outcome |
| Admission.FailuresAreCounted | kb_mcp/server/helpers.py:218-227 | under any interleaving the breaker's count is the number of failed calls since the last successful one |
| Admission.AdmittedIff | kb_mcp/server/helpers.py:192-227 | a request starts if and only if neither the breaker, if enabled, denies it by its history, nor, if the limiter is enabled, it overfills a window of its caller's accepted requests |
| Middleware.ToolMiddleware.Admit | kb_mcp/server/helpers.py:192-216 | breaker, then limiter, then start, with the whole state as specified |
| Middleware.ToolMiddleware.Finish | kb_mcp/server/helpers.py:218-227 | the outcome of a running call is recorded once |
| MemoryModel.StoreAllStores | kb_mcp/memory/service.py:101-155 | one fresh record per accepted item, in order, under the caller; all earlier records stay |
| MemoryExact.ReportsExact | kb_mcp/memory/service.py:121-123 | the answer reports each rejected item under the first forty characters of its text, with the reasons of the last one so reported, and nothing else |
| MemoryExact.StoreAllEdges | kb_mcp/memory/service.py:150-154 | the only new edges lead from each stored memory to each entity it refers to |
| MemoryExact.UpsertReplies | kb_mcp/memory/service.py:157-161 | an unkeyed upsert stores no reply, a keyed one exactly its own |
| MemoryModel.StoreAllAgrees | kb_mcp/memory/service.py:101-155 | an upsert keeps vector store and metadata in agreement |
| MemoryModel.UpsertAgrees | kb_mcp/memory/service.py:77-163 | keyed or not, first or replayed |
| MemoryModel.DeleteAgreesIff | kb_mcp/memory/service.py:193-216 | a delete keeps agreement if and only if every stored listed id passes the caller's filter |
| MemoryModel.DeleteAllExact | kb_mcp/memory/service.py:193-216 | deleting all of a subject removes exactly that owner's memories from both stores and returns their number |
| MemoryExact.DeleteTakes | kb_mcp/memory/service.py:205-214 | a delete takes the listed items that pass the filter from the vector store, every listed record from metadata, and nothing else |
| MemoryExact.DeleteForgets | kb_mcp/memory/service.py:208-209 | no listed memory node of the workspace is left, nor an edge that touches one; other nodes and edges stay |
| MemoryExact.DeletedCountExact | kb_mcp/memory/service.py:216 | the count is the number of vector items gone if no record went, else the smaller of the two numbers |
| MemoryModel.RunAgrees | kb_mcp/memory/service.py:77-216 | over every run whose deletes list only own ids the stores agree on ids, owners and texts |
| MemoryModel.RunAgreesIff | kb_mcp/memory/service.py:77-216 | the stores agree after every step of a run if and only if its deletes list only own ids |
| MemoryModel.ReplayIsIdempotent | kb_mcp/memory/service.py:89-96 | replaying a keyed upsert, whatever ran in between, gives the first answer and changes no store |
| MemoryModel.AnsweredByAnotherIff | kb_mcp/memory/service.py:89-96 | a keyed upsert made after another one is answered with that one's reply and stores nothing if and only if their reply keys are equal |
| MemoryModel.ReplyKeysEqualIff | kb_mcp/memory/service.py:91-93 | reply keys are equal if and only if one asker's workspace, subject and key go on as the other's and the payloads make up the difference |
| MemoryModel.ListRepliesApart | kb_mcp/memory/service.py:91-93 | with payloads none of which is a proper ending of another, as JSON lists are, reply keys are equal if and only if the payloads are and workspace, subject and key join to the same string |
| MemoryModel.ColonFreeRepliesApart | kb_mcp/memory/service.py:91-93 | without colons in workspace, subject and key, equal reply keys mean the same asker and payload |
| MemoryService.MemoryService.UpsertItems | kb_mcp/memory/service.py:77-163 | the answer and all stores become the specified ones |
| MemoryService.MemoryService.Delete | kb_mcp/memory/service.py:193-216 | the stores and the count become the specified ones, for given ids or for all of the owner's |
| MemoryService.MemoryService.DeleteRecords | kb_mcp/memory/service.py:211-214 | every listed record goes and their number is returned |
| Confirmation.GateExact | kb_mcp/security/confirmation.py:15-35 | over every run with fresh tokens and a monotone clock, a validation returns data if and only if the token was issued with it, has not expired and was not presented since |
| Confirmation.StandingIsPending | kb_mcp/security/confirmation.py:22-29 | cleaning up for other tokens never drops one that still stands |
| Confirmation.NoneStale | kb_mcp/security/confirmation.py:25-32 | after a validation no pending token is past its expiry, and the presented one is not pending |
| Confirmation.ConfirmationGate.GenerateToken | kb_mcp/security/confirmation.py:15-20 | an unused token is issued and the history is one call longer |
| Confirmation.ConfirmationGate.ValidateAndInvalidate | kb_mcp/security/confirmation.py:22-35 | answers exactly as that history says, and spends the token |

## Left out

- GraphStore.InMemoryGraphStore.UpsertMentions: does not model node names, aliases, canonical keys and
  mention lists, which only `resolve_entities` and `explain_uri` read.
- GraphStore.InMemoryGraphStore.UpsertEntityRelations: does not model node names, for the same reason.
- GraphStore.InMemoryGraphStore.UpsertMemoryLinks: does not model node names, aliases and canonical
  keys, for the same reason.
- IngestRecovery.CrashRecovery: does not cover semantic chunking whose embedder answers differently at
  the retry, so that the same text is cut into other chunks; that retry is one with another text.
- Graph queries other than expansion (`resolve_entities`, `explain_uri`) and the node names, aliases,
  keys and mention lists they read.
- Agreement on a text speaks of chunk nodes, not of edges: old MENTIONS edges of a chunk URI that a new
  text takes over stay, as `IngestGraph.IngestedEdges` states.
- Entity metadata and entity vectors during ingestion: they are shared across workspaces and no part
  of chunk agreement. Title, source, tags and timestamps of documents and chunks.
- A stop inside a single store call, and stops during memory calls.
- Search, ranking and fusion in the vector store, and its filter fields for roles, tags, sources and
  dates; embedding arithmetic, cosine similarity, and the choice of the similarity threshold.
- Loading of the local model and its dimension probe, the HTTP exchange of the remote one beyond
  vectors, failure and miscount.
- Memory search and listing; memory agreement is about vector store and metadata, the graph being stated
  apart in `MemoryExact`.
- How the middleware finds the caller, audit logging, metrics and tracing around a tool call.
- Filesystem walking, git diffs, threads and retries around ingestion: the document list is an input.
- Floating-point rounding and the concrete digest, token and id values.
- Qdrant, Neo4j and SQL stores, identity, policy, configuration, tools and the web interface.
