/** Names of the stored objects, shared by the vector, graph and metadata stores, and two helpers. */
module Uris {

  datatype Option<+T> = None | Some(value: T)

  ghost predicate Distinct<T>(s: seq<T>) {
    forall i, j | 0 <= i < j < |s| :: s[i] != s[j]
  }

  /** A document id is a digest of the source path (old layout) or of
      workspace, colon, source path; the digest is kept as the string it digests. */
  datatype DocId = Legacy(path: string) | Scoped(key: string)

  datatype ChunkId = ChunkId(doc: DocId, index: nat)

  /** `Blank` is the empty string that a missing field is read as. */
  datatype Uri =
    | Blank
    | Doc(id: DocId)
    | Chunk(chunk: ChunkId)
    | Entity(name: string)
    | Memory(memoryId: nat)
}
