/**
 * The two immutable, content-addressed object kinds of Gitlet (Blob.java and
 * Commit.java) and the keyed stores under `.gitlet/blobs` and `.gitlet/commits`.
 *
 * SHA-1 and Java serialization are not modelled: they are function values
 * (`sha1`, `serialize`) supplied by the caller.
 */
module Objects {
  import opened Wrappers

  newtype byte = x: int | 0 <= x < 256

  type Bytes = seq<byte>

  /** A SHA-1 digest in hexadecimal, the id of a blob or of a commit. */
  type Id = string

  type Hash = Bytes -> Id

  type Serializer = CommitRecord -> Bytes

  // ---------------------------------------------------------------------------
  // Blobs
  // ---------------------------------------------------------------------------

  /** A file's content together with its id. */
  datatype Blob = Blob(content: Bytes, id: Id)

  /** `new Blob(content)`: the id is the hash of the bytes, computed once. */
  function NewBlob(sha1: Hash, content: Bytes): (b: Blob)
    ensures b.content == content && b.id == sha1(content)
  {
    Blob(content, sha1(content))
  }

  /** `saveBlob`: write the blob to the store under its own id. */
  function SaveBlob(store: map<Id, Blob>, b: Blob): (s: map<Id, Blob>)
    ensures s.Keys == store.Keys + {b.id}
    ensures s[b.id] == b
    ensures forall id :: id in store && id != b.id ==> s[id] == store[id]
  {
    store[b.id := b]
  }

  /** Equal contents give equal blobs, hence equal ids. */
  lemma BlobIdDeterministic(sha1: Hash, c1: Bytes, c2: Bytes)
    ensures c1 == c2 ==> NewBlob(sha1, c1) == NewBlob(sha1, c2)
    ensures NewBlob(sha1, c1).content == c1
  {
  }

  /** Saving two blobs of identical content leaves one entry, as after the first save. */
  lemma SaveBlobDeduplicates(sha1: Hash, store: map<Id, Blob>, c1: Bytes, c2: Bytes)
    requires c1 == c2
    ensures var once := SaveBlob(store, NewBlob(sha1, c1));
            SaveBlob(once, NewBlob(sha1, c2)) == once
            && |once| <= |store| + 1
  {
    var once := SaveBlob(store, NewBlob(sha1, c1));
    assert once.Keys == store.Keys + {sha1(c1)};
  }

  // ---------------------------------------------------------------------------
  // Commits
  // ---------------------------------------------------------------------------

  /**
   * The serialized fields of a commit. `secondParent` is set only for merge
   * commits. Timestamps are milliseconds since the epoch.
   */
  datatype CommitRecord = CommitRecord(
    timestamp: int,
    parent: Option<Id>,
    secondParent: Option<Id>,
    message: string,
    files: map<string, Id>)

  /** A commit: its record and the id computed from it at construction. */
  datatype Commit = Commit(record: CommitRecord, id: Id)
  {
    function ParentId(): Option<Id> { record.parent }
    function SecondParentId(): Option<Id> { record.secondParent }
    function Message(): string { record.message }
    function Files(): map<string, Id> { record.files }
  }

  /** The id of a commit is the hash of its serialized record. */
  predicate Sealed(sha1: Hash, serialize: Serializer, c: Commit)
  {
    c.id == sha1(serialize(c.record))
  }

  /** `new Commit()`: the root of every history. */
  function InitialCommit(sha1: Hash, serialize: Serializer): (c: Commit)
    ensures c.Message() == "initial commit" && c.ParentId() == None
    ensures c.SecondParentId() == None && c.Files() == map[]
    ensures c.record.timestamp == 0
    ensures Sealed(sha1, serialize, c)
  {
    var r := CommitRecord(0, None, None, "initial commit", map[]);
    Commit(r, sha1(serialize(r)))
  }

  /** `new Commit(message, parent, files)` at time `now`. */
  function NewCommit(sha1: Hash, serialize: Serializer, now: int, message: string,
                     parent: Option<Id>, files: map<string, Id>): (c: Commit)
    ensures c.Message() == message && c.ParentId() == parent && c.Files() == files
    ensures c.SecondParentId() == None && c.record.timestamp == now
    ensures Sealed(sha1, serialize, c)
  {
    NewMergeCommit(sha1, serialize, now, message, parent, None, files)
  }

  /** `Commit.createMergeCommit`: a commit that also records a second parent. */
  function NewMergeCommit(sha1: Hash, serialize: Serializer, now: int, message: string,
                          parent: Option<Id>, secondParent: Option<Id>,
                          files: map<string, Id>): (c: Commit)
    ensures c.Message() == message && c.ParentId() == parent && c.Files() == files
    ensures c.SecondParentId() == secondParent && c.record.timestamp == now
    ensures Sealed(sha1, serialize, c)
  {
    var r := CommitRecord(now, parent, secondParent, message, files);
    Commit(r, sha1(serialize(r)))
  }

  /** `saveCommit`: write the commit to the store under its id. */
  function SaveCommit(store: map<Id, Commit>, c: Commit): (s: map<Id, Commit>)
    ensures s.Keys == store.Keys + {c.id} && s[c.id] == c
    ensures forall id :: id in store && id != c.id ==> s[id] == store[id]
  {
    store[c.id := c]
  }

  /** `findCommit`: the stored commit, or null when no file has that id. */
  function FindCommit(store: map<Id, Commit>, id: Id): (r: Option<Commit>)
    ensures r.None? <==> id !in store
    ensures r.Some? ==> r.value == store[id]
  {
    if id in store then Some(store[id]) else None
  }

  /** What `findCommit` returns after `saveCommit`. */
  lemma FindAfterSave(store: map<Id, Commit>, c: Commit, id: Id)
    ensures FindCommit(SaveCommit(store, c), id)
            == if id == c.id then Some(c) else FindCommit(store, id)
  {
  }
}
