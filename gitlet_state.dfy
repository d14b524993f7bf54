/**
 * The state every Gitlet command reads and writes: the working directory,
 * the contents of `.gitlet` (blob store, commit store, branch files, HEAD)
 * and the staging area. The Java code keeps all of it on disk and reaches it
 * through static paths; here it is one object passed to every command.
 */
module GitletState {
  import opened Wrappers
  import opened Objects
  import opened Staging

  /** The user-input and safety-guard errors, one per message the code prints before exiting. */
  datatype Failure =
    | BranchExists          // "A branch with that name already exists."
    | UntrackedInTheWay     // "There is an untracked file in the way; delete it, or add and commit it first."
    | FileMissing           // "File does not exist."
    | EmptyMessage          // "Please enter a commit message."
    | NoChanges             // "No changes added to the commit."
    | NothingToRemove       // "No reason to remove this file."
    | NoMatchingCommit      // "Found no commit with that message."
    | NoSuchCommit          // "No commit with that id exists."
    | FileNotInCommit       // "File does not exist in that commit."
    | NoSuchBranch          // "No such branch exists."
    | AlreadyOnBranch       // "No need to checkout the current branch."
    | NoBranchWithName      // "A branch with that name does not exist."
    | CannotRemoveCurrent   // "Cannot remove the current branch."
    | MergeWithSelf         // "Cannot merge a branch with itself."
    | UncommittedChanges    // "You have uncommitted changes."
    | Fault                 // an uncaught NullPointerException

  datatype Status = Ok | Err(failure: Failure)

  /** The ids a commit points back to: its parent, then its second parent. */
  function ParentList(c: Commit): (ps: seq<Id>)
    ensures forall p :: p in ps <==> (c.ParentId() == Some(p) || c.SecondParentId() == Some(p))
  {
    (if c.ParentId().Some? then [c.ParentId().value] else [])
    + (if c.SecondParentId().Some? then [c.SecondParentId().value] else [])
  }

  function Parents(c: Commit): set<Id>
  {
    (if c.ParentId().Some? then {c.ParentId().value} else {})
    + (if c.SecondParentId().Some? then {c.SecondParentId().value} else {})
  }

  /** The parents of commit `id` are stored. */
  ghost predicate ParentsStored(commits: map<Id, Commit>, id: Id)
  {
    id in commits && Parents(commits[id]) <= commits.Keys
  }

  /** Every parent link of a stored commit leads to a stored commit. */
  ghost predicate Closed(commits: map<Id, Commit>)
  {
    forall id {:trigger ParentsStored(commits, id)} :: id in commits ==> ParentsStored(commits, id)
  }

  /** `path` walks from `path[0]` back through parent links, one link per step. */
  ghost predicate IsPath(commits: map<Id, Commit>, path: seq<Id>)
  {
    && |path| >= 1
    && (forall i :: 0 <= i < |path| ==> path[i] in commits)
    && (forall i, j :: 0 <= i < |path| && j == i + 1 && j < |path| ==> ParentLink(commits, path[i], path[j]))
  }

  /** `p` is a parent of the stored commit `c`. */
  ghost predicate ParentLink(commits: map<Id, Commit>, c: Id, p: Id)
  {
    c in commits && p in Parents(commits[c])
  }

  /** `a` is reachable from `d` by parent links (every commit is its own ancestor). */
  ghost predicate IsAncestor(commits: map<Id, Commit>, d: Id, a: Id)
  {
    exists path :: IsPath(commits, path) && path[0] == d && path[|path| - 1] == a
  }

  lemma AncestorRefl(commits: map<Id, Commit>, d: Id)
    requires d in commits
    ensures IsAncestor(commits, d, d)
  {
    assert IsPath(commits, [d]);
  }

  /** One more parent link at the far end of a path. */
  lemma AncestorStep(commits: map<Id, Commit>, d: Id, x: Id, p: Id)
    requires IsAncestor(commits, d, x) && x in commits
    requires p in Parents(commits[x]) && p in commits
    ensures IsAncestor(commits, d, p)
  {
    var path :| IsPath(commits, path) && path[0] == d && path[|path| - 1] == x;
    var path' := path + [p];
    assert IsPath(commits, path');
    assert path'[0] == d && path'[|path'| - 1] == p;
  }

  /** One more parent link at the near end of a path. */
  lemma AncestorPrepend(commits: map<Id, Commit>, c: Id, p: Id, a: Id)
    requires c in commits && p in Parents(commits[c])
    requires IsAncestor(commits, p, a)
    ensures IsAncestor(commits, c, a)
  {
    var path :| IsPath(commits, path) && path[0] == p && path[|path| - 1] == a;
    var path' := [c] + path;
    assert IsPath(commits, path');
    assert path'[0] == c && path'[|path'| - 1] == a;
  }

  /** Storing more commits, without changing stored ones, keeps every path. */
  lemma AncestorGrow(commits: map<Id, Commit>, commits': map<Id, Commit>, d: Id, a: Id)
    requires forall id :: id in commits ==> id in commits' && commits'[id] == commits[id]
    requires IsAncestor(commits, d, a)
    ensures IsAncestor(commits', d, a)
  {
    var path :| IsPath(commits, path) && path[0] == d && path[|path| - 1] == a;
    assert IsPath(commits', path);
  }

  /** SHA-1 and serialization are treated as collision-free. */
  ghost predicate IdealHash(sha1: Hash, serialize: Serializer)
  {
    exists inverse: Inverses :: LeftInverses(sha1, serialize, inverse)
  }

  /** A way back from a hash to its bytes and from bytes to a commit record. */
  datatype Inverses = Inverses(unhash: Id -> Bytes, deserialize: Bytes -> CommitRecord)

  ghost predicate LeftInverses(sha1: Hash, serialize: Serializer, inverse: Inverses)
  {
    && (forall a :: inverse.unhash(sha1(a)) == a)
    && (forall r :: inverse.deserialize(serialize(r)) == r)
  }

  lemma HashInjective(sha1: Hash, serialize: Serializer, a: Bytes, b: Bytes)
    requires IdealHash(sha1, serialize) && sha1(a) == sha1(b)
    ensures a == b
  {
    var inverse :| LeftInverses(sha1, serialize, inverse);
    assert inverse.unhash(sha1(a)) == a && inverse.unhash(sha1(b)) == b;
  }

  lemma SerializeInjective(sha1: Hash, serialize: Serializer, r1: CommitRecord, r2: CommitRecord)
    requires IdealHash(sha1, serialize) && serialize(r1) == serialize(r2)
    ensures r1 == r2
  {
    var inverse :| LeftInverses(sha1, serialize, inverse);
    assert inverse.deserialize(serialize(r1)) == r1 && inverse.deserialize(serialize(r2)) == r2;
  }

  /** Commit `id` sits under its own id, which is the hash of its record, and its files are stored. */
  ghost predicate CommitOk(commits: map<Id, Commit>, blobs: map<Id, Blob>,
                           sha1: Hash, serialize: Serializer, id: Id)
  {
    && id in commits
    && commits[id].id == id
    && Sealed(sha1, serialize, commits[id])
    && commits[id].Files().Values <= blobs.Keys
  }

  ghost predicate CommitsValid(commits: map<Id, Commit>, blobs: map<Id, Blob>,
                               sha1: Hash, serialize: Serializer)
  {
    && Closed(commits)
    && forall id {:trigger CommitOk(commits, blobs, sha1, serialize, id)} ::
         id in commits ==> CommitOk(commits, blobs, sha1, serialize, id)
  }

  /** Blob `id` sits under its own id, which is the hash of its content. */
  ghost predicate BlobOk(blobs: map<Id, Blob>, sha1: Hash, id: Id)
  {
    id in blobs && blobs[id] == NewBlob(sha1, blobs[id].content) && blobs[id].id == id
  }

  ghost predicate BlobsValid(blobs: map<Id, Blob>, sha1: Hash)
  {
    forall id {:trigger BlobOk(blobs, sha1, id)} :: id in blobs ==> BlobOk(blobs, sha1, id)
  }

  /** Every blob of `before` is still stored, unchanged, in `after`. */
  ghost predicate BlobsKept(before: map<Id, Blob>, after: map<Id, Blob>)
  {
    forall id :: id in before ==> id in after && after[id] == before[id]
  }

  /** The rank of commit `id` exceeds the ranks of its parents. */
  ghost predicate RankedAt(commits: map<Id, Commit>, rank: map<Id, nat>, id: Id)
  {
    && id in commits
    && id in rank
    && forall p :: p in Parents(commits[id]) ==> p in rank && rank[p] < rank[id]
  }

  /** A rank that strictly drops along every parent link: the commit graph is acyclic. */
  ghost predicate Ranked(commits: map<Id, Commit>, rank: map<Id, nat>)
  {
    forall id {:trigger RankedAt(commits, rank, id)} :: id in commits ==> RankedAt(commits, rank, id)
  }

  /** `root` is stored, and it is the only stored commit without a parent. */
  ghost predicate Rooted(commits: map<Id, Commit>, root: Id)
  {
    && root in commits
    && forall id :: id in commits && commits[id].ParentId().None? ==> id == root
  }

  /**
   * In a ranked store, following first parents from any commit ends at the
   * parentless commit, so every stored commit descends from the root.
   */
  lemma {:induction false} RootIsAncestor(commits: map<Id, Commit>, rank: map<Id, nat>, root: Id, id: Id)
    requires Closed(commits) && Ranked(commits, rank) && Rooted(commits, root)
    requires id in commits && id in rank
    ensures IsAncestor(commits, id, root)
    decreases rank[id]
  {
    var c := commits[id];
    assert ParentsStored(commits, id) && RankedAt(commits, rank, id);
    if c.ParentId().None? {
      AncestorRefl(commits, id);
    } else {
      var p := c.ParentId().value;
      assert p in Parents(c);
      RootIsAncestor(commits, rank, root, p);
      AncestorPrepend(commits, id, p, root);
    }
  }

  /** The object stores are well formed. */
  ghost predicate StoreValid(commits: map<Id, Commit>, blobs: map<Id, Blob>, rank: map<Id, nat>,
                             sha1: Hash, serialize: Serializer)
  {
    && IdealHash(sha1, serialize)
    && CommitsValid(commits, blobs, sha1, serialize)
    && BlobsValid(blobs, sha1)
    && Ranked(commits, rank)
    && Rooted(commits, InitialCommit(sha1, serialize).id)
  }

  /** What a well-formed store says about one stored commit. */
  lemma StoredCommit(commits: map<Id, Commit>, blobs: map<Id, Blob>, rank: map<Id, nat>,
                     sha1: Hash, serialize: Serializer, id: Id)
    requires StoreValid(commits, blobs, rank, sha1, serialize) && id in commits
    ensures CommitOk(commits, blobs, sha1, serialize, id)
    ensures ParentsStored(commits, id) && RankedAt(commits, rank, id)
    ensures commits[id].Files().Values <= blobs.Keys && Parents(commits[id]) <= commits.Keys
  {
    assert CommitOk(commits, blobs, sha1, serialize, id);
    assert ParentsStored(commits, id) && RankedAt(commits, rank, id);
  }

  class Repo {
    var cwd: map<string, Bytes>
    var blobs: map<Id, Blob>
    var commits: map<Id, Commit>
    var branches: map<string, Id>
    var head: string
    const stage: StagingArea
    const sha1: Hash
    const serialize: Serializer
    ghost var rank: map<Id, nat>

    ghost predicate Valid()
      reads this, stage
    {
      && StoreValid(commits, blobs, rank, sha1, serialize)
      && head in branches
      && (forall b :: b in branches ==> branches[b] in commits)
      && stage.additions.Values <= blobs.Keys
    }

    /**
     * `init`: the initial commit is stored, branch "master" points to it and
     * HEAD names "master". The working directory is whatever is already there.
     */
    constructor Init(sha1: Hash, serialize: Serializer, cwd: map<string, Bytes>)
      requires IdealHash(sha1, serialize)
      ensures Valid() && fresh(stage)
      ensures this.cwd == cwd && blobs == map[] && stage.IsEmpty()
      ensures var c := InitialCommit(sha1, serialize);
              commits == map[c.id := c] && branches == map["master" := c.id] && head == "master"
    {
      var c := InitialCommit(sha1, serialize);
      this.cwd := cwd;
      blobs := map[];
      commits := map[c.id := c];
      branches := map["master" := c.id];
      head := "master";
      stage := new StagingArea();
      this.sha1 := sha1;
      this.serialize := serialize;
      rank := map[c.id := 0];
      new;
      assert Rooted(commits, c.id);
    }

    /** `getCurrentCommitID`: the id the current branch points to. */
    function CurrentCommitId(): Id
      reads this
      requires head in branches
    {
      branches[head]
    }

    /** The file map of stored commit `id`; every blob it names is stored. */
    function FilesOf(id: Id): (files: map<string, Id>)
      reads this, stage
      requires Valid() && id in commits
      ensures files == commits[id].Files() && files.Values <= blobs.Keys
    {
      StoredCommit(commits, blobs, rank, sha1, serialize, id);
      commits[id].Files()
    }

    /** The file map of the current commit. */
    function CurrentFiles(): (files: map<string, Id>)
      reads this, stage
      requires Valid()
      ensures files == commits[branches[head]].Files() && files.Values <= blobs.Keys
    {
      FilesOf(branches[head])
    }
  }

  /** With an ideal hash, a commit whose id is already stored is the stored commit. */
  lemma SameIdSameCommit(commits: map<Id, Commit>, blobs: map<Id, Blob>,
                         sha1: Hash, serialize: Serializer, c: Commit)
    requires IdealHash(sha1, serialize) && CommitsValid(commits, blobs, sha1, serialize)
    requires Sealed(sha1, serialize, c) && c.id in commits
    ensures commits[c.id] == c
  {
    var s := commits[c.id];
    assert CommitOk(commits, blobs, sha1, serialize, c.id);
    HashInjective(sha1, serialize, serialize(s.record), serialize(c.record));
    SerializeInjective(sha1, serialize, s.record, c.record);
  }

  /** With a collision-free hash, saving a blob never changes a stored entry. */
  lemma SaveBlobKeepsStore(sha1: Hash, serialize: Serializer, blobs: map<Id, Blob>, content: Bytes)
    requires IdealHash(sha1, serialize)
    requires BlobsValid(blobs, sha1)
    ensures var s := SaveBlob(blobs, NewBlob(sha1, content));
            && BlobsValid(s, sha1)
            && BlobsKept(blobs, s)
  {
    var id := sha1(content);
    var s := SaveBlob(blobs, NewBlob(sha1, content));
    if id in blobs {
      assert BlobOk(blobs, sha1, id);
      HashInjective(sha1, serialize, blobs[id].content, content);
    }
    forall x | x in s
      ensures BlobOk(s, sha1, x)
    {
      if x != id {
        assert BlobOk(blobs, sha1, x);
      }
    }
  }

  lemma CommitsValidMoreBlobs(commits: map<Id, Commit>, blobs: map<Id, Blob>, blobs': map<Id, Blob>,
                              sha1: Hash, serialize: Serializer)
    requires CommitsValid(commits, blobs, sha1, serialize) && blobs.Keys <= blobs'.Keys
    ensures CommitsValid(commits, blobs', sha1, serialize)
  {
    forall id | id in commits
      ensures CommitOk(commits, blobs', sha1, serialize, id)
    {
      assert CommitOk(commits, blobs, sha1, serialize, id);
    }
  }

  /**
   * The part of `Repository.add` after its existence check: stage the
   * working content of `name` against the current commit's file map.
   */
  method AddExisting(g: Repo, name: string)
    requires g.Valid() && name in g.cwd
    modifies g`blobs, g.stage
    ensures g.Valid()
    ensures BlobsKept(old(g.blobs), g.blobs)
    ensures var id := g.sha1(g.cwd[name]);
            && g.stage.removals == RemoveFirst(old(g.stage.removals), name)
            && (id in g.CurrentFiles().Values ==>
                  g.stage.additions == old(g.stage.additions) && g.blobs == old(g.blobs))
            && (id !in g.CurrentFiles().Values ==>
                  && g.stage.additions == old(g.stage.additions)[name := id]
                  && g.blobs == SaveBlob(old(g.blobs), NewBlob(g.sha1, g.cwd[name])))
  {
    var b := g.stage.AddFile(name, g.cwd[name], g.CurrentFiles(), g.sha1, g.blobs);
    SaveBlobKeepsStore(g.sha1, g.serialize, g.blobs, g.cwd[name]);
    CommitsValidMoreBlobs(g.commits, g.blobs, b, g.sha1, g.serialize);
    g.blobs := b;
  }
}
