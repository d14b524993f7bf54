/**
 * Repository.java: the user-level commands. Each command either fails with
 * the `Failure` whose message the code prints before exiting, leaving the
 * state as it was, or performs its change and returns `Ok`.
 */
module Repository {
  import opened Wrappers
  import opened Objects
  import opened Staging
  import opened GitletState
  import opened Branch

  // ---------------------------------------------------------------------------
  // add
  // ---------------------------------------------------------------------------

  /** `add`: a name missing from the working directory is an error; otherwise it is staged. */
  method Add(g: Repo, fileName: string) returns (st: Status)
    requires g.Valid()
    modifies g`blobs, g.stage
    ensures g.Valid() && BlobsKept(old(g.blobs), g.blobs)
    ensures fileName !in g.cwd ==>
              st == Err(FileMissing) && g.blobs == old(g.blobs)
              && g.stage.additions == old(g.stage.additions)
              && g.stage.removals == old(g.stage.removals)
    ensures fileName in g.cwd ==>
              var id := g.sha1(g.cwd[fileName]);
              && st == Ok
              && g.stage.removals == RemoveFirst(old(g.stage.removals), fileName)
              && (id in g.CurrentFiles().Values ==>
                    g.stage.additions == old(g.stage.additions) && g.blobs == old(g.blobs))
              && (id !in g.CurrentFiles().Values ==>
                    && g.stage.additions == old(g.stage.additions)[fileName := id]
                    && g.blobs == SaveBlob(old(g.blobs), NewBlob(g.sha1, g.cwd[fileName])))
  {
    if fileName !in g.cwd {
      return Err(FileMissing);
    }
    AddExisting(g, fileName);
    st := Ok;
  }

  // ---------------------------------------------------------------------------
  // commit
  // ---------------------------------------------------------------------------

  /**
   * The file map of a new commit: the parent's map with every staged
   * addition put and every staged removal deleted.
   */
  function ApplyStaging(files: map<string, Id>, additions: map<string, Id>,
                        removals: seq<string>): (r: map<string, Id>)
    ensures forall f :: f in r <==> (f in files || f in additions) && f !in removals
    ensures forall f :: f in r ==> r[f] == if f in additions then additions[f] else files[f]
  {
    (files + additions) - set f | f in removals
  }

  /** Every id the new map names comes from the parent's map or the additions. */
  lemma ApplyStagingValues(files: map<string, Id>, additions: map<string, Id>,
                           removals: seq<string>, ids: set<Id>)
    requires files.Values <= ids && additions.Values <= ids
    ensures ApplyStaging(files, additions, removals).Values <= ids
  {
    var r := ApplyStaging(files, additions, removals);
    forall id | id in r.Values
      ensures id in ids
    {
      var f :| f in r && r[f] == id;
      if f in additions {
        assert additions[f] in additions.Values;
      } else {
        assert files[f] in files.Values;
      }
    }
  }

  /** The two loops of `commitWithMerge` that build the new file map. */
  method BuildFileMap(files: map<string, Id>, additions: map<string, Id>, removals: seq<string>)
    returns (r: map<string, Id>)
    ensures r == ApplyStaging(files, additions, removals)
  {
    r := files;
    var toPut := additions.Keys;
    while toPut != {}
      invariant toPut <= additions.Keys
      invariant forall f :: f in r <==> f in files || (f in additions && f !in toPut)
      invariant forall f :: f in r ==>
                  r[f] == if f in additions && f !in toPut then additions[f] else files[f]
      decreases toPut
    {
      var f :| f in toPut;
      r := r[f := additions[f]];
      toPut := toPut - {f};
    }
    for i := 0 to |removals|
      invariant forall f :: f in r <==> (f in files || f in additions) && f !in removals[..i]
      invariant forall f :: f in r ==> r[f] == if f in additions then additions[f] else files[f]
    {
      assert removals[..i + 1] == removals[..i] + [removals[i]];
      r := r - {removals[i]};
    }
    assert removals[..|removals|] == removals;
    var spec := ApplyStaging(files, additions, removals);
    assert r.Keys == spec.Keys;
  }

  /**
   * Storing a new commit whose parents are stored, whose blobs are stored
   * and which has a first parent keeps the store well formed; the returned
   * rank extends the old one by the new commit.
   */
  lemma AddCommitKeepsStore(commits: map<Id, Commit>, blobs: map<Id, Blob>, rank: map<Id, nat>,
                            sha1: Hash, serialize: Serializer, c: Commit)
    returns (rank': map<Id, nat>)
    requires StoreValid(commits, blobs, rank, sha1, serialize)
    requires Sealed(sha1, serialize, c) && c.ParentId().Some? && Parents(c) <= commits.Keys
    requires c.Files().Values <= blobs.Keys
    ensures StoreValid(SaveCommit(commits, c), blobs, rank', sha1, serialize)
  {
    var commits' := SaveCommit(commits, c);
    if c.id in commits {
      SameIdSameCommit(commits, blobs, sha1, serialize, c);
      assert commits' == commits;
      return rank;
    }
    var p := c.ParentId().value;
    assert RankedAt(commits, rank, p);
    var top := rank[p];
    if c.SecondParentId().Some? {
      assert RankedAt(commits, rank, c.SecondParentId().value);
      if rank[c.SecondParentId().value] > top {
        top := rank[c.SecondParentId().value];
      }
    }
    rank' := rank[c.id := top + 1];
    forall id | id in commits'
      ensures CommitOk(commits', blobs, sha1, serialize, id)
      ensures ParentsStored(commits', id) && RankedAt(commits', rank', id)
    {
      if id != c.id {
        assert CommitOk(commits, blobs, sha1, serialize, id);
        assert ParentsStored(commits, id) && RankedAt(commits, rank, id);
      }
    }
    var root := InitialCommit(sha1, serialize).id;
    assert Rooted(commits, root);
  }

  /**
   * `commitWithMerge`: refuse an empty message or an empty staging area;
   * otherwise store a commit at time `now` whose parent is the current
   * commit, whose second parent is `secondParent`, and whose file map is the
   * current one with the staging area applied; move the current branch to it
   * and clear the staging area.
   */
  method CommitWithMerge(g: Repo, message: string, secondParent: Option<Id>, now: int)
    returns (st: Status)
    requires g.Valid()
    requires secondParent.Some? ==> secondParent.value in g.commits
    modifies g`commits, g`branches, g`rank, g.stage
    ensures g.Valid()
    ensures message == "" ==>
              st == Err(EmptyMessage) && unchanged(g) && unchanged(g.stage)
    ensures message != "" && old(g.stage.IsEmpty()) ==>
              st == Err(NoChanges) && unchanged(g) && unchanged(g.stage)
    ensures message != "" && !old(g.stage.IsEmpty()) ==>
              var c := NewMergeCommit(g.sha1, g.serialize, now, message,
                                      Some(old(g.CurrentCommitId())), secondParent,
                                      ApplyStaging(old(g.CurrentFiles()), old(g.stage.additions),
                                                   old(g.stage.removals)));
              && st == Ok
              && g.commits == old(g.commits)[c.id := c]
              && g.branches == old(g.branches)[g.head := c.id]
              && g.stage.IsEmpty()
  {
    if message == "" {
      return Err(EmptyMessage);
    }
    if g.stage.additions == map[] && g.stage.removals == [] {
      return Err(NoChanges);
    }
    var currentId := g.branches[g.head];
    var currentFiles := g.FilesOf(currentId);
    var newFiles := BuildFileMap(currentFiles, g.stage.additions, g.stage.removals);
    ApplyStagingValues(currentFiles, g.stage.additions, g.stage.removals, g.blobs.Keys);
    var c := NewMergeCommit(g.sha1, g.serialize, now, message, Some(currentId), secondParent,
                            newFiles);
    g.rank := AddCommitKeepsStore(g.commits, g.blobs, g.rank, g.sha1, g.serialize, c);
    g.commits := SaveCommit(g.commits, c);
    UpdateBranch(g, g.head, c.id);
    g.stage.Clear();
    st := Ok;
  }

  /** `commit`: a commit with no second parent. */
  method Commit(g: Repo, message: string, now: int) returns (st: Status)
    requires g.Valid()
    modifies g`commits, g`branches, g`rank, g.stage
    ensures g.Valid()
    ensures message == "" ==>
              st == Err(EmptyMessage) && unchanged(g) && unchanged(g.stage)
    ensures message != "" && old(g.stage.IsEmpty()) ==>
              st == Err(NoChanges) && unchanged(g) && unchanged(g.stage)
    ensures message != "" && !old(g.stage.IsEmpty()) ==>
              var c := NewCommit(g.sha1, g.serialize, now, message, Some(old(g.CurrentCommitId())),
                                 ApplyStaging(old(g.CurrentFiles()), old(g.stage.additions),
                                              old(g.stage.removals)));
              && st == Ok
              && g.commits == old(g.commits)[c.id := c]
              && g.branches == old(g.branches)[g.head := c.id]
              && g.stage.IsEmpty()
  {
    st := CommitWithMerge(g, message, None, now);
  }

  // ---------------------------------------------------------------------------
  // rm
  // ---------------------------------------------------------------------------

  /**
   * `remove`: a name neither staged for addition nor tracked by the current
   * commit is an error; otherwise `removeFile` runs against the current
   * commit's map.
   */
  method Remove(g: Repo, fileName: string) returns (st: Status)
    requires g.Valid()
    modifies g`cwd, g.stage
    ensures g.Valid()
    ensures fileName !in old(g.stage.additions) && fileName !in g.CurrentFiles() ==>
              st == Err(NothingToRemove) && unchanged(g) && unchanged(g.stage)
    ensures fileName in old(g.stage.additions) || fileName in g.CurrentFiles() ==>
              var tracked := fileName in g.CurrentFiles();
              && st == Ok
              && g.stage.additions == old(g.stage.additions) - {fileName}
              && g.stage.removals == (if tracked then old(g.stage.removals) + [fileName]
                                      else old(g.stage.removals))
              && g.cwd == (if tracked then old(g.cwd) - {fileName} else old(g.cwd))
  {
    var currentFiles := g.CurrentFiles();
    if fileName !in g.stage.additions && fileName !in currentFiles {
      return Err(NothingToRemove);
    }
    var cwd' := g.stage.RemoveFile(fileName, currentFiles, g.cwd);
    g.cwd := cwd';
    st := Ok;
  }

  // ---------------------------------------------------------------------------
  // log and find
  // ---------------------------------------------------------------------------

  /**
   * `log`: the ids of the commits it prints, from the current commit along
   * first parents. The walk always ends at the initial commit.
   */
  method Log(g: Repo) returns (history: seq<Id>)
    requires g.Valid()
    ensures |history| >= 1 && history[0] == g.CurrentCommitId()
    ensures forall i :: 0 <= i < |history| ==> history[i] in g.commits
    ensures forall i, j :: 0 <= i && j == i + 1 && j < |history| ==>
              g.commits[history[i]].ParentId() == Some(history[j])
    ensures g.commits[history[|history| - 1]].ParentId() == None
    ensures history[|history| - 1] == InitialCommit(g.sha1, g.serialize).id
  {
    var id := g.branches[g.head];
    history := [id];
    StoredCommit(g.commits, g.blobs, g.rank, g.sha1, g.serialize, id);
    while g.commits[id].ParentId().Some?
      invariant id in g.commits && id in g.rank
      invariant |history| >= 1 && history[0] == g.branches[g.head] && history[|history| - 1] == id
      invariant forall i :: 0 <= i < |history| ==> history[i] in g.commits
      invariant forall i, j :: 0 <= i && j == i + 1 && j < |history| ==>
                  g.commits[history[i]].ParentId() == Some(history[j])
      decreases g.rank[id]
    {
      StoredCommit(g.commits, g.blobs, g.rank, g.sha1, g.serialize, id);
      var parent := g.commits[id].ParentId().value;
      assert parent in Parents(g.commits[id]);
      StoredCommit(g.commits, g.blobs, g.rank, g.sha1, g.serialize, parent);
      history := history + [parent];
      id := parent;
    }
    assert Rooted(g.commits, InitialCommit(g.sha1, g.serialize).id);
  }

  /** `find`: the ids of the stored commits with exactly this message; none is an error. */
  method Find(g: Repo, message: string) returns (st: Status, matching: set<Id>)
    ensures forall id :: id in matching <==> id in g.commits && g.commits[id].Message() == message
    ensures st == Err(NoMatchingCommit) <==> matching == {}
    ensures st == Ok <==> matching != {}
  {
    matching := {};
    var toScan := g.commits.Keys;
    while toScan != {}
      invariant toScan <= g.commits.Keys
      invariant forall id :: id in matching <==>
                  id in g.commits && id !in toScan && g.commits[id].Message() == message
      decreases toScan
    {
      var id :| id in toScan;
      if g.commits[id].Message() == message {
        matching := matching + {id};
      }
      toScan := toScan - {id};
    }
    st := if matching == {} then Err(NoMatchingCommit) else Ok;
  }

  // ---------------------------------------------------------------------------
  // checkout
  // ---------------------------------------------------------------------------

  /**
   * How an id typed by the user names a commit: ids shorter than
   * `standardLength` go through `resolve` (`Commit.findCommitWithShortID`,
   * which is not part of this model), longer ones are looked up as they are.
   */
  datatype ShortIds = ShortIds(standardLength: nat, resolve: string -> Option<Id>)

  /** The stored commit an id typed by the user names, if any. */
  function FindTarget(commits: map<Id, Commit>, commitId: string, shortIds: ShortIds): (r: Option<Id>)
    ensures r.Some? ==> r.value in commits
    ensures |commitId| >= shortIds.standardLength ==> r == (if commitId in commits then Some(commitId) else None)
    ensures |commitId| < shortIds.standardLength ==>
              (r.Some? <==> shortIds.resolve(commitId).Some? && shortIds.resolve(commitId).value in commits)
  {
    if |commitId| < shortIds.standardLength then
      match shortIds.resolve(commitId)
      case None => None
      case Some(id) => if FindCommit(commits, id).Some? then Some(id) else None
    else if FindCommit(commits, commitId).Some? then Some(commitId) else None
  }

  /**
   * `checkOutWithCommitIDAndFileName`: an unknown commit or a name the commit
   * does not track is an error; otherwise the working file gets the blob's
   * content. Nothing else changes.
   */
  method CheckOutFileFromCommit(g: Repo, commitId: string, fileName: string, shortIds: ShortIds)
    returns (st: Status)
    requires g.Valid()
    modifies g`cwd
    ensures g.Valid()
    ensures var target := FindTarget(g.commits, commitId, shortIds);
            && (target.None? ==> st == Err(NoSuchCommit) && g.cwd == old(g.cwd))
            && (target.Some? && fileName !in g.FilesOf(target.value) ==>
                  st == Err(FileNotInCommit) && g.cwd == old(g.cwd))
            && (target.Some? && fileName in g.FilesOf(target.value) ==>
                  && st == Ok
                  && g.cwd == old(g.cwd)[fileName := g.blobs[g.FilesOf(target.value)[fileName]].content])
  {
    var target := FindTarget(g.commits, commitId, shortIds);
    if target.None? {
      return Err(NoSuchCommit);
    }
    var files := g.FilesOf(target.value);
    if fileName !in files {
      return Err(FileNotInCommit);
    }
    g.cwd := g.cwd[fileName := g.blobs[files[fileName]].content];
    st := Ok;
  }

  /** `checkOutWithFileName`: the same, from the current commit. */
  method CheckOutFile(g: Repo, fileName: string, shortIds: ShortIds) returns (st: Status)
    requires g.Valid()
    modifies g`cwd
    ensures g.Valid()
    ensures var target := FindTarget(g.commits, g.CurrentCommitId(), shortIds);
            && (target.None? ==> st == Err(NoSuchCommit) && g.cwd == old(g.cwd))
            && (target.Some? && fileName !in g.FilesOf(target.value) ==>
                  st == Err(FileNotInCommit) && g.cwd == old(g.cwd))
            && (target.Some? && fileName in g.FilesOf(target.value) ==>
                  && st == Ok
                  && g.cwd == old(g.cwd)[fileName := g.blobs[g.FilesOf(target.value)[fileName]].content])
  {
    st := CheckOutFileFromCommit(g, g.CurrentCommitId(), fileName, shortIds);
  }

  /**
   * `checkOutWithBranchName`: an unknown branch or the current branch is an
   * error; otherwise the branch's commit is checked out and HEAD names the
   * branch, unless the checkout itself refuses.
   */
  method CheckOutBranch(g: Repo, branchName: string, untracked: set<string>) returns (st: Status)
    requires g.Valid() && untracked <= g.cwd.Keys
    modifies g`cwd, g`head, g.stage
    ensures g.Valid()
    ensures branchName !in old(g.branches) ==>
              st == Err(NoSuchBranch) && unchanged(g) && unchanged(g.stage)
    ensures branchName in old(g.branches) && branchName == old(g.head) ==>
              st == Err(AlreadyOnBranch) && unchanged(g) && unchanged(g.stage)
    ensures branchName in old(g.branches) && branchName != old(g.head) ==>
              var target := g.FilesOf(g.branches[branchName]);
              && ((exists f :: f in untracked && f in target) ==>
                    st == Err(UntrackedInTheWay) && unchanged(g) && unchanged(g.stage))
              && ((forall f :: f in untracked ==> f !in target) ==>
                    && st == Ok
                    && g.head == branchName
                    && g.cwd == CheckedOut(old(g.cwd), old(g.CurrentFiles()), target, g.blobs)
                    && g.stage.IsEmpty())
  {
    if branchName !in g.branches {
      return Err(NoSuchBranch);
    }
    if branchName == g.head {
      return Err(AlreadyOnBranch);
    }
    st := CheckOutBranchFiles(g, branchName, untracked);
    if st.Err? {
      return;
    }
    g.head := branchName;
  }

  // ---------------------------------------------------------------------------
  // branch, rm-branch, reset
  // ---------------------------------------------------------------------------

  /** `branch`: a new branch at the current commit; an existing name is an error. */
  method NewBranch(g: Repo, branchName: string) returns (st: Status)
    requires g.Valid()
    modifies g`branches
    ensures g.Valid()
    ensures branchName in old(g.branches) ==>
              st == Err(BranchExists) && g.branches == old(g.branches)
    ensures branchName !in old(g.branches) ==>
              st == Ok && g.branches == old(g.branches)[branchName := g.CurrentCommitId()]
  {
    if branchName in g.branches {
      return Err(BranchExists);
    }
    st := CreateBranch(g, branchName, g.branches[g.head]);
  }

  /** `removeBranch`: delete a branch pointer; a missing or current branch is an error. */
  method RemoveBranch(g: Repo, branchName: string) returns (st: Status)
    requires g.Valid()
    modifies g`branches
    ensures g.Valid()
    ensures branchName !in old(g.branches) ==>
              st == Err(NoBranchWithName) && g.branches == old(g.branches)
    ensures branchName in old(g.branches) && branchName == g.head ==>
              st == Err(CannotRemoveCurrent) && g.branches == old(g.branches)
    ensures branchName in old(g.branches) && branchName != g.head ==>
              st == Ok && g.branches == old(g.branches) - {branchName}
  {
    if branchName !in g.branches {
      return Err(NoBranchWithName);
    }
    if branchName == g.head {
      return Err(CannotRemoveCurrent);
    }
    g.branches := g.branches - {branchName};
    st := Ok;
  }

  /**
   * `reset`: an id naming no commit is an error. The id exactly as typed is
   * then handed to `checkOutCommit`, so a short id that is not itself a
   * stored id fails there (`Fault`). Otherwise the commit is checked out and
   * the current branch moved to it.
   */
  method Reset(g: Repo, commitId: string, shortIds: ShortIds, untracked: set<string>)
    returns (st: Status)
    requires g.Valid() && untracked <= g.cwd.Keys
    modifies g`cwd, g`branches, g.stage
    ensures g.Valid()
    ensures FindTarget(old(g.commits), commitId, shortIds).None? ==>
              st == Err(NoSuchCommit) && unchanged(g) && unchanged(g.stage)
    ensures FindTarget(old(g.commits), commitId, shortIds).Some? && commitId !in old(g.commits) ==>
              st == Err(Fault) && unchanged(g) && unchanged(g.stage)
    ensures FindTarget(old(g.commits), commitId, shortIds).Some? && commitId in old(g.commits) ==>
              var target := g.FilesOf(commitId);
              && ((exists f :: f in untracked && f in target) ==>
                    st == Err(UntrackedInTheWay) && unchanged(g) && unchanged(g.stage))
              && ((forall f :: f in untracked ==> f !in target) ==>
                    && st == Ok
                    && g.branches == old(g.branches)[g.head := commitId]
                    && g.cwd == CheckedOut(old(g.cwd), old(g.CurrentFiles()), target, g.blobs)
                    && g.stage.IsEmpty())
  {
    var target := FindTarget(g.commits, commitId, shortIds);
    if target.None? {
      return Err(NoSuchCommit);
    }
    if commitId !in g.commits {
      return Err(Fault);
    }
    st := CheckOutCommit(g, commitId, untracked);
    if st.Err? {
      return;
    }
    UpdateBranch(g, g.head, commitId);
  }

  // ---------------------------------------------------------------------------
  // merge
  // ---------------------------------------------------------------------------

  /**
   * An untracked working file `merge` refuses to touch: the given commit
   * lacks it, or holds it with a blob id other than that of the working
   * content (`Blob.getBlobID`, the hash of the file's bytes).
   */
  predicate BlocksMerge(f: string, cwd: map<string, Bytes>, given: map<string, Id>, sha1: Hash)
    requires f in cwd
  {
    f !in given || sha1(cwd[f]) != given[f]
  }

  /** The loop of `merge` that collects the untracked files in the way. */
  method FilesInTheWay(untracked: set<string>, cwd: map<string, Bytes>,
                           given: map<string, Id>, sha1: Hash) returns (inTheWay: set<string>)
    requires untracked <= cwd.Keys
    ensures inTheWay <= untracked
    ensures forall f :: f in untracked ==> (f in inTheWay <==> BlocksMerge(f, cwd, given, sha1))
  {
    inTheWay := {};
    var toScan := untracked;
    while toScan != {}
      invariant toScan <= untracked && inTheWay <= untracked
      invariant forall f :: f in untracked && f !in toScan ==>
                  (f in inTheWay <==> BlocksMerge(f, cwd, given, sha1))
      invariant forall f :: f in toScan ==> f !in inTheWay
      decreases toScan
    {
      var f :| f in toScan;
      if f !in given || sha1(cwd[f]) != given[f] {
        inTheWay := inTheWay + {f};
      }
      toScan := toScan - {f};
    }
  }

  /**
   * The guards of `merge`, in the order the code tests them: the branch
   * must exist, differ from the current one, the staging area must be
   * empty, and no untracked file may be in the way.
   */
  method MergeGuards(g: Repo, branchName: string, untracked: set<string>) returns (st: Status)
    requires g.Valid() && untracked <= g.cwd.Keys
    ensures branchName !in g.branches ==> st == Err(NoBranchWithName)
    ensures branchName in g.branches && branchName == g.head ==> st == Err(MergeWithSelf)
    ensures branchName in g.branches && branchName != g.head && !g.stage.IsEmpty() ==>
              st == Err(UncommittedChanges)
    ensures branchName in g.branches && branchName != g.head && g.stage.IsEmpty() ==>
              var given := g.FilesOf(g.branches[branchName]);
              && ((exists f :: f in untracked && BlocksMerge(f, g.cwd, given, g.sha1)) ==>
                    st == Err(UntrackedInTheWay))
              && ((forall f :: f in untracked ==> !BlocksMerge(f, g.cwd, given, g.sha1)) ==>
                    st == Ok)
  {
    if branchName !in g.branches {
      return Err(NoBranchWithName);
    }
    if branchName == g.head {
      return Err(MergeWithSelf);
    }
    if g.stage.additions != map[] || g.stage.removals != [] {
      return Err(UncommittedChanges);
    }
    var given := g.FilesOf(g.branches[branchName]);
    var inTheWay := FilesInTheWay(untracked, g.cwd, given, g.sha1);
    if inTheWay != {} {
      var f :| f in inTheWay;
      return Err(UntrackedInTheWay);
    }
    st := Ok;
  }

  /**
   * The fast-forward of `merge`: check out the given branch (HEAD now names
   * it), then point the branch that was current at the same commit.
   */
  method FastForward(g: Repo, branchName: string, untracked: set<string>) returns (st: Status)
    requires g.Valid() && branchName in g.branches && branchName != g.head
    requires untracked <= g.cwd.Keys
    modifies g`cwd, g`head, g`branches, g.stage
    ensures g.Valid()
    ensures var target := old(g.FilesOf(g.branches[branchName]));
            && ((exists f :: f in untracked && f in target) ==>
                  st == Err(UntrackedInTheWay) && unchanged(g) && unchanged(g.stage))
            && ((forall f :: f in untracked ==> f !in target) ==>
                  && st == Ok
                  && g.head == branchName
                  && g.branches == old(g.branches)[old(g.head) := old(g.branches[branchName])]
                  && g.cwd == CheckedOut(old(g.cwd), old(g.CurrentFiles()), target, g.blobs)
                  && g.stage.IsEmpty())
  {
    var currentBranchName := g.head;
    st := CheckOutBranch(g, branchName, untracked);
    if st.Err? {
      return;
    }
    UpdateBranch(g, currentBranchName, g.branches[g.head]);
  }

  /** The message of the commit `merge` makes. */
  function MergeMessage(hasConflict: bool, branchName: string, currentBranchName: string): string
  {
    if hasConflict then "Encountered a merge conflict."
    else "Merged " + branchName + " into " + currentBranchName + "."
  }

  /** Some file of the three snapshots conflicts. */
  ghost predicate HasConflict(t: Snapshots)
  {
    exists f :: f in t.AllFiles() && t.ActionFor(f) == Conflict
  }

  /**
   * The file map of the commit a merge of `t` records: the current files
   * with the merge's staged additions put and its staged removals deleted.
   */
  function MergedFiles(t: Snapshots, blobs: map<Id, Blob>, sha1: Hash): map<string, Id>
    requires t.StoredIn(blobs)
  {
    (t.current + MergedAdditions(t, blobs, sha1, t.AllFiles())) - Deleted(t, t.AllFiles())
  }

  /**
   * A staging area whose removals list holds the names of `deleted`, each
   * once and in any order, commits the same file map as the set, and is
   * empty of removals exactly when the set is.
   */
  lemma ApplyStagingAsSets(files: map<string, Id>, additions: map<string, Id>,
                           removals: seq<string>, deleted: set<string>)
    requires multiset(removals) == multiset(deleted)
    ensures ApplyStaging(files, additions, removals) == (files + additions) - deleted
    ensures removals == [] <==> deleted == {}
  {
    forall f
      ensures f in removals <==> f in deleted
    {
      assert f in removals <==> f in multiset(removals);
      assert f in deleted <==> f in multiset(deleted);
    }
    assert (set f | f in removals) == deleted;
    assert |multiset(removals)| == |removals|;
    assert |multiset(deleted)| == |deleted|;
  }

  /**
   * The true merge: `mergeBranch` rewrites the working directory and the
   * staging area, then `commitWithMerge` records a commit whose second parent
   * is the given branch's commit, whose message says whether some file
   * conflicted, and whose files are the current ones with the merge's
   * changes applied. The commit is refused (`NoChanges`), after the working
   * directory has been rewritten, exactly when the merge staged nothing.
   */
  method MergeAndCommit(g: Repo, branchName: string, splitPointId: Id, now: int)
    returns (st: Status, hasConflict: bool)
    requires g.Valid() && branchName in g.branches && branchName != g.head
    requires splitPointId in g.commits
    requires splitPointId != g.branches[branchName] && splitPointId != g.branches[g.head]
    requires g.stage.IsEmpty()
    modifies g`cwd, g`blobs, g`commits, g`branches, g`rank, g.stage
    ensures g.Valid() && BlobsKept(old(g.blobs), g.blobs)
    ensures st == Ok || st == Err(NoChanges)
    ensures g.stage.IsEmpty()
    ensures var t := old(SnapshotsOf(g, splitPointId, branchName));
            && g.cwd == MergedWorkdir(old(g.cwd), t, old(g.blobs), t.AllFiles())
            && (hasConflict <==> HasConflict(t))
            && (st == Err(NoChanges) <==>
                  && MergedAdditions(t, old(g.blobs), g.sha1, t.AllFiles()) == map[]
                  && Deleted(t, t.AllFiles()) == {})
            && (st == Err(NoChanges) ==>
                  g.commits == old(g.commits) && g.branches == old(g.branches))
            && (st == Ok ==>
                  var c := NewMergeCommit(g.sha1, g.serialize, now,
                                          MergeMessage(hasConflict, branchName, g.head),
                                          Some(old(g.branches[g.head])),
                                          Some(old(g.branches[branchName])),
                                          MergedFiles(t, old(g.blobs), g.sha1));
                  && g.commits == old(g.commits)[c.id := c]
                  && g.branches == old(g.branches)[g.head := c.id])
  {
    var givenId := g.branches[branchName];
    ghost var t := SnapshotsOf(g, splitPointId, branchName);
    ghost var blobs0 := g.blobs;
    hasConflict := MergeBranch(g, branchName, splitPointId);
    assert g.CurrentFiles() == t.current;
    var message := MergeMessage(hasConflict, branchName, g.head);
    st := CommitMerge(g, t, blobs0, message, givenId, now);
  }

  /**
   * The commit step of a true merge: the staging area holds the merge's
   * additions and, in some order, its removals. The commit records the
   * merged file map; it is refused exactly when the merge staged nothing.
   */
  method CommitMerge(g: Repo, ghost t: Snapshots, ghost blobs0: map<Id, Blob>,
                     message: string, givenId: Id, now: int) returns (st: Status)
    requires g.Valid() && givenId in g.commits && message != ""
    requires t.StoredIn(blobs0) && g.CurrentFiles() == t.current
    requires g.stage.additions == MergedAdditions(t, blobs0, g.sha1, t.AllFiles())
    requires multiset(g.stage.removals) == multiset(Deleted(t, t.AllFiles()))
    modifies g`commits, g`branches, g`rank, g.stage
    ensures g.Valid() && g.stage.IsEmpty()
    ensures st == Ok || st == Err(NoChanges)
    ensures st == Err(NoChanges) <==>
              && MergedAdditions(t, blobs0, g.sha1, t.AllFiles()) == map[]
              && Deleted(t, t.AllFiles()) == {}
    ensures st == Err(NoChanges) ==> unchanged(g)
    ensures st == Ok ==>
              var c := NewMergeCommit(g.sha1, g.serialize, now, message,
                                      Some(old(g.branches[g.head])), Some(givenId),
                                      MergedFiles(t, blobs0, g.sha1));
              && g.commits == old(g.commits)[c.id := c]
              && g.branches == old(g.branches)[g.head := c.id]
  {
    ApplyStagingAsSets(t.current, g.stage.additions, g.stage.removals, Deleted(t, t.AllFiles()));
    st := CommitWithMerge(g, message, Some(givenId), now);
  }

  /**
   * `merge`: after the guards, find the split point. If it is the given
   * branch's commit nothing happens; if it is the current commit the current
   * branch is fast-forwarded; otherwise the branches are merged and the
   * result committed. `split` is the split point found.
   */
  method Merge(g: Repo, branchName: string, untracked: set<string>, now: int)
    returns (st: Status, split: Option<Id>)
    requires g.Valid() && untracked <= g.cwd.Keys
    modifies g`cwd, g`blobs, g`commits, g`branches, g`head, g`rank, g.stage
    ensures g.Valid()
    ensures branchName !in old(g.branches) ==>
              st == Err(NoBranchWithName) && unchanged(g) && unchanged(g.stage)
    ensures branchName in old(g.branches) && branchName == old(g.head) ==>
              st == Err(MergeWithSelf) && unchanged(g) && unchanged(g.stage)
    ensures branchName in old(g.branches) && branchName != old(g.head) && !old(g.stage.IsEmpty()) ==>
              st == Err(UncommittedChanges) && unchanged(g) && unchanged(g.stage)
    ensures branchName in old(g.branches) && branchName != old(g.head) && old(g.stage.IsEmpty())
            && (exists f :: f in untracked &&
                  BlocksMerge(f, old(g.cwd), old(g.FilesOf(g.branches[branchName])), g.sha1)) ==>
              st == Err(UntrackedInTheWay) && unchanged(g) && unchanged(g.stage)
    ensures split.Some? ==> branchName in old(g.branches) && branchName != old(g.head)
    ensures branchName in old(g.branches) && branchName != old(g.head) && old(g.stage.IsEmpty())
            && (forall f :: f in untracked ==>
                  !BlocksMerge(f, old(g.cwd), old(g.FilesOf(g.branches[branchName])), g.sha1)) ==>
              split.Some?
    ensures split.Some? ==>
              && split.value in old(g.commits)
              && IsAncestor(old(g.commits), old(g.CurrentCommitId()), split.value)
              && IsAncestor(old(g.commits), old(g.branches[branchName]), split.value)
    ensures split.Some? && split.value == old(g.branches[branchName]) ==>
              st == Ok && unchanged(g) && unchanged(g.stage)
    ensures split.Some? && split.value != old(g.branches[branchName])
            && split.value == old(g.CurrentCommitId()) ==>
              && (st == Ok || st == Err(UntrackedInTheWay))
              && (st == Ok <==>
                    forall f :: f in untracked ==> f !in old(g.FilesOf(g.branches[branchName])))
              && g.commits == old(g.commits) && g.blobs == old(g.blobs)
              && (st == Err(UntrackedInTheWay) ==> unchanged(g) && unchanged(g.stage))
              && (st == Ok ==>
                    && g.head == branchName
                    && g.branches == old(g.branches)[old(g.head) := old(g.branches[branchName])]
                    && g.cwd == CheckedOut(old(g.cwd), old(g.CurrentFiles()),
                                           old(g.FilesOf(g.branches[branchName])), g.blobs)
                    && g.stage.IsEmpty())
    ensures split.Some? && split.value != old(g.branches[branchName])
            && split.value != old(g.CurrentCommitId()) ==>
              var t := old(SnapshotsOf(g, split.value, branchName));
              && (st == Ok || st == Err(NoChanges))
              && g.head == old(g.head)
              && BlobsKept(old(g.blobs), g.blobs)
              && g.cwd == MergedWorkdir(old(g.cwd), t, old(g.blobs), t.AllFiles())
              && g.stage.IsEmpty()
              && (st == Err(NoChanges) <==>
                    && MergedAdditions(t, old(g.blobs), g.sha1, t.AllFiles()) == map[]
                    && Deleted(t, t.AllFiles()) == {})
              && (st == Err(NoChanges) ==>
                    g.commits == old(g.commits) && g.branches == old(g.branches))
              && (st == Ok ==>
                    var c := NewMergeCommit(g.sha1, g.serialize, now,
                                            MergeMessage(HasConflict(t), branchName, g.head),
                                            Some(old(g.branches[g.head])),
                                            Some(old(g.branches[branchName])),
                                            MergedFiles(t, old(g.blobs), g.sha1));
                    && g.commits == old(g.commits)[c.id := c]
                    && g.branches == old(g.branches)[g.head := c.id])
    ensures st == Ok ==> split.Some?
  {
    split := None;
    st := MergeGuards(g, branchName, untracked);
    if st.Err? {
      return;
    }
    split := FindSplitPoint(g, branchName);
    var givenId := g.branches[branchName];
    if split.value == givenId {
      return Ok, split;
    }
    if split.value == g.branches[g.head] {
      st := FastForward(g, branchName, untracked);
      return;
    }
    var hasConflict;
    st, hasConflict := MergeAndCommit(g, branchName, split.value, now);
  }
}
