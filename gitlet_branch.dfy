/**
 * Branch.java: branch pointers, checking out a whole commit, the split-point
 * search and the three-way merge of file snapshots.
 */
module Branch {
  import opened Wrappers
  import opened Objects
  import opened Staging
  import opened GitletState

  // ---------------------------------------------------------------------------
  // Branch pointers
  // ---------------------------------------------------------------------------

  /** `createBranch`: a new name pointing at `commitId`; an existing name is an error. */
  method CreateBranch(g: Repo, branchName: string, commitId: Id) returns (st: Status)
    requires g.Valid() && commitId in g.commits
    modifies g`branches
    ensures g.Valid()
    ensures branchName in old(g.branches) ==>
              st == Err(BranchExists) && g.branches == old(g.branches)
    ensures branchName !in old(g.branches) ==>
              st == Ok && g.branches == old(g.branches)[branchName := commitId]
  {
    if branchName in g.branches {
      return Err(BranchExists);
    }
    g.branches := g.branches[branchName := commitId];
    st := Ok;
  }

  /** `updateBranch`: overwrite (or create) the pointer, leaving every other branch alone. */
  method UpdateBranch(g: Repo, branchName: string, newCommitId: Id)
    requires g.Valid() && newCommitId in g.commits
    modifies g`branches
    ensures g.Valid()
    ensures g.branches == old(g.branches)[branchName := newCommitId]
  {
    g.branches := g.branches[branchName := newCommitId];
  }

  // ---------------------------------------------------------------------------
  // Checking out a commit
  // ---------------------------------------------------------------------------

  /**
   * The working directory after checking out `target` from a directory that
   * was on `current`: files of `target` hold their blob content, files of
   * `current` missing from `target` are gone, every other file is kept.
   */
  function CheckedOut(cwd: map<string, Bytes>, current: map<string, Id>,
                      target: map<string, Id>, blobs: map<Id, Blob>): (r: map<string, Bytes>)
    requires target.Values <= blobs.Keys
    ensures forall f :: f in target ==> f in r && r[f] == blobs[target[f]].content
    ensures forall f :: f !in target && f in current ==> f !in r
    ensures forall f :: f !in target && f !in current ==>
              (f in r <==> f in cwd) && (f in cwd ==> r[f] == cwd[f])
  {
    map f | f in (cwd.Keys - (current.Keys - target.Keys)) + target.Keys ::
      if f in target then blobs[target[f]].content else cwd[f]
  }

  /**
   * Checking out the same commit a second time, now that the working
   * directory is on it, changes nothing.
   */
  lemma CheckOutTwice(cwd: map<string, Bytes>, current: map<string, Id>,
                      target: map<string, Id>, blobs: map<Id, Blob>)
    requires target.Values <= blobs.Keys
    ensures var once := CheckedOut(cwd, current, target, blobs);
            CheckedOut(once, target, target, blobs) == once
  {
    var once := CheckedOut(cwd, current, target, blobs);
    var twice := CheckedOut(once, target, target, blobs);
    assert forall f :: f in twice <==> f in once;
  }

  /**
   * On a checked-out directory, the files either commit tracks are exactly
   * the target's files, with the target's contents.
   */
  lemma CheckOutRestoresSnapshot(cwd: map<string, Bytes>, current: map<string, Id>,
                                 target: map<string, Id>, blobs: map<Id, Blob>)
    requires target.Values <= blobs.Keys
    ensures var r := CheckedOut(cwd, current, target, blobs);
            (map f | f in r && (f in current || f in target) :: r[f])
            == map f | f in target :: blobs[target[f]].content
  {
  }

  /** The first loop of `checkOutCommit`: the untracked files the target would overwrite. */
  method FilesInTheWay(untracked: set<string>, target: map<string, Id>) returns (inTheWay: set<string>)
    ensures forall f :: f in inTheWay <==> f in untracked && f in target
  {
    inTheWay := {};
    var toScan := untracked;
    while toScan != {}
      invariant toScan <= untracked
      invariant forall f :: f in inTheWay <==> f in untracked - toScan && f in target
      decreases toScan
    {
      var f :| f in toScan;
      if f in target {
        inTheWay := inTheWay + {f};
      }
      toScan := toScan - {f};
    }
  }

  /** The second loop of `checkOutCommit`: delete the current commit's files the target lacks. */
  method DeleteDropped(cwd: map<string, Bytes>, current: map<string, Id>, target: map<string, Id>)
    returns (cwd': map<string, Bytes>)
    ensures forall f :: f in cwd' <==> f in cwd && !(f in current && f !in target)
    ensures forall f :: f in cwd' ==> cwd'[f] == cwd[f]
  {
    cwd' := cwd;
    var toDelete := current.Keys;
    while toDelete != {}
      invariant toDelete <= current.Keys
      invariant forall f :: f in cwd' <==> f in cwd && !(f in current.Keys - toDelete && f !in target)
      invariant forall f :: f in cwd' ==> cwd'[f] == cwd[f]
      decreases toDelete
    {
      var f :| f in toDelete;
      if f !in target {
        cwd' := cwd' - {f};
      }
      toDelete := toDelete - {f};
    }
  }

  /** The third loop of `checkOutCommit`: write every target file's blob content. */
  method WriteAll(cwd: map<string, Bytes>, target: map<string, Id>, blobs: map<Id, Blob>)
    returns (cwd': map<string, Bytes>)
    requires target.Values <= blobs.Keys
    ensures forall f :: f in cwd' <==> f in cwd || f in target
    ensures forall f :: f in target ==> cwd'[f] == blobs[target[f]].content
    ensures forall f :: f in cwd && f !in target ==> cwd'[f] == cwd[f]
  {
    cwd' := cwd;
    var toWrite := target.Keys;
    while toWrite != {}
      invariant toWrite <= target.Keys
      invariant forall f :: f in cwd' <==> f in cwd || f in target.Keys - toWrite
      invariant forall f :: f in target.Keys - toWrite ==> cwd'[f] == blobs[target[f]].content
      invariant forall f :: f in cwd && f !in target.Keys - toWrite ==> cwd'[f] == cwd[f]
      decreases toWrite
    {
      var f :| f in toWrite;
      assert target[f] in target.Values;
      cwd' := cwd'[f := blobs[target[f]].content];
      toWrite := toWrite - {f};
    }
  }

  /** Deleting the dropped files and then writing the target's files yields `CheckedOut`. */
  lemma CheckOutLoopsAgree(cwd: map<string, Bytes>, current: map<string, Id>, target: map<string, Id>,
                           blobs: map<Id, Blob>, pruned: map<string, Bytes>, written: map<string, Bytes>)
    requires target.Values <= blobs.Keys
    requires forall f :: f in pruned <==> f in cwd && !(f in current && f !in target)
    requires forall f :: f in pruned ==> pruned[f] == cwd[f]
    requires forall f :: f in written <==> f in pruned || f in target
    requires forall f :: f in target ==> written[f] == blobs[target[f]].content
    requires forall f :: f in pruned && f !in target ==> written[f] == pruned[f]
    ensures written == CheckedOut(cwd, current, target, blobs)
  {
    var r := CheckedOut(cwd, current, target, blobs);
    assert forall f :: f in written <==> f in r;
  }

  /**
   * `checkOutCommit`: refuse if a file untracked by the current commit would
   * be overwritten by the target; otherwise delete the current commit's files
   * the target lacks, write every target file and clear the staging area.
   * `untracked` stands for `getUntrackedFiles()` of the current commit.
   */
  method CheckOutCommit(g: Repo, targetCommitId: Id, untracked: set<string>) returns (st: Status)
    requires g.Valid() && targetCommitId in g.commits && untracked <= g.cwd.Keys
    modifies g`cwd, g.stage
    ensures g.Valid()
    ensures var target := g.FilesOf(targetCommitId);
            (exists f :: f in untracked && f in target) ==>
              st == Err(UntrackedInTheWay) && unchanged(g) && unchanged(g.stage)
    ensures var target := g.FilesOf(targetCommitId);
            (forall f :: f in untracked ==> f !in target) ==>
              && st == Ok
              && g.cwd == CheckedOut(old(g.cwd), g.CurrentFiles(), target, g.blobs)
              && g.stage.IsEmpty()
  {
    var currentFiles := g.commits[g.branches[g.head]].Files();
    var targetFiles := g.commits[targetCommitId].Files();
    var inTheWay := FilesInTheWay(untracked, targetFiles);
    if inTheWay != {} {
      var f :| f in inTheWay;
      return Err(UntrackedInTheWay);
    }
    StoredCommit(g.commits, g.blobs, g.rank, g.sha1, g.serialize, targetCommitId);
    var pruned := DeleteDropped(g.cwd, currentFiles, targetFiles);
    var written := WriteAll(pruned, targetFiles, g.blobs);
    CheckOutLoopsAgree(g.cwd, currentFiles, targetFiles, g.blobs, pruned, written);
    g.cwd := written;
    g.stage.Clear();
    st := Ok;
  }

  /** `checkOutBranchFiles`: check out the commit the named branch points to. */
  method CheckOutBranchFiles(g: Repo, targetBranchName: string, untracked: set<string>)
    returns (st: Status)
    requires g.Valid() && targetBranchName in g.branches && untracked <= g.cwd.Keys
    modifies g`cwd, g.stage
    ensures g.Valid()
    ensures var target := g.FilesOf(g.branches[targetBranchName]);
            (exists f :: f in untracked && f in target) ==>
              st == Err(UntrackedInTheWay) && unchanged(g) && unchanged(g.stage)
    ensures var target := g.FilesOf(g.branches[targetBranchName]);
            (forall f :: f in untracked ==> f !in target) ==>
              && st == Ok
              && g.cwd == CheckedOut(old(g.cwd), g.CurrentFiles(), target, g.blobs)
              && g.stage.IsEmpty()
  {
    st := CheckOutCommit(g, g.branches[targetBranchName], untracked);
  }

  // ---------------------------------------------------------------------------
  // Split point
  // ---------------------------------------------------------------------------

  /**
   * What one side of the search has established: everything queued or
   * visited descends from `start`, `start` itself is queued or visited, and
   * every parent of a visited commit is visited or still queued.
   */
  ghost predicate SideInv(commits: map<Id, Commit>, start: Id, queue: seq<Id>, visited: set<Id>)
  {
    && (forall x :: x in queue ==> x in commits && IsAncestor(commits, start, x))
    && (forall x :: x in visited ==> x in commits && IsAncestor(commits, start, x))
    && (start in visited || start in queue)
    && (forall x, p :: x in visited && p in Parents(commits[x]) ==> p in visited || p in queue)
  }

  /**
   * `tryVisitNext`: poll one id. A repeat visit yields nothing; a first
   * visit of an id the other side has seen returns it; otherwise its parent
   * and second parent are queued.
   */
  method TryVisitNext(commits: map<Id, Commit>, queue: seq<Id>,
                      visitedSelf: set<Id>, visitedOther: set<Id>)
    returns (found: Option<Id>, queue': seq<Id>, visitedSelf': set<Id>)
    requires forall x :: x in queue ==> x in commits
    ensures queue == [] ==>
              found == None && queue' == [] && visitedSelf' == visitedSelf
    ensures queue != [] && queue[0] in visitedSelf ==>
              found == None && queue' == queue[1..] && visitedSelf' == visitedSelf
    ensures queue != [] && queue[0] !in visitedSelf && queue[0] in visitedOther ==>
              found == Some(queue[0]) && queue' == queue[1..] && visitedSelf' == visitedSelf + {queue[0]}
    ensures queue != [] && queue[0] !in visitedSelf && queue[0] !in visitedOther ==>
              && found == None
              && queue' == queue[1..] + ParentList(commits[queue[0]])
              && visitedSelf' == visitedSelf + {queue[0]}
  {
    if queue == [] {
      return None, queue, visitedSelf;
    }
    var cid := queue[0];
    queue' := queue[1..];
    if cid in visitedSelf {
      return None, queue', visitedSelf;
    }
    visitedSelf' := visitedSelf + {cid};
    if cid in visitedOther {
      return Some(cid), queue', visitedSelf';
    }
    var commit := commits[cid];
    if commit.ParentId().Some? {
      queue' := queue' + [commit.ParentId().value];
    }
    if commit.SecondParentId().Some? {
      queue' := queue' + [commit.SecondParentId().value];
    }
    found := None;
  }

  /** Polling an id already visited keeps the side's invariant. */
  lemma SideInvRepeat(commits: map<Id, Commit>, start: Id, queue: seq<Id>, visited: set<Id>)
    requires SideInv(commits, start, queue, visited)
    requires queue != [] && queue[0] in visited
    ensures SideInv(commits, start, queue[1..], visited)
  {
    assert queue == [queue[0]] + queue[1..];
  }

  /** Visiting a new id and queueing its parents keeps the side's invariant. */
  lemma SideInvVisit(commits: map<Id, Commit>, start: Id, queue: seq<Id>, visited: set<Id>)
    requires Closed(commits) && SideInv(commits, start, queue, visited)
    requires queue != [] && queue[0] !in visited
    ensures SideInv(commits, start, queue[1..] + ParentList(commits[queue[0]]), visited + {queue[0]})
  {
    var x := queue[0];
    var queue' := queue[1..] + ParentList(commits[x]);
    assert queue == [x] + queue[1..];
    assert ParentsStored(commits, x);
    assert x in commits && IsAncestor(commits, start, x);
    forall y | y in queue'
      ensures y in commits && IsAncestor(commits, start, y)
    {
      if y !in queue[1..] {
        assert y in ParentList(commits[x]);
        AncestorStep(commits, start, x, y);
      }
    }
    forall y, p | y in visited + {x} && p in Parents(commits[y])
      ensures p in visited + {x} || p in queue'
    {
      if y == x {
        assert p in ParentList(commits[x]);
      }
    }
  }

  /** A side's invariant survives one `TryVisitNext` that found nothing. */
  lemma SideInvStep(commits: map<Id, Commit>, start: Id, queue: seq<Id>, visited: set<Id>,
                    queue': seq<Id>, visited': set<Id>)
    requires Closed(commits) && SideInv(commits, start, queue, visited)
    requires queue != []
    requires queue[0] in visited ==> queue' == queue[1..] && visited' == visited
    requires queue[0] !in visited ==>
               queue' == queue[1..] + ParentList(commits[queue[0]]) && visited' == visited + {queue[0]}
    ensures SideInv(commits, start, queue', visited')
  {
    if queue[0] in visited {
      SideInvRepeat(commits, start, queue, visited);
    } else {
      SideInvVisit(commits, start, queue, visited);
    }
  }

  /**
   * One `TryVisitNext` that found nothing keeps the side's invariant and
   * the disjointness of the two visited sets, and either visits a new commit
   * or shortens a non-empty queue.
   */
  lemma NoMatchStep(commits: map<Id, Commit>, start: Id, queue: seq<Id>, visited: set<Id>,
                    other: set<Id>, queue': seq<Id>, visited': set<Id>)
    requires Closed(commits) && SideInv(commits, start, queue, visited) && visited !! other
    requires queue == [] ==> queue' == [] && visited' == visited
    requires queue != [] && queue[0] in visited ==> queue' == queue[1..] && visited' == visited
    requires queue != [] && queue[0] !in visited ==>
               && queue[0] !in other
               && queue' == queue[1..] + ParentList(commits[queue[0]])
               && visited' == visited + {queue[0]}
    ensures SideInv(commits, start, queue', visited') && visited' !! other
    ensures || |commits.Keys - visited'| < |commits.Keys - visited|
            || (visited' == visited && |queue'| <= |queue| && (queue != [] ==> |queue'| < |queue|))
  {
    if queue != [] {
      SideInvStep(commits, start, queue, visited, queue', visited');
      if queue[0] !in visited {
        GrowVisited(commits.Keys, visited, queue[0]);
      }
    }
  }

  /** Every ancestor of a commit in a parent-closed set lies in that set. */
  lemma {:induction false} ClosedSetHoldsAncestors(commits: map<Id, Commit>, s: set<Id>, d: Id, a: Id)
    requires s <= commits.Keys && d in s
    requires forall x, p :: x in s && p in Parents(commits[x]) ==> p in s
    requires IsAncestor(commits, d, a)
    ensures a in s
  {
    var path :| IsPath(commits, path) && path[0] == d && path[|path| - 1] == a;
    var i := 0;
    while i < |path| - 1
      invariant 0 <= i < |path| && path[i] in s
    {
      assert path[i + 1] in Parents(commits[path[i]]);
      i := i + 1;
    }
  }

  /** Two exhausted searches with disjoint visited sets prove that the histories never meet. */
  lemma NoCommonAncestor(commits: map<Id, Commit>, currentId: Id, targetId: Id,
                         visitedFromCurrent: set<Id>, visitedFromTarget: set<Id>)
    requires SideInv(commits, currentId, [], visitedFromCurrent)
    requires SideInv(commits, targetId, [], visitedFromTarget)
    requires visitedFromCurrent !! visitedFromTarget
    ensures forall a :: !(IsAncestor(commits, currentId, a) && IsAncestor(commits, targetId, a))
  {
    forall a | IsAncestor(commits, currentId, a) && IsAncestor(commits, targetId, a)
      ensures false
    {
      ClosedSetHoldsAncestors(commits, visitedFromCurrent, currentId, a);
      ClosedSetHoldsAncestors(commits, visitedFromTarget, targetId, a);
    }
  }

  /** Shrinking a set by a member it holds drops its complement's size by one. */
  lemma GrowVisited(all: set<Id>, visited: set<Id>, x: Id)
    requires x in all && x !in visited
    ensures |all - (visited + {x})| == |all - visited| - 1
  {
    assert all - visited == (all - (visited + {x})) + {x};
  }

  /**
   * The loop of `findSplitPoint`: alternating breadth-first search from
   * `currentId` and from `targetId`. A result is a common ancestor of both;
   * no result means that the two histories share no commit.
   */
  method SearchSplitPoint(commits: map<Id, Commit>, currentId: Id, targetId: Id)
    returns (split: Option<Id>)
    requires Closed(commits) && currentId in commits && targetId in commits
    ensures split.Some? ==>
              && split.value in commits
              && IsAncestor(commits, currentId, split.value)
              && IsAncestor(commits, targetId, split.value)
    ensures split.None? ==>
              forall a :: !(IsAncestor(commits, currentId, a) && IsAncestor(commits, targetId, a))
  {
    AncestorRefl(commits, currentId);
    AncestorRefl(commits, targetId);

    var visitedFromCurrent: set<Id> := {};
    var visitedFromTarget: set<Id> := {};
    var currentQueue := [currentId];
    var targetQueue := [targetId];

    while currentQueue != [] || targetQueue != []
      invariant SideInv(commits, currentId, currentQueue, visitedFromCurrent)
      invariant SideInv(commits, targetId, targetQueue, visitedFromTarget)
      invariant visitedFromCurrent !! visitedFromTarget
      decreases |commits.Keys - visitedFromCurrent| + |commits.Keys - visitedFromTarget|,
                |currentQueue| + |targetQueue|
    {
      ghost var vc, vt := visitedFromCurrent, visitedFromTarget;
      ghost var qc, qt := currentQueue, targetQueue;
      var cid;
      cid, currentQueue, visitedFromCurrent :=
        TryVisitNext(commits, currentQueue, visitedFromCurrent, visitedFromTarget);
      if cid.Some? {
        return cid;
      }
      NoMatchStep(commits, currentId, qc, vc, visitedFromTarget, currentQueue, visitedFromCurrent);
      cid, targetQueue, visitedFromTarget :=
        TryVisitNext(commits, targetQueue, visitedFromTarget, visitedFromCurrent);
      if cid.Some? {
        return cid;
      }
      NoMatchStep(commits, targetId, qt, vt, visitedFromCurrent, targetQueue, visitedFromTarget);
    }

    NoCommonAncestor(commits, currentId, targetId, visitedFromCurrent, visitedFromTarget);
    return None;
  }

  /**
   * `findSplitPoint`: the search between the current head and the head of
   * `branchName`. In a well-formed repository both histories reach the
   * initial commit, so a split point is always found.
   */
  method FindSplitPoint(g: Repo, branchName: string) returns (split: Option<Id>)
    requires g.Valid() && branchName in g.branches
    ensures split.Some?
    ensures split.value in g.commits
    ensures IsAncestor(g.commits, g.CurrentCommitId(), split.value)
    ensures IsAncestor(g.commits, g.branches[branchName], split.value)
  {
    split := SearchSplitPoint(g.commits, g.branches[g.head], g.branches[branchName]);
    if split.None? {
      var root := InitialCommit(g.sha1, g.serialize).id;
      StoredCommit(g.commits, g.blobs, g.rank, g.sha1, g.serialize, g.branches[g.head]);
      StoredCommit(g.commits, g.blobs, g.rank, g.sha1, g.serialize, g.branches[branchName]);
      RootIsAncestor(g.commits, g.rank, root, g.branches[g.head]);
      RootIsAncestor(g.commits, g.rank, root, g.branches[branchName]);
      assert false;
    }
  }

  // ---------------------------------------------------------------------------
  // Three-way merge
  // ---------------------------------------------------------------------------

  /** What `mergeBranch` does with one file. */
  datatype Action =
    | Keep       // leave the working file and the staging area alone
    | TakeGiven  // check out the given branch's version and stage it
    | Delete     // remove the file and stage the removal
    | Conflict   // write the conflict text and stage it

  /**
   * The per-file decision of `mergeBranch`, from the blob ids of the file in
   * the split point, the current head and the given head (None = absent),
   * following the branch order of the source.
   */
  function Decide(split: Option<Id>, current: Option<Id>, given: Option<Id>): Action
  {
    if current == given then Keep
    else if split.None? then
      if given.Some? && current.None? then TakeGiven
      else if given.Some? && current.Some? && current != given then Conflict
      else Keep
    else
      if given.None? && current == split then Delete
      else if (given.None? && current != split) || (current.None? && given != split) then Conflict
      else if given != split && current == split then TakeGiven
      else if given != split && current != split && current != given then Conflict
      else Keep
  }

  /**
   * The decision table in closed form: a side that still equals the split
   * point yields to the other side; two sides that changed differently
   * conflict; equal sides are left alone.
   */
  lemma DecideTable(s: Option<Id>, c: Option<Id>, g: Option<Id>)
    ensures Decide(s, c, g) == Keep <==> c == g || g == s
    ensures Decide(s, c, g) == TakeGiven <==> c == s && g != s && g.Some?
    ensures Decide(s, c, g) == Delete <==> c == s && g != s && g.None?
    ensures Decide(s, c, g) == Conflict <==> c != s && g != s && c != g
  {
  }

  /** The three snapshots a merge compares. */
  datatype Snapshots = Snapshots(split: map<string, Id>, current: map<string, Id>, given: map<string, Id>)
  {
    function AllFiles(): set<string>
    {
      split.Keys + current.Keys + given.Keys
    }

    function ActionFor(f: string): Action
    {
      Decide(Lookup(split, f), Lookup(current, f), Lookup(given, f))
    }

    predicate Writes(f: string)
    {
      ActionFor(f) == TakeGiven || ActionFor(f) == Conflict
    }

    predicate StoredIn(blobs: map<Id, Blob>)
    {
      current.Values <= blobs.Keys && given.Values <= blobs.Keys
    }
  }

  /** Blob content of an optional id; a missing side reads as empty. */
  function ContentOf(blobs: map<Id, Blob>, id: Option<Id>): Bytes
    requires id.Some? ==> id.value in blobs
  {
    if id.Some? then blobs[id.value].content else []
  }

  /** The bytes of an ASCII string. */
  function Ascii(s: string): (b: Bytes)
    ensures |b| == |s|
    ensures forall i :: 0 <= i < |s| ==> b[i] as int == s[i] as int % 256
  {
    seq(|s|, i requires 0 <= i < |s| => (s[i] as int % 256) as byte)
  }

  lemma AsciiAppend(s: string, t: string)
    ensures Ascii(s + t) == Ascii(s) + Ascii(t)
  {
  }

  const ConflictHead: string := "<<<<<<< HEAD\n"
  const ConflictSeparator: string := "=======\n"
  const ConflictEnd: string := ">>>>>>>\n"

  /**
   * `handleConflict`'s file content: both versions between conflict markers.
   * Each version can be read back from its position.
   */
  function ConflictText(current: Bytes, given: Bytes): (r: Bytes)
    ensures |r| == 13 + |current| + 8 + |given| + 8
    ensures r[..13] == Ascii(ConflictHead)
    ensures r[13..13 + |current|] == current
    ensures r[13 + |current|..21 + |current|] == Ascii(ConflictSeparator)
    ensures r[21 + |current|..21 + |current| + |given|] == given
    ensures r[21 + |current| + |given|..] == Ascii(ConflictEnd)
  {
    Ascii(ConflictHead) + current + Ascii(ConflictSeparator) + given + Ascii(ConflictEnd)
  }

  /** Current content "y" against given content "z". */
  lemma ConflictTextExample()
    ensures ConflictText(Ascii("y"), Ascii("z")) == Ascii("<<<<<<< HEAD\ny=======\nz>>>>>>>\n")
  {
    AsciiAppend("<<<<<<< HEAD\n", "y");
    AsciiAppend("<<<<<<< HEAD\ny", "=======\n");
    AsciiAppend("<<<<<<< HEAD\ny=======\n", "z");
    AsciiAppend("<<<<<<< HEAD\ny=======\nz", ">>>>>>>\n");
  }

  /** The content a merge writes to a file it checks out or marks as conflicting. */
  function WrittenContent(t: Snapshots, blobs: map<Id, Blob>, f: string): Bytes
    requires t.StoredIn(blobs) && t.Writes(f)
  {
    if t.ActionFor(f) == TakeGiven then blobs[t.given[f]].content
    else ConflictText(ContentOf(blobs, Lookup(t.current, f)), ContentOf(blobs, Lookup(t.given, f)))
  }

  function Written(t: Snapshots, done: set<string>): set<string>
  {
    set f | f in done && t.Writes(f)
  }

  function Deleted(t: Snapshots, done: set<string>): set<string>
  {
    set f | f in done && t.ActionFor(f) == Delete
  }

  /** The working directory once the files in `done` have been merged. */
  function MergedWorkdir(cwd: map<string, Bytes>, t: Snapshots, blobs: map<Id, Blob>,
                         done: set<string>): map<string, Bytes>
    requires t.StoredIn(blobs)
  {
    map f | f in (cwd.Keys - Deleted(t, done)) + Written(t, done) ::
      if f in Written(t, done) then WrittenContent(t, blobs, f) else cwd[f]
  }

  /** The staged additions once the files in `done` have been merged. */
  function MergedAdditions(t: Snapshots, blobs: map<Id, Blob>, sha1: Hash,
                           done: set<string>): map<string, Id>
    requires t.StoredIn(blobs)
  {
    map f | f in Written(t, done) && sha1(WrittenContent(t, blobs, f)) !in t.current.Values ::
      sha1(WrittenContent(t, blobs, f))
  }

  /** A file whose current and given versions agree is never touched by a merge. */
  lemma MergeLeavesAgreeingFiles(cwd: map<string, Bytes>, t: Snapshots, blobs: map<Id, Blob>,
                                 sha1: Hash, f: string)
    requires t.StoredIn(blobs)
    requires Lookup(t.current, f) == Lookup(t.given, f)
    ensures var r := MergedWorkdir(cwd, t, blobs, t.AllFiles());
            (f in r <==> f in cwd) && (f in cwd ==> r[f] == cwd[f])
    ensures f !in MergedAdditions(t, blobs, sha1, t.AllFiles())
    ensures f !in Deleted(t, t.AllFiles())
  {
  }

  /** Merging one more file that is written updates just that file. */
  lemma MergedWorkdirWrite(cwd: map<string, Bytes>, t: Snapshots, blobs: map<Id, Blob>,
                           done: set<string>, f: string)
    requires t.StoredIn(blobs) && f !in done && t.Writes(f)
    ensures MergedWorkdir(cwd, t, blobs, done + {f})
            == MergedWorkdir(cwd, t, blobs, done)[f := WrittenContent(t, blobs, f)]
  {
    assert Written(t, done + {f}) == Written(t, done) + {f};
    assert Deleted(t, done + {f}) == Deleted(t, done);
  }

  /** Merging one more file that is deleted removes just that file. */
  lemma MergedWorkdirDelete(cwd: map<string, Bytes>, t: Snapshots, blobs: map<Id, Blob>,
                            done: set<string>, f: string)
    requires t.StoredIn(blobs) && f !in done && t.ActionFor(f) == Delete
    ensures MergedWorkdir(cwd, t, blobs, done + {f}) == MergedWorkdir(cwd, t, blobs, done) - {f}
  {
    assert Written(t, done + {f}) == Written(t, done);
    assert Deleted(t, done + {f}) == Deleted(t, done) + {f};
  }

  /** Merging one more file that is kept changes nothing. */
  lemma MergedWorkdirKeep(cwd: map<string, Bytes>, t: Snapshots, blobs: map<Id, Blob>,
                          done: set<string>, f: string)
    requires t.StoredIn(blobs) && f !in done && t.ActionFor(f) == Keep
    ensures MergedWorkdir(cwd, t, blobs, done + {f}) == MergedWorkdir(cwd, t, blobs, done)
  {
    assert Written(t, done + {f}) == Written(t, done);
    assert Deleted(t, done + {f}) == Deleted(t, done);
  }

  lemma {:induction false} MergedAdditionsStep(t: Snapshots, blobs: map<Id, Blob>, sha1: Hash,
                                               done: set<string>, f: string)
    requires t.StoredIn(blobs) && f !in done
    ensures t.Writes(f) && sha1(WrittenContent(t, blobs, f)) !in t.current.Values ==>
              MergedAdditions(t, blobs, sha1, done + {f})
              == MergedAdditions(t, blobs, sha1, done)[f := sha1(WrittenContent(t, blobs, f))]
    ensures !(t.Writes(f) && sha1(WrittenContent(t, blobs, f)) !in t.current.Values) ==>
              MergedAdditions(t, blobs, sha1, done + {f}) == MergedAdditions(t, blobs, sha1, done)
  {
    assert Written(t, done + {f}) == Written(t, done) + (if t.Writes(f) then {f} else {});
  }

  /** The merged state after one more file, by the file's action. */
  lemma MergeStep(cwd: map<string, Bytes>, t: Snapshots, blobs: map<Id, Blob>, sha1: Hash,
                  done: set<string>, f: string)
    requires t.StoredIn(blobs) && f !in done
    ensures t.Writes(f) ==>
              && MergedWorkdir(cwd, t, blobs, done + {f})
                 == MergedWorkdir(cwd, t, blobs, done)[f := WrittenContent(t, blobs, f)]
              && Deleted(t, done + {f}) == Deleted(t, done)
    ensures t.ActionFor(f) == Delete ==>
              && MergedWorkdir(cwd, t, blobs, done + {f}) == MergedWorkdir(cwd, t, blobs, done) - {f}
              && Deleted(t, done + {f}) == Deleted(t, done) + {f}
    ensures t.ActionFor(f) == Keep ==>
              && MergedWorkdir(cwd, t, blobs, done + {f}) == MergedWorkdir(cwd, t, blobs, done)
              && Deleted(t, done + {f}) == Deleted(t, done)
    ensures t.Writes(f) && sha1(WrittenContent(t, blobs, f)) !in t.current.Values ==>
              MergedAdditions(t, blobs, sha1, done + {f})
              == MergedAdditions(t, blobs, sha1, done)[f := sha1(WrittenContent(t, blobs, f))]
    ensures !(t.Writes(f) && sha1(WrittenContent(t, blobs, f)) !in t.current.Values) ==>
              MergedAdditions(t, blobs, sha1, done + {f}) == MergedAdditions(t, blobs, sha1, done)
    ensures f !in MergedAdditions(t, blobs, sha1, done)
  {
    MergedAdditionsStep(t, blobs, sha1, done, f);
    match t.ActionFor(f)
    case Keep => MergedWorkdirKeep(cwd, t, blobs, done, f);
    case Delete => MergedWorkdirDelete(cwd, t, blobs, done, f);
    case TakeGiven => MergedWorkdirWrite(cwd, t, blobs, done, f);
    case Conflict => MergedWorkdirWrite(cwd, t, blobs, done, f);
  }

  /**
   * The working directory, staged additions, staged removals and conflict
   * flag once the files in `done` have been merged, starting from `cwd0` and
   * an empty staging area.
   */
  ghost predicate MergedUpTo(cwd0: map<string, Bytes>, t: Snapshots, blobs0: map<Id, Blob>,
                             sha1: Hash, done: set<string>, cwd: map<string, Bytes>,
                             additions: map<string, Id>, removals: seq<string>, conflict: bool)
    requires t.StoredIn(blobs0)
  {
    && cwd == MergedWorkdir(cwd0, t, blobs0, done)
    && additions == MergedAdditions(t, blobs0, sha1, done)
    && multiset(removals) == multiset(Deleted(t, done))
    && (conflict <==> exists f :: f in done && t.ActionFor(f) == Conflict)
  }

  /** A file not merged yet is neither staged for addition nor for removal. */
  lemma MergeNotYet(cwd0: map<string, Bytes>, t: Snapshots, blobs0: map<Id, Blob>, sha1: Hash,
                    done: set<string>, cwd: map<string, Bytes>, additions: map<string, Id>,
                    removals: seq<string>, conflict: bool, f: string)
    requires t.StoredIn(blobs0) && f !in done
    requires MergedUpTo(cwd0, t, blobs0, sha1, done, cwd, additions, removals, conflict)
    ensures f !in additions && f !in removals
  {
    assert f !in Deleted(t, done);
    assert multiset(removals)[f] == 0;
  }

  /**
   * Merging one more file as `MergeFile` does extends the merged state from
   * `done` to `done + {f}`.
   */
  lemma MergeInvStep(cwd0: map<string, Bytes>, t: Snapshots, blobs0: map<Id, Blob>, sha1: Hash,
                     done: set<string>, f: string,
                     cwd: map<string, Bytes>, additions: map<string, Id>, removals: seq<string>,
                     conflict: bool,
                     cwd': map<string, Bytes>, additions': map<string, Id>, removals': seq<string>,
                     c: bool)
    requires t.StoredIn(blobs0) && f !in done
    requires MergedUpTo(cwd0, t, blobs0, sha1, done, cwd, additions, removals, conflict)
    requires c <==> t.ActionFor(f) == Conflict
    requires t.Writes(f) ==>
               var id := sha1(WrittenContent(t, blobs0, f));
               && cwd' == cwd[f := WrittenContent(t, blobs0, f)]
               && removals' == removals
               && additions' == if id in t.current.Values then additions else additions[f := id]
    requires t.ActionFor(f) == Delete ==>
               cwd' == cwd - {f} && removals' == removals + [f] && additions' == additions
    requires t.ActionFor(f) == Keep ==>
               cwd' == cwd && removals' == removals && additions' == additions
    ensures MergedUpTo(cwd0, t, blobs0, sha1, done + {f}, cwd', additions', removals', conflict || c)
  {
    MergeStep(cwd0, t, blobs0, sha1, done, f);
    if t.ActionFor(f) == Conflict {
      assert f in done + {f};
    }
    if conflict {
      var x :| x in done && t.ActionFor(x) == Conflict;
      assert x in done + {f};
    }
  }

  /**
   * `handleConflict`: write the conflict text for `fileName` (an absent side
   * contributes nothing) and stage the file.
   */
  method HandleConflict(g: Repo, fileName: string, currentBlobId: Option<Id>, givenBlobId: Option<Id>)
    requires g.Valid()
    requires currentBlobId.Some? ==> currentBlobId.value in g.blobs
    requires givenBlobId.Some? ==> givenBlobId.value in g.blobs
    modifies g`cwd, g`blobs, g.stage
    ensures g.Valid()
    ensures BlobsKept(old(g.blobs), g.blobs)
    ensures var text := ConflictText(ContentOf(old(g.blobs), currentBlobId),
                                     ContentOf(old(g.blobs), givenBlobId));
            && g.cwd == old(g.cwd)[fileName := text]
            && g.stage.removals == RemoveFirst(old(g.stage.removals), fileName)
            && (g.sha1(text) in g.CurrentFiles().Values ==> g.stage.additions == old(g.stage.additions))
            && (g.sha1(text) !in g.CurrentFiles().Values ==>
                  g.stage.additions == old(g.stage.additions)[fileName := g.sha1(text)])
  {
    var currentContent := ContentOf(g.blobs, currentBlobId);
    var givenContent := ContentOf(g.blobs, givenBlobId);
    g.cwd := g.cwd[fileName := ConflictText(currentContent, givenContent)];
    AddExisting(g, fileName);
  }

  /**
   * A file the merge writes: its given version is checked out
   * (`checkOutWithCommitIDAndFileName`) or its conflict text written
   * (`handleConflict`), and then it is staged as `add` does.
   */
  method MergeWrite(g: Repo, t: Snapshots, f: string, ghost blobs0: map<Id, Blob>)
    requires g.Valid() && t.StoredIn(blobs0) && t.current == g.CurrentFiles() && t.Writes(f)
    requires BlobsKept(blobs0, g.blobs)
    requires f !in g.stage.removals
    modifies g`cwd, g`blobs, g.stage
    ensures g.Valid() && BlobsKept(blobs0, g.blobs)
    ensures var id := g.sha1(WrittenContent(t, blobs0, f));
            && g.cwd == old(g.cwd)[f := WrittenContent(t, blobs0, f)]
            && g.stage.removals == old(g.stage.removals)
            && g.stage.additions
               == if id in t.current.Values then old(g.stage.additions)
                  else old(g.stage.additions)[f := id]
  {
    ghost var text := WrittenContent(t, blobs0, f);
    if t.ActionFor(f) == TakeGiven {
      assert g.blobs[t.given[f]].content == text;
      g.cwd := g.cwd[f := g.blobs[t.given[f]].content];
      AddExisting(g, f);
    } else {
      assert ContentOf(g.blobs, Lookup(t.current, f)) == ContentOf(blobs0, Lookup(t.current, f));
      assert ContentOf(g.blobs, Lookup(t.given, f)) == ContentOf(blobs0, Lookup(t.given, f));
      HandleConflict(g, f, Lookup(t.current, f), Lookup(t.given, f));
    }
    assert t.current == g.CurrentFiles();
  }

  /**
   * The body of `mergeBranch`'s loop for one file: act on it as `Decide`
   * says. The result says whether the file conflicted.
   */
  method MergeFile(g: Repo, t: Snapshots, f: string, ghost blobs0: map<Id, Blob>)
    returns (conflict: bool)
    requires g.Valid() && t.StoredIn(blobs0) && t.current == g.CurrentFiles()
    requires BlobsKept(blobs0, g.blobs)
    requires f !in g.stage.additions && f !in g.stage.removals
    modifies g`cwd, g`blobs, g.stage
    ensures g.Valid()
    ensures BlobsKept(blobs0, g.blobs)
    ensures conflict <==> t.ActionFor(f) == Conflict
    ensures t.Writes(f) ==>
              var id := g.sha1(WrittenContent(t, blobs0, f));
              && g.cwd == old(g.cwd)[f := WrittenContent(t, blobs0, f)]
              && g.stage.removals == old(g.stage.removals)
              && g.stage.additions
                 == if id in t.current.Values then old(g.stage.additions)
                    else old(g.stage.additions)[f := id]
    ensures t.ActionFor(f) == Delete ==>
              && g.cwd == old(g.cwd) - {f}
              && g.stage.removals == old(g.stage.removals) + [f]
              && g.stage.additions == old(g.stage.additions)
    ensures t.ActionFor(f) == Keep ==>
              && g.cwd == old(g.cwd)
              && g.stage.removals == old(g.stage.removals)
              && g.stage.additions == old(g.stage.additions)
  {
    conflict := t.ActionFor(f) == Conflict;
    if t.Writes(f) {
      MergeWrite(g, t, f, blobs0);
    } else if t.ActionFor(f) == Delete {
      var cwd' := g.stage.RemoveFile(f, t.current, g.cwd);
      g.cwd := cwd';
    }
  }

  /**
   * One turn of `mergeBranch`'s loop: take some file out of `toMerge` and
   * merge it with `MergeFile`, extending the merged state from `done` to
   * `done'`.
   */
  method MergeNext(g: Repo, t: Snapshots, toMerge: set<string>, ghost cwd0: map<string, Bytes>,
                   ghost blobs0: map<Id, Blob>, ghost done: set<string>, ghost conflictSoFar: bool)
    returns (rest: set<string>, conflict: bool, ghost done': set<string>)
    requires g.Valid() && t.StoredIn(blobs0) && t.current == g.CurrentFiles()
    requires toMerge != {} && done !! toMerge
    requires BlobsKept(blobs0, g.blobs)
    requires MergedUpTo(cwd0, t, blobs0, g.sha1, done, g.cwd, g.stage.additions,
                        g.stage.removals, conflictSoFar)
    modifies g`cwd, g`blobs, g.stage
    ensures rest < toMerge && done' !! rest && done' + rest == done + toMerge
    ensures g.Valid()
    ensures BlobsKept(blobs0, g.blobs)
    ensures MergedUpTo(cwd0, t, blobs0, g.sha1, done', g.cwd, g.stage.additions,
                       g.stage.removals, conflictSoFar || conflict)
  {
    var f :| f in toMerge;
    MergeNotYet(cwd0, t, blobs0, g.sha1, done, g.cwd, g.stage.additions, g.stage.removals,
                conflictSoFar, f);
    ghost var cwd, additions, removals := g.cwd, g.stage.additions, g.stage.removals;
    conflict := MergeFile(g, t, f, blobs0);
    MergeInvStep(cwd0, t, blobs0, g.sha1, done, f, cwd, additions, removals, conflictSoFar,
                 g.cwd, g.stage.additions, g.stage.removals, conflict);
    rest, done' := toMerge - {f}, done + {f};
  }

  /**
   * The loop of `mergeBranch`: merge every file of `files`, one at a time,
   * starting from an empty staging area.
   */
  method MergeFiles(g: Repo, t: Snapshots, files: set<string>) returns (hasConflict: bool)
    requires g.Valid() && t.StoredIn(g.blobs) && t.current == g.CurrentFiles()
    requires g.stage.IsEmpty()
    modifies g`cwd, g`blobs, g.stage
    ensures g.Valid()
    ensures BlobsKept(old(g.blobs), g.blobs)
    ensures MergedUpTo(old(g.cwd), t, old(g.blobs), g.sha1, files, g.cwd, g.stage.additions,
                       g.stage.removals, hasConflict)
  {
    ghost var cwd0, blobs0 := g.cwd, g.blobs;
    var toMerge := files;
    hasConflict := false;
    ghost var done: set<string> := {};
    while toMerge != {}
      invariant done + toMerge == files && done !! toMerge
      invariant g.Valid()
      invariant BlobsKept(blobs0, g.blobs)
      invariant MergedUpTo(cwd0, t, blobs0, g.sha1, done, g.cwd, g.stage.additions,
                           g.stage.removals, hasConflict)
      decreases toMerge
    {
      var conflict;
      toMerge, conflict, done := MergeNext(g, t, toMerge, cwd0, blobs0, done, hasConflict);
      hasConflict := hasConflict || conflict;
    }
  }

  /** The split point's, the current commit's and the given branch's file maps. */
  function SnapshotsOf(g: Repo, splitPointId: Id, branchName: string): (t: Snapshots)
    reads g, g.stage
    requires g.Valid() && splitPointId in g.commits && branchName in g.branches
    ensures t.StoredIn(g.blobs)
  {
    Snapshots(g.FilesOf(splitPointId), g.CurrentFiles(), g.FilesOf(g.branches[branchName]))
  }

  /**
   * `mergeBranch` past its two early returns (split point equal to either
   * head, which `Repository.merge` has already handled): every file of the
   * three snapshots is merged by `Decide`; the result says whether any file
   * conflicted.
   */
  method MergeBranch(g: Repo, branchName: string, splitPointId: Id) returns (hasConflict: bool)
    requires g.Valid() && branchName in g.branches && splitPointId in g.commits
    requires splitPointId != g.branches[branchName] && splitPointId != g.branches[g.head]
    requires g.stage.IsEmpty()
    modifies g`cwd, g`blobs, g.stage
    ensures g.Valid()
    ensures BlobsKept(old(g.blobs), g.blobs)
    ensures var t := old(SnapshotsOf(g, splitPointId, branchName));
            && g.cwd == MergedWorkdir(old(g.cwd), t, old(g.blobs), t.AllFiles())
            && g.stage.additions == MergedAdditions(t, old(g.blobs), g.sha1, t.AllFiles())
            && multiset(g.stage.removals) == multiset(Deleted(t, t.AllFiles()))
            && (hasConflict <==> exists f :: f in t.AllFiles() && t.ActionFor(f) == Conflict)
  {
    var t := SnapshotsOf(g, splitPointId, branchName);
    hasConflict := MergeFiles(g, t, t.AllFiles());
  }
}
