# CS61B data structures and Gitlet, modelled in Dafny

This project models the core of a CS61B course repository:

- **Gitlet**, a small version-control system. It has:
  - blobs and commits kept in content-addressed stores;
  - a staging area;
  - branches and a HEAD pointer;
  - the commands `init`, `add`, `commit`, `rm`, `log`, `find`, the three forms of `checkout`, `branch`, `rm-branch`, `reset` and `merge`;
  - the breadth-first search for a merge's split point;
  - the per-file merge decision.
- **Two deques.** `ArrayDeque` is a circular array that doubles when full and shrinks to a quarter when sparse. `LinkedListDeque` is a doubly linked list around a sentinel. `MaxArrayDeque` is an array deque with a comparator-driven `max`.
- **Two maps.** `BSTMap` is an unbalanced binary search tree. `MyHashMap` is a separately chained hash table that doubles when its load factor exceeds `maxLoad`.

**Gitlet.** The repository is a `Repo` object (`gitlet_state.dfy`). It holds:

- the working directory, as a map from file names to bytes;
- the blob and commit stores, as maps from ids to objects;
- the branch pointers and the name HEAD holds;
- the staging area, a `StagingArea` object (`gitlet_staging.dfy`).

`Repo.Valid` is the repository invariant:

- every stored object sits under its own hash;
- every file a commit names has a stored blob;
- every parent is stored;
- exactly one commit has no parent, the initial commit;
- a ghost rank falls along every parent link, so the history is acyclic and every walk back ends.

Each command that prints a message and exits returns `Err(...)` of a `Failure` naming that message. Such an error leaves the state unchanged, with one exception: a merge refused with `NoChanges` comes after `mergeBranch` has already rewritten the working directory and stored blobs, and the contract says so. Each command's contract states the new state outright, with one exception: after a true merge the blob store is stated only to keep every blob it had, not which blobs the merge added.

**Deques and maps.** Each structure is a class whose methods update its fields in place. Each is proved against a ghost abstraction:

- the deques against `Contents`, the sequence of items front to back;
- the maps against `Contents`, the map of entries.

Each class also keeps a representation invariant, `Valid`:

- **ArrayDeque:** the circular layout and the power-of-two length.
- **LinkedListDeque:** the links between nodes.
- **BSTMap:** the search-tree order.
- **MyHashMap:** every entry in its key's bucket, keys unique per bucket, and `actualSize` equal to the number of entries.

## Model

| member | source | states |
|---|---|---|
| Objects.NewBlob | proj2/gitlet/Blob.java:12-15 | a blob keeps its content and its id is the hash of that content |
| Objects.SaveBlob | proj2/gitlet/Blob.java:17-23 | saving adds the blob under its own id and keeps every other stored blob |
| Objects.BlobIdDeterministic | proj2/gitlet/Blob.java:12-15 | equal contents give equal blobs, so equal ids |
| Objects.SaveBlobDeduplicates | proj2/gitlet/Blob.java:17-23 | saving a second blob of the same content changes nothing; the store grows by at most one |
| Objects.Commit.ParentId | proj2/gitlet/Commit.java:65-67 | `getParentCommitID`: the first parent recorded |
| Objects.Commit.Files | proj2/gitlet/Commit.java:69-71 | `getFileNameToBlobID`: the file map recorded |
| Objects.Commit.SecondParentId | proj2/gitlet/Branch.java:123-125 | `getSecondParentCommitID`: the second parent recorded, set only for merge commits |
| Objects.Commit.Message | proj2/gitlet/Repository.java:162 | `getMessage`: the message recorded |
| Objects.InitialCommit | proj2/gitlet/Commit.java:33-39 | message "initial commit", no parent, no files, timestamp 0, id = hash of the serialized record |
| Objects.NewCommit | proj2/gitlet/Commit.java:41-47 | the commit records the message, parent, file map and time given; its id is the hash of its serialized record |
| Objects.NewMergeCommit | proj2/gitlet/Repository.java:104-105 | as `NewCommit`, also recording the second parent |
| Objects.SaveCommit | proj2/gitlet/Commit.java:49-55 | saving adds the commit under its id and keeps every other stored commit |
| Objects.FindCommit | proj2/gitlet/Commit.java:57-63 | `null` exactly when no commit has that id, otherwise the stored commit |
| Objects.FindAfterSave | proj2/gitlet/Commit.java:49-63 | after saving `c`, finding `c.id` gives `c` and finding any other id gives what it gave before |
| Staging.FirstIndex | proj2/gitlet/StagingArea.java:41 | the position `List.remove` searches for: the name is there and nowhere before it |
| Staging.RemoveFirst | proj2/gitlet/StagingArea.java:40-42 | `List.remove` drops the first occurrence of the name and the other names keep their order; nothing changes if the name is absent |
| Staging.RemoveFirstKeepsDuplicate | proj2/gitlet/StagingArea.java:40-42 | a name staged for removal twice is still staged after one `add` |
| Staging.StagingArea.constructor | proj2/gitlet/StagingArea.java:17-31 | a new staging area is empty |
| Staging.StagingArea.AddFile | proj2/gitlet/StagingArea.java:38-53 | a pending removal is cancelled; if the content's blob id is among the values of the current commit's map nothing is staged; otherwise the name is staged with that id and the blob saved |
| Staging.StagingArea.RemoveFile | proj2/gitlet/StagingArea.java:55-65 | the staged addition is dropped; a tracked name is appended to the removals and deleted from the working directory |
| Staging.StagingArea.Clear | proj2/gitlet/StagingArea.java:67-70 | both collections are empty |
| GitletState.ParentList | proj2/gitlet/Branch.java:119-125 | the ids queued after a commit are exactly its parent and second parent |
| GitletState.RootIsAncestor | proj2/gitlet/Repository.java:135-146 | in a valid store every commit reaches the initial commit through first parents |
| GitletState.StoredCommit | proj2/gitlet/Commit.java:57-63 | a stored commit sits under its own hash, its parents and blobs are stored, and its rank exceeds its parents' |
| GitletState.SameIdSameCommit | proj2/gitlet/Commit.java:41-55 | with an ideal hash, a commit whose id is already stored is the stored commit |
| GitletState.SaveBlobKeepsStore | proj2/gitlet/Blob.java:17-23 | saving a blob keeps the blob store well formed and keeps every stored blob |
| GitletState.Repo.Init | proj2/gitlet/Repository.java:40-60 | the initial commit is stored, "master" points at it, HEAD names "master", the stage and blob store are empty, and the repository is valid |
| GitletState.Repo.CurrentFiles | proj2/gitlet/Branch.java:29-31 | the file map of the commit the current branch points at; all its blobs are stored |
| GitletState.AddExisting | proj2/gitlet/Repository.java:63-74 | `add` of an existing file does what `addFile` does against the current commit and keeps the repository valid |
| Branch.CreateBranch | proj2/gitlet/Branch.java:11-18 | an existing name is refused unchanged; otherwise only the new pointer is added |
| Branch.UpdateBranch | proj2/gitlet/Branch.java:20-23 | the named pointer is set; every other branch stays |
| Branch.CheckedOut | proj2/gitlet/Branch.java:61-71 | target files get their blob content; files only the current commit tracks are gone; every other file stays |
| Branch.CheckOutTwice | proj2/gitlet/Branch.java:43-76 | checking out the same commit again changes nothing (idempotence) |
| Branch.CheckOutRestoresSnapshot | proj2/gitlet/Branch.java:43-76 | after a checkout, the files either commit tracks are exactly the target's snapshot |
| Branch.FilesInTheWay | proj2/gitlet/Branch.java:49-54 | the refused files are exactly the untracked files the target tracks |
| Branch.DeleteDropped | proj2/gitlet/Branch.java:61-65 | the loop deletes exactly the current commit's files the target lacks |
| Branch.WriteAll | proj2/gitlet/Branch.java:66-71 | the loop writes every target file's blob content and keeps all other files |
| Branch.CheckOutLoopsAgree | proj2/gitlet/Branch.java:61-71 | the two loops together compute `CheckedOut` |
| Branch.CheckOutCommit | proj2/gitlet/Branch.java:43-76 | refused and unchanged when an untracked file would be overwritten; otherwise the directory is `CheckedOut` and the stage is cleared |
| Branch.CheckOutBranchFiles | proj2/gitlet/Branch.java:38-41 | `checkOutCommit` of the commit the branch points at |
| Branch.TryVisitNext | proj2/gitlet/Branch.java:105-128 | each of the four cases of polling, with the visited set and the queue left: empty queue, repeat visit, meeting the other side (the polled id dropped), queueing the parents |
| Branch.NoMatchStep | proj2/gitlet/Branch.java:90-100 | a fruitless poll keeps each side's invariant and the disjointness of the visited sets, and makes progress |
| Branch.NoCommonAncestor | proj2/gitlet/Branch.java:102 | two exhausted searches mean the histories share no commit |
| Branch.SearchSplitPoint | proj2/gitlet/Branch.java:78-103 | a result is a common ancestor of both heads; no result means there is none |
| Branch.FindSplitPoint | proj2/gitlet/Branch.java:78-103 | in a valid repository a split point is always found, and it is an ancestor of both heads |
| Branch.Decide | proj2/gitlet/Branch.java:162-207 | the per-file action of the merge loop's branches, from the split, current and given versions |
| Branch.DecideTable | proj2/gitlet/Branch.java:158-207 | the decision in closed form: an unchanged side yields to the other; sides that changed differently conflict; agreeing sides are kept |
| Branch.ConflictText | proj2/gitlet/Branch.java:221-225 | the conflict file is the head marker, the current content, the separator, the given content and the end marker; each piece sits at a known position |
| Branch.ConflictTextExample | proj2/gitlet/Branch.java:221-225 | current "y" against given "z" gives the expected marker text |
| Branch.MergeLeavesAgreeingFiles | proj2/gitlet/Branch.java:162-164 | a file with the same version on both sides is neither written, staged nor removed |
| Branch.MergeStep | proj2/gitlet/Branch.java:158-208 | the merged directory and staging after one more file, by the file's action |
| Branch.MergeInvStep | proj2/gitlet/Branch.java:158-208 | one more file merged as the loop does extends the merged state |
| Branch.HandleConflict | proj2/gitlet/Branch.java:212-229 | the file gets the conflict text (an absent side reads as empty) and is staged as `add` stages it |
| Branch.MergeWrite | proj2/gitlet/Branch.java:175-205 | a file the merge writes gets its given version or its conflict text, and is staged as `add` stages it, unless that content is already committed |
| Branch.MergeFile | proj2/gitlet/Branch.java:159-207 | a written file is checked out or conflict-marked and staged; a deleted file is removed and staged for removal; a kept file is untouched |
| Branch.MergeNext | proj2/gitlet/Branch.java:158-208 | one turn of the loop takes a file out of those left and extends the merged state by it |
| Branch.MergeFiles | proj2/gitlet/Branch.java:153-208 | after the loop, the directory, additions, removals and conflict flag are those of every file merged |
| Branch.MergeBranch | proj2/gitlet/Branch.java:130-210 | the directory and stage are the merge of all three snapshots; the result is true exactly when some file conflicts |
| Repository.Add | proj2/gitlet/Repository.java:63-74 | a missing file is an error and nothing changes; otherwise the file is staged as `addFile` says |
| Repository.ApplyStaging | proj2/gitlet/Repository.java:97-103 | the new file map holds the parent's and the staged files minus the staged removals; additions override |
| Repository.BuildFileMap | proj2/gitlet/Repository.java:97-103 | the two loops compute `ApplyStaging` |
| Repository.ApplyStagingValues | proj2/gitlet/Repository.java:97-103 | every blob the new commit names comes from the parent's map or the staged additions |
| Repository.AddCommitKeepsStore | proj2/gitlet/Repository.java:104-106 | storing a new commit with stored parents and blobs keeps the store well formed and acyclic |
| Repository.CommitWithMerge | proj2/gitlet/Repository.java:80-113 | an empty message or stage is an error and nothing changes; otherwise the new commit is stored, the current branch points at it, and the stage is empty |
| Repository.Commit | proj2/gitlet/Repository.java:76-78 | `commitWithMerge` without a second parent |
| Repository.Remove | proj2/gitlet/Repository.java:116-132 | a name neither staged nor tracked is an error and nothing changes; otherwise `removeFile` runs |
| Repository.Log | proj2/gitlet/Repository.java:135-146 | the printed ids start at the head, follow first parents, and end at the initial commit |
| Repository.Find | proj2/gitlet/Repository.java:158-175 | the matching ids are exactly the stored commits with that message; none is an error |
| Repository.FindTarget | proj2/gitlet/Repository.java:227-236 | a full-length id is looked up directly; a shorter one goes through the short-id lookup; a result is always stored |
| Repository.CheckOutFileFromCommit | proj2/gitlet/Repository.java:226-248 | an unknown commit or untracked name is an error; otherwise only that file is rewritten with the blob content |
| Repository.CheckOutFile | proj2/gitlet/Repository.java:221-223 | the same, from the current commit |
| Repository.CheckOutBranch | proj2/gitlet/Repository.java:251-265 | an unknown or current branch is an error; otherwise the branch's commit is checked out and HEAD names the branch |
| Repository.NewBranch | proj2/gitlet/Repository.java:267-275 | an existing name is an error; otherwise a new branch at the current commit |
| Repository.RemoveBranch | proj2/gitlet/Repository.java:277-289 | a missing or current branch is an error; otherwise only that pointer is deleted |
| Repository.Reset | proj2/gitlet/Repository.java:291-305 | an unknown id is an error; a short id fails in `checkOutCommit`; otherwise checkout, and the current branch points at the commit |
| Repository.FilesInTheWay | proj2/gitlet/Repository.java:330-337 | the collected files are exactly the untracked files the given commit lacks or holds with other content |
| Repository.MergeGuards | proj2/gitlet/Repository.java:308-342 | the four guards of `merge`, in order |
| Repository.FastForward | proj2/gitlet/Repository.java:351-357 | HEAD moves to the given branch, and the old current branch points at the given commit |
| Repository.BlocksMerge | proj2/gitlet/Repository.java:333-334 | an untracked file is in the way when the given commit lacks it or holds other content |
| Repository.MergeMessage | proj2/gitlet/Repository.java:360-365 | the conflict message, or "Merged <given> into <current>." |
| Repository.MergedFiles | proj2/gitlet/Repository.java:97-105 | the merge commit's file map: the current files with the merge's additions put and its deletions removed |
| Repository.ApplyStagingAsSets | proj2/gitlet/Repository.java:97-103 | a removals list holding a set's names, in any order, commits the same file map as the set, and is empty exactly when the set is |
| Repository.CommitMerge | proj2/gitlet/Repository.java:367 | with the merge's changes staged, the commit records the merged file map with both parents; it is refused with `NoChanges` exactly when the merge staged nothing, and then nothing changes |
| Repository.MergeAndCommit | proj2/gitlet/Repository.java:359-367 | the directory is the merge of the three snapshots; the result is true exactly when some file conflicts; the commit has both heads as parents, the conflict or merge message, and the merged file map; it is refused with `NoChanges` exactly when the merge staged no addition and no removal, after the directory was rewritten |
| Repository.Merge | proj2/gitlet/Repository.java:307-368 | each guard's error; once all four guards pass a split point is found, and it is a common ancestor; an ancestor changes nothing; a fast-forward succeeds exactly when no untracked file is tracked by the given commit, and then keeps the commits and blobs, moves the branches and checks the given commit out, and otherwise fails with `UntrackedInTheWay` and changes nothing; a true merge has the directory, commit, message and `NoChanges` case of `MergeAndCommit` |
| ArrayDeques.QuarterOfPowerOfTwo | proj1/deque/ArrayDeque.java:68-69 | shrinking to a quarter keeps the length a power of two of at least 4 |
| Ratios.RatioBelow | proj1/deque/ArrayDeque.java:68 | comparing `(double) a / b` with `n / d`, taken as exact reals, is comparing `a * d` with `n * b` |
| ArrayDeques.ArrayDeque.ShouldShrink | proj1/deque/ArrayDeque.java:68 | at least 16 slots and `size / length` below 0.25, computed as `4 * size < length` |
| ArrayDeques.LaidPushFront | proj1/deque/ArrayDeque.java:34-35 | stepping `head` back one slot, wrapping around, and storing there prepends the item to the circular layout |
| ArrayDeques.LaidPushBack | proj1/deque/ArrayDeque.java:43-44 | storing at `tail` and stepping it on, wrapping around, appends the item |
| ArrayDeques.LaidPopFront | proj1/deque/ArrayDeque.java:64-66 | slot `head` holds the front item; clearing it and stepping on drops that item |
| ArrayDeques.LaidPopBack | proj1/deque/ArrayDeque.java:78-80 | the slot before `tail` holds the back item; clearing it drops that item |
| ArrayDeques.ArrayDeque.constructor | proj1/deque/ArrayDeque.java:12-17 | an empty deque over 8 slots |
| ArrayDeques.ArrayDeque.Size | proj1/deque/ArrayDeque.java:49-51 | the number of items |
| ArrayDeques.ArrayDeque.IsEmpty | proj1/deque/Deque.java:1-14 | true exactly when there are no items |
| ArrayDeques.ArrayDeque.Get | proj1/deque/ArrayDeque.java:88-93 | the item at that position from the front; `null` out of range |
| ArrayDeques.ArrayDeque.CopyToFront | proj1/deque/ArrayDeque.java:21-24 | the new array holds the items in order from slot 0 |
| ArrayDeques.ArrayDeque.Resize | proj1/deque/ArrayDeque.java:20-28 | same items, new length, `head` 0, `tail` = size |
| ArrayDeques.ArrayDeque.GrowIfFull | proj1/deque/ArrayDeque.java:31-33 | same items; the length doubles exactly when the array was full, leaving a free slot |
| ArrayDeques.ArrayDeque.ShrinkIfSparse | proj1/deque/ArrayDeque.java:68-70 | same items; the length becomes a quarter exactly when it is at least 16 and under a quarter is used |
| ArrayDeques.ArrayDeque.AddFirst | proj1/deque/ArrayDeque.java:30-37 | the item is prepended; the length doubles exactly when the array was full |
| ArrayDeques.ArrayDeque.AddLast | proj1/deque/ArrayDeque.java:39-46 | the item is appended; the length doubles exactly when the array was full |
| ArrayDeques.ArrayDeque.RemoveFirst | proj1/deque/ArrayDeque.java:60-72 | empty gives `null` and nothing changes; otherwise the front item is removed and returned, and the length shrinks to a quarter when under a quarter full and at least 16 |
| ArrayDeques.ArrayDeque.RemoveLast | proj1/deque/ArrayDeque.java:74-86 | the same at the back |
| ArrayDeques.ArrayDeque.Equals | proj1/deque/ArrayDeque.java:115-133 | true exactly when both deques hold the same items in order |
| ArrayDeques.PushCopies | proj1/deque/ArrayDequeTest.java:40-42 | `n` more calls of `addFirst(x)` on a deque of copies of `x` give a deque of `n` more copies |
| ArrayDeques.FillEmptyRefill | proj1/deque/ArrayDequeTest.java:38-56 | filling, emptying and refilling gives a deque equal to one filled once |
| MaxArrayDeques.MaxArrayDeque.constructor | proj1/deque/MaxArrayDeque.java:8-11 | an empty deque remembering the comparator |
| MaxArrayDeques.MaxArrayDeque.MaxBy | proj1/deque/MaxArrayDeque.java:20-31 | `null` exactly when empty; otherwise the first of the largest items |
| MaxArrayDeques.MaxArrayDeque.Max | proj1/deque/MaxArrayDeque.java:13-18 | the same with the constructor's comparator |
| MaxArrayDeques.MaxSoFarStep | proj1/deque/MaxArrayDeque.java:25-29 | replacing the candidate only on a strictly greater item keeps the first of the largest |
| MaxArrayDeques.EarliestMaxUnique | proj1/deque/MaxArrayDeque.java:20-31 | the first of the largest items is unique, so `max` is determined |
| LinkedListDeques.LinkedPushFront | proj1/deque/LinkedListDeque.java:30-34 | the three link updates of `addFirst` put a fresh node at the front, keeping every link consistent |
| LinkedListDeques.LinkedPushBack | proj1/deque/LinkedListDeque.java:39-43 | the three link updates of `addLast` put a fresh node at the back |
| LinkedListDeques.LinkedPopFront | proj1/deque/LinkedListDeque.java:65-67 | the two link updates of `removeFirst` unlink the first node and leave a consistent list of the rest |
| LinkedListDeques.LinkedPopBack | proj1/deque/LinkedListDeque.java:76-78 | the two link updates of `removeLast` unlink the last node |
| LinkedListDeques.LinkedListDeque.constructor | proj1/deque/LinkedListDeque.java:22-27 | an empty deque, the sentinel linked to itself |
| LinkedListDeques.LinkedListDeque.Size | proj1/deque/LinkedListDeque.java:48-50 | the number of items |
| LinkedListDeques.LinkedListDeque.IsEmpty | proj1/deque/Deque.java:1-14 | true exactly when there are no items |
| LinkedListDeques.LinkedListDeque.AddFirst | proj1/deque/LinkedListDeque.java:29-36 | the item is prepended and the links stay consistent |
| LinkedListDeques.LinkedListDeque.AddLast | proj1/deque/LinkedListDeque.java:38-45 | the item is appended and the links stay consistent |
| LinkedListDeques.LinkedListDeque.RemoveFirst | proj1/deque/LinkedListDeque.java:61-70 | empty gives `null` and nothing changes; otherwise the front item is unlinked and returned |
| LinkedListDeques.LinkedListDeque.RemoveLast | proj1/deque/LinkedListDeque.java:72-81 | the same at the back |
| LinkedListDeques.LinkedListDeque.Get | proj1/deque/LinkedListDeque.java:83-94 | the item at that position; `null` past the end; a negative index gives the first item |
| LinkedListDeques.LinkedListDeque.Helper | proj1/deque/LinkedListDeque.java:101-110 | from the node at position `pos`, the item `index` further on, or `null` |
| LinkedListDeques.LinkedListDeque.GetRecursive | proj1/deque/LinkedListDeque.java:96-99 | the item at that position; `null` out of range, negative included |
| LinkedListDeques.LinkedListDeque.Equals | proj1/deque/LinkedListDeque.java:133-155 | true exactly when both deques hold the same items in order |
| LinkedListDeques.SameItems | proj1/deque/LinkedListDeque.java:145-152 | walking two equally long lists in step finds them equal exactly when their items are |
| BSTMaps.Get | lab7/bstmap/BSTMap.java:68-80 | in a search tree, the search finds exactly the value the tree maps the key to |
| BSTMaps.SubtreeFinds | lab7/bstmap/BSTMap.java:121-135 | the search lands on a node exactly when the key is present, and that node holds its value |
| BSTMaps.InOrder | lab7/bstmap/BSTMap.java:92-99 | the in-order keys are exactly the tree's keys |
| BSTMaps.InOrderAscending | lab7/bstmap/BSTMap.java:92-99 | in a search tree the in-order keys are strictly ascending |
| BSTMaps.PutNode | lab7/bstmap/BSTMap.java:33-47 | the result is a search tree mapping the key to the value, all else kept; `size` grows exactly for a new key |
| BSTMaps.RemoveNode | lab7/bstmap/BSTMap.java:121-135 | the result is a search tree without the key; `size` drops by the count `RemoveCount` gives; the node handed back is the one `RemoveReturns` names |
| BSTMaps.HandleRemove | lab7/bstmap/BSTMap.java:137-154 | the node gives way to its child, or takes its in-order successor's entry; the tree keeps its order and loses only the node's key |
| BSTMaps.LeftmostIsLeast | lab7/bstmap/BSTMap.java:145-148 | the successor loop ends on the least key of the right subtree |
| BSTMaps.ReplaceBySuccessor | lab7/bstmap/BSTMap.java:149-152 | copying the successor up and removing it below keeps the search order and drops the node's key |
| BSTMaps.BSTMap.constructor | lab7/bstmap/BSTMap.java:22-24 | an empty map with size 0 |
| BSTMaps.BSTMap.Put | lab7/bstmap/BSTMap.java:26-31 | a `null` key throws and nothing changes; otherwise the key maps to the value, all else kept, and `size` counts a new key |
| BSTMaps.BSTMap.Clear | lab7/bstmap/BSTMap.java:49-52 | empty map, size 0 |
| BSTMaps.BSTMap.KeySet | lab7/bstmap/BSTMap.java:86-90 | the keys, each once, in ascending order |
| BSTMaps.BSTMap.ContainsKey | lab7/bstmap/BSTMap.java:54-59 | a `null` key throws; otherwise whether the key is present |
| BSTMaps.BSTMap.GetValue | lab7/bstmap/BSTMap.java:61-66 | a `null` key throws; otherwise the key's value or `null` |
| BSTMaps.BSTMap.Size | lab7/bstmap/BSTMap.java:82-84 | the `size` counter |
| BSTMaps.BSTMap.RemoveThroughRoot | lab7/bstmap/BSTMap.java:105 | the root field keeps its node, so a removed root with at most one child stays; otherwise the key is gone |
| BSTMaps.BSTMap.Remove | lab7/bstmap/BSTMap.java:101-107 | a `null` key throws; otherwise the value returned is that of the node `remove` hands back, and the entries and `size` change as the code makes them |
| BSTMaps.RemoveCount | lab7/bstmap/BSTMap.java:121-154 | how often `size` is counted down: none for an absent key, twice for a node with two children |
| BSTMaps.RootBypassed | lab7/bstmap/BSTMap.java:105-106 | the key is at the root and the root has at most one child, so `handleRemove` returns another node that is never stored in `root` |
| BSTMaps.RemoveReturns | lab7/bstmap/BSTMap.java:105-106 | the value of the node `remove(root, key)` hands back, by cases on the root |
| BSTMaps.AbsentKeyReturnsRootValue | lab7/bstmap/BSTMap.java:105-106 | removing an absent key from a one-node tree returns the root's value |
| BSTMaps.LoneRootSurvivesRemove | lab7/bstmap/BSTMap.java:121-135 | removing the key of a one-node tree keeps the entry but counts `size` down |
| BSTMaps.TwoChildrenCountTwice | lab7/bstmap/BSTMap.java:121-154 | removing a key whose node has two children counts `size` down twice |
| BSTMaps.BSTMap.RemoveEntry | lab7/bstmap/BSTMap.java:101-107 | removal as intended: the key's own value or `null` is returned, the entry goes wherever it is, and `size` drops exactly when an entry went, so a size that counted the entries still does |
| BSTMaps.BSTMap.RemoveIfValue | lab7/bstmap/BSTMap.java:109-119 | a `null` key throws; a `null` value returns `null` at once; otherwise the removal happens whatever the value, and the value is returned only when it equals the one handed back |
| HashMaps.Slot | lab8/hashmap/MyHashMap.java:111 | `floorMod` of the hash gives a bucket index in range |
| HashMaps.Without | lab8/hashmap/MyHashMap.java:113 | `removeIf` keeps exactly the entries with another key; the length is unchanged exactly when no entry had the key |
| HashMaps.DropFirstKey | lab8/hashmap/MyHashMap.java:212 | in a bucket with unique keys, removing the found node leaves exactly the entries with other keys |
| HashMaps.HoldsAfterPlace | lab8/hashmap/MyHashMap.java:110-117 | replacing the key's entry in its bucket makes the buckets hold the updated map; the bucket kept its length exactly when the key was new |
| HashMaps.HoldsAfterDrop | lab8/hashmap/MyHashMap.java:204-215 | removing the key's entry makes the buckets hold the map without the key |
| HashMaps.MyHashMap.constructor | lab8/hashmap/MyHashMap.java:58-67 | `initialSize` empty buckets, no entries, the given load factor |
| HashMaps.MyHashMap.EmptyTable | lab8/hashmap/MyHashMap.java:92-108 | `createTable` filled with `createBucket`: a fresh array of `n` empty buckets |
| HashMaps.MyHashMap.Default | lab8/hashmap/MyHashMap.java:43-45 | 16 buckets and load factor 0.75 |
| HashMaps.MyHashMap.WithCapacity | lab8/hashmap/MyHashMap.java:47-49 | the given number of buckets and load factor 0.75 |
| HashMaps.MyHashMap.Overloaded | lab8/hashmap/MyHashMap.java:119-126 | `actualSize / capacity > maxLoad`, taken as exact reals, computed with cross products |
| HashMaps.MyHashMap.Place | lab8/hashmap/MyHashMap.java:110-117 | the key maps to the value, all else kept; `actualSize` grows exactly for a new key |
| HashMaps.MyHashMap.Put | lab8/hashmap/MyHashMap.java:110-122 | as `Place`; the capacity is doubled zero or more times, ends with the load at most `maxLoad`, and is not doubled once too often |
| HashMaps.MyHashMap.Resize | lab8/hashmap/MyHashMap.java:128-146 | same entries in fresh buckets; the capacity is doubled until the load is at most `maxLoad`, and no further |
| HashMaps.MyHashMap.MoveAll | lab8/hashmap/MyHashMap.java:138-145 | re-inserting every old bucket into empty buckets gives back the same map |
| HashMaps.MyHashMap.MoveBucket | lab8/hashmap/MyHashMap.java:142-144 | re-inserting one bucket adds its entries and keeps what was there |
| HashMaps.MyHashMap.GetNode | lab8/hashmap/MyHashMap.java:153-165 | the entry for the key, or `null` when absent |
| HashMaps.MyHashMap.Get | lab8/hashmap/MyHashMap.java:148-151 | the key's value, or `null` |
| HashMaps.MyHashMap.Size | lab8/hashmap/MyHashMap.java:167-169 | the number of entries |
| HashMaps.MyHashMap.ContainsKey | lab8/hashmap/MyHashMap.java:171-173 | whether the key is present |
| HashMaps.MyHashMap.KeySet | lab8/hashmap/MyHashMap.java:175-186 | exactly the keys of the map |
| HashMaps.MyHashMap.Clear | lab8/hashmap/MyHashMap.java:188-193 | no entries, same capacity |
| HashMaps.MyHashMap.RemoveWithValue | lab8/hashmap/MyHashMap.java:204-215 | the key's value (or `null`) is returned and its entry removed; `actualSize` drops exactly for a present key; the load stays within bounds |
| HashMaps.MyHashMap.Remove | lab8/hashmap/MyHashMap.java:195-202 | the same as `remove(key, value)` with the value found |

## Left out

- Hashing and serialization: SHA-1 and Java serialization are the parameters `sha1` and `serialize` of the repository. They are assumed collision-free (`IdealHash`); the model does not compute SHA-1.
- Files on disk: the `.gitlet` directory, the stage file and the working directory are maps in memory. Reading and writing them, `saveStagingArea` and the directory creation in `init` are not modelled.
- Printing: `log` returns the ids it prints instead of formatting `Commit.toString`. `status`, `global-log`, `printDeque` and the iterators of the deques and maps are not modelled, because they only print or enumerate.
- `init` does not model the "already exists" check: a `Repo` can only be constructed once.
- The command line (`Main.java`) and remote repositories (`Remote.java`) are not part of this model.
- Helpers the modelled files call but do not define are modelled from their use:
  - `Commit.createMergeCommit`, `getMessage` and `getSecondParentCommitID`, as the fields of the commit record;
  - `getUntrackedFiles`, as the parameter `untracked`;
  - `findCommitWithShortID`, as the parameter `ShortIds.resolve`;
  - `Blob.getBlobContent` and `getBlobID(file)`, as store lookup and hashing.
- Time: the commit timestamp is the parameter `now`.
- Repository.Reset: Gitlet's documented `reset` accepts an abbreviated commit id; the code does not. The possibly short id is passed on to `checkOutCommit`, and a short id that is not itself a stored id fails there with `Fault`.
- Staging.StagingArea.AddFile: Gitlet's documented `add` skips a file whose content equals the current commit's version of that same file, a per-path test; the code tests the whole map. A file is left unstaged when its blob id appears anywhere among the current commit's values, not only under its own name.
- Repository.FastForward: follows the code. HEAD is switched to the given branch, and then the branch that was current is moved too.
- Branch.FindSplitPoint: the search is proved to find a common ancestor, not a latest common ancestor. The code's alternating search does not promise one.
- Branch.MergeBranch: conflict text is written as bytes. The UTF-8 decoding and re-encoding of the two versions is not modelled.
- Deques: items are never `null`. `equals` is modelled between two deques of the same class; comparison with the other `Deque` implementation is not modelled.
- MaxArrayDeques.MaxArrayDeque: holds an `ArrayDeque` rather than extending it. Dafny classes cannot inherit from classes.
- ArrayDeque's `testMemoryOptimization` and the randomized test are not modelled: they only run the operations.
- LinkedListDeques.LinkedListDeque: nodes are records in a map from node ids to nodes, and the ids play the part of references. Unlinked nodes stay in the map, as garbage would stay until collected. The allocation of a fresh node is a counter.
- BSTMaps: keys are integers ordered by `<`, standing for a `Comparable` key. A `null` key is `None`.
- BSTMaps.PutNode: each node update is modelled by rebuilding the path to the root, a tree value standing for the mutable nodes. The in-place update is shown only through the `root` field, as `RemoveThroughRoot` does for the one case where it matters.
- BSTMaps.BSTMap.Size: reports the drifting `size` counter. It is not proved equal to the number of keys, because after a removal at the root or of a node with two children the code makes it differ.
- HashMaps: `hashCode` is the parameter `hash`. The load factor `maxLoad`, a `double`, is the fraction `maxLoadNum / maxLoadDen`. The test is done in integers and proved equal to the comparison of the exact ratios; floating-point rounding is not modelled.
- ArrayDeques.ArrayDeque.ShouldShrink: the `double` division is taken as exact; floating-point rounding is not modelled.
- HashMaps.MyHashMap.constructor: requires a positive size and load factor. With a size of 0 the Java code divides by zero in `floorMod`, and with a load factor of 0 or less it never stops resizing.
- HashMaps.MyHashMap.WithCapacity: requires `initialSize > 0`. The Java constructor accepts any size: 0 gives a table on which the first `put` divides by zero in `floorMod`, and a negative size throws `NegativeArraySizeException`. Neither exception is modelled.
- HashMaps.MyHashMap.Resize: when a `put` during the re-insertion finds the load still too high, the Java code resizes again in the middle of the pass. Here that is one more doubling after the pass. The final capacity is the same; the order of entries within a bucket may differ.
- HashMaps.MyHashMap.ContainsKey: values are never `null`, so `get(key) != null` is modelled as key membership.
- HashMaps.MyHashMap.RemoveWithValue: `bucket.remove(node)` removes the node found by identity, modelled as the first entry with the key.

## Findings

| source | as written | input that shows it | evidently intended | confidence | as-written member | corrected member |
|---|---|---|---|---|---|---|
| lab7/bstmap/BSTMap.java:101-107 | `remove(key)` returns the value of the node `remove(root, key)` hands back, which is the root unless the root holds the key | a one-node tree with key 5, `remove(7)` returns the root's value | the removed key's value, `null` when absent | high, not executed | BSTMaps.AbsentKeyReturnsRootValue | BSTMaps.BSTMap.RemoveEntry |
| lab7/bstmap/BSTMap.java:121-135 | the node `remove(root, key)` returns is never stored in `root`, so a removed root with at most one child stays while `size` drops | a one-node tree with key 5, `remove(5)` | the entry is gone and `size` drops by one | high, not executed | BSTMaps.LoneRootSurvivesRemove | BSTMaps.BSTMap.RemoveEntry |
| lab7/bstmap/BSTMap.java:121-154 | a node with two children is replaced by its successor, whose own removal counts `size` down again | keys 3, 5, 7 with 5 at the root, `remove(5)` | `size` drops by one | high, not executed | BSTMaps.TwoChildrenCountTwice | BSTMaps.BSTMap.RemoveEntry |
