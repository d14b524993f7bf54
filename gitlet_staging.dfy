/**
 * StagingArea.java: the pending additions (file name -> blob id) and the
 * pending removals (a list of file names) applied by the next commit.
 * Persisting the object to `.gitlet/stage` is not modelled.
 */
module Staging {
  import opened Objects

  /** The position of the first occurrence of `x` in `s`. */
  function FirstIndex(s: seq<string>, x: string): (i: nat)
    requires x in s
    ensures i < |s| && s[i] == x && x !in s[..i]
  {
    if s[0] == x then 0
    else
      assert s[1..][..FirstIndex(s[1..], x)] == s[1..FirstIndex(s[1..], x) + 1];
      FirstIndex(s[1..], x) + 1
  }

  /**
   * `List.remove(Object)`: drop the first occurrence of `x`, if any; the
   * other names keep their order.
   */
  function RemoveFirst(s: seq<string>, x: string): (r: seq<string>)
    ensures x !in s ==> r == s
    ensures x in s ==> r == s[..FirstIndex(s, x)] + s[FirstIndex(s, x) + 1..]
  {
    if s == [] then []
    else
      assert s == [s[0]] + s[1..];
      if s[0] == x then s[1..]
      else
        var r := [s[0]] + RemoveFirst(s[1..], x);
        assert x in s[1..] ==>
          var i := FirstIndex(s[1..], x);
          && s[..i + 1] == [s[0]] + s[1..][..i]
          && s[i + 2..] == s[1..][i + 1..];
        r
  }

  /**
   * A name queued for removal twice is still queued after one `RemoveFirst`:
   * the list keeps duplicates.
   */
  lemma {:induction false} RemoveFirstKeepsDuplicate(s: seq<string>, x: string)
    requires multiset(s)[x] >= 2
    ensures x in RemoveFirst(s, x)
  {
    assert x in multiset(s);
    var i := FirstIndex(s, x);
    assert s == s[..i] + [x] + s[i + 1..];
    assert multiset(s)[x] == multiset(s[..i])[x] + 1 + multiset(s[i + 1..])[x];
    assert x !in multiset(s[..i]);
    assert x in multiset(s[i + 1..]);
  }

  class StagingArea {
    var additions: map<string, Id>
    var removals: seq<string>

    /** A fresh, empty staging area. */
    constructor ()
      ensures additions == map[] && removals == []
    {
      additions := map[];
      removals := [];
    }

    /** Both collections are empty. */
    predicate IsEmpty()
      reads this
    {
      additions == map[] && removals == []
    }

    /**
     * `addFile`: stage the working content of `name`. A pending removal of
     * `name` is always cancelled. If the content's blob id occurs anywhere
     * among the values of the current commit's map (not only under `name`),
     * nothing is staged; otherwise `name` maps to the new blob id, replacing
     * any earlier staged id, and the blob is stored (the returned store).
     */
    method AddFile(name: string, content: Bytes, currentFiles: map<string, Id>,
                   sha1: Hash, blobs: map<Id, Blob>) returns (blobs': map<Id, Blob>)
      modifies this
      ensures removals == RemoveFirst(old(removals), name)
      ensures sha1(content) in currentFiles.Values ==>
                additions == old(additions) && blobs' == blobs
      ensures sha1(content) !in currentFiles.Values ==>
                additions == old(additions)[name := sha1(content)]
                && blobs' == SaveBlob(blobs, NewBlob(sha1, content))
    {
      if name in removals {
        removals := RemoveFirst(removals, name);
      }
      var newBlob := NewBlob(sha1, content);
      if newBlob.id in currentFiles.Values {
        return blobs;
      }
      additions := additions[name := newBlob.id];
      blobs' := SaveBlob(blobs, newBlob);
    }

    /**
     * `removeFile`: a staged addition of `name` is always dropped; if the
     * current commit tracks `name`, it is appended to the removals (even when
     * already there) and deleted from the working directory (the returned map).
     */
    method RemoveFile(name: string, currentFiles: map<string, Id>,
                      cwd: map<string, Bytes>) returns (cwd': map<string, Bytes>)
      modifies this
      ensures additions == old(additions) - {name}
      ensures removals == if name in currentFiles then old(removals) + [name] else old(removals)
      ensures cwd' == if name in currentFiles then cwd - {name} else cwd
    {
      if name in additions {
        additions := additions - {name};
      }
      cwd' := cwd;
      if name in currentFiles {
        removals := removals + [name];
        cwd' := cwd - {name};
      }
    }

    /** `clear`: empty both collections. */
    method Clear()
      modifies this
      ensures IsEmpty()
    {
      additions := map[];
      removals := [];
    }
  }
}
