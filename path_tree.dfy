/** The path-tree builder of Repo2llm.py (`build_tree_structure_dict`).

    The script's tree is a dictionary of dictionaries: a directory maps each
    child name to its own dictionary, a file maps to `None`. Here a node is
    addressed by its segment path from the root (its `Key`), and the whole
    tree is the map from every node's key to its kind. A directory
    dictionary is then the set of keys one segment below its own key, and
    the cursor `current_level` of the builder is the key of the directory it
    points into. */
module PathTree {
  import opened Strings

  /** What a dictionary entry holds: a child dictionary or the `None` file marker. */
  datatype Entry = Directory | File

  /** The names from the root down to a node. */
  type Key = seq<string>

  type Tree = map<Key, Entry>

  /** The separator the script splits on (`os.sep`, fixed to the POSIX one). */
  const Sep: char := '/'

  /** `path.split(os.sep)`. */
  function Parts(path: string): seq<string>
  {
    Split(path, Sep)
  }

  predicate ProperPrefix(a: Key, b: Key)
  {
    |a| < |b| && b[..|a|] == a
  }

  /** No listed path names a directory of another one: such a path set would
      make the builder either overwrite a directory with a file marker or
      descend into a file marker. */
  predicate NonConflicting(paths: seq<string>)
  {
    forall p, q :: p in paths && q in paths ==> !ProperPrefix(Parts(p), Parts(q))
  }

  /** Every non-empty leading run of segments of a listed path. */
  function NodeKeys(paths: seq<string>): set<Key>
  {
    set p, j | p in paths && 1 <= j <= |Parts(p)| :: Parts(p)[..j]
  }

  /** The full segment lists of the listed paths. */
  function FileKeys(paths: seq<string>): set<Key>
  {
    set p | p in paths :: Parts(p)
  }

  /** The tree a path list describes: a node for every leading run of segments,
      a file marker where a whole path ends and a directory everywhere else. */
  function TreeOf(paths: seq<string>): Tree
  {
    map k | k in NodeKeys(paths) :: if k in FileKeys(paths) then File else Directory
  }

  /** The first `i` non-empty leading runs of `parts`. */
  function LeadingRuns(parts: Key, i: nat): set<Key>
    requires i <= |parts|
  {
    set j | 1 <= j <= i :: parts[..j]
  }

  /** The first `i` leading runs of `parts`, all as directories. */
  function DirMap(parts: Key, i: nat): Tree
    requires i <= |parts|
  {
    map k | k in LeadingRuns(parts, i) :: Directory
  }

  /** Every directory entry lies under directory entries only, and there is no
      entry for the root itself. */
  ghost predicate WellFormed(t: Tree)
  {
    (forall k :: k in t ==> |k| > 0) &&
    forall k, j :: k in t && 0 < j < |k| ==> k[..j] in t && t[k[..j]] == Directory
  }

  /** `build_tree_structure_dict(paths)`: for each path, walk the cursor down
      its leading segments, creating a directory entry only where none exists,
      and put the file marker at its last segment. */
  method BuildTreeStructure(paths: seq<string>) returns (tree: Tree)
    requires NonConflicting(paths)
    ensures tree == TreeOf(paths)
  {
    tree := map[];
    var n := 0;
    while n < |paths|
      invariant 0 <= n <= |paths|
      invariant tree == TreeOf(paths[..n])
    {
      var parts := Parts(paths[n]);
      var level: Key := [];
      ghost var before := tree;
      assert paths[..n + 1] == paths[..n] + [paths[n]];
      NonConflictingSub(paths, paths[..n + 1]);
      assert DirMap(parts, 0) == map[];
      var i := 0;
      while i < |parts|
        invariant 0 <= i <= |parts|
        invariant i < |parts| ==> level == parts[..i] && tree == before + DirMap(parts, i)
        invariant i == |parts| ==> tree == TreeOf(paths[..n + 1])
      {
        var part := parts[i];
        assert level + [part] == parts[..i + 1];
        if i == |parts| - 1 {
          // the last segment names the file
          tree := tree[level + [part] := File];
          assert parts[..i + 1] == parts;
          TreeOfSnoc(paths[..n], paths[n]);
        } else {
          // a leading segment names a directory, created only when missing
          DirStep(paths[..n], paths[n], i, tree);
          if level + [part] !in tree {
            tree := tree[level + [part] := Directory];
          }
          level := level + [part];
        }
        i := i + 1;
      }
      n := n + 1;
    }
    assert paths[..|paths|] == paths;
  }

  lemma NonConflictingSub(paths: seq<string>, sub: seq<string>)
    requires NonConflicting(paths)
    requires forall x :: x in sub ==> x in paths
    ensures NonConflicting(sub)
  {
  }

  /** A leading run of a listed path that stops short of its end is the
      whole segment list of no listed path. */
  lemma ShortRunIsNoFile(paths: seq<string>, p: string, j: nat)
    requires NonConflicting(paths) && p in paths && j < |Parts(p)|
    ensures Parts(p)[..j] !in FileKeys(paths)
  {
    forall q | q in paths
      ensures Parts(q) != Parts(p)[..j]
    {
      assert !ProperPrefix(Parts(q), Parts(p));
    }
  }

  lemma NodeKeysSnoc(done: seq<string>, p: string)
    ensures NodeKeys(done + [p]) == NodeKeys(done) + LeadingRuns(Parts(p), |Parts(p)|)
  {
    var all := done + [p];
    var runs := LeadingRuns(Parts(p), |Parts(p)|);
    forall k | k in NodeKeys(all)
      ensures k in NodeKeys(done) + runs
    {
      var q, j :| q in all && 1 <= j <= |Parts(q)| && k == Parts(q)[..j];
      if q != p {
        assert q in done;
      }
    }
    forall k | k in runs
      ensures k in NodeKeys(all)
    {
      var j :| 1 <= j <= |Parts(p)| && k == Parts(p)[..j];
      assert p in all;
    }
  }

  lemma FileKeysSnoc(done: seq<string>, p: string)
    ensures FileKeys(done + [p]) == FileKeys(done) + {Parts(p)}
  {
    assert p in done + [p];
  }

  /** One leading segment of the cursor walk: whether or not the directory
      entry was already there, afterwards it is there as a directory. */
  lemma DirStep(done: seq<string>, p: string, i: nat, tree: Tree)
    requires NonConflicting(done + [p])
    requires i + 1 < |Parts(p)|
    requires tree == TreeOf(done) + DirMap(Parts(p), i)
    ensures var key := Parts(p)[..i + 1];
      (if key in tree then tree else tree[key := Directory]) == TreeOf(done) + DirMap(Parts(p), i + 1)
  {
    var parts := Parts(p);
    var key := parts[..i + 1];
    DirMapStep(parts, i);
    UpdateUnion(TreeOf(done), DirMap(parts, i), key, Directory);
    if key in tree {
      PresentIsDirectory(done, p, i, tree);
      UpdateSame(tree, key);
    }
  }

  lemma DirMapStep(parts: Key, i: nat)
    requires i < |parts|
    ensures DirMap(parts, i + 1) == DirMap(parts, i)[parts[..i + 1] := Directory]
  {
    assert LeadingRuns(parts, i + 1) == LeadingRuns(parts, i) + {parts[..i + 1]};
  }

  lemma UpdateUnion(a: Tree, b: Tree, k: Key, e: Entry)
    ensures (a + b)[k := e] == a + b[k := e]
  {
  }

  lemma UpdateSame(m: Tree, k: Key)
    requires k in m
    ensures m[k := m[k]] == m
  {
  }

  /** A directory the walk reaches that is already in the tree is a
      directory entry, never a file marker. */
  lemma PresentIsDirectory(done: seq<string>, p: string, i: nat, tree: Tree)
    requires NonConflicting(done + [p])
    requires i + 1 < |Parts(p)|
    requires tree == TreeOf(done) + DirMap(Parts(p), i)
    requires Parts(p)[..i + 1] in tree
    ensures tree[Parts(p)[..i + 1]] == Directory
  {
    var key := Parts(p)[..i + 1];
    if key !in DirMap(Parts(p), i) {
      ShortRunIsNoFile(done + [p], p, i + 1);
      FileKeysSnoc(done, p);
    }
  }

  /** Placing the file marker after the leading directories yields the tree of
      the extended path list. */
  lemma TreeOfSnoc(done: seq<string>, p: string)
    requires NonConflicting(done + [p])
    ensures (TreeOf(done) + DirMap(Parts(p), |Parts(p)| - 1))[Parts(p) := File] == TreeOf(done + [p])
  {
    var parts := Parts(p);
    var all := done + [p];
    var lhs := (TreeOf(done) + DirMap(parts, |parts| - 1))[parts := File];
    var rhs := TreeOf(all);
    SnocKeys(done, p);
    forall k | k in rhs
      ensures lhs[k] == rhs[k]
    {
      SnocValue(done, p, k);
    }
  }

  lemma SnocKeys(done: seq<string>, p: string)
    ensures ((TreeOf(done) + DirMap(Parts(p), |Parts(p)| - 1))[Parts(p) := File]).Keys == TreeOf(done + [p]).Keys
  {
    var parts := Parts(p);
    var dirs := LeadingRuns(parts, |parts| - 1);
    NodeKeysSnoc(done, p);
    assert parts[..|parts|] == parts;
    assert LeadingRuns(parts, |parts|) == dirs + {parts};
    assert TreeOf(done).Keys == NodeKeys(done);
    assert DirMap(parts, |parts| - 1).Keys == dirs;
  }

  lemma SnocValue(done: seq<string>, p: string, k: Key)
    requires NonConflicting(done + [p])
    requires k in TreeOf(done + [p])
    requires k in (TreeOf(done) + DirMap(Parts(p), |Parts(p)| - 1))[Parts(p) := File]
    ensures ((TreeOf(done) + DirMap(Parts(p), |Parts(p)| - 1))[Parts(p) := File])[k] == TreeOf(done + [p])[k]
  {
    var parts := Parts(p);
    var all := done + [p];
    var dirs := LeadingRuns(parts, |parts| - 1);
    FileKeysSnoc(done, p);
    if k == parts {
      assert k in FileKeys(all);
    } else if k in dirs {
      var j :| 1 <= j <= |parts| - 1 && k == parts[..j];
      ShortRunIsNoFile(all, p, j);
    }
  }

  /** Every listed path leads from the root through directory entries to a
      file marker at its last segment. */
  lemma TreeOfPath(paths: seq<string>, p: string)
    requires NonConflicting(paths) && p in paths
    ensures Parts(p) in TreeOf(paths) && TreeOf(paths)[Parts(p)] == File
    ensures forall j :: 1 <= j < |Parts(p)| ==>
      Parts(p)[..j] in TreeOf(paths) && TreeOf(paths)[Parts(p)[..j]] == Directory
  {
    var parts := Parts(p);
    assert parts == parts[..|parts|];
    assert parts in FileKeys(paths);
    forall j | 1 <= j < |parts|
      ensures parts[..j] in TreeOf(paths) && TreeOf(paths)[parts[..j]] == Directory
    {
      assert parts[..j] in NodeKeys(paths);
      forall q | q in paths
        ensures Parts(q) != parts[..j]
      {
        assert !ProperPrefix(Parts(q), parts);
      }
    }
  }

  /** Whatever a path list has put into the tree stays there unchanged when
      further paths are added: directory entries are reused, never replaced. */
  lemma TreeOfExtends(ps: seq<string>, qs: seq<string>)
    requires NonConflicting(ps + qs)
    ensures forall k :: k in TreeOf(ps) ==> k in TreeOf(ps + qs) && TreeOf(ps + qs)[k] == TreeOf(ps)[k]
  {
    var all := ps + qs;
    forall k | k in TreeOf(ps)
      ensures k in TreeOf(all) && TreeOf(all)[k] == TreeOf(ps)[k]
    {
      var p, j :| p in ps && 1 <= j <= |Parts(p)| && k == Parts(p)[..j];
      assert p in all;
      assert k in NodeKeys(all);
      if j == |Parts(p)| {
        assert k == Parts(p) && k in FileKeys(ps);
      } else {
        forall q | q in all
          ensures Parts(q) != k
        {
          assert !ProperPrefix(Parts(q), Parts(p));
        }
      }
    }
  }

  /** The tree depends only on which paths are listed, not on their order or
      repetitions. */
  lemma TreeOfSetOnly(ps: seq<string>, qs: seq<string>)
    requires forall x :: x in ps <==> x in qs
    ensures TreeOf(ps) == TreeOf(qs)
  {
    assert NodeKeys(ps) == NodeKeys(qs);
    assert FileKeys(ps) == FileKeys(qs);
  }

  /** The tree of a non-conflicting path list keeps files at the leaves. */
  lemma TreeOfWellFormed(paths: seq<string>)
    requires NonConflicting(paths)
    ensures WellFormed(TreeOf(paths))
  {
    var t := TreeOf(paths);
    forall k, j | k in t && 0 < j < |k|
      ensures k[..j] in t && t[k[..j]] == Directory
    {
      var p, m :| p in paths && 1 <= m <= |Parts(p)| && k == Parts(p)[..m];
      assert k[..j] == Parts(p)[..j];
      assert k[..j] in NodeKeys(paths);
      forall q | q in paths
        ensures Parts(q) != k[..j]
      {
        assert !ProperPrefix(Parts(q), Parts(p));
      }
    }
  }
}
