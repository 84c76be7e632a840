/** What the tree text of Repo2llm.py looks like, stated node by node rather
    than loop iteration by loop iteration. The nodes below a directory are
    listed in pre-order, each directory's entries by ascending name; the line
    of a node is the indent, one column per ancestor between the rendered
    directory and the node (blank under an ancestor that is the last entry of
    its directory, a vertical line otherwise), the branch glyph (`└── ` for the
    last entry of a directory, `├── ` otherwise), the node's name and, for a
    directory, a `/`. */
module TreeLayout {
  import opened Strings
  import opened PathTree
  import opened TreeRender

  /** `k` lies strictly below `at`. */
  predicate Under(at: Key, k: Key)
  {
    |at| < |k| && k[..|at|] == at
  }

  /** The name of the node at `k`: its last segment. */
  function Name(k: Key): string
  {
    if |k| == 0 then "" else k[|k| - 1]
  }

  /** No sibling of the node at `k` has a greater name: it is the last entry of
      its directory. */
  ghost predicate IsLastChild(t: Tree, k: Key)
  {
    |k| > 0 ==> NoneAfter(k[|k| - 1], ChildNames(t, k[..|k| - 1]))
  }

  predicate NoneAfter(name: string, names: set<string>)
  {
    forall m :: m in names ==> !Less(name, m)
  }

  /** The columns a node at `k` inherits from its ancestors strictly between
      `at` and `k`, the shallowest first. */
  ghost function Columns(t: Tree, at: Key, k: Key): string
    decreases |k|
  {
    if |k| <= |at| + 1 then ""
    else Columns(t, at, k[..|k| - 1]) + Continuation(IsLastChild(t, k[..|k| - 1]))
  }

  /** The line of the node at `k` in the text of the directory at `at`
      rendered with `indent`. */
  ghost function LineOf(t: Tree, at: Key, indent: string, k: Key): string
  {
    indent + Columns(t, at, k) + Branch(IsLastChild(t, k)) + Name(k)
      + (if k in t && t[k] == Directory then "/" else "")
  }

  ghost function LinesOf(t: Tree, at: Key, indent: string, ks: seq<Key>): seq<string>
  {
    if ks == [] then [] else [LineOf(t, at, indent, ks[0])] + LinesOf(t, at, indent, ks[1..])
  }

  /** The nodes below `at` in pre-order, each directory's entries by ascending
      name. */
  function Visit(t: Tree, at: Key): seq<Key>
    decreases Below(t, at), 2, 0
  {
    var names := SortedNames(ChildNames(t, at));
    VisitUpTo(t, at, names, |names|)
  }

  function VisitUpTo(t: Tree, at: Key, names: seq<string>, i: nat): seq<Key>
    requires i <= |names|
    decreases Below(t, at), 1, i
  {
    if i == 0 then [] else VisitUpTo(t, at, names, i - 1) + ItemVisit(t, at, names[i - 1])
  }

  function ItemVisit(t: Tree, at: Key, n: string): seq<Key>
    decreases Below(t, at), 0, 0
  {
    if at + [n] in t && t[at + [n]] == Directory then
      BelowShrinks(t, at, n);
      [at + [n]] + Visit(t, at + [n])
    else [at + [n]]
  }

  /** Keys ordered segment by segment, a key before every key below it. */
  predicate KeyLess(a: Key, b: Key)
  {
    |b| > 0 && (|a| == 0 || Less(a[0], b[0]) || (a[0] == b[0] && KeyLess(a[1..], b[1..])))
  }

  predicate KeySorted(ks: seq<Key>)
  {
    forall i, j :: 0 <= i < j < |ks| ==> KeyLess(ks[i], ks[j])
  }

  /** Every name in the tree is free of line breaks and of the separator, as
      the segments of a split path without line breaks are. */
  predicate Clean(t: Tree)
  {
    forall k, j :: k in t && 0 <= j < |k| ==> NoLineBreaks(k[j]) && Sep !in k[j]
  }

  // ---------------------------------------------------------------------
  // Small facts about strings and lines

  lemma EmptyRight(x: string)
    ensures x + "" == x
  {
  }

  lemma NoBreaksAppend(a: string, b: string)
    requires NoLineBreaks(a) && NoLineBreaks(b)
    ensures NoLineBreaks(a + b)
  {
    forall c | c in a + b
      ensures !IsLineBreak(c)
    {
      assert c in a || c in b;
    }
  }

  lemma GlyphsClean(isLast: bool)
    ensures NoLineBreaks(Branch(isLast)) && NoLineBreaks(Continuation(isLast))
    ensures Sep !in Branch(isLast) && Sep !in Continuation(isLast)
    ensures |Branch(isLast)| == 4
  {
  }

  lemma {:induction false} LinesOfAppend(t: Tree, at: Key, indent: string, a: seq<Key>, b: seq<Key>)
    ensures LinesOf(t, at, indent, a + b) == LinesOf(t, at, indent, a) + LinesOf(t, at, indent, b)
  {
    if a == [] {
      assert a + b == b;
    } else {
      assert (a + b)[1..] == a[1..] + b;
      LinesOfAppend(t, at, indent, a[1..], b);
    }
  }

  lemma {:induction false} LinesOfLength(t: Tree, at: Key, indent: string, ks: seq<Key>)
    ensures |LinesOf(t, at, indent, ks)| == |ks|
  {
    if ks != [] {
      LinesOfLength(t, at, indent, ks[1..]);
    }
  }

  // ---------------------------------------------------------------------
  // The columns of a node, seen from a directory one level further down

  lemma {:induction false} ColumnsShift(t: Tree, at: Key, n: string, k: Key)
    requires Under(at + [n], k)
    ensures Columns(t, at, k) == Continuation(IsLastChild(t, at + [n])) + Columns(t, at + [n], k)
    decreases |k|
  {
    var c := at + [n];
    var parent := k[..|k| - 1];
    if |k| == |c| + 1 {
      assert parent == c;
      assert Columns(t, at, c) == "";
      EmptyLeft(Continuation(IsLastChild(t, c)));
      EmptyRight(Continuation(IsLastChild(t, c)));
    } else {
      assert parent[..|c|] == c;
      ColumnsShift(t, at, n, parent);
      Assoc(Continuation(IsLastChild(t, c)), Columns(t, c, parent), Continuation(IsLastChild(t, parent)));
    }
  }

  lemma LineShift(t: Tree, at: Key, n: string, indent: string, k: Key)
    requires Under(at + [n], k)
    ensures LineOf(t, at + [n], indent + Continuation(IsLastChild(t, at + [n])), k) == LineOf(t, at, indent, k)
  {
    ColumnsShift(t, at, n, k);
    Assoc(indent, Continuation(IsLastChild(t, at + [n])), Columns(t, at + [n], k));
  }

  lemma {:induction false} LinesOfShift(t: Tree, at: Key, n: string, indent: string, ks: seq<Key>)
    requires forall k :: k in ks ==> Under(at + [n], k)
    ensures LinesOf(t, at + [n], indent + Continuation(IsLastChild(t, at + [n])), ks) == LinesOf(t, at, indent, ks)
  {
    if ks != [] {
      LineShift(t, at, n, indent, ks[0]);
      LinesOfShift(t, at, n, indent, ks[1..]);
    }
  }

  // ---------------------------------------------------------------------
  // Every line is non-empty and free of line breaks

  lemma {:induction false} ColumnsClean(t: Tree, at: Key, k: Key)
    ensures NoLineBreaks(Columns(t, at, k)) && Sep !in Columns(t, at, k)
    decreases |k|
  {
    if |k| > |at| + 1 {
      var parent := k[..|k| - 1];
      ColumnsClean(t, at, parent);
      GlyphsClean(IsLastChild(t, parent));
      NoBreaksAppend(Columns(t, at, parent), Continuation(IsLastChild(t, parent)));
    }
  }

  lemma LineClean(t: Tree, at: Key, indent: string, k: Key)
    requires Clean(t) && NoLineBreaks(indent) && k in t && |k| > 0
    ensures LineOf(t, at, indent, k) != "" && NoLineBreaks(LineOf(t, at, indent, k))
  {
    var cols := Columns(t, at, k);
    var branch := Branch(IsLastChild(t, k));
    var slash := if k in t && t[k] == Directory then "/" else "";
    ColumnsClean(t, at, k);
    GlyphsClean(IsLastChild(t, k));
    assert NoLineBreaks(Name(k));
    NoBreaksAppend(indent, cols);
    NoBreaksAppend(indent + cols, branch);
    NoBreaksAppend(indent + cols + branch, Name(k));
    NoBreaksAppend(indent + cols + branch + Name(k), slash);
  }

  lemma {:induction false} LinesClean(t: Tree, at: Key, indent: string, ks: seq<Key>)
    requires Clean(t) && NoLineBreaks(indent)
    requires forall k :: k in ks ==> k in t && |k| > 0
    ensures forall j :: 0 <= j < |LinesOf(t, at, indent, ks)| ==>
      LinesOf(t, at, indent, ks)[j] != "" && NoLineBreaks(LinesOf(t, at, indent, ks)[j])
  {
    if ks != [] {
      LineClean(t, at, indent, ks[0]);
      LinesClean(t, at, indent, ks[1..]);
    }
  }

  // ---------------------------------------------------------------------
  // The renderer's lines are the reference lines

  /** In the sorted names of a directory, the entry at the final position is
      exactly the entry no sibling sorts after. */
  lemma LastIff(t: Tree, at: Key, names: seq<string>, j: nat)
    requires names == SortedNames(ChildNames(t, at)) && j < |names|
    ensures IsLastChild(t, at + [names[j]]) <==> j == |names| - 1
  {
    var c := at + [names[j]];
    assert c[..|c| - 1] == at && c[|c| - 1] == names[j];
    if j == |names| - 1 {
      forall m | m in ChildNames(t, at)
        ensures !Less(names[j], m)
      {
        var q :| 0 <= q < |names| && names[q] == m;
        if q < j {
          LessAsymmetric(names[q], names[j]);
        } else {
          LessIrreflexive(m);
        }
      }
    } else {
      assert names[|names| - 1] in ChildNames(t, at);
      assert Less(names[j], names[|names| - 1]);
    }
  }

  lemma LevelAsReference(t: Tree, at: Key, indent: string)
    requires Clean(t) && NoLineBreaks(indent)
    ensures var names := SortedNames(ChildNames(t, at));
      LevelLines(t, at, indent, names, |names|) == LinesOf(t, at, indent, Visit(t, at))
    decreases Below(t, at), 2, 0
  {
    var names := SortedNames(ChildNames(t, at));
    UpToAsReference(t, at, indent, names, |names|);
  }

  lemma UpToAsReference(t: Tree, at: Key, indent: string, names: seq<string>, i: nat)
    requires Clean(t) && NoLineBreaks(indent)
    requires names == SortedNames(ChildNames(t, at)) && i <= |names|
    ensures LevelLines(t, at, indent, names, i) == LinesOf(t, at, indent, VisitUpTo(t, at, names, i))
    decreases Below(t, at), 1, i
  {
    if i > 0 {
      UpToAsReference(t, at, indent, names, i - 1);
      ItemAsReference(t, at, indent, names, i - 1);
      LinesOfAppend(t, at, indent, VisitUpTo(t, at, names, i - 1), ItemVisit(t, at, names[i - 1]));
    }
  }

  lemma ItemAsReference(t: Tree, at: Key, indent: string, names: seq<string>, j: nat)
    requires Clean(t) && NoLineBreaks(indent)
    requires names == SortedNames(ChildNames(t, at)) && j < |names|
    ensures ItemLines(t, at, indent, names[j], j == |names| - 1)
         == LinesOf(t, at, indent, ItemVisit(t, at, names[j]))
    decreases Below(t, at), 0, 0
  {
    var n := names[j];
    var c := at + [n];
    var isLast := j == |names| - 1;
    ChildKey(t, at, n);
    LastIff(t, at, names, j);
    assert Columns(t, at, c) == "" && Name(c) == n;
    EmptyRight(indent);
    if t[c] == Directory {
      BelowShrinks(t, at, n);
      var next := indent + Continuation(isLast);
      GlyphsClean(isLast);
      NoBreaksAppend(indent, Continuation(isLast));
      LevelAsReference(t, c, next);
      VisitAllBelow(t, c);
      var sub := LinesOf(t, c, next, Visit(t, c));
      LinesClean(t, c, next, Visit(t, c));
      SplitLinesJoin(sub);
      LinesOfShift(t, at, n, indent, Visit(t, c));
      LinesOfAppend(t, at, indent, [c], Visit(t, c));
    } else {
      EmptyRight(indent + Branch(isLast) + n);
    }
  }

  // ---------------------------------------------------------------------
  // The visit lists each node below a directory exactly once, in key order

  lemma UnderChild(at: Key, n: string, k: Key)
    requires k == at + [n] || Under(at + [n], k)
    ensures Under(at, k) && k[|at|] == n
  {
    var c := at + [n];
    assert c[..|at|] == at && c[|at|] == n;
    if k != c {
      assert k[..|at|] == k[..|c|][..|at|];
      assert k[|at|] == k[..|c|][|at|];
    }
  }

  lemma ItemVisitBelow(t: Tree, at: Key, n: string)
    requires at + [n] in t
    ensures forall k :: k in ItemVisit(t, at, n) ==> k in t && (k == at + [n] || Under(at + [n], k))
    decreases Below(t, at), 0
  {
    if t[at + [n]] == Directory {
      BelowShrinks(t, at, n);
      VisitAllBelow(t, at + [n]);
    }
  }

  lemma VisitAllBelow(t: Tree, at: Key)
    ensures forall k :: k in Visit(t, at) ==> k in t && Under(at, k)
    decreases Below(t, at), 2
  {
    var names := SortedNames(ChildNames(t, at));
    UpToBelow(t, at, names, |names|);
  }

  lemma SliceSnoc(s: seq<string>, i: nat)
    requires 0 < i <= |s|
    ensures s[..i] == s[..i - 1] + [s[i - 1]]
  {
  }

  lemma UpToBelow(t: Tree, at: Key, names: seq<string>, i: nat)
    requires names == SortedNames(ChildNames(t, at)) && i <= |names|
    ensures forall k :: k in VisitUpTo(t, at, names, i) ==> k in t && Under(at, k) && k[|at|] in names[..i]
    decreases Below(t, at), 1, i
  {
    if i > 0 {
      var n := names[i - 1];
      UpToBelow(t, at, names, i - 1);
      ChildKey(t, at, n);
      ItemVisitBelow(t, at, n);
      SliceSnoc(names, i);
      forall k | k in ItemVisit(t, at, n)
        ensures Under(at, k) && k[|at|] == n
      {
        UnderChild(at, n, k);
      }
    }
  }

  lemma {:induction false} PrefixKeyLess(a: Key, b: Key)
    requires Under(a, b)
    ensures KeyLess(a, b)
  {
    if |a| > 0 {
      assert a[0] == b[0];
      assert b[1..][..|a| - 1] == a[1..];
      PrefixKeyLess(a[1..], b[1..]);
    }
  }

  lemma {:induction false} DivergeKeyLess(a: Key, b: Key, d: nat)
    requires d < |a| && d < |b| && a[..d] == b[..d] && Less(a[d], b[d])
    ensures KeyLess(a, b)
  {
    if d > 0 {
      assert a[0] == a[..d][0] == b[..d][0] == b[0];
      assert a[1..][..d - 1] == a[..d][1..] == b[..d][1..] == b[1..][..d - 1];
      DivergeKeyLess(a[1..], b[1..], d - 1);
    }
  }

  lemma {:induction false} KeyLessIrreflexive(a: Key)
    ensures !KeyLess(a, a)
  {
    if |a| > 0 {
      LessIrreflexive(a[0]);
      KeyLessIrreflexive(a[1..]);
    }
  }

  lemma SortedAppend(a: seq<Key>, b: seq<Key>)
    requires KeySorted(a) && KeySorted(b)
    requires forall x, y :: x in a && y in b ==> KeyLess(x, y)
    ensures KeySorted(a + b)
  {
    forall i, j | 0 <= i < j < |a + b|
      ensures KeyLess((a + b)[i], (a + b)[j])
    {
      if j < |a| {
        assert (a + b)[i] == a[i] && (a + b)[j] == a[j];
      } else if i < |a| {
        assert (a + b)[i] in a && (a + b)[j] in b;
      } else {
        assert (a + b)[i] == b[i - |a|] && (a + b)[j] == b[j - |a|];
      }
    }
  }

  lemma ItemVisitSorted(t: Tree, at: Key, n: string)
    requires at + [n] in t
    ensures KeySorted(ItemVisit(t, at, n))
    decreases Below(t, at), 0
  {
    var c := at + [n];
    if t[c] == Directory {
      BelowShrinks(t, at, n);
      VisitSorted(t, c);
      VisitAllBelow(t, c);
      forall y | y in Visit(t, c)
        ensures KeyLess(c, y)
      {
        PrefixKeyLess(c, y);
      }
      SortedAppend([c], Visit(t, c));
    }
  }

  lemma VisitSorted(t: Tree, at: Key)
    ensures KeySorted(Visit(t, at))
    decreases Below(t, at), 2
  {
    var names := SortedNames(ChildNames(t, at));
    UpToSorted(t, at, names, |names|);
  }

  lemma UpToSorted(t: Tree, at: Key, names: seq<string>, i: nat)
    requires names == SortedNames(ChildNames(t, at)) && i <= |names|
    ensures KeySorted(VisitUpTo(t, at, names, i))
    decreases Below(t, at), 1, i
  {
    if i > 0 {
      var n := names[i - 1];
      var done := VisitUpTo(t, at, names, i - 1);
      var item := ItemVisit(t, at, n);
      UpToSorted(t, at, names, i - 1);
      ChildKey(t, at, n);
      ItemVisitSorted(t, at, n);
      UpToBelow(t, at, names, i - 1);
      ItemVisitBelow(t, at, n);
      forall x, y | x in done && y in item
        ensures KeyLess(x, y)
      {
        UnderChild(at, n, y);
        var q :| 0 <= q < i - 1 && names[q] == x[|at|];
        assert Less(names[q], names[i - 1]);
        DivergeKeyLess(x, y, |at|);
      }
      SortedAppend(done, item);
    }
  }

  lemma ItemInUpTo(t: Tree, at: Key, names: seq<string>, j: nat, i: nat)
    requires j < i <= |names|
    ensures forall x :: x in ItemVisit(t, at, names[j]) ==> x in VisitUpTo(t, at, names, i)
  {
    if i > j + 1 {
      ItemInUpTo(t, at, names, j, i - 1);
    }
  }

  /** Every node below `at` is visited. */
  lemma KeyInVisit(t: Tree, at: Key, k: Key)
    requires WellFormed(t) && k in t && Under(at, k)
    ensures k in Visit(t, at)
    decreases Below(t, at), 1
  {
    var n := k[|at|];
    var names := SortedNames(ChildNames(t, at));
    KeyInItem(t, at, k);
    KeyChild(t, at, n);
    var j :| 0 <= j < |names| && names[j] == n;
    ItemInUpTo(t, at, names, j, |names|);
  }

  /** A node below `at` is visited with the entry of `at` it lies in. */
  lemma KeyInItem(t: Tree, at: Key, k: Key)
    requires WellFormed(t) && k in t && Under(at, k)
    ensures at + [k[|at|]] in t && k in ItemVisit(t, at, k[|at|])
    decreases Below(t, at), 0
  {
    var n := k[|at|];
    var c := at + [n];
    assert k[..|at| + 1] == c;
    if |k| == |at| + 1 {
      assert k == c;
    } else {
      assert k[..|at| + 1] in t && t[k[..|at| + 1]] == Directory;
      assert Under(c, k);
      BelowShrinks(t, at, n);
      KeyInVisit(t, c, k);
    }
  }

  /** The visit of a directory lists exactly the nodes below it. */
  lemma VisitExact(t: Tree, at: Key)
    requires WellFormed(t)
    ensures forall k :: k in Visit(t, at) <==> k in t && Under(at, k)
  {
    VisitAllBelow(t, at);
    forall k | k in t && Under(at, k)
      ensures k in Visit(t, at)
    {
      KeyInVisit(t, at, k);
    }
  }

  /** The visit from the root lists every node of the tree once. */
  lemma VisitCount(t: Tree)
    requires WellFormed(t)
    ensures |Visit(t, [])| == |t|
  {
    var v := Visit(t, []);
    VisitExact(t, []);
    VisitSorted(t, []);
    forall i, j | 0 <= i < j < |v|
      ensures v[i] != v[j]
    {
      KeyLessIrreflexive(v[i]);
    }
    DistinctCardinality(v);
    assert (set x | x in v) == t.Keys;
  }

  // ---------------------------------------------------------------------
  // The tree text of a path list

  lemma CleanTree(paths: seq<string>)
    requires forall p :: p in paths ==> NoLineBreaks(p)
    ensures Clean(TreeOf(paths))
  {
    var t := TreeOf(paths);
    forall k, j | k in t && 0 <= j < |k|
      ensures NoLineBreaks(k[j]) && Sep !in k[j]
    {
      var p, m :| p in paths && 1 <= m <= |Parts(p)| && k == Parts(p)[..m];
      assert k[j] == Parts(p)[j];
      JoinSplit(p, Sep);
      forall c | c in k[j]
        ensures !IsLineBreak(c)
      {
        JoinContains(Parts(p), [Sep], j, c);
      }
    }
  }

  lemma HeadClean(lines: seq<string>)
    requires forall j :: 0 <= j < |lines| ==> lines[j] != "" && NoLineBreaks(lines[j])
    ensures forall j :: 0 <= j < |["./"] + lines| ==>
      (["./"] + lines)[j] != "" && NoLineBreaks((["./"] + lines)[j])
  {
    assert NoLineBreaks("./");
    forall j | 0 < j < |["./"] + lines|
      ensures (["./"] + lines)[j] == lines[j - 1]
    {
    }
  }

  /** A non-empty list of non-conflicting paths has a non-empty tree. */
  lemma TreeNonEmpty(paths: seq<string>)
    requires |paths| > 0
    ensures |TreeOf(paths)| > 0
  {
    RootHasEntry(paths);
    var n :| n in ChildNames(TreeOf(paths), []);
    RootChild(TreeOf(paths), n);
  }

  /** The text `generate_filtered_tree_string` returns for a non-empty list:
      the `./` line and the reference line of every node in visit order,
      joined with newlines. */
  lemma FilteredTreeText(paths: seq<string>)
    requires NonConflicting(paths) && |paths| > 0
    requires forall p :: p in paths ==> NoLineBreaks(p)
    ensures FilteredTree(paths)
         == Join(["./"] + LinesOf(TreeOf(paths), [], "", Visit(TreeOf(paths), [])), "\n")
  {
    var t := TreeOf(paths);
    var v := Visit(t, []);
    var lines := LinesOf(t, [], "", v);
    TreeOfWellFormed(paths);
    CleanTree(paths);
    TreeNonEmpty(paths);
    VisitCount(t);
    LinesOfLength(t, [], "", v);
    LevelAsReference(t, [], "");
    FilteredTreeNonEmpty(paths);
    JoinFront("./", lines);
  }

  /** The lines of that text: the `./` line, then the reference line of
      every node in visit order. */
  lemma FilteredTreeLines(paths: seq<string>)
    requires NonConflicting(paths) && |paths| > 0
    requires forall p :: p in paths ==> NoLineBreaks(p)
    ensures SplitLines(FilteredTree(paths))
         == ["./"] + LinesOf(TreeOf(paths), [], "", Visit(TreeOf(paths), []))
  {
    var t := TreeOf(paths);
    var v := Visit(t, []);
    var lines := LinesOf(t, [], "", v);
    FilteredTreeText(paths);
    TreeOfWellFormed(paths);
    CleanTree(paths);
    VisitAllBelow(t, []);
    LinesClean(t, [], "", v);
    HeadClean(lines);
    SplitLinesJoin(["./"] + lines);
  }

  /** The text `generate_filtered_tree_string` returns for a non-empty list
      is the `./` line followed by one line per node of the tree, joined with
      newlines: the nodes are exactly the tree's entries, in pre-order with
      each directory's entries by ascending name, each line as `LineOf`
      describes it. */
  lemma FilteredTreeLayout(paths: seq<string>)
    requires NonConflicting(paths) && |paths| > 0
    requires forall p :: p in paths ==> NoLineBreaks(p)
    ensures FilteredTree(paths)
         == Join(["./"] + LinesOf(TreeOf(paths), [], "", Visit(TreeOf(paths), [])), "\n")
    ensures forall k :: k in Visit(TreeOf(paths), []) <==> k in TreeOf(paths)
    ensures KeySorted(Visit(TreeOf(paths), []))
    ensures |SplitLines(FilteredTree(paths))| == |TreeOf(paths)| + 1
  {
    var t := TreeOf(paths);
    FilteredTreeText(paths);
    FilteredTreeLines(paths);
    TreeOfWellFormed(paths);
    VisitExact(t, []);
    VisitSorted(t, []);
    VisitCount(t);
    LinesOfLength(t, [], "", Visit(t, []));
  }

  /** A directory's line ends with `/`, a file's line has no `/` at all. */
  lemma LineShape(t: Tree, at: Key, indent: string, k: Key)
    requires Clean(t) && Sep !in indent && k in t && |k| > 0
    ensures Sep in LineOf(t, at, indent, k) <==> t[k] == Directory
    ensures t[k] == Directory ==> LineOf(t, at, indent, k)[|LineOf(t, at, indent, k)| - 1] == Sep
  {
    ColumnsClean(t, at, k);
    GlyphsClean(IsLastChild(t, k));
    assert Sep !in Name(k);
    var body := indent + Columns(t, at, k) + Branch(IsLastChild(t, k)) + Name(k);
    assert Sep !in body;
    if t[k] == Directory {
      assert LineOf(t, at, indent, k) == body + "/";
    } else {
      assert LineOf(t, at, indent, k) == body + "";
    }
  }
}
