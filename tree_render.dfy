/** The tree renderer of Repo2llm.py: `tree_dict_to_string` and
    `generate_filtered_tree_string`. A directory dictionary is the directory
    entry at key `at` of a `PathTree.Tree`; its keys are `ChildNames(t, at)`. */
module TreeRender {
  import opened Strings
  import opened PathTree

  /** The keys of the dictionary at `at`, that is `tree_dict.keys()`. */
  function ChildNames(t: Tree, at: Key): set<string>
  {
    set k | k in t && |k| == |at| + 1 && k[..|at|] == at :: k[|at|]
  }

  /** The keys of every entry nested anywhere below `at`. */
  function Below(t: Tree, at: Key): set<Key>
  {
    set k | k in t && |at| < |k| && k[..|at|] == at
  }

  /** A child name leads to an entry of the tree, one level below `at`. */
  lemma ChildKey(t: Tree, at: Key, n: string)
    requires n in ChildNames(t, at)
    ensures at + [n] in t && at + [n] in Below(t, at)
  {
    var k :| k in t && |k| == |at| + 1 && k[..|at|] == at && k[|at|] == n;
    assert k == k[..|at|] + [k[|at|]];
    assert (at + [n])[..|at|] == at;
  }

  /** An entry one level below `at` is named among the children of `at`. */
  lemma KeyChild(t: Tree, at: Key, n: string)
    requires at + [n] in t
    ensures n in ChildNames(t, at)
  {
    var k := at + [n];
    assert k[..|at|] == at && k[|at|] == n;
  }

  /** Descending into a child directory strictly shrinks what lies below. */
  lemma BelowShrinks(t: Tree, at: Key, n: string)
    requires at + [n] in t
    ensures Below(t, at + [n]) < Below(t, at)
  {
    var c := at + [n];
    assert c[..|at|] == at;
    forall k | k in Below(t, c)
      ensures k in Below(t, at)
    {
      assert k[..|at|] == k[..|c|][..|at|];
      assert c[..|at|] == at;
    }
    assert c !in Below(t, c);
  }

  /** The branch glyph of an entry: the last entry of a directory closes it. */
  function Branch(isLast: bool): string
  {
    if isLast then "└── " else "├── "
  }

  /** What an entry's children add to the indent: a continued vertical line
      under a middle entry, blank space under the last one. */
  function Continuation(isLast: bool): string
  {
    if isLast then "    " else "│   "
  }

  /** `tree_dict_to_string(tree_dict, indent)` for the dictionary at `at`. */
  function LevelText(t: Tree, at: Key, indent: string): string
    decreases Below(t, at), 2, 0
  {
    var names := SortedNames(ChildNames(t, at));
    Join(LevelLines(t, at, indent, names, |names|), "\n")
  }

  /** The lines the loop of `tree_dict_to_string` has collected after
      visiting the first `i` of the sorted keys `names`; the entry at the
      last position of `names` is the last one. */
  function LevelLines(t: Tree, at: Key, indent: string, names: seq<string>, i: nat): seq<string>
    requires i <= |names|
    decreases Below(t, at), 1, i
  {
    if i == 0 then []
    else LevelLines(t, at, indent, names, i - 1) + ItemLines(t, at, indent, names[i - 1], i == |names|)
  }

  /** The lines one loop iteration appends for the entry `item`: its own line
      and, for a directory, the split lines of its rendered children. (Only
      child names of `at` are ever passed.) */
  function ItemLines(t: Tree, at: Key, indent: string, item: string, isLast: bool): seq<string>
    decreases Below(t, at), 0, 0
  {
    var itemPath := indent + Branch(isLast) + item;
    if at + [item] in t && t[at + [item]] == Directory
    then
      BelowShrinks(t, at, item);
      [itemPath + "/"] + SplitLines(LevelText(t, at + [item], indent + Continuation(isLast)))
    else [itemPath]
  }

  /** A directory entry of the loop: its own line, then the split lines of
      its rendered children, extend the collected lines by one entry. */
  lemma DirectoryStep(t: Tree, at: Key, indent: string, items: seq<string>, i: nat,
                      lines: seq<string>, itemLine: string, sub: string)
    requires i < |items| && at + [items[i]] in t && t[at + [items[i]]] == Directory
    requires itemLine == indent + Branch(i == |items| - 1) + items[i]
    requires sub == LevelText(t, at + [items[i]], indent + Continuation(i == |items| - 1))
    requires lines == LevelLines(t, at, indent, items, i)
    ensures (lines + [itemLine + "/"]) + SplitLines(sub) == LevelLines(t, at, indent, items, i + 1)
  {
    Assoc(lines, [itemLine + "/"], SplitLines(sub));
  }

  /** A file entry of the loop extends the collected lines by its one line. */
  lemma FileStep(t: Tree, at: Key, indent: string, items: seq<string>, i: nat,
                 lines: seq<string>, itemLine: string)
    requires i < |items| && at + [items[i]] in t && t[at + [items[i]]] == File
    requires itemLine == indent + Branch(i == |items| - 1) + items[i]
    requires lines == LevelLines(t, at, indent, items, i)
    ensures lines + [itemLine] == LevelLines(t, at, indent, items, i + 1)
  {
  }

  /** `tree_dict_to_string`: visits the keys in sorted order, appends one line
      per entry (a trailing `/` for a directory), recursing with the extended
      indent into each directory, and joins the lines with newlines. */
  method TreeDictToString(t: Tree, at: Key, indent: string) returns (s: string)
    ensures s == LevelText(t, at, indent)
    decreases Below(t, at)
  {
    var lines: seq<string> := [];
    var items := SortedNames(ChildNames(t, at));
    var i := 0;
    while i < |items|
      invariant 0 <= i <= |items|
      invariant lines == LevelLines(t, at, indent, items, i)
    {
      var isLast := i == |items| - 1;
      var branch := Branch(isLast);
      var item := items[i];
      var itemPath := indent + branch + item;
      ChildKey(t, at, item);
      BelowShrinks(t, at, item);
      if t[at + [item]] == Directory {
        var nextIndent := indent + Continuation(isLast);
        var sub := TreeDictToString(t, at + [item], nextIndent);
        DirectoryStep(t, at, indent, items, i, lines, itemPath, sub);
        lines := lines + [itemPath + "/"];
        lines := lines + SplitLines(sub);
      } else {
        FileStep(t, at, indent, items, i, lines, itemPath);
        lines := lines + [itemPath];
      }
      i := i + 1;
    }
    s := Join(lines, "\n");
  }

  /** What `generate_filtered_tree_string` returns for an empty path list. */
  const NoFilesTree: string := "./\n(No filtered files)"

  /** The text of the root level: a `./` line, then the root's entries
      rendered as `tree_dict_to_string` renders a dictionary with an empty
      indent. */
  function RootText(root: Tree): string
  {
    if |ChildNames(root, [])| == 0 then "./"
    else "./" + "\n" + LevelText(root, [], "")
  }

  /** The tree text for a path list: the fixed text when the list is empty,
      otherwise the root level of the tree it describes. */
  function FilteredTree(paths: seq<string>): string
  {
    if |paths| == 0 then NoFilesTree else RootText(TreeOf(paths))
  }

  /** `generate_filtered_tree_string`: the fixed text for an empty list,
      otherwise builds the tree and renders its root level. */
  method GenerateFilteredTreeString(paths: seq<string>) returns (s: string)
    requires NonConflicting(paths)
    ensures s == FilteredTree(paths)
  {
    if |paths| == 0 {
      return NoFilesTree;
    }
    var root := BuildTreeStructure(paths);
    s := RenderRoot(root);
  }

  /** The top-level loop of `generate_filtered_tree_string`: starts from a
      `./` line and renders each root entry itself, handing each root
      directory to `tree_dict_to_string` with the continuation indent. */
  method RenderRoot(root: Tree) returns (s: string)
    ensures s == RootText(root)
  {
    var treeLines := ["./"];
    var items := SortedNames(ChildNames(root, []));
    var i := 0;
    while i < |items|
      invariant 0 <= i <= |items|
      invariant treeLines == ["./"] + LevelLines(root, [], "", items, i)
    {
      var isLast := i == |items| - 1;
      var branch := Branch(isLast);
      var nextIndent := Continuation(isLast);
      var item := items[i];
      RootChild(root, item);
      if root[[item]] != Directory {
        // the file marker, directly under the root
        RootFileStep(root, items, i, treeLines);
        treeLines := treeLines + [branch + item];
      } else {
        // a directory under the root
        var sub := TreeDictToString(root, [item], nextIndent);
        RootDirectoryStep(root, items, i, treeLines, sub);
        treeLines := treeLines + [branch + item + "/"];
        treeLines := treeLines + SplitLines(sub);
      }
      i := i + 1;
    }
    RootDone(root, treeLines);
    s := Join(treeLines, "\n");
  }

  lemma RootChild(root: Tree, n: string)
    requires n in ChildNames(root, [])
    ensures [n] in root
  {
    ChildKey(root, [], n);
    assert [] + [n] == [n];
  }

  /** `FileStep` at the root, where the indent is empty. */
  lemma RootFileStep(root: Tree, items: seq<string>, i: nat, lines: seq<string>)
    requires i < |items| && [items[i]] in root && root[[items[i]]] == File
    requires lines == ["./"] + LevelLines(root, [], "", items, i)
    ensures lines + [Branch(i == |items| - 1) + items[i]] == ["./"] + LevelLines(root, [], "", items, i + 1)
  {
    var done := LevelLines(root, [], "", items, i);
    assert [] + [items[i]] == [items[i]];
    EmptyLeft(Branch(i == |items| - 1));
    FileStep(root, [], "", items, i, done, Branch(i == |items| - 1) + items[i]);
    Assoc(["./"], done, [Branch(i == |items| - 1) + items[i]]);
  }

  /** `DirectoryStep` at the root, where the indent is empty. */
  lemma RootDirectoryStep(root: Tree, items: seq<string>, i: nat, lines: seq<string>, sub: string)
    requires i < |items| && [items[i]] in root && root[[items[i]]] == Directory
    requires sub == LevelText(root, [items[i]], Continuation(i == |items| - 1))
    requires lines == ["./"] + LevelLines(root, [], "", items, i)
    ensures (lines + [Branch(i == |items| - 1) + items[i] + "/"]) + SplitLines(sub)
         == ["./"] + LevelLines(root, [], "", items, i + 1)
  {
    var done := LevelLines(root, [], "", items, i);
    var itemLine := Branch(i == |items| - 1) + items[i];
    assert [] + [items[i]] == [items[i]];
    EmptyLeft(Branch(i == |items| - 1));
    EmptyLeft(Continuation(i == |items| - 1));
    DirectoryStep(root, [], "", items, i, done, itemLine, sub);
    Assoc(["./"], done, [itemLine + "/"]);
    Assoc(["./"], done + [itemLine + "/"], SplitLines(sub));
  }

  /** Once every root entry is visited, the joined lines are the root text. */
  lemma RootDone(root: Tree, lines: seq<string>)
    requires var items := SortedNames(ChildNames(root, []));
      lines == ["./"] + LevelLines(root, [], "", items, |items|)
    ensures Join(lines, "\n") == RootText(root)
  {
    var items := SortedNames(ChildNames(root, []));
    if |items| > 0 {
      JoinFront("./", LevelLines(root, [], "", items, |items|));
    } else {
      assert lines == ["./"];
    }
  }

  /** For a non-empty list, the tree text is a `./` line followed by the text
      `tree_dict_to_string` gives for the root with an empty indent. */
  lemma FilteredTreeNonEmpty(paths: seq<string>)
    requires |paths| > 0
    ensures FilteredTree(paths) == "./" + "\n" + LevelText(TreeOf(paths), [], "")
  {
    RootHasEntry(paths);
  }

  /** A non-empty path list puts at least one entry in the root directory. */
  lemma RootHasEntry(paths: seq<string>)
    requires |paths| > 0
    ensures |ChildNames(TreeOf(paths), [])| > 0
  {
    var parts := Parts(paths[0]);
    assert parts[..1] in NodeKeys(paths);
    assert parts[..1] == [] + [parts[0]];
    KeyChild(TreeOf(paths), [], parts[0]);
  }

  lemma JoinFront(first: string, rest: seq<string>)
    requires |rest| > 0
    ensures Join([first] + rest, "\n") == first + "\n" + Join(rest, "\n")
  {
    assert ([first] + rest)[1..] == rest;
  }

  /** The tree text depends only on which paths are listed: the names are
      sorted at every level, so the order of the list does not matter. */
  lemma FilteredTreeSetOnly(ps: seq<string>, qs: seq<string>)
    requires forall x :: x in ps <==> x in qs
    ensures FilteredTree(ps) == FilteredTree(qs)
  {
    TreeOfSetOnly(ps, qs);
    if |ps| > 0 {
      assert ps[0] in qs;
    }
    if |qs| > 0 {
      assert qs[0] in ps;
    }
  }
}
