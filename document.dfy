// The text `generate_llm_formatted_output` writes: a title, the fenced
// directory tree, one entry per sorted path (the file's content, or a
// placeholder for a read that failed), and an end marker.  Reading a file is
// abstracted as a function from the joined path to the outcome of the read.

module DocumentWriter {
  import opened Strings
  import opened PathTree
  import opened TreeRender
  import opened LanguageHint

  /** What opening and reading a file as UTF-8 text can come to. */
  datatype ReadOutcome =
    | Loaded(content: string)
    | NotFound
    | DecodeFailure
    | OtherFailure(message: string)

  /** `posixpath.join(a, b)`: an absolute `b` replaces `a`; otherwise `b` is
      appended, with a '/' unless `a` is empty or already ends in one. */
  function JoinPath(a: string, b: string): (r: string)
    ensures |b| <= |r| && r[|r| - |b|..] == b
    ensures |b| > 0 && b[0] == '/' ==> r == b
    ensures !(|b| > 0 && b[0] == '/') ==> |r| >= |a| && r[..|a|] == a
  {
    if |b| > 0 && b[0] == '/' then b
    else if |a| == 0 || a[|a| - 1] == '/' then a + b
    else a + "/" + b
  }

  // ---------------------------------------------------------------------
  // The fixed pieces of the document

  const Title: string := "## Repository Content (Filtered)\n\n"
  const Intro: string := "This section provides a filtered view of the repository structure and the content of the included files.\n\n"
  const StructureHeading: string := "### Filtered Directory Structure:\n"
  const TreeOpening: string := "```\n"
  const TreeClosing: string := "\n```\n\n"
  const ContentHeading: string := "--- File Content Below ---\n\n"
  const EndMarker: string := "--- End of Repository Content (Filtered) ---\n"

  /** The whole document when no path is listed. */
  const EmptyDocument: string := "## Repository Content (Filtered)\n\nNo files matched the filtering criteria."

  const Closing: string := "```\n"
  const Separator: string := "---\n\n"
  const TextOpening: string := "```text\n"
  const NotFoundPrefix: string := "# ERROR: File not found at "
  const DecodeLine: string := "# ERROR: Could not read this file due to encoding issues.\n"
  const EncodingAdvice: string := "# Please check the file encoding (expected utf-8).\n"
  const UnexpectedLine: string := "# ERROR: An unexpected error occurred while reading this file.\n"

  function Header(relativePath: string): string
  {
    "--- File: " + relativePath + " ---\n"
  }

  /** The opening fence of a file's block, tagged with a language hint. */
  function Opening(tag: string): string
  {
    "```" + tag + "\n"
  }

  function PathLine(fullPath: string): string
  {
    "# Path: " + fullPath + "\n"
  }

  function ErrorLine(message: string): string
  {
    "# Error: " + message + "\n"
  }

  /** Everything before the file list: title, introduction, and the tree in
      a plain fence. */
  function Preamble(tree: string): string
  {
    Title + Intro + StructureHeading + TreeOpening + tree + TreeClosing + ContentHeading
  }

  /** The entry for one path, in the order the script writes its pieces. */
  function EntryText(relativePath: string, fullPath: string, outcome: ReadOutcome): string
  {
    match outcome
    case Loaded(content) =>
      Header(relativePath) + Opening(GetLanguageHint(relativePath)) + content + Closing + Separator
    case NotFound =>
      Header(relativePath) + TextOpening + (NotFoundPrefix + fullPath + "\n") + Closing + Separator
    case DecodeFailure =>
      Header(relativePath) + TextOpening + DecodeLine + PathLine(fullPath) + EncodingAdvice
        + Closing + Separator
    case OtherFailure(message) =>
      Header(relativePath) + TextOpening + UnexpectedLine + PathLine(fullPath) + ErrorLine(message)
        + Closing + Separator
  }

  /** The entry of the path `p` of the list, read at its joined path. */
  function EntryOf(root: string, p: string, read: string -> ReadOutcome): string
  {
    var full := JoinPath(root, p);
    EntryText(p, full, read(full))
  }

  /** The texts `f` gives for the members of `ps`, one after another. */
  function ConcatMap(ps: seq<string>, f: string -> string): string
  {
    if |ps| == 0 then ""
    else ConcatMap(ps[..|ps| - 1], f) + f(ps[|ps| - 1])
  }

  function EntryFn(root: string, read: string -> ReadOutcome): string -> string
  {
    p => EntryOf(root, p, read)
  }

  /** The entries of the paths `ps`, in their order. */
  function Entries(root: string, ps: seq<string>, read: string -> ReadOutcome): string
  {
    ConcatMap(ps, EntryFn(root, read))
  }

  /** The document for a path list: the fixed text for an empty list;
      otherwise the preamble with the tree of the sorted paths, their entries
      in sorted order, and the end marker. */
  function Document(root: string, paths: seq<string>, read: string -> ReadOutcome): string
  {
    if |paths| == 0 then EmptyDocument
    else
      var sorted := SortedBag(multiset(paths));
      Preamble(FilteredTree(sorted)) + Entries(root, sorted, read) + EndMarker
  }

  // ---------------------------------------------------------------------
  // The writer

  /** The body of the `try` for one path and the `except` clauses: the
      pieces of its entry, written one after another. */
  method WriteEntry(relativePath: string, fullPath: string, outcome: ReadOutcome)
    returns (entry: string)
    ensures entry == EntryText(relativePath, fullPath, outcome)
  {
    match outcome {
      case Loaded(fileContent) =>
        entry := "--- File: " + relativePath + " ---\n";
        var langHint := GetLanguageHint(relativePath);
        entry := entry + ("```" + langHint + "\n");
        entry := entry + fileContent;
        entry := entry + "```\n";
        entry := entry + "---\n\n";
      case NotFound =>
        entry := "--- File: " + relativePath + " ---\n";
        entry := entry + "```text\n";
        entry := entry + ("# ERROR: File not found at " + fullPath + "\n");
        entry := entry + "```\n";
        entry := entry + "---\n\n";
      case DecodeFailure =>
        entry := "--- File: " + relativePath + " ---\n";
        entry := entry + "```text\n";
        entry := entry + "# ERROR: Could not read this file due to encoding issues.\n";
        entry := entry + ("# Path: " + fullPath + "\n");
        entry := entry + "# Please check the file encoding (expected utf-8).\n";
        entry := entry + "```\n";
        entry := entry + "---\n\n";
      case OtherFailure(e) =>
        entry := "--- File: " + relativePath + " ---\n";
        entry := entry + "```text\n";
        entry := entry + "# ERROR: An unexpected error occurred while reading this file.\n";
        entry := entry + ("# Path: " + fullPath + "\n");
        entry := entry + ("# Error: " + e + "\n");
        entry := entry + "```\n";
        entry := entry + "---\n\n";
    }
  }

  /** `generate_llm_formatted_output`, with the output file as the returned
      text and each read as `read` of the joined path. */
  method GenerateLlmFormattedOutput(repoRoot: string, filteredPaths: seq<string>,
                                    read: string -> ReadOutcome)
    returns (doc: string)
    requires NonConflicting(filteredPaths)
    ensures doc == Document(repoRoot, filteredPaths, read)
  {
    if |filteredPaths| == 0 {
      return "## Repository Content (Filtered)\n\nNo files matched the filtering criteria.";
    }
    var sortedPaths := SortedBag(multiset(filteredPaths));
    NonConflictingSameElements(filteredPaths, sortedPaths);
    var treeString := GenerateFilteredTreeString(sortedPaths);

    var out := "## Repository Content (Filtered)\n\n";
    out := out + "This section provides a filtered view of the repository structure and the content of the included files.\n\n";
    out := out + "### Filtered Directory Structure:\n";
    out := out + "```\n";
    out := out + treeString;
    out := out + "\n```\n\n";
    out := out + "--- File Content Below ---\n\n";
    out := AppendEntries(out, repoRoot, sortedPaths, read);
    out := out + "--- End of Repository Content (Filtered) ---\n";
    doc := out;
  }

  /** The loop of `generate_llm_formatted_output` over the sorted paths:
      appends the entry of each path, in order, to the text written so far. */
  method AppendEntries(out0: string, repoRoot: string, paths: seq<string>,
                       read: string -> ReadOutcome)
    returns (out: string)
    ensures out == out0 + Entries(repoRoot, paths, read)
  {
    out := out0;
    NoEntries(repoRoot, paths, read, out);
    var i := 0;
    while i < |paths|
      invariant i <= |paths|
      invariant out == out0 + Entries(repoRoot, paths[..i], read)
    {
      var relativePath := paths[i];
      var fullPath := JoinPath(repoRoot, relativePath);
      var entry := WriteEntry(relativePath, fullPath, read(fullPath));
      EntriesStep(repoRoot, paths, read, i, out0, entry);
      out := out + entry;
      i := i + 1;
    }
    assert paths[..i] == paths;
  }

  // ---------------------------------------------------------------------
  // Steps of the writer's proof

  lemma NonConflictingSameElements(ps: seq<string>, qs: seq<string>)
    requires NonConflicting(ps) && multiset(qs) == multiset(ps)
    ensures NonConflicting(qs)
  {
    forall p | p in qs
      ensures p in ps
    {
      assert p in multiset(qs);
    }
  }

  lemma NoEntries(root: string, ps: seq<string>, read: string -> ReadOutcome, out: string)
    ensures out == out + Entries(root, ps[..0], read)
  {
  }

  lemma ConcatStep(ps: seq<string>, f: string -> string, i: nat, out: string)
    requires i < |ps|
    ensures out + ConcatMap(ps[..i + 1], f) == out + ConcatMap(ps[..i], f) + f(ps[i])
  {
    assert ps[..i + 1][..i] == ps[..i];
  }

  lemma EntriesStep(root: string, ps: seq<string>, read: string -> ReadOutcome, i: nat,
                    out: string, entry: string)
    requires i < |ps|
    requires entry == EntryOf(root, ps[i], read)
    ensures out + Entries(root, ps[..i + 1], read) == out + Entries(root, ps[..i], read) + entry
  {
    ConcatStep(ps, EntryFn(root, read), i, out);
  }

  // ---------------------------------------------------------------------
  // Properties of the document

  /** The texts of consecutive lists are consecutive. */
  lemma {:induction false} ConcatAppend(ps: seq<string>, qs: seq<string>, f: string -> string)
    ensures ConcatMap(ps + qs, f) == ConcatMap(ps, f) + ConcatMap(qs, f)
    decreases |qs|
  {
    if |qs| == 0 {
      assert ps + qs == ps;
    } else {
      var all := ps + qs;
      var front := qs[..|qs| - 1];
      assert all[..|all| - 1] == ps + front;
      assert all[|all| - 1] == qs[|qs| - 1];
      ConcatAppend(ps, front, f);
      Assoc(ConcatMap(ps, f), ConcatMap(front, f), f(qs[|qs| - 1]));
    }
  }

  lemma ConcatSingle(p: string, f: string -> string)
    ensures ConcatMap([p], f) == f(p)
  {
    assert [p][..0] == [];
  }

  /** The text of `ps[i]` sits between the texts of the members before it and
      those after it. */
  lemma ConcatSplit(ps: seq<string>, f: string -> string, i: nat)
    requires i < |ps|
    ensures ConcatMap(ps, f) == ConcatMap(ps[..i], f) + f(ps[i]) + ConcatMap(ps[i + 1..], f)
  {
    var rest := ps[i..];
    assert ps[..i] + rest == ps;
    ConcatAppend(ps[..i], rest, f);
    ConcatFront(rest, f);
    assert rest[1..] == ps[i + 1..];
    Assoc(ConcatMap(ps[..i], f), f(ps[i]), ConcatMap(ps[i + 1..], f));
  }

  lemma ConcatFront(ps: seq<string>, f: string -> string)
    requires |ps| > 0
    ensures ConcatMap(ps, f) == f(ps[0]) + ConcatMap(ps[1..], f)
  {
    assert ps == [ps[0]] + ps[1..];
    ConcatAppend([ps[0]], ps[1..], f);
    ConcatSingle(ps[0], f);
  }

  /** Entries of consecutive path lists are consecutive. */
  lemma EntriesAppend(root: string, ps: seq<string>, qs: seq<string>, read: string -> ReadOutcome)
    ensures Entries(root, ps + qs, read) == Entries(root, ps, read) + Entries(root, qs, read)
  {
    ConcatAppend(ps, qs, EntryFn(root, read));
  }

  /** Exactly one entry per path, in list order: the entries of the paths
      before `ps[i]`, then the entry of `ps[i]`, then those after it. */
  lemma EntriesSplit(root: string, ps: seq<string>, read: string -> ReadOutcome, i: nat)
    requires i < |ps|
    ensures Entries(root, ps, read) ==
            Entries(root, ps[..i], read) + EntryOf(root, ps[i], read) + Entries(root, ps[i + 1..], read)
  {
    ConcatSplit(ps, EntryFn(root, read), i);
  }

  /** The fence tag of an entry: the path's language hint when the file was
      read, `text` for every placeholder. */
  function Tag(relativePath: string, outcome: ReadOutcome): (t: string)
    ensures outcome.Loaded? ==> t == GetLanguageHint(relativePath)
    ensures !outcome.Loaded? ==> t == DefaultHint
  {
    if outcome.Loaded? then GetLanguageHint(relativePath) else DefaultHint
  }

  /** What an entry holds between its fences: the file's content verbatim,
      or the placeholder lines for a failed read. */
  function Body(fullPath: string, outcome: ReadOutcome): (b: string)
    ensures outcome.Loaded? ==> b == outcome.content
  {
    match outcome
    case Loaded(content) => content
    case NotFound => NotFoundPrefix + fullPath + "\n"
    case DecodeFailure => DecodeLine + PathLine(fullPath) + EncodingAdvice
    case OtherFailure(message) => UnexpectedLine + PathLine(fullPath) + ErrorLine(message)
  }

  /** Every entry, whatever the outcome of its read, follows one template:
      a header naming the path, an opening fence with the tag, the body, the
      closing fence and the separator. */
  lemma EntryTemplate(relativePath: string, fullPath: string, outcome: ReadOutcome)
    ensures EntryText(relativePath, fullPath, outcome) ==
            Header(relativePath) + Opening(Tag(relativePath, outcome))
            + Body(fullPath, outcome) + Closing + Separator
  {
    match outcome {
      case Loaded(_) =>
      case NotFound =>
        TextTag();
      case DecodeFailure =>
        TextTag();
        Regroup(Header(relativePath) + TextOpening, DecodeLine, PathLine(fullPath), EncodingAdvice);
      case OtherFailure(message) =>
        TextTag();
        Regroup(Header(relativePath) + TextOpening, UnexpectedLine, PathLine(fullPath), ErrorLine(message));
    }
  }

  lemma TextTag()
    ensures TextOpening == Opening(DefaultHint)
  {
  }

  lemma Regroup(a: string, b: string, c: string, d: string)
    ensures a + b + c + d == a + (b + c + d)
  {
    Assoc(a + b, c, d);
    Assoc(a, b, c + d);
    Assoc(b, c, d);
  }

  /** After a successful read, the entry holds the file's content verbatim,
      right after the header and the opening fence tagged with the path's
      language hint, and right before the closing fence and the separator. */
  lemma LoadedEntry(relativePath: string, fullPath: string, content: string)
    ensures var e := EntryText(relativePath, fullPath, Loaded(content));
            var head := Header(relativePath) + Opening(GetLanguageHint(relativePath));
            |e| == |head| + |content| + |Closing + Separator| &&
            e[..|head|] == head &&
            e[|head|..|head| + |content|] == content &&
            e[|head| + |content|..] == Closing + Separator
  {
    var head := Header(relativePath) + Opening(GetLanguageHint(relativePath));
    FenceAround(head, content, Closing + Separator);
    Assoc(head + content, Closing, Separator);
  }

  /** After any failed read, the entry starts with the header and an opening
      fence tagged `text`, and ends with the closing fence and the separator;
      the placeholder in between is not the file's content. */
  lemma FailedEntry(relativePath: string, fullPath: string, outcome: ReadOutcome)
    requires !outcome.Loaded?
    ensures var e := EntryText(relativePath, fullPath, outcome);
            var head := Header(relativePath) + Opening(DefaultHint);
            var body := Body(fullPath, outcome);
            |e| == |head| + |body| + |Closing + Separator| &&
            e[..|head|] == head &&
            e[|head|..|head| + |body|] == body &&
            e[|head| + |body|..] == Closing + Separator
  {
    EntryTemplate(relativePath, fullPath, outcome);
    var head := Header(relativePath) + Opening(DefaultHint);
    var body := Body(fullPath, outcome);
    FenceAround(head, body, Closing + Separator);
    Assoc(head + body, Closing, Separator);
  }

  lemma FenceAround(head: string, body: string, tail: string)
    ensures var e := head + body + tail;
            |e| == |head| + |body| + |tail| &&
            e[..|head|] == head &&
            e[|head|..|head| + |body|] == body &&
            e[|head| + |body|..] == tail
  {
  }

  /** The document does not depend on the order of the path list. */
  lemma DocumentOrderIndependent(root: string, ps: seq<string>, qs: seq<string>,
                                 read: string -> ReadOutcome)
    requires multiset(ps) == multiset(qs)
    ensures Document(root, ps, read) == Document(root, qs, read)
  {
    assert |ps| == |multiset(ps)| == |qs|;
  }

  /** A non-empty document opens with the preamble holding the tree of the
      listed paths (as `generate_filtered_tree_string` renders it for the
      paths in any order), then the entries of the sorted paths, then the
      end marker. */
  lemma DocumentLayout(root: string, paths: seq<string>, read: string -> ReadOutcome)
    requires |paths| > 0
    ensures Sorted(SortedBag(multiset(paths)))
    ensures multiset(SortedBag(multiset(paths))) == multiset(paths)
    ensures Document(root, paths, read) ==
            Preamble(FilteredTree(paths)) + Entries(root, SortedBag(multiset(paths)), read) + EndMarker
  {
    var sorted := SortedBag(multiset(paths));
    forall x
      ensures x in sorted <==> x in paths
    {
      assert x in sorted <==> x in multiset(sorted);
      assert x in paths <==> x in multiset(paths);
    }
    FilteredTreeSetOnly(sorted, paths);
  }
}
