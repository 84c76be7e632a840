# Repo2llm in Dafny

Repo2llm is a single script. It takes a list of `/`-separated relative file
paths inside a repository and writes one Markdown document for a language
model. The document holds an ASCII picture of the directory tree those paths
span, then the content of every listed file. Each file's content sits in a
fence tagged with a language hint taken from the file's extension. A file
that cannot be read gets a placeholder instead of its content.

This project models the parts of the script that compute text, and proves
properties of them:

- `strings.dfy` (module `Strings`):
  - `str.split` with its inverse `str.join`;
  - `str.splitlines` with the line-break characters it recognises;
  - Python's string order;
  - `sorted` on strings, as the ascending arrangement of a multiset.
- `path_tree.dfy` (module `PathTree`): `build_tree_structure_dict`.
  - The nested dictionary is a flat map from a segment path (a sequence of names) to `Directory` or `File`.
  - The builder's cursor `current_level` becomes the segment path it stands at.
  - The builder, a nested loop, is proved equal to `TreeOf`: the set of leading runs of segments of the listed paths.
- `tree_render.dfy` (module `TreeRender`): `tree_dict_to_string` as the recursive method `TreeDictToString`, and `generate_filtered_tree_string`.
  - The root loop of `generate_filtered_tree_string` sits in `RenderRoot`, called by `GenerateFilteredTreeString`.
  - Both loops are proved against the function `LevelText`.
- `tree_layout.dfy` (module `TreeLayout`): an independent description of the picture.
  - The picture is one line per tree node, in pre-order.
  - Each line is the indent, the continuation columns of its ancestors, a branch glyph, the name, and `/` for a directory.
  - Lemmas prove that the renderer produces exactly this, in strictly ascending key order, with one line per node.
- `language_hint.dfy` (module `LanguageHint`): `get_language_hint`.
  - `os.path.splitext` as POSIX Python computes it, ASCII lower-casing, and the 18-entry extension table with `text` as the default.
- `document.dfy` (module `DocumentWriter`): the text that `generate_llm_formatted_output` writes.
  - Reading a file becomes a function `read` from the joined path to a `ReadOutcome`: `Loaded(content)`, `NotFound`, `DecodeFailure` or `OtherFailure(message)`.
  - The output file becomes the returned string, built by appending each piece in the order the script writes it.

## Model

| member | source | states |
|---|---|---|
| Strings.Join | Repo2llm.py:57 | `sep.join(parts)`; it has no contract of its own: `JoinSplit` and `SplitJoin` make it the inverse of `Split`, and `SplitLinesJoin` shows that `SplitLines` undoes a `"\n"` join of non-empty lines without line breaks |
| Strings.SplitLines | Repo2llm.py:53 | `str.splitlines()` with Python's line-break characters and `\r\n` as one break; it has no contract of its own: `SplitLinesJoin` states what it returns for a newline-joined text |
| Strings.Less | Repo2llm.py:43 | Python's `<` on `str`, the order behind every `sorted` of the script; a predicate without a contract, proved a strict total order by `LessIrreflexive`, `LessAsymmetric`, `LessTransitive` and `LessTotal` |
| Strings.LessIrreflexive | Repo2llm.py:123 | no string sorts before itself |
| Strings.LessAsymmetric | Repo2llm.py:123 | two strings never sort before each other both ways |
| Strings.LessTransitive | Repo2llm.py:123 | the string order is transitive |
| Strings.LessTotal | Repo2llm.py:123 | any two different strings are ordered one way or the other |
| Strings.SplitJoin | Repo2llm.py:29 | splitting the join of separator-free pieces gives back the pieces |
| Strings.Split | Repo2llm.py:29 | `str.split` on one character: at least one piece and no piece contains the separator |
| Strings.JoinSplit | Repo2llm.py:29 | joining the pieces of a split with the separator gives back the original path |
| Strings.SplitLinesJoin | Repo2llm.py:53 | `splitlines` of the newline-join of non-empty lines without line breaks returns exactly those lines, so a sub-level's lines are taken over unchanged |
| Strings.SortedBag | Repo2llm.py:123 | `sorted(filtered_paths)` is an ascending arrangement with exactly the same elements and multiplicities |
| Strings.SortedUnique | Repo2llm.py:123 | two ascending arrangements of the same multiset are equal, so `sorted` is determined by the multiset alone |
| Strings.SortedNames | Repo2llm.py:43 | `sorted(list(tree_dict.keys()))` lists each key once, strictly ascending, and nothing else |
| PathTree.BuildTreeStructure | Repo2llm.py:25-38 | the dictionary built by walking the cursor down each path equals the tree the path set describes: a node for each leading run of segments, a file marker where a path ends, a directory elsewhere |
| PathTree.TreeOfPath | Repo2llm.py:28-37 | every listed path leads from the root through directory entries to a file marker at its last segment |
| PathTree.TreeOfExtends | Repo2llm.py:33-36 | adding more paths keeps every entry already present, with the same value: an existing directory is reused, never replaced |
| PathTree.TreeOfSetOnly | Repo2llm.py:28-37 | the tree depends only on which paths are listed, not on their order or repetitions |
| PathTree.TreeOfWellFormed | Repo2llm.py:30-37 | every proper leading run of an entry's key is a directory entry, so files are leaves |
| TreeRender.TreeDictToString | Repo2llm.py:40-57 | the recursive loop returns `LevelText`: the newline-join of the lines of the sorted entries, where each directory adds its `/` line and the split lines of its sub-level |
| TreeRender.RenderRoot | Repo2llm.py:66-80 | the root loop returns `./` followed by the root level's text with an empty indent |
| TreeRender.GenerateFilteredTreeString | Repo2llm.py:59-80 | the result is `./\n(No filtered files)` for an empty list, and otherwise the root text of the tree of the listed paths |
| TreeRender.FilteredTreeNonEmpty | Repo2llm.py:66-80 | for a non-empty list the text is `./`, a newline, and what `tree_dict_to_string(root, "")` returns |
| TreeRender.FilteredTreeSetOnly | Repo2llm.py:64-67 | the tree text depends only on which paths are listed, not on their order |
| TreeLayout.LastIff | Repo2llm.py:46-47 | the entry at position j of a sorted level is the last child exactly when j is the final position |
| TreeLayout.LevelAsReference | Repo2llm.py:40-57 | the rendered lines of a level equal the reference description: one line per node in pre-order, with the indent, the continuation columns (four spaces after a last entry, `│   ` otherwise), `└── ` for a last child and `├── ` otherwise, the name, and `/` exactly for directories |
| TreeLayout.LinesOfLength | Repo2llm.py:51-55 | the reference description has one line per visited node |
| TreeLayout.VisitSorted | Repo2llm.py:43-47 | the visit order is strictly ascending in key order: siblings ascend by name and a directory comes before everything below it |
| TreeLayout.VisitExact | Repo2llm.py:45-55 | the nodes visited from a directory are exactly the tree's entries below it |
| TreeLayout.VisitCount | Repo2llm.py:45-55 | a visit from the root lists every entry of the tree exactly once |
| TreeLayout.CleanTree | Repo2llm.py:29 | segments of paths without line breaks contain neither line breaks nor the separator |
| TreeLayout.FilteredTreeText | Repo2llm.py:66-80 | the tree text itself is `./` and the reference description of the root, joined with newlines |
| TreeLayout.FilteredTreeLines | Repo2llm.py:66-80 | the lines of the tree text are `./` followed by the reference description of the root |
| TreeLayout.FilteredTreeLayout | Repo2llm.py:59-80 | for a non-empty list of paths without line breaks: the text is `./` then one reference line per tree node, joined with newlines; the nodes are exactly the tree's entries in strictly ascending order, and `splitlines` gives as many lines as nodes plus one |
| TreeLayout.LineShape | Repo2llm.py:48-55 | a line contains `/` exactly when its node is a directory, and then the line ends with `/` |
| LanguageHint.RFind | Repo2llm.py:84 | `str.rfind`: the last index holding the character, or -1 when there is none |
| LanguageHint.SplitExt | Repo2llm.py:84 | root and extension concatenate to the path, and the extension is empty or a dot followed by anything but dots and `/`; which of the two it is, for every path, is stated by `HintOfExtension` and `HintOfNoExtension` |
| LanguageHint.Lower | Repo2llm.py:85 | lower-casing keeps the length and maps each ASCII capital to its small letter, leaving other characters unchanged |
| LanguageHint.Lookup | Repo2llm.py:87-108 | `lang_map.get(ext, 'text')`: the table's label for a listed extension, `text` for any other |
| LanguageHint.GetLanguageHint | Repo2llm.py:82-108 | the hint is a label of the table or `text`, and `text` whenever the path has no extension |
| LanguageHint.SplitExtLower | Repo2llm.py:84-85 | taking the extension commutes with lower-casing |
| LanguageHint.HintIsCaseInsensitive | Repo2llm.py:84-85 | two paths that differ only in letter case get the same hint |
| LanguageHint.HintOfFinalSegment | Repo2llm.py:84 | only the final path segment decides the extension and the hint |
| LanguageHint.EndsInName | Repo2llm.py:84 | a path ending in a character other than `.` and `/` has a final segment that is not dots only |
| LanguageHint.OnlyDots | Repo2llm.py:84 | a string of dots only is a final segment of dots only |
| LanguageHint.HintOfExtension | Repo2llm.py:84-108 | a path `stem.word`, where `word` has no dot or `/` and the final segment of `stem` holds a character other than `.` (so `a..py` too), has extension `.word`, and its hint is the table's entry for the lower-cased `.word`, or `text` |
| LanguageHint.HintOfNoExtension | Repo2llm.py:84-108 | a path `stem + word`, where `word` has no dot or `/` and the final segment of `stem` is dots only (`Makefile`, `.bashrc`, `dir/..x`, at the top level or below a directory), has no extension, so its hint is `text` |
| LanguageHint.PythonExample | Repo2llm.py:84-88 | `src/Main.PY` is hinted `python` |
| LanguageHint.MakefileExample | Repo2llm.py:108 | `build/Makefile` is hinted `text` |
| LanguageHint.DotFileExample | Repo2llm.py:84 | `.bashrc` at the top level is hinted `text` |
| DocumentWriter.JoinPath | Repo2llm.py:138 | `os.path.join`: the relative path ends the result; an absolute one replaces the root; otherwise the result starts with the root |
| DocumentWriter.WriteEntry | Repo2llm.py:140-179 | the pieces written for one path form its entry for the read outcome: content with the path's hint, or the not-found, decoding or other-error placeholder fenced as `text` |
| DocumentWriter.AppendEntries | Repo2llm.py:137-179 | the loop appends the entries of all paths, in list order, to the text written so far |
| DocumentWriter.GenerateLlmFormattedOutput | Repo2llm.py:110-181 | the written text is the document: the fixed no-files text for an empty list, otherwise the preamble with the fenced tree of the sorted paths, their entries in sorted order, and the end marker |
| DocumentWriter.LoadedEntry | Repo2llm.py:144-151 | after a successful read the entry is the header, the opening fence tagged with the path's language hint, the file's content verbatim, the closing fence and the separator, each at its own position |
| DocumentWriter.FailedEntry | Repo2llm.py:153-179 | after any failed read the entry starts with the header and an opening fence tagged `text`, holds the placeholder, and ends with the closing fence and the separator |
| DocumentWriter.EntryTemplate | Repo2llm.py:144-179 | every entry, whatever its outcome, is the header naming the path, the opening fence with its tag (the path's hint after a successful read, `text` after a failure), the body (the content verbatim, or the placeholder), the closing fence, and `---` with a blank line |
| DocumentWriter.EntriesAppend | Repo2llm.py:137 | the entries of consecutive path lists are consecutive |
| DocumentWriter.EntriesSplit | Repo2llm.py:137-179 | exactly one entry per path in list order: the entries before path i, then path i's entry, then those after it |
| DocumentWriter.DocumentOrderIndependent | Repo2llm.py:123 | the document depends only on the multiset of listed paths, not on their order |
| DocumentWriter.DocumentLayout | Repo2llm.py:123-135 | a non-empty document is the preamble holding the tree text of the listed paths, then the entries of the ascending, permuted path list, then the end marker |

## Left out

- Console output: the `print` diagnostics (Repo2llm.py:116, 121, 154, 162, 172, 183) are not document content and are not modelled.
- File I/O: opening, reading and UTF-8 decoding each file (Repo2llm.py:141-142) become the `read` parameter and its `ReadOutcome`. That the same joined path always reads the same way is built into `read` being a function.
- Newline translation on read: the file is opened in text mode (Repo2llm.py:141), so `\r\n` and `\r` in it arrive as `\n`. The `content` of `Loaded(content)` is the text `read()` returns after that translation, not the raw bytes of the file; "verbatim" in the `LoadedEntry` row means verbatim as returned.
- Output file: opening and writing the output file (Repo2llm.py:117-118, 126-181) becomes the returned text, and the model assumes every write succeeds. A failure to open the output file, or to write outside the per-file `try`, aborts the run and is not modelled. A write that fails inside the per-file `try` (Repo2llm.py:140-151) is caught by `except Exception` (Repo2llm.py:171). That leaves a partial entry followed by an unexpected-error entry for the same path, so that path gets two headers. This is not modelled either, and `EntriesSplit`'s one entry per path holds only when every write succeeds.
- The `__main__` block and output-directory creation (Repo2llm.py:186-192) are filesystem plumbing and are not modelled.
- Platform: the model is POSIX throughout. `os.sep` is `/`, `os.path.join` and `os.path.splitext` are `posixpath`'s, and writing the output file in text mode translates no `\n` into `\r\n`.
- Conflicting path sets: a name that is both a file and a directory makes the script overwrite a directory with `None` or fail inside the builder (Repo2llm.py:33-37). `NonConflicting` is therefore a precondition of the builder, the tree string and the writer.
- Exception text: the message of an unexpected read failure (`{e}`, Repo2llm.py:177) is the opaque string carried by `OtherFailure`.
- LanguageHint.Lower: models `str.lower` on ASCII letters only. No key of the language table contains a character that a non-ASCII letter lower-cases to, except that the Kelvin sign lower-cases to `k`, which no key contains.
- Tree properties: the layout lemmas assume that no path contains a line break. With line breaks, `splitlines` would cut a name into several lines (Repo2llm.py:53, 78).
- TreeRender.RenderRoot: the root loop of `generate_filtered_tree_string` is a separate method called by `GenerateFilteredTreeString`, not written inline.
- DocumentWriter.AppendEntries: the per-path loop of `generate_llm_formatted_output` is a separate method called by `GenerateLlmFormattedOutput`, not written inline.
- Extension rule: the code uses `os.path.splitext`, which gives a final segment made only of leading dots and a name (`.bashrc`) no extension. The model follows the code here. A plain reading of "the text after the final dot" would disagree.
- Placeholder paths: the not-found, decoding and other-error placeholders name the joined path `os.path.join(repo_root, relative_path)`, not the relative path. The model follows the code.
