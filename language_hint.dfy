// The language hint that tags a file's fenced block: the extension of the
// path (as `os.path.splitext` computes it on POSIX), lower-cased and looked up
// in a fixed table, with `text` when the table has no entry.

module LanguageHint {

  /** The index of the last occurrence of `c` in `s`, or -1 (`str.rfind`). */
  function RFind(s: string, c: char): (r: int)
    ensures -1 <= r < |s|
    ensures r >= 0 ==> s[r] == c
    ensures forall k :: r < k < |s| ==> s[k] != c
  {
    if |s| == 0 then -1
    else if s[|s| - 1] == c then |s| - 1
    else RFind(s[..|s| - 1], c)
  }

  predicate AllDots(s: string)
  {
    forall i :: 0 <= i < |s| ==> s[i] == '.'
  }

  /** Empty, or '.' followed by characters other than '.' and '/'. */
  predicate ExtensionShape(e: string)
  {
    |e| > 0 ==> e[0] == '.' && forall k :: 0 < k < |e| ==> e[k] != '.' && e[k] != '/'
  }

  /** Where `posixpath.splitext` starts the extension: at the last dot after
      the last '/', unless everything between that '/' and the dot is a dot
      (so ".bashrc" and "a/..x" have no extension); at the end otherwise. */
  function ExtStart(p: string): (i: int)
    ensures 0 <= i <= |p|
  {
    var sepIndex := RFind(p, '/');
    var dotIndex := RFind(p, '.');
    if dotIndex > sepIndex && !AllDots(p[sepIndex + 1..dotIndex]) then dotIndex else |p|
  }

  lemma TailShape(p: string)
    ensures ExtensionShape(p[ExtStart(p)..])
  {
    var i := ExtStart(p);
    var e := p[i..];
    forall k | 0 < k < |e|
      ensures e[k] != '.' && e[k] != '/'
    {
      assert e[k] == p[i + k];
    }
  }

  /** `posixpath.splitext`: the root and the extension. */
  function SplitExt(p: string): (r: (string, string))
    ensures r.0 + r.1 == p
    ensures ExtensionShape(r.1)
  {
    TailShape(p);
    (p[..ExtStart(p)], p[ExtStart(p)..])
  }

  function AsciiLower(c: char): (r: char)
    ensures 'A' <= c <= 'Z' ==> r as int == c as int + 32
    ensures !('A' <= c <= 'Z') ==> r == c
  {
    if 'A' <= c <= 'Z' then (c as int + 32) as char else c
  }

  /** `str.lower`, on the ASCII letters. */
  function Lower(s: string): (r: string)
    ensures |r| == |s|
    ensures forall i :: 0 <= i < |s| ==> r[i] == AsciiLower(s[i])
  {
    seq(|s|, i requires 0 <= i < |s| => AsciiLower(s[i]))
  }

  /** The extension-to-label table. */
  const LanguageTable: map<string, string> := map[
    ".py" := "python",
    ".js" := "javascript",
    ".ts" := "typescript",
    ".html" := "html",
    ".css" := "css",
    ".json" := "json",
    ".yaml" := "yaml",
    ".yml" := "yaml",
    ".md" := "markdown",
    ".sh" := "bash",
    ".c" := "c",
    ".cpp" := "cpp",
    ".h" := "c",
    ".hpp" := "cpp",
    ".java" := "java",
    ".go" := "go",
    ".rs" := "rust",
    ".txt" := "text"
  ]

  const DefaultHint: string := "text"

  /** `lang_map.get(ext, 'text')`. */
  function Lookup(ext: string): (r: string)
    ensures ext in LanguageTable ==> r == LanguageTable[ext]
    ensures ext !in LanguageTable ==> r == DefaultHint
  {
    if ext in LanguageTable then LanguageTable[ext] else DefaultHint
  }

  /** `get_language_hint`. */
  function GetLanguageHint(path: string): (r: string)
    ensures r in LanguageTable.Values || r == DefaultHint
    ensures SplitExt(path).1 == "" ==> r == DefaultHint
  {
    Lookup(Lower(SplitExt(path).1))
  }

  // ---------------------------------------------------------------------
  // Facts about rfind

  lemma {:induction false} RFindAppend(a: string, b: string, c: char)
    ensures RFind(a + b, c) == if c in b then |a| + RFind(b, c) else RFind(a, c)
    decreases |b|
  {
    if |b| > 0 {
      var s := a + b;
      assert s[..|s| - 1] == a + b[..|b| - 1];
      if b[|b| - 1] != c {
        RFindAppend(a, b[..|b| - 1], c);
        assert c in b <==> c in b[..|b| - 1] by {
          assert b == b[..|b| - 1] + [b[|b| - 1]];
        }
      }
    } else {
      assert a + b == a;
    }
  }

  lemma {:induction false} RFindLower(s: string, c: char)
    requires c == '.' || c == '/'
    ensures RFind(Lower(s), c) == RFind(s, c)
    decreases |s|
  {
    if |s| > 0 {
      assert Lower(s)[..|s| - 1] == Lower(s[..|s| - 1]);
      RFindLower(s[..|s| - 1], c);
    }
  }

  lemma LowerSlice(s: string, i: nat, j: nat)
    requires i <= j <= |s|
    ensures Lower(s)[i..j] == Lower(s[i..j])
  {
  }

  lemma LowerIdempotent(s: string)
    ensures Lower(Lower(s)) == Lower(s)
  {
  }

  lemma AllDotsLower(s: string)
    ensures AllDots(Lower(s)) <==> AllDots(s)
  {
    if !AllDots(s) {
      var i :| 0 <= i < |s| && s[i] != '.';
      assert Lower(s)[i] != '.';
    }
  }

  lemma ExtStartLower(p: string)
    ensures ExtStart(Lower(p)) == ExtStart(p)
  {
    RFindLower(p, '/');
    RFindLower(p, '.');
    if RFind(p, '.') > RFind(p, '/') {
      SliceDotsLower(p, RFind(p, '/') + 1, RFind(p, '.'));
    }
  }

  lemma SliceDotsLower(p: string, i: nat, j: nat)
    requires i <= j <= |p|
    ensures AllDots(Lower(p)[i..j]) <==> AllDots(p[i..j])
  {
    LowerSlice(p, i, j);
    AllDotsLower(p[i..j]);
  }

  /** Lower-casing commutes with taking the extension: neither '.' nor '/'
      is a letter. */
  lemma SplitExtLower(p: string)
    ensures SplitExt(Lower(p)).1 == Lower(SplitExt(p).1)
  {
    ExtStartLower(p);
    LowerSlice(p, ExtStart(p), |p|);
    assert p[ExtStart(p)..|p|] == p[ExtStart(p)..];
  }

  // ---------------------------------------------------------------------
  // The hint rules

  /** The hint ignores the case of the path. */
  lemma HintIsCaseInsensitive(p: string, q: string)
    requires Lower(p) == Lower(q)
    ensures GetLanguageHint(p) == GetLanguageHint(q)
  {
    SplitExtLower(p);
    SplitExtLower(q);
    LowerIdempotent(SplitExt(p).1);
    LowerIdempotent(SplitExt(q).1);
  }

  lemma ExtStartFinal(dir: string, name: string)
    requires '/' !in name
    ensures ExtStart(dir + "/" + name) == |dir| + 1 + ExtStart(name)
  {
    var head := dir + "/";
    var p := head + name;
    RFindAppend(head, name, '/');
    RFindAppend(dir, "/", '/');
    RFindAppend(head, name, '.');
    assert RFind(p, '/') == |dir|;
    assert RFind(name, '/') == -1;
    if '.' in name {
      var d := RFind(name, '.');
      assert RFind(p, '.') == |head| + d;
      assert p[|dir| + 1..|head| + d] == name[0..d];
      assert name[0..d] == name[-1 + 1..d];
    } else {
      assert RFind(p, '.') <= |dir|;
    }
  }

  /** Only the final path segment decides the extension, and so the hint. */
  lemma HintOfFinalSegment(dir: string, name: string)
    requires '/' !in name
    ensures SplitExt(dir + "/" + name).1 == SplitExt(name).1
    ensures GetLanguageHint(dir + "/" + name) == GetLanguageHint(name)
  {
    ExtStartFinal(dir, name);
    var p := dir + "/" + name;
    assert p == (dir + "/") + name;
    assert p[|dir| + 1 + ExtStart(name)..] == name[ExtStart(name)..];
  }

  /** A stem whose final segment (after its last '/') is nothing but dots.
      A dot there starts no extension. */
  predicate DotsOnlySegment(stem: string)
  {
    AllDots(stem[RFind(stem, '/') + 1..])
  }

  /** A stem ending in a character other than '.' and '/'. */
  lemma EndsInName(stem: string)
    requires |stem| > 0 && stem[|stem| - 1] != '.' && stem[|stem| - 1] != '/'
    ensures !DotsOnlySegment(stem)
  {
    var sepIndex := RFind(stem, '/');
    assert stem[sepIndex + 1..][|stem| - 1 - (sepIndex + 1)] == stem[|stem| - 1];
  }

  /** A stem ending in '/' has an empty final segment. */
  lemma EndsInSeparator(stem: string)
    requires |stem| > 0 && stem[|stem| - 1] == '/'
    ensures DotsOnlySegment(stem)
  {
  }

  /** A stem of dots only. */
  lemma OnlyDots(stem: string)
    requires AllDots(stem)
    ensures DotsOnlySegment(stem)
  {
    var segment := stem[RFind(stem, '/') + 1..];
    forall i | 0 <= i < |segment|
      ensures segment[i] == '.'
    {
      assert segment[i] == stem[RFind(stem, '/') + 1 + i];
    }
  }

  lemma ExtStartOfWord(stem: string, word: string)
    requires !DotsOnlySegment(stem)
    requires '.' !in word && '/' !in word
    ensures ExtStart(stem + "." + word) == |stem|
  {
    var p := stem + "." + word;
    assert RFind(p, '.') == |stem| by {
      RFindAppend(stem + ".", word, '.');
      RFindAppend(stem, ".", '.');
    }
    assert RFind(p, '/') == RFind(stem, '/') by {
      RFindAppend(stem + ".", word, '/');
      RFindAppend(stem, ".", '/');
    }
    NotDotsBefore(stem, p, RFind(stem, '/') + 1);
  }

  lemma NotDotsBefore(stem: string, p: string, i: nat)
    requires i <= |stem| <= |p| && p[..|stem|] == stem
    requires !AllDots(stem[i..])
    ensures !AllDots(p[i..|stem|])
  {
    var k :| 0 <= k < |stem[i..]| && stem[i..][k] != '.';
    assert p[i..|stem|][k] == stem[i..][k];
  }

  /** A path `stem.word`, where `word` has no dot and the final segment of
      `stem` holds a character other than '.', has the extension `.word`,
      so its hint is the table's entry for the lower-cased `.word` or
      `text`.  Together with `HintOfNoExtension` this decides the extension
      of every path: take `word` after the last dot of the final segment. */
  lemma HintOfExtension(stem: string, word: string)
    requires !DotsOnlySegment(stem)
    requires '.' !in word && '/' !in word
    ensures SplitExt(stem + "." + word).1 == "." + word
    ensures GetLanguageHint(stem + "." + word) == Lookup(Lower("." + word))
  {
    ExtStartOfWord(stem, word);
    var p := stem + "." + word;
    assert p == stem + ("." + word);
    assert p[|stem|..] == "." + word;
  }

  lemma ExtStartOfDots(stem: string, word: string)
    requires DotsOnlySegment(stem)
    requires '.' !in word && '/' !in word
    ensures ExtStart(stem + word) == |stem + word|
  {
    var p := stem + word;
    RFindAppend(stem, word, '.');
    RFindAppend(stem, word, '/');
    var sepIndex := RFind(stem, '/');
    var dotIndex := RFind(p, '.');
    assert RFind(p, '/') == sepIndex;
    if dotIndex > sepIndex {
      assert dotIndex == RFind(stem, '.');
      DotsBefore(stem, p, sepIndex + 1, dotIndex);
    }
  }

  lemma DotsBefore(stem: string, p: string, i: nat, j: nat)
    requires i <= j <= |stem| <= |p| && p[..|stem|] == stem
    requires AllDots(stem[i..])
    ensures AllDots(p[i..j])
  {
    forall k | 0 <= k < j - i
      ensures p[i..j][k] == '.'
    {
      assert p[i..j][k] == stem[i..][k];
    }
  }

  /** A path whose final segment has no dot, or whose dots all come before
      any other character of it (`Makefile`, `.bashrc`, `dir/..x`), has no
      extension, so its hint is `text`. */
  lemma HintOfNoExtension(stem: string, word: string)
    requires DotsOnlySegment(stem)
    requires '.' !in word && '/' !in word
    ensures SplitExt(stem + word).1 == ""
    ensures GetLanguageHint(stem + word) == DefaultHint
  {
    ExtStartOfDots(stem, word);
  }

  /** `.PY` is Python whatever the case. */
  lemma PythonExample()
    ensures GetLanguageHint("src/Main.PY") == "python"
  {
    var stem, word := "src/Main", "PY";
    assert stem + "." + word == "src/Main.PY";
    EndsInName(stem);
    HintOfExtension(stem, word);
    PythonEntry("." + word);
  }

  lemma PythonEntry(ext: string)
    requires ext == ".PY"
    ensures Lookup(Lower(ext)) == "python"
  {
    assert Lower(ext) == ".py";
  }

  /** A file without an extension is plain text. */
  lemma MakefileExample()
    ensures GetLanguageHint("build/Makefile") == "text"
  {
    EndsInSeparator("build/");
    HintOfNoExtension("build/", "Makefile");
    assert "build/" + "Makefile" == "build/Makefile";
  }

  /** A dot file at the top level has no extension, so it is plain text. */
  lemma DotFileExample()
    ensures GetLanguageHint(".bashrc") == "text"
  {
    DotFileHint(".bashrc");
  }

  /** A top-level name of one leading dot and a dot-free rest. */
  lemma DotFileHint(name: string)
    requires |name| > 0 && name[0] == '.' && '.' !in name[1..] && '/' !in name[1..]
    ensures GetLanguageHint(name) == DefaultHint
  {
    assert name == "." + name[1..];
    OnlyDots(".");
    HintOfNoExtension(".", name[1..]);
  }
}
