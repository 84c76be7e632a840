/** Python's string built-ins that the script relies on, stated over
    `seq<char>`: `str.split` with an explicit separator, `sep.join`,
    `str.splitlines`, the `<` order on `str`, and `sorted` on strings. */
module Strings {

  /** `s.split(sep)` for a one-character separator: the pieces between the
      separators, so there is always one more piece than separators. */
  function Split(s: string, sep: char): (parts: seq<string>)
    ensures |parts| >= 1
    ensures forall i :: 0 <= i < |parts| ==> sep !in parts[i]
  {
    if s == [] then [""]
    else
      var rest := Split(s[1..], sep);
      if s[0] == sep then [""] + rest
      else [[s[0]] + rest[0]] + rest[1..]
  }

  /** `sep.join(parts)`. */
  function Join(parts: seq<string>, sep: string): string
  {
    if |parts| == 0 then ""
    else if |parts| == 1 then parts[0]
    else parts[0] + sep + Join(parts[1..], sep)
  }

  /** The empty string is a left unit of concatenation. */
  lemma EmptyLeft(x: string)
    ensures "" + x == x
  {
  }

  /** Concatenation regroups freely. */
  lemma Assoc<T>(a: seq<T>, b: seq<T>, c: seq<T>)
    ensures (a + b) + c == a + (b + c)
  {
  }

  /** Joining the pieces of a split with the separator gives back the string. */
  lemma {:induction false} JoinSplit(s: string, sep: char)
    ensures Join(Split(s, sep), [sep]) == s
  {
    if s != [] {
      var rest := Split(s[1..], sep);
      JoinSplit(s[1..], sep);
      if s[0] == sep {
        assert Split(s, sep) == [""] + rest;
        assert ([""] + rest)[1..] == rest;
        assert s == [sep] + s[1..];
      } else if |rest| == 1 {
        assert Split(s, sep) == [[s[0]] + rest[0]];
        assert s == [s[0]] + s[1..];
      } else {
        var parts := [[s[0]] + rest[0]] + rest[1..];
        assert Split(s, sep) == parts;
        assert parts[1..] == rest[1..];
        assert Join(rest, [sep]) == rest[0] + [sep] + Join(rest[1..], [sep]);
        assert s == [s[0]] + s[1..];
      }
    }
  }

  /** Splitting the join of separator-free pieces gives back the pieces. */
  lemma {:induction false} SplitJoin(parts: seq<string>, sep: char)
    requires |parts| >= 1
    requires forall i :: 0 <= i < |parts| ==> sep !in parts[i]
    ensures Split(Join(parts, [sep]), sep) == parts
  {
    if |parts| == 1 {
      SplitPlain(parts[0], sep);
    } else {
      SplitJoin(parts[1..], sep);
      SplitAfterPlain(parts[0], Join(parts[1..], [sep]), sep);
      assert [parts[0]] + parts[1..] == parts;
    }
  }

  /** A string without the separator splits into itself. */
  lemma {:induction false} SplitPlain(s: string, sep: char)
    requires sep !in s
    ensures Split(s, sep) == [s]
  {
    if s != [] {
      assert s[1..] <= s[1..];
      assert forall c :: c in s[1..] ==> c in s;
      SplitPlain(s[1..], sep);
      assert s == [s[0]] + s[1..];
    }
  }

  /** Splitting `a + [sep] + b`, where `a` has no separator, yields `a` and
      then the pieces of `b`. */
  lemma {:induction false} SplitAfterPlain(a: string, b: string, sep: char)
    requires sep !in a
    ensures Split(a + [sep] + b, sep) == [a] + Split(b, sep)
  {
    var s := a + [sep] + b;
    if a == [] {
      assert s == [sep] + b;
      assert s[1..] == b;
    } else {
      assert forall c :: c in a[1..] ==> c in a;
      SplitAfterPlain(a[1..], b, sep);
      assert s[1..] == a[1..] + [sep] + b;
      assert s[0] == a[0];
      var rest := Split(s[1..], sep);
      assert rest == [a[1..]] + Split(b, sep);
      assert [a[0]] + a[1..] == a;
    }
  }

  /** Every character of a piece of `parts` occurs in their join. */
  lemma {:induction false} JoinContains(parts: seq<string>, sep: string, i: nat, c: char)
    requires i < |parts| && c in parts[i]
    ensures c in Join(parts, sep)
  {
    if |parts| > 1 && i > 0 {
      JoinContains(parts[1..], sep, i - 1, c);
    }
  }

  /** The characters at which `str.splitlines` ends a line. */
  predicate IsLineBreak(c: char)
  {
    c == '\n' || c == '\r' || c == '\U{0B}' || c == '\U{0C}' || c == '\U{1C}' ||
    c == '\U{1D}' || c == '\U{1E}' || c == '\U{85}' || c == '\U{2028}' || c == '\U{2029}'
  }

  predicate NoLineBreaks(s: string)
  {
    forall c :: c in s ==> !IsLineBreak(c)
  }

  /** The index of the first line break in `s`, or `|s|` when there is none. */
  function LineEnd(s: string): (i: nat)
    ensures i <= |s|
    ensures i < |s| ==> IsLineBreak(s[i])
    ensures forall j :: 0 <= j < i ==> !IsLineBreak(s[j])
  {
    if s == [] || IsLineBreak(s[0]) then 0 else 1 + LineEnd(s[1..])
  }

  /** `s.splitlines()`: the text between line breaks, where `\r\n` counts as
      one break and a break at the very end starts no further line. */
  function SplitLines(s: string): seq<string>
    decreases |s|
  {
    if s == [] then []
    else
      var i := LineEnd(s);
      if i == |s| then [s]
      else
        var next := if s[i] == '\r' && i + 1 < |s| && s[i + 1] == '\n' then i + 2 else i + 1;
        [s[..i]] + SplitLines(s[next..])
  }

  /** Lines that are non-empty and free of line breaks survive a
      `"\n".join` followed by `splitlines()` unchanged. */
  lemma {:induction false} SplitLinesJoin(lines: seq<string>)
    requires forall k :: 0 <= k < |lines| ==> lines[k] != "" && NoLineBreaks(lines[k])
    ensures SplitLines(Join(lines, "\n")) == lines
  {
    if |lines| == 1 {
      var l := lines[0];
      assert forall j :: 0 <= j < |l| ==> l[j] in l;
    } else if |lines| > 1 {
      var l := lines[0];
      var rest := Join(lines[1..], "\n");
      var s := l + "\n" + rest;
      assert Join(lines, "\n") == s;
      var i := LineEnd(s);
      assert s[|l|] == '\n';
      assert forall j :: 0 <= j < |l| ==> s[j] == l[j] && l[j] in l;
      assert i == |l|;
      assert s[..i] == l;
      assert s[i + 1..] == rest;
      SplitLinesJoin(lines[1..]);
      assert [l] + lines[1..] == lines;
    }
  }

  /** Python's `a < b` on `str`: the first differing code point decides, and
      a proper prefix comes first. */
  predicate Less(a: string, b: string)
  {
    |b| > 0 && (|a| == 0 || a[0] < b[0] || (a[0] == b[0] && Less(a[1..], b[1..])))
  }

  lemma {:induction false} LessIrreflexive(a: string)
    ensures !Less(a, a)
  {
    if |a| > 0 {
      LessIrreflexive(a[1..]);
    }
  }

  lemma {:induction false} LessAsymmetric(a: string, b: string)
    ensures !(Less(a, b) && Less(b, a))
  {
    if |a| > 0 && |b| > 0 && a[0] == b[0] {
      LessAsymmetric(a[1..], b[1..]);
    }
  }

  lemma {:induction false} LessTransitive(a: string, b: string, c: string)
    requires Less(a, b) && Less(b, c)
    ensures Less(a, c)
  {
    if |a| > 0 && a[0] == b[0] && b[0] == c[0] {
      LessTransitive(a[1..], b[1..], c[1..]);
    }
  }

  lemma {:induction false} LessTotal(a: string, b: string)
    ensures a == b || Less(a, b) || Less(b, a)
  {
    if |a| > 0 && |b| > 0 && a[0] == b[0] {
      LessTotal(a[1..], b[1..]);
      if a[1..] == b[1..] {
        assert a == [a[0]] + a[1..] && b == [b[0]] + b[1..];
      }
    }
  }

  /** Ascending, as `sorted` leaves a list of strings. */
  predicate Sorted(s: seq<string>)
  {
    forall i, j :: 0 <= i < j < |s| ==> !Less(s[j], s[i])
  }

  /** Strictly ascending: sorted and without repetitions. */
  predicate StrictlySorted(s: seq<string>)
  {
    forall i, j :: 0 <= i < j < |s| ==> Less(s[i], s[j])
  }

  predicate IsLeast(m: string, b: multiset<string>)
  {
    m in b && forall y :: y in b ==> !Less(y, m)
  }

  lemma {:induction false} LeastExists(b: multiset<string>)
    requires |b| > 0
    ensures exists m :: IsLeast(m, b)
    decreases |b|
  {
    var x :| x in b;
    var rest := b - multiset{x};
    assert b == rest + multiset{x};
    if |rest| == 0 {
      LessIrreflexive(x);
      assert forall y :: y in b ==> y == x;
      assert IsLeast(x, b);
    } else {
      LeastExists(rest);
      var m :| IsLeast(m, rest);
      if Less(x, m) {
        forall y | y in b
          ensures !Less(y, x)
        {
          if y == x {
            LessIrreflexive(x);
          } else {
            assert y in rest;
            if Less(y, x) {
              LessTransitive(y, x, m);
            }
          }
        }
        assert IsLeast(x, b);
      } else {
        assert forall y :: y in b ==> y == x || y in rest;
        assert IsLeast(m, b);
      }
    }
  }

  lemma LeastUnique(b: multiset<string>)
    ensures forall m1, m2 :: IsLeast(m1, b) && IsLeast(m2, b) ==> m1 == m2
  {
    forall m1, m2 | IsLeast(m1, b) && IsLeast(m2, b)
      ensures m1 == m2
    {
      LessTotal(m1, m2);
    }
  }

  /** `sorted(...)` on strings: the ascending arrangement of a bag, built by
      taking the least element first. */
  function SortedBag(b: multiset<string>): (r: seq<string>)
    ensures multiset(r) == b
    ensures Sorted(r)
    decreases |b|
  {
    if |b| == 0 then []
    else
      LeastExists(b);
      LeastUnique(b);
      var m :| m in b && IsLeast(m, b);
      var rest := SortedBag(b - multiset{m});
      LeastThenSorted(m, rest, b);
      [m] + rest
  }

  lemma LeastThenSorted(m: string, rest: seq<string>, b: multiset<string>)
    requires IsLeast(m, b) && Sorted(rest) && multiset(rest) == b - multiset{m}
    ensures Sorted([m] + rest) && multiset([m] + rest) == b
  {
    var r := [m] + rest;
    forall i, j | 0 <= i < j < |r|
      ensures !Less(r[j], r[i])
    {
      assert r[j] == rest[j - 1];
      assert rest[j - 1] in multiset(rest);
      if i > 0 {
        assert r[i] == rest[i - 1];
      }
    }
    assert multiset(r) == multiset{m} + multiset(rest);
  }

  /** A sorted arrangement of a bag is unique, so `SortedBag` agrees with
      whatever algorithm `sorted` uses. */
  lemma {:induction false} SortedUnique(a: seq<string>, b: seq<string>)
    requires Sorted(a) && Sorted(b) && multiset(a) == multiset(b)
    ensures a == b
  {
    if |a| > 0 {
      assert a[0] in multiset(b);
      assert |b| > 0;
      LeastOfSorted(a);
      LeastOfSorted(b);
      LeastUnique(multiset(a));
      assert a[0] == b[0];
      assert a == [a[0]] + a[1..] && b == [b[0]] + b[1..];
      assert multiset(a) == multiset{a[0]} + multiset(a[1..]);
      assert multiset(b) == multiset{b[0]} + multiset(b[1..]);
      assert multiset(a[1..]) == multiset(a) - multiset{a[0]};
      assert multiset(b[1..]) == multiset(b) - multiset{b[0]};
      SortedUnique(a[1..], b[1..]);
    } else {
      assert |multiset(b)| == 0;
    }
  }

  lemma LeastOfSorted(s: seq<string>)
    requires Sorted(s) && |s| > 0
    ensures IsLeast(s[0], multiset(s))
  {
    forall y | y in multiset(s)
      ensures !Less(y, s[0])
    {
      var j :| 0 <= j < |s| && s[j] == y;
      if j == 0 {
        LessIrreflexive(y);
      }
    }
  }

  /** `sorted(list(keys))` for the keys of one dictionary: strictly ascending
      and holding exactly the keys. */
  function SortedNames(s: set<string>): (r: seq<string>)
    ensures StrictlySorted(r)
    ensures forall x :: x in r <==> x in s
    ensures |r| == |s|
  {
    var r := SortedBag(multiset(s));
    assert forall x :: x in r <==> x in s by {
      forall x ensures x in r <==> x in s {
        assert x in r <==> x in multiset(r);
      }
    }
    SetBagDistinct(r, s);
    forall i, j | 0 <= i < j < |r|
      ensures Less(r[i], r[j])
    {
      LessTotal(r[i], r[j]);
    }
    DistinctCardinality(r);
    assert (set x | x in r) == s;
    r
  }

  predicate Distinct<T(==)>(s: seq<T>)
  {
    forall i, j :: 0 <= i < j < |s| ==> s[i] != s[j]
  }

  lemma {:induction false} SetBagDistinct(r: seq<string>, s: set<string>)
    requires multiset(r) == multiset(s)
    ensures Distinct(r)
  {
    if |r| > 0 {
      var x := r[0];
      assert r == [x] + r[1..];
      assert multiset(r)[x] == 1 + multiset(r[1..])[x];
      assert multiset(s)[x] == 1;
      assert x !in r[1..];
      var s' := s - {x};
      assert multiset(r[1..]) == multiset(r) - multiset{x};
      assert multiset(s') == multiset(s) - multiset{x};
      SetBagDistinct(r[1..], s');
      forall i, j | 0 <= i < j < |r|
        ensures r[i] != r[j]
      {
        if i > 0 {
          assert r[i] == r[1..][i - 1] && r[j] == r[1..][j - 1];
        } else {
          assert r[j] in r[1..];
        }
      }
    }
  }

  /** A sequence without repetitions has as many elements as its set. */
  lemma {:induction false} DistinctCardinality<T>(s: seq<T>)
    requires Distinct(s)
    ensures |set x | x in s| == |s|
  {
    if |s| > 0 {
      var tail := s[1..];
      assert Distinct(tail) by {
        forall i, j | 0 <= i < j < |tail|
          ensures tail[i] != tail[j]
        {
          assert tail[i] == s[i + 1] && tail[j] == s[j + 1];
        }
      }
      DistinctCardinality(tail);
      assert s[0] !in tail by {
        forall k | 0 <= k < |tail|
          ensures tail[k] != s[0]
        {
          assert tail[k] == s[k + 1];
        }
      }
      assert (set x | x in s) == (set x | x in tail) + {s[0]} by {
        assert s == [s[0]] + tail;
      }
    }
  }
}
