/** The parts of Python's `str` and `os.path` (POSIX) semantics that the
    pipeline relies on: code-point lexicographic comparison and `sorted()`,
    `str.strip()`, `os.path.basename` and two-argument `os.path.join`. */
module PyText {

  // ---------------------------------------------------------------------
  // Lexicographic order of Python strings (`a < b` on `str`)
  // ---------------------------------------------------------------------

  /** `a < b` for Python strings: the first differing code point decides,
      and a proper prefix is smaller. */
  predicate LexLt(a: string, b: string): (r: bool)
    ensures r ==> a != b
    decreases |a|
  {
    |b| > 0 && (|a| == 0 || a[0] < b[0] || (a[0] == b[0] && LexLt(a[1..], b[1..])))
  }

  /** `a <= b` for Python strings. */
  predicate LexLe(a: string, b: string)
  {
    a == b || LexLt(a, b)
  }

  lemma {:induction false} LexLtAsymmetric(a: string, b: string)
    requires LexLt(a, b)
    ensures !LexLt(b, a)
  {
    if |a| > 0 && a[0] == b[0] {
      LexLtAsymmetric(a[1..], b[1..]);
    }
  }

  /** Any two different strings are ordered one way or the other. */
  lemma {:induction false} LexTotal(a: string, b: string)
    requires a != b
    ensures LexLt(a, b) || LexLt(b, a)
  {
    if |a| > 0 && |b| > 0 && a[0] == b[0] {
      assert a == [a[0]] + a[1..] && b == [b[0]] + b[1..];
      LexTotal(a[1..], b[1..]);
    }
  }

  lemma LexLeOrGreater(a: string, b: string)
    ensures LexLe(a, b) || LexLt(b, a)
  {
    if a != b {
      LexTotal(a, b);
    }
  }

  lemma LexLeAntisymmetric(a: string, b: string)
    requires LexLe(a, b) && LexLe(b, a)
    ensures a == b
  {
    if a != b {
      LexLtAsymmetric(a, b);
    }
  }

  /** A shared prefix does not affect the comparison. */
  lemma {:induction false} LexCommonPrefix(p: string, a: string, b: string)
    ensures LexLt(p + a, p + b) <==> LexLt(a, b)
  {
    if |p| > 0 {
      assert (p + a)[1..] == p[1..] + a;
      assert (p + b)[1..] == p[1..] + b;
      LexCommonPrefix(p[1..], a, b);
    } else {
      assert p + a == a && p + b == b;
    }
  }

  /** Between strings of equal length, whatever follows does not affect
      the comparison. */
  lemma {:induction false} LexEqualLengthExtend(a: string, b: string, x: string, y: string)
    requires |a| == |b| && LexLt(a, b)
    ensures LexLt(a + x, b + y)
  {
    assert (a + x)[0] == a[0] && (b + y)[0] == b[0];
    if a[0] == b[0] && !(a[0] < b[0]) {
      assert (a + x)[1..] == a[1..] + x;
      assert (b + y)[1..] == b[1..] + y;
      LexEqualLengthExtend(a[1..], b[1..], x, y);
    }
  }

  // ---------------------------------------------------------------------
  // sorted() on a list of strings
  // ---------------------------------------------------------------------

  predicate Sorted(s: seq<string>)
  {
    forall i, j :: 0 <= i < j < |s| ==> LexLe(s[i], s[j])
  }

  /** Places `x` into an already sorted list. */
  function Insert(x: string, s: seq<string>): (r: seq<string>)
    requires Sorted(s)
    ensures Sorted(r)
    ensures multiset(r) == multiset(s) + multiset{x}
  {
    if s == [] then [x]
    else if LexLe(x, s[0]) then
      TransitiveHead(x, s);
      [x] + s
    else
      var t := Insert(x, s[1..]);
      assert s == [s[0]] + s[1..];
      MultisetTail(s);
      LexLeOrGreater(x, s[0]);
      HeadBelowAll(s[0], t, x, s[1..]);
      [s[0]] + t
  }

  lemma MultisetTail(s: seq<string>)
    requires s != []
    ensures multiset(s) == multiset{s[0]} + multiset(s[1..])
    ensures multiset(s[1..]) == multiset(s) - multiset{s[0]}
  {
    assert s == [s[0]] + s[1..];
  }

  /** A sorted list stays sorted when an element no greater than all of its
      elements is put in front. */
  lemma HeadBelowAll(h: string, t: seq<string>, x: string, rest: seq<string>)
    requires Sorted(t) && Sorted([h] + rest)
    requires multiset(t) == multiset(rest) + multiset{x}
    requires LexLe(h, x)
    ensures Sorted([h] + t)
  {
    forall j | 0 <= j < |t|
      ensures LexLe(h, t[j])
    {
      assert t[j] in multiset(t);
      if t[j] != x {
        assert t[j] in multiset(rest);
        var i :| 0 <= i < |rest| && rest[i] == t[j];
        assert ([h] + rest)[0] == h && ([h] + rest)[i + 1] == rest[i];
      }
    }
    forall i, j | 0 <= i < j < |[h] + t|
      ensures LexLe(([h] + t)[i], ([h] + t)[j])
    {
      if i > 0 {
        assert ([h] + t)[i] == t[i - 1] && ([h] + t)[j] == t[j - 1];
      }
    }
  }

  lemma TransitiveHead(x: string, s: seq<string>)
    requires Sorted(s) && s != [] && LexLe(x, s[0])
    ensures forall j :: 0 <= j < |s| ==> LexLe(x, s[j])
  {
    forall j | 0 <= j < |s|
      ensures LexLe(x, s[j])
    {
      LexLeTransitive(x, s[0], s[j]);
    }
  }

  lemma {:induction false} LexLtTransitive(a: string, b: string, c: string)
    requires LexLt(a, b) && LexLt(b, c)
    ensures LexLt(a, c)
  {
    if |a| > 0 && a[0] == b[0] && b[0] == c[0] {
      LexLtTransitive(a[1..], b[1..], c[1..]);
    }
  }

  lemma LexLeTransitive(a: string, b: string, c: string)
    requires LexLe(a, b) && LexLe(b, c)
    ensures LexLe(a, c)
  {
    if a != b && b != c {
      LexLtTransitive(a, b, c);
    }
  }

  /** Python's `sorted()` on a list of strings: the result is in ascending
      order and holds exactly the input's elements. */
  function SortStrings(s: seq<string>): (r: seq<string>)
    ensures Sorted(r)
    ensures multiset(r) == multiset(s)
  {
    if s == [] then []
    else
      assert s == s[..|s| - 1] + [s[|s| - 1]];
      Insert(s[|s| - 1], SortStrings(s[..|s| - 1]))
  }

  /** There is only one sorted arrangement of a multiset of strings, so
      `sorted()` is determined by the elements alone. */
  lemma {:induction false} SortedUnique(a: seq<string>, b: seq<string>)
    requires Sorted(a) && Sorted(b)
    requires multiset(a) == multiset(b)
    ensures a == b
  {
    if a == [] {
      assert |multiset(b)| == 0;
    } else {
      assert a[0] in multiset(b);
      var i :| 0 <= i < |b| && b[i] == a[0];
      assert b[0] in multiset(a);
      var j :| 0 <= j < |a| && a[j] == b[0];
      assert LexLe(b[0], a[0]) && LexLe(a[0], b[0]);
      LexLeAntisymmetric(a[0], b[0]);
      MultisetTail(a);
      MultisetTail(b);
      assert multiset(a[1..]) == multiset(b[1..]);
      SortedTail(a);
      SortedTail(b);
      SortedUnique(a[1..], b[1..]);
      assert a == [a[0]] + a[1..] && b == [b[0]] + b[1..];
    }
  }

  lemma SortedTail(s: seq<string>)
    requires s != [] && Sorted(s)
    ensures Sorted(s[1..])
  {
    forall i, j | 0 <= i < j < |s| - 1
      ensures LexLe(s[1..][i], s[1..][j])
    {
      assert s[1..][i] == s[i + 1] && s[1..][j] == s[j + 1];
    }
  }

  /** Sorting a list that is already strictly ascending leaves it as it is. */
  lemma SortOfAscending(listing: seq<string>, ascending: seq<string>)
    requires forall i, j :: 0 <= i < j < |ascending| ==> LexLt(ascending[i], ascending[j])
    requires multiset(listing) == multiset(ascending)
    ensures SortStrings(listing) == ascending
  {
    SortedUnique(SortStrings(listing), ascending);
  }

  // ---------------------------------------------------------------------
  // str.strip()
  // ---------------------------------------------------------------------

  /** The characters `str.isspace()` accepts, which `str.strip()` with no
      argument removes. */
  predicate IsSpace(c: char)
  {
    || '\U{0009}' <= c <= '\U{000D}'
    || '\U{001C}' <= c <= '\U{0020}'
    || c == '\U{0085}' || c == '\U{00A0}' || c == '\U{1680}'
    || '\U{2000}' <= c <= '\U{200A}'
    || c == '\U{2028}' || c == '\U{2029}' || c == '\U{202F}' || c == '\U{205F}' || c == '\U{3000}'
  }

  /** `s.lstrip()`: what is left once the leading whitespace is gone. */
  function StripLeft(s: string): (r: string)
    ensures |r| <= |s|
    ensures forall i :: 0 <= i < |s| - |r| ==> IsSpace(s[i])
    ensures r == [] || !IsSpace(r[0])
  {
    if s != [] && IsSpace(s[0]) then StripLeft(s[1..]) else s
  }

  /** `lstrip()` keeps a suffix of the string. */
  lemma {:induction false} StripLeftSuffix(s: string)
    ensures StripLeft(s) == s[|s| - |StripLeft(s)|..]
  {
    if s != [] && IsSpace(s[0]) {
      StripLeftSuffix(s[1..]);
    }
  }

  /** `s.rstrip()`: what is left once the trailing whitespace is gone. */
  function StripRight(s: string): (r: string)
    ensures |r| <= |s|
    ensures forall i :: |r| <= i < |s| ==> IsSpace(s[i])
    ensures r == [] || !IsSpace(r[|r| - 1])
  {
    if s != [] && IsSpace(s[|s| - 1]) then StripRight(s[..|s| - 1]) else s
  }

  /** `rstrip()` keeps a prefix of the string. */
  lemma {:induction false} StripRightPrefix(s: string)
    ensures StripRight(s) == s[..|StripRight(s)|]
  {
    if s != [] && IsSpace(s[|s| - 1]) {
      StripRightPrefix(s[..|s| - 1]);
    }
  }

  /** `s.strip()`. */
  function Strip(s: string): (r: string)
    ensures |r| <= |s|
    ensures r == [] || (!IsSpace(r[0]) && !IsSpace(r[|r| - 1]))
  {
    StripRightPrefix(StripLeft(s));
    StripRight(StripLeft(s))
  }

  /** What `strip()` keeps is a contiguous piece of `s` with no whitespace
      at either end, and what it removes before it (the first `lo`
      characters) and after it is all whitespace. */
  lemma StripShape(s: string)
    ensures var r := Strip(s);
      var lo := |s| - |StripLeft(s)|;
      && lo + |r| <= |s|
      && r == s[lo..lo + |r|]
      && (forall i :: 0 <= i < lo ==> IsSpace(s[i]))
      && (forall i :: lo + |r| <= i < |s| ==> IsSpace(s[i]))
      && (r == [] || (!IsSpace(r[0]) && !IsSpace(r[|r| - 1])))
  {
    var l := StripLeft(s);
    var r := StripRight(l);
    var lo := |s| - |l|;
    assert r == s[lo..lo + |r|] by {
      StripLeftSuffix(s);
      StripRightPrefix(l);
      assert s[lo..][..|r|] == s[lo..lo + |r|];
    }
    forall i | lo + |r| <= i < |s|
      ensures IsSpace(s[i])
    {
      StripLeftSuffix(s);
      assert s[i] == l[i - lo];
    }
  }

  /** `strip()` adds no character that was not there. */
  lemma StripKeepsOut(s: string, c: char)
    requires c !in s
    ensures c !in Strip(s)
  {
    StripShape(s);
    var lo := |s| - |StripLeft(s)|;
    forall i | 0 <= i < |Strip(s)|
      ensures Strip(s)[i] != c
    {
      assert Strip(s)[i] == s[lo + i];
    }
  }

  /** A string with no whitespace at either end is its own `strip()`. */
  lemma StripNoSpaceEnds(s: string)
    requires s != [] && !IsSpace(s[0]) && !IsSpace(s[|s| - 1])
    ensures Strip(s) == s
  {
  }

  /** `strip()` is idempotent. */
  lemma StripIdempotent(s: string)
    ensures Strip(Strip(s)) == Strip(s)
  {
    StripShape(s);
    if Strip(s) != [] {
      StripNoSpaceEnds(Strip(s));
    }
  }

  // ---------------------------------------------------------------------
  // os.path.basename and os.path.join (POSIX)
  // ---------------------------------------------------------------------

  /** `os.path.basename(p)` (equally `os.path.split(p)[1]`): everything after
      the last '/', or all of `p` when it has none. */
  function Basename(p: string): (r: string)
    ensures '/' !in r
    ensures |r| <= |p|
    ensures |r| < |p| ==> p[|p| - |r| - 1] == '/'
  {
    if p == [] || p[|p| - 1] == '/' then []
    else
      assert p == p[..|p| - 1] + [p[|p| - 1]];
      Basename(p[..|p| - 1]) + [p[|p| - 1]]
  }

  /** The basename is the tail of the path. */
  lemma {:induction false} BasenameSuffix(p: string)
    ensures Basename(p) == p[|p| - |Basename(p)|..]
  {
    if p != [] && p[|p| - 1] != '/' {
      BasenameSuffix(p[..|p| - 1]);
    }
  }

  /** The component after a final separator is recovered whatever the
      directory part before it is. */
  lemma BasenameAfterSlash(dir: string, name: string)
    requires '/' !in name
    requires |dir| == 0 || dir[|dir| - 1] == '/'
    ensures Basename(dir + name) == name
  {
    var p := dir + name;
    var r := Basename(p);
    assert |r| >= |name| by {
      if |r| < |name| {
        assert false;
      }
    }
    assert |r| <= |name| by {
      if |r| > |name| {
        BasenameSuffix(p);
        SuffixHasNoSlash(p, r, |dir| - 1);
        assert false;
      }
    }
    BasenameSuffix(p);
    assert r == p[|dir|..];
  }

  lemma SuffixHasNoSlash(p: string, r: string, k: int)
    requires |r| <= |p| && r == p[|p| - |r|..] && '/' !in r
    requires |p| - |r| <= k < |p|
    ensures p[k] != '/'
  {
    assert p[k] == r[k - (|p| - |r|)];
  }

  /** Two-argument `os.path.join(a, b)`: an absolute `b` replaces `a`;
      otherwise a '/' is inserted unless `a` is empty or already ends in one. */
  function Join(a: string, b: string): (r: string)
    ensures |b| <= |r| <= |a| + 1 + |b|
  {
    if |b| > 0 && b[0] == '/' then b
    else if a == [] || a[|a| - 1] == '/' then a + b
    else a + "/" + b
  }

  /** The joined path ends with the whole name and, unless the name is
      absolute, begins with the folder. */
  lemma JoinSuffix(a: string, b: string)
    ensures var r := Join(a, b);
      && r[|r| - |b|..] == b
      && (b == [] || b[0] != '/' ==> r[..|a|] == a)
  {
  }

  /** Joining a name that holds no '/' to any folder gives a path whose
      basename is that name. */
  lemma BasenameOfJoin(folder: string, name: string)
    requires name != [] && '/' !in name
    ensures Basename(Join(folder, name)) == name
  {
    if folder == [] || folder[|folder| - 1] == '/' {
      BasenameAfterSlash(folder, name);
    } else {
      assert Join(folder, name) == (folder + "/") + name;
      BasenameAfterSlash(folder + "/", name);
    }
  }

  /** Within one folder, `join` keeps relative names apart. */
  lemma JoinInjective(folder: string, a: string, b: string)
    requires a != [] && a[0] != '/' && b != [] && b[0] != '/'
    ensures Join(folder, a) == Join(folder, b) <==> a == b
  {
    if Join(folder, a) == Join(folder, b) {
      var p := if folder == [] || folder[|folder| - 1] == '/' then folder else folder + "/";
      assert Join(folder, a) == p + a && Join(folder, b) == p + b;
      assert a == (p + a)[|p|..] && b == (p + b)[|p|..];
    }
  }

  /** Within one folder, `join` keeps the order of relative names. */
  lemma JoinOrder(folder: string, a: string, b: string)
    requires a != [] && a[0] != '/' && b != [] && b[0] != '/'
    ensures LexLt(Join(folder, a), Join(folder, b)) <==> LexLt(a, b)
  {
    var p := if folder == [] || folder[|folder| - 1] == '/' then folder else folder + "/";
    assert Join(folder, a) == p + a && Join(folder, b) == p + b;
    LexCommonPrefix(p, a, b);
  }
}
