/** Path handling behind `AdventureDoc.section_id`: the POSIX `os.path.split`
    (only the tail is used) and `os.path.splitext`, and their composition. */
module Paths {

  const Sep: char := '/'
  const ExtSep: char := '.'

  /** Index of the last occurrence of `c` in `s`, or -1 (Python's `rfind`). */
  function LastIndexOf(s: string, c: char): (r: int)
    ensures -1 <= r < |s|
  {
    if s == [] then -1
    else if s[|s| - 1] == c then |s| - 1
    else LastIndexOf(s[..|s| - 1], c)
  }

  /** `rfind` gives -1 exactly when `c` is absent, and otherwise a position
      holding `c` with no `c` after it. */
  lemma {:induction false} LastIndexOfSpec(s: string, c: char)
    ensures LastIndexOf(s, c) == -1 <==> c !in s
    ensures LastIndexOf(s, c) >= 0 ==>
              s[LastIndexOf(s, c)] == c && c !in s[LastIndexOf(s, c) + 1..]
  {
    if s != [] && s[|s| - 1] != c {
      var t := s[..|s| - 1];
      assert s == t + [s[|s| - 1]];
      LastIndexOfSpec(t, c);
      var r := LastIndexOf(t, c);
      if r >= 0 {
        assert s[r + 1..] == t[r + 1..] + [s[|s| - 1]];
      }
    }
  }

  /** Every occurrence of `c` lies at or before `LastIndexOf(s, c)`. */
  lemma {:induction false} AtMostLastIndex(s: string, c: char, k: int)
    ensures 0 <= k < |s| && s[k] == c ==> k <= LastIndexOf(s, c)
  {
    if s != [] && s[|s| - 1] != c && k < |s| - 1 {
      AtMostLastIndex(s[..|s| - 1], c, k);
    }
  }

  /** The tail that `os.path.split` returns: everything after the last separator. */
  function BaseName(p: string): string {
    p[LastIndexOf(p, Sep) + 1..]
  }

  /** The base name is the suffix after the last separator: it holds none
      itself, and it is the whole path or follows a separator. */
  lemma BaseNameSpec(p: string)
    ensures Sep !in BaseName(p)
    ensures |BaseName(p)| <= |p| && BaseName(p) == p[|p| - |BaseName(p)|..]
    ensures |BaseName(p)| == |p| || p[|p| - |BaseName(p)| - 1] == Sep
  {
    var b := BaseName(p);
    var i := LastIndexOf(p, Sep);
    LastIndexOfSpec(p, Sep);
    assert b == p[i + 1..];
    assert |p| - |b| == i + 1;
  }

  /** A base name has an extension when some dot follows a non-dot character. */
  ghost predicate DotAfterNonDot(b: string) {
    exists i, j :: 0 <= i < j < |b| && b[i] != ExtSep && b[j] == ExtSep
  }

  /** The leading-dots scan of `splitext`: walking from `lo` towards `hi`, is
      some character not a dot? */
  predicate NonDotIn(s: string, lo: int, hi: int)
    requires 0 <= lo <= hi <= |s|
    decreases hi - lo
  {
    lo < hi && (s[lo] != ExtSep || NonDotIn(s, lo + 1, hi))
  }

  /** The scan finds a non-dot exactly when `s[lo..hi]` holds one. */
  lemma {:induction false} NonDotInSpec(s: string, lo: int, hi: int)
    requires 0 <= lo <= hi <= |s|
    ensures NonDotIn(s, lo, hi) <==> exists k :: lo <= k < hi && s[k] != ExtSep
    decreases hi - lo
  {
    if lo < hi {
      NonDotInSpec(s, lo + 1, hi);
      if NonDotIn(s, lo + 1, hi) {
        var k :| lo + 1 <= k < hi && s[k] != ExtSep;
      }
    }
  }

  /** `os.path.splitext`: the extension runs from the last dot of the final
      path component, provided a non-dot character of that component precedes it. */
  function SplitExt(p: string): (string, string) {
    var sepIndex := LastIndexOf(p, Sep);
    var dotIndex := LastIndexOf(p, ExtSep);
    var cut := if dotIndex > sepIndex && NonDotIn(p, sepIndex + 1, dotIndex) then dotIndex else |p|;
    (p[..cut], p[cut..])
  }

  /** `splitext` cuts the path in two; the extension is empty exactly when no
      dot of the final component follows a non-dot character, and otherwise it
      starts at the last dot and stays inside the final component. */
  lemma SplitExtSpec(p: string)
    ensures SplitExt(p).0 + SplitExt(p).1 == p
    ensures SplitExt(p).1 != [] <==> DotAfterNonDot(BaseName(p))
    ensures SplitExt(p).1 != [] ==>
      var e := SplitExt(p).1; e[0] == ExtSep && ExtSep !in e[1..] && |e| < |BaseName(p)|
    ensures SplitExt(p).1 != [] ==> SplitExt(p).0 == p[..LastIndexOf(p, ExtSep)]
  {
    var sepIndex := LastIndexOf(p, Sep);
    var dotIndex := LastIndexOf(p, ExtSep);
    var found := dotIndex > sepIndex && NonDotIn(p, sepIndex + 1, dotIndex);
    var cut := if found then dotIndex else |p|;
    var r := SplitExt(p);
    assert r == (p[..cut], p[cut..]);
    assert r.0 + r.1 == p;
    if found {
      SplitAtDot(p);
      assert r.1 == p[dotIndex..];
    } else {
      NoDotAfterNonDot(p);
      assert r.1 == [];
    }
  }

  /** The case of `SplitExt` that finds an extension. */
  lemma SplitAtDot(p: string)
    requires LastIndexOf(p, ExtSep) > LastIndexOf(p, Sep)
    requires NonDotIn(p, LastIndexOf(p, Sep) + 1, LastIndexOf(p, ExtSep))
    ensures DotAfterNonDot(BaseName(p))
    ensures var e := p[LastIndexOf(p, ExtSep)..];
      e[0] == ExtSep && ExtSep !in e[1..] && |e| < |BaseName(p)|
  {
    var off, dot := LastIndexOf(p, Sep) + 1, LastIndexOf(p, ExtSep);
    var b := BaseName(p);
    LastIndexOfSpec(p, ExtSep);
    assert b == p[off..];
    NonDotInSpec(p, off, dot);
    var k :| off <= k < dot && p[k] != ExtSep;
    assert b[k - off] != ExtSep && b[dot - off] == ExtSep;
    assert p[dot..][1..] == p[dot + 1..];
  }

  /** The case of `SplitExt` that finds none. */
  lemma NoDotAfterNonDot(p: string)
    requires !(LastIndexOf(p, ExtSep) > LastIndexOf(p, Sep)
               && NonDotIn(p, LastIndexOf(p, Sep) + 1, LastIndexOf(p, ExtSep)))
    ensures !DotAfterNonDot(BaseName(p))
  {
    var off, dot := LastIndexOf(p, Sep) + 1, LastIndexOf(p, ExtSep);
    var b := BaseName(p);
    assert b == p[off..];
    if dot > off - 1 {
      NonDotInSpec(p, off, dot);
    }
    forall i, j | 0 <= i < j < |b| && b[i] != ExtSep
      ensures b[j] != ExtSep
    {
      assert p[off + j] == b[j];
      AtMostLastIndex(p, ExtSep, off + j);
      assert p[off + i] == b[i];
    }
  }

  /** `AdventureDoc.section_id`: the final path component without its extension. */
  function SectionId(path: string): string {
    SplitExt(BaseName(path)).0
  }

  /** A section id is the final path component, cut before its last dot
      when it has an extension, and so never holds a separator. */
  lemma SectionIdSpec(path: string)
    ensures Sep !in SectionId(path)
    ensures |SectionId(path)| <= |BaseName(path)|
    ensures SectionId(path) == BaseName(path)[..|SectionId(path)|]
    ensures SectionId(path) == BaseName(path) <==> !DotAfterNonDot(BaseName(path))
    ensures DotAfterNonDot(BaseName(path)) ==>
              SectionId(path) == BaseName(path)[..LastIndexOf(BaseName(path), ExtSep)]
  {
    var b := BaseName(path);
    var r := SplitExt(b);
    assert SectionId(path) == r.0;
    BaseNameSpec(path);
    assert BaseName(b) == b by {
      LastIndexOfSpec(b, Sep);
    }
    SplitExtSpec(b);
    assert b == r.0 + r.1;
    assert |r.0| <= |b|;
    assert r.0 == b[..|r.0|];
    assert r.0 == b <==> r.1 == [];
  }

  /** Leading directories never affect the base name. */
  lemma BaseNameIgnoresDirectories(dir: string, p: string)
    ensures BaseName(dir + [Sep] + p) == BaseName(p)
  {
    var q := dir + [Sep] + p;
    BaseNameSpec(q);
    BaseNameSpec(p);
    var b, c := BaseName(q), BaseName(p);
    assert q[|q| - |p|..] == p;
    AtMostLastIndex(q, Sep, |dir|);
    AtMostLastIndex(q, Sep, |q| - |c| - 1);
    AtMostLastIndex(p, Sep, |p| - |b| - 1);
    assert |b| <= |p|;
    assert b == p[|p| - |b|..];
  }

  /** Leading directories never affect a section's id. */
  lemma SectionIdIgnoresDirectories(dir: string, p: string)
    ensures SectionId(dir + [Sep] + p) == SectionId(p)
  {
    BaseNameIgnoresDirectories(dir, p);
  }

  /** A separator-free name `root.ext` whose root holds a non-dot character
      and whose extension holds no dot has section id `root`. */
  lemma SectionIdOfName(root: string, ext: string)
    requires Sep !in root && Sep !in ext && ExtSep !in ext
    requires exists k :: 0 <= k < |root| && root[k] != ExtSep
    ensures SectionId(root + [ExtSep] + ext) == root
  {
    var name := root + [ExtSep] + ext;
    assert Sep !in name;
    LastIndexOfSpec(name, Sep);
    assert BaseName(name) == name;
    var r := SplitExt(name);
    SplitExtSpec(name);
    var k :| 0 <= k < |root| && root[k] != ExtSep;
    assert name[k] != ExtSep && name[|root|] == ExtSep;
    assert DotAfterNonDot(name);
    assert r.1 != [];
  }

  /** A path `dir/root.ext`, with no dot in `ext` and a non-dot character in
      `root`, has section id `root`. */
  lemma SectionIdOfPath(path: string, dir: string, root: string, ext: string)
    requires path == dir + [Sep] + (root + [ExtSep] + ext)
    requires Sep !in root && Sep !in ext && ExtSep !in ext
    requires exists k :: 0 <= k < |root| && root[k] != ExtSep
    ensures SectionId(path) == root
  {
    SectionIdIgnoresDirectories(dir, root + [ExtSep] + ext);
    SectionIdOfName(root, ext);
  }

  /** The example from the docstring of `section_id`. */
  lemma SectionIdExample(path: string)
    requires path == "some/path/to/source/eaten-by-a-grue.md"
    ensures SectionId(path) == "eaten-by-a-grue"
  {
    var root := "eaten-by-a-grue";
    assert root[0] != ExtSep;
    SectionIdOfPath(path, "some/path/to/source", root, "md");
  }

  /** A name made only of dots after the last separator (a hidden file such as
      `.bashrc` has no dot after a non-dot) keeps its whole base name. */
  lemma HiddenFileKeepsName(rest: string)
    requires Sep !in rest && ExtSep !in rest
    ensures SectionId([ExtSep] + rest) == [ExtSep] + rest
  {
    var b := [ExtSep] + rest;
    assert Sep !in b;
    LastIndexOfSpec(b, Sep);
    assert BaseName(b) == b;
    SectionIdSpec(b);
    assert !DotAfterNonDot(b) by {
      forall i, j | 0 <= i < j < |b| && b[i] != ExtSep ensures b[j] != ExtSep {
        assert b[j] == rest[j - 1];
      }
    }
  }
}
