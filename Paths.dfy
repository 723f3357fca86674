/** Windows path handling (`ntpath`) as the pipeline uses it: joining a
    directory and a name, the last path component, and the split into a
    root and an extension. Drive prefixes such as `C:` are not treated
    specially; every path the pipeline builds starts from a directory. */
module Paths {
  import opened Text

  type Path = string

  predicate IsSep(c: char) { c == '\\' || c == '/' }

  /** `os.path.join(dir, name)`, taking `name` as relative: a name that starts
      with a separator is appended like any other, where `ntpath.join` would
      drop `dir`. */
  function Join(dir: Path, name: string): (p: Path)
    ensures |p| >= |dir| + |name| && p[|p| - |name|..] == name && p[..|dir|] == dir
  {
    if dir == [] || IsSep(dir[|dir| - 1]) then dir + name else dir + "\\" + name
  }

  /** Joining under one directory never maps two names to one path. */
  lemma JoinInjective(dir: Path, a: string, b: string)
    ensures Join(dir, a) == Join(dir, b) ==> a == b
  {
    if Join(dir, a) == Join(dir, b) {
      var p := Join(dir, a);
      assert |a| == |b|;
      assert a == p[|p| - |a|..];
    }
  }

  /** Index of the last character satisfying the separator test, or -1. */
  function LastSep(p: Path): (i: int)
    ensures -1 <= i < |p|
    ensures i >= 0 ==> IsSep(p[i])
    ensures forall k :: i < k < |p| ==> !IsSep(p[k])
  {
    if p == [] then -1 else if IsSep(p[|p| - 1]) then |p| - 1 else LastSep(p[..|p| - 1])
  }

  /** Index of the last `.`, or -1. */
  function LastDot(p: Path): (i: int)
    ensures -1 <= i < |p|
    ensures i >= 0 ==> p[i] == '.'
    ensures forall k :: i < k < |p| ==> p[k] != '.'
  {
    if p == [] then -1 else if p[|p| - 1] == '.' then |p| - 1 else LastDot(p[..|p| - 1])
  }

  /** Every character is a dot. */
  predicate AllDots(s: string)
  {
    s == [] || (s[0] == '.' && AllDots(s[1..]))
  }

  lemma {:induction false} AllDotsIff(s: string)
    ensures AllDots(s) <==> forall k :: 0 <= k < |s| ==> s[k] == '.'
  {
    if s != [] {
      AllDotsIff(s[1..]);
      assert forall k :: 1 <= k < |s| ==> s[k] == s[1..][k - 1];
    }
  }

  /** `os.path.splitext(p)`: the extension starts at the last dot of the
      last component, unless everything before that dot in the component is
      dots (a name such as `.profile` has no extension). */
  function SplitExt(p: Path): (r: (string, string))
    ensures r.1 != [] ==> r.1[0] == '.' && forall k :: 0 < k < |r.1| ==> r.1[k] != '.' && !IsSep(r.1[k])
  {
    var sepIndex := LastSep(p);
    var dotIndex := LastDot(p);
    if dotIndex > sepIndex && !AllDots(p[sepIndex + 1..dotIndex]) then
      (p[..dotIndex], p[dotIndex..])
    else
      (p, "")
  }

  /** The root and the extension put back together give the path. */
  lemma SplitExtRejoins(p: Path)
    ensures SplitExt(p).0 + SplitExt(p).1 == p
  {
  }

  /** `os.path.basename(p)`: the text after the last separator. */
  function Basename(p: Path): (b: string)
    ensures |b| <= |p| && b == p[|p| - |b|..]
    ensures forall k :: 0 <= k < |b| ==> !IsSep(b[k])
  {
    p[LastSep(p) + 1..]
  }

  /** `os.path.splitext(os.path.basename(p))[0]`, the key by which an HTML
      invoice is paired with its XML. */
  function Stem(p: Path): string
  {
    SplitExt(Basename(p)).0
  }

  /** `os.path.splitext(name)[1].lower()`, as the file search tests it. */
  function LowerExt(name: string): string
  {
    LowerStr(SplitExt(name).1)
  }

  predicate NoSep(s: string) { forall k :: 0 <= k < |s| ==> !IsSep(s[k]) }

  lemma {:induction false} LastSepAppend(x: Path, y: string)
    requires NoSep(y)
    ensures LastSep(x + y) == LastSep(x)
  {
    if y != [] {
      var y' := y[..|y| - 1];
      assert (x + y)[..|x + y| - 1] == x + y';
      LastSepAppend(x, y');
    } else {
      assert x + y == x;
    }
  }

  lemma {:induction false} LastDotAppend(x: Path, y: string)
    requires forall k :: 0 <= k < |y| ==> y[k] != '.'
    ensures LastDot(x + y) == LastDot(x)
  {
    if y != [] {
      var y' := y[..|y| - 1];
      assert (x + y)[..|x + y| - 1] == x + y';
      LastDotAppend(x, y');
    } else {
      assert x + y == x;
    }
  }

  /** The last component of a joined path is the joined name. */
  lemma BasenameOfJoin(dir: Path, name: string)
    requires NoSep(name)
    ensures Basename(Join(dir, name)) == name
  {
    var x := if dir == [] || IsSep(dir[|dir| - 1]) then dir else dir + "\\";
    assert Join(dir, name) == x + name;
    LastSepAppend(x, name);
    if x != [] {
      assert IsSep(x[|x| - 1]);
      assert x[..|x| - 1] + [x[|x| - 1]] == x;
    }
  }

  /** A file `stem + ext` in any directory has stem `stem`, where `ext` is a
      dot followed by no further dot, and `stem` is not made of dots only. */
  lemma StemOfJoin(dir: Path, stem: string, ext: string)
    requires NoSep(stem) && NoSep(ext)
    requires |ext| >= 1 && ext[0] == '.' && forall k :: 0 < k < |ext| ==> ext[k] != '.'
    requires exists k :: 0 <= k < |stem| && stem[k] != '.'
    ensures Stem(Join(dir, stem + ext)) == stem
  {
    assert NoSep(stem + ext);
    BasenameOfJoin(dir, stem + ext);
    SplitExtOfName(stem, ext);
  }

  lemma SplitExtOfName(stem: string, ext: string)
    requires NoSep(stem) && NoSep(ext)
    requires |ext| >= 1 && ext[0] == '.' && forall k :: 0 < k < |ext| ==> ext[k] != '.'
    requires exists k :: 0 <= k < |stem| && stem[k] != '.'
    ensures SplitExt(stem + ext) == (stem, ext)
  {
    var name := stem + ext;
    assert NoSep(name);
    NoSepLastSep(name);
    StemDot(stem, ext);
    assert name[0..|stem|] == stem;
    AllDotsIff(stem);
    assert name[..|stem|] == stem && name[|stem|..] == ext;
  }

  lemma NoSepLastSep(s: string)
    requires NoSep(s)
    ensures LastSep(s) == -1
  {
  }

  lemma StemDot(stem: string, ext: string)
    requires |ext| >= 1 && ext[0] == '.' && forall k :: 0 < k < |ext| ==> ext[k] != '.'
    ensures LastDot(stem + ext) == |stem|
  {
    assert stem + ext == (stem + ".") + ext[1..];
    LastDotAppend(stem + ".", ext[1..]);
    assert (stem + ".")[..|stem|] == stem;
  }
}
