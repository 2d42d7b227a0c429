/** The two `os.path` functions the extractors use, as Python defines them
    for POSIX paths: `basename` and `splitext`. */
module PosixPath {
  import opened Common
  import opened PyStrings

  /** `RFindChar` is pinned down by where the last `c` is. */
  lemma RFindCharAt(p: string, c: char, i: int)
    requires -1 <= i < |p|
    requires i >= 0 ==> p[i] == c
    requires forall j :: i < j < |p| ==> p[j] != c
    ensures RFindChar(p, c) == i
  {
  }

  /** `os.path.basename(p)`: the text after the last `/`, which is the
      longest suffix of `p` without a `/`. */
  function Basename(p: string): (name: string)
    ensures '/' !in name
    ensures |name| <= |p| && p[|p| - |name|..] == name
    ensures |name| < |p| ==> p[|p| - |name| - 1] == '/'
  {
    p[RFindChar(p, '/') + 1..]
  }

  /** The basename starts right after the last `/` (or at 0 when there is none). */
  lemma BasenameAfter(p: string, i: int)
    requires -1 <= i < |p|
    requires i >= 0 ==> p[i] == '/'
    requires forall j :: i < j < |p| ==> p[j] != '/'
    ensures Basename(p) == p[i + 1..]
  {
    RFindCharAt(p, '/', i);
  }

  /** The basename of `dir + "/" + name` is `name` when `name` has no `/`. */
  lemma BasenameOfChild(dir: string, name: string)
    requires '/' !in name
    ensures Basename(dir + "/" + name) == name
  {
    var p := dir + "/" + name;
    assert p[|dir|] == '/';
    forall j | |dir| < j < |p|
      ensures p[j] != '/'
    {
      assert p[j] == name[j - |dir| - 1];
    }
    BasenameAfter(p, |dir|);
    assert p[|dir| + 1..] == name;
  }

  /** A name without `/` is its own basename. */
  lemma BasenameOfName(name: string)
    requires '/' !in name
    ensures Basename(name) == name
  {
    assert forall j :: 0 <= j < |name| ==> name[j] != '/';
    BasenameAfter(name, -1);
  }

  /** Every character of `s` is a dot (vacuously so for the empty string). */
  predicate AllDots(s: string) {
    forall i :: 0 <= i < |s| ==> s[i] == '.'
  }

  /** `os.path.splitext(p)`: the extension starts at the last `.` of the last
      path component, unless everything before that dot in the component is
      dots (so `.pdf` and `..pdf` have no extension). */
  function SplitExt(p: string): (r: (string, string))
    ensures r.0 + r.1 == p
  {
    var sepIndex := RFindChar(p, '/');
    var dotIndex := RFindChar(p, '.');
    if dotIndex > sepIndex && !AllDots(p[sepIndex + 1..dotIndex]) then
      (p[..dotIndex], p[dotIndex..])
    else
      (p, [])
  }

  /** The extension `splitext` returns is empty or one dot followed by
      text without dots or slashes, and the root's last component is then
      not made of dots only. */
  lemma SplitExtShape(p: string)
    ensures var r := SplitExt(p);
      r.1 == [] || (r.1[0] == '.' && '.' !in r.1[1..] && '/' !in r.1)
    ensures var r := SplitExt(p);
      r.1 != [] ==> !AllDots(Basename(r.0))
  {
    var sepIndex := RFindChar(p, '/');
    var dotIndex := RFindChar(p, '.');
    if dotIndex > sepIndex && !AllDots(p[sepIndex + 1..dotIndex]) {
      var ext := p[dotIndex..];
      forall k | 0 <= k < |ext|
        ensures ext[k] != '/'
        ensures 0 < k ==> ext[k] != '.'
      {
        assert ext[k] == p[dotIndex + k];
      }
      ExtensionShape(ext);
      RootNotAllDots(p, sepIndex, dotIndex);
    }
  }

  /** A dot followed by text without dots or slashes, in membership form. */
  lemma ExtensionShape(ext: string)
    requires ext != [] && ext[0] == '.'
    requires forall k :: 0 < k < |ext| ==> ext[k] != '.'
    requires forall k :: 0 <= k < |ext| ==> ext[k] != '/'
    ensures '.' !in ext[1..] && '/' !in ext
  {
    assert forall k :: 0 <= k < |ext| - 1 ==> ext[1..][k] == ext[k + 1];
  }

  /** Cutting `p` at a dot `d` of its last component leaves a root whose
      last component is not all dots. */
  lemma RootNotAllDots(p: string, sepIndex: int, d: int)
    requires -1 <= sepIndex < d < |p|
    requires sepIndex >= 0 ==> p[sepIndex] == '/'
    requires forall j :: sepIndex < j < |p| ==> p[j] != '/'
    requires !AllDots(p[sepIndex + 1..d])
    ensures !AllDots(Basename(p[..d]))
  {
    var root := p[..d];
    RootBasename(p, sepIndex, d);
    assert Basename(root) == p[sepIndex + 1..d];
  }

  /** The basename of the root is the text between the last `/` and the dot. */
  lemma RootBasename(p: string, sepIndex: int, d: int)
    requires -1 <= sepIndex < d < |p|
    requires sepIndex >= 0 ==> p[sepIndex] == '/'
    requires forall j :: sepIndex < j < |p| ==> p[j] != '/'
    ensures Basename(p[..d]) == p[sepIndex + 1..d]
  {
    var root := p[..d];
    forall j | sepIndex < j < |root|
      ensures root[j] != '/'
    {
      assert root[j] == p[j];
    }
    BasenameAfter(root, sepIndex);
    assert root[sepIndex + 1..] == p[sepIndex + 1..d];
  }

  /** The root `os.path.splitext` keeps. */
  function Stem(p: string): (stem: string)
    ensures |stem| <= |p| && p[..|stem|] == stem
  {
    var r := SplitExt(p);
    assert (r.0 + r.1)[..|r.0|] == r.0;
    r.0
  }

  /** A name with a non-dot character before its last dot loses exactly the
      last extension: `a.tar.gz` gives `("a.tar", ".gz")`. */
  lemma SplitExtOfDottedName(n: string, e: string)
    requires '/' !in n && '/' !in e && '.' !in e
    requires !AllDots(n)
    ensures SplitExt(n + "." + e) == (n, "." + e)
  {
    var p := n + "." + e;
    assert p[|n|] == '.';
    forall j | 0 <= j < |p|
      ensures p[j] != '/'
      ensures j > |n| ==> p[j] != '.'
    {
      if j < |n| {
        assert p[j] == n[j];
      } else if j > |n| {
        assert p[j] == e[j - |n| - 1];
      }
    }
    RFindCharAt(p, '.', |n|);
    RFindCharAt(p, '/', -1);
    assert p[0..|n|] == n;
    assert p[..|n|] == n;
    assert p[|n|..] == "." + e;
  }

  /** A name made of leading dots followed by dot-free text has no extension:
      `.pdf`, `..pdf`, `README` and `..` are kept whole. */
  lemma SplitExtOfLeadingDots(d: string, e: string)
    requires AllDots(d) && '.' !in e && '/' !in d + e
    ensures SplitExt(d + e) == (d + e, [])
  {
    var p := d + e;
    forall j | 0 <= j < |p|
      ensures p[j] != '/'
      ensures |d| <= j ==> p[j] != '.'
    {
      assert p[j] in d + e;
      if |d| <= j {
        assert p[j] == e[j - |d|];
      }
    }
    RFindCharAt(p, '/', -1);
    if d != [] {
      assert p[|d| - 1] == '.';
      RFindCharAt(p, '.', |d| - 1);
      var lead := p[0..|d| - 1];
      assert AllDots(lead) by {
        forall j | 0 <= j < |lead| ensures lead[j] == '.' {
          assert lead[j] == d[j];
        }
      }
    } else {
      RFindCharAt(p, '.', -1);
    }
  }

  /** The root and the extension make up the path again. */
  lemma StemAndExtension(p: string)
    ensures Stem(p) + SplitExt(p).1 == p
  {
  }

  /** The root of a name without `/` has no `/` either. */
  lemma StemNoSlash(p: string)
    requires '/' !in p
    ensures '/' !in Stem(p)
  {
    var stem := Stem(p);
    forall j | 0 <= j < |stem| ensures stem[j] != '/' {
      assert stem[j] == p[j];
    }
  }

  /** The name of an artefact derived from `path`: the `splitext` root of
      its basename followed by `ext`. */
  function ArtefactName(path: string, ext: string): (name: string)
    requires '/' !in ext
    ensures '/' !in name
    ensures EndsWith(name, ext)
    ensures name[..|name| - |ext|] + SplitExt(Basename(path)).1 == Basename(path)
  {
    StemNoSlash(Basename(path));
    StemAndExtension(Basename(path));
    ConcatSlices(Stem(Basename(path)), ext);
    Stem(Basename(path)) + ext
  }
}
