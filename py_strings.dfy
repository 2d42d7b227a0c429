/** The parts of Python's `str` type that the pipeline relies on: `find`,
    slicing with negative bounds, `replace`, `split`, `join`, `lower` and
    `endswith`, each with the Python semantics written out. */
module PyStrings {

  /** `pat` occurs in `s` starting at index `i`. */
  predicate OccursAt(s: string, pat: string, i: int) {
    0 <= i && i + |pat| <= |s| && s[i..i + |pat|] == pat
  }

  /** Python's `pat in s`. */
  ghost predicate Contains(s: string, pat: string) {
    exists i :: OccursAt(s, pat, i)
  }

  /** No proper prefix of `pat` is also a suffix of it, so two occurrences
      of `pat` never overlap. */
  ghost predicate Unbordered(pat: string) {
    forall k :: 0 < k < |pat| ==> pat[k..] != pat[..|pat| - k]
  }

  /** Python's `s.find(pat, start)`: the lowest index at or after `start`
      where `pat` occurs, or -1. */
  function FindFrom(s: string, pat: string, start: nat): (r: int)
    ensures r == -1 || (start <= r && OccursAt(s, pat, r))
    ensures forall j :: start <= j && (r == -1 || j < r) ==> !OccursAt(s, pat, j)
    decreases |s| - start
  {
    if start + |pat| > |s| then -1
    else if s[start..start + |pat|] == pat then start
    else FindFrom(s, pat, start + 1)
  }

  /** Python's `s.find(pat)`. */
  function Find(s: string, pat: string): (r: int)
    ensures r == -1 <==> !Contains(s, pat)
    ensures r != -1 ==> OccursAt(s, pat, r) && forall j :: 0 <= j < r ==> !OccursAt(s, pat, j)
  {
    var r := FindFrom(s, pat, 0);
    assert r != -1 ==> OccursAt(s, pat, r);
    assert r == -1 ==> forall j :: !OccursAt(s, pat, j);
    r
  }

  /** Python's normalisation of a slice bound `i` for a sequence of length
      `n`: a negative bound counts from the end, and the result is clamped
      to `0..n`. */
  function SliceBound(i: int, n: nat): (b: nat)
    ensures b <= n
    ensures 0 <= i <= n ==> b == i
    ensures i < 0 && 0 <= n + i ==> b == n + i
    ensures n + i < 0 ==> b == 0
    ensures n < i ==> b == n
  {
    if i < 0 then (if n + i < 0 then 0 else n + i)
    else if i > n then n
    else i
  }

  /** Python's `s[i:]`. */
  function SliceFrom(s: string, i: int): string {
    s[SliceBound(i, |s|)..]
  }

  /** Python's `s[:i]`. */
  function SliceTo(s: string, i: int): string {
    s[..SliceBound(i, |s|)]
  }

  /** `s[:i] + s[i:] == s` for every integer `i`, negative ones included. */
  lemma SliceToFrom(s: string, i: int)
    ensures SliceTo(s, i) + SliceFrom(s, i) == s
  {
  }

  /** Python's `s.replace(pat, rep)` for a non-empty `pat`: every occurrence,
      scanned left to right without overlap, is replaced. */
  function Replace(s: string, pat: string, rep: string): string
    requires pat != ""
    decreases |s|
  {
    if |s| < |pat| then s
    else if s[..|pat|] == pat then rep + Replace(s[|pat|..], pat, rep)
    else [s[0]] + Replace(s[1..], pat, rep)
  }

  /** Occurrences in a suffix are occurrences in the whole, shifted. */
  lemma OccursAtSuffix(s: string, pat: string, d: nat, j: nat)
    requires d <= |s|
    ensures OccursAt(s[d..], pat, j) <==> OccursAt(s, pat, j + d)
  {
    if 0 <= j && j + |pat| <= |s| - d {
      assert s[d..][j..j + |pat|] == s[j + d..j + d + |pat|];
    }
  }

  /** Occurrences in a prefix are occurrences in the whole. */
  lemma OccursAtPrefix(s: string, pat: string, n: nat, j: int)
    requires n <= |s| && j + |pat| <= n
    ensures OccursAt(s[..n], pat, j) <==> OccursAt(s, pat, j)
  {
    if 0 <= j {
      assert s[..n][j..j + |pat|] == s[j..j + |pat|];
    }
  }

  /** A string without `pat` is left unchanged by `replace`. */
  lemma {:induction false} ReplaceAbsent(s: string, pat: string, rep: string)
    requires pat != "" && !Contains(s, pat)
    ensures Replace(s, pat, rep) == s
    decreases |s|
  {
    if |s| >= |pat| {
      assert !OccursAt(s, pat, 0);
      forall j: nat ensures !OccursAt(s[1..], pat, j) {
        OccursAtSuffix(s, pat, 1, j);
      }
      ReplaceAbsent(s[1..], pat, rep);
    }
  }

  /** Where `pat` does not start, `replace` keeps the first character and
      goes on with the rest. */
  lemma ReplaceSkip(s: string, pat: string, rep: string, i: nat, tail: string)
    requires pat != "" && 0 < i && i + |pat| <= |s| && !OccursAt(s, pat, 0)
    requires Replace(s[1..], pat, rep) == s[1..][..i - 1] + rep + tail
    ensures Replace(s, pat, rep) == s[..i] + rep + tail
  {
    assert s[..|pat|] != pat;
    var head := s[1..][..i - 1];
    assert Replace(s, pat, rep) == [s[0]] + (head + rep + tail);
    assert [s[0]] + (head + rep + tail) == ([s[0]] + head) + rep + tail;
    assert [s[0]] + head == s[..i];
  }

  /** `replace` rewrites the first occurrence (the one `find` reports) and
      carries on after it. */
  lemma {:induction false} ReplaceAtFirst(s: string, pat: string, rep: string, i: nat)
    requires pat != "" && OccursAt(s, pat, i)
    requires forall j :: 0 <= j < i ==> !OccursAt(s, pat, j)
    ensures Replace(s, pat, rep) == s[..i] + rep + Replace(s[i + |pat|..], pat, rep)
    decreases i
  {
    if i == 0 {
      assert s[..|pat|] == pat;
    } else {
      FirstInSuffix(s, pat, i);
      ReplaceAtFirst(s[1..], pat, rep, i - 1);
      assert s[1..][i - 1 + |pat|..] == s[i + |pat|..];
      ReplaceSkip(s, pat, rep, i, Replace(s[i + |pat|..], pat, rep));
    }
  }

  /** Dropping the first character moves the first occurrence one to the left. */
  lemma FirstInSuffix(s: string, pat: string, i: nat)
    requires 0 < i && OccursAt(s, pat, i)
    requires forall j :: 0 <= j < i ==> !OccursAt(s, pat, j)
    ensures OccursAt(s[1..], pat, i - 1)
    ensures forall j :: 0 <= j < i - 1 ==> !OccursAt(s[1..], pat, j)
  {
    OccursAtSuffix(s, pat, 1, i - 1);
    forall j | 0 <= j < i - 1 ensures !OccursAt(s[1..], pat, j) {
      OccursAtSuffix(s, pat, 1, j);
    }
  }

  /** In `a + pat + b`, with `a` free of `pat` and `pat` unbordered, the
      first occurrence of `pat` is the one right after `a`. */
  lemma FirstOccurrence(a: string, pat: string, b: string)
    requires pat != "" && Unbordered(pat) && !Contains(a, pat)
    ensures OccursAt(a + pat + b, pat, |a|)
    ensures forall j :: 0 <= j < |a| ==> !OccursAt(a + pat + b, pat, j)
    ensures Find(a + pat + b, pat) == |a|
  {
    var s := a + pat + b;
    assert s[|a|..|a| + |pat|] == pat;
    forall j | 0 <= j < |a| ensures !OccursAt(s, pat, j) {
      if j + |pat| <= |a| {
        assert s[..|a|] == a;
        OccursAtPrefix(s, pat, |a|, j);
      } else {
        var k := |a| - j;
        assert s[j..j + |pat|][k..] == s[|a|..j + |pat|] == pat[..|pat| - k];
        assert pat[k..] != pat[..|pat| - k];
      }
    }
    assert OccursAt(s, pat, |a|);
    var r := Find(s, pat);
    assert !(r < |a|);
    assert !(r > |a|);
  }

  /** A pattern whose first character does not recur in it is unbordered. */
  lemma HeadUniqueUnbordered(pat: string)
    requires pat != [] && pat[0] !in pat[1..]
    ensures Unbordered(pat)
  {
    forall k | 0 < k < |pat| ensures pat[k..] != pat[..|pat| - k] {
      assert pat[k..][0] == pat[1..][k - 1];
    }
  }

  /** A string without the first character of `pat` does not contain `pat`. */
  lemma MissingHeadNotContained(s: string, pat: string)
    requires pat != [] && pat[0] !in s
    ensures !Contains(s, pat)
  {
    forall j | OccursAt(s, pat, j) ensures false {
    }
  }

  /** Python's `sep.join(parts)`. */
  function Join(sep: string, parts: seq<string>): string
    decreases |parts|
  {
    if parts == [] then ""
    else if |parts| == 1 then parts[0]
    else parts[0] + sep + Join(sep, parts[1..])
  }

  /** Joining one more part at the end. */
  lemma {:induction false} JoinSnoc(sep: string, parts: seq<string>, last: string)
    requires parts != []
    ensures Join(sep, parts + [last]) == Join(sep, parts) + sep + last
    decreases |parts|
  {
    if |parts| > 1 {
      assert (parts + [last])[1..] == parts[1..] + [last];
      JoinSnoc(sep, parts[1..], last);
    }
  }

  /** `replace` rewrites every occurrence: replacing an unbordered pattern
      in the pieces joined by that pattern gives the pieces joined by the
      replacement, provided no piece holds the pattern itself. */
  lemma {:induction false} ReplaceJoin(pieces: seq<string>, pat: string, rep: string)
    requires pat != "" && Unbordered(pat)
    requires forall i :: 0 <= i < |pieces| ==> !Contains(pieces[i], pat)
    ensures Replace(Join(pat, pieces), pat, rep) == Join(rep, pieces)
    decreases |pieces|
  {
    if pieces == [] {
    } else if |pieces| == 1 {
      ReplaceAbsent(pieces[0], pat, rep);
    } else {
      var rest := Join(pat, pieces[1..]);
      FirstOccurrence(pieces[0], pat, rest);
      var s := pieces[0] + pat + rest;
      ReplaceAtFirst(s, pat, rep, |pieces[0]|);
      assert s[..|pieces[0]|] == pieces[0];
      assert s[|pieces[0]| + |pat|..] == rest;
      ReplaceJoin(pieces[1..], pat, rep);
    }
  }

  /** Python's `s.split(sep)` for a one-character separator. */
  function Split(s: string, sep: char): (parts: seq<string>)
    ensures |parts| >= 1
    ensures forall i :: 0 <= i < |parts| ==> sep !in parts[i]
    decreases |s|
  {
    if s == [] then [[]]
    else
      var rest := Split(s[1..], sep);
      if s[0] == sep then [[]] + rest
      else [[s[0]] + rest[0]] + rest[1..]
  }

  /** Round trip: joining the parts of a split with the separator gives back
      the string. */
  lemma {:induction false} JoinSplit(s: string, sep: char)
    ensures Join([sep], Split(s, sep)) == s
    decreases |s|
  {
    if s != [] {
      var rest := Split(s[1..], sep);
      JoinSplit(s[1..], sep);
      if s[0] == sep {
        assert Split(s, sep)[1..] == rest;
      } else if |rest| > 1 {
        assert Split(s, sep)[1..] == rest[1..];
      }
    }
  }

  /** A string contains the separator exactly when it splits into more than
      one part. */
  lemma SplitCount(s: string, sep: char)
    ensures |Split(s, sep)| == 1 <==> sep !in s
    ensures |Split(s, sep)| == 1 ==> Split(s, sep)[0] == s
    ensures |Split(s, sep)| > 1 ==> s == Split(s, sep)[0] + [sep] + Join([sep], Split(s, sep)[1..])
  {
    JoinSplit(s, sep);
  }

  /** The last part of a split is the text after the last separator. */
  lemma SplitLast(s: string, sep: char)
    ensures var parts := Split(s, sep);
      |parts| == 1 || s == Join([sep], parts[..|parts| - 1]) + [sep] + parts[|parts| - 1]
  {
    var parts := Split(s, sep);
    JoinSplit(s, sep);
    if |parts| > 1 {
      assert parts == parts[..|parts| - 1] + [parts[|parts| - 1]];
      JoinSnoc([sep], parts[..|parts| - 1], parts[|parts| - 1]);
    }
  }

  /** A splitting of `x + [sep] + y` at a separator-free `x` is unique. */
  lemma SplitPointUnique(x: string, y: string, x': string, y': string, sep: char)
    requires sep !in x && sep !in x'
    requires x + [sep] + y == x' + [sep] + y'
    ensures x == x' && y == y'
  {
    var s := x + [sep] + y;
    HeadUniqueUnbordered([sep]);
    MissingHeadNotContained(x, [sep]);
    MissingHeadNotContained(x', [sep]);
    FirstOccurrence(x, [sep], y);
    FirstOccurrence(x', [sep], y');
    assert x == s[..|x|] == x';
    assert y == s[|x| + 1..] == y';
  }

  /** Python's `s.split(sep, 1)`: one part when `sep` is absent, otherwise
      the text before the first `sep` and the text after it. */
  function SplitOnce(s: string, sep: char): (parts: seq<string>)
    ensures |parts| == 1 || |parts| == 2
    ensures sep !in parts[0]
    ensures |parts| == 1 <==> sep !in s
    ensures |parts| == 1 ==> parts[0] == s
    ensures |parts| == 2 ==> parts[0] + [sep] + parts[1] == s
  {
    var i := Find(s, [sep]);
    if i == -1 then
      assert forall j :: 0 <= j < |s| ==> s[j..j + 1] == [s[j]] && !OccursAt(s, [sep], j);
      [s]
    else
      assert forall j :: 0 <= j < i ==> s[j..j + 1] == [s[j]] && !OccursAt(s, [sep], j);
      assert s[i..i + 1] == [sep];
      assert s == s[..i] + [sep] + s[i + 1..];
      [s[..i], s[i + 1..]]
  }

  /** The first part of a full split is the first part of a split of at most
      one cut: both are the text before the first separator. */
  lemma SplitHeadIsSplitOnceHead(s: string, sep: char)
    ensures Split(s, sep)[0] == SplitOnce(s, sep)[0]
  {
    var parts, once := Split(s, sep), SplitOnce(s, sep);
    SplitCount(s, sep);
    if |parts| > 1 {
      SplitPointUnique(parts[0], Join([sep], parts[1..]), once[0], once[1], sep);
    }
  }

  /** Python's `s.rfind(c)` for a single character: the highest index
      holding `c`, or -1. */
  function RFindChar(s: string, c: char): (r: int)
    ensures -1 <= r < |s|
    ensures r >= 0 ==> s[r] == c
    ensures forall j :: r < j < |s| ==> s[j] != c
    decreases |s|
  {
    if s == [] then -1
    else if s[|s| - 1] == c then |s| - 1
    else RFindChar(s[..|s| - 1], c)
  }

  /** Python's `s.endswith(suffix)`. */
  predicate EndsWith(s: string, suffix: string) {
    |suffix| <= |s| && s[|s| - |suffix|..] == suffix
  }

  /** Python's `s.endswith(suffixes)` for a tuple of suffixes. */
  predicate EndsWithAny(s: string, suffixes: seq<string>) {
    exists suffix :: suffix in suffixes && EndsWith(s, suffix)
  }

  /** ASCII lower-casing of one character. */
  function LowerChar(c: char): char {
    if 'A' <= c <= 'Z' then (c as int + 32) as char else c
  }

  /** `s.lower()`, restricted to ASCII letters: every other character is
      kept as it is. */
  function Lower(s: string): (r: string)
    ensures |r| == |s|
    ensures forall i :: 0 <= i < |s| ==> r[i] == LowerChar(s[i])
    ensures forall i :: 0 <= i < |s| ==> !('A' <= r[i] <= 'Z')
  {
    seq(|s|, i requires 0 <= i < |s| => LowerChar(s[i]))
  }
}
