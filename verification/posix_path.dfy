/**
 Python's path helpers (`os.path.dirname`, `basename`, `splitext` and
 `join`) as its `posixpath` module computes them on '/'-separated strings.
 The converter derives every output path from these four functions.
 */
module PosixPath {

  /** Index of the last `c` among the first `n` characters of `s`, or -1
      when there is none. */
  function LastIndexBefore(s: string, c: char, n: nat): (r: int)
    requires n <= |s|
    ensures -1 <= r < n
    ensures r >= 0 ==> s[r] == c
    ensures forall k :: r < k < n ==> s[k] != c
  {
    if n == 0 then -1
    else if s[n - 1] == c then n - 1
    else LastIndexBefore(s, c, n - 1)
  }

  /** `str.rfind` with a one-character needle. */
  function LastIndexOf(s: string, c: char): (r: int)
    ensures -1 <= r < |s|
    ensures r >= 0 ==> s[r] == c
    ensures forall k :: r < k < |s| ==> s[k] != c
  {
    LastIndexBefore(s, c, |s|)
  }

  predicate Lacks(s: string, c: char) {
    forall k :: 0 <= k < |s| ==> s[k] != c
  }

  predicate OnlySlashes(s: string) {
    forall k :: 0 <= k < |s| ==> s[k] == '/'
  }

  /** Every character of `s` from position `lo` up to (not including) `hi`
      is a dot. */
  predicate DotsBetween(s: string, lo: int, hi: int) {
    forall k :: lo <= k < hi && 0 <= k < |s| ==> s[k] == '.'
  }

  /** The shapes `Dirname` can return: empty, a root made of slashes only,
      or a path that does not end in a slash. */
  predicate DirShape(d: string) {
    d == [] || OnlySlashes(d) || d[|d| - 1] != '/'
  }

  /** A file name has an extension when some dot follows a character that
      is not a dot (so `.bashrc` and `..` have none). */
  predicate HasExtension(name: string) {
    exists i, j :: 0 <= i < j < |name| && name[i] != '.' && name[j] == '.'
  }

  /** Length of `s[..n]` once its trailing slashes are dropped. */
  function TrimmedLength(s: string, n: nat): (m: nat)
    requires n <= |s|
    ensures m <= n
    ensures forall k :: m <= k < n ==> s[k] == '/'
    ensures m == 0 || s[m - 1] != '/'
  {
    if n > 0 && s[n - 1] == '/' then TrimmedLength(s, n - 1) else n
  }

  /** `str.rstrip('/')`. */
  function RStripSlashes(s: string): string {
    s[..TrimmedLength(s, |s|)]
  }

  /** `posixpath.basename`: everything after the last slash. */
  function Basename(p: string): string {
    p[LastIndexOf(p, '/') + 1..]
  }

  /** `posixpath.dirname`: everything up to the last slash, with trailing
      slashes removed unless nothing but slashes is left. */
  function Dirname(p: string): string {
    var head := p[..LastIndexOf(p, '/') + 1];
    if head != [] && !OnlySlashes(head) then RStripSlashes(head) else head
  }

  /** `posixpath.splitext`: splits off the last extension of the final
      component, unless only dots precede that extension's dot within the
      component. */
  function SplitExt(p: string): (string, string) {
    var sepIndex := LastIndexOf(p, '/');
    var dotIndex := LastIndexOf(p, '.');
    if dotIndex > sepIndex && !DotsBetween(p, sepIndex + 1, dotIndex) then
      (p[..dotIndex], p[dotIndex..])
    else
      (p, [])
  }

  /** The root part of `SplitExt`, as `os.path.splitext(p)[0]`. */
  function Stem(p: string): string {
    SplitExt(p).0
  }

  /** `posixpath.join(a, b)` for two components. */
  function Join(a: string, b: string): string {
    if |b| > 0 && b[0] == '/' then b
    else if a == [] || a[|a| - 1] == '/' then a + b
    else a + "/" + b
  }

  /** The base name is the longest suffix of the path without a slash. */
  lemma BasenameSpec(p: string)
    ensures Lacks(Basename(p), '/')
    ensures |Basename(p)| <= |p| && Basename(p) == p[|p| - |Basename(p)|..]
    ensures |Basename(p)| < |p| ==> p[|p| - |Basename(p)| - 1] == '/'
  {
    var i := LastIndexOf(p, '/') + 1;
    var b := p[i..];
    forall k | 0 <= k < |b| ensures b[k] != '/' {
      assert b[k] == p[i + k];
    }
  }

  /** The directory part is a prefix of the path that is empty exactly when
      the path has no slash, never ends in a slash unless it is a root made
      of slashes, and is separated from the base name by slashes only. */
  lemma DirnameSpec(p: string)
    ensures Dirname(p) <= p
    ensures Dirname(p) == [] <==> Lacks(p, '/')
    ensures DirShape(Dirname(p))
    ensures |Dirname(p)| + |Basename(p)| <= |p|
    ensures OnlySlashes(p[|Dirname(p)|..|p| - |Basename(p)|])
    ensures Dirname(p) != [] && OnlySlashes(Dirname(p)) ==> |Dirname(p)| + |Basename(p)| == |p|
  {
    var i := LastIndexOf(p, '/') + 1;
    var head := p[..i];
    var d := Dirname(p);
    assert |Basename(p)| == |p| - i;
    if i > 0 {
      assert p[i - 1] == '/';
      if !OnlySlashes(head) {
        var m := TrimmedLength(head, i);
        var k :| 0 <= k < |head| && head[k] != '/';
        assert k < m;
        assert d == p[..m];
        assert d[m - 1] == head[m - 1] != '/';
        forall x | 0 <= x < i - m ensures p[m..i][x] == '/' {
          assert p[m..i][x] == head[m + x];
        }
      }
    }
  }

  /** `SplitExt` cuts the path in two; the second part is empty exactly when
      the final component has no extension, and otherwise is a dot followed
      by text without dots or slashes. */
  lemma SplitExtSpec(p: string)
    ensures SplitExt(p).0 + SplitExt(p).1 == p
    ensures SplitExt(p).1 != [] <==> HasExtension(Basename(p))
    ensures SplitExt(p).1 != [] ==>
              SplitExt(p).1[0] == '.' && Lacks(SplitExt(p).1[1..], '.') && Lacks(SplitExt(p).1, '/')
  {
    SplitExtConcat(p);
    SplitExtShape(p);
  }

  lemma SplitExtConcat(p: string)
    ensures SplitExt(p).0 + SplitExt(p).1 == p
  {
    var dotIndex := LastIndexOf(p, '.');
    if dotIndex >= 0 {
      assert p[..dotIndex] + p[dotIndex..] == p;
    }
  }

  lemma SplitExtShape(p: string)
    ensures SplitExt(p).1 != [] <==> HasExtension(Basename(p))
    ensures SplitExt(p).1 != [] ==>
              SplitExt(p).1[0] == '.' && Lacks(SplitExt(p).1[1..], '.') && Lacks(SplitExt(p).1, '/')
  {
    var sepIndex := LastIndexOf(p, '/');
    var dotIndex := LastIndexOf(p, '.');
    var ext := SplitExt(p).1;
    if dotIndex > sepIndex && !DotsBetween(p, sepIndex + 1, dotIndex) {
      assert ext == p[dotIndex..];
      SplitAtDot(p, sepIndex, dotIndex);
      assert ext != [] && HasExtension(Basename(p));
    } else {
      assert ext == [];
      NoSplit(p, sepIndex, dotIndex);
    }
  }

  lemma SplitAtDot(p: string, sepIndex: int, dotIndex: int)
    requires sepIndex == LastIndexOf(p, '/') && dotIndex == LastIndexOf(p, '.')
    requires dotIndex > sepIndex && !DotsBetween(p, sepIndex + 1, dotIndex)
    ensures HasExtension(Basename(p))
    ensures p[dotIndex..][0] == '.' && Lacks(p[dotIndex..][1..], '.') && Lacks(p[dotIndex..], '/')
  {
    ExtensionWitness(p, sepIndex, dotIndex);
    var tail := p[dotIndex..];
    forall m | 0 <= m < |tail|
      ensures tail[m] != '/'
    {
      assert tail[m] == p[dotIndex + m];
    }
    forall m | 0 <= m < |tail| - 1
      ensures tail[1..][m] != '.'
    {
      assert tail[1..][m] == p[dotIndex + 1 + m];
    }
  }

  lemma ExtensionWitness(p: string, sepIndex: int, dotIndex: int)
    requires sepIndex == LastIndexOf(p, '/') && dotIndex == LastIndexOf(p, '.')
    requires dotIndex > sepIndex && !DotsBetween(p, sepIndex + 1, dotIndex)
    ensures HasExtension(Basename(p))
  {
    var name := Basename(p);
    var k :| sepIndex + 1 <= k < dotIndex && 0 <= k < |p| && p[k] != '.';
    assert name[k - sepIndex - 1] == p[k];
    assert name[dotIndex - sepIndex - 1] == p[dotIndex];
  }

  lemma NoSplit(p: string, sepIndex: int, dotIndex: int)
    requires sepIndex == LastIndexOf(p, '/') && dotIndex == LastIndexOf(p, '.')
    requires !(dotIndex > sepIndex && !DotsBetween(p, sepIndex + 1, dotIndex))
    ensures !HasExtension(Basename(p))
  {
    var name := Basename(p);
    forall i, j | 0 <= i < j < |name| && name[j] == '.'
      ensures name[i] == '.'
    {
      assert name[j] == p[sepIndex + 1 + j];
      assert name[i] == p[sepIndex + 1 + i];
    }
  }

  /** Joining a directory (as `Dirname` returns it) with a slash-free name
      gives a path whose directory and file name are exactly those two:
      `Join` is a right inverse of the pair (`Dirname`, `Basename`). */
  lemma JoinSplits(d: string, n: string)
    requires DirShape(d) && Lacks(n, '/')
    ensures Dirname(Join(d, n)) == d
    ensures Basename(Join(d, n)) == n
  {
    var p := Join(d, n);
    if d == [] {
      assert p == n;
    } else if d[|d| - 1] == '/' {
      assert p == d + n;
      assert LastIndexOf(p, '/') == |d| - 1 by {
        assert p[|d| - 1] == '/';
        forall k | |d| <= k < |p| ensures p[k] != '/' {
          assert p[k] == n[k - |d|];
        }
      }
      assert p[..|d|] == d;
      assert p[|d|..] == n;
    } else {
      assert p == d + "/" + n;
      assert LastIndexOf(p, '/') == |d| by {
        assert p[|d|] == '/';
        forall k | |d| < k < |p| ensures p[k] != '/' {
          assert p[k] == n[k - |d| - 1];
        }
      }
      var head := p[..|d| + 1];
      assert head[|d| - 1] == d[|d| - 1] != '/';
      assert TrimmedLength(head, |d| + 1) == |d|;
      assert head[..|d|] == d;
      assert p[|d| + 1..] == n;
    }
  }

  /** Splitting the directory and the file name apart and joining them again
      gives the path back whenever at most one slash separates them. */
  lemma SplitJoins(p: string)
    requires |Dirname(p)| + |Basename(p)| + 1 >= |p|
    ensures Join(Dirname(p), Basename(p)) == p
  {
    DirnameSpec(p);
    BasenameSpec(p);
    var d, b := Dirname(p), Basename(p);
    assert p[..|d|] == d;
    if |d| + |b| == |p| {
      assert p == d + b;
    } else {
      assert p[|d|..|d| + 1][0] == p[|d|] == '/';
      assert p == d + "/" + b;
    }
  }

  /** Appending an extension to a name with at least one character that is
      not a dot, then splitting it off again, gives the name back: only the
      last extension is ever split off. */
  lemma SplitExtAppend(n: string, e: string)
    requires Lacks(n, '/') && exists k :: 0 <= k < |n| && n[k] != '.'
    requires Lacks(e, '.') && Lacks(e, '/')
    ensures SplitExt(n + "." + e) == (n, "." + e)
  {
    var p := n + "." + e;
    AppendedName(n, e);
    SplitExtSpec(p);
    var root, ext := SplitExt(p).0, SplitExt(p).1;
    assert ext != [];
    assert ext == p[|root|..] by {
      assert p == root + ext;
    }
    SuffixIsExtension(n, e, ext);
    assert root == p[..|n|] by {
      assert p == root + ext;
    }
    assert p[..|n|] == n;
  }

  lemma AppendedName(n: string, e: string)
    requires Lacks(n, '/') && exists k :: 0 <= k < |n| && n[k] != '.'
    requires Lacks(e, '/')
    ensures Basename(n + "." + e) == n + "." + e
    ensures HasExtension(n + "." + e)
  {
    var p := n + "." + e;
    forall k | 0 <= k < |p| ensures p[k] != '/' {
      if k < |n| {
        assert p[k] == n[k];
      } else if k > |n| {
        assert p[k] == e[k - |n| - 1];
      }
    }
    assert LastIndexOf(p, '/') == -1;
    var i :| 0 <= i < |n| && n[i] != '.';
    assert p[i] == n[i] && p[|n|] == '.';
  }

  /** The only suffix of `n + "." + e` that starts with a dot and has no
      other dot is `"." + e`. */
  lemma SuffixIsExtension(n: string, e: string, ext: string)
    requires Lacks(e, '.')
    requires |ext| <= |n| + 1 + |e| && ext == (n + "." + e)[|n| + 1 + |e| - |ext|..]
    requires ext != [] && ext[0] == '.' && Lacks(ext[1..], '.')
    ensures ext == "." + e
  {
    var p := n + "." + e;
    var start := |p| - |ext|;
    assert p[start] == ext[0] == '.';
    forall k | |n| < k < |p| ensures p[k] != '.' {
      assert p[k] == e[k - |n| - 1];
    }
    forall k | start < k < |p| ensures p[k] != '.' {
      assert p[k] == ext[1..][k - start - 1];
    }
    assert p[|n|] == '.';
    assert start == |n|;
    assert p[|n|..] == "." + e;
  }
}
