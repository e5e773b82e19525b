/** `out_path`: where the translated book is written, from `os.path.splitext` with POSIX
    separators and `f"{base}-greek{ext or '.epub'}"`. */
module Paths {

  /** No character of `s` is `c`. */
  predicate Lacks(s: string, c: char) {
    forall k :: 0 <= k < |s| ==> s[k] != c
  }

  /** `s.rfind(c)`: the index of the last `c` in `s`, or -1. */
  function LastIndex(s: string, c: char): (r: int)
    ensures -1 <= r < |s|
    ensures r >= 0 ==> s[r] == c
    ensures forall k :: r < k < |s| ==> s[k] != c
  {
    if |s| == 0 then -1
    else if s[|s| - 1] == c then |s| - 1
    else LastIndex(s[..|s| - 1], c)
  }

  /** Every character of `s` is a dot. */
  predicate AllDots(s: string) {
    forall k :: 0 <= k < |s| ==> s[k] == '.'
  }

  /** An extension: a dot, then neither a separator nor another dot. */
  predicate IsExt(e: string) {
    |e| > 0 && e[0] == '.' && Lacks(e, '/') && Lacks(e[1..], '.')
  }

  /** `posixpath.splitext(p)`: the extension runs from the last dot of the file name to its
      end, unless that dot comes after nothing but dots (a hidden file has no extension). */
  function SplitExt(p: string): (r: (string, string))
    ensures r.0 + r.1 == p
    ensures r.1 == "" || IsExt(r.1)
  {
    var sep := LastIndex(p, '/');
    var dot := LastIndex(p, '.');
    if dot > sep && !AllDots(p[sep + 1..dot]) then SplitAt(p, sep, dot) else (p, "")
  }

  /** The split at a dot after the last separator with no dot after it. */
  function SplitAt(p: string, sep: int, dot: int): (r: (string, string))
    requires -1 <= sep < dot < |p| && p[dot] == '.'
    requires forall k :: sep < k < |p| ==> p[k] != '/'
    requires forall k :: dot < k < |p| ==> p[k] != '.'
    ensures r.0 + r.1 == p && IsExt(r.1)
  {
    SuffixIsExt(p, sep, dot);
    assert p[..dot] + p[dot..] == p;
    (p[..dot], p[dot..])
  }

  /** From a dot after the last separator, with no dot after it, the rest of a path is an
      extension. */
  lemma SuffixIsExt(p: string, sep: int, dot: int)
    requires -1 <= sep < dot < |p| && p[dot] == '.'
    requires forall k :: sep < k < |p| ==> p[k] != '/'
    requires forall k :: dot < k < |p| ==> p[k] != '.'
    ensures IsExt(p[dot..])
  {
    var e := p[dot..];
    forall k | 0 <= k < |e| ensures e[k] != '/' {
      assert e[k] == p[dot + k];
    }
    forall k | 0 <= k < |e[1..]| ensures e[1..][k] != '.' {
      assert e[1..][k] == p[dot + 1 + k];
    }
  }

  /** `f"{base}-greek{ext or '.epub'}"` */
  function OutPath(p: string): (r: string)
    ensures |r| > |p|
    ensures SplitExt(p).1 != "" ==> r == SplitExt(p).0 + "-greek" + SplitExt(p).1
    ensures SplitExt(p).1 == "" ==> r == p + "-greek.epub"
  {
    var (base, ext) := SplitExt(p);
    base + "-greek" + (if ext == "" then ".epub" else ext)
  }

  /** The last `c` of `a + b` is the last in `b`, or the last in `a` when `b` has none. */
  lemma LastIndexAppend(a: string, b: string, c: char)
    ensures Lacks(b, c) ==> LastIndex(a + b, c) == LastIndex(a, c)
    ensures !Lacks(b, c) ==> LastIndex(a + b, c) == |a| + LastIndex(b, c)
  {
    var i, j := LastIndex(a + b, c), LastIndex(b, c);
    if Lacks(b, c) {
      LastIndexUnique(a + b, c, LastIndex(a, c));
    } else {
      assert j >= 0;
      LastIndexUnique(a + b, c, |a| + j);
    }
  }

  /** An index of `c` with no `c` after it is the last index, and -1 when there is no `c`. */
  lemma {:induction false} LastIndexUnique(s: string, c: char, i: int)
    requires -1 <= i < |s|
    requires i >= 0 ==> s[i] == c
    requires forall k :: i < k < |s| ==> s[k] != c
    ensures LastIndex(s, c) == i
    decreases |s|
  {
    if |s| > 0 && s[|s| - 1] != c {
      LastIndexUnique(s[..|s| - 1], c, i);
    }
  }

  /** The directory part of a path: everything up to and including its last `/`. */
  function Dir(p: string): string {
    p[..LastIndex(p, '/') + 1]
  }

  /** Appending text without a separator keeps the directory. */
  lemma DirAppend(a: string, b: string)
    requires Lacks(b, '/')
    ensures Dir(a + b) == Dir(a)
  {
    LastIndexAppend(a, b, '/');
    var k := LastIndex(a, '/') + 1;
    assert (a + b)[..k] == a[..k];
  }

  /** What `out_path` appends to the base: `-greek` and an extension. */
  lemma SuffixLacksSep(e: string)
    requires IsExt(e)
    ensures Lacks("-greek" + e, '/')
  {
    forall k | 0 <= k < |"-greek" + e| ensures ("-greek" + e)[k] != '/' {
      if k >= 6 {
        assert ("-greek" + e)[k] == e[k - 6];
      }
    }
  }

  /** The translated book is written next to the original, under another name. */
  lemma OutPathSameDir(p: string)
    ensures OutPath(p) != p
    ensures Dir(OutPath(p)) == Dir(p)
  {
    var (base, ext) := SplitExt(p);
    var e := if ext == "" then ".epub" else ext;
    assert IsExt(e);
    SuffixLacksSep(e);
    assert OutPath(p) == base + ("-greek" + e);
    DirAppend(base, "-greek" + e);
    DirAppend(base, ext);
  }

  /** A path whose name goes on past its dots up to an extension splits at that extension. */
  lemma SplitAtExt(b: string, e: string)
    requires IsExt(e)
    requires |b| > 0 && b[|b| - 1] != '.' && b[|b| - 1] != '/'
    ensures SplitExt(b + e) == (b, e)
  {
    var p := b + e;
    LastIndexAppend(b, e, '/');
    var sep := LastIndex(p, '/');
    assert sep == LastIndex(b, '/') && sep < |b| - 1;
    forall k | |b| < k < |p| ensures p[k] != '.' {
      assert p[k] == e[1..][k - |b| - 1];
    }
    LastIndexUnique(p, '.', |b|);
    assert p[sep + 1..|b|][|b| - 1 - (sep + 1)] == b[|b| - 1];
    assert p[..|b|] == b && p[|b|..] == e;
  }

  /** Splitting the output path gives back the base with `-greek` added and the original
      extension, or `.epub` when there was none. */
  lemma OutPathSplit(p: string)
    ensures SplitExt(OutPath(p)) == (SplitExt(p).0 + "-greek", if SplitExt(p).1 == "" then ".epub" else SplitExt(p).1)
  {
    var (base, ext) := SplitExt(p);
    var e := if ext == "" then ".epub" else ext;
    assert IsExt(e);
    assert OutPath(p) == (base + "-greek") + e;
    SplitAtExt(base + "-greek", e);
  }
}
