/** Python's `re.split` with one capturing group, for any pattern given by its matches. */
module Re {
  import opened Wrappers
  import opened Text

  /** A pattern, seen through what `re.split` needs of it: the length of its match at the
      start of a text, if it matches there. */
  type Matcher = string -> Option<nat>

  /** The pattern never matches the empty string. */
  ghost predicate NonEmptyMatches(m: Matcher) {
    forall t :: m(t).Some? ==> 1 <= m(t).value <= |t|
  }

  /** `t` starts with the whole match `m` finds at the start of `u`. */
  ghost predicate StartsWithMatchOf(m: Matcher, u: string, t: string) {
    m(u).Some? && m(u).value <= |u| && m(u).value <= |t| && u[..m(u).value] == t[..m(u).value]
  }

  /** A match depends only on the characters it covers: a text that starts with the
      characters of a match is matched the same way. */
  ghost predicate Local(m: Matcher) {
    && NonEmptyMatches(m)
    && forall u, t {:trigger StartsWithMatchOf(m, u, t)} :: StartsWithMatchOf(m, u, t) ==> m(t) == m(u)
  }

  /** `pattern.fullmatch(x)` */
  predicate FullMatch(m: Matcher, x: string) {
    m(x) == Some(|x|)
  }

  /** No match starts at any of the first `n` positions of `x`. */
  predicate NoMatchBefore(m: Matcher, x: string, n: nat)
    requires n <= |x|
  {
    forall p :: 0 <= p < n ==> m(x[p..]).None?
  }

  /** A found match: where it starts and how long it is. */
  datatype Found = Found(at: nat, len: nat)

  /** `pattern.search(s, i)`: the leftmost match starting at or after `i`. */
  function Search(m: Matcher, s: string, i: nat): (r: Option<Found>)
    requires NonEmptyMatches(m)
    requires i <= |s|
    ensures r.Some? ==> i <= r.value.at && r.value.at + r.value.len <= |s| && 1 <= r.value.len
    ensures r.Some? ==> m(s[r.value.at..]) == Some(r.value.len)
    ensures forall q :: i <= q < (if r.Some? then r.value.at else |s|) ==> m(s[q..]).None?
    decreases |s| - i
  {
    if i == |s| then None
    else
      match m(s[i..])
      case Some(n) => Some(Found(i, n))
      case None => Search(m, s, i + 1)
  }

  /** `pattern.split(s)` from `start`: the text before each leftmost match, then the match
      itself (the captured group), and finally the tail. */
  function SplitFrom(m: Matcher, s: string, start: nat): seq<string>
    requires NonEmptyMatches(m)
    requires start <= |s|
    decreases |s| - start
  {
    match Search(m, s, start)
    case None => [s[start..]]
    case Some(f) => [s[start..f.at], s[f.at..f.at + f.len]] + SplitFrom(m, s, f.at + f.len)
  }

  /** `pattern.split(s)` */
  function Split(m: Matcher, s: string): seq<string>
    requires NonEmptyMatches(m)
  {
    SplitFrom(m, s, 0)
  }

  /** A captured match `b` with the text `a` before it, as the scan produces them: `b` is a
      full match and no match starts anywhere in `a`. */
  predicate PartPair(m: Matcher, a: string, b: string) {
    FullMatch(m, b) && NoMatchBefore(m, a + b, |a|)
  }

  /** The odd-indexed part `k` is a captured match and part `k - 1` the text before it. */
  predicate PairAt(m: Matcher, r: seq<string>, k: nat)
    requires 0 < k < |r|
  {
    PartPair(m, r[k - 1], r[k])
  }

  /** A text in which no match starts at all. */
  predicate MatchFree(m: Matcher, b: string) {
    NoMatchBefore(m, b, |b|)
  }

  /** The shape of `re.split` output: text, match, text, …, match, tail. */
  predicate WellFormedParts(m: Matcher, r: seq<string>) {
    && |r| % 2 == 1
    && (forall k :: 0 < k < |r| && k % 2 == 1 ==> PairAt(m, r, k))
    && MatchFree(m, r[|r| - 1])
  }

  /** The parts are well formed: every odd-indexed part is the leftmost match after the
      part before it, and the tail holds none. */
  lemma {:induction false} SplitShape(m: Matcher, s: string, start: nat)
    requires Local(m)
    requires start <= |s|
    ensures WellFormedParts(m, SplitFrom(m, s, start))
    decreases |s| - start
  {
    match Search(m, s, start)
    case None =>
      assert SplitFrom(m, s, start) == [s[start..]];
      TailShape(m, s, start);
    case Some(f) =>
      var rest := SplitFrom(m, s, f.at + f.len);
      assert SplitFrom(m, s, start) == [s[start..f.at], s[f.at..f.at + f.len]] + rest;
      SplitShape(m, s, f.at + f.len);
      MatchStep(m, s, start, f.at, f.len, rest);
  }

  /** Nothing is lost or added: the parts join back to the text. */
  lemma {:induction false} SplitJoins(m: Matcher, s: string, start: nat)
    requires NonEmptyMatches(m)
    requires start <= |s|
    ensures Join(SplitFrom(m, s, start)) == s[start..]
    decreases |s| - start
  {
    match Search(m, s, start)
    case None =>
      assert SplitFrom(m, s, start) == [s[start..]];
      JoinOne(s[start..]);
    case Some(f) =>
      var rest := SplitFrom(m, s, f.at + f.len);
      assert SplitFrom(m, s, start) == [s[start..f.at], s[f.at..f.at + f.len]] + rest;
      SplitJoins(m, s, f.at + f.len);
      JoinStep(s, start, f.at, f.len, rest);
  }

  /** With no match left, the rest of the text is the last part. */
  lemma TailShape(m: Matcher, s: string, start: nat)
    requires start <= |s|
    requires forall q :: start <= q < |s| ==> m(s[q..]).None?
    ensures WellFormedParts(m, [s[start..]])
  {
    forall p | 0 <= p < |s| - start ensures m(s[start..][p..]).None? {
      assert s[start..][p..] == s[start + p..];
    }
  }

  /** A match at `i` closes the current part and opens the next. */
  lemma MatchStep(m: Matcher, s: string, start: nat, i: nat, n: nat, rest: seq<string>)
    requires Local(m)
    requires start <= i < |s|
    requires forall q :: start <= q < i ==> m(s[q..]).None?
    requires m(s[i..]) == Some(n)
    requires WellFormedParts(m, rest)
    ensures WellFormedParts(m, [s[start..i], s[i..i + n]] + rest)
  {
    CapturedIsFull(m, s, i, n);
    TextBeforeHasNoMatch(m, s, start, i, n);
    ConsPair(m, s[start..i], s[i..i + n], rest);
  }

  /** The text before a match, the match and the parts after it join back to the text. */
  lemma JoinStep(s: string, start: nat, i: nat, n: nat, rest: seq<string>)
    requires start <= i <= i + n <= |s|
    requires Join(rest) == s[i + n..]
    ensures Join([s[start..i], s[i..i + n]] + rest) == s[start..]
  {
    JoinPair(s[start..i], s[i..i + n], rest);
    Reglue(s, i, i + n);
    Reglue(s, start, i);
  }

  /** The captured group is a full match of the pattern. */
  lemma CapturedIsFull(m: Matcher, s: string, i: nat, n: nat)
    requires Local(m)
    requires i <= |s|
    requires m(s[i..]) == Some(n)
    ensures FullMatch(m, s[i..i + n])
  {
    assert s[i..][..n] == s[i..i + n][..n];
    assert StartsWithMatchOf(m, s[i..], s[i..i + n]);
  }

  /** No match starts in the text before the leftmost match, even when that text is
      followed by the match alone. */
  lemma TextBeforeHasNoMatch(m: Matcher, s: string, start: nat, i: nat, n: nat)
    requires Local(m)
    requires start <= i <= |s|
    requires forall q :: start <= q < i ==> m(s[q..]).None?
    requires m(s[i..]) == Some(n)
    ensures NoMatchBefore(m, s[start..i] + s[i..i + n], i - start)
  {
    var xy := s[start..i] + s[i..i + n];
    assert xy == s[start..i + n];
    forall p | 0 <= p < i - start ensures m(xy[p..]).None? {
      var b := xy[p..];
      if m(b).Some? {
        assert b[..m(b).value] == s[start + p..][..m(b).value];
        assert StartsWithMatchOf(m, b, s[start + p..]);
      }
    }
  }

  lemma JoinPair(x: string, y: string, rest: seq<string>)
    ensures Join([x, y] + rest) == x + y + Join(rest)
  {
    var r := [x, y] + rest;
    assert r[1..] == [y] + rest && r[1..][1..] == rest;
  }

  lemma ConsPair(m: Matcher, x: string, y: string, rest: seq<string>)
    requires PartPair(m, x, y)
    requires WellFormedParts(m, rest)
    ensures WellFormedParts(m, [x, y] + rest)
  {
    var r := [x, y] + rest;
    forall k | 0 < k < |r| && k % 2 == 1
      ensures PairAt(m, r, k)
    {
      if k > 1 {
        assert PairAt(m, rest, k - 2);
        assert r[k] == rest[k - 2] && r[k - 1] == rest[k - 3];
      }
    }
  }

  /** A text with no match in it splits into itself alone. */
  lemma SplitMatchFree(m: Matcher, s: string)
    requires NonEmptyMatches(m)
    requires MatchFree(m, s)
    ensures Split(m, s) == [s]
  {
    assert s[0..] == s;
  }
}
