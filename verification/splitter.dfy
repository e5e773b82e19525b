/** The block splitter: `BLOCK_SPLIT_RE`, `re.split` with its capturing group, and the loop of
    `split_html_blocks` that glues every captured boundary tag to the text before it. */
module Splitter {
  import opened Wrappers
  import opened Text
  import opened Scripts
  import opened Re

  /** `t` starts with `lit`, compared under `(?i)`. */
  predicate LitPrefix(t: string, lit: string) {
    |lit| <= |t| && forall k :: 0 <= k < |lit| ==> FoldEq(t[k], lit[k])
  }

  /** The alternatives of `BLOCK_SPLIT_RE`, in the pattern's order. */
  datatype Alternative =
    | Literal(text: string)  // a closing tag spelled out, e.g. `</p>`
    | Heading                // `</h[1-6]>`
    | LineBreak              // the `<br…>` alternative, whose gap depends on the script

  const Alternatives: seq<Alternative> := [
    Literal("</p>"), Literal("</li>"), Literal("</div>"), Heading,
    Literal("</blockquote>"), Literal("</section>"), Literal("</article>"), LineBreak
  ]

  /** The end of the run of gap characters that starts at `j`. */
  function SkipGap(sc: Script, t: string, j: nat): (r: nat)
    requires j <= |t|
    ensures j <= r <= |t|
    ensures forall k :: j <= k < r ==> IsGapChar(sc, t[k])
    ensures r == |t| || !IsGapChar(sc, t[r])
    decreases |t| - j
  {
    if j < |t| && IsGapChar(sc, t[j]) then SkipGap(sc, t, j + 1) else j
  }

  /** Where the gap of a line-break tag begins, if the script's lead-in follows `<br`. */
  function BreakLead(sc: Script, t: string): Option<nat>
  {
    match sc.gap
    case Whitespace => Some(3)
    case BackslashThenEsses => if 3 < |t| && t[3] == '\\' then Some(4) else None
  }

  // The line-break alternative: `<br`, the script's gap, an optional slash, then `>`. The gap
  // run is taken greedily; giving part of it back never helps, because a gap character is
  // neither a slash nor `>`.
  function BreakPrefix(sc: Script, t: string): Option<nat>
  {
    if !LitPrefix(t, "<br") then None
    else
      match BreakLead(sc, t)
      case None => None
      case Some(j) =>
        var g := SkipGap(sc, t, j);
        var h := if g < |t| && t[g] == '/' then g + 1 else g;
        if h < |t| && t[h] == '>' then Some(h + 1) else None
  }

  /** The length of the match of one alternative at the start of `t`. */
  function TryAlternative(sc: Script, alt: Alternative, t: string): (r: Option<nat>)
    requires alt in Alternatives
    ensures r.Some? ==> 4 <= r.value <= |t|
  {
    match alt
    case Literal(lit) => if LitPrefix(t, lit) then Some(|lit|) else None
    case Heading => if LitPrefix(t, "</h") && 5 <= |t| && '1' <= t[3] <= '6' && t[4] == '>' then Some(5) else None
    case LineBreak => BreakPrefix(sc, t)
  }

  /** Tries the alternatives from index `a` on and takes the first that matches. */
  function MatchFrom(sc: Script, t: string, a: nat): (r: Option<nat>)
    requires a <= |Alternatives|
    ensures r.Some? ==> 4 <= r.value <= |t|
    decreases |Alternatives| - a
  {
    if a == |Alternatives| then None
    else
      match TryAlternative(sc, Alternatives[a], t)
      case Some(n) => Some(n)
      case None => MatchFrom(sc, t, a + 1)
  }

  /** The length of the `BLOCK_SPLIT_RE` match at the start of `t`, if there is one. */
  function MatchPrefix(sc: Script, t: string): (r: Option<nat>)
    ensures r.Some? ==> 4 <= r.value <= |t|
  {
    MatchFrom(sc, t, 0)
  }

  /** `BLOCK_SPLIT_RE` as a matcher for `re.split`. */
  function Boundary(sc: Script): Matcher {
    t => MatchPrefix(sc, t)
  }

  /** `BLOCK_SPLIT_RE.fullmatch(x)` */
  predicate IsBoundary(sc: Script, x: string) {
    FullMatch(Boundary(sc), x)
  }

  /** The while loop of `split_html_blocks` from index `i` of `parts`: a part followed by a
      part that is a whole boundary tag is glued to it, any other part stands alone. */
  function PairFrom(m: Matcher, parts: seq<string>, i: nat): seq<string>
    decreases |parts| - i
  {
    if i >= |parts| then []
    else if i + 1 < |parts| && FullMatch(m, parts[i + 1]) then [parts[i] + parts[i + 1]] + PairFrom(m, parts, i + 2)
    else [parts[i]] + PairFrom(m, parts, i + 1)
  }

  /** `split_html_blocks` for any pattern. */
  function Blocks(m: Matcher, html: string): seq<string>
    requires NonEmptyMatches(m)
  {
    var parts := Split(m, html);
    if |parts| == 1 then [html] else PairFrom(m, parts, 0)
  }

  /** `split_html_blocks(html)` */
  function SplitHtmlBlocks(sc: Script, html: string): seq<string> {
    BoundaryLocal(sc);
    Blocks(Boundary(sc), html)
  }

  /** The fold classes of the characters at index 1 and 2 that an alternative demands. */
  function Signature(alt: Alternative): (char, char)
    requires alt in Alternatives
  {
    match alt
    case Literal(lit) => (lit[1], lit[2])
    case Heading => ('/', 'h')
    case LineBreak => ('b', 'r')
  }

  /** Every match of an alternative starts with its signature. */
  lemma SignatureOfMatch(sc: Script, alt: Alternative, t: string)
    requires alt in Alternatives
    requires TryAlternative(sc, alt, t).Some?
    ensures t[0] == '<'
    ensures FoldEq(t[1], Signature(alt).0) && FoldEq(t[2], Signature(alt).1)
  {
    match alt
    case Literal(lit) =>
      assert FoldEq(t[0], lit[0]) && FoldEq(t[1], lit[1]) && FoldEq(t[2], lit[2]);
    case Heading =>
      assert FoldEq(t[0], "</h"[0]) && FoldEq(t[1], "</h"[1]) && FoldEq(t[2], "</h"[2]);
    case LineBreak =>
      assert FoldEq(t[0], "<br"[0]) && FoldEq(t[1], "<br"[1]) && FoldEq(t[2], "<br"[2]);
  }

  /** A signature: `/` or `b` second, a lower-case letter third. */
  predicate SignatureShape(sig: (char, char)) {
    (sig.0 == '/' || sig.0 == 'b') && 'a' <= sig.1 <= 'z'
  }

  /** The alternatives have well-shaped, pairwise distinct signatures. */
  lemma SignaturesDiffer(a: nat, b: nat)
    requires a < b < |Alternatives|
    ensures SignatureShape(Signature(Alternatives[a])) && SignatureShape(Signature(Alternatives[b]))
    ensures Signature(Alternatives[a]) != Signature(Alternatives[b])
  {
  }

  /** No two characters fit two different signatures. */
  lemma SignatureDisjoint(c1: char, c2: char, p: (char, char), q: (char, char))
    requires SignatureShape(p) && SignatureShape(q) && p != q
    ensures !(FoldEq(c1, p.0) && FoldEq(c2, p.1) && FoldEq(c1, q.0) && FoldEq(c2, q.1))
  {
    if p.0 == q.0 {
      FoldDisjoint(c2, p.1, q.1);
    }
  }

  /** No two alternatives can match at the same place. */
  lemma Exclusive(sc: Script, a: nat, b: nat, t: string)
    requires a < b < |Alternatives|
    requires TryAlternative(sc, Alternatives[a], t).Some?
    ensures TryAlternative(sc, Alternatives[b], t).None?
  {
    if TryAlternative(sc, Alternatives[b], t).Some? {
      SignatureOfMatch(sc, Alternatives[a], t);
      SignatureOfMatch(sc, Alternatives[b], t);
      SignaturesDiffer(a, b);
      SignatureDisjoint(t[1], t[2], Signature(Alternatives[a]), Signature(Alternatives[b]));
    }
  }

  /** Distinct lower-case letters have disjoint `(?i)` classes. */
  lemma FoldDisjoint(c: char, p: char, q: char)
    requires 'a' <= p <= 'z' && 'a' <= q <= 'z' && p != q
    ensures !(FoldEq(c, p) && FoldEq(c, q))
  {
  }

  /** One alternative on two texts that agree on the characters it matched. */
  lemma AlternativeAgree(sc: Script, alt: Alternative, u: string, t: string, n: nat)
    requires alt in Alternatives
    requires TryAlternative(sc, alt, u) == Some(n)
    requires n <= |t| && forall k :: 0 <= k < n ==> u[k] == t[k]
    ensures TryAlternative(sc, alt, t) == Some(n)
  {
    match alt
    case Literal(lit) =>
    case Heading =>
    case LineBreak =>
      var j := BreakLead(sc, u).value;
      assert BreakLead(sc, t) == Some(j);
      SkipGapAgree(sc, u, t, j, n);
  }

  lemma {:induction false} MatchFromAgree(sc: Script, u: string, t: string, a: nat, n: nat)
    requires a <= |Alternatives|
    requires MatchFrom(sc, u, a) == Some(n)
    requires n <= |t| && forall k :: 0 <= k < n ==> u[k] == t[k]
    ensures MatchFrom(sc, t, a) == Some(n)
    decreases |Alternatives| - a
  {
    if TryAlternative(sc, Alternatives[a], u).Some? {
      AlternativeAgree(sc, Alternatives[a], u, t, n);
    } else {
      MatchFromAgree(sc, u, t, a + 1, n);
      var b := MatchedAt(sc, u, a + 1);
      AlternativeAgree(sc, Alternatives[b], u, t, n);
      if TryAlternative(sc, Alternatives[a], t).Some? {
        Exclusive(sc, a, b, t);
        assert false;
      }
    }
  }

  /** The index of the alternative that produced a match. */
  lemma {:induction false} MatchedAt(sc: Script, t: string, a: nat) returns (b: nat)
    requires a <= |Alternatives|
    requires MatchFrom(sc, t, a).Some?
    ensures a <= b < |Alternatives| && TryAlternative(sc, Alternatives[b], t) == MatchFrom(sc, t, a)
    decreases |Alternatives| - a
  {
    if TryAlternative(sc, Alternatives[a], t).Some? {
      b := a;
    } else {
      b := MatchedAt(sc, t, a + 1);
    }
  }

  /** Two texts that agree on a match's characters match the same way: the match of
      `BLOCK_SPLIT_RE` at a position depends only on the characters it covers. */
  lemma MatchAgree(sc: Script, u: string, t: string, n: nat)
    requires MatchPrefix(sc, u) == Some(n)
    requires n <= |t| && u[..n] == t[..n]
    ensures MatchPrefix(sc, t) == Some(n)
  {
    forall k | 0 <= k < n ensures u[k] == t[k] {
      assert u[k] == u[..n][k];
    }
    MatchFromAgree(sc, u, t, 0, n);
  }

  lemma SkipGapAgree(sc: Script, u: string, t: string, j: nat, n: nat)
    requires j <= |u| && j <= |t| && n <= |u| && n <= |t|
    requires forall k :: 0 <= k < n ==> u[k] == t[k]
    requires SkipGap(sc, u, j) < n
    ensures SkipGap(sc, t, j) == SkipGap(sc, u, j)
    decreases |u| - j
  {
    if j < |u| && IsGapChar(sc, u[j]) {
      SkipGapAgree(sc, u, t, j + 1, n);
    }
  }

  /** A match of `BLOCK_SPLIT_RE` is never empty and depends only on the characters it covers. */
  lemma BoundaryLocal(sc: Script)
    ensures Local(Boundary(sc))
  {
    var m := Boundary(sc);
    forall u, t | StartsWithMatchOf(m, u, t) ensures m(t) == m(u) {
      MatchAgree(sc, u, t, m(u).value);
    }
  }

  /** A block that ends at its first boundary match: text in which no match starts, then the
      match. */
  predicate EndsAtFirstMatch(m: Matcher, b: string) {
    exists k :: 0 <= k < |b| && FullMatch(m, b[k..]) && NoMatchBefore(m, b, k)
  }

  /** The blocks glue back to the text; every block but the last ends at its first boundary
      tag, and the last holds none. */
  predicate BlocksShape(m: Matcher, html: string, blocks: seq<string>) {
    && |blocks| >= 1
    && Join(blocks) == html
    && (forall k :: 0 <= k < |blocks| - 1 ==> EndsAtFirstMatch(m, blocks[k]))
    && MatchFree(m, blocks[|blocks| - 1])
  }

  /** Gluing each captured match to the text before it turns well-formed parts into blocks of
      the expected shape, with nothing lost. */
  lemma {:induction false} PairShape(m: Matcher, r: seq<string>, i: nat)
    requires NonEmptyMatches(m)
    requires WellFormedParts(m, r)
    requires i <= |r| - 1 && i % 2 == 0
    ensures BlocksShape(m, Join(r[i..]), PairFrom(m, r, i))
    decreases |r| - i
  {
    if i == |r| - 1 {
      LastPairShape(m, r);
    } else {
      EvenStep(i, |r|);
      assert PairAt(m, r, i + 1);
      PairShape(m, r, i + 2);
      PairStep(m, r, i);
    }
  }

  /** Between an even index and an odd length, the next even index still leaves a last part. */
  lemma EvenStep(i: nat, n: nat)
    requires i % 2 == 0 && n % 2 == 1 && i < n - 1
    ensures i + 2 <= n - 1 && (i + 2) % 2 == 0 && (i + 1) % 2 == 1
  {
  }

  /** The last part, free of matches, stands alone as the last block. */
  lemma LastPairShape(m: Matcher, r: seq<string>)
    requires |r| >= 1 && MatchFree(m, r[|r| - 1])
    ensures BlocksShape(m, Join(r[|r| - 1..]), PairFrom(m, r, |r| - 1))
  {
    var i := |r| - 1;
    assert PairFrom(m, r, i + 1) == [];
    assert PairFrom(m, r, i) == [r[i]];
    assert r[i..] == [r[i]];
    JoinOne(r[i]);
  }

  /** A part and the captured match after it glue into a block in front of the rest. */
  lemma PairStep(m: Matcher, r: seq<string>, i: nat)
    requires NonEmptyMatches(m)
    requires i + 2 < |r| && PairAt(m, r, i + 1)
    requires BlocksShape(m, Join(r[i + 2..]), PairFrom(m, r, i + 2))
    ensures BlocksShape(m, Join(r[i..]), PairFrom(m, r, i))
  {
    PairAtGlues(m, r, i + 1);
    assert PairFrom(m, r, i) == [r[i] + r[i + 1]] + PairFrom(m, r, i + 2);
    GlueStep(m, r, i);
  }

  /** A captured match passes the `fullmatch` test of the loop, and gluing it to the text before
      it makes a block that ends at its first match. */
  lemma PairAtGlues(m: Matcher, r: seq<string>, k: nat)
    requires NonEmptyMatches(m)
    requires 0 < k < |r|
    requires PairAt(m, r, k)
    ensures FullMatch(m, r[k])
    ensures EndsAtFirstMatch(m, r[k - 1] + r[k])
  {
    var b := r[k - 1] + r[k];
    assert PartPair(m, r[k - 1], r[k]);
    assert b[|r[k - 1]|..] == r[k];
  }

  /** One more glued block in front keeps the shape. */
  lemma GlueStep(m: Matcher, r: seq<string>, i: nat)
    requires 0 <= i && i + 2 < |r|
    requires EndsAtFirstMatch(m, r[i] + r[i + 1])
    requires BlocksShape(m, Join(r[i + 2..]), PairFrom(m, r, i + 2))
    ensures BlocksShape(m, Join(r[i..]), [r[i] + r[i + 1]] + PairFrom(m, r, i + 2))
  {
    var rest := PairFrom(m, r, i + 2);
    var bs := [r[i] + r[i + 1]] + rest;
    assert bs[1..] == rest;
    assert r[i..] == [r[i], r[i + 1]] + r[i + 2..];
    JoinPair(r[i], r[i + 1], r[i + 2..]);
    forall k | 0 <= k < |bs| - 1 ensures EndsAtFirstMatch(m, bs[k]) {
      if k > 0 { assert bs[k] == rest[k - 1]; }
    }
  }

  /** `split_html_blocks` for any local pattern: the blocks glue back to the text, every block
      but the last ends at its first boundary, and the last holds none. */
  lemma BlocksSpec(m: Matcher, html: string)
    requires Local(m)
    ensures BlocksShape(m, html, Blocks(m, html))
  {
    var parts := Split(m, html);
    SplitShape(m, html, 0);
    SplitJoins(m, html, 0);
    assert html[0..] == html;
    if |parts| == 1 {
      JoinOne(html);
      assert parts[0] == html by { JoinOne(parts[0]); assert parts == [parts[0]]; }
    } else {
      PairShape(m, parts, 0);
      assert parts[0..] == parts;
    }
  }

  /** `split_html_blocks(html)` returns at least one block; the blocks glue back to `html`;
      every block but the last ends with a boundary tag, the first one in it; the last block
      holds no boundary tag. */
  lemma SplitHtmlBlocksSpec(sc: Script, html: string)
    ensures BlocksShape(Boundary(sc), html, SplitHtmlBlocks(sc, html))
  {
    BoundaryLocal(sc);
    BlocksSpec(Boundary(sc), html);
  }

  // The line-break alternative in the two scripts.

  /** Where the scan of `MatchFrom` ends up with no match, no alternative from `a` on matched. */
  lemma {:induction false} NoAlternativeMatched(sc: Script, t: string, a: nat, b: nat)
    requires a <= b < |Alternatives|
    requires MatchFrom(sc, t, a).None?
    ensures TryAlternative(sc, Alternatives[b], t).None?
    decreases b - a
  {
    if a < b {
      NoAlternativeMatched(sc, t, a + 1, b);
    }
  }

  /** Text that does not open with `<` never starts a boundary tag. */
  lemma NoMatchWithoutOpen(sc: Script, t: string)
    requires |t| == 0 || t[0] != '<'
    ensures MatchPrefix(sc, t).None?
  {
    if MatchPrefix(sc, t).Some? {
      var b := MatchedAt(sc, t, 0);
      SignatureOfMatch(sc, Alternatives[b], t);
    }
  }

  /** Every alternative but the line break demands a `/` second. */
  lemma OnlyBreakLacksSlash(b: nat)
    requires b < |Alternatives| && Signature(Alternatives[b]).0 != '/'
    ensures b == |Alternatives| - 1
  {
  }

  /** Where the second character is not `/`, only the line-break alternative can match. */
  lemma MatchIsBreak(sc: Script, t: string)
    requires |t| >= 2 && t[1] != '/'
    ensures MatchPrefix(sc, t) == BreakPrefix(sc, t)
  {
    if MatchPrefix(sc, t).Some? {
      var b := MatchedAt(sc, t, 0);
      SignatureOfMatch(sc, Alternatives[b], t);
      assert Signature(Alternatives[b]).0 != '/';
      OnlyBreakLacksSlash(b);
    } else {
      NoAlternativeMatched(sc, t, 0, |Alternatives| - 1);
    }
  }

  /** A run of gap characters from `j` to `e`, stopped by a non-gap character or the end, is
      skipped whole. */
  lemma {:induction false} SkipGapRun(sc: Script, t: string, j: nat, e: nat)
    requires j <= e <= |t|
    requires forall k :: j <= k < e ==> IsGapChar(sc, t[k])
    requires e == |t| || !IsGapChar(sc, t[e])
    ensures SkipGap(sc, t, j) == e
    decreases e - j
  {
    if j < e {
      SkipGapRun(sc, t, j + 1, e);
    }
  }

  /** The tag text `<br`, then `gap`, then `/` if `slash`, then `>`, with `<br` in any case. */
  function BreakTag(lead: string, gap: string, slash: bool): string {
    lead + gap + (if slash then "/" else "") + ">"
  }

  /** With the whitespace gap, `<br>`, `<br/>`, `<BR />` and every other spelling of a line
      break with any run of whitespace before an optional slash is a whole boundary tag. */
  lemma WhitespaceBreakIsBoundary(sc: Script, lead: string, gap: string, slash: bool)
    requires sc.gap == Whitespace
    requires |lead| == 3 && LitPrefix(lead, "<br")
    requires forall k :: 0 <= k < |gap| ==> IsSpace(gap[k])
    ensures IsBoundary(sc, BreakTag(lead, gap, slash))
  {
    var t := BreakTag(lead, gap, slash);
    var e := 3 + |gap|;
    assert t[1] == lead[1] && t[3..e] == gap;
    assert LitPrefix(t, "<br") by {
      forall k | 0 <= k < 3 ensures FoldEq(t[k], "<br"[k]) { assert t[k] == lead[k]; }
    }
    forall k | 3 <= k < e ensures IsGapChar(sc, t[k]) { assert t[k] == gap[k - 3]; }
    assert t[e] == (if slash then '/' else '>');
    assert slash ==> t[e + 1] == '>';
    SkipGapRun(sc, t, 3, e);
    TagBreakPrefix(sc, t, e, slash);
    BreakIsBoundary(sc, t);
  }

  /** `<br`, a gap skipped up to `e`, an optional slash and the closing `>` that ends the text
      make a line-break match of the whole text. */
  lemma TagBreakPrefix(sc: Script, t: string, e: nat, slash: bool)
    requires LitPrefix(t, "<br") && BreakLead(sc, t) == Some(3)
    requires 3 <= e < |t| && SkipGap(sc, t, 3) == e
    requires |t| == e + (if slash then 2 else 1)
    requires t[e] == (if slash then '/' else '>')
    requires slash ==> t[e + 1] == '>'
    ensures BreakPrefix(sc, t) == Some(|t|)
  {
  }

  /** A line-break match of the whole text, whose second character is not `/`, makes it a
      boundary tag. */
  lemma BreakIsBoundary(sc: Script, t: string)
    requires |t| >= 2 && t[1] != '/'
    requires BreakPrefix(sc, t) == Some(|t|)
    ensures IsBoundary(sc, t)
  {
    MatchIsBreak(sc, t);
    assert Boundary(sc)(t) == MatchPrefix(sc, t);
  }

  /** The closing tags `BLOCK_SPLIT_RE` names: `</p>`, `</li>`, `</div>`, `</h1>` to `</h6>`,
      `</blockquote>`, `</section>` and `</article>`. */
  predicate ClosingTag(lit: string) {
    || lit == "</p>" || lit == "</li>" || lit == "</div>"
    || lit == "</blockquote>" || lit == "</section>" || lit == "</article>"
    || (|lit| == 5 && lit[..3] == "</h" && '1' <= lit[3] <= '6' && lit[4] == '>')
  }

  /** Under both scripts, every closing tag the pattern names, spelled in any case, is a whole
      boundary tag. */
  lemma ClosingTagIsBoundary(sc: Script, lit: string, t: string)
    requires ClosingTag(lit)
    requires |t| == |lit| && forall k :: 0 <= k < |t| ==> FoldEq(t[k], lit[k])
    ensures IsBoundary(sc, t)
  {
    var a :=
      if lit == "</p>" then 0 else if lit == "</li>" then 1 else if lit == "</div>" then 2
      else if lit == "</blockquote>" then 4 else if lit == "</section>" then 5
      else if lit == "</article>" then 6 else 3;
    if a == 3 {
      HeadingSpelling(sc, lit, t);
    } else {
      assert Alternatives[a] == Literal(lit);
      LiteralSpelling(sc, a, t);
    }
    FirstAlternativeWins(sc, t, 0, a);
    assert Boundary(sc)(t) == MatchPrefix(sc, t);
  }

  /** A spelling of a literal alternative is a whole match of it. */
  lemma LiteralSpelling(sc: Script, a: nat, t: string)
    requires a < |Alternatives| && Alternatives[a].Literal?
    requires |t| == |Alternatives[a].text| && forall k :: 0 <= k < |t| ==> FoldEq(t[k], Alternatives[a].text[k])
    ensures TryAlternative(sc, Alternatives[a], t) == Some(|t|)
  {
  }

  /** A spelling of `</h1>` to `</h6>` is a whole match of the heading alternative. */
  lemma HeadingSpelling(sc: Script, lit: string, t: string)
    requires |lit| == 5 && lit[..3] == "</h" && '1' <= lit[3] <= '6' && lit[4] == '>'
    requires |t| == 5 && forall k :: 0 <= k < 5 ==> FoldEq(t[k], lit[k])
    ensures TryAlternative(sc, Heading, t) == Some(5)
  {
    forall k | 0 <= k < 3 ensures FoldEq(t[k], "</h"[k]) {
      assert lit[k] == lit[..3][k];
    }
    assert FoldEq(t[3], lit[3]) && FoldEq(t[4], lit[4]);
  }

  /** An alternative that matches wins over every alternative before it, since those cannot
      match at the same place. */
  lemma {:induction false} FirstAlternativeWins(sc: Script, t: string, b: nat, a: nat)
    requires b <= a < |Alternatives|
    requires TryAlternative(sc, Alternatives[a], t).Some?
    ensures MatchFrom(sc, t, b) == TryAlternative(sc, Alternatives[a], t)
    decreases a - b
  {
    if b < a {
      if TryAlternative(sc, Alternatives[b], t).Some? {
        Exclusive(sc, b, a, t);
        assert false;
      }
      FirstAlternativeWins(sc, t, b + 1, a);
      assert MatchFrom(sc, t, b) == MatchFrom(sc, t, b + 1);
    } else {
      assert MatchFrom(sc, t, b) == TryAlternative(sc, Alternatives[a], t);
    }
  }

  /** The Deepseek pattern reads `<br` and then a backslash: with no backslash after `<br`, the
      line-break alternative cannot match. */
  lemma DeepseekBreakNeedsBackslash(t: string)
    requires |t| >= 4 && t[1] != '/' && t[3] != '\\'
    ensures MatchPrefix(Deepseek, t).None?
  {
    MatchIsBreak(Deepseek, t);
  }

  /** As written, the Deepseek script does not split `a<br>b`: it is one block. */
  lemma DeepseekKeepsPlainBreak()
    ensures !IsBoundary(Deepseek, "<br>")
    ensures SplitHtmlBlocks(Deepseek, "a<br>b") == ["a<br>b"]
  {
    DeepseekBreakNeedsBackslash("<br>");
    BoundaryLocal(Deepseek);
    SampleFree();
    SplitMatchFree(Boundary(Deepseek), "a<br>b");
  }

  lemma SampleFree()
    ensures MatchFree(Boundary(Deepseek), "a<br>b")
  {
    var s := "a<br>b";
    OpenOnlyAt1(s);
    forall p | 0 <= p < |s| ensures MatchPrefix(Deepseek, s[p..]).None? {
      if p == 1 {
        DeepseekBreakNeedsBackslash(s[1..]);
      } else {
        NoMatchWithoutOpen(Deepseek, s[p..]);
      }
    }
  }

  lemma OpenOnlyAt1(s: string)
    requires s == "a<br>b"
    ensures forall p :: 0 <= p < |s| && p != 1 ==> s[p..][0] != '<'
    ensures |s[1..]| >= 4 && s[1..][1] != '/' && s[1..][3] != '\\'
  {
  }

  /** With the whitespace gap of the intended pattern, `a<br>b` splits after the tag. */
  lemma WhitespaceSplitsPlainBreak(sc: Script)
    requires sc.gap == Whitespace
    ensures IsBoundary(sc, "<br>")
    ensures SplitHtmlBlocks(sc, "a<br>b") == ["a<br>", "b"]
  {
    var m := Boundary(sc);
    WhitespaceBreakIsBoundary(sc, "<br", "", false);
    assert BreakTag("<br", "", false) == "<br>";
    BoundaryLocal(sc);
    forall t | |t| == 0 || t[0] != '<' ensures m(t).None? {
      NoMatchWithoutOpen(sc, t);
    }
    SampleSplit(m);
  }

  /** `re.split` of `a<br>b` for any local pattern that matches `<br>` whole and matches
      nowhere that does not open with `<`. */
  lemma SampleSplit(m: Matcher)
    requires Local(m)
    requires FullMatch(m, "<br>")
    requires forall t :: |t| == 0 || t[0] != '<' ==> m(t).None?
    ensures Blocks(m, "a<br>b") == ["a<br>", "b"]
  {
    var s := "a<br>b";
    assert s[0..] == s;
    assert s[1..][..4] == "<br>"[..4];
    assert StartsWithMatchOf(m, "<br>", s[1..]);
    assert Search(m, s, 0) == Some(Found(1, 4));
    assert s[5..] == "b";
    assert Search(m, s, 5).None?;
    assert SplitFrom(m, s, 5) == ["b"];
    assert s[0..1] == "a" && s[1..5] == "<br>";
    assert SplitFrom(m, s, 0) == [s[0..1], s[1..5]] + SplitFrom(m, s, 5);
    var parts := ["a", "<br>", "b"];
    assert Split(m, s) == parts;
    assert PairFrom(m, parts, 2) == ["b"];
    assert PairFrom(m, parts, 0) == [parts[0] + parts[1]] + PairFrom(m, parts, 2);
    assert parts[0] + parts[1] == "a<br>";
  }
}
