/** The quality gate: `strip_tags`, `greek_ratio`, `english_runs_count` and
    `looks_greek_enough`. */
module Gate {
  import opened Wrappers
  import opened Text
  import opened Scripts

  // ---------------------------------------------------------------------------------------
  // strip_tags: `re.sub(r'<[^>]*>', ' ', html)`

  /** The index of the first `>` in `s`. */
  function FirstClose(s: string): (r: Option<nat>)
    ensures r.Some? ==> r.value < |s| && s[r.value] == '>' && '>' !in s[..r.value]
    ensures r.None? ==> '>' !in s
  {
    if |s| == 0 then None
    else if s[0] == '>' then Some(0)
    else match FirstClose(s[1..])
      case None => None
      case Some(j) => assert s[..j + 1] == [s[0]] + s[1..][..j]; Some(j + 1)
  }

  /** `strip_tags(s)`: every `<` that has a `>` after it starts a tag running to the first such
      `>`, and the tag becomes one space; everything else is copied. */
  function StripTags(s: string): string
    decreases |s|
  {
    if |s| == 0 then ""
    else if s[0] == '<' && FirstClose(s).Some? then " " + StripTags(s[FirstClose(s).value + 1..])
    else s[..1] + StripTags(s[1..])
  }

  /** No `<` in `s` has a `>` after it: nothing left that the pattern would match. */
  predicate TagFree(s: string) {
    forall i, j :: 0 <= i < j < |s| ==> !(s[i] == '<' && s[j] == '>')
  }

  /** Stripping invents no characters but the space, and never lengthens the text. */
  lemma {:induction false} StripTagsChars(s: string)
    ensures |StripTags(s)| <= |s|
    ensures forall c :: c in StripTags(s) && c != ' ' ==> c in s
    decreases |s|
  {
    if |s| > 0 {
      if s[0] == '<' && FirstClose(s).Some? {
        var j := FirstClose(s).value;
        StripTagsChars(s[j + 1..]);
        forall c | c in StripTags(s[j + 1..]) && c != ' ' ensures c in s {
          var k :| 0 <= k < |s[j + 1..]| && s[j + 1..][k] == c;
          assert s[j + 1 + k] == c;
        }
      } else {
        StripTagsChars(s[1..]);
        forall c | c in StripTags(s[1..]) && c != ' ' ensures c in s {
          var k :| 0 <= k < |s[1..]| && s[1..][k] == c;
          assert s[1 + k] == c;
        }
      }
    }
  }

  /** After stripping, no tag is left. */
  lemma {:induction false} StripTagsTagFree(s: string)
    ensures TagFree(StripTags(s))
    decreases |s|
  {
    if |s| > 0 {
      if s[0] == '<' && FirstClose(s).Some? {
        StripTagsTagFree(s[FirstClose(s).value + 1..]);
        ConsTagFree(' ', StripTags(s[FirstClose(s).value + 1..]));
      } else {
        StripTagsTagFree(s[1..]);
        StripTagsChars(s[1..]);
        ConsTagFree(s[0], StripTags(s[1..]));
        assert s[..1] == [s[0]];
      }
    }
  }

  lemma ConsTagFree(c: char, r: string)
    requires TagFree(r)
    requires c == '<' ==> '>' !in r
    ensures TagFree([c] + r)
  {
    var t := [c] + r;
    forall i, j | 0 <= i < j < |t| ensures !(t[i] == '<' && t[j] == '>') {
      if i == 0 {
        assert t[j] == r[j - 1];
      } else {
        assert t[i] == r[i - 1] && t[j] == r[j - 1];
      }
    }
  }

  /** Text with no tag in it is left alone. */
  lemma {:induction false} StripTagFree(s: string)
    requires TagFree(s)
    ensures StripTags(s) == s
    decreases |s|
  {
    if |s| > 0 {
      assert TagFree(s[1..]) by {
        forall i, j | 0 <= i < j < |s[1..]| ensures !(s[1..][i] == '<' && s[1..][j] == '>') {
          assert s[1..][i] == s[i + 1] && s[1..][j] == s[j + 1];
        }
      }
      StripTagFree(s[1..]);
      assert s[..1] + s[1..] == s;
    }
  }

  /** Stripping twice is stripping once. */
  lemma StripTagsIdempotent(s: string)
    ensures StripTags(StripTags(s)) == StripTags(s)
  {
    StripTagsTagFree(s);
    StripTagFree(StripTags(s));
  }

  /** A tag at the start is replaced by one space, and what follows is stripped on its own. */
  lemma StripTagFirst(x: string, b: string)
    requires '>' !in x
    ensures StripTags("<" + x + ">" + b) == " " + StripTags(b)
  {
    var s := "<" + x + ">" + b;
    assert s[1 + |x|] == '>';
    assert s[..1 + |x|] == "<" + x;
    assert FirstClose(s) == Some(1 + |x|);
    assert s[2 + |x|..] == b;
  }

  /** A character other than `<` is copied. */
  lemma StripTagsCopies(c: char, r: string)
    requires c != '<'
    ensures StripTags([c] + r) == [c] + StripTags(r)
  {
    assert ([c] + r)[1..] == r;
  }

  /** A tag after text with no `<` in it is replaced by one space, and what follows is
      stripped on its own. */
  lemma {:induction false} StripTagAfter(a: string, x: string, b: string)
    requires forall k :: 0 <= k < |a| ==> a[k] != '<'
    requires '>' !in x
    ensures StripTags(a + "<" + x + ">" + b) == a + " " + StripTags(b)
    decreases |a|
  {
    if |a| == 0 {
      assert a + "<" + x + ">" + b == "<" + x + ">" + b;
      StripTagFirst(x, b);
    } else {
      var tail := a[1..];
      var tag := "<" + x + ">" + b;
      assert a + "<" + x + ">" + b == a + tag && tail + "<" + x + ">" + b == tail + tag;
      CopyFirst(a, tag);
      assert forall k :: 0 <= k < |tail| ==> tail[k] != '<' by {
        forall k | 0 <= k < |tail| ensures tail[k] != '<' { assert tail[k] == a[k + 1]; }
      }
      StripTagAfter(tail, x, b);
      assert [a[0]] + tail == a;
    }
  }

  /** The first character of `a`, not a `<`, is copied ahead of the rest. */
  lemma CopyFirst(a: string, t: string)
    requires |a| > 0 && a[0] != '<'
    ensures StripTags(a + t) == [a[0]] + StripTags(a[1..] + t)
  {
    assert a + t == [a[0]] + (a[1..] + t);
    StripTagsCopies(a[0], a[1..] + t);
  }

  // ---------------------------------------------------------------------------------------
  // greek_ratio

  /** How many characters of `s` satisfy `p`: the length of a `findall` over a one-character
      class. */
  function Count(p: char -> bool, s: string): (r: nat)
    ensures r <= |s|
  {
    if |s| == 0 then 0 else (if p(s[0]) then 1 else 0) + Count(p, s[1..])
  }

  lemma {:induction false} CountAppend(p: char -> bool, a: string, b: string)
    ensures Count(p, a + b) == Count(p, a) + Count(p, b)
    decreases |a|
  {
    if |a| == 0 {
      assert a + b == b;
    } else {
      assert (a + b)[1..] == a[1..] + b;
      CountAppend(p, a[1..], b);
    }
  }

  /** No character satisfies `p` exactly when the count is zero. */
  lemma {:induction false} CountZero(p: char -> bool, s: string)
    ensures Count(p, s) == 0 <==> forall k :: 0 <= k < |s| ==> !p(s[k])
    decreases |s|
  {
    if |s| > 0 {
      CountZero(p, s[1..]);
      if forall k :: 0 <= k < |s| ==> !p(s[k]) {
        forall k | 0 <= k < |s[1..]| ensures !p(s[1..][k]) { assert s[1..][k] == s[k + 1]; }
      }
      if Count(p, s) == 0 {
        forall k | 0 <= k < |s| ensures !p(s[k]) {
          if k > 0 { assert s[k] == s[1..][k - 1]; }
        }
      }
    }
  }

  /** Every character satisfies `p` exactly when the count is the length. */
  lemma {:induction false} CountAll(p: char -> bool, s: string)
    ensures Count(p, s) == |s| <==> forall k :: 0 <= k < |s| ==> p(s[k])
    decreases |s|
  {
    if |s| > 0 {
      CountAll(p, s[1..]);
      if forall k :: 0 <= k < |s| ==> p(s[k]) {
        forall k | 0 <= k < |s[1..]| ensures p(s[1..][k]) { assert s[1..][k] == s[k + 1]; }
      }
      if Count(p, s) == |s| {
        forall k | 0 <= k < |s| ensures p(s[k]) {
          if k > 0 { assert s[k] == s[1..][k - 1]; }
        }
      }
    }
  }

  function GreekCount(sc: Script, s: string): nat {
    Count(c => IsGreek(sc, c), s)
  }

  function LatinCount(s: string): nat {
    Count(IsLatin, s)
  }

  /** `(greek + latin) or 1` */
  function Denominator(g: nat, l: nat): (d: nat)
    ensures d >= 1 && d >= g + l
    ensures g + l > 0 ==> d == g + l
  {
    if g + l == 0 then 1 else g + l
  }

  /** `greek / ((greek + latin) or 1)` for `greek` Greek and `latin` Latin letters. */
  function Fraction(g: nat, l: nat): (r: real)
    ensures 0.0 <= r <= 1.0
    ensures r == 1.0 <==> g > 0 && l == 0
    ensures r == 0.0 <==> g == 0
  {
    (g as real) / (Denominator(g, l) as real)
  }

  /** `greek_ratio(s)`, as an exact fraction. */
  function GreekRatio(sc: Script, s: string): (r: real)
    ensures 0.0 <= r <= 1.0
    ensures r == 1.0 <==> GreekCount(sc, s) > 0 && LatinCount(s) == 0
    ensures r == 0.0 <==> GreekCount(sc, s) == 0
  {
    Fraction(GreekCount(sc, s), LatinCount(s))
  }

  // ---------------------------------------------------------------------------------------
  // english_runs_count: `len(re.findall(r'[A-Za-z]{6,}', s))`

  /** The length of the run of ASCII letters at the start of `s`. */
  function LatinRun(s: string): (r: nat)
    ensures r <= |s|
    ensures forall k :: 0 <= k < r ==> IsLatin(s[k])
    ensures r == |s| || !IsLatin(s[r])
  {
    if |s| > 0 && IsLatin(s[0]) then 1 + LatinRun(s[1..]) else 0
  }

  /** The scan of `findall`: where a run of six or more letters starts, the greedy match takes
      the whole run and the scan resumes after it; anywhere else the scan moves on by one. */
  function EnglishRuns(s: string): nat
    decreases |s|
  {
    if |s| == 0 then 0
    else if LatinRun(s) >= 6 then 1 + EnglishRuns(s[LatinRun(s)..])
    else EnglishRuns(s[1..])
  }

  /** Six ASCII letters in a row start at `i`. */
  predicate LatinWindow(s: string, i: nat) {
    i + 6 <= |s| && forall k :: i <= k < i + 6 ==> IsLatin(s[k])
  }

  /** There is at least one English run exactly when six ASCII letters stand in a row. */
  lemma {:induction false} EnglishRunsPositive(s: string)
    ensures EnglishRuns(s) > 0 <==> exists i :: LatinWindow(s, i)
    decreases |s|
  {
    if |s| > 0 {
      var n := LatinRun(s);
      if n >= 6 {
        assert LatinWindow(s, 0);
      } else {
        EnglishRunsPositive(s[1..]);
        if exists i :: LatinWindow(s[1..], i) {
          var i: nat :| LatinWindow(s[1..], i);
          assert LatinWindow(s, i + 1) by {
            forall k | i + 1 <= k < i + 7 ensures IsLatin(s[k]) { assert s[k] == s[1..][k - 1]; }
          }
        }
        if exists i :: LatinWindow(s, i) {
          var i: nat :| LatinWindow(s, i);
          if i != 0 {
            assert LatinWindow(s[1..], i - 1) by {
              forall k | i - 1 <= k < i + 5 ensures IsLatin(s[1..][k]) { assert s[1..][k] == s[k + 1]; }
            }
          }
        }
      }
    }
  }

  /** Text without ASCII letters has no English run. */
  lemma {:induction false} NoLettersNoRuns(s: string)
    requires forall k :: 0 <= k < |s| ==> !IsLatin(s[k])
    ensures EnglishRuns(s) == 0
    decreases |s|
  {
    if |s| > 0 {
      assert !IsLatin(s[0]);
      assert forall k :: 0 <= k < |s[1..]| ==> !IsLatin(s[1..][k]) by {
        forall k | 0 <= k < |s[1..]| ensures !IsLatin(s[1..][k]) { assert s[1..][k] == s[k + 1]; }
      }
      NoLettersNoRuns(s[1..]);
    }
  }

  /** The run at the start of `a + [c] + b` stays inside `a` when `c` is not a letter. */
  lemma {:induction false} LatinRunStops(a: string, c: char, b: string)
    requires !IsLatin(c)
    ensures LatinRun(a + [c] + b) == LatinRun(a)
    decreases |a|
  {
    var s := a + [c] + b;
    if |a| > 0 {
      assert s[0] == a[0];
      if IsLatin(a[0]) {
        assert s[1..] == a[1..] + [c] + b;
        LatinRunStops(a[1..], c, b);
      }
    } else {
      assert s[0] == c;
    }
  }

  /** A non-letter separates runs: the count over `a + [c] + b` is the counts over `a` and `b`. */
  lemma {:induction false} EnglishRunsSplit(a: string, c: char, b: string)
    requires !IsLatin(c)
    ensures EnglishRuns(a + [c] + b) == EnglishRuns(a) + EnglishRuns(b)
    decreases |a|
  {
    var s := a + [c] + b;
    LatinRunStops(a, c, b);
    var n := LatinRun(a);
    if |a| == 0 {
      assert s[1..] == b;
    } else if n >= 6 {
      assert s[n..] == a[n..] + [c] + b;
      EnglishRunsSplit(a[n..], c, b);
    } else {
      assert s[1..] == a[1..] + [c] + b;
      EnglishRunsSplit(a[1..], c, b);
    }
  }

  /** Letters on the two sides of a tag never join into one English run: the tag becomes a
      space, and the runs are those of the text before it and of the stripped rest. */
  lemma TagSeparatesRuns(a: string, x: string, b: string)
    requires forall k :: 0 <= k < |a| ==> a[k] != '<'
    requires '>' !in x
    ensures EnglishRuns(StripTags(a + "<" + x + ">" + b)) == EnglishRuns(a) + EnglishRuns(StripTags(b))
  {
    StripTagAfter(a, x, b);
    assert a + " " + StripTags(b) == a + [' '] + StripTags(b);
    EnglishRunsSplit(a, ' ', StripTags(b));
  }

  // ---------------------------------------------------------------------------------------
  // looks_greek_enough

  /** `looks_greek_enough(html)`: the ratio is taken over the raw HTML, tags included; the
      English runs over the text with its tags stripped. */
  predicate LooksGreekEnough(sc: Script, st: Settings, html: string) {
    GreekRatio(sc, html) >= st.minGreekRatio && EnglishRuns(StripTags(html)) <= st.maxEnglishRuns
  }

  /** A fraction with a positive denominator reaches `t` exactly when its numerator reaches
      `t` times the denominator. */
  lemma FractionAtLeast(g: real, d: real, t: real)
    requires d > 0.0
    ensures g / d >= t <==> g >= t * d
  {
    assert (g / d) * d == g;
    if g / d >= t {
      assert (g / d) * d >= t * d;
    } else {
      assert (g / d) * d < t * d;
    }
  }

  /** The ratio test without division: enough Greek letters against Greek and Latin
      together. */
  lemma RatioCounts(sc: Script, t: real, html: string)
    ensures GreekRatio(sc, html) >= t <==>
      (GreekCount(sc, html) as real) >= t * (Denominator(GreekCount(sc, html), LatinCount(html)) as real)
  {
    FractionCounts(GreekCount(sc, html), LatinCount(html), t);
  }

  /** The threshold test on a fraction of counts, without division. */
  lemma FractionCounts(g: nat, l: nat, t: real)
    ensures Fraction(g, l) >= t <==> (g as real) >= t * (Denominator(g, l) as real)
  {
    FractionAtLeast(g as real, Denominator(g, l) as real, t);
  }

  /** With any positive threshold, a text with no Greek in it fails, the empty text included. */
  lemma NoGreekFails(sc: Script, st: Settings, html: string)
    requires st.minGreekRatio > 0.0
    requires forall k :: 0 <= k < |html| ==> !IsGreek(sc, html[k])
    ensures !LooksGreekEnough(sc, st, html)
  {
    CountZero(c => IsGreek(sc, c), html);
  }

  /** With the default threshold of no English runs, six ASCII letters in a row outside the
      tags fail the gate. */
  lemma EnglishWordFails(sc: Script, st: Settings, html: string)
    requires st.maxEnglishRuns <= 0
    requires exists i :: LatinWindow(StripTags(html), i)
    ensures !LooksGreekEnough(sc, st, html)
  {
    EnglishRunsPositive(StripTags(html));
  }

  /** Text made only of characters in the Greek blocks passes any threshold up to 1. */
  lemma AllGreekPasses(sc: Script, st: Settings, html: string)
    requires sc.greek == GreekBlocks
    requires st.minGreekRatio <= 1.0 && st.maxEnglishRuns >= 0
    requires |html| > 0 && forall k :: 0 <= k < |html| ==> IsGreek(sc, html[k])
    ensures LooksGreekEnough(sc, st, html)
  {
    forall k | 0 <= k < |html| ensures !IsLatin(html[k]) && html[k] != '<' {
      assert IsGreek(sc, html[k]);
    }
    CountAll(c => IsGreek(sc, c), html);
    CountZero(IsLatin, html);
    StripTagFree(html);
    NoLettersNoRuns(html);
  }

  lemma CountOne(p: char -> bool, c: char)
    ensures Count(p, [c]) == if p(c) then 1 else 0
  {
    assert [c][1..] == [];
  }

  /** The letter counts of a three-character text. */
  lemma CountThree(p: char -> bool, c0: char, c1: char, c2: char)
    ensures Count(p, [c0, c1, c2]) == Count(p, [c0]) + Count(p, [c1]) + Count(p, [c2])
  {
    assert [c0, c1, c2] == [c0] + ([c1] + [c2]);
    CountAppend(p, [c0], [c1] + [c2]);
    CountAppend(p, [c1], [c2]);
  }

  /** The tags `<p>` and `</p>`: one Latin letter each, no Greek. */
  lemma ParagraphTagCounts(sc: Script)
    requires sc.greek == GreekBlocks
    ensures GreekCount(sc, "<p>") == 0 && LatinCount("<p>") == 1
    ensures GreekCount(sc, "</p>") == 0 && LatinCount("</p>") == 1
  {
    var g := c => IsGreek(sc, c);
    CountZero(g, "<p>");
    CountZero(g, "</p>");
    CountThree(IsLatin, '<', 'p', '>');
    assert "</p>" == ['<'] + ['/', 'p', '>'];
    CountAppend(IsLatin, ['<'], ['/', 'p', '>']);
    CountThree(IsLatin, '/', 'p', '>');
    CountOne(IsLatin, '<');
    CountOne(IsLatin, '/');
    CountOne(IsLatin, 'p');
    CountOne(IsLatin, '>');
  }

  /** The letter counts of a paragraph of Greek text: the Greek letters of the text, and the
      two `p` of the tags. */
  lemma ParagraphCounts(sc: Script, t: string)
    requires sc.greek == GreekBlocks
    requires forall k :: 0 <= k < |t| ==> IsGreek(sc, t[k])
    ensures GreekCount(sc, "<p>" + t + "</p>") == |t|
    ensures LatinCount("<p>" + t + "</p>") == 2
  {
    var g := c => IsGreek(sc, c);
    forall k | 0 <= k < |t| ensures g(t[k]) && !IsLatin(t[k]) { }
    CountAll(g, t);
    CountZero(IsLatin, t);
    ParagraphTagCounts(sc);
    assert "<p>" + t + "</p>" == "<p>" + (t + "</p>");
    CountAppend(g, "<p>", t + "</p>");
    CountAppend(g, t, "</p>");
    CountAppend(IsLatin, "<p>", t + "</p>");
    CountAppend(IsLatin, t, "</p>");
  }

  /** Letters inside tags count as Latin in the ratio: a paragraph of `n` Greek letters is
      `n / (n + 2)` Greek, and fails the default threshold of 0.90 below 18 letters although its
      text is all Greek. */
  lemma TagLettersCountAsLatin(sc: Script, t: string)
    requires sc.greek == GreekBlocks
    requires forall k :: 0 <= k < |t| ==> IsGreek(sc, t[k])
    ensures GreekRatio(sc, "<p>" + t + "</p>") == (|t| as real) / ((|t| + 2) as real)
    ensures |t| < 18 ==> !LooksGreekEnough(sc, Defaults, "<p>" + t + "</p>")
  {
    var s := "<p>" + t + "</p>";
    ParagraphCounts(sc, t);
    RatioCounts(sc, Defaults.minGreekRatio, s);
  }

  /** As written, the Deepseek class counts no Greek letter: proper Greek text has ratio 0 and
      fails the gate with any positive threshold. */
  lemma DeepseekGreekIsNotGreek(st: Settings)
    requires st.minGreekRatio > 0.0
    ensures GreekRatio(Deepseek, "Καλημέρα") == 0.0
    ensures !LooksGreekEnough(Deepseek, st, "Καλημέρα")
  {
    var s := "Καλημέρα";
    forall k | 0 <= k < |s| ensures !IsGreek(Deepseek, s[k]) { }
    NoGreekFails(Deepseek, st, s);
    CountZero(c => IsGreek(Deepseek, c), s);
  }

  /** With the Greek blocks the evidently intended class, the same text passes the default
      gate. */
  lemma GreekBlocksAcceptGreek(sc: Script)
    requires sc.greek == GreekBlocks
    ensures GreekRatio(sc, "Καλημέρα") == 1.0
    ensures LooksGreekEnough(sc, Defaults, "Καλημέρα")
  {
    var s := "Καλημέρα";
    forall k | 0 <= k < |s| ensures IsGreek(sc, s[k]) { }
    AllGreekPasses(sc, Defaults, s);
    CountAll(c => IsGreek(sc, c), s);
    CountZero(IsLatin, s);
  }
}
