/** `chunk_html_for_llm`: blocks packed greedily, in order, into chunks of at most `max_chars`
    characters; a block longer than that becomes a chunk on its own. */
module Packer {
  import opened Text
  import opened Scripts
  import opened Splitter

  /** The groups' blocks, concatenated in order. */
  function Flatten(groups: seq<seq<string>>): seq<string> {
    if |groups| == 0 then [] else groups[0] + Flatten(groups[1..])
  }

  /** The loop of `chunk_html_for_llm` over `blocks`, with `buf` the blocks gathered so far.
      The running `size` of the source is `|Join(buf)|`: each appended block adds its length. */
  function Groups(blocks: seq<string>, maxChars: int, buf: seq<string>): seq<seq<string>>
    decreases |blocks|
  {
    if |blocks| == 0 then (if |buf| > 0 then [buf] else [])
    else if |Join(buf)| + |blocks[0]| > maxChars && |buf| > 0 then [buf] + Groups(blocks[1..], maxChars, [blocks[0]])
    else Groups(blocks[1..], maxChars, buf + [blocks[0]])
  }

  function PackBlocks(blocks: seq<string>, maxChars: int): seq<seq<string>> {
    Groups(blocks, maxChars, [])
  }

  /** Each group's blocks joined into one chunk: `out.append("".join(buf))`. */
  function Chunks(groups: seq<seq<string>>): (r: seq<string>)
    ensures |r| == |groups|
  {
    if |groups| == 0 then [] else [Join(groups[0])] + Chunks(groups[1..])
  }

  /** `chunk_html_for_llm(html, max_chars)` */
  function ChunkHtmlForLlm(sc: Script, html: string, maxChars: int): seq<string> {
    Chunks(PackBlocks(SplitHtmlBlocks(sc, html), maxChars))
  }

  /** Group `k` was closed because the first block of group `k + 1` would not have fitted. */
  predicate ClosedBeforeNext(groups: seq<seq<string>>, maxChars: int, k: nat)
    requires k + 1 < |groups|
  {
    |groups[k + 1]| > 0 && |Join(groups[k])| + |groups[k + 1][0]| > maxChars
  }

  /** What greedy packing promises, independently of how it is computed: the groups hold the
      blocks in order; no group is empty; a group of two or more blocks fits in `maxChars`;
      and each group was closed only because the next block would not have fitted. */
  predicate GreedyGroups(blocks: seq<string>, maxChars: int, groups: seq<seq<string>>) {
    && Flatten(groups) == blocks
    && (forall k :: 0 <= k < |groups| ==> |groups[k]| > 0)
    && (forall k :: 0 <= k < |groups| && |groups[k]| >= 2 ==> |Join(groups[k])| <= maxChars)
    && (forall k :: 0 <= k < |groups| - 1 ==> ClosedBeforeNext(groups, maxChars, k))
  }

  lemma {:induction false} FlattenGroups(blocks: seq<string>, maxChars: int, buf: seq<string>)
    ensures Flatten(Groups(blocks, maxChars, buf)) == buf + blocks
    decreases |blocks|
  {
    var r := Groups(blocks, maxChars, buf);
    if |blocks| == 0 {
      if |buf| > 0 {
        assert r == [buf];
        assert r[1..] == [];
      }
    } else if |Join(buf)| + |blocks[0]| > maxChars && |buf| > 0 {
      FlattenGroups(blocks[1..], maxChars, [blocks[0]]);
      assert r[1..] == Groups(blocks[1..], maxChars, [blocks[0]]);
      assert [blocks[0]] + blocks[1..] == blocks;
    } else {
      FlattenGroups(blocks[1..], maxChars, buf + [blocks[0]]);
      assert buf + [blocks[0]] + blocks[1..] == buf + blocks;
    }
  }

  /** No group is empty. */
  lemma {:induction false} GroupsNonEmpty(blocks: seq<string>, maxChars: int, buf: seq<string>)
    ensures forall g :: g in Groups(blocks, maxChars, buf) ==> |g| > 0
    decreases |blocks|
  {
    if |blocks| > 0 {
      if |Join(buf)| + |blocks[0]| > maxChars && |buf| > 0 {
        GroupsNonEmpty(blocks[1..], maxChars, [blocks[0]]);
      } else {
        GroupsNonEmpty(blocks[1..], maxChars, buf + [blocks[0]]);
      }
    }
  }

  /** A group of two or more blocks fits. */
  lemma {:induction false} GroupsFit(blocks: seq<string>, maxChars: int, buf: seq<string>)
    requires |buf| < 2 || |Join(buf)| <= maxChars
    ensures forall g :: g in Groups(blocks, maxChars, buf) && |g| >= 2 ==> |Join(g)| <= maxChars
    decreases |blocks|
  {
    if |blocks| > 0 {
      if |Join(buf)| + |blocks[0]| > maxChars && |buf| > 0 {
        GroupsFit(blocks[1..], maxChars, [blocks[0]]);
      } else {
        JoinAppend(buf, [blocks[0]]);
        JoinOne(blocks[0]);
        GroupsFit(blocks[1..], maxChars, buf + [blocks[0]]);
      }
    }
  }

  /** The first group starts with the first block, or with `buf` when that is not empty. */
  lemma {:induction false} FirstGroup(blocks: seq<string>, maxChars: int, buf: seq<string>)
    requires |buf| > 0 || |blocks| > 0
    ensures |Groups(blocks, maxChars, buf)| > 0
    ensures |Groups(blocks, maxChars, buf)[0]| > 0
    ensures Groups(blocks, maxChars, buf)[0][0] == (if |buf| > 0 then buf[0] else blocks[0])
    decreases |blocks|
  {
    if |blocks| > 0 && !(|Join(buf)| + |blocks[0]| > maxChars && |buf| > 0) {
      FirstGroup(blocks[1..], maxChars, buf + [blocks[0]]);
    }
  }

  /** A group is closed only when the next block would not fit. */
  lemma {:induction false} GroupsGreedy(blocks: seq<string>, maxChars: int, buf: seq<string>)
    ensures forall k :: 0 <= k < |Groups(blocks, maxChars, buf)| - 1 ==> ClosedBeforeNext(Groups(blocks, maxChars, buf), maxChars, k)
    decreases |blocks|
  {
    var r := Groups(blocks, maxChars, buf);
    if |blocks| > 0 {
      if |Join(buf)| + |blocks[0]| > maxChars && |buf| > 0 {
        var rest := Groups(blocks[1..], maxChars, [blocks[0]]);
        GroupsGreedy(blocks[1..], maxChars, [blocks[0]]);
        FirstGroup(blocks[1..], maxChars, [blocks[0]]);
        assert r == [buf] + rest;
        forall k | 0 <= k < |r| - 1 ensures ClosedBeforeNext(r, maxChars, k) {
          if k > 0 {
            assert ClosedBeforeNext(rest, maxChars, k - 1);
            assert r[k] == rest[k - 1] && r[k + 1] == rest[k];
          }
        }
      } else {
        GroupsGreedy(blocks[1..], maxChars, buf + [blocks[0]]);
      }
    }
  }

  /** The greedy loop meets its promise. */
  lemma PackBlocksSpec(blocks: seq<string>, maxChars: int)
    ensures GreedyGroups(blocks, maxChars, PackBlocks(blocks, maxChars))
    ensures |blocks| > 0 ==> |PackBlocks(blocks, maxChars)| > 0
  {
    FlattenGroups(blocks, maxChars, []);
    GroupsNonEmpty(blocks, maxChars, []);
    GroupsFit(blocks, maxChars, []);
    GroupsGreedy(blocks, maxChars, []);
    if |blocks| > 0 {
      FirstGroup(blocks, maxChars, []);
    }
    var r := PackBlocks(blocks, maxChars);
    forall k | 0 <= k < |r| ensures |r[k]| > 0 && (|r[k]| >= 2 ==> |Join(r[k])| <= maxChars) {
      assert r[k] in r;
    }
  }

  /** Greedy packing is the only packing with its promise: two groupings of the same blocks
      that both keep it are the same. */
  lemma {:induction false} GreedyUnique(blocks: seq<string>, maxChars: int, g1: seq<seq<string>>, g2: seq<seq<string>>)
    requires GreedyGroups(blocks, maxChars, g1) && GreedyGroups(blocks, maxChars, g2)
    ensures g1 == g2
    decreases |blocks|
  {
    if |g1| == 0 || |g2| == 0 {
      EmptyGrouping(blocks, maxChars, g1);
      EmptyGrouping(blocks, maxChars, g2);
    } else {
      FirstGroupLongest(blocks, maxChars, g1, g2);
      FirstGroupLongest(blocks, maxChars, g2, g1);
      assert g1[0] == blocks[..|g1[0]|] == g2[0];
      GreedyTail(blocks, maxChars, g1);
      GreedyTail(blocks, maxChars, g2);
      GreedyUnique(blocks[|g1[0]|..], maxChars, g1[1..], g2[1..]);
      assert g1 == [g1[0]] + g1[1..] && g2 == [g2[0]] + g2[1..];
    }
  }

  /** Without blocks there are no groups, and without groups there are no blocks. */
  lemma EmptyGrouping(blocks: seq<string>, maxChars: int, g: seq<seq<string>>)
    requires GreedyGroups(blocks, maxChars, g)
    ensures |g| == 0 <==> |blocks| == 0
  {
    if |g| > 0 {
      assert |g[0]| > 0;
      assert blocks == g[0] + Flatten(g[1..]);
    }
  }

  /** The first group is a prefix of the blocks, and the other groups hold the rest. */
  lemma GreedyTail(blocks: seq<string>, maxChars: int, g: seq<seq<string>>)
    requires GreedyGroups(blocks, maxChars, g) && |g| > 0
    ensures |g[0]| <= |blocks| && g[0] == blocks[..|g[0]|]
    ensures GreedyGroups(blocks[|g[0]|..], maxChars, g[1..])
  {
    assert blocks == g[0] + Flatten(g[1..]);
    assert blocks[|g[0]|..] == Flatten(g[1..]);
    var t := g[1..];
    forall k | 0 <= k < |t| - 1 ensures ClosedBeforeNext(t, maxChars, k) {
      assert ClosedBeforeNext(g, maxChars, k + 1);
      assert t[k] == g[k + 1] && t[k + 1] == g[k + 2];
    }
    forall k | 0 <= k < |t| ensures |t[k]| > 0 && (|t[k]| >= 2 ==> |Join(t[k])| <= maxChars) {
      assert t[k] == g[k + 1];
    }
  }

  /** A greedy first group is at least as long as the first group of any grouping that keeps
      the promise: a shorter one would have taken the next block, which the longer one shows
      fits. */
  lemma FirstGroupLongest(blocks: seq<string>, maxChars: int, g1: seq<seq<string>>, g2: seq<seq<string>>)
    requires GreedyGroups(blocks, maxChars, g1) && GreedyGroups(blocks, maxChars, g2)
    requires |g1| > 0 && |g2| > 0
    ensures |g2[0]| <= |g1[0]|
  {
    var a, b := g1[0], g2[0];
    var n := |a|;
    GreedyTail(blocks, maxChars, g1);
    GreedyTail(blocks, maxChars, g2);
    if n < |b| {
      assert blocks[n..] == Flatten(g1[1..]);
      assert |g1| > 1;
      assert ClosedBeforeNext(g1, maxChars, 0);
      assert Flatten(g1[1..]) == g1[1] + Flatten(g1[2..]);
      assert g1[1][0] == blocks[n] == b[n];
      assert b[..n] == a;
      JoinPrefix(b, n);
    }
  }

  /** The text of a prefix of blocks and the block after it is no longer than all of them. */
  lemma JoinPrefix(b: seq<string>, n: nat)
    requires n < |b|
    ensures |Join(b[..n])| + |b[n]| <= |Join(b)|
  {
    JoinAppend(b[..n], [b[n]]);
    JoinOne(b[n]);
    JoinAppend(b[..n + 1], b[n + 1..]);
    assert b[..n] + [b[n]] == b[..n + 1];
    assert b[..n + 1] + b[n + 1..] == b;
  }

  /** The chunks' text is the blocks' text. */
  lemma {:induction false} JoinChunks(groups: seq<seq<string>>)
    ensures Join(Chunks(groups)) == Join(Flatten(groups))
  {
    if |groups| > 0 {
      JoinChunks(groups[1..]);
      JoinAppend(groups[0], Flatten(groups[1..]));
    }
  }

  /** Chunk `k` joins group `k`. */
  lemma {:induction false} ChunkAt(groups: seq<seq<string>>, k: nat)
    requires k < |groups|
    ensures Chunks(groups)[k] == Join(groups[k])
  {
    if k > 0 {
      ChunkAt(groups[1..], k - 1);
    }
  }

  /** Every block of every group is one of the flattened blocks. */
  lemma {:induction false} InFlatten(groups: seq<seq<string>>, k: nat, i: nat)
    requires k < |groups| && i < |groups[k]|
    ensures groups[k][i] in Flatten(groups)
  {
    if k > 0 {
      InFlatten(groups[1..], k - 1, i);
    }
  }

  /** `chunk_html_for_llm` returns at least one chunk; the chunks glue back to `html`; and a
      chunk longer than `max_chars` is a single block of `split_html_blocks`. */
  lemma ChunkHtmlForLlmSpec(sc: Script, html: string, maxChars: int)
    ensures |ChunkHtmlForLlm(sc, html, maxChars)| >= 1
    ensures Join(ChunkHtmlForLlm(sc, html, maxChars)) == html
    ensures forall c :: c in ChunkHtmlForLlm(sc, html, maxChars) && |c| > maxChars ==> c in SplitHtmlBlocks(sc, html)
  {
    var blocks := SplitHtmlBlocks(sc, html);
    var groups := PackBlocks(blocks, maxChars);
    SplitHtmlBlocksSpec(sc, html);
    PackBlocksSpec(blocks, maxChars);
    JoinChunks(groups);
    forall c | c in Chunks(groups) && |c| > maxChars ensures c in blocks {
      var k :| 0 <= k < |groups| && Chunks(groups)[k] == c;
      ChunkAt(groups, k);
      assert |groups[k]| == 1;
      assert groups[k] == [groups[k][0]];
      JoinOne(groups[k][0]);
      InFlatten(groups, k, 0);
    }
  }
}
