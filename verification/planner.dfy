/** The planner: every document is cut into chunks, and every chunk becomes a job that carries,
    as context, the tag-stripped tail of the chunk before it in the same document. */
module Planner {
  import opened Text
  import opened Scripts
  import opened Packer
  import opened Gate

  function Min(a: int, b: int): int { if a <= b then a else b }
  function Max(a: int, b: int): int { if a >= b then a else b }

  /** `max(500, MAX_TOKENS_PER_CHUNK * CHARS_PER_TOKEN)`: the character budget of a chunk. */
  function TargetChars(st: Settings): (r: int)
    ensures r >= 500 && r >= st.maxTokensPerChunk * st.charsPerToken
    ensures r == 500 || r == st.maxTokensPerChunk * st.charsPerToken
  {
    Max(500, st.maxTokensPerChunk * st.charsPerToken)
  }

  /** Python's `s[start:]`: a negative start counts from the end, and a start outside the
      text is clamped to it. */
  function PySliceFrom(s: string, start: int): (r: string)
    ensures |r| <= |s|
    ensures r == s[|s| - |r|..]
    ensures start < 0 ==> |r| == Min(-start, |s|)
    ensures start >= 0 ==> |r| == Max(|s| - start, 0)
  {
    var i := if start < 0 then Max(|s| + start, 0) else Min(start, |s|);
    s[i..]
  }

  /** `prev[-n:] if prev else ""`: the context handed to the next chunk. */
  function TailContext(st: Settings, prev: string): string {
    if prev != "" then PySliceFrom(prev, -st.contextTailChars) else ""
  }

  /** The context of chunk `c` of a document: nothing for the first chunk, else the tail of
      the previous chunk with its tags stripped. */
  function ChunkContext(st: Settings, chunks: seq<string>, c: nat): string
    requires c < |chunks|
  {
    if c == 0 then "" else TailContext(st, StripTags(chunks[c - 1]))
  }

  /** One entry of the plan: `(doc_idx, chunk_idx, text, context)`. */
  datatype Job = Job(doc: nat, chunk: nat, text: string, context: string)

  /** The chunks of one document. */
  function ChunksOf(sc: Script, st: Settings, html: string): seq<string> {
    ChunkHtmlForLlm(sc, html, TargetChars(st))
  }

  /** The chunks of every document, document by document. */
  function AllChunks(sc: Script, st: Settings, docs: seq<string>): (r: seq<seq<string>>)
    ensures |r| == |docs|
  {
    seq(|docs|, d requires 0 <= d < |docs| => ChunksOf(sc, st, docs[d]))
  }

  /** The jobs of document `d`, in chunk order. */
  function DocJobs(st: Settings, d: nat, chunks: seq<string>): (r: seq<Job>)
    ensures |r| == |chunks|
  {
    seq(|chunks|, c requires 0 <= c < |chunks| => Job(d, c, chunks[c], ChunkContext(st, chunks, c)))
  }

  /** The jobs of the first `n` documents, given each document's chunks. */
  function PlanUpTo(st: Settings, chunked: seq<seq<string>>, n: nat): seq<Job>
    requires n <= |chunked|
  {
    if n == 0 then [] else PlanUpTo(st, chunked, n - 1) + DocJobs(st, n - 1, chunked[n - 1])
  }

  function PlanFor(st: Settings, chunked: seq<seq<string>>): seq<Job> {
    PlanUpTo(st, chunked, |chunked|)
  }

  /** `plan`, as the scripts build it from the documents' HTML. */
  function PlanOf(sc: Script, st: Settings, docs: seq<string>): seq<Job> {
    PlanFor(st, AllChunks(sc, st, docs))
  }

  /** The number of chunks of each document. */
  function CountsFor(chunked: seq<seq<string>>): (r: seq<nat>)
    ensures |r| == |chunked|
  {
    seq(|chunked|, d requires 0 <= d < |chunked| => |chunked[d]|)
  }

  /** `per_doc_counts` */
  function Counts(sc: Script, st: Settings, docs: seq<string>): (r: seq<nat>)
    ensures |r| == |docs|
  {
    CountsFor(AllChunks(sc, st, docs))
  }

  /** The sum of the first `n` counts. */
  function SumUpTo(counts: seq<nat>, n: nat): nat
    requires n <= |counts|
  {
    if n == 0 then 0 else SumUpTo(counts, n - 1) + counts[n - 1]
  }

  /** The position in the plan of the first job of document `d`. */
  function Offset(chunked: seq<seq<string>>, d: nat): nat
    requires d <= |chunked|
  {
    SumUpTo(CountsFor(chunked), d)
  }

  /** The inner planning loop over the chunks of one document, as the scripts run it: a
      running `prev_tail_src` instead of a look back at the previous chunk. */
  method PlanDocument(st: Settings, d: nat, chunks: seq<string>) returns (jobs: seq<Job>)
    ensures jobs == DocJobs(st, d, chunks)
  {
    jobs := [];
    var prev := "";
    var c := 0;
    EmptyPrefix(DocJobs(st, d, chunks));
    while c < |chunks|
      invariant c <= |chunks|
      invariant prev == (if c == 0 then "" else StripTags(chunks[c - 1]))
      invariant jobs == DocJobs(st, d, chunks)[..c]
    {
      var context := TailContext(st, prev);
      PlanDocumentStep(st, d, chunks, c, prev, jobs);
      jobs := jobs + [Job(d, c, chunks[c], context)];
      prev := StripTags(chunks[c]);
      c := c + 1;
    }
    assert DocJobs(st, d, chunks)[..c] == DocJobs(st, d, chunks);
  }

  /** The outer planning loop over the documents, collecting `plan` and `per_doc_counts`. */
  method Plan(sc: Script, st: Settings, docs: seq<string>) returns (plan: seq<Job>, counts: seq<nat>)
    ensures plan == PlanOf(sc, st, docs)
    ensures counts == Counts(sc, st, docs)
  {
    ghost var chunked := AllChunks(sc, st, docs);
    var target := TargetChars(st);
    plan := [];
    counts := [];
    var d := 0;
    while d < |docs|
      invariant d <= |docs|
      invariant plan == PlanUpTo(st, chunked, d)
      invariant counts == CountsFor(chunked)[..d]
    {
      var chunks := ChunkHtmlForLlm(sc, docs[d], target);
      var jobs := PlanDocument(st, d, chunks);
      PlanStep(sc, st, docs, d, plan, counts, chunks, jobs);
      counts := counts + [|chunks|];
      plan := plan + jobs;
      d := d + 1;
    }
    CountsDone(chunked);
  }

  lemma EmptyPrefix<T>(s: seq<T>)
    ensures s[..0] == []
  {
  }

  lemma CountsDone(chunked: seq<seq<string>>)
    ensures CountsFor(chunked)[..|chunked|] == CountsFor(chunked)
  {
  }

  /** One turn of the document loop appends the next document's chunk count and jobs. */
  lemma PlanStep(sc: Script, st: Settings, docs: seq<string>, d: nat, plan: seq<Job>, counts: seq<nat>, chunks: seq<string>, jobs: seq<Job>)
    requires d < |docs|
    requires plan == PlanUpTo(st, AllChunks(sc, st, docs), d)
    requires counts == CountsFor(AllChunks(sc, st, docs))[..d]
    requires chunks == ChunkHtmlForLlm(sc, docs[d], TargetChars(st))
    requires jobs == DocJobs(st, d, chunks)
    ensures plan + jobs == PlanUpTo(st, AllChunks(sc, st, docs), d + 1)
    ensures counts + [|chunks|] == CountsFor(AllChunks(sc, st, docs))[..d + 1]
  {
    var chunked := AllChunks(sc, st, docs);
    assert chunks == chunked[d];
    CountsStep(chunked, d);
  }

  lemma CountsStep(chunked: seq<seq<string>>, d: nat)
    requires d < |chunked|
    ensures CountsFor(chunked)[..d + 1] == CountsFor(chunked)[..d] + [|chunked[d]|]
  {
    var counts := CountsFor(chunked);
    assert counts[..d + 1] == counts[..d] + [counts[d]];
  }

  /** One turn of the chunk loop appends the job the plan has at that position. */
  lemma PlanDocumentStep(st: Settings, d: nat, chunks: seq<string>, c: nat, prev: string, jobs: seq<Job>)
    requires c < |chunks|
    requires prev == (if c == 0 then "" else StripTags(chunks[c - 1]))
    requires jobs == DocJobs(st, d, chunks)[..c]
    ensures jobs + [Job(d, c, chunks[c], TailContext(st, prev))] == DocJobs(st, d, chunks)[..c + 1]
  {
    assert TailContext(st, prev) == ChunkContext(st, chunks, c);
    DocJobsStep(st, d, chunks, c);
  }

  lemma DocJobsStep(st: Settings, d: nat, chunks: seq<string>, c: nat)
    requires c < |chunks|
    ensures DocJobs(st, d, chunks)[..c + 1] == DocJobs(st, d, chunks)[..c] + [Job(d, c, chunks[c], ChunkContext(st, chunks, c))]
  {
    var jobs := DocJobs(st, d, chunks);
    assert jobs[..c + 1] == jobs[..c] + [jobs[c]];
  }

  /** The plan of the first `n` documents has as many jobs as they have chunks. */
  lemma {:induction false} PlanUpToLength(st: Settings, chunked: seq<seq<string>>, n: nat)
    requires n <= |chunked|
    ensures |PlanUpTo(st, chunked, n)| == Offset(chunked, n)
  {
    if n > 0 {
      PlanUpToLength(st, chunked, n - 1);
    }
  }

  /** A longer plan starts with a shorter one. */
  lemma {:induction false} PlanUpToPrefix(st: Settings, chunked: seq<seq<string>>, n: nat, m: nat)
    requires n <= m <= |chunked|
    ensures |PlanUpTo(st, chunked, n)| <= |PlanUpTo(st, chunked, m)|
    ensures PlanUpTo(st, chunked, m)[..|PlanUpTo(st, chunked, n)|] == PlanUpTo(st, chunked, n)
    decreases m
  {
    if n < m {
      PlanUpToPrefix(st, chunked, n, m - 1);
      var a := PlanUpTo(st, chunked, m - 1);
      var b := DocJobs(st, m - 1, chunked[m - 1]);
      assert PlanUpTo(st, chunked, m) == a + b;
      assert (a + b)[..|a|] == a;
    }
  }

  /** `len(plan) == sum(per_doc_counts)` */
  lemma PlanLength(st: Settings, chunked: seq<seq<string>>)
    ensures |PlanFor(st, chunked)| == SumUpTo(CountsFor(chunked), |chunked|)
  {
    PlanUpToLength(st, chunked, |chunked|);
  }

  /** Slot `(d, c)` is served by job `Offset(d) + c`, which carries chunk `c` of document `d`
      and that chunk's context. */
  lemma PlanSlot(st: Settings, chunked: seq<seq<string>>, d: nat, c: nat)
    requires d < |chunked| && c < |chunked[d]|
    ensures Offset(chunked, d) + c < |PlanFor(st, chunked)|
    ensures PlanFor(st, chunked)[Offset(chunked, d) + c] == Job(d, c, chunked[d][c], ChunkContext(st, chunked[d], c))
  {
    var a := PlanUpTo(st, chunked, d);
    var b := DocJobs(st, d, chunked[d]);
    PlanUpToLength(st, chunked, d);
    PlanUpToPrefix(st, chunked, d + 1, |chunked|);
    assert PlanUpTo(st, chunked, d + 1) == a + b;
    assert (a + b)[|a| + c] == b[c];
  }

  /** Job `i` of the first `n` documents serves a slot that exists, and sits at that slot's
      position. */
  lemma {:induction false} PlanUpToJob(st: Settings, chunked: seq<seq<string>>, n: nat, i: nat)
    requires n <= |chunked| && i < |PlanUpTo(st, chunked, n)|
    ensures PlanUpTo(st, chunked, n)[i].doc < n
    ensures PlanUpTo(st, chunked, n)[i].chunk < |chunked[PlanUpTo(st, chunked, n)[i].doc]|
    ensures i == Offset(chunked, PlanUpTo(st, chunked, n)[i].doc) + PlanUpTo(st, chunked, n)[i].chunk
  {
    var a := PlanUpTo(st, chunked, n - 1);
    var b := DocJobs(st, n - 1, chunked[n - 1]);
    assert PlanUpTo(st, chunked, n) == a + b;
    if i < |a| {
      PlanUpToJob(st, chunked, n - 1, i);
      assert (a + b)[i] == a[i];
    } else {
      PlanUpToLength(st, chunked, n - 1);
      assert (a + b)[i] == b[i - |a|];
    }
  }

  /** Every job serves a slot `(doc, chunk)` with `chunk < per_doc_counts[doc]`, at that slot's
      position, so no two jobs serve the same slot. */
  lemma PlanJob(st: Settings, chunked: seq<seq<string>>, i: nat)
    requires i < |PlanFor(st, chunked)|
    ensures PlanFor(st, chunked)[i].doc < |chunked|
    ensures PlanFor(st, chunked)[i].chunk < |chunked[PlanFor(st, chunked)[i].doc]|
    ensures i == Offset(chunked, PlanFor(st, chunked)[i].doc) + PlanFor(st, chunked)[i].chunk
  {
    PlanUpToJob(st, chunked, |chunked|, i);
  }

  /** Offsets grow by the documents' counts. */
  lemma {:induction false} OffsetStep(chunked: seq<seq<string>>, d: nat, e: nat)
    requires d < e <= |chunked|
    ensures Offset(chunked, d) + |chunked[d]| <= Offset(chunked, e)
    decreases e
  {
    if d + 1 < e {
      OffsetStep(chunked, d, e - 1);
    }
  }

  /** `(doc, chunk)` strictly precedes `(doc', chunk')` in lexicographic order. */
  predicate SlotBefore(a: Job, b: Job) {
    a.doc < b.doc || (a.doc == b.doc && a.chunk < b.chunk)
  }

  /** The plan lists the slots in lexicographic order. */
  lemma PlanOrdered(st: Settings, chunked: seq<seq<string>>, i: nat, j: nat)
    requires i < j < |PlanFor(st, chunked)|
    ensures SlotBefore(PlanFor(st, chunked)[i], PlanFor(st, chunked)[j])
  {
    var plan := PlanFor(st, chunked);
    PlanJob(st, chunked, i);
    PlanJob(st, chunked, j);
    if plan[j].doc < plan[i].doc {
      OffsetStep(chunked, plan[j].doc, plan[i].doc);
    }
  }

  /** Every document contributes at least one job, so the plan is empty exactly when there are
      no documents. */
  lemma PlanEmptyIffNoDocs(sc: Script, st: Settings, docs: seq<string>)
    ensures |PlanOf(sc, st, docs)| == 0 <==> |docs| == 0
  {
    var chunked := AllChunks(sc, st, docs);
    if |docs| > 0 {
      ChunkHtmlForLlmSpec(sc, docs[0], TargetChars(st));
      assert |chunked[0]| >= 1;
      PlanSlot(st, chunked, 0, 0);
    }
  }

  /** A suffix of a text without tags has no tags either. */
  lemma SuffixTagFree(s: string, k: nat)
    requires TagFree(s) && k <= |s|
    ensures TagFree(s[k..])
  {
    forall i, j | 0 <= i < j < |s| - k ensures !(s[k..][i] == '<' && s[k..][j] == '>') {
      assert s[k..][i] == s[k + i] && s[k..][j] == s[k + j];
    }
  }

  /** The context of a chunk: empty for the first chunk and after a chunk with no text;
      otherwise the last `CONTEXT_TAIL_CHARS` characters of the previous chunk with its tags
      stripped, all of them when the setting is 0, and never a tag. */
  lemma ContextSpec(st: Settings, chunks: seq<string>, c: nat)
    requires c < |chunks|
    ensures c == 0 ==> ChunkContext(st, chunks, c) == ""
    ensures c > 0 ==>
      var prev := StripTags(chunks[c - 1]);
      var ctx := ChunkContext(st, chunks, c);
      && ctx == prev[|prev| - |ctx|..]
      && (prev == "" ==> ctx == "")
      && (st.contextTailChars > 0 ==> |ctx| == Min(st.contextTailChars, |prev|))
      && (st.contextTailChars == 0 ==> ctx == prev)
      && TagFree(ctx)
  {
    if c > 0 {
      var prev := StripTags(chunks[c - 1]);
      var ctx := ChunkContext(st, chunks, c);
      StripTagsTagFree(chunks[c - 1]);
      SuffixTagFree(prev, |prev| - |ctx|);
    }
  }
}
