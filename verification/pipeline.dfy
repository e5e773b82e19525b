/** The whole run of either script, from the decoded XHTML documents of a book to the event
    the worker posts last: plan, translate every job, collect the results in completion order,
    join the documents back. */
module Pipeline {
  import opened Wrappers
  import opened Errors
  import opened Text
  import opened Scripts
  import opened Client
  import opened Retry
  import opened Planner
  import opened Reassembly
  import opened Paths

  /** How a run ends: the worker's `done` event with the path written, the new content of
      each document and the progress posted; or an error (the worker's `error` event, or the
      dialog shown before it starts) with the progress posted until then. */
  datatype RunResult = Done(path: string, docs: seq<string>, progress: nat) | Failed(error: Error, progress: nat)

  /** The service as the run meets it: call `k` made for job `i` gets `service(i)(k)`. */
  type Service = nat -> nat -> Exchange

  /** What `ds_chat` gives the calls of job `i`. */
  function JobCalls(sc: Script, service: Service, i: nat): Outcomes {
    (k: nat) => DsChat(sc, service(i)(k))
  }

  /** The futures of the plan: what `translate_chunk` returned or raised for each job. */
  function Futures(sc: Script, st: Settings, service: Service, plan: seq<Job>): (r: seq<Outcome>)
    ensures |r| == |plan|
  {
    seq(|plan|, i requires 0 <= i < |plan| =>
      TranslateChunk(GateOf(sc, st), st, JobCalls(sc, service, i), plan[i].text, plan[i].context).result)
  }

  /** `min(MAX_WORKERS, len(plan))`, which the executor refuses unless it is positive. */
  predicate HasWorkers(st: Settings, jobs: nat) {
    Min(st.maxWorkers, jobs) > 0
  }

  /** The worker once the executor has workers: the futures are read in completion order
      `order` into the slots, and the documents joined back from them. */
  function Worker(sc: Script, outPath: string, plan: seq<Job>, futures: seq<Outcome>, order: seq<nat>, counts: seq<nat>): RunResult
    requires Layout(plan, counts) && |futures| == |plan| && CompletionOrder(order, |plan|)
  {
    EmptyAddressable(plan, futures, order, counts);
    match Collect(plan, futures, order, EmptySlots(counts))
    case Stopped(e, p) => Failed(e, p)
    case Filled(slots, p) =>
      match Assemble(sc, slots)
      case Failure(e) => Failed(e, p)
      case Success(docs) => Done(outPath, docs, p)
  }

  /** The run on a book already cut into chunks, `chunked[d]` being the chunks of document
      `d`: an empty plan stops before the worker starts, an executor without workers raises,
      and otherwise the worker runs on the futures of the plan. */
  function RunChunked(sc: Script, st: Settings, outPath: string, chunked: seq<seq<string>>, service: Service, order: seq<nat>): RunResult
    requires CompletionOrder(order, |PlanFor(st, chunked)|)
  {
    var plan := PlanFor(st, chunked);
    if |plan| == 0 then Failed(NothingToTranslate, 0)
    else if !HasWorkers(st, |plan|) then Failed(NoWorkers, 0)
    else
      PlanLayout(st, chunked);
      Worker(sc, outPath, plan, Futures(sc, st, service, plan), order, CountsFor(chunked))
  }

  /** The run of a script on the book at `inPath` whose documents are `docs`. */
  function Run(sc: Script, st: Settings, inPath: string, docs: seq<string>, service: Service, order: seq<nat>): RunResult
    requires CompletionOrder(order, |PlanOf(sc, st, docs)|)
  {
    RunChunked(sc, st, OutPath(inPath), AllChunks(sc, st, docs), service, order)
  }

  /** Every job returned text. */
  predicate AllReturned(futures: seq<Outcome>) {
    forall i :: 0 <= i < |futures| ==> Take(futures[i]).Success?
  }

  /** The job the plan has for slot `(d, c)`. */
  ghost function JobAt(plan: seq<Job>, d: nat, c: nat): (i: nat)
    requires HasJob(plan, d, c)
    ensures i < |plan| && plan[i].doc == d && plan[i].chunk == c
  {
    var i :| 0 <= i < |plan| && plan[i].doc == d && plan[i].chunk == c; i
  }

  /** The texts the jobs of document `d` returned, in chunk order. */
  ghost function DocTexts(plan: seq<Job>, futures: seq<Outcome>, counts: seq<nat>, d: nat): (r: seq<string>)
    requires Layout(plan, counts) && |futures| == |plan| && AllReturned(futures) && d < |counts|
    ensures |r| == counts[d]
  {
    seq(counts[d], c requires 0 <= c < counts[d] => Take(futures[JobAt(plan, d, c)]).value)
  }

  /** The worker finishes exactly when every job returned text; it then writes to `outPath`,
      posts one progress event per job, and each document is the join of the texts of its
      jobs in chunk order. */
  lemma WorkerDone(sc: Script, outPath: string, plan: seq<Job>, futures: seq<Outcome>, order: seq<nat>, counts: seq<nat>)
    requires Layout(plan, counts) && |futures| == |plan| && CompletionOrder(order, |plan|)
    ensures Worker(sc, outPath, plan, futures, order, counts).Done? <==> AllReturned(futures)
    ensures var r := Worker(sc, outPath, plan, futures, order, counts);
      r.Done? ==>
        && r.path == outPath && r.progress == |plan| && |r.docs| == |counts|
        && forall d :: 0 <= d < |counts| ==> r.docs[d] == Join(DocTexts(plan, futures, counts, d))
  {
    FullFill(plan, futures, order, counts);
    var col := Collect(plan, futures, order, EmptySlots(counts));
    if col.Filled? {
      FilledIsComplete(plan, futures, order, counts);
      var slots := col.slots;
      forall d | 0 <= d < |counts| ensures Texts(slots[d]) == DocTexts(plan, futures, counts, d) {
        forall c | 0 <= c < counts[d] ensures slots[d][c] == Some(Take(futures[JobAt(plan, d, c)]).value) {
          assert HasJob(plan, d, c);
        }
      }
    }
  }

  /** A worker that stops reports the error of a job that raised, and has posted fewer
      progress events than there are jobs. */
  lemma WorkerFailed(sc: Script, outPath: string, plan: seq<Job>, futures: seq<Outcome>, order: seq<nat>, counts: seq<nat>)
    requires Layout(plan, counts) && |futures| == |plan| && CompletionOrder(order, |plan|)
    ensures var r := Worker(sc, outPath, plan, futures, order, counts);
      r.Failed? ==> r.progress < |plan| && exists i :: 0 <= i < |plan| && Take(futures[i]) == Failure(r.error)
  {
    FullFill(plan, futures, order, counts);
    var col := Collect(plan, futures, order, EmptySlots(counts));
    if col.Filled? {
      FilledIsComplete(plan, futures, order, counts);
    } else {
      var i := order[col.progress];
      assert Take(futures[i]) == Failure(col.error);
    }
  }

  /** Whether the worker finishes, and what it writes then, does not depend on the order the
      jobs complete in. */
  lemma WorkerOrderIndependent(sc: Script, outPath: string, plan: seq<Job>, futures: seq<Outcome>, order1: seq<nat>, order2: seq<nat>, counts: seq<nat>)
    requires Layout(plan, counts) && |futures| == |plan|
    requires CompletionOrder(order1, |plan|) && CompletionOrder(order2, |plan|)
    ensures Worker(sc, outPath, plan, futures, order1, counts).Done? ==>
      Worker(sc, outPath, plan, futures, order1, counts) == Worker(sc, outPath, plan, futures, order2, counts)
  {
    OrderIndependent(plan, futures, order1, order2, counts);
  }

  /** In the planner's plan, the job for slot `(d, c)` is job `Offset(d) + c`. */
  lemma PlannedJobAt(st: Settings, chunked: seq<seq<string>>, d: nat, c: nat)
    requires d < |chunked| && c < |chunked[d]|
    ensures HasJob(PlanFor(st, chunked), d, c)
    ensures JobAt(PlanFor(st, chunked), d, c) == Offset(chunked, d) + c
  {
    var plan := PlanFor(st, chunked);
    PlanSlot(st, chunked, d, c);
    PlanLayout(st, chunked);
    var i := Offset(chunked, d) + c;
    assert plan[i].doc == d && plan[i].chunk == c;
    var j := JobAt(plan, d, c);
    assert SameSlot(plan[i], plan[j]);
  }

  /** Document `d` rebuilt from the texts its jobs returned: the join of the texts of jobs
      `Offset(d)` up to `Offset(d) + |chunked[d]|`, in order. */
  function Rebuilt(chunked: seq<seq<string>>, futures: seq<Outcome>, d: nat): string
    requires d < |chunked| && Offset(chunked, d) + |chunked[d]| <= |futures| && AllReturned(futures)
  {
    Join(seq(|chunked[d]|, c requires 0 <= c < |chunked[d]| => Take(futures[Offset(chunked, d) + c]).value))
  }

  /** With the planner's plan, the texts of document `d` are those of its consecutive jobs. */
  lemma PlannedDocTexts(st: Settings, chunked: seq<seq<string>>, futures: seq<Outcome>, d: nat)
    requires |futures| == |PlanFor(st, chunked)| && AllReturned(futures) && d < |chunked|
    ensures Layout(PlanFor(st, chunked), CountsFor(chunked))
    ensures Offset(chunked, d) + |chunked[d]| <= |futures|
    ensures Join(DocTexts(PlanFor(st, chunked), futures, CountsFor(chunked), d)) == Rebuilt(chunked, futures, d)
  {
    PlanLayout(st, chunked);
    OffsetBound(st, chunked, d);
    if |chunked[d]| > 0 {
      PlanSlot(st, chunked, d, |chunked[d]| - 1);
    }
    forall c | 0 <= c < |chunked[d]| ensures JobAt(PlanFor(st, chunked), d, c) == Offset(chunked, d) + c {
      PlannedJobAt(st, chunked, d, c);
    }
    assert CountsFor(chunked)[d] == |chunked[d]|;
    assert DocTexts(PlanFor(st, chunked), futures, CountsFor(chunked), d)
        == seq(|chunked[d]|, c requires 0 <= c < |chunked[d]| => Take(futures[Offset(chunked, d) + c]).value);
  }

  /** The offset of a document is within the plan. */
  lemma OffsetBound(st: Settings, chunked: seq<seq<string>>, d: nat)
    requires d <= |chunked|
    ensures Offset(chunked, d) <= |PlanFor(st, chunked)|
  {
    PlanLength(st, chunked);
    if d < |chunked| {
      OffsetStep(chunked, d, |chunked|);
    }
  }

  /** A run with a non-empty plan and workers finishes exactly when every job returned text.
      It then writes to `outPath`, posts one progress event per job, and document `d` is the
      join of the translations of its own chunks in chunk order, whatever order they
      completed in. */
  lemma RunDone(sc: Script, st: Settings, outPath: string, chunked: seq<seq<string>>, service: Service, order: seq<nat>)
    requires CompletionOrder(order, |PlanFor(st, chunked)|)
    ensures var plan := PlanFor(st, chunked);
      RunChunked(sc, st, outPath, chunked, service, order).Done? <==>
        |plan| > 0 && HasWorkers(st, |plan|) && AllReturned(Futures(sc, st, service, plan))
    ensures var plan := PlanFor(st, chunked);
      var futures := Futures(sc, st, service, plan);
      var r := RunChunked(sc, st, outPath, chunked, service, order);
      r.Done? ==>
        && AllReturned(futures)
        && r.path == outPath && r.progress == |plan| && |r.docs| == |chunked|
        && forall d :: 0 <= d < |chunked| ==>
             Offset(chunked, d) + |chunked[d]| <= |futures| && r.docs[d] == Rebuilt(chunked, futures, d)
  {
    var plan := PlanFor(st, chunked);
    if |plan| > 0 && HasWorkers(st, |plan|) {
      var futures := Futures(sc, st, service, plan);
      var counts := CountsFor(chunked);
      PlanLayout(st, chunked);
      WorkerDone(sc, outPath, plan, futures, order, counts);
      if AllReturned(futures) {
        forall d | 0 <= d < |chunked|
          ensures Offset(chunked, d) + |chunked[d]| <= |futures|
          ensures Join(DocTexts(plan, futures, counts, d)) == Rebuilt(chunked, futures, d)
        {
          PlannedDocTexts(st, chunked, futures, d);
        }
      }
    }
  }

  /** A job raises only what a call to the service raised; with no attempt allowed it
      returns `None`, which the unpacking of its result turns into an error. */
  lemma FutureErrors(sc: Script, st: Settings, service: Service, plan: seq<Job>, i: nat)
    requires i < |plan|
    ensures var o := Take(Futures(sc, st, service, plan)[i]);
      o.Failure? ==> (st.retryCount <= 0 && o.error == NotUnpackable) || (st.retryCount >= 1 && ServiceError(o.error))
    ensures st.retryCount <= 0 ==> Take(Futures(sc, st, service, plan)[i]) == Failure(NotUnpackable)
  {
    var calls := JobCalls(sc, service, i);
    var t := TranslateChunk(GateOf(sc, st), st, calls, plan[i].text, plan[i].context);
    assert Futures(sc, st, service, plan)[i] == t.result;
    if st.retryCount >= 1 && t.result.Failure? {
      var reply := DsChat(sc, service(i)(|t.sent| - 1));
      assert calls(|t.sent| - 1) == reply == Failure(t.result.error);
    }
  }

  /** The errors a run can end with: nothing to translate for an empty plan, the executor's
      refusal without workers, the unpacking error when no attempt is allowed, or an error of
      the service; never an assembly error. */
  lemma RunErrors(sc: Script, st: Settings, outPath: string, chunked: seq<seq<string>>, service: Service, order: seq<nat>)
    requires CompletionOrder(order, |PlanFor(st, chunked)|)
    ensures var plan := PlanFor(st, chunked);
      var r := RunChunked(sc, st, outPath, chunked, service, order);
      r.Failed? ==>
        || (r == Failed(NothingToTranslate, 0) && |plan| == 0)
        || (r == Failed(NoWorkers, 0) && |plan| > 0 && !HasWorkers(st, |plan|))
        || (r.error == NotUnpackable && st.retryCount <= 0)
        || (ServiceError(r.error) && st.retryCount >= 1 && r.progress < |plan|)
  {
    var plan := PlanFor(st, chunked);
    if |plan| > 0 && HasWorkers(st, |plan|) {
      var futures := Futures(sc, st, service, plan);
      PlanLayout(st, chunked);
      WorkerFailed(sc, outPath, plan, futures, order, CountsFor(chunked));
      var r := RunChunked(sc, st, outPath, chunked, service, order);
      if r.Failed? {
        var i :| 0 <= i < |plan| && Take(futures[i]) == Failure(r.error);
        FutureErrors(sc, st, service, plan, i);
      }
    }
  }

  /** With no attempt allowed, a run with jobs and workers stops at the first future read,
      before any progress. */
  lemma NoRetriesNoBook(sc: Script, st: Settings, outPath: string, chunked: seq<seq<string>>, service: Service, order: seq<nat>)
    requires CompletionOrder(order, |PlanFor(st, chunked)|)
    requires st.retryCount <= 0
    requires |PlanFor(st, chunked)| > 0 && HasWorkers(st, |PlanFor(st, chunked)|)
    ensures RunChunked(sc, st, outPath, chunked, service, order) == Failed(NotUnpackable, 0)
  {
    var plan := PlanFor(st, chunked);
    var futures := Futures(sc, st, service, plan);
    FutureErrors(sc, st, service, plan, order[0]);
    PlanLayout(st, chunked);
    EmptyAddressable(plan, futures, order, CountsFor(chunked));
    assert Collect(plan, futures, order, EmptySlots(CountsFor(chunked))) == Stopped(NotUnpackable, 0);
  }

  /** A book without documents has nothing to translate, and a book with documents always
      has something: every document yields at least one chunk. */
  lemma RunEmptyIffNoDocs(sc: Script, st: Settings, inPath: string, docs: seq<string>, service: Service, order: seq<nat>)
    requires CompletionOrder(order, |PlanOf(sc, st, docs)|)
    ensures Run(sc, st, inPath, docs, service, order) == Failed(NothingToTranslate, 0) <==> |docs| == 0
  {
    PlanEmptyIffNoDocs(sc, st, docs);
    RunErrors(sc, st, OutPath(inPath), AllChunks(sc, st, docs), service, order);
  }

  /** A finished run writes to the output path one new content per document of the book, and
      does so whatever order the jobs complete in. */
  lemma RunBook(sc: Script, st: Settings, inPath: string, docs: seq<string>, service: Service, order1: seq<nat>, order2: seq<nat>)
    requires CompletionOrder(order1, |PlanOf(sc, st, docs)|) && CompletionOrder(order2, |PlanOf(sc, st, docs)|)
    ensures var r := Run(sc, st, inPath, docs, service, order1);
      r.Done? ==> r.path == OutPath(inPath) && |r.docs| == |docs| && r == Run(sc, st, inPath, docs, service, order2)
  {
    var chunked := AllChunks(sc, st, docs);
    var plan := PlanFor(st, chunked);
    RunDone(sc, st, OutPath(inPath), chunked, service, order1);
    if |plan| > 0 && HasWorkers(st, |plan|) {
      PlanLayout(st, chunked);
      WorkerOrderIndependent(sc, OutPath(inPath), plan, Futures(sc, st, service, plan), order1, order2, CountsFor(chunked));
    }
  }
}
