# EPUB translator core, in Dafny

The repository has two near-identical scripts: `translate_epub_gui_to_greek_fast_progress_deepseek.py` and `en-gr_epub_translator.py`. Each translates the XHTML documents of an EPUB book into Greek through a chat-completions service. This project models the text pipeline the two scripts share, once, and proves properties of it. The stages:

- **Splitter.** `split_html_blocks` runs `re.split` with `BLOCK_SPLIT_RE`, then glues every captured boundary tag to the text before it.
- **Packer.** `chunk_html_for_llm` packs the blocks greedily against a soft character budget.
- **Planner.** The planning loop builds the jobs `(doc, chunk, text, context)`. A job's context is the tail of the previous chunk with its tags stripped.
- **Gate.** The quality gate is made of `strip_tags`, `greek_ratio`, `english_runs_count` and `looks_greek_enough`.
- **Client.** `ds_chat` decides on the reply's status and on the shape of its decoded body.
- **Retry.** The retry and repair control flow covers `translate_one_with_context`, `repair_fragment` and `translate_chunk`. It is driven by a sequence of service outcomes.
- **Reassembly.** The worker collects results in completion order into per-document slots, then joins each document's slots.
- **Paths.** The output path is `f"{base}-greek{ext or '.epub'}"`.

The two scripts differ in four places. `Scripts.Script` records each difference, and `Scripts.Deepseek` and `Scripts.EnGr` hold each script's choice:

- **Break gap.** The Deepseek pattern `<br\\s*/?>` is written in a raw string. It asks for a literal backslash and then a run of `s`. The en-gr pattern `<br\s*/?>` asks for whitespace.
- **Greek class.** The Deepseek class `[\\u0370-\\u03FF\\u1F00-\\u1FFF]` is also a raw string. It matches U+0030–U+005C and `u`. The en-gr class matches the two Greek blocks.
- **Status policy.** The Deepseek client rejects 429 (as rate limiting) and any status of 400 or more. The en-gr client rejects every status but 200.
- **Empty slots.** The Deepseek worker checks for an empty slot before joining. The en-gr worker joins at once, and `"".join` fails on a `None`.

Modules, one file each:

- `Wrappers`, `Errors`: shared datatypes.
- `Text`: `str.strip`, joining, and `(?i)` case folding.
- `Scripts`: the per-script differences and the settings.
- `Re`: `re.split` with one capturing group, over any matcher.
- `Splitter`: `BLOCK_SPLIT_RE` and `split_html_blocks`.
- `Packer`: `chunk_html_for_llm`.
- `Gate`: the quality gate.
- `Planner`: the plan of jobs.
- `Client`: `ds_chat`.
- `Retry`: retry and repair.
- `Reassembly`: slot filling and assembly.
- `Paths`: `os.path.splitext` and the output path.
- `Pipeline`: the worker and a whole run.

The service is an input: `Pipeline.Service` gives, for job `i` and call `k`, the HTTP exchange that call produced. `Client.DsChat` turns each exchange into text or an error. The thread pool is an input too: a completion order, which is any permutation of the job indices.

Four behaviours of the code worth knowing:

- **Gate.** The Greek ratio is taken over the raw HTML, tag letters included. Only the English-run count uses the stripped text (`Gate.TagLettersCountAsLatin`).
- **Retries.** Every exception is retried, the malformed-shape error included.
- **Empty documents.** A document with no text still yields one (empty) chunk. So only a book without documents has nothing to translate (`Planner.PlanEmptyIffNoDocs`).
- **Progress.** The result that fails a run posts no progress event. The run's progress is the number of results processed before it.

## Model

| member | source | states |
|---|---|---|
| Text.StripIsSlice | translate_epub_gui_to_greek_fast_progress_deepseek.py:190 | `str.strip` returns the slice of its input between a leading and a trailing run of whitespace |
| Text.StripIdempotent | translate_epub_gui_to_greek_fast_progress_deepseek.py:241 | stripping the already stripped reply again (`(out or "").strip()`) changes nothing |
| Re.SplitJoins | translate_epub_gui_to_greek_fast_progress_deepseek.py:120 | the parts of `re.split` with a capturing group glue back to the input exactly |
| Re.SplitShape | translate_epub_gui_to_greek_fast_progress_deepseek.py:120 | `re.split` yields an odd number of parts; every odd part is a whole match and the leftmost one after the part before it; the tail holds no match |
| Re.SplitMatchFree | translate_epub_gui_to_greek_fast_progress_deepseek.py:120-122 | text with no match splits into itself alone, the `len(parts) == 1` case |
| Splitter.BoundaryLocal | translate_epub_gui_to_greek_fast_progress_deepseek.py:117 | whether `BLOCK_SPLIT_RE` matches at a position, and how long the match is, depend only on the characters it covers |
| Splitter.Exclusive | translate_epub_gui_to_greek_fast_progress_deepseek.py:117 | no two alternatives of the pattern can match at the same place, so the first-alternative rule never matters |
| Splitter.MatchIsBreak | translate_epub_gui_to_greek_fast_progress_deepseek.py:117 | where the second character is not `/`, only the line-break alternative can match |
| Splitter.NoMatchWithoutOpen | translate_epub_gui_to_greek_fast_progress_deepseek.py:117 | no boundary tag starts anywhere but at a `<` |
| Splitter.BlocksSpec | translate_epub_gui_to_greek_fast_progress_deepseek.py:119-132 | for any local pattern, the blocks glue back to the text; each block but the last ends at its first match; the last holds none |
| Splitter.SplitHtmlBlocksSpec | translate_epub_gui_to_greek_fast_progress_deepseek.py:119-132 | `split_html_blocks` never returns an empty list; joining its blocks gives the input; every block but the last ends with a boundary tag, the first one in it |
| Splitter.DeepseekBreakNeedsBackslash | translate_epub_gui_to_greek_fast_progress_deepseek.py:117 | with the doubled backslash, a `<br` not followed by a backslash is never a boundary |
| Splitter.DeepseekKeepsPlainBreak | translate_epub_gui_to_greek_fast_progress_deepseek.py:117-132 | as written, `<br>` is not a boundary and `a<br>b` stays one block |
| Splitter.ClosingTagIsBoundary | translate_epub_gui_to_greek_fast_progress_deepseek.py:117 | in both scripts, `</p>`, `</li>`, `</div>`, `</h1>` to `</h6>`, `</blockquote>`, `</section>` and `</article>`, in any case, are whole boundary tags |
| Splitter.FirstAlternativeWins | translate_epub_gui_to_greek_fast_progress_deepseek.py:117 | the alternation tried in order returns the match of any alternative that matches, since no earlier one can |
| Splitter.WhitespaceBreakIsBoundary | en-gr_epub_translator.py:50 | `<br>`, `<br/>`, `<BR />` and every spelling of `<br`, whitespace, optional `/`, `>` are whole boundary tags |
| Splitter.WhitespaceSplitsPlainBreak | en-gr_epub_translator.py:50-65 | `a<br>b` splits into `a<br>` and `b` |
| Packer.PackBlocksSpec | en-gr_epub_translator.py:67-79 | the groups flatten back to the blocks; no group is empty; a group of two or more blocks fits the budget; each group was closed because the next block would have overflowed it |
| Packer.GreedyUnique | en-gr_epub_translator.py:67-79 | exactly one grouping has those four properties, so they define the packer |
| Packer.FirstGroupLongest | en-gr_epub_translator.py:72-76 | two groupings that both have the four greedy properties cannot differ in the length of their first group, so no valid grouping closes the first chunk later than the packer does |
| Packer.EmptyGrouping | en-gr_epub_translator.py:77-78 | there are no groups exactly when there are no blocks |
| Packer.ChunkHtmlForLlmSpec | translate_epub_gui_to_greek_fast_progress_deepseek.py:134-146 | `chunk_html_for_llm` returns at least one chunk; the chunks join to the input; a chunk longer than the budget is a single block of the splitter |
| Gate.StripTagsChars | en-gr_epub_translator.py:85-86 | `strip_tags` never lengthens its input and adds no character but the space |
| Gate.StripTagsTagFree | en-gr_epub_translator.py:85-86 | after stripping, no `<` has a `>` after it |
| Gate.StripTagFree | en-gr_epub_translator.py:85-86 | text without a tag comes back unchanged |
| Gate.StripTagsIdempotent | en-gr_epub_translator.py:85-86 | stripping twice is stripping once |
| Gate.StripTagAfter | en-gr_epub_translator.py:85-86 | a tag after text with no `<` becomes one space, and the rest is stripped on its own |
| Gate.TagSeparatesRuns | en-gr_epub_translator.py:85-95 | letters on the two sides of a tag never join into one English run |
| Gate.Fraction | translate_epub_gui_to_greek_fast_progress_deepseek.py:159-160 | `greek / ((greek + latin) or 1)` lies in [0, 1]; it is 1 exactly when there is Greek and no Latin, and 0 exactly when there is no Greek |
| Gate.GreekRatio | translate_epub_gui_to_greek_fast_progress_deepseek.py:156-160 | the same bounds and extremes, stated in terms of the letter counts of the text |
| Gate.FractionAtLeast | translate_epub_gui_to_greek_fast_progress_deepseek.py:168 | with a positive denominator, the ratio test is the division-free test `greek >= t * denominator` |
| Gate.RatioCounts | translate_epub_gui_to_greek_fast_progress_deepseek.py:166-168 | `greek_ratio(html) >= t` exactly when the Greek count reaches `t` times the floored denominator |
| Gate.EnglishRunsPositive | translate_epub_gui_to_greek_fast_progress_deepseek.py:162-163 | a text has an English run exactly when six ASCII letters stand in a row somewhere in it |
| Gate.NoLettersNoRuns | translate_epub_gui_to_greek_fast_progress_deepseek.py:162-163 | text without ASCII letters has no English run |
| Gate.EnglishRunsSplit | translate_epub_gui_to_greek_fast_progress_deepseek.py:162-163 | a non-letter separates runs: the count over `a + c + b` is the count over `a` plus the count over `b` |
| Gate.NoGreekFails | translate_epub_gui_to_greek_fast_progress_deepseek.py:165-168 | with a positive threshold, text with no character of the Greek class fails, the empty text included |
| Gate.EnglishWordFails | translate_epub_gui_to_greek_fast_progress_deepseek.py:165-168 | with no English run allowed, six ASCII letters in a row outside the tags fail the gate whatever the ratio |
| Gate.AllGreekPasses | en-gr_epub_translator.py:81-100 | non-empty text made only of Greek-block characters passes any threshold up to 1 |
| Gate.TagLettersCountAsLatin | en-gr_epub_translator.py:88-100 | the tag letters count as Latin: `<p>` + n Greek letters + `</p>` has ratio n/(n+2) and fails the default gate below 18 letters |
| Gate.DeepseekGreekIsNotGreek | translate_epub_gui_to_greek_fast_progress_deepseek.py:149-168 | as written, the Deepseek class counts no Greek letter: `Καλημέρα` has ratio 0 and fails any positive threshold |
| Gate.GreekBlocksAcceptGreek | en-gr_epub_translator.py:81-100 | with the Greek-block class, `Καλημέρα` has ratio 1 and passes the default gate |
| Planner.TargetChars | translate_epub_gui_to_greek_fast_progress_deepseek.py:281 | the chunk budget is at least 500, at least tokens times characters per token, and one of the two |
| Planner.PySliceFrom | translate_epub_gui_to_greek_fast_progress_deepseek.py:294 | Python's `s[start:]` is a suffix of `s`; a negative start takes `min(-start, len(s))` characters; a start of 0 or more drops that many |
| Planner.ContextSpec | translate_epub_gui_to_greek_fast_progress_deepseek.py:292-296 | chunk 0 has no context; chunk c > 0 gets a suffix of the stripped chunk c-1, empty when that text is, of length `min(limit, len)` for a positive limit, the whole text for a limit of 0, and free of tags |
| Planner.PlanDocument | translate_epub_gui_to_greek_fast_progress_deepseek.py:292-296 | the inner loop with its running `prev_tail_src` builds the same jobs as looking back at the previous chunk |
| Planner.Plan | translate_epub_gui_to_greek_fast_progress_deepseek.py:284-296 | the planning loop builds `plan` and `per_doc_counts` as the document-by-document definition does |
| Planner.PlanLength | en-gr_epub_translator.py:190-201 | the plan has as many jobs as the documents have chunks |
| Planner.PlanSlot | en-gr_epub_translator.py:193-201 | the job for chunk c of document d sits at the document's offset plus c, with that chunk's text and context |
| Planner.PlanJob | en-gr_epub_translator.py:193-201 | every job names an existing chunk, and its position is the document's offset plus its chunk index |
| Planner.PlanOrdered | en-gr_epub_translator.py:193-201 | the jobs come in strictly increasing (document, chunk) order |
| Planner.PlanEmptyIffNoDocs | en-gr_epub_translator.py:188-207 | the plan is empty exactly when the book has no documents |
| Reassembly.PlanLayout | en-gr_epub_translator.py:190-201 | every job fits the slots `per_doc_counts` allots; no two jobs share a slot; every slot has a job |
| Client.Lookup | translate_epub_gui_to_greek_fast_progress_deepseek.py:190 | a key of a decoded object is found exactly when some member has it, and the value found is that of its last binding, as the dict `json` builds keeps it |
| Client.ReadReply | translate_epub_gui_to_greek_fast_progress_deepseek.py:189-192 | reading `choices[0].message.content` gives the content stripped when it is a string, `""` when it is falsy, and the malformed-shape error exactly when the path is missing or leads to a truthy non-string |
| Client.DsChat | translate_epub_gui_to_greek_fast_progress_deepseek.py:182-192 | a reply is accepted only with a response, an accepted status and a decodable body, and then it is read as `ReadReply` reads it; every failure is one of the service errors |
| Client.DsChatSpec | translate_epub_gui_to_greek_fast_progress_deepseek.py:183-192 | success exactly when the status is accepted, the body decodes and the content path holds a string or a falsy value; no response, 429 and an undecodable body each map to their own error; a status of 400 or more always fails |
| Client.CompletionRoundTrip | translate_epub_gui_to_greek_fast_progress_deepseek.py:188-192 | a completion is read back as its content: a string stripped, a falsy value as `""`, anything else refused as a malformed shape |
| Client.PoliciesDiffer | en-gr_epub_translator.py:108-109 | the two clients disagree only at 429 and at statuses below 400 other than 200; the en-gr client rejects those with an API error |
| Retry.Conversation | translate_epub_gui_to_greek_fast_progress_deepseek.py:195-198 | the request is the system prompt, then the context block exactly when there is context, then the fragment |
| Retry.Attempts | translate_epub_gui_to_greek_fast_progress_deepseek.py:200-211 | the call loop sends the same request each time; it stops at the first success or after its attempts, and pauses `0.6 * 2^k` between calls only |
| Retry.TranslateOne | translate_epub_gui_to_greek_fast_progress_deepseek.py:194-211 | with `RETRY_COUNT <= 0` it fails without a call; otherwise it makes between 1 and `RETRY_COUNT` calls, all with the translate request |
| Retry.TranslateOneSpec | translate_epub_gui_to_greek_fast_progress_deepseek.py:200-211 | it fails exactly when all `RETRY_COUNT` calls fail, and raises the last error after `RETRY_COUNT - 1` pauses; on success it returns the first successful reply |
| Retry.Repair | translate_epub_gui_to_greek_fast_progress_deepseek.py:213-226 | a repair is one call with the repair request |
| Retry.RepairIgnoresBadOutput | translate_epub_gui_to_greek_fast_progress_deepseek.py:213-226 | the repair request never contains the rejected output |
| Retry.RepairPasses | translate_epub_gui_to_greek_fast_progress_deepseek.py:234-240 | at most `REPAIR_PASSES` repairs; every earlier repair output was rejected; it stops at the first output that passes, else keeps the last one; no repair leaves the output as it was |
| Retry.AttemptBody | translate_epub_gui_to_greek_fast_progress_deepseek.py:233-241 | one attempt makes between 1 and `RETRY_COUNT + REPAIR_PASSES` calls and ends with the last call's outcome |
| Retry.AttemptBodySpec | translate_epub_gui_to_greek_fast_progress_deepseek.py:233-241 | one attempt makes the calls and sleeps of `translate_one_with_context`, then repair requests exactly when that returned text the gate rejects and passes are allowed; every repair output but the last was rejected, a rejected last one used up the passes, and with no repair the attempt ends as `translate_one_with_context` did |
| Retry.OuterLoop | translate_epub_gui_to_greek_fast_progress_deepseek.py:230-246 | the outer loop makes at least one and at most `retries * budget` calls, and ends with the last call's error or that call's text stripped |
| Retry.OuterLoopSpec | translate_epub_gui_to_greek_fast_progress_deepseek.py:230-246 | the outer loop raises exactly when all its attempts raise, and then after running every one of them with the last one's error; otherwise it returns the stripped text of the first attempt that returned, after the attempts before it; it sleeps `BaseDelay(k)` after attempt `k` |
| Retry.ChunkAttemptsSpec | translate_epub_gui_to_greek_fast_progress_deepseek.py:230-246 | from any attempt on, the loop runs attempts back to back until one returns or none is left, and ends with the last one's outcome |
| Retry.TranslateChunk | translate_epub_gui_to_greek_fast_progress_deepseek.py:229-246 | with `RETRY_COUNT <= 0` it returns `None` without a call; otherwise it makes at most `RETRY_COUNT * (RETRY_COUNT + REPAIR_PASSES)` calls and returns the last call's text stripped or raises its error |
| Retry.TranslateChunkSpec | translate_epub_gui_to_greek_fast_progress_deepseek.py:229-246 | over every outcome sequence, `translate_chunk` raises exactly when all `RETRY_COUNT` attempts raise, after running them all; otherwise it returns the stripped text of the first attempt that returned, with the attempts before it and the sleeps between them |
| Retry.TranslateChunkCalls | en-gr_epub_translator.py:149-166 | a chunk costs at most `RETRY_COUNT * (RETRY_COUNT + REPAIR_PASSES)` service calls |
| Retry.FirstReplyAccepted | translate_epub_gui_to_greek_fast_progress_deepseek.py:233-241 | a first reply that passes the gate is returned stripped after one call, with no pause |
| Retry.RejectedThenRepaired | translate_epub_gui_to_greek_fast_progress_deepseek.py:234-241 | a rejected first reply followed by a passing repair returns the repair stripped after exactly the translate and repair requests |
| Retry.AlwaysFailing | translate_epub_gui_to_greek_fast_progress_deepseek.py:230-246 | a service that always fails costs `RETRY_COUNT^2` calls and one pause fewer, and the error propagates |
| Reassembly.EmptySlots | translate_epub_gui_to_greek_fast_progress_deepseek.py:321 | each document gets `per_doc_counts[d]` empty slots |
| Reassembly.Store | translate_epub_gui_to_greek_fast_progress_deepseek.py:330 | storing a result fills its own slot and changes nothing else |
| Reassembly.Take | translate_epub_gui_to_greek_fast_progress_deepseek.py:329 | `fut.result()` yields text only for a returned string; it re-raises the job's error; a `None` result fails to unpack |
| Reassembly.Collect | translate_epub_gui_to_greek_fast_progress_deepseek.py:327-331 | progress counts the results processed, all of them successful; the loop either processes every result or stops at the first failing one with its error |
| Reassembly.CollectWrites | translate_epub_gui_to_greek_fast_progress_deepseek.py:327-331 | after a full pass each processed result sits in its own slot, and slots no result names are untouched |
| Reassembly.FilledIffAllReturned | translate_epub_gui_to_greek_fast_progress_deepseek.py:327-331 | the loop completes exactly when every job returned text |
| Reassembly.FilledContents | translate_epub_gui_to_greek_fast_progress_deepseek.py:327-331 | a completed loop holds job i's text in job i's slot |
| Reassembly.FullFill | translate_epub_gui_to_greek_fast_progress_deepseek.py:321-331 | from the empty slots, in any completion order, the loop completes exactly when every job returned text, and then every slot holds its job's text |
| Reassembly.OrderIndependent | translate_epub_gui_to_greek_fast_progress_deepseek.py:327-331 | two completion orders agree on whether the loop completes, and a completed loop fills the same slots |
| Reassembly.FilledIsComplete | translate_epub_gui_to_greek_fast_progress_deepseek.py:333-337 | after a completed loop no slot is empty, so the Deepseek `None` check never fires |
| Reassembly.Assemble | translate_epub_gui_to_greek_fast_progress_deepseek.py:334-338 | assembly succeeds exactly when no slot is empty, giving each document its slots joined in chunk order; otherwise it raises the script's error (the `None` check, or `"".join` on `None` in the en-gr script) |
| Paths.LastIndex | translate_epub_gui_to_greek_fast_progress_deepseek.py:270 | `rfind`: the index of the last occurrence, or -1 when there is none |
| Paths.SplitExt | translate_epub_gui_to_greek_fast_progress_deepseek.py:270 | `splitext` gives a base and an extension that concatenate to the path; the extension is empty or a dot followed by neither a separator nor another dot |
| Paths.SplitAtExt | translate_epub_gui_to_greek_fast_progress_deepseek.py:270 | a base that ends in neither a dot nor a separator, followed by an extension, splits back into exactly those two |
| Paths.OutPath | translate_epub_gui_to_greek_fast_progress_deepseek.py:270-271 | the output path is the base, `-greek`, and the extension or `.epub`, and is longer than the input |
| Paths.OutPathSameDir | translate_epub_gui_to_greek_fast_progress_deepseek.py:270-271 | the output path differs from the input and lies in the same directory |
| Paths.OutPathSplit | translate_epub_gui_to_greek_fast_progress_deepseek.py:270-271 | splitting the output path gives the base with `-greek` added and the original extension, or `.epub` |
| Pipeline.WorkerDone | translate_epub_gui_to_greek_fast_progress_deepseek.py:319-356 | the worker finishes exactly when every job returned text; then it writes to the output path after one progress event per job, and each document is its jobs' texts joined in chunk order |
| Pipeline.WorkerFailed | translate_epub_gui_to_greek_fast_progress_deepseek.py:327-331 | a failed worker reports the error of one of its jobs, before processing all of them |
| Pipeline.WorkerOrderIndependent | translate_epub_gui_to_greek_fast_progress_deepseek.py:327-339 | a finished worker's book does not depend on the completion order |
| Pipeline.PlannedJobAt | en-gr_epub_translator.py:193-201 | the job of chunk c of document d is job number offset(d) + c |
| Pipeline.PlannedDocTexts | en-gr_epub_translator.py:222-235 | a document's slots, read in chunk order, hold the results of its consecutive jobs |
| Pipeline.FutureErrors | translate_epub_gui_to_greek_fast_progress_deepseek.py:322-329 | a job fails only with a service error, or with the unpacking error when `RETRY_COUNT <= 0` |
| Pipeline.RunDone | translate_epub_gui_to_greek_fast_progress_deepseek.py:301-356 | a run finishes exactly when there are jobs, workers, and a text from every job; then each document is its chunks' translations joined in order |
| Pipeline.RunErrors | translate_epub_gui_to_greek_fast_progress_deepseek.py:301-356 | a run fails only in these ways: nothing to translate, no workers, `None` from every job when `RETRY_COUNT <= 0`, or a service error before all jobs are processed; never an assembly error |
| Pipeline.NoRetriesNoBook | translate_epub_gui_to_greek_fast_progress_deepseek.py:319-331 | with `RETRY_COUNT <= 0`, a run with jobs and workers fails at the first result with no progress |
| Pipeline.RunEmptyIffNoDocs | translate_epub_gui_to_greek_fast_progress_deepseek.py:301-303 | a run reports nothing to translate exactly when the book has no documents |
| Pipeline.RunBook | translate_epub_gui_to_greek_fast_progress_deepseek.py:319-356 | a finished run writes to `out_path` one new content per document, whatever order the jobs complete in |

## Left out

- The tkinter GUI, the progress window and `poll_queue` are presentation. Progress is kept as the count of progress events a run posts.
- The following are configuration, passed in as `Scripts.Settings`:
  - environment and `.env` parsing;
  - the `UI` string table;
  - the wording of `SYSTEM_PROMPT` (kept as a constant message);
  - the model name, endpoint, temperature and timeout.
- The API key is left out: `_get_api_key`, the preflight check, and the key placeholder in `en-gr_epub_translator.py:11`, which does not parse.
- HTTP and JSON decoding are left out. `requests.post` and `r.json()` become an input exchange: no response, or a status and a body that decoded or did not.
- ebooklib reading and writing, `get_content`/`decode` and the title and language metadata updates are foreign library I/O. A finished run returns the new document texts and the output path.
- The thread pool and real concurrency are left out. Completion order is an input permutation, and every job's outcome is computed from its own service calls.
- The `time.sleep` jitter (`random.random() * 0.2`) is left out. Pauses are recorded as their base delays `0.6 * 2^k`.
- Pipeline.Run: the CLI fallback of the Deepseek script (`translate_epub_gui_to_greek_fast_progress_deepseek.py:382-444`) is not modelled, because it repeats the planning and assembly modelled here. Errors in reading the book, and the file-dialog branches, are not modelled either.
- Pipeline.Run: a failed run is all-or-nothing. Documents whose content the Deepseek loop set before it met an empty slot stay unwritten in the source as well, since `write_epub` is never reached.
- Gate.GreekRatio: the ratio and the threshold are exact reals rather than doubles. At the default threshold 0.90 the verdicts agree for texts with fewer than 10^15 letters. At other thresholds, or for longer texts, a ratio within one rounding step of the threshold can be judged the other way.
- Paths.SplitExt: models `posixpath.splitext` only. Windows separators are not treated as separators.
- Retry.TranslateChunk: does not return the `idx` echo of `translate_chunk`, which the worker discards.
- Retry.OuterLoop: its own contract gives only the call bound and the last call's outcome. Which attempt that call belongs to, and the retry after every raised attempt, are stated by Retry.OuterLoopSpec, so that callers of the function do not carry the whole loop specification.
- Retry.AttemptBody: its own contract gives only the call bound and the last call's outcome. The translate-then-repair shape of the attempt is stated by Retry.AttemptBodySpec, for the same reason.

## Findings

| source | as written | input that shows it | evidently intended | confidence | as-written member | corrected member |
|---|---|---|---|---|---|---|
| translate_epub_gui_to_greek_fast_progress_deepseek.py:117 | the raw string `<br\\s*/?>` requires a backslash after `<br` | `a<br>b` is one block: line breaks never split | `<br\s*/?>`, as in `en-gr_epub_translator.py:50`: `a<br>b` splits into `a<br>` and `b` | not executed | Splitter.DeepseekKeepsPlainBreak | Splitter.WhitespaceSplitsPlainBreak |
| translate_epub_gui_to_greek_fast_progress_deepseek.py:149 | the raw string `[\\u0370-\\u03FF\\u1F00-\\u1FFF]` is the class U+0030–U+005C plus `u` | `Καλημέρα` has Greek ratio 0 and fails the gate, so every translation written in Greek letters goes to repair, and the last repair output is kept as is. Digits, capitals, `<` and `>` count as Greek under this class, so markup- or number-heavy text can still pass | the Greek blocks, as in `en-gr_epub_translator.py:81`: `Καλημέρα` has ratio 1 and passes | not executed | Gate.DeepseekGreekIsNotGreek | Gate.GreekBlocksAcceptGreek |
