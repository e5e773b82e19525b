/** The retry and repair control flow around the service: `translate_one_with_context`,
    `repair_fragment` and `translate_chunk`. The service is an oracle: call `k` made for a job
    gets `outcomes(k)`, the text `ds_chat` returned or the error it raised. */
module Retry {
  import opened Wrappers
  import opened Errors
  import opened Text
  import opened Scripts
  import opened Gate

  /** A chat message. The wording of the system prompt is not modelled. */
  datatype Message = SystemPrompt | User(content: string)

  function ContextMessage(context: string): Message {
    User("<CONTEXT>(do not translate):\n" + context + "\n</CONTEXT>")
  }

  /** The messages of one call: the system prompt, the context message when there is a
      context, and the request itself. */
  function Conversation(context: string, request: string): (r: seq<Message>)
    ensures |r| >= 2 && r[0] == SystemPrompt && r[|r| - 1] == User(request)
    ensures |r| == 3 <==> context != ""
    ensures |r| == 2 <==> context == ""
    ensures context != "" ==> r[1] == ContextMessage(context)
  {
    [SystemPrompt] + (if context != "" then [ContextMessage(context)] else []) + [User(request)]
  }

  function TranslateRequest(fragment: string, context: string): seq<Message> {
    Conversation(context, fragment)
  }

  const RepairInstruction: string :=
    "Fix any remaining untranslated English or mixed-language segments in the fragment below.\n"
    + "Preserve the EXACT HTML structure and tags of the original.\n"
    + "Return ONLY the corrected HTML in Greek."

  /** The repair request quotes the original fragment; the rejected output is not sent. */
  function RepairRequest(original: string, context: string): seq<Message> {
    Conversation(context, RepairInstruction + "\n\n<ORIGINAL_HTML>\n" + original + "\n</ORIGINAL_HTML>")
  }

  /** What call `k` of a job gets back. */
  type Outcomes = nat -> Result<string, Error>

  /** Calls `from` up to `to` all raised. */
  predicate AllFail(outcomes: Outcomes, from: nat, to: int) {
    forall c: nat :: from <= c < to ==> outcomes(c).Failure?
  }

  /** The quality gate an output must pass to be kept without repair. */
  type Verdict = string -> bool

  /** `looks_greek_enough` of a script under given settings. */
  function GateOf(sc: Script, st: Settings): Verdict {
    html => LooksGreekEnough(sc, st, html)
  }

  /** Calls `from` up to `to` all returned text the gate rejects. */
  predicate AllRejected(gate: Verdict, outcomes: Outcomes, from: nat, to: int) {
    forall c: nat :: from <= c < to ==> outcomes(c).Success? && !gate(outcomes(c).value)
  }

  /** A run of the control flow: its result, the messages of each call it made in order, and
      the base length of each sleep it took (the random jitter is left out). */
  datatype Trace<T> = Trace(result: Result<T, Error>, sent: seq<seq<Message>>, pauses: seq<real>)

  function Pow2(k: nat): (r: nat)
    ensures r >= 1
  {
    if k == 0 then 1 else 2 * Pow2(k - 1)
  }

  /** The sleep after failed attempt `k` starts at 0.6 seconds and doubles each time. */
  function BaseDelay(k: nat): real {
    0.6 * (Pow2(k) as real)
  }

  /** The attempt loop of `translate_one_with_context` from `attempt` on; call `attempt` is
      call `base + attempt` of the job. It returns the first success and raises the last error,
      sleeping between attempts only. */
  function Attempts(outcomes: Outcomes, base: nat, request: seq<Message>, attempt: nat, retries: int): (t: Trace<string>)
    requires attempt < retries
    ensures 1 <= |t.sent| <= retries - attempt
    ensures forall k :: 0 <= k < |t.sent| ==> t.sent[k] == request
    ensures t.result == outcomes(base + attempt + |t.sent| - 1)
    ensures AllFail(outcomes, base + attempt, base + attempt + |t.sent| - 1)
    ensures t.result.Failure? ==> |t.sent| == retries - attempt
    ensures |t.pauses| == |t.sent| - 1
    ensures forall k :: 0 <= k < |t.pauses| ==> t.pauses[k] == BaseDelay(attempt + k)
    decreases retries - attempt
  {
    match outcomes(base + attempt)
    case Success(_) => Trace(outcomes(base + attempt), [request], [])
    case Failure(_) =>
      if attempt == retries - 1 then Trace(outcomes(base + attempt), [request], [])
      else
        var rest := Attempts(outcomes, base, request, attempt + 1, retries);
        Trace(rest.result, [request] + rest.sent, [BaseDelay(attempt)] + rest.pauses)
  }

  /** `translate_one_with_context`, making its calls from call `base` of the job on. With no
      attempt allowed it raises without calling. */
  function TranslateOne(st: Settings, outcomes: Outcomes, base: nat, fragment: string, context: string): (t: Trace<string>)
    ensures st.retryCount <= 0 ==> t == Trace(Failure(CallFailed), [], [])
    ensures st.retryCount >= 1 ==> 1 <= |t.sent| <= st.retryCount
    ensures forall k :: 0 <= k < |t.sent| ==> t.sent[k] == TranslateRequest(fragment, context)
  {
    if st.retryCount <= 0 then Trace(Failure(CallFailed), [], [])
    else Attempts(outcomes, base, TranslateRequest(fragment, context), 0, st.retryCount)
  }

  /** `translate_one_with_context` raises exactly when all of its first `RETRY_COUNT` calls
      raise, and then raises the last call's error after one sleep fewer than calls; otherwise
      it returns the first success. */
  lemma TranslateOneSpec(st: Settings, outcomes: Outcomes, base: nat, fragment: string, context: string)
    requires st.retryCount >= 1
    ensures var t := TranslateOne(st, outcomes, base, fragment, context);
      && (t.result.Failure? <==> AllFail(outcomes, base, base + st.retryCount))
      && (t.result.Success? ==>
            && t.result == outcomes(base + |t.sent| - 1)
            && AllFail(outcomes, base, base + |t.sent| - 1))
      && (t.result.Failure? ==>
            && |t.sent| == st.retryCount
            && t.result == outcomes(base + st.retryCount - 1)
            && |t.pauses| == st.retryCount - 1)
      && forall k :: 0 <= k < |t.pauses| ==> t.pauses[k] == BaseDelay(k)
  {
  }

  /** `repair_fragment`: one call asking for a fixed version of the original fragment. */
  function Repair(outcomes: Outcomes, call: nat, original: string, badOutput: string, context: string): (t: Trace<string>)
    ensures t.sent == [RepairRequest(original, context)] && t.result == outcomes(call)
  {
    Trace(outcomes(call), [RepairRequest(original, context)], [])
  }

  /** The repair request does not depend on the output being repaired. */
  lemma RepairIgnoresBadOutput(outcomes: Outcomes, call: nat, original: string, bad1: string, bad2: string, context: string)
    ensures Repair(outcomes, call, original, bad1, context) == Repair(outcomes, call, original, bad2, context)
  {
  }

  /** The repair loop of `translate_chunk` from pass `pass` on, making its calls from call
      `base` of the job on: it repairs until an output passes the gate or the passes run out,
      and keeps the last output. */
  function RepairPasses(gate: Verdict, st: Settings, outcomes: Outcomes, base: nat, original: string, fixed: string, context: string, pass: nat): (t: Trace<string>)
    ensures |t.sent| <= (if st.repairPasses > pass then st.repairPasses - pass else 0)
    ensures (|t.sent| == 0) == (pass >= st.repairPasses)
    ensures forall k :: 0 <= k < |t.sent| ==> t.sent[k] == RepairRequest(original, context)
    ensures |t.sent| == 0 ==> t.result == Success(fixed)
    ensures |t.sent| > 0 ==> t.result == outcomes(base + |t.sent| - 1)
    ensures AllRejected(gate, outcomes, base, base + |t.sent| - 1)
    ensures t.result.Success? && |t.sent| > 0 && !gate(t.result.value) ==> |t.sent| == st.repairPasses - pass
    ensures t.pauses == []
    decreases st.repairPasses - pass
  {
    if pass >= st.repairPasses then Trace(Success(fixed), [], [])
    else
      var r := Repair(outcomes, base, original, fixed, context);
      match r.result
      case Failure(_) => r
      case Success(f) =>
        if gate(f) then r
        else
          var rest := RepairPasses(gate, st, outcomes, base + 1, original, f, context, pass + 1);
          Trace(rest.result, r.sent + rest.sent, [])
  }

  /** The body of one attempt of `translate_chunk`, up to the `return`: translate, then repair
      if the gate rejects the translation. Its result is what the last call returned. */
  function AttemptBody(gate: Verdict, st: Settings, outcomes: Outcomes, base: nat, fragment: string, context: string): (t: Trace<string>)
    requires st.retryCount >= 1
    ensures 1 <= |t.sent| <= AttemptBudget(st)
    ensures t.result == outcomes(base + |t.sent| - 1)
  {
    var one := TranslateOne(st, outcomes, base, fragment, context);
    match one.result
    case Failure(_) => one
    case Success(out) =>
      if gate(out) then one
      else
        var rp := RepairPasses(gate, st, outcomes, base + |one.sent|, fragment, out, context, 0);
        Trace(rp.result, one.sent + rp.sent, one.pauses + rp.pauses)
  }

  /** An attempt starts with the calls and sleeps of `translate_one_with_context`; repairs
      follow exactly when that returned text the gate rejects and repair passes are allowed.
      Every repair output but the last was rejected, and a rejected last one means the passes
      ran out. */
  lemma AttemptBodySpec(gate: Verdict, st: Settings, outcomes: Outcomes, base: nat, fragment: string, context: string)
    requires st.retryCount >= 1
    ensures var t := AttemptBody(gate, st, outcomes, base, fragment, context);
      var one := TranslateOne(st, outcomes, base, fragment, context);
      && |one.sent| <= |t.sent| && t.sent[..|one.sent|] == one.sent
      && t.pauses == one.pauses
      && (|t.sent| > |one.sent| <==> one.result.Success? && !gate(one.result.value) && st.repairPasses > 0)
      && (forall k :: |one.sent| <= k < |t.sent| ==> t.sent[k] == RepairRequest(fragment, context))
      && (|t.sent| == |one.sent| ==> t.result == one.result)
      && AllRejected(gate, outcomes, base + |one.sent|, base + |t.sent| - 1)
      && (|t.sent| > |one.sent| && t.result.Success? && !gate(t.result.value) ==> |t.sent| == |one.sent| + st.repairPasses)
  {
    var one := TranslateOne(st, outcomes, base, fragment, context);
    if one.result.Success? && !gate(one.result.value) {
      var rp := RepairPasses(gate, st, outcomes, base + |one.sent|, fragment, one.result.value, context, 0);
      assert AttemptBody(gate, st, outcomes, base, fragment, context) == Trace(rp.result, one.sent + rp.sent, one.pauses + rp.pauses);
    }
  }

  /** The most calls one attempt of `translate_chunk` makes. */
  function AttemptBudget(st: Settings): int {
    st.retryCount + (if st.repairPasses > 0 then st.repairPasses else 0)
  }

  /** `n * k`, added up one `k` at a time. */
  function Times(n: int, k: int): (r: int)
    ensures k >= 0 ==> r >= 0
    decreases n
  {
    if n <= 0 then 0 else k + Times(n - 1, k)
  }

  lemma {:induction false} TimesIsProduct(n: nat, k: int)
    ensures Times(n, k) == n * k
  {
    if n > 0 {
      TimesIsProduct(n - 1, k);
      assert n * k == k + (n - 1) * k;
    }
  }

  /** One attempt of the outer loop, started at call `b` of the job. */
  type Attempt = nat -> Trace<string>

  /** Every attempt makes between one and `budget` calls and ends with what its last call
      returned. */
  ghost predicate EndsWithLastCall(body: Attempt, outcomes: Outcomes, budget: int) {
    forall b: nat :: 1 <= |body(b).sent| <= budget && body(b).result == outcomes(b + |body(b).sent| - 1)
  }

  /** The outer attempt loop of `translate_chunk` from attempt `k` on, its next call being call
      `base` of the job: a raised error starts the attempt over after a sleep, until the last
      attempt, whose error propagates. Its result is what the last call returned. */
  function ChunkAttempts(body: Attempt, outcomes: Outcomes, budget: int, base: nat, retries: int, k: nat): (t: Trace<string>)
    requires k < retries
    requires EndsWithLastCall(body, outcomes, budget)
    ensures 1 <= |t.sent| <= Times(retries - k, budget)
    ensures t.result == outcomes(base + |t.sent| - 1)
    decreases retries - k
  {
    var first := body(base);
    if first.result.Success? || k == retries - 1 then first
    else
      var rest := ChunkAttempts(body, outcomes, budget, base + |first.sent|, retries, k + 1);
      var t := Trace(rest.result, first.sent + rest.sent, first.pauses + [BaseDelay(k)] + rest.pauses);
      assert base + |t.sent| - 1 == (base + |first.sent|) + |rest.sent| - 1;
      t
  }

  /** The attempt `translate_chunk` makes from call `b` on. */
  function ChunkBody(gate: Verdict, st: Settings, outcomes: Outcomes, fragment: string, context: string): (body: Attempt)
    requires st.retryCount >= 1
    ensures EndsWithLastCall(body, outcomes, AttemptBudget(st))
  {
    (b: nat) => AttemptBody(gate, st, outcomes, b, fragment, context)
  }

  /** The call at which attempt `i` starts when the attempts before it, the first starting at
      call `base`, all ran. */
  function Start(body: Attempt, base: nat, i: nat): nat
    decreases i
  {
    if i == 0 then base else Start(body, base + |body(base).sent|, i - 1)
  }

  /** Attempt `i`, counted from the one starting at call `base`, raised. */
  predicate Raised(body: Attempt, base: nat, i: nat) {
    body(Start(body, base, i)).result.Failure?
  }

  /** Attempt `j` is the first that returned. */
  predicate FirstReturned(body: Attempt, base: nat, j: nat) {
    !Raised(body, base, j) && forall i :: 0 <= i < j ==> Raised(body, base, i)
  }

  /** `n` attempts run back to back from call `base`, the first of them being attempt `k` of
      the loop: their calls in order, their own sleeps, and the sleep `BaseDelay(k + i)` after
      the `i`-th of them but the last. The result is that of the last attempt. */
  function Unrolled(body: Attempt, base: nat, k: nat, n: nat): (t: Trace<string>)
    requires n >= 1
    ensures t.result == body(Start(body, base, n - 1)).result
    decreases n
  {
    var f := body(base);
    if n == 1 then f
    else
      var r := Unrolled(body, base + |f.sent|, k + 1, n - 1);
      Trace(r.result, f.sent + r.sent, f.pauses + [BaseDelay(k)] + r.pauses)
  }

  /** What a run of the outer loop with `n` attempts left, the first from call `base` being
      attempt `k`, must look like: it raises exactly when all `n` attempts raise, and then it has
      run all of them; otherwise it stops after the first attempt that returned. Either way it
      made the calls and sleeps of the attempts it ran, back to back. */
  predicate LoopSpec(body: Attempt, base: nat, k: nat, n: nat, t: Trace<string>)
    requires n >= 1
  {
    && (t.result.Failure? <==> forall i :: 0 <= i < n ==> Raised(body, base, i))
    && (t.result.Failure? ==> t == Unrolled(body, base, k, n))
    && (forall j :: 0 <= j < n && FirstReturned(body, base, j) ==> t == Unrolled(body, base, k, j + 1))
    && (t.result.Success? ==> exists j :: 0 <= j < n && FirstReturned(body, base, j))
  }

  /** The outer loop from attempt `k` on meets `LoopSpec`. */
  lemma {:induction false} ChunkAttemptsSpec(body: Attempt, outcomes: Outcomes, budget: int, base: nat, retries: int, k: nat)
    requires k < retries
    requires EndsWithLastCall(body, outcomes, budget)
    ensures LoopSpec(body, base, k, retries - k, ChunkAttempts(body, outcomes, budget, base, retries, k))
    decreases retries - k
  {
    var f := body(base);
    var t := ChunkAttempts(body, outcomes, budget, base, retries, k);
    if f.result.Success? {
      assert t == f;
      LoopSpecReturned(body, base, k, retries - k);
    } else if k == retries - 1 {
      assert t == f;
      LoopSpecLast(body, base, k);
    } else {
      var b2 := base + |f.sent|;
      var rest := ChunkAttempts(body, outcomes, budget, b2, retries, k + 1);
      ChunkAttemptsSpec(body, outcomes, budget, b2, retries, k + 1);
      ChunkAttemptsRaised(body, outcomes, budget, base, retries, k);
      LoopSpecStep(body, base, b2, k, retries - k, retries - (k + 1), rest, t);
    }
  }

  /** An attempt that raises, other than the last, is followed by a sleep and the rest of the
      loop. */
  lemma ChunkAttemptsRaised(body: Attempt, outcomes: Outcomes, budget: int, base: nat, retries: int, k: nat)
    requires k < retries - 1
    requires EndsWithLastCall(body, outcomes, budget)
    requires body(base).result.Failure?
    ensures var f := body(base);
      var rest := ChunkAttempts(body, outcomes, budget, base + |f.sent|, retries, k + 1);
      ChunkAttempts(body, outcomes, budget, base, retries, k) == Trace(rest.result, f.sent + rest.sent, f.pauses + [BaseDelay(k)] + rest.pauses)
  {
  }

  /** A first attempt that returns ends the loop. */
  lemma LoopSpecReturned(body: Attempt, base: nat, k: nat, n: nat)
    requires n >= 1 && body(base).result.Success?
    ensures LoopSpec(body, base, k, n, body(base))
  {
    assert Start(body, base, 0) == base;
    assert FirstReturned(body, base, 0);
  }

  /** The last attempt ends the loop, whatever it did. */
  lemma LoopSpecLast(body: Attempt, base: nat, k: nat)
    requires body(base).result.Failure?
    ensures LoopSpec(body, base, k, 1, body(base))
  {
    assert Start(body, base, 0) == base;
  }

  /** A first attempt that raised, its sleep, then a run that meets the spec for the attempts
      after it, meet the spec. */
  lemma LoopSpecStep(body: Attempt, base: nat, b2: nat, k: nat, n: nat, m: nat, rest: Trace<string>, t: Trace<string>)
    requires n >= 2 && m == n - 1 && body(base).result.Failure?
    requires b2 == base + |body(base).sent|
    requires LoopSpec(body, b2, k + 1, m, rest)
    requires var f := body(base);
      t == Trace(rest.result, f.sent + rest.sent, f.pauses + [BaseDelay(k)] + rest.pauses)
    ensures LoopSpec(body, base, k, n, t)
  {
    var f := body(base);
    assert Start(body, base, 0) == base;
    assert Raised(body, base, 0);
    AllRaisedShift(body, base, b2, n);
    forall j | 0 <= j < n && FirstReturned(body, base, j) ensures t == Unrolled(body, base, k, j + 1) {
      FirstReturnedShift(body, base, b2, j);
      UnrolledStep(body, base, k, j);
    }
    if t.result.Failure? {
      UnrolledStep(body, base, k, n - 1);
    } else {
      var j :| 0 <= j < n - 1 && FirstReturned(body, b2, j);
      FirstReturnedShift(body, base, b2, j + 1);
    }
  }

  /** `j + 1` attempts from call `base` are the first attempt, its sleep, then `j` attempts. */
  lemma UnrolledStep(body: Attempt, base: nat, k: nat, j: nat)
    requires j >= 1
    ensures var f := body(base);
      var r := Unrolled(body, base + |f.sent|, k + 1, j);
      Unrolled(body, base, k, j + 1) == Trace(r.result, f.sent + r.sent, f.pauses + [BaseDelay(k)] + r.pauses)
  {
  }

  /** Attempt `i + 1` from call `base` is attempt `i` from the end of the first attempt, call
      `b2`. */
  lemma RaisedShift(body: Attempt, base: nat, b2: nat, i: nat)
    requires b2 == base + |body(base).sent|
    ensures Raised(body, base, i + 1) == Raised(body, b2, i)
  {
    assert Start(body, base, i + 1) == Start(body, b2, i);
  }

  /** All of `n` attempts raise exactly when the first does and the `n - 1` after it do. */
  lemma AllRaisedShift(body: Attempt, base: nat, b2: nat, n: nat)
    requires b2 == base + |body(base).sent| && n >= 1
    ensures (forall i :: 0 <= i < n ==> Raised(body, base, i))
        <==> Raised(body, base, 0) && forall i :: 0 <= i < n - 1 ==> Raised(body, b2, i)
  {
    if forall i :: 0 <= i < n ==> Raised(body, base, i) {
      forall i | 0 <= i < n - 1 ensures Raised(body, b2, i) {
        RaisedShift(body, base, b2, i);
      }
    }
    if Raised(body, base, 0) && forall i :: 0 <= i < n - 1 ==> Raised(body, b2, i) {
      forall i | 0 <= i < n ensures Raised(body, base, i) {
        if i > 0 {
          RaisedShift(body, base, b2, i - 1);
        }
      }
    }
  }

  /** After a first attempt that raised, attempt `j` is the first to return exactly when it is
      attempt `j - 1` counted from the end of the first. */
  lemma FirstReturnedShift(body: Attempt, base: nat, b2: nat, j: nat)
    requires b2 == base + |body(base).sent|
    requires Raised(body, base, 0)
    ensures FirstReturned(body, base, j) ==> j >= 1
    ensures j >= 1 ==> (FirstReturned(body, base, j) <==> FirstReturned(body, b2, j - 1))
  {
    if j >= 1 {
      RaisedShift(body, base, b2, j - 1);
      AllRaisedShift(body, base, b2, j);
    }
  }

  /** The outer loop of `translate_chunk` with at least one attempt allowed: it ends with the
      outcome of its last call, stripped when it is text, after at most `retries` attempts.
      `OuterLoopSpec` says which attempt that call belongs to. */
  function OuterLoop(body: Attempt, outcomes: Outcomes, budget: int, retries: int): (t: Trace<Option<string>>)
    requires retries >= 1
    requires EndsWithLastCall(body, outcomes, budget)
    ensures 1 <= |t.sent| <= Times(retries, budget)
    ensures t.result.Failure? ==> outcomes(|t.sent| - 1) == Failure(t.result.error)
    ensures t.result.Success? ==> outcomes(|t.sent| - 1).Success? && t.result.value == Some(Strip(outcomes(|t.sent| - 1).value))
  {
    var u := ChunkAttempts(body, outcomes, budget, 0, retries, 0);
    ChunkAttemptsSpec(body, outcomes, budget, 0, retries, 0);
    FinishSpec(body, outcomes, retries, u);
    Finish(u)
  }

  /** The outer loop raises exactly when all `retries` attempts raise, and then after running
      all of them, with the error of the last; otherwise it returns the stripped result of the
      first attempt that returned, after running the attempts up to it. Between attempts it
      sleeps `BaseDelay(k)` after attempt `k`. */
  lemma OuterLoopSpec(body: Attempt, outcomes: Outcomes, budget: int, retries: int)
    requires retries >= 1
    requires EndsWithLastCall(body, outcomes, budget)
    ensures OuterSpec(body, retries, OuterLoop(body, outcomes, budget, retries))
  {
    var u := ChunkAttempts(body, outcomes, budget, 0, retries, 0);
    ChunkAttemptsSpec(body, outcomes, budget, 0, retries, 0);
    FinishSpec(body, outcomes, retries, u);
    assert OuterLoop(body, outcomes, budget, retries) == Finish(u);
  }

  /** The `return` of `translate_chunk`: a returned text is stripped. */
  function Finish(u: Trace<string>): Trace<Option<string>> {
    match u.result
    case Success(v) => Trace(Success(Some(Strip(v))), u.sent, u.pauses)
    case Failure(e) => Trace(Failure(e), u.sent, u.pauses)
  }

  /** A run of the attempts that meets `LoopSpec` and ends with its last call's outcome
      finishes as the outer loop promises. */
  lemma FinishSpec(body: Attempt, outcomes: Outcomes, retries: int, u: Trace<string>)
    requires retries >= 1
    requires LoopSpec(body, 0, 0, retries, u)
    requires |u.sent| >= 1 && u.result == outcomes(|u.sent| - 1)
    ensures var t := Finish(u);
      && (t.result.Failure? ==> outcomes(|t.sent| - 1) == Failure(t.result.error))
      && (t.result.Success? ==> outcomes(|t.sent| - 1).Success? && t.result.value == Some(Strip(outcomes(|t.sent| - 1).value)))
    ensures OuterSpec(body, retries, Finish(u))
  {
  }

  /** What the outer loop of `translate_chunk` promises of its trace `t` over `retries`
      attempts: it raises exactly when every attempt raises, and then after running all of
      them, with the error of the last; otherwise it returns the stripped result of the first
      attempt that returned, after running the attempts up to it. */
  ghost predicate OuterSpec(body: Attempt, retries: int, t: Trace<Option<string>>)
    requires retries >= 1
  {
    && (t.result.Failure? <==> forall i :: 0 <= i < retries ==> Raised(body, 0, i))
    && (t.result.Failure? ==>
          var u := Unrolled(body, 0, 0, retries);
          u.result.Failure? && t == Trace(Failure(u.result.error), u.sent, u.pauses))
    && (forall j :: 0 <= j < retries && FirstReturned(body, 0, j) ==>
          var u := Unrolled(body, 0, 0, j + 1);
          u.result.Success? && t == Trace(Success(Some(Strip(u.result.value))), u.sent, u.pauses))
    && (t.result.Success? ==> exists j :: 0 <= j < retries && FirstReturned(body, 0, j))
  }

  /** `translate_chunk` for one job, without the index it echoes back. With no attempt allowed
      its loop never runs and it returns `None`. Otherwise it returns the stripped text of its
      last call, or raises that call's error. */
  function TranslateChunk(gate: Verdict, st: Settings, outcomes: Outcomes, fragment: string, context: string): (t: Trace<Option<string>>)
    ensures st.retryCount <= 0 ==> t == Trace(Success(None), [], [])
    ensures st.retryCount >= 1 ==>
      && 1 <= |t.sent| <= Times(st.retryCount, AttemptBudget(st))
      && (t.result.Failure? ==> outcomes(|t.sent| - 1) == Failure(t.result.error))
      && (t.result.Success? ==> outcomes(|t.sent| - 1).Success? && t.result.value == Some(Strip(outcomes(|t.sent| - 1).value)))
  {
    if st.retryCount <= 0 then Trace(Success(None), [], [])
    else OuterLoop(ChunkBody(gate, st, outcomes, fragment, context), outcomes, AttemptBudget(st), st.retryCount)
  }

  /** `translate_chunk` over every outcome sequence: it raises exactly when all `RETRY_COUNT`
      attempts raise, after running all of them back to back with the error of the last;
      otherwise it returns the stripped text of the first attempt that returned, after running
      the attempts up to it, with the sleep `BaseDelay(k)` after attempt `k`. */
  lemma TranslateChunkSpec(gate: Verdict, st: Settings, outcomes: Outcomes, fragment: string, context: string)
    requires st.retryCount >= 1
    ensures var body := ChunkBody(gate, st, outcomes, fragment, context);
      var t := TranslateChunk(gate, st, outcomes, fragment, context);
      && (t.result.Failure? <==> forall i :: 0 <= i < st.retryCount ==> Raised(body, 0, i))
      && (t.result.Failure? ==>
            var u := Unrolled(body, 0, 0, st.retryCount);
            u.result.Failure? && t == Trace(Failure(u.result.error), u.sent, u.pauses))
      && (forall j :: 0 <= j < st.retryCount && FirstReturned(body, 0, j) ==>
            var u := Unrolled(body, 0, 0, j + 1);
            u.result.Success? && t == Trace(Success(Some(Strip(u.result.value))), u.sent, u.pauses))
      && (t.result.Success? ==> exists j :: 0 <= j < st.retryCount && FirstReturned(body, 0, j))
  {
    var body := ChunkBody(gate, st, outcomes, fragment, context);
    assert TranslateChunk(gate, st, outcomes, fragment, context) == OuterLoop(body, outcomes, AttemptBudget(st), st.retryCount);
    OuterLoopSpec(body, outcomes, AttemptBudget(st), st.retryCount);
  }

  /** `translate_chunk` makes at most `RETRY_COUNT * (RETRY_COUNT + REPAIR_PASSES)` calls. */
  lemma TranslateChunkCalls(gate: Verdict, st: Settings, outcomes: Outcomes, fragment: string, context: string)
    requires st.retryCount >= 1
    ensures |TranslateChunk(gate, st, outcomes, fragment, context).sent| <= st.retryCount * AttemptBudget(st)
  {
    var n := |TranslateChunk(gate, st, outcomes, fragment, context).sent|;
    assert n <= Times(st.retryCount, AttemptBudget(st));
    TimesIsProduct(st.retryCount, AttemptBudget(st));
  }

  /** An attempt that returns ends the outer loop with what it returned. */
  lemma AcceptedAttemptEnds(body: Attempt, outcomes: Outcomes, budget: int, retries: int, t: Trace<string>)
    requires 0 < retries
    requires EndsWithLastCall(body, outcomes, budget)
    requires body(0) == t && t.result.Success?
    ensures ChunkAttempts(body, outcomes, budget, 0, retries, 0) == t
  {
  }

  /** A first reply that passes the gate is returned stripped, after one call and no sleep. */
  lemma FirstReplyAccepted(gate: Verdict, st: Settings, outcomes: Outcomes, fragment: string, context: string, html: string)
    requires st.retryCount >= 1
    requires outcomes(0) == Success(html) && gate(html)
    ensures TranslateChunk(gate, st, outcomes, fragment, context)
         == Trace(Success(Some(Strip(html))), [TranslateRequest(fragment, context)], [])
  {
    var one := TranslateOne(st, outcomes, 0, fragment, context);
    assert one == Trace(Success(html), [TranslateRequest(fragment, context)], []);
    var body := ChunkBody(gate, st, outcomes, fragment, context);
    assert body(0) == one;
    AcceptedAttemptEnds(body, outcomes, AttemptBudget(st), st.retryCount, one);
  }

  /** A first reply the gate rejects is repaired once; a repair that passes is returned. */
  lemma RejectedThenRepaired(gate: Verdict, st: Settings, outcomes: Outcomes, fragment: string, context: string, bad: string, good: string)
    requires st.retryCount >= 1 && st.repairPasses >= 1
    requires outcomes(0) == Success(bad) && !gate(bad)
    requires outcomes(1) == Success(good) && gate(good)
    ensures TranslateChunk(gate, st, outcomes, fragment, context)
         == Trace(Success(Some(Strip(good))), [TranslateRequest(fragment, context), RepairRequest(fragment, context)], [])
  {
    var one := TranslateOne(st, outcomes, 0, fragment, context);
    assert one == Trace(Success(bad), [TranslateRequest(fragment, context)], []);
    var rp := RepairPasses(gate, st, outcomes, 1, fragment, bad, context, 0);
    assert rp == Trace(Success(good), [RepairRequest(fragment, context)], []);
    var t := Trace(Success(good), [TranslateRequest(fragment, context), RepairRequest(fragment, context)], []);
    var body := ChunkBody(gate, st, outcomes, fragment, context);
    assert body(0) == t;
    AcceptedAttemptEnds(body, outcomes, AttemptBudget(st), st.retryCount, t);
  }

  /** Against a service that always fails with `e`, one attempt of `translate_chunk` makes
      `RETRY_COUNT` calls with a sleep after each but the last. */
  lemma AlwaysFailingBody(gate: Verdict, st: Settings, outcomes: Outcomes, base: nat, fragment: string, context: string, e: Error)
    requires st.retryCount >= 1
    requires forall k :: outcomes(k) == Failure(e)
    ensures var b := AttemptBody(gate, st, outcomes, base, fragment, context);
      b.result == Failure(e) && |b.sent| == st.retryCount && |b.pauses| == st.retryCount - 1
  {
    var one := TranslateOne(st, outcomes, base, fragment, context);
    assert one.result == outcomes(base + |one.sent| - 1);
  }

  /** When every attempt raises `e` after `n` calls and a sleep after each call but its last,
      the outer loop raises `e` after `RETRY_COUNT - k` attempts, with a sleep after every call
      but the very last. */
  lemma {:induction false} AlwaysFailingAttempts(body: Attempt, outcomes: Outcomes, budget: int, base: nat, retries: int, k: nat, n: nat, e: Error)
    requires k < retries
    requires EndsWithLastCall(body, outcomes, budget)
    requires forall b: nat :: body(b).result == Failure(e) && |body(b).sent| == n && |body(b).pauses| == n - 1
    ensures var t := ChunkAttempts(body, outcomes, budget, base, retries, k);
      && t.result == Failure(e)
      && |t.sent| == Times(retries - k, n)
      && |t.pauses| == |t.sent| - 1
    decreases retries - k
  {
    if k < retries - 1 {
      AlwaysFailingAttempts(body, outcomes, budget, base + n, retries, k + 1, n, e);
    }
  }

  /** A service that always fails makes `translate_chunk` raise that error after
      `RETRY_COUNT²` calls and one sleep fewer. */
  lemma AlwaysFailing(gate: Verdict, st: Settings, outcomes: Outcomes, fragment: string, context: string, e: Error)
    requires st.retryCount >= 1
    requires forall k :: outcomes(k) == Failure(e)
    ensures var t := TranslateChunk(gate, st, outcomes, fragment, context);
      && t.result == Failure(e)
      && |t.sent| == st.retryCount * st.retryCount
      && |t.pauses| == |t.sent| - 1
  {
    var body := ChunkBody(gate, st, outcomes, fragment, context);
    forall b: nat ensures body(b).result == Failure(e) && |body(b).sent| == st.retryCount && |body(b).pauses| == st.retryCount - 1 {
      AlwaysFailingBody(gate, st, outcomes, b, fragment, context, e);
    }
    AlwaysFailingAttempts(body, outcomes, AttemptBudget(st), 0, st.retryCount, 0, st.retryCount, e);
    TimesIsProduct(st.retryCount, st.retryCount);
  }
}
