/** The second half of the worker: collecting the jobs' results in the order they complete
    into one slot per chunk, and joining each document back from its slots. */
module Reassembly {
  import opened Wrappers
  import opened Errors
  import opened Text
  import opened Scripts
  import opened Planner

  /** `translated`: per document, one slot per chunk, `None` until its translation arrives. */
  type Slots = seq<seq<Option<string>>>

  /** What a job's future holds: the value `translate_chunk` returned (`None` when its loop
      never ran) or the error it raised. */
  type Outcome = Result<Option<string>, Error>

  /** `{d_i: [None] * n for d_i, n in enumerate(per_doc_counts)}` */
  function EmptySlots(counts: seq<nat>): (r: Slots)
    ensures |r| == |counts|
    ensures forall d :: 0 <= d < |r| ==> |r[d]| == counts[d]
    ensures forall d, c :: 0 <= d < |r| && 0 <= c < |r[d]| ==> r[d][c].None?
  {
    seq(|counts|, d requires 0 <= d < |counts| => seq(counts[d], c => None))
  }

  /** Two slot tables with the same documents and the same number of slots in each. */
  predicate SameShape(a: Slots, b: Slots) {
    |a| == |b| && forall d :: 0 <= d < |a| ==> |a[d]| == |b[d]|
  }

  /** The job's `(doc, chunk)` names a slot of the table. */
  predicate Fits(slots: Slots, j: Job) {
    j.doc < |slots| && j.chunk < |slots[j.doc]|
  }

  /** Two jobs are for the same slot. */
  predicate SameSlot(a: Job, b: Job) {
    a.doc == b.doc && a.chunk == b.chunk
  }

  /** `translated[d_i][c_i] = html_greek` */
  function Store(slots: Slots, j: Job, h: string): (r: Slots)
    requires Fits(slots, j)
    ensures SameShape(r, slots)
    ensures r[j.doc][j.chunk] == Some(h)
    ensures forall d, c :: 0 <= d < |r| && 0 <= c < |r[d]| && !(d == j.doc && c == j.chunk) ==> r[d][c] == slots[d][c]
  {
    slots[j.doc := slots[j.doc][j.chunk := Some(h)]]
  }

  /** `_, html_greek = fut.result()`: the error the job raised, or the unpacking error when it
      returned `None`, or the text. */
  function Take(o: Outcome): (r: Result<string, Error>)
    ensures r.Success? <==> o.Success? && o.value.Some?
    ensures r.Success? ==> r.value == o.value.value
    ensures o.Failure? ==> r == Failure(o.error)
    ensures o == Success(None) ==> r == Failure(NotUnpackable)
  {
    match o
    case Failure(e) => Failure(e)
    case Success(None) => Failure(NotUnpackable)
    case Success(Some(h)) => Success(h)
  }

  /** Where the collection loop ended: every future read, or the error of the first one that
      raised; `progress` counts the progress events posted. */
  datatype Collected = Filled(slots: Slots, progress: nat) | Stopped(error: Error, progress: nat)

  /** Every job the order names has an outcome and a slot. */
  predicate Addressable(plan: seq<Job>, outcomes: seq<Outcome>, order: seq<nat>, slots: Slots) {
    forall k :: 0 <= k < |order| ==> order[k] < |plan| && order[k] < |outcomes| && Fits(slots, plan[order[k]])
  }

  lemma AddressableRest(plan: seq<Job>, outcomes: seq<Outcome>, order: seq<nat>, slots: Slots, next: Slots)
    requires |order| > 0 && Addressable(plan, outcomes, order, slots) && SameShape(next, slots)
    ensures Addressable(plan, outcomes, order[1..], next)
  {
    forall k | 0 <= k < |order[1..]|
      ensures order[1..][k] < |plan| && order[1..][k] < |outcomes| && Fits(next, plan[order[1..][k]])
    {
      assert order[1..][k] == order[k + 1];
    }
  }

  /** `for fut in as_completed(futures)`: the futures in completion order `order`, each
      result stored in its job's slot and counted, until one raises. */
  function Collect(plan: seq<Job>, outcomes: seq<Outcome>, order: seq<nat>, slots: Slots): (r: Collected)
    requires Addressable(plan, outcomes, order, slots)
    ensures r.progress <= |order|
    ensures forall k :: 0 <= k < r.progress ==> Take(outcomes[order[k]]).Success?
    ensures r.Filled? ==> r.progress == |order| && SameShape(r.slots, slots)
    ensures r.Stopped? ==> r.progress < |order| && Take(outcomes[order[r.progress]]) == Failure(r.error)
    decreases |order|
  {
    if |order| == 0 then Filled(slots, 0)
    else
      var j := plan[order[0]];
      match Take(outcomes[order[0]])
      case Failure(e) => Stopped(e, 0)
      case Success(h) =>
        var next := Store(slots, j, h);
        AddressableRest(plan, outcomes, order, slots, next);
        var rest := Collect(plan, outcomes, order[1..], next);
        assert forall k :: 1 <= k < |order| ==> order[k] == order[1..][k - 1];
        match rest
        case Filled(s, p) => Filled(s, p + 1)
        case Stopped(e, p) => Stopped(e, p + 1)
  }

  /** No two futures of the order are for the same slot. */
  predicate DistinctSlots(plan: seq<Job>, order: seq<nat>)
    requires forall k :: 0 <= k < |order| ==> order[k] < |plan|
  {
    forall k, l :: 0 <= k < l < |order| ==> !SameSlot(plan[order[k]], plan[order[l]])
  }

  /** No future of the order is for slot `(d, c)`. */
  predicate Untouched(plan: seq<Job>, order: seq<nat>, d: nat, c: nat)
    requires forall k :: 0 <= k < |order| ==> order[k] < |plan|
  {
    forall k :: 0 <= k < |order| ==> !(plan[order[k]].doc == d && plan[order[k]].chunk == c)
  }

  /** A loop that reads every future leaves each future's text in its own slot and every other
      slot as it was. */
  lemma {:induction false} CollectWrites(plan: seq<Job>, outcomes: seq<Outcome>, order: seq<nat>, slots: Slots)
    requires Addressable(plan, outcomes, order, slots)
    requires DistinctSlots(plan, order)
    requires Collect(plan, outcomes, order, slots).Filled?
    ensures var s := Collect(plan, outcomes, order, slots).slots;
      forall k :: 0 <= k < |order| ==> s[plan[order[k]].doc][plan[order[k]].chunk] == Some(Take(outcomes[order[k]]).value)
    ensures var s := Collect(plan, outcomes, order, slots).slots;
      forall d: nat, c: nat :: d < |s| && c < |s[d]| && Untouched(plan, order, d, c) ==> s[d][c] == slots[d][c]
    decreases |order|
  {
    if |order| > 0 {
      var j := plan[order[0]];
      var h := Take(outcomes[order[0]]).value;
      var next := Store(slots, j, h);
      var rest := order[1..];
      AddressableRest(plan, outcomes, order, slots, next);
      assert forall k :: 0 <= k < |rest| ==> rest[k] == order[k + 1];
      assert DistinctSlots(plan, rest);
      CollectWrites(plan, outcomes, rest, next);
      var s := Collect(plan, outcomes, rest, next).slots;
      assert Collect(plan, outcomes, order, slots).slots == s;
      assert Untouched(plan, rest, j.doc, j.chunk);
      assert s[j.doc][j.chunk] == Some(h);
      forall d: nat, c: nat | d < |s| && c < |s[d]| && Untouched(plan, order, d, c)
        ensures s[d][c] == slots[d][c]
      {
        assert Untouched(plan, rest, d, c);
      }
    }
  }

  /** `as_completed` yields every future exactly once: `order` lists the plan indices
      `0 .. n - 1`, each once. */
  predicate CompletionOrder(order: seq<nat>, n: nat) {
    && |order| == n
    && (forall k :: 0 <= k < |order| ==> order[k] < n)
    && (forall i :: 0 <= i < n ==> i in order)
    && (forall k, l :: 0 <= k < l < |order| ==> order[k] != order[l])
  }

  /** Some job of the plan is for slot `(d, c)`. */
  predicate HasJob(plan: seq<Job>, d: nat, c: nat) {
    exists i :: 0 <= i < |plan| && plan[i].doc == d && plan[i].chunk == c
  }

  /** The plan gives every slot of a table with `counts[d]` slots in document `d` exactly one
      job. */
  predicate Layout(plan: seq<Job>, counts: seq<nat>) {
    && (forall i :: 0 <= i < |plan| ==> plan[i].doc < |counts| && plan[i].chunk < counts[plan[i].doc])
    && (forall i, j :: 0 <= i < j < |plan| ==> !SameSlot(plan[i], plan[j]))
    && (forall d: nat, c: nat :: d < |counts| && c < counts[d] ==> HasJob(plan, d, c))
  }

  /** The planner's plan lays the jobs out over exactly the slots `translated` is built with. */
  lemma PlanLayout(st: Settings, chunked: seq<seq<string>>)
    ensures Layout(PlanFor(st, chunked), CountsFor(chunked))
  {
    var plan := PlanFor(st, chunked);
    var counts := CountsFor(chunked);
    forall i | 0 <= i < |plan| ensures plan[i].doc < |counts| && plan[i].chunk < counts[plan[i].doc] {
      PlanJob(st, chunked, i);
    }
    forall i, j | 0 <= i < j < |plan| ensures !SameSlot(plan[i], plan[j]) {
      PlanOrdered(st, chunked, i, j);
    }
    forall d: nat, c: nat | d < |counts| && c < counts[d] ensures HasJob(plan, d, c) {
      PlanSlot(st, chunked, d, c);
      var i := Offset(chunked, d) + c;
      assert plan[i].doc == d && plan[i].chunk == c;
    }
  }

  /** Empty slots laid out by the plan give every job of a completion order a slot. */
  lemma EmptyAddressable(plan: seq<Job>, outcomes: seq<Outcome>, order: seq<nat>, counts: seq<nat>)
    requires Layout(plan, counts) && |outcomes| == |plan| && CompletionOrder(order, |plan|)
    ensures Addressable(plan, outcomes, order, EmptySlots(counts))
  {
  }

  /** The loop reads every future exactly when every job returned text. */
  lemma FilledIffAllReturned(plan: seq<Job>, outcomes: seq<Outcome>, order: seq<nat>, slots: Slots)
    requires Addressable(plan, outcomes, order, slots) && |outcomes| == |plan| && CompletionOrder(order, |plan|)
    ensures Collect(plan, outcomes, order, slots).Filled? <==> forall i :: 0 <= i < |plan| ==> Take(outcomes[i]).Success?
  {
    var r := Collect(plan, outcomes, order, slots);
    if r.Filled? {
      forall i | 0 <= i < |plan| ensures Take(outcomes[i]).Success? {
        assert i in order;
      var k :| 0 <= k < |order| && order[k] == i;
      }
    } else {
      assert Take(outcomes[order[r.progress]]).Failure?;
    }
  }

  /** After reading every future, slot `(d, c)` holds the text of the job planned for it. */
  lemma FilledContents(plan: seq<Job>, outcomes: seq<Outcome>, order: seq<nat>, slots: Slots)
    requires Addressable(plan, outcomes, order, slots) && |outcomes| == |plan| && CompletionOrder(order, |plan|)
    requires forall i :: 0 <= i < |plan| ==> Fits(slots, plan[i])
    requires forall i, j :: 0 <= i < j < |plan| ==> !SameSlot(plan[i], plan[j])
    requires Collect(plan, outcomes, order, slots).Filled?
    ensures forall i :: 0 <= i < |plan| ==> Take(outcomes[i]).Success?
    ensures var s := Collect(plan, outcomes, order, slots).slots;
      forall i :: 0 <= i < |plan| ==> Fits(s, plan[i]) && s[plan[i].doc][plan[i].chunk] == Some(Take(outcomes[i]).value)
  {
    FilledIffAllReturned(plan, outcomes, order, slots);
    forall k, l | 0 <= k < l < |order| ensures !SameSlot(plan[order[k]], plan[order[l]]) {
      if order[k] < order[l] {
        assert !SameSlot(plan[order[k]], plan[order[l]]);
      } else {
        assert !SameSlot(plan[order[l]], plan[order[k]]);
      }
    }
    CollectWrites(plan, outcomes, order, slots);
    var s := Collect(plan, outcomes, order, slots).slots;
    forall i | 0 <= i < |plan| ensures s[plan[i].doc][plan[i].chunk] == Some(Take(outcomes[i]).value) {
      assert i in order;
      var k :| 0 <= k < |order| && order[k] == i;
    }
  }

  /** Starting from empty slots, the loop reads every future exactly when every job returned
      text; it then has posted one progress event per job, and slot `(d, c)` holds the text of
      the job planned for it, whatever the completion order. */
  lemma FullFill(plan: seq<Job>, outcomes: seq<Outcome>, order: seq<nat>, counts: seq<nat>)
    requires Layout(plan, counts) && |outcomes| == |plan| && CompletionOrder(order, |plan|)
    ensures Addressable(plan, outcomes, order, EmptySlots(counts))
    ensures var r := Collect(plan, outcomes, order, EmptySlots(counts));
      r.Filled? <==> forall i :: 0 <= i < |plan| ==> Take(outcomes[i]).Success?
    ensures var r := Collect(plan, outcomes, order, EmptySlots(counts));
      r.Filled? ==>
        && r.progress == |plan|
        && SameShape(r.slots, EmptySlots(counts))
        && forall i :: 0 <= i < |plan| ==> r.slots[plan[i].doc][plan[i].chunk] == Some(Take(outcomes[i]).value)
  {
    EmptyAddressable(plan, outcomes, order, counts);
    var empty := EmptySlots(counts);
    FilledIffAllReturned(plan, outcomes, order, empty);
    if Collect(plan, outcomes, order, empty).Filled? {
      FilledContents(plan, outcomes, order, empty);
    }
  }

  /** A full fill does not depend on the completion order. */
  lemma OrderIndependent(plan: seq<Job>, outcomes: seq<Outcome>, order1: seq<nat>, order2: seq<nat>, counts: seq<nat>)
    requires Layout(plan, counts) && |outcomes| == |plan|
    requires CompletionOrder(order1, |plan|) && CompletionOrder(order2, |plan|)
    ensures Addressable(plan, outcomes, order1, EmptySlots(counts)) && Addressable(plan, outcomes, order2, EmptySlots(counts))
    ensures Collect(plan, outcomes, order1, EmptySlots(counts)).Filled? == Collect(plan, outcomes, order2, EmptySlots(counts)).Filled?
    ensures Collect(plan, outcomes, order1, EmptySlots(counts)).Filled? ==>
      Collect(plan, outcomes, order1, EmptySlots(counts)) == Collect(plan, outcomes, order2, EmptySlots(counts))
  {
    FullFill(plan, outcomes, order1, counts);
    FullFill(plan, outcomes, order2, counts);
    var empty := EmptySlots(counts);
    var r1 := Collect(plan, outcomes, order1, empty);
    var r2 := Collect(plan, outcomes, order2, empty);
    if r1.Filled? {
      SameFill(plan, outcomes, counts, r1.slots, r2.slots);
    }
  }

  /** Two fills that agree on every planned slot agree everywhere. */
  lemma SameFill(plan: seq<Job>, outcomes: seq<Outcome>, counts: seq<nat>, a: Slots, b: Slots)
    requires Layout(plan, counts) && |outcomes| == |plan|
    requires SameShape(a, EmptySlots(counts)) && SameShape(b, EmptySlots(counts))
    requires forall i :: 0 <= i < |plan| ==> Take(outcomes[i]).Success?
    requires forall i :: 0 <= i < |plan| ==> a[plan[i].doc][plan[i].chunk] == Some(Take(outcomes[i]).value)
    requires forall i :: 0 <= i < |plan| ==> b[plan[i].doc][plan[i].chunk] == Some(Take(outcomes[i]).value)
    ensures a == b
  {
    forall d | 0 <= d < |a| ensures a[d] == b[d] {
      forall c | 0 <= c < |a[d]| ensures a[d][c] == b[d][c] {
        assert c < counts[d] && HasJob(plan, d, c);
        var i :| 0 <= i < |plan| && plan[i].doc == d && plan[i].chunk == c;
      }
    }
  }

  /** Every slot holds a text. */
  predicate Complete(slots: Slots) {
    forall d, c :: 0 <= d < |slots| && 0 <= c < |slots[d]| ==> slots[d][c].Some?
  }

  /** The texts of a complete row of slots. */
  function Texts(row: seq<Option<string>>): (r: seq<string>)
    requires forall c :: 0 <= c < |row| ==> row[c].Some?
    ensures |r| == |row| && forall c :: 0 <= c < |row| ==> row[c] == Some(r[c])
  {
    seq(|row|, c requires 0 <= c < |row| => row[c].value)
  }

  /** The assembly loop: each document becomes `"".join` of its slots. A slot still `None`
      stops it, the Deepseek script with its own error after `any(x is None ...)`, the en-gr
      script with the `TypeError` of `join`. */
  function Assemble(sc: Script, slots: Slots): (r: Result<seq<string>, Error>)
    ensures r.Success? <==> Complete(slots)
    ensures r.Success? ==> |r.value| == |slots|
    ensures r.Success? ==> forall d :: 0 <= d < |slots| ==> r.value[d] == Join(Texts(slots[d]))
    ensures r.Failure? ==> r.error == (if sc.checksEmptySlots then SomeChunksFailed else JoinTypeError)
  {
    if Complete(slots) then Success(seq(|slots|, d requires 0 <= d < |slots| => Join(Texts(slots[d]))))
    else if sc.checksEmptySlots then Failure(SomeChunksFailed)
    else Failure(JoinTypeError)
  }

  /** After a full fill neither script's assembly error can happen. */
  lemma FilledIsComplete(plan: seq<Job>, outcomes: seq<Outcome>, order: seq<nat>, counts: seq<nat>)
    requires Layout(plan, counts) && |outcomes| == |plan| && CompletionOrder(order, |plan|)
    requires Addressable(plan, outcomes, order, EmptySlots(counts))
    requires Collect(plan, outcomes, order, EmptySlots(counts)).Filled?
    ensures Complete(Collect(plan, outcomes, order, EmptySlots(counts)).slots)
  {
    FullFill(plan, outcomes, order, counts);
    var s: Slots := Collect(plan, outcomes, order, EmptySlots(counts)).slots;
    forall d, c | 0 <= d < |s| && 0 <= c < |s[d]| ensures s[d][c].Some? {
      assert c < counts[d] && HasJob(plan, d, c);
      var i :| 0 <= i < |plan| && plan[i].doc == d && plan[i].chunk == c;
    }
  }
}
