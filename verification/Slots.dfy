/** Slot claiming by the benchmark workers: one atomic counter, one shared vector, any
    interleaving. */
module Slots {
  import opened Bytes

  /** A worker is about to claim, holds a claimed index, or has returned. */
  datatype Worker = Ready | Holding(idx: nat) | Finished

  /** The shared state. `claims[i]` is the worker that claimed index `i`, `log` the slots in the
      order they were written. */
  datatype Bench = Bench(total: nat, counter: nat, failed: nat, costs: seq<nat>,
                         workers: seq<Worker>, claims: seq<nat>, log: seq<nat>)

  /** After `reset`, with the workers spawned. */
  function Start(total: nat, concurrent: nat): Bench {
    Bench(total, 0, 0, seq(total, _ => 0), seq(concurrent, _ => Ready), [], [])
  }

  datatype Step = Fetch(w: nat) | Record(w: nat, err: bool, cost: nat)

  predicate Enabled(b: Bench, step: Step) {
    match step
    case Fetch(w) => w < |b.workers| && b.workers[w].Ready?
    case Record(w, _, _) => w < |b.workers| && b.workers[w].Holding?
  }

  /** The vector index is within bounds. */
  predicate InBounds(b: Bench, step: Step) {
    step.Record? && Enabled(b, step) ==> b.workers[step.w].idx < |b.costs|
  }

  /** An index out of bounds would panic; it is shown never to happen. */
  function Next(b: Bench, step: Step): Bench
    requires Enabled(b, step)
  {
    match step
    case Fetch(w) =>
      var idx := b.counter;
      if idx >= b.total then b.(counter := idx + 1, workers := b.workers[w := Finished])
      else b.(counter := idx + 1, workers := b.workers[w := Holding(idx)], claims := b.claims + [w])
    case Record(w, err, cost) =>
      var idx := b.workers[w].idx;
      b.(costs := if idx < |b.costs| then b.costs[idx := cost] else b.costs, failed := b.failed + if err then 1 else 0,
         workers := b.workers[w := Ready], log := b.log + [idx])
  }

  // ---- counting workers ----------------------------------------------------------------------

  function CountHolding(ws: seq<Worker>): (n: nat) {
    if ws == [] then 0 else CountHolding(ws[1..]) + if ws[0].Holding? then 1 else 0
  }

  function CountFinished(ws: seq<Worker>): (n: nat)
    ensures n <= |ws|
  {
    if ws == [] then 0 else CountFinished(ws[1..]) + if ws[0].Finished? then 1 else 0
  }

  lemma {:induction false} CountUpdate(ws: seq<Worker>, i: nat, w: Worker)
    requires i < |ws|
    ensures CountHolding(ws[i := w])
         == CountHolding(ws) - (if ws[i].Holding? then 1 else 0) + (if w.Holding? then 1 else 0)
    ensures CountFinished(ws[i := w])
         == CountFinished(ws) - (if ws[i].Finished? then 1 else 0) + (if w.Finished? then 1 else 0)
    decreases i
  {
    if i == 0 {
      assert ws[i := w][1..] == ws[1..];
    } else {
      assert ws[i := w][1..] == ws[1..][i - 1 := w];
      CountUpdate(ws[1..], i - 1, w);
    }
  }

  lemma {:induction false} AllFinished(ws: seq<Worker>)
    requires forall i :: 0 <= i < |ws| ==> ws[i].Finished?
    ensures CountFinished(ws) == |ws| && CountHolding(ws) == 0
    decreases |ws|
  {
    if ws != [] {
      AllFinished(ws[1..]);
    }
  }

  lemma {:induction false} NoneStarted(n: nat)
    ensures CountFinished(seq(n, _ => Ready)) == 0 && CountHolding(seq(n, _ => Ready)) == 0
    decreases n
  {
    var ws := seq(n, _ => Ready);
    if n > 0 {
      assert ws[1..] == seq(n - 1, _ => Ready);
      NoneStarted(n - 1);
    }
  }

  // ---- invariant -----------------------------------------------------------------------------

  ghost predicate Inv(b: Bench) {
    && |b.costs| == b.total
    && |b.claims| == (if b.counter < b.total then b.counter else b.total)
    && b.counter == |b.claims| + CountFinished(b.workers)
    && |b.log| + CountHolding(b.workers) == |b.claims|
    && Held(b) && LogOnce(b) && Accounted(b)
  }

  /** A held index belongs to its holder and is not written yet. */
  ghost predicate Held(b: Bench) {
    forall w :: 0 <= w < |b.workers| && b.workers[w].Holding? ==>
      && b.workers[w].idx < |b.claims| && b.claims[b.workers[w].idx] == w
      && b.workers[w].idx !in b.log
  }

  /** No slot is written twice, and only claimed slots are written. */
  ghost predicate LogOnce(b: Bench) {
    && (forall i, j :: 0 <= i < j < |b.log| ==> b.log[i] != b.log[j])
    && (forall i :: 0 <= i < |b.log| ==> b.log[i] < |b.claims|)
  }

  /** A claimed index is written or still held by the worker that claimed it. */
  ghost predicate Accounted(b: Bench) {
    forall i :: 0 <= i < |b.claims| ==>
      && b.claims[i] < |b.workers|
      && (i in b.log || b.workers[b.claims[i]] == Holding(i))
  }

  lemma StartInv(total: nat, concurrent: nat)
    ensures Inv(Start(total, concurrent))
  {
    NoneStarted(concurrent);
  }

  lemma FetchKeepsInv(b: Bench, w: nat)
    requires Inv(b) && Enabled(b, Fetch(w))
    ensures Inv(Next(b, Fetch(w)))
  {
    var c := Next(b, Fetch(w));
    CountUpdate(b.workers, w, c.workers[w]);
    if b.counter < b.total {
      assert CountFinished(b.workers) == 0;
      assert c.claims[b.counter] == w && c.workers[w] == Holding(b.counter);
      assert forall i :: 0 <= i < |b.log| ==> b.log[i] != b.counter;
    }
  }

  lemma RecordKeepsInv(b: Bench, w: nat, err: bool, cost: nat)
    requires Inv(b) && Enabled(b, Record(w, err, cost))
    ensures InBounds(b, Record(w, err, cost)) && Inv(Next(b, Record(w, err, cost)))
  {
    var idx := b.workers[w].idx;
    assert idx < |b.claims|;
    var c := Next(b, Record(w, err, cost));
    CountUpdate(b.workers, w, Ready);
    forall v | 0 <= v < |c.workers| && c.workers[v].Holding?
      ensures c.workers[v].idx !in c.log
    {
      assert c.workers[v] == b.workers[v] && b.claims[b.workers[v].idx] == v;
    }
    forall i | 0 <= i < |c.claims|
      ensures i in c.log || c.workers[c.claims[i]] == Holding(i)
    {
      if i == idx { assert c.log[|b.log|] == idx; }
      if i in b.log { assert i in c.log; }
    }
  }

  /** The number of steps still to be taken: two for each unclaimed index, one for each held one,
      and one for each worker to find the counter exhausted. */
  function StepsLeft(b: Bench): int {
    2 * (b.total - |b.claims|) + CountHolding(b.workers) + (|b.workers| - CountFinished(b.workers))
  }

  lemma StepKeepsInv(b: Bench, step: Step)
    requires Inv(b) && Enabled(b, step)
    ensures InBounds(b, step) && Inv(Next(b, step))
    ensures StepsLeft(Next(b, step)) == StepsLeft(b) - 1
    ensures Next(b, step).total == b.total && |Next(b, step).workers| == |b.workers|
  {
    match step
    case Fetch(w) =>
      FetchKeepsInv(b, w);
      CountUpdate(b.workers, w, Next(b, step).workers[w]);
    case Record(w, err, cost) =>
      RecordKeepsInv(b, w, err, cost);
      CountUpdate(b.workers, w, Ready);
  }

  // ---- whole runs ----------------------------------------------------------------------------

  /** The states of a run: every step is enabled. */
  predicate IsRun(states: seq<Bench>, steps: seq<Step>) {
    && |states| == |steps| + 1
    && forall i :: 0 <= i < |steps| ==>
         Enabled(states[i], steps[i]) && states[i + 1] == Next(states[i], steps[i])
  }

  lemma {:induction false} RunInv(states: seq<Bench>, steps: seq<Step>, total: nat, concurrent: nat, k: nat)
    requires IsRun(states, steps) && states[0] == Start(total, concurrent) && k <= |steps|
    ensures Inv(states[k]) && StepsLeft(states[k]) == 2 * total + concurrent - k
    ensures states[k].total == total && |states[k].workers| == concurrent
    decreases k
  {
    if k == 0 {
      StartInv(total, concurrent);
      NoneStarted(concurrent);
    } else {
      RunInv(states, steps, total, concurrent, k - 1);
      StepKeepsInv(states[k - 1], steps[k - 1]);
    }
  }

  /** The number of failed requests recorded by a run. */
  function Failures(steps: seq<Step>): (n: nat) {
    if steps == [] then 0
    else
      var last := steps[|steps| - 1];
      Failures(steps[..|steps| - 1]) + if last.Record? && last.err then 1 else 0
  }

  predicate Recorded(b: Bench, idx: nat, cost: nat) {
    idx in b.log && idx < |b.costs| && b.costs[idx] == cost
  }

  /** A recorded cost is never overwritten. */
  lemma RecordedStays(b: Bench, step: Step, idx: nat, cost: nat)
    requires Inv(b) && Enabled(b, step) && Recorded(b, idx, cost)
    ensures Recorded(Next(b, step), idx, cost)
  {
    var m :| 0 <= m < |b.log| && b.log[m] == idx;
    assert Next(b, step).log[m] == idx;
  }

  lemma RecordRecords(b: Bench, step: Step)
    requires Inv(b) && Enabled(b, step) && step.Record?
    ensures Recorded(Next(b, step), b.workers[step.w].idx, step.cost)
  {
    StepKeepsInv(b, step);
    assert Next(b, step).log[|b.log|] == b.workers[step.w].idx;
  }

  lemma FailedStep(b: Bench, step: Step)
    requires Enabled(b, step)
    ensures Next(b, step).failed == b.failed + if step.Record? && step.err then 1 else 0
  {
  }

  /** At every moment the failure counter is exact, and every recorded cost stands in the slot its
      worker had claimed. */
  lemma {:induction false} RecordsKept(states: seq<Bench>, steps: seq<Step>, total: nat, concurrent: nat, k: nat)
    requires IsRun(states, steps) && states[0] == Start(total, concurrent) && k <= |steps|
    ensures states[k].failed == Failures(steps[..k])
    ensures forall i :: 0 <= i < k && steps[i].Record? ==>
              Enabled(states[i], steps[i]) && Recorded(states[k], states[i].workers[steps[i].w].idx, steps[i].cost)
    decreases k
  {
    hide Inv, Recorded, Next;
    if k > 0 {
      var b, step := states[k - 1], steps[k - 1];
      RecordsKept(states, steps, total, concurrent, k - 1);
      RunInv(states, steps, total, concurrent, k - 1);
      assert steps[..k][..k - 1] == steps[..k - 1];
      FailedStep(b, step);
      forall i | 0 <= i < k && steps[i].Record?
        ensures Enabled(states[i], steps[i])
        ensures Recorded(states[k], states[i].workers[steps[i].w].idx, steps[i].cost)
      {
        if i < k - 1 {
          RecordedStays(b, step, states[i].workers[steps[i].w].idx, steps[i].cost);
        } else {
          RecordRecords(b, step);
        }
      }
    }
  }

  /** In every interleaving, at every moment: no write leaves the vector, each index is claimed by
      one worker, no slot is written twice, the counter never exceeds the total by more than the
      number of workers, and at most `2 * total + concurrent` steps are taken. */
  lemma SafeAtAllTimes(states: seq<Bench>, steps: seq<Step>, total: nat, concurrent: nat)
    requires IsRun(states, steps) && states[0] == Start(total, concurrent)
    ensures |steps| <= 2 * total + concurrent
    ensures var b := states[|steps|];
            && Held(b) && LogOnce(b) && |b.claims| <= total && b.counter <= total + concurrent
            && (forall step :: Enabled(b, step) ==> InBounds(b, step))
            && (forall w, v :: 0 <= w < v < |b.workers| && b.workers[w].Holding? && b.workers[v].Holding? ==>
                  b.workers[w].idx != b.workers[v].idx)
  {
    RunInv(states, steps, total, concurrent, |steps|);
    var b := states[|steps|];
    forall step | Enabled(b, step)
      ensures InBounds(b, step)
    {
      StepKeepsInv(b, step);
    }
  }

  /** A run with at least one worker that cannot go on has every worker returned, every slot below
      the total written exactly once, and the counter at the total plus the number of workers; it
      took exactly `2 * total + concurrent` steps. */
  lemma RunCompletes(states: seq<Bench>, steps: seq<Step>, total: nat, concurrent: nat)
    requires IsRun(states, steps) && states[0] == Start(total, concurrent) && concurrent > 0
    requires forall step :: !Enabled(states[|steps|], step)
    ensures var b := states[|steps|];
            && |b.workers| == concurrent && (forall w :: 0 <= w < concurrent ==> b.workers[w].Finished?)
            && (forall i :: 0 <= i < total ==> i in b.log) && |b.log| == total && LogOnce(b)
            && b.counter == total + concurrent
    ensures |steps| == 2 * total + concurrent
  {
    RunInv(states, steps, total, concurrent, |steps|);
    var b := states[|steps|];
    forall w | 0 <= w < concurrent
      ensures b.workers[w].Finished?
    {
      assert !Enabled(b, Fetch(w)) && !Enabled(b, Record(w, false, 0));
    }
    AllFinished(b.workers);
    forall i | 0 <= i < total
      ensures i in b.log
    {
      assert b.claims[i] < |b.workers|;
    }
  }
}
