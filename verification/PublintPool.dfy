/**
 * The worker pool of scripts/publint-all.ts. Workers share one counter and fill
 * one results table; which worker moves next is left open.
 */
module PublintPool {
  import opened Prelude
  import opened ConcurrencyOverride

  datatype Worker = Ready | Linting(index: nat) | Finished

  /** `started` records every call of the linter, in order. */
  datatype Pool<R> = Pool(next: nat, workers: seq<Worker>, results: map<nat, R>, started: seq<nat>)

  function InitialPool<R>(concurrency: nat): Pool<R> {
    Pool(0, seq(concurrency, i => Ready), map[], [])
  }

  /** A worker can move: it is starting a turn, or the linter answers for the target it holds. */
  predicate CanMove<R>(total: nat, p: Pool<R>, w: nat) {
    w < |p.workers| && (p.workers[w].Ready? || (p.workers[w].Linting? && p.workers[w].index < total))
  }

  /** One worker claims the next index, or stores the result it was waiting for. */
  function Step<T, R>(targets: seq<T>, run: T -> R, p: Pool<R>, w: nat): Pool<R>
    requires CanMove(|targets|, p, w)
  {
    match p.workers[w]
    case Ready =>
      if p.next < |targets|
      then p.(next := p.next + 1, workers := p.workers[w := Linting(p.next)], started := p.started + [p.next])
      else p.(next := p.next + 1, workers := p.workers[w := Finished])
    case Linting(index) =>
      p.(workers := p.workers[w := Ready], results := p.results[index := run(targets[index])])
  }

  lemma {:induction false} CountUpdate(workers: seq<Worker>, w: nat, x: Worker, p: Worker -> bool)
    requires w < |workers|
    ensures Count(workers[w := x], p) == Count(workers, p) - (if p(workers[w]) then 1 else 0) + (if p(x) then 1 else 0)
  {
    if w > 0 {
      CountUpdate(workers[1..], w - 1, x, p);
      assert workers[w := x][1..] == workers[1..][w - 1 := x];
    } else {
      assert workers[w := x][1..] == workers[1..];
    }
  }

  lemma {:induction false} CountBound(workers: seq<Worker>, p: Worker -> bool, q: Worker -> bool)
    requires forall x :: !(p(x) && q(x))
    ensures Count(workers, p) + Count(workers, q) <= |workers|
  {
    if workers != [] { CountBound(workers[1..], p, q); }
  }

  lemma {:induction false} CountAll(workers: seq<Worker>, p: Worker -> bool)
    ensures Count(workers, p) == |workers| <==> forall w | 0 <= w < |workers| :: p(workers[w])
    ensures Count(workers, p) == 0 <==> forall w | 0 <= w < |workers| :: !p(workers[w])
    ensures Count(workers, p) <= |workers|
  {
    if workers != [] { CountAll(workers[1..], p); }
  }

  predicate IsLinting(x: Worker) {
    x.Linting?
  }

  predicate IsFinished(x: Worker) {
    x.Finished?
  }

  ghost function InFlight<R>(p: Pool<R>): nat {
    Count(p.workers, IsLinting)
  }

  ghost function Retired<R>(p: Pool<R>): nat {
    Count(p.workers, IsFinished)
  }

  ghost predicate Held(workers: seq<Worker>, i: nat) {
    exists w | 0 <= w < |workers| :: workers[w] == Linting(i)
  }

  /** Claimed indexes are 0, 1, 2 and so on, each claimed once. */
  ghost predicate ClaimsInOrder<R>(p: Pool<R>) {
    forall i | 0 <= i < |p.started| :: p.started[i] == i
  }

  /** Every claim is either in one worker's hands or stored, with the linter's answer. */
  ghost predicate Accounted<T, R>(targets: seq<T>, run: T -> R, p: Pool<R>) {
    && (forall i | i in p.results :: i < |p.started| <= |targets| && p.results[i] == run(targets[i]))
    && (forall i {:trigger Held(p.workers, i)} | 0 <= i < |p.started| && i !in p.results :: Held(p.workers, i))
    && (forall w | 0 <= w < |p.workers| && p.workers[w].Linting? ::
          p.workers[w].index < |p.started| && p.workers[w].index !in p.results)
    && (forall v, w | 0 <= v < w < |p.workers| && p.workers[v].Linting? :: p.workers[v] != p.workers[w])
  }

  ghost predicate Sound<T, R>(targets: seq<T>, run: T -> R, concurrency: nat, p: Pool<R>) {
    && |p.workers| == concurrency
    && |p.started| == (if p.next < |targets| then p.next else |targets|)
    && p.next == |p.started| + Retired(p)
    && |p.started| == |p.results| + InFlight(p)
    && ClaimsInOrder(p)
    && Accounted(targets, run, p)
  }

  lemma InitialIsSound<T, R>(targets: seq<T>, run: T -> R, concurrency: nat)
    ensures Sound(targets, run, concurrency, InitialPool(concurrency))
  {
    var p: Pool<R> := InitialPool(concurrency);
    CountAll(p.workers, IsLinting);
    CountAll(p.workers, IsFinished);
  }

  lemma ClaimKeeps<T, R>(targets: seq<T>, run: T -> R, concurrency: nat, p: Pool<R>, w: nat)
    requires Sound(targets, run, concurrency, p) && CanMove(|targets|, p, w) && p.workers[w].Ready?
    ensures Sound(targets, run, concurrency, Step(targets, run, p, w))
    ensures p.next < |targets| ==> Retired(Step(targets, run, p, w)) == Retired(p)
  {
    var q := Step(targets, run, p, w);
    CountUpdate(p.workers, w, q.workers[w], IsLinting);
    CountUpdate(p.workers, w, q.workers[w], IsFinished);
    forall i | 0 <= i < |q.started| && i !in q.results ensures Held(q.workers, i) {
      if i < |p.started| {
        assert Held(p.workers, i);
        var v :| 0 <= v < |p.workers| && p.workers[v] == Linting(i);
        assert q.workers[v] == Linting(i);
      } else {
        assert q.workers[w] == Linting(i);
      }
    }
  }

  lemma SettleKeeps<T, R>(targets: seq<T>, run: T -> R, concurrency: nat, p: Pool<R>, w: nat)
    requires Sound(targets, run, concurrency, p) && CanMove(|targets|, p, w) && p.workers[w].Linting?
    ensures Sound(targets, run, concurrency, Step(targets, run, p, w))
    ensures Retired(Step(targets, run, p, w)) == Retired(p)
  {
    var q := Step(targets, run, p, w);
    var index := p.workers[w].index;
    CountUpdate(p.workers, w, Ready, IsLinting);
    CountUpdate(p.workers, w, Ready, IsFinished);
    assert q.results.Keys == p.results.Keys + {index};
    assert |q.results| == |p.results| + 1;
    forall i | 0 <= i < |q.started| && i !in q.results ensures Held(q.workers, i) {
      assert Held(p.workers, i);
      var v :| 0 <= v < |p.workers| && p.workers[v] == Linting(i);
      assert q.workers[v] == Linting(i);
    }
  }

  // ---- Schedules ----

  function After<T, R>(targets: seq<T>, run: T -> R, concurrency: nat, schedule: seq<nat>): Pool<R> {
    if schedule == [] then InitialPool(concurrency)
    else
      var p := After(targets, run, concurrency, schedule[..|schedule| - 1]);
      var w := schedule[|schedule| - 1];
      if CanMove(|targets|, p, w) then Step(targets, run, p, w) else p
  }

  /** A schedule names the worker that moves at each point; a finished worker never moves. */
  ghost predicate IsRun<T, R>(targets: seq<T>, run: T -> R, concurrency: nat, schedule: seq<nat>) {
    schedule != [] ==>
      && IsRun(targets, run, concurrency, schedule[..|schedule| - 1])
      && CanMove(|targets|, After(targets, run, concurrency, schedule[..|schedule| - 1]), schedule[|schedule| - 1])
  }

  ghost predicate AllFinished<R>(p: Pool<R>) {
    forall w | 0 <= w < |p.workers| :: p.workers[w].Finished?
  }

  /** The invariant under every interleaving, and the exact number of moves made. */
  lemma {:induction false} EveryInterleaving<T, R>(targets: seq<T>, run: T -> R, concurrency: nat, schedule: seq<nat>)
    requires IsRun(targets, run, concurrency, schedule)
    ensures var p := After(targets, run, concurrency, schedule);
            && Sound(targets, run, concurrency, p)
            && |schedule| == |p.started| + |p.results| + Retired(p)
  {
    if schedule == [] {
      InitialIsSound(targets, run, concurrency);
      CountAll(After(targets, run, concurrency, schedule).workers, IsFinished);
    } else {
      var init, w := schedule[..|schedule| - 1], schedule[|schedule| - 1];
      EveryInterleaving(targets, run, concurrency, init);
      var p := After(targets, run, concurrency, init);
      if p.workers[w].Ready? {
        ClaimKeeps(targets, run, concurrency, p, w);
      } else {
        SettleKeeps(targets, run, concurrency, p, w);
      }
    }
  }

  /** Each target is claimed at most once, the pool width is respected, and the counter stays bounded. */
  lemma PoolLimits<T, R>(targets: seq<T>, run: T -> R, concurrency: nat, schedule: seq<nat>)
    requires IsRun(targets, run, concurrency, schedule)
    ensures var p := After(targets, run, concurrency, schedule);
            && Distinct(p.started)
            && |p.started| - |p.results| <= concurrency
            && p.next <= |targets| + Retired(p) <= |targets| + concurrency
            && |schedule| <= 2 * |targets| + concurrency
  {
    EveryInterleaving(targets, run, concurrency, schedule);
    var p := After(targets, run, concurrency, schedule);
    CountBound(p.workers, IsLinting, IsFinished);
  }

  /** No worker is ever stuck: one that has not finished can move. */
  lemma PoolNeverStalls<T, R>(targets: seq<T>, run: T -> R, concurrency: nat, schedule: seq<nat>, w: nat)
    requires IsRun(targets, run, concurrency, schedule)
    requires w < |After(targets, run, concurrency, schedule).workers|
    requires !After(targets, run, concurrency, schedule).workers[w].Finished?
    ensures IsRun(targets, run, concurrency, schedule + [w])
  {
    EveryInterleaving(targets, run, concurrency, schedule);
    assert (schedule + [w])[..|schedule|] == schedule;
  }

  /** The final pass over the targets: the error names the first index without a result. */
  function Collected<R>(total: nat, results: map<nat, R>, from: nat): Result<seq<R>, nat>
    requires from <= total
    decreases total - from
  {
    if from == total then Ok([])
    else if from !in results then Err(from)
    else Prepend([results[from]], Collected(total, results, from + 1))
  }

  /** The linter's answers in target order. */
  function Answers<T, R>(targets: seq<T>, run: T -> R): (r: seq<R>)
    ensures |r| == |targets| && forall i | 0 <= i < |r| :: r[i] == run(targets[i])
  {
    if targets == [] then [] else [run(targets[0])] + Answers(targets[1..], run)
  }

  lemma {:induction false} CollectedInOrder<T, R>(targets: seq<T>, run: T -> R, results: map<nat, R>, from: nat)
    requires from <= |targets|
    requires forall i | from <= i < |targets| :: i in results && results[i] == run(targets[i])
    ensures Collected(|targets|, results, from) == Ok(Answers(targets[from..], run))
    decreases |targets| - from
  {
    if from < |targets| {
      CollectedInOrder(targets, run, results, from + 1);
      assert targets[from..][1..] == targets[from + 1..];
    }
  }

  /** What the pool returns: every target's result in target order, whatever the interleaving. */
  function Expected<T, R>(targets: seq<T>, run: T -> R, concurrency: nat): Result<seq<R>, nat> {
    if concurrency == 0 && targets != [] then Err(0)
    else Ok(Answers(targets, run))
  }

  /** When all workers have finished, the "missing result" error arises exactly with no worker for some target. */
  lemma FinishedPoolsAgree<T, R>(targets: seq<T>, run: T -> R, concurrency: nat, schedule: seq<nat>)
    requires IsRun(targets, run, concurrency, schedule) && AllFinished(After(targets, run, concurrency, schedule))
    ensures Collected(|targets|, After(targets, run, concurrency, schedule).results, 0) == Expected(targets, run, concurrency)
    ensures concurrency > 0 ==> |schedule| == 2 * |targets| + concurrency
    ensures concurrency > 0 ==> |After(targets, run, concurrency, schedule).started| == |targets|
    ensures concurrency > 0 ==> forall i | 0 <= i < |targets| :: After(targets, run, concurrency, schedule).started[i] == i
  {
    EveryInterleaving(targets, run, concurrency, schedule);
    var p := After(targets, run, concurrency, schedule);
    CountAll(p.workers, IsFinished);
    CountAll(p.workers, IsLinting);
    if concurrency > 0 || targets == [] {
      forall i | 0 <= i < |targets| ensures i in p.results && p.results[i] == run(targets[i]) {
        assert i in p.results || Held(p.workers, i);
      }
      CollectedInOrder(targets, run, p.results, 0);
      assert targets[0..] == targets;
    } else {
      assert p.results == map[];
    }
  }

  /** One more move of an unfinished worker is one more step of the run. */
  lemma MoveOn<T, R>(targets: seq<T>, run: T -> R, concurrency: nat, schedule: seq<nat>, p: Pool<R>, w: nat)
    requires IsRun(targets, run, concurrency, schedule) && After(targets, run, concurrency, schedule) == p
    requires w < |p.workers| && !p.workers[w].Finished?
    ensures CanMove(|targets|, p, w)
    ensures IsRun(targets, run, concurrency, schedule + [w])
    ensures After(targets, run, concurrency, schedule + [w]) == Step(targets, run, p, w)
    ensures |schedule| < 2 * |targets| + concurrency
  {
    EveryInterleaving(targets, run, concurrency, schedule);
    PoolNeverStalls(targets, run, concurrency, schedule, w);
    PoolLimits(targets, run, concurrency, schedule + [w]);
    assert (schedule + [w])[..|schedule|] == schedule;
  }

  method Collect<R>(total: nat, results: map<nat, R>) returns (r: Result<seq<R>, nat>)
    ensures r == Collected(total, results, 0)
  {
    var collected, i := [], 0;
    PrependNothing(Collected(total, results, 0));
    while i < total
      invariant i <= total
      invariant Collected(total, results, 0) == Prepend(collected, Collected(total, results, i))
    {
      if i !in results {
        return Err(i);
      }
      PrependTwice(collected, [results[i]], Collected(total, results, i + 1));
      collected := collected + [results[i]];
      i := i + 1;
    }
    r := Ok(collected);
    assert collected == collected + [];
  }

  /** `runAll`: one worker at a time moves until all have returned. */
  method RunAll<T, R>(targets: seq<T>, concurrency: nat, run: T -> R) returns (r: Result<seq<R>, nat>)
    ensures r == Expected(targets, run, concurrency)
  {
    var next: nat, results: map<nat, R> := 0, map[];
    var workers := seq(concurrency, i => Ready);
    ghost var schedule, p := [], InitialPool(concurrency);
    while exists w | 0 <= w < |workers| :: !workers[w].Finished?
      invariant IsRun(targets, run, concurrency, schedule) && After(targets, run, concurrency, schedule) == p
      invariant p.next == next && p.workers == workers && p.results == results
      decreases 2 * |targets| + concurrency - |schedule|
    {
      var w: nat :| w < |workers| && !workers[w].Finished?;
      MoveOn(targets, run, concurrency, schedule, p, w);
      p, schedule := Step(targets, run, p, w), schedule + [w];
      match workers[w]
      case Ready =>
        var index := next;
        next := next + 1;
        workers := workers[w := if index < |targets| then Linting(index) else Finished];
      case Linting(index) =>
        results := results[index := run(targets[index])];
        workers := workers[w := Ready];
    }
    FinishedPoolsAgree(targets, run, concurrency, schedule);
    r := Collect(|targets|, results);
  }

  /** The command as called: it never reports a missing result. */
  method LintAll<T, R>(targets: seq<T>, raw: Option<string>, available: nat, run: T -> R) returns (r: Option<seq<R>>)
    requires available >= 1
    ensures r.None? <==> PublintConcurrency(|targets|, raw, available).None?
    ensures r.Some? ==> |r.value| == |targets| && forall i | 0 <= i < |targets| :: r.value[i] == run(targets[i])
  {
    var concurrency := PublintConcurrency(|targets|, raw, available);
    if concurrency.None? {
      return None;
    }
    var answers := RunAll(targets, concurrency.value, run);
    r := Some(answers.value);
  }
}
