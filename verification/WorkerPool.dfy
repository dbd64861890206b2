/** The bounded worker pool (`scripts/benchmark-next-package-dependency.ts`) under every schedule. */
module WorkerPool {
  import opened Wrappers

  /** A worker is about to look for work, inside the operation for an index, or has returned. */
  datatype Worker = Free | Busy(index: nat) | Done

  /**
   * `None` values are undefined entries. `results` holds what each finished operation returned; `failed` records
   * a rejected operation, whose worker stops while the others go on.
   */
  datatype State<!T, !R> = State(values: seq<Option<T>>, operation: T -> R, next: nat, workers: seq<Worker>,
                                 results: map<nat, R>, failed: bool)

  datatype Event = Claim(worker: nat) | Finish(worker: nat) | Fail(worker: nat)

  function Min(a: nat, b: nat): nat {
    if a <= b then a else b
  }

  function Init<T, R>(values: seq<Option<T>>, jobs: nat, operation: T -> R): State<T, R> {
    State(values, operation, 0, seq(Min(jobs, |values|), _ => Free), map[], false)
  }

  predicate Enabled<T, R>(s: State<T, R>, e: Event) {
    e.worker < |s.workers| &&
    var worker := s.workers[e.worker];
    if e.Claim? then worker.Free?
    else worker.Busy? && worker.index < |s.values| && s.values[worker.index].Some?
  }

  function Step<T, R>(s: State<T, R>, e: Event): State<T, R>
    requires Enabled(s, e)
  {
    match e
    case Claim(worker) =>
      if s.next >= |s.values| then s.(workers := s.workers[worker := Done])
      else if s.values[s.next].None? then s.(next := s.next + 1, workers := s.workers[worker := Done])
      else s.(next := s.next + 1, workers := s.workers[worker := Busy(s.next)])
    case Finish(worker) =>
      var index := s.workers[worker].index;
      s.(results := s.results[index := s.operation(s.values[index].value)], workers := s.workers[worker := Free])
    case Fail(worker) => s.(failed := true, workers := s.workers[worker := Done])
  }

  ghost predicate IsRun<T(!new),
    R(!new)>(values: seq<Option<T>>, jobs: nat, operation: T -> R, events: seq<Event>, states: seq<State<T, R>>) {
    |states| == |events| + 1 && states[0] == Init(values, jobs, operation) &&
    forall i | 0 <= i < |events| :: Enabled(states[i], events[i]) && states[i + 1] == Step(states[i], events[i])
  }

  // ---------- the invariant ----------

  ghost predicate AllDefined<T>(values: seq<Option<T>>) {
    forall i | 0 <= i < |values| :: values[i].Some?
  }

  /** The index is inside some worker's operation. */
  ghost predicate InFlight<T, R>(s: State<T, R>, index: nat) {
    exists w :: 0 <= w < |s.workers| && s.workers[w] == Busy(index)
  }

  /**
   * Claims go up one by one and no two workers hold one index; finished results are those of their values; an
   * index claimed for a defined value is in flight or finished as long as nothing failed.
   */
  ghost predicate Invariant<T(!new), R(!new)>(s: State<T, R>) {
    Claims(s) && Covered(s) &&
    (AllDefined(s.values) && !s.failed ==> forall w | 0 <= w < |s.workers| && s.workers[w].Done? ::
      s.next == |s.values|)
  }

  ghost predicate Claims<T(!new), R(!new)>(s: State<T, R>) {
    s.next <= |s.values| &&
    (forall w | 0 <= w < |s.workers| && s.workers[w].Busy? ::
       s.workers[w].index < s.next && s.values[s.workers[w].index].Some? && s.workers[w].index !in s.results) &&
    (forall v, w | 0 <= v < w < |s.workers| && s.workers[v].Busy? && s.workers[w].Busy? ::
       s.workers[v].index != s.workers[w].index) &&
    (forall i | i in s.results :: i < s.next && s.values[i].Some? && s.results[i] == s.operation(s.values[i].value))
  }

  ghost predicate Covered<T(!new), R(!new)>(s: State<T, R>)
    requires s.next <= |s.values|
  {
    !s.failed ==> forall i: nat | i < s.next && s.values[i].Some? :: i in s.results || InFlight(s, i)
  }

  lemma InFlightKept<T, R>(s: State<T, R>, worker: nat, to: Worker, index: nat)
    requires worker < |s.workers| && InFlight(s, index) && s.workers[worker] != Busy(index)
    ensures InFlight(s.(workers := s.workers[worker := to]), index)
  {
    var w :| 0 <= w < |s.workers| && s.workers[w] == Busy(index);
    assert s.workers[worker := to][w] == Busy(index);
  }

  lemma ClaimKeepsClaims<T(!new), R(!new)>(s: State<T, R>, worker: nat)
    requires Claims(s) && Enabled(s, Claim(worker))
    ensures Claims(Step(s, Claim(worker)))
  {
  }

  lemma FinishKeepsClaims<T(!new), R(!new)>(s: State<T, R>, worker: nat)
    requires Claims(s) && Enabled(s, Finish(worker))
    ensures Claims(Step(s, Finish(worker)))
  {
  }

  lemma StepKeepsClaims<T(!new), R(!new)>(s: State<T, R>, e: Event)
    requires Claims(s) && Enabled(s, e)
    ensures Claims(Step(s, e))
  {
    match e
    case Claim(worker) => ClaimKeepsClaims(s, worker);
    case Finish(worker) => FinishKeepsClaims(s, worker);
    case Fail(_) =>
  }

  lemma StepKeepsInvariant<T(!new), R(!new)>(s: State<T, R>, e: Event)
    requires Invariant(s) && Enabled(s, e)
    ensures Invariant(Step(s, e))
  {
    StepKeepsClaims(s, e);
    StepKeepsCovered(s, e);
  }

  lemma StepKeepsCovered<T(!new), R(!new)>(s: State<T, R>, e: Event)
    requires Claims(s) && Covered(s) && Enabled(s, e)
    ensures Claims(Step(s, e)) && Covered(Step(s, e))
  {
    StepKeepsClaims(s, e);
    var t := Step(s, e);
    if !t.failed {
      forall i: nat | i < t.next && t.values[i].Some? ensures i in t.results || InFlight(t, i) {
        if i < s.next {
          assert i in s.results || InFlight(s, i);
          if i !in s.results && s.workers[e.worker] != Busy(i) {
            InFlightKept(s, e.worker, t.workers[e.worker], i);
            var w :| 0 <= w < |s.workers| && s.workers[e.worker := t.workers[e.worker]][w] == Busy(i);
            assert t.workers[w] == Busy(i);
          }
        } else {
          assert t.workers[e.worker] == Busy(i);
        }
      }
    }
  }

  lemma {:induction false} RunKeepsInvariant<T(!new),
    R(!new)>(values: seq<Option<T>>, jobs: nat, operation: T -> R, events: seq<Event>, states: seq<State<T, R>>, i: nat)
    requires IsRun(values, jobs, operation, events, states) && i < |states|
    ensures Invariant(states[i]) && states[i].values == values && states[i].operation == operation
    ensures |states[i].workers| == Min(jobs, |values|)
  {
    if i > 0 {
      RunKeepsInvariant(values, jobs, operation, events, states, i - 1);
      StepKeepsInvariant(states[i - 1], events[i - 1]);
    }
  }

  // ---------- what every schedule guarantees ----------

  /** Each index is claimed at most once in a run, by one worker. */
  lemma ClaimedOnce<T(!new),
    R(!new)>(values: seq<Option<T>>, jobs: nat, operation: T -> R, events: seq<Event>, states: seq<State<T, R>>,
      i: nat, j: nat)
    requires IsRun(values, jobs, operation, events, states) && i < j < |events|
    requires events[i].Claim? && events[j].Claim? && states[i].next < |values|
    ensures states[i].next < states[j].next
  {
    NextGrows(values, jobs, operation, events, states, i + 1, j);
    RunKeepsInvariant(values, jobs, operation, events, states, i);
    assert states[i + 1] == Step(states[i], events[i]);
  }

  lemma {:induction false} NextGrows<T(!new),
    R(!new)>(values: seq<Option<T>>, jobs: nat, operation: T -> R, events: seq<Event>, states: seq<State<T, R>>,
      i: nat, j: nat)
    requires IsRun(values, jobs, operation, events, states) && i <= j < |states|
    ensures states[i].next <= states[j].next
  {
    if i < j {
      NextGrows(values, jobs, operation, events, states, i, j - 1);
      assert states[j] == Step(states[j - 1], events[j - 1]);
    }
  }

  ghost function Running<T, R>(s: State<T, R>): set<nat> {
    set w | 0 <= w < |s.workers| && s.workers[w].Busy?
  }

  lemma {:induction false} AtMost(s: set<nat>, n: nat)
    requires forall w | w in s :: w < n
    ensures |s| <= n
  {
    if n == 0 {
      assert s == {};
    } else {
      AtMost(s - {n - 1}, n - 1);
      if n - 1 in s { assert s == (s - {n - 1}) + {n - 1}; }
    }
  }

  /** At most `min(jobs, n)` operations are in flight, each for another index. */
  lemma BoundedInFlight<T(!new),
    R(!new)>(values: seq<Option<T>>, jobs: nat, operation: T -> R, events: seq<Event>, states: seq<State<T, R>>, i: nat)
    requires IsRun(values, jobs, operation, events, states) && i < |states|
    ensures |Running(states[i])| <= Min(jobs, |values|)
    ensures var workers := states[i].workers;
            forall v, w | 0 <= v < w < |workers| && workers[v].Busy? && workers[w].Busy? ::
              workers[v].index != workers[w].index
  {
    RunKeepsInvariant(values, jobs, operation, events, states, i);
    AtMost(Running(states[i]), Min(jobs, |values|));
  }

  ghost predicate Completed<T, R>(s: State<T, R>) {
    !s.failed && forall w | 0 <= w < |s.workers| :: s.workers[w].Done?
  }

  ghost predicate FullResults<T, R>(s: State<T, R>) {
    forall i: nat | i < |s.values| ::
      i in s.results && s.values[i].Some? && s.results[i] == s.operation(s.values[i].value)
  }

  /**
   * For defined values, a completed pool holds the operation's result for every value exactly when there was a
   * worker to begin with or nothing to do.
   */
  lemma CompletionIsFull<T(!new),
    R(!new)>(values: seq<Option<T>>, jobs: nat, operation: T -> R, events: seq<Event>, states: seq<State<T, R>>)
    requires IsRun(values, jobs, operation, events, states) && AllDefined(values) && Completed(states[|events|])
    ensures FullResults(states[|events|]) <==> jobs >= 1 || values == []
  {
    var last := states[|events|];
    RunKeepsInvariant(values, jobs, operation, events, states, |events|);
    if jobs >= 1 && values != [] {
      assert last.workers[0].Done?;
      forall i: nat | i < |values| ensures i in last.results {
        assert i < last.next && last.values[i].Some?;
        assert !InFlight(last, i);
      }
    } else if values != [] {
      NoWorkersNoClaims(values, jobs, operation, events, states);
      assert 0 !in last.results;
    }
  }

  lemma NoWorkersNoClaims<T(!new),
    R(!new)>(values: seq<Option<T>>, jobs: nat, operation: T -> R, events: seq<Event>, states: seq<State<T, R>>)
    requires IsRun(values, jobs, operation, events, states) && jobs == 0
    ensures events == []
  {
  }

  /** Without a failure, a pool that is not complete can go on. */
  lemma PoolCanGoOn<T(!new), R(!new)>(s: State<T, R>)
    requires Invariant(s) && !s.failed && !Completed(s)
    ensures exists w :: Enabled(s, Claim(w)) || Enabled(s, Finish(w))
  {
    var w :| 0 <= w < |s.workers| && !s.workers[w].Done?;
    assert Enabled(s, Claim(w)) || Enabled(s, Finish(w));
  }

  // ---------- when workers stop ----------

  /** Event `k` is the worker's operation failing, or the worker finding no index or an undefined value. */
  ghost predicate StopsAt<T(!new), R(!new)>(values: seq<Option<T>>, events: seq<Event>, states: seq<State<T, R>>,
                                            k: nat, w: nat)
    requires k < |events| && k < |states|
  {
    events[k] == Fail(w) ||
    (events[k] == Claim(w) && (states[k].next >= |values| || values[states[k].next].None?))
  }

  ghost predicate StoppedBy<T(!new), R(!new)>(values: seq<Option<T>>, events: seq<Event>, states: seq<State<T, R>>,
                                              i: nat, w: nat)
    requires |states| == |events| + 1 && i <= |events|
  {
    exists k | 0 <= k < i :: StopsAt(values, events, states, k, w)
  }

  lemma WorkerStep<T(!new), R(!new)>(s: State<T, R>, e: Event, w: nat)
    requires Enabled(s, e) && w < |s.workers|
    ensures Step(s, e).workers[w].Done? <==>
              s.workers[w].Done? || e == Fail(w) ||
              (e == Claim(w) && (s.next >= |s.values| || s.values[s.next].None?))
    ensures Step(s, e).failed <==> s.failed || e.Fail?
  {
  }

  /**
   * In every run a worker has stopped exactly when its operation failed, or it found no index left or an undefined
   * value; the pool has failed exactly when some operation did.
   */
  lemma {:induction false} StoppedExactly<T(!new), R(!new)>(values: seq<Option<T>>, jobs: nat, operation: T -> R,
                                                            events: seq<Event>, states: seq<State<T, R>>, i: nat,
                                                            w: nat)
    requires IsRun(values, jobs, operation, events, states) && i < |states| && w < Min(jobs, |values|)
    ensures w < |states[i].workers| && (states[i].workers[w].Done? <==> StoppedBy(values, events, states, i, w))
    ensures states[i].failed <==> exists k | 0 <= k < i :: events[k].Fail?
  {
    RunKeepsInvariant(values, jobs, operation, events, states, i);
    if i > 0 {
      StoppedExactly(values, jobs, operation, events, states, i - 1, w);
      RunKeepsInvariant(values, jobs, operation, events, states, i - 1);
      WorkerStep(states[i - 1], events[i - 1], w);
      hide Invariant, Enabled, Step, StopsAt;
      StoppedByStep(values, events, states, i - 1, w);
      assert states[i] == Step(states[i - 1], events[i - 1]);
    }
  }

  lemma StoppedByStep<T(!new), R(!new)>(values: seq<Option<T>>, events: seq<Event>, states: seq<State<T, R>>, k: nat,
                                        w: nat)
    requires |states| == |events| + 1 && k < |events|
    ensures StoppedBy(values, events, states, k + 1, w) <==>
              StoppedBy(values, events, states, k, w) || StopsAt(values, events, states, k, w)
  {
  }

  // ---------- every run ends ----------

  /**
   * Steps still to come: two for each unclaimed index, two for a running operation, one for a worker that looks
   * for work.
   */
  ghost function Work<T, R>(s: State<T, R>): int {
    2 * (|s.values| - s.next) + WorkersWork(s.workers)
  }

  ghost function WorkersWork(workers: seq<Worker>): nat {
    if workers == [] then 0 else WorkersWork(workers[..|workers| - 1]) + WorkerWork(workers[|workers| - 1])
  }

  ghost function WorkerWork(worker: Worker): nat {
    match worker
    case Free => 1
    case Busy(_) => 2
    case Done => 0
  }

  lemma {:induction false} UpdateWork(workers: seq<Worker>, w: nat, to: Worker)
    requires w < |workers|
    ensures WorkersWork(workers[w := to]) == WorkersWork(workers) - WorkerWork(workers[w]) + WorkerWork(to)
  {
    var n := |workers| - 1;
    if w < n {
      UpdateWork(workers[..n], w, to);
      assert workers[w := to][..n] == workers[..n][w := to];
    } else {
      assert workers[w := to][..n] == workers[..n];
    }
  }

  lemma {:induction false} AllFreeWork(n: nat)
    ensures WorkersWork(seq(n, _ => Free)) == n
  {
    if n > 0 {
      var workers := seq(n, _ => Free);
      AllFreeWork(n - 1);
      assert workers[..n - 1] == seq(n - 1, _ => Free);
    }
  }

  lemma StepWorks<T(!new), R(!new)>(s: State<T, R>, e: Event)
    requires s.next <= |s.values| && Enabled(s, e)
    ensures Work(Step(s, e)) < Work(s)
  {
    UpdateWork(s.workers, e.worker, Step(s, e).workers[e.worker]);
    assert Step(s, e).workers == s.workers[e.worker := Step(s, e).workers[e.worker]];
  }

  lemma {:induction false} RunWorks<T(!new), R(!new)>(values: seq<Option<T>>, jobs: nat, operation: T -> R,
                                                      events: seq<Event>, states: seq<State<T, R>>, i: nat)
    requires IsRun(values, jobs, operation, events, states) && i < |states|
    ensures i + Work(states[i]) <= 2 * |values| + Min(jobs, |values|)
  {
    if i == 0 {
      AllFreeWork(Min(jobs, |values|));
    } else {
      RunWorks(values, jobs, operation, events, states, i - 1);
      RunKeepsInvariant(values, jobs, operation, events, states, i - 1);
      StepWorks(states[i - 1], events[i - 1]);
    }
  }

  /**
   * Every run, also one with failures, has at most two steps for each value and one for each worker, and no worker
   * can go on exactly when all have returned.
   */
  lemma RunEnds<T(!new), R(!new)>(values: seq<Option<T>>, jobs: nat, operation: T -> R,
                                  events: seq<Event>, states: seq<State<T, R>>)
    requires IsRun(values, jobs, operation, events, states)
    ensures |events| <= 2 * |values| + Min(jobs, |values|)
    ensures var last := states[|events|];
            (forall w :: !Enabled(last, Claim(w)) && !Enabled(last, Finish(w))) <==>
              forall w | 0 <= w < |last.workers| :: last.workers[w].Done?
  {
    var last := states[|events|];
    RunWorks(values, jobs, operation, events, states, |events|);
    RunKeepsInvariant(values, jobs, operation, events, states, |events|);
    forall w: nat | w < |last.workers| && !last.workers[w].Done?
      ensures Enabled(last, Claim(w)) || Enabled(last, Finish(w))
    {
      assert last.workers[w].Free? || last.workers[w].Busy?;
    }
  }

  // ---------- the pool object ----------

  class Pool<!T(!new), !R(!new)> {
    const values: seq<Option<T>>
    const operation: T -> R
    var next: nat
    var workers: seq<Worker>
    var results: map<nat, R>
    var failed: bool

    ghost function View(): State<T, R>
      reads this
    {
      State(values, operation, next, workers, results, failed)
    }

    constructor (values: seq<Option<T>>, jobs: nat, operation: T -> R)
      ensures View() == Init(values, jobs, operation)
    {
      this.values, this.operation := values, operation;
      next, workers, results, failed := 0, seq(Min(jobs, |values|), _ => Free), map[], false;
    }

    /** The synchronous part of a worker's loop: test the bound, take the next index, leave on an undefined value. */
    method TakeNext(worker: nat)
      requires Enabled(View(), Claim(worker))
      modifies this
      ensures View() == Step(old(View()), Claim(worker))
    {
      if next < |values| {
        var index := next;
        next := next + 1;
        if values[index].None? {
          workers := workers[worker := Done];
        } else {
          workers := workers[worker := Busy(index)];
        }
      } else {
        workers := workers[worker := Done];
      }
    }

    method StoreResult(worker: nat)
      requires Enabled(View(), Finish(worker))
      modifies this
      ensures View() == Step(old(View()), Finish(worker))
    {
      var index := workers[worker].index;
      results := results[index := operation(values[index].value)];
      workers := workers[worker := Free];
    }
  }
}
