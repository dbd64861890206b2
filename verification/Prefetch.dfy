/**
 * The prefetching help reader (`scripts/gen-cli-help.ts`): a first-in, first-out slot limit with hand-off and
 * abort. Every piece of code that runs between two awaits is one atomic step; a run is any interleaving of steps.
 */
module Prefetch {
  import opened Wrappers

  datatype Outcome = Fulfilled | Rejected | AbortedBeforeRead

  /** One `start` call: queued for a slot, given one, inside `read`, or settled. */
  datatype Task = Waiting | Granted | Reading | Settled(outcome: Outcome)

  datatype State = State(limit: nat, active: int, waiting: seq<nat>, tasks: seq<Task>, aborted: bool)

  datatype Event = Start | Resume(task: nat) | Finish(task: nat, ok: bool) | Abort

  function Init(limit: nat): State {
    State(limit, 0, [], [], false)
  }

  predicate Enabled(s: State, e: Event) {
    match e
    case Start => true
    case Resume(t) => t < |s.tasks| && s.tasks[t].Granted?
    case Finish(t, _) => t < |s.tasks| && s.tasks[t].Reading?
    case Abort => true
  }

  /** The released slot goes to the oldest waiter without touching `active`, or back to the pool. */
  function Release(s: State): State {
    if s.waiting == [] then s.(active := s.active - 1)
    else
      var next := s.waiting[0];
      s.(waiting := s.waiting[1..], tasks := if next < |s.tasks| then s.tasks[next := Granted] else s.tasks)
  }

  function Step(s: State, e: Event): State
    requires Enabled(s, e)
  {
    match e
    case Start =>
      if s.active < s.limit then s.(active := s.active + 1, tasks := s.tasks + [Granted])
      else s.(waiting := s.waiting + [|s.tasks|], tasks := s.tasks + [Waiting])
    case Resume(t) =>
      if s.aborted then Release(s.(tasks := s.tasks[t := Settled(AbortedBeforeRead)]))
      else s.(tasks := s.tasks[t := Reading])
    case Finish(t, ok) =>
      Release(s.(tasks := s.tasks[t := Settled(if ok then Fulfilled else Rejected)]))
    case Abort => s.(aborted := true)
  }

  ghost predicate IsRun(limit: nat, events: seq<Event>, states: seq<State>) {
    |states| == |events| + 1 && states[0] == Init(limit) &&
    forall i | 0 <= i < |events| :: Enabled(states[i], events[i]) && states[i + 1] == Step(states[i], events[i])
  }

  // ---------- counting ----------

  predicate Holds(t: Task) {
    t.Granted? || t.Reading?
  }

  ghost function Held(tasks: seq<Task>): nat {
    if tasks == [] then 0 else Held(tasks[..|tasks| - 1]) + (if Holds(tasks[|tasks| - 1]) then 1 else 0)
  }

  /** Steps still to come before every task has settled. */
  ghost function Work(tasks: seq<Task>): nat {
    if tasks == [] then 0
    else Work(tasks[..|tasks| - 1]) + TaskWork(tasks[|tasks| - 1])
  }

  ghost function TaskWork(t: Task): nat {
    match t
    case Waiting => 3
    case Granted => 2
    case Reading => 1
    case Settled(_) => 0
  }

  lemma {:induction false} UpdateCounts(tasks: seq<Task>, t: nat, task: Task)
    requires t < |tasks|
    ensures Held(tasks[t := task]) == Held(tasks) - (if Holds(tasks[t]) then 1 else 0) + (if Holds(task) then 1 else 0)
    ensures Work(tasks[t := task]) == Work(tasks) - TaskWork(tasks[t]) + TaskWork(task)
  {
    var n := |tasks| - 1;
    if t < n {
      UpdateCounts(tasks[..n], t, task);
      assert tasks[t := task][..n] == tasks[..n][t := task];
    } else {
      assert tasks[t := task][..n] == tasks[..n];
    }
  }

  lemma AppendCounts(tasks: seq<Task>, task: Task)
    ensures Held(tasks + [task]) == Held(tasks) + (if Holds(task) then 1 else 0)
    ensures Work(tasks + [task]) == Work(tasks) + TaskWork(task)
  {
  }

  lemma {:induction false} SomeoneHolds(tasks: seq<Task>)
    requires Held(tasks) > 0
    ensures exists t :: 0 <= t < |tasks| && Holds(tasks[t])
  {
    var n := |tasks| - 1;
    if !Holds(tasks[n]) {
      SomeoneHolds(tasks[..n]);
      var t :| 0 <= t < n && Holds(tasks[..n][t]);
      assert Holds(tasks[t]);
    }
  }

  // ---------- the invariant ----------

  ghost predicate QueueFrom(waiting: seq<nat>, first: nat, end: nat) {
    first <= end && |waiting| == end - first && forall i | 0 <= i < |waiting| :: waiting[i] == first + i
  }

  /** Tasks below `first` have been granted a slot, the rest wait in the order they started. */
  ghost predicate FirstInFirstOut(s: State) {
    var first := |s.tasks| - |s.waiting|;
    first >= 0 && QueueFrom(s.waiting, first, |s.tasks|) &&
    forall t | 0 <= t < |s.tasks| :: s.tasks[t].Waiting? <==> t >= first
  }

  ghost predicate Invariant(s: State) {
    s.active == Held(s.tasks) && s.active <= s.limit &&
    (s.waiting != [] ==> s.active == s.limit) && FirstInFirstOut(s)
  }

  /** What `Release` needs: one slot is still counted that no task holds any more. */
  lemma ReleaseKeepsInvariant(s: State)
    requires s.active == Held(s.tasks) + 1 && s.active <= s.limit && (s.waiting != [] ==> s.active == s.limit)
    requires FirstInFirstOut(s)
    ensures Invariant(Release(s)) && Work(Release(s).tasks) <= Work(s.tasks)
  {
    if s.waiting != [] {
      UpdateCounts(s.tasks, s.waiting[0], Granted);
    }
  }

  lemma StartKeepsInvariant(s: State)
    requires Invariant(s)
    ensures Invariant(Step(s, Start))
  {
    hide Held, Work;
    AppendCounts(s.tasks, if s.active < s.limit then Granted else Waiting);
  }

  /** A task that held a slot settles and its slot is handed on. */
  lemma SettleKeepsInvariant(s: State, t: nat, outcome: Outcome)
    requires Invariant(s) && t < |s.tasks| && Holds(s.tasks[t])
    ensures var r := Release(s.(tasks := s.tasks[t := Settled(outcome)]));
            Invariant(r) && Work(r.tasks) < Work(s.tasks)
  {
    UpdateCounts(s.tasks, t, Settled(outcome));
    ReleaseKeepsInvariant(s.(tasks := s.tasks[t := Settled(outcome)]));
  }

  lemma StepKeepsInvariant(s: State, e: Event)
    requires Invariant(s) && Enabled(s, e)
    ensures Invariant(Step(s, e)) && Step(s, e).limit == s.limit
    ensures !e.Start? ==> Work(Step(s, e).tasks) <= Work(s.tasks) - (if e.Abort? then 0 else 1)
  {
    match e
    case Start => StartKeepsInvariant(s);
    case Resume(t) =>
      if s.aborted { SettleKeepsInvariant(s, t, AbortedBeforeRead); } else { UpdateCounts(s.tasks, t, Reading); }
    case Finish(t, ok) => SettleKeepsInvariant(s, t, if ok then Fulfilled else Rejected);
    case Abort =>
  }

  /**
   * In every run: slots held equal `active`, never more than the limit; tasks wait only while the limit is
   * reached; slots are granted exactly in the order the tasks started.
   */
  lemma {:induction false} RunKeepsInvariant(limit: nat, events: seq<Event>, states: seq<State>, i: nat)
    requires IsRun(limit, events, states) && i < |states|
    ensures Invariant(states[i]) && states[i].limit == limit
  {
    if i > 0 {
      RunKeepsInvariant(limit, events, states, i - 1);
      StepKeepsInvariant(states[i - 1], events[i - 1]);
    }
  }

  // ---------- abort ----------

  /** The task's `read` was called. */
  predicate HasRead(s: State, t: nat) {
    t < |s.tasks| && (s.tasks[t].Reading? || s.tasks[t] == Settled(Fulfilled) || s.tasks[t] == Settled(Rejected))
  }

  lemma StepAfterAbort(s: State, e: Event, t: nat)
    requires Invariant(s) && Enabled(s, e) && s.aborted
    ensures Step(s, e).aborted && (HasRead(Step(s, e), t) ==> HasRead(s, t))
  {
  }

  /** From an aborted state on, no further task ever calls `read`. */
  lemma {:induction false} NoReadAfterAbort(limit: nat, events: seq<Event>, states: seq<State>, i: nat, j: nat, t: nat)
    requires IsRun(limit, events, states) && i <= j < |states| && states[i].aborted
    ensures states[j].aborted && (HasRead(states[j], t) ==> HasRead(states[i], t))
  {
    if i < j {
      assert states[j] == Step(states[j - 1], events[j - 1]);
      NoReadAfterAbort(limit, events, states, i, j - 1, t);
      RunKeepsInvariant(limit, events, states, j - 1);
      StepAfterAbort(states[j - 1], events[j - 1], t);
      hide Invariant, Step, Enabled, HasRead;
    }
  }

  lemma StepKeepsSettled(s: State, e: Event, t: nat)
    requires Invariant(s) && Enabled(s, e) && t < |s.tasks| && s.tasks[t].Settled?
    ensures t < |Step(s, e).tasks| && Step(s, e).tasks[t] == s.tasks[t]
  {
  }

  /** A settled task stays settled with the same outcome, so the consumer may ask for it at any later time. */
  lemma {:induction false} SettledIsFinal(limit: nat, events: seq<Event>, states: seq<State>, i: nat, j: nat, t: nat)
    requires IsRun(limit, events, states) && i <= j < |states| && t < |states[i].tasks| && states[i].tasks[t].Settled?
    ensures t < |states[j].tasks| && states[j].tasks[t] == states[i].tasks[t]
  {
    if i < j {
      hide Invariant;
      SettledIsFinal(limit, events, states, i, j - 1, t);
      RunKeepsInvariant(limit, events, states, j - 1);
      StepKeepsSettled(states[j - 1], events[j - 1], t);
    }
  }

  // ---------- outcomes ----------

  predicate IsSettled(s: State, t: nat, outcome: Outcome) {
    t < |s.tasks| && s.tasks[t] == Settled(outcome)
  }

  /** The task got its turn when the reader had been aborted. */
  ghost predicate TurnedAway(events: seq<Event>, j: nat, t: nat) {
    exists k :: 0 <= k < j && k < |events| && events[k] == Resume(t) && Abort in events[..k]
  }

  lemma OutcomeStep(s: State, e: Event, t: nat)
    requires Invariant(s) && Enabled(s, e)
    ensures IsSettled(Step(s, e), t, Fulfilled) <==> IsSettled(s, t, Fulfilled) || e == Finish(t, true)
    ensures IsSettled(Step(s, e), t, Rejected) <==> IsSettled(s, t, Rejected) || e == Finish(t, false)
    ensures IsSettled(Step(s, e), t, AbortedBeforeRead) <==>
              IsSettled(s, t, AbortedBeforeRead) || (e == Resume(t) && s.aborted)
    ensures Step(s, e).aborted <==> s.aborted || e.Abort?
  {
  }

  lemma {:induction false} AbortedExactly(limit: nat, events: seq<Event>, states: seq<State>, j: nat)
    requires IsRun(limit, events, states) && j < |states|
    ensures states[j].aborted <==> Abort in events[..j]
  {
    if j > 0 {
      AbortedExactly(limit, events, states, j - 1);
      RunKeepsInvariant(limit, events, states, j - 1);
      OutcomeStep(states[j - 1], events[j - 1], 0);
      assert events[..j] == events[..j - 1] + [events[j - 1]];
    }
  }

  lemma {:induction false} FinishedExactly(limit: nat, events: seq<Event>, states: seq<State>, j: nat, t: nat, ok: bool)
    requires IsRun(limit, events, states) && j < |states|
    ensures IsSettled(states[j], t, if ok then Fulfilled else Rejected) <==> Finish(t, ok) in events[..j]
  {
    if j > 0 {
      FinishedExactly(limit, events, states, j - 1, t, ok);
      RunKeepsInvariant(limit, events, states, j - 1);
      OutcomeStep(states[j - 1], events[j - 1], t);
      hide Invariant, Enabled, IsSettled;
      assert events[..j] == events[..j - 1] + [events[j - 1]];
    }
  }

  lemma {:induction false} TurnedAwayExactly(limit: nat, events: seq<Event>, states: seq<State>, j: nat, t: nat)
    requires IsRun(limit, events, states) && j < |states|
    ensures IsSettled(states[j], t, AbortedBeforeRead) <==> TurnedAway(events, j, t)
  {
    if j > 0 {
      hide Invariant, IsSettled, TurnedAway, Enabled, Step;
      assert states[j] == Step(states[j - 1], events[j - 1]);
      TurnedAwayExactly(limit, events, states, j - 1, t);
      RunKeepsInvariant(limit, events, states, j - 1);
      OutcomeStep(states[j - 1], events[j - 1], t);
      AbortedExactly(limit, events, states, j - 1);
      TurnedAwayStep(events, j - 1, t);
    }
  }

  lemma TurnedAwayStep(events: seq<Event>, k: nat, t: nat)
    requires k < |events|
    ensures TurnedAway(events, k + 1, t) <==>
              TurnedAway(events, k, t) || (events[k] == Resume(t) && Abort in events[..k])
  {
  }

  /**
   * In every run a task is fulfilled exactly when its read returned, rejected exactly when it threw, and rejected
   * unread exactly when it got its turn after an abort.
   */
  lemma OutcomesOfRun(limit: nat, events: seq<Event>, states: seq<State>, j: nat, t: nat)
    requires IsRun(limit, events, states) && j < |states|
    ensures IsSettled(states[j], t, Fulfilled) <==> Finish(t, true) in events[..j]
    ensures IsSettled(states[j], t, Rejected) <==> Finish(t, false) in events[..j]
    ensures IsSettled(states[j], t, AbortedBeforeRead) <==> TurnedAway(events, j, t)
    ensures states[j].aborted <==> Abort in events[..j]
  {
    hide IsRun, IsSettled, TurnedAway;
    FinishedExactly(limit, events, states, j, t, true);
    FinishedExactly(limit, events, states, j, t, false);
    TurnedAwayExactly(limit, events, states, j, t);
    AbortedExactly(limit, events, states, j);
  }

  // ---------- progress ----------

  ghost predicate AllSettled(s: State) {
    forall t | 0 <= t < |s.tasks| :: s.tasks[t].Settled?
  }

  /** No deadlock and no lost slot: an unsettled task implies an enabled step, and once all settled no slot is taken. */
  lemma Progress(s: State)
    requires Invariant(s) && s.limit >= 1
    ensures AllSettled(s) <==> forall t :: !Enabled(s, Resume(t)) && !Enabled(s, Finish(t, true))
    ensures AllSettled(s) ==> s.active == 0 && s.waiting == []
  {
    if s.waiting != [] {
      assert s.tasks[s.waiting[0]].Waiting?;
      SomeoneHolds(s.tasks);
      var t :| 0 <= t < |s.tasks| && Holds(s.tasks[t]);
      assert Enabled(s, Resume(t)) || Enabled(s, Finish(t, true));
    } else if forall t :: !Enabled(s, Resume(t)) && !Enabled(s, Finish(t, true)) {
      forall t: nat | t < |s.tasks| ensures s.tasks[t].Settled? {
        assert !Enabled(s, Resume(t)) && !Enabled(s, Finish(t, true));
      }
    }
    if AllSettled(s) && s.active > 0 {
      SomeoneHolds(s.tasks);
    }
  }

  // ---------- the tasks that `close` waits for ----------

  ghost predicate SettledBelow(s: State, n: nat) {
    n <= |s.tasks| && forall t | 0 <= t < n :: s.tasks[t].Settled?
  }

  /** No task below `n` can take a step. */
  ghost predicate StuckBelow(s: State, n: nat) {
    forall t | 0 <= t < n :: !Enabled(s, Resume(t)) && !Enabled(s, Finish(t, true))
  }

  predicate MovesOn(e: Event, t: nat) {
    (e.Resume? || e.Finish?) && e.task == t
  }

  predicate MovesTask(e: Event, n: nat) {
    (e.Resume? || e.Finish?) && e.task < n
  }

  /** The steps that tasks below `n` take. */
  ghost function Moves(events: seq<Event>, n: nat): nat {
    if events == [] then 0 else Moves(events[..|events| - 1], n) + (if MovesTask(events[|events| - 1], n) then 1 else 0)
  }

  /** Whatever else waits or was started later, some task below `n` can go on until all have settled. */
  lemma SomeoneBelowCanMove(s: State, n: nat)
    requires Invariant(s) && s.limit >= 1 && n <= |s.tasks|
    ensures StuckBelow(s, n) <==> SettledBelow(s, n)
  {
    if t: nat :| t < n && !s.tasks[t].Settled? {
      if s.tasks[t].Waiting? {
        SomeoneHolds(s.tasks);
        var u :| 0 <= u < |s.tasks| && Holds(s.tasks[u]);
        assert u < t;
        assert Enabled(s, Resume(u)) || Enabled(s, Finish(u, true));
      } else {
        assert Enabled(s, Resume(t)) || Enabled(s, Finish(t, true));
      }
    }
  }

  lemma {:induction false} WorkAtMost(less: seq<Task>, more: seq<Task>)
    requires |less| == |more| && forall t | 0 <= t < |less| :: TaskWork(less[t]) <= TaskWork(more[t])
    ensures Work(less) <= Work(more)
    ensures (exists t :: 0 <= t < |less| && TaskWork(less[t]) < TaskWork(more[t])) ==> Work(less) < Work(more)
  {
    if less != [] {
      var n := |less| - 1;
      WorkAtMost(less[..n], more[..n]);
      if t :| 0 <= t < n && TaskWork(less[t]) < TaskWork(more[t]) {
        assert TaskWork(less[..n][t]) < TaskWork(more[..n][t]);
      }
    }
  }

  /** No step sets a task back, and a task that moves gets closer to settling. */
  lemma StepAdvances(s: State, e: Event, t: nat)
    requires Invariant(s) && Enabled(s, e) && t < |s.tasks|
    ensures t < |Step(s, e).tasks|
    ensures TaskWork(Step(s, e).tasks[t]) <= TaskWork(s.tasks[t]) - (if MovesOn(e, t) then 1 else 0)
  {
  }

  lemma StepWorksBelow(s: State, e: Event, n: nat)
    requires Invariant(s) && Enabled(s, e) && n <= |s.tasks|
    ensures n <= |Step(s, e).tasks|
    ensures Work(Step(s, e).tasks[..n]) <= Work(s.tasks[..n]) - (if MovesTask(e, n) then 1 else 0)
  {
    hide Invariant, Enabled, Step, Work, TaskWork;
    forall t: nat | t < |s.tasks|
      ensures t < |Step(s, e).tasks|
      ensures TaskWork(Step(s, e).tasks[t]) <= TaskWork(s.tasks[t]) - (if MovesOn(e, t) then 1 else 0)
    {
      StepAdvances(s, e, t);
    }
    if n > 0 { StepAdvances(s, e, n - 1); }
    var less, more := Step(s, e).tasks[..n], s.tasks[..n];
    WorkAtMost(less, more);
    if MovesTask(e, n) { assert TaskWork(less[e.task]) < TaskWork(more[e.task]); }
  }

  lemma {:induction false} MovesFrom(limit: nat, events: seq<Event>, states: seq<State>, i: nat, j: nat, n: nat)
    requires IsRun(limit, events, states) && i <= j <= |events| && n <= |states[i].tasks|
    ensures n <= |states[j].tasks|
    ensures Moves(events[i..j], n) + Work(states[j].tasks[..n]) <= Work(states[i].tasks[..n])
    decreases j - i
  {
    hide Invariant, Enabled, Step, Work;
    if i < j {
      MovesFrom(limit, events, states, i, j - 1, n);
      RunKeepsInvariant(limit, events, states, j - 1);
      StepWorksBelow(states[j - 1], events[j - 1], n);
      assert events[i..j][..j - 1 - i] == events[i..j - 1];
    }
  }

  /**
   * The tasks started before any point of a run take at most `Work` further steps, whatever is started later, and
   * none of them can go on exactly when all of them have settled; if these are all the tasks, every slot is free.
   */
  lemma StartedSettle(limit: nat, events: seq<Event>, states: seq<State>, i: nat)
    requires limit >= 1 && IsRun(limit, events, states) && i <= |events|
    ensures var last, n := states[|events|], |states[i].tasks|;
            n <= |last.tasks| &&
            Moves(events[i..], n) + Work(last.tasks[..n]) <= Work(states[i].tasks) &&
            (StuckBelow(last, n) <==> SettledBelow(last, n)) &&
            (|last.tasks| == n && StuckBelow(last, n) ==> last.active == 0 && last.waiting == [])
  {
    var last, n := states[|events|], |states[i].tasks|;
    RunKeepsInvariant(limit, events, states, |events|);
    MovesFrom(limit, events, states, i, |events|, n);
    assert events[i..] == events[i..|events|] && states[i].tasks[..n] == states[i].tasks;
    SomeoneBelowCanMove(last, n);
    if |last.tasks| == n && StuckBelow(last, n) { Progress(last); }
  }

  /**
   * `close` resolves: it waits for the tasks started before the abort. In every run, also one that starts more
   * tasks afterwards, these take a bounded number of further steps and can only stop when all of them have
   * settled, without one of them beginning to read.
   */
  lemma CloseSettles(limit: nat, events: seq<Event>, states: seq<State>, i: nat)
    requires limit >= 1 && IsRun(limit, events, states) && i < |events| && events[i].Abort?
    ensures var last, awaited := states[|events|], |states[i].tasks|;
            awaited <= |last.tasks| &&
            Moves(events[i..], awaited) + Work(last.tasks[..awaited]) <= Work(states[i].tasks) &&
            (StuckBelow(last, awaited) <==> SettledBelow(last, awaited)) &&
            forall t | 0 <= t < awaited && !HasRead(states[i], t) && last.tasks[t].Settled? ::
              last.tasks[t] == Settled(AbortedBeforeRead)
  {
    StartedSettle(limit, events, states, i);
    var last, awaited := states[|events|], |states[i].tasks|;
    var aborted := states[i + 1];
    assert aborted == states[i].(aborted := true);
    forall t: nat | t < awaited && !HasRead(states[i], t) && last.tasks[t].Settled?
      ensures last.tasks[t] == Settled(AbortedBeforeRead)
    {
      NoReadAfterAbort(limit, events, states, i + 1, |events|, t);
      assert !HasRead(aborted, t) && !HasRead(last, t);
      match last.tasks[t].outcome
      case Fulfilled =>
      case Rejected =>
      case AbortedBeforeRead =>
    }
  }

  // ---------- the reader object ----------

  /** The arguments of one help invocation. */
  datatype Invocation = Invocation(args: seq<string>)

  /** `Number.MAX_SAFE_INTEGER`. */
  const MAX_SAFE_INTEGER := 0x1F_FFFF_FFFF_FFFF

  predicate IsLastOf(invocations: seq<Invocation>, args: Invocation, task: nat) {
    task < |invocations| && invocations[task] == args && forall i | task < i < |invocations| :: invocations[i] != args
  }

  class PrefetchedHelpReader {
    const limit: nat
    var active: int
    var waiting: seq<nat>
    var tasks: seq<Task>
    var aborted: bool
    /** Tasks started ahead of their consumer, by invocation. */
    var prefetched: map<Invocation, nat>

    ghost function View(): State
      reads `active, `waiting, `tasks, `aborted
    {
      State(limit, active, waiting, tasks, aborted)
    }

    ghost predicate Valid()
      reads this
    {
      limit >= 1 && Invariant(View()) && forall args | args in prefetched :: prefetched[args] < |tasks|
    }

    /**
     * The source throws when the limit is not a positive safe integer. Every given invocation is started, also a
     * repeated one; of its tasks the last is the one that will be served.
     */
    static method Create(prefetch: seq<Invocation>, concurrency: int) returns (r: Result<PrefetchedHelpReader, string>)
      ensures r.Ok? <==> 1 <= concurrency <= 9007199254740991
      ensures r.Ok? ==> r.value.Valid() && fresh(r.value) && r.value.limit == concurrency && !r.value.aborted
      ensures r.Ok? ==> |r.value.tasks| == |prefetch| && forall args :: args in r.value.prefetched <==> args in prefetch
      ensures r.Ok? ==> forall args | args in r.value.prefetched :: IsLastOf(prefetch, args, r.value.prefetched[args])
    {
      if !(1 <= concurrency <= MAX_SAFE_INTEGER) {
        return Err("concurrency must be a positive integer");
      }
      var reader := new PrefetchedHelpReader(concurrency);
      var i := 0;
      while i < |prefetch|
        invariant 0 <= i <= |prefetch| && fresh(reader) && reader.Valid() && reader.limit == concurrency &&
                  !reader.aborted
        invariant |reader.tasks| == i
        invariant forall args :: args in reader.prefetched <==> args in prefetch[..i]
        invariant forall args | args in reader.prefetched :: IsLastOf(prefetch[..i], args, reader.prefetched[args])
      {
        var task := reader.StartTask();
        reader.prefetched := reader.prefetched[prefetch[i] := task];
        assert prefetch[..i + 1] == prefetch[..i] + [prefetch[i]];
        i := i + 1;
      }
      assert prefetch[..i] == prefetch;
      r := Ok(reader);
    }

    constructor (concurrency: nat)
      requires concurrency >= 1
      ensures Valid() && limit == concurrency && tasks == [] && prefetched == map[] && !aborted
    {
      limit, active, waiting, tasks, aborted, prefetched := concurrency, 0, [], [], false, map[];
    }

    /** The synchronous part of `start`: take a free slot or join the queue. */
    method StartTask() returns (task: nat)
      requires Valid()
      modifies `active, `waiting, `tasks
      ensures Valid() && View() == Step(old(View()), Start) && task == |old(tasks)| && |tasks| == task + 1
    {
      StepKeepsInvariant(View(), Start);
      task := |tasks|;
      if active < limit {
        active, tasks := active + 1, tasks + [Granted];
      } else {
        waiting, tasks := waiting + [task], tasks + [Waiting];
      }
    }

    method ReleaseSlot()
      requires waiting != [] ==> waiting[0] < |tasks|
      modifies `active, `waiting, `tasks
      ensures View() == Release(old(View()))
    {
      if waiting == [] {
        active := active - 1;
      } else {
        tasks, waiting := tasks[waiting[0] := Granted], waiting[1..];
      }
    }

    /** A granted task continues: it reads, or gives its slot back when the reader was closed meanwhile. */
    method ResumeTask(task: nat)
      requires Valid() && Enabled(View(), Resume(task))
      modifies `active, `waiting, `tasks
      ensures Valid() && View() == Step(old(View()), Resume(task))
    {
      StepKeepsInvariant(View(), Resume(task));
      if aborted {
        tasks := tasks[task := Settled(AbortedBeforeRead)];
        ReleaseSlot();
      } else {
        tasks := tasks[task := Reading];
      }
    }

    /** A read returned or threw; the slot is given back either way. */
    method FinishTask(task: nat, ok: bool)
      requires Valid() && Enabled(View(), Finish(task, ok))
      modifies `active, `waiting, `tasks
      ensures Valid() && View() == Step(old(View()), Finish(task, ok))
    {
      StepKeepsInvariant(View(), Finish(task, ok));
      tasks := tasks[task := Settled(if ok then Fulfilled else Rejected)];
      ReleaseSlot();
    }

    /** Serve a prefetched task once; any other request starts a new task. */
    method ReadHelp(args: Invocation) returns (task: nat)
      requires Valid()
      modifies this
      ensures Valid() && args !in prefetched && prefetched == old(prefetched) - {args}
      ensures args in old(prefetched) ==> task == old(prefetched)[args] && View() == old(View())
      ensures args !in old(prefetched) ==> task == |old(tasks)| && View() == Step(old(View()), Start)
    {
      if args in prefetched {
        task := prefetched[args];
        prefetched := prefetched - {args};
        assert View() == old(View());
      } else {
        task := StartTask();
      }
    }

    /** The synchronous part of `close`; the tasks it then waits for are those started so far. */
    method AbortAll() returns (awaited: nat)
      requires Valid()
      modifies `aborted
      ensures Valid() && View() == Step(old(View()), Abort) && awaited == |tasks|
    {
      aborted := true;
      awaited := |tasks|;
    }
  }
}
