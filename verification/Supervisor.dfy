/**
 * The stage supervisor of the Web development loop (`scripts/dev-web.ts`). A run interleaves the supervisor's
 * code between two awaits with stage exits and grace timers in any order; no stage is added during a stop.
 */
module Supervisor {
  import opened Collections
  import opened Wrappers

  datatype Signal = Sighup | Sigint | Sigterm | Sigkill
  datatype Stage = Stage(name: string)
  datatype Report = Report(stage: Stage, code: Option<int>)

  /** Where `stop` is: not begun, waiting after `delivered` escalation steps, waiting after SIGKILL, returned. */
  datatype Phase = Running | Waiting(delivered: nat, awaited: set<Stage>) | Killed(awaited: set<Stage>) | Returned

  datatype State = State(
    tracked: set<Stage>, live: set<Stage>, exits: map<Stage, Option<int>>,
    stopping: bool, initial: Option<Signal>, phase: Phase,
    sent: map<Stage, seq<Signal>>, reports: seq<Report>)

  datatype Event =
    | Add(stage: Stage)
    | Exit(stage: Stage, code: Option<int>)
    | Observe(stage: Stage)          // the callback registered by `add` runs
    | Stop(signal: Option<Signal>)
    | Wake                           // the grace period is over or every awaited stage exited
    | Return                         // the final wait is over

  function Init(): State {
    State({}, {}, map[], false, None, Running, map[], [])
  }

  /** The signals tried before SIGKILL: the initial one, if any, and SIGTERM unless it was the initial one. */
  function Escalation(initial: Option<Signal>): seq<Option<Signal>> {
    [initial] + (if initial == Some(Sigterm) then [] else [Some(Sigterm)])
  }

  function Deliver(s: State, signal: Signal): State {
    s.(sent := map stage | stage in s.sent :: if stage in s.live then s.sent[stage] + [signal] else s.sent[stage])
  }

  /** The body of `stop` from escalation step `k` up to its next await. */
  function Advance(s: State, k: nat): State {
    if k >= |Escalation(s.initial)| then Deliver(s, Sigkill).(phase := Killed(s.live))
    else if s.live == {} then s.(phase := Returned)
    else
      var t := if Escalation(s.initial)[k].Some? then Deliver(s, Escalation(s.initial)[k].value) else s;
      t.(phase := Waiting(k + 1, s.live))
  }

  predicate Enabled(s: State, e: Event) {
    match e
    case Add(stage) => !s.stopping && stage !in s.tracked
    case Exit(stage, _) => stage in s.tracked && stage !in s.exits
    case Observe(stage) => stage in s.live && stage in s.exits
    case Stop(_) => s.phase.Running?
    case Wake => s.phase.Waiting?
    case Return => s.phase.Killed? && s.phase.awaited <= s.exits.Keys
  }

  function Step(s: State, e: Event): State
    requires Enabled(s, e)
  {
    match e
    case Add(stage) => s.(tracked := s.tracked + {stage}, live := s.live + {stage}, sent := s.sent[stage := []])
    case Exit(stage, code) => s.(exits := s.exits[stage := code])
    case Observe(stage) =>
      s.(live := s.live - {stage},
         reports := if s.stopping then s.reports else s.reports + [Report(stage, s.exits[stage])])
    case Stop(signal) => Advance(s.(stopping := true, initial := signal), 0)
    case Wake => Advance(s, s.phase.delivered)
    case Return => s.(phase := Returned)
  }

  ghost predicate IsRun(events: seq<Event>, states: seq<State>) {
    |states| == |events| + 1 && states[0] == Init() &&
    forall i | 0 <= i < |events| :: Enabled(states[i], events[i]) && states[i + 1] == Step(states[i], events[i])
  }

  // ---------- the invariant ----------

  /** The signals of the first `k` escalation steps. */
  ghost function Sent(initial: Option<Signal>, k: nat): seq<Signal>
    requires k <= |Escalation(initial)|
  {
    if k == 0 then []
    else Sent(initial, k - 1) + (if Escalation(initial)[k - 1].Some? then [Escalation(initial)[k - 1].value] else [])
  }

  /** What a stage that never exits sees in the course of a stop. */
  ghost function WholePlan(initial: Option<Signal>): seq<Signal> {
    Sent(initial, |Escalation(initial)|) + [Sigkill]
  }

  /** The signals every live stage has seen in a phase. */
  ghost function PhasePlan(s: State): seq<Signal> {
    match s.phase
    case Running => []
    case Waiting(delivered, _) => if delivered <= |Escalation(s.initial)| then Sent(s.initial, delivered) else []
    case Killed(_) => WholePlan(s.initial)
    case Returned => WholePlan(s.initial)
  }

  /** The stages the stop is waiting for; before a stop every stage may run on. */
  ghost function Awaited(s: State): set<Stage> {
    match s.phase
    case Running => s.tracked
    case Waiting(_, awaited) => awaited
    case Killed(awaited) => awaited
    case Returned => s.live
  }

  /** What holds of the stages apart from the signals they saw. */
  ghost predicate Consistent(s: State) {
    s.live <= s.tracked && s.sent.Keys == s.tracked && s.exits.Keys <= s.tracked && s.tracked - s.live <= s.exits.Keys
  }

  /** Every live stage has seen exactly `plan`, and the others a beginning of it. */
  ghost predicate Saw(s: State, plan: seq<Signal>) {
    (forall stage | stage in s.sent :: s.sent[stage] <= plan) &&
    (forall stage | stage in s.sent && stage in s.live :: s.sent[stage] == plan)
  }

  ghost predicate Invariant(s: State) {
    Consistent(s) && Saw(s, PhasePlan(s)) &&
    (s.stopping <==> !s.phase.Running?) &&
    (s.phase.Waiting? ==> 1 <= s.phase.delivered <= |Escalation(s.initial)|) &&
    s.live <= Awaited(s) && (!s.phase.Running? ==> Awaited(s) <= s.tracked) &&
    (s.phase.Returned? ==> s.tracked <= s.exits.Keys)
  }

  lemma {:induction false} SentGrows(initial: Option<Signal>, j: nat, k: nat)
    requires j <= k <= |Escalation(initial)|
    ensures Sent(initial, j) <= Sent(initial, k)
  {
  }

  lemma DeliverExtends(s: State, plan: seq<Signal>, signal: Signal)
    requires Consistent(s) && Saw(s, plan)
    ensures Consistent(Deliver(s, signal)) && Saw(Deliver(s, signal), plan + [signal])
  {
  }

  lemma SawFewer(s: State, plan: seq<Signal>, longer: seq<Signal>)
    requires Saw(s, plan) && plan <= longer && s.live == {}
    ensures Saw(s, longer)
  {
  }

  lemma KillKeepsInvariant(s: State)
    requires s.stopping && Consistent(s) && Saw(s, Sent(s.initial, |Escalation(s.initial)|))
    ensures Invariant(Advance(s, |Escalation(s.initial)|))
  {
    hide Deliver;
    DeliverExtends(s, Sent(s.initial, |Escalation(s.initial)|), Sigkill);
    DeliverKeeps(s, Sigkill);
    assert Saw(Advance(s, |Escalation(s.initial)|), WholePlan(s.initial));
  }

  lemma DeliverKeeps(s: State, signal: Signal)
    ensures Deliver(s, signal) == s.(sent := Deliver(s, signal).sent)
  {
  }

  lemma EscalateKeepsInvariant(s: State, k: nat)
    requires k < |Escalation(s.initial)| && s.stopping && s.live != {} && Consistent(s) && Saw(s, Sent(s.initial, k))
    ensures Invariant(Advance(s, k))
  {
    hide Deliver;
    if Escalation(s.initial)[k].Some? {
      var signal := Escalation(s.initial)[k].value;
      DeliverExtends(s, Sent(s.initial, k), signal);
      DeliverKeeps(s, signal);
      assert Sent(s.initial, k + 1) == Sent(s.initial, k) + [signal];
    } else {
      assert Sent(s.initial, k + 1) == Sent(s.initial, k);
    }
    assert Saw(Advance(s, k), Sent(s.initial, k + 1));
  }

  lemma AdvanceKeepsInvariant(s: State, k: nat)
    requires k <= |Escalation(s.initial)| && s.stopping && Consistent(s) && Saw(s, Sent(s.initial, k))
    ensures Invariant(Advance(s, k))
  {
    hide Deliver;
    var n := |Escalation(s.initial)|;
    if k >= n {
      KillKeepsInvariant(s);
    } else if s.live == {} {
      SentGrows(s.initial, k, n);
      SawFewer(s, Sent(s.initial, k), WholePlan(s.initial));
    } else {
      EscalateKeepsInvariant(s, k);
    }
  }

  lemma StepKeepsInvariant(s: State, e: Event)
    requires Invariant(s) && Enabled(s, e)
    ensures Invariant(Step(s, e))
  {
    match e
    case Add(stage) =>
    case Exit(_, _) =>
    case Observe(_) =>
    case Stop(signal) => AdvanceKeepsInvariant(s.(stopping := true, initial := signal), 0);
    case Wake => AdvanceKeepsInvariant(s, s.phase.delivered);
    case Return =>
  }

  lemma {:induction false} RunKeepsInvariant(events: seq<Event>, states: seq<State>, i: nat)
    requires IsRun(events, states) && i < |states|
    ensures Invariant(states[i])
  {
    if i > 0 {
      RunKeepsInvariant(events, states, i - 1);
      StepKeepsInvariant(states[i - 1], events[i - 1]);
    }
  }

  // ---------- what every run guarantees ----------

  /** `stop` has returned only when every tracked stage has exited. */
  lemma ReturnedMeansExited(events: seq<Event>, states: seq<State>, i: nat)
    requires IsRun(events, states) && i < |states| && states[i].phase.Returned?
    ensures states[i].tracked == states[i].exits.Keys
  {
    RunKeepsInvariant(events, states, i);
  }

  /** The initial signal if any, SIGTERM unless that was it, then SIGKILL. */
  function Order(initial: Option<Signal>): seq<Signal> {
    (if initial.Some? then [initial.value] else []) + (if initial == Some(Sigterm) then [] else [Sigterm]) + [Sigkill]
  }

  lemma WholePlanIsOrder(initial: Option<Signal>)
    ensures WholePlan(initial) == Order(initial)
  {
    var n := |Escalation(initial)|;
    assert Sent(initial, 0) == [];
    assert Sent(initial, 1) == if initial.Some? then [initial.value] else [];
    assert n == 1 || Sent(initial, 2) == Sent(initial, 1) + [Sigterm];
  }

  // ---------- the stop of a run ----------

  ghost predicate StopBefore(events: seq<Event>, i: nat) {
    exists j :: 0 <= j < i && j < |events| && events[j].Stop?
  }

  lemma StopStep(s: State, e: Event)
    requires Invariant(s) && Enabled(s, e)
    ensures Step(s, e).stopping <==> s.stopping || e.Stop?
    ensures e.Stop? ==> !s.stopping && Step(s, e).initial == e.signal
    ensures !e.Stop? ==> Step(s, e).initial == s.initial
  {
  }

  /** The supervisor is stopping exactly when some event was a stop. */
  lemma {:induction false} StoppingExactly(events: seq<Event>, states: seq<State>, i: nat)
    requires IsRun(events, states) && i < |states|
    ensures states[i].stopping <==> StopBefore(events, i)
  {
    if i > 0 {
      StoppingExactly(events, states, i - 1);
      RunKeepsInvariant(events, states, i - 1);
      StopStep(states[i - 1], events[i - 1]);
      if events[i - 1].Stop? { assert StopBefore(events, i); }
    }
  }

  /** From its stop event on, a run escalates from the signal of that event. */
  lemma {:induction false} InitialIsRequested(events: seq<Event>, states: seq<State>, j: nat, i: nat)
    requires IsRun(events, states) && j < i < |states| && events[j].Stop?
    ensures states[i].stopping && states[i].initial == events[j].signal
    decreases i
  {
    RunKeepsInvariant(events, states, i - 1);
    StopStep(states[i - 1], events[i - 1]);
    if j < i - 1 { InitialIsRequested(events, states, j, i - 1); }
  }

  /**
   * After a stop event, every stage has seen a beginning of `Order` for the signal of that event, so SIGTERM and
   * SIGKILL reach it at most once each unless the caller began with that signal; a stage that is live after the
   * SIGKILL round has seen it all.
   */
  lemma SignalsInOrder(events: seq<Event>, states: seq<State>, j: nat, i: nat, stage: Stage)
    requires IsRun(events, states) && j < i < |states| && events[j].Stop? && stage in states[i].tracked
    ensures stage in states[i].sent && states[i].sent[stage] <= Order(events[j].signal)
    ensures states[i].phase.Killed? && stage in states[i].live ==> states[i].sent[stage] == Order(events[j].signal)
  {
    InitialIsRequested(events, states, j, i);
    RunKeepsInvariant(events, states, i);
    var s := states[i];
    WholePlanIsOrder(s.initial);
    if s.phase.Waiting? { SentGrows(s.initial, s.phase.delivered, |Escalation(s.initial)|); }
  }

  /** Before a stop event no stage sees a signal. */
  lemma NoSignalBeforeStop(events: seq<Event>, states: seq<State>, i: nat, stage: Stage)
    requires IsRun(events, states) && i < |states| && !StopBefore(events, i) && stage in states[i].sent
    ensures states[i].sent[stage] == []
  {
    StoppingExactly(events, states, i);
    RunKeepsInvariant(events, states, i);
  }

  /** Whether the exit of `stage` was observed by event `i` of the run. */
  ghost predicate ObservedAt(events: seq<Event>, i: nat, stage: Stage) {
    i < |events| && events[i] == Observe(stage)
  }

  ghost predicate Reported(s: State, stage: Stage) {
    exists r :: r in s.reports && r.stage == stage
  }

  ghost predicate StaleBefore(events: seq<Event>, n: nat, stage: Stage) {
    exists i :: 0 <= i < n && ObservedAt(events, i, stage) && !StopBefore(events, i)
  }

  lemma ReportedStep(s: State, e: Event, stage: Stage)
    requires Enabled(s, e)
    ensures Reported(Step(s, e), stage) <==> Reported(s, stage) || (e == Observe(stage) && !s.stopping)
  {
  }

  lemma StaleBeforeStep(events: seq<Event>, n: nat, stage: Stage)
    requires n < |events|
    ensures StaleBefore(events, n + 1, stage) <==>
              StaleBefore(events, n, stage) || (events[n] == Observe(stage) && !StopBefore(events, n))
  {
  }

  /** `onStale` fires for exactly the stages whose exit is observed before the stop begins. */
  lemma {:induction false} StaleExactly(events: seq<Event>, states: seq<State>, n: nat, stage: Stage)
    requires IsRun(events, states) && n < |states|
    ensures Reported(states[n], stage) <==> StaleBefore(events, n, stage)
  {
    if n > 0 {
      StaleExactly(events, states, n - 1, stage);
      StoppingExactly(events, states, n - 1);
      ReportedStep(states[n - 1], events[n - 1], stage);
      StaleBeforeStep(events, n - 1, stage);
    }
  }

  /** Reports name stages no longer live, with their exit codes, and no stage twice. */
  ghost predicate ReportsSettled(s: State) {
    (forall r | r in s.reports :: r.stage !in s.live && r.stage in s.exits && s.exits[r.stage] == r.code) &&
    (forall i, j | 0 <= i < j < |s.reports| :: s.reports[i].stage != s.reports[j].stage)
  }

  lemma AdvanceKeeps(s: State, k: nat)
    ensures var t := Advance(s, k);
            t.tracked == s.tracked && t.live == s.live && t.exits == s.exits && t.stopping == s.stopping &&
              t.reports == s.reports
  {
    hide Deliver, Escalation;
    DeliverKeeps(s, Sigkill);
    if k < |Escalation(s.initial)| && Escalation(s.initial)[k].Some? {
      DeliverKeeps(s, Escalation(s.initial)[k].value);
    }
  }

  lemma ReportStep(s: State, e: Event)
    requires Consistent(s) && Enabled(s, e) && ReportsSettled(s)
    ensures ReportsSettled(Step(s, e))
  {
    hide Advance;
    assert forall i | 0 <= i < |s.reports| :: s.reports[i] in s.reports;
    match e
    case Add(_) =>
    case Exit(_, _) =>
    case Observe(_) =>
    case Stop(signal) => AdvanceKeeps(s.(stopping := true, initial := signal), 0);
    case Wake => AdvanceKeeps(s, s.phase.delivered);
    case Return =>
  }

  /** Each stage is reported at most once, with the code it exited with. */
  lemma {:induction false} ReportedOnce(events: seq<Event>, states: seq<State>, n: nat)
    requires IsRun(events, states) && n < |states|
    ensures ReportsSettled(states[n])
  {
    if n > 0 {
      ReportedOnce(events, states, n - 1);
      RunKeepsInvariant(events, states, n - 1);
      ReportStep(states[n - 1], events[n - 1]);
    }
  }

  /** A stop is never stuck: it can wake, return, or is waiting for a killed stage that can still exit. */
  lemma StopCanGoOn(events: seq<Event>, states: seq<State>, i: nat)
    requires IsRun(events, states) && i < |states| && states[i].stopping && !states[i].phase.Returned?
    ensures Enabled(states[i], Wake) || Enabled(states[i], Return) ||
            exists stage :: Enabled(states[i], Exit(stage, None)) && stage in Awaited(states[i])
  {
    RunKeepsInvariant(events, states, i);
    var s := states[i];
    if s.phase.Killed? && !(s.phase.awaited <= s.exits.Keys) {
      var stage :| stage in s.phase.awaited && stage !in s.exits;
      assert Enabled(s, Exit(stage, None));
    }
  }

  // ---------- a stop ends ----------

  /** Steps still to come in a stop: exits, their callbacks, escalation steps. */
  ghost function Work(s: State): int {
    |s.tracked - s.exits.Keys| + |s.live| + PhaseWork(s)
  }

  ghost function PhaseWork(s: State): int {
    match s.phase
    case Running => |Escalation(s.initial)| + 3
    case Waiting(delivered, _) => |Escalation(s.initial)| - delivered + 2
    case Killed(_) => 1
    case Returned => 0
  }

  lemma AdvanceWorks(s: State, k: nat)
    requires k <= |Escalation(s.initial)|
    ensures PhaseWork(Advance(s, k)) <= |Escalation(s.initial)| - k + 1
  {
  }

  lemma ExitWorks(s: State, stage: Stage, code: Option<int>)
    requires stage in s.tracked && stage !in s.exits
    ensures Work(s.(exits := s.exits[stage := code])) < Work(s)
  {
    var t := s.(exits := s.exits[stage := code]);
    OneFewer(s.tracked - s.exits.Keys, stage);
    assert t.tracked - t.exits.Keys == (s.tracked - s.exits.Keys) - {stage};
  }

  lemma ObserveWorks(s: State, stage: Stage, reports: seq<Report>)
    requires stage in s.live
    ensures Work(s.(live := s.live - {stage}, reports := reports)) < Work(s)
  {
  }

  lemma StepWorks(s: State, e: Event)
    requires Invariant(s) && s.stopping && Enabled(s, e)
    ensures Work(Step(s, e)) < Work(s) && Step(s, e).stopping && Step(s, e).tracked == s.tracked
  {
    hide Saw, Advance, Consistent;
    match e
    case Exit(stage, code) => ExitWorks(s, stage, code);
    case Observe(stage) => ObserveWorks(s, stage, s.reports);
    case Wake =>
      AdvanceKeeps(s, s.phase.delivered);
      AdvanceWorks(s, s.phase.delivered);
    case Return =>
  }

  lemma {:induction false} StopWorks(events: seq<Event>, states: seq<State>, i: nat, j: nat)
    requires IsRun(events, states) && i <= j < |states| && states[i].stopping
    ensures states[j].stopping && states[j].tracked == states[i].tracked
    ensures j - i + Work(states[j]) <= Work(states[i])
    decreases j - i
  {
    hide Invariant, Work, Enabled, Step;
    if i < j {
      StopWorks(events, states, i, j - 1);
      RunKeepsInvariant(events, states, j - 1);
      StepWorks(states[j - 1], events[j - 1]);
    }
  }

  /**
   * Once a stop began, a run makes at most two more steps for each stage and four for the escalation, and when
   * nothing more can happen the stop has returned and no stage is live.
   */
  lemma StopEnds(events: seq<Event>, states: seq<State>, i: nat)
    requires IsRun(events, states) && i < |states| && states[i].stopping
    ensures |events| - i <= 2 * |states[i].tracked| + 4
    ensures var last := states[|events|];
            (forall e :: !Enabled(last, e)) ==>
              last.phase.Returned? && last.live == {} && last.tracked == last.exits.Keys
  {
    hide Saw, Step, PhasePlan;
    var s, last := states[i], states[|events|];
    StopWorks(events, states, i, |events|);
    RunKeepsInvariant(events, states, i);
    RunKeepsInvariant(events, states, |events|);
    SubsetSize(s.tracked - s.exits.Keys, s.tracked);
    SubsetSize(s.live, s.tracked);
    if forall e :: !Enabled(last, e) {
      if !last.phase.Returned? { StopCanGoOn(events, states, |events|); }
      forall stage ensures stage !in last.live { assert !Enabled(last, Observe(stage)); }
    }
  }

  // ---------- the supervisor object ----------

  class StageSupervisor {
    var live: set<Stage>
    var stopping: bool
    /** What `stop` keeps across its awaits. */
    var initial: Option<Signal>
    var phase: Phase
    /** The world the supervisor acts on: stages started and exited, signals delivered, reports made. */
    var tracked: set<Stage>
    var exits: map<Stage, Option<int>>
    var sent: map<Stage, seq<Signal>>
    var reports: seq<Report>

    ghost function View(): State
      reads this
    {
      State(tracked, live, exits, stopping, initial, phase, sent, reports)
    }

    constructor ()
      ensures View() == Init()
    {
      live, stopping, initial, phase := {}, false, None, Running;
      tracked, exits, sent, reports := {}, map[], map[], [];
    }

    method Track(stage: Stage)
      requires Enabled(View(), Add(stage))
      modifies this
      ensures View() == Step(old(View()), Add(stage))
    {
      live, tracked, sent := live + {stage}, tracked + {stage}, sent[stage := []];
    }

    /** The callback of `add`: forget the stage and report it unless a stop was requested. */
    method StageExited(stage: Stage)
      requires Enabled(View(), Observe(stage))
      modifies this
      ensures View() == Step(old(View()), Observe(stage))
    {
      live := live - {stage};
      if !stopping {
        reports := reports + [Report(stage, exits[stage])];
      }
    }

    method KillLive(signal: Signal)
      modifies this
      ensures View() == Deliver(old(View()), signal)
    {
      sent := map stage | stage in sent :: if stage in live then sent[stage] + [signal] else sent[stage];
    }

    /** One turn of the escalation loop, or the final kill after it. */
    method Escalate(k: nat)
      modifies this
      ensures View() == Advance(old(View()), k)
    {
      var escalation := Escalation(initial);
      if k < |escalation| {
        if live == {} {
          phase := Returned;
          return;
        }
        if escalation[k].Some? {
          KillLive(escalation[k].value);
        }
        phase := Waiting(k + 1, live);
      } else {
        KillLive(Sigkill);
        phase := Killed(live);
      }
    }

    method BeginStop(signal: Option<Signal>)
      requires Enabled(View(), Stop(signal))
      modifies this
      ensures View() == Step(old(View()), Stop(signal))
    {
      stopping, initial := true, signal;
      Escalate(0);
    }

    method GraceOver()
      requires Enabled(View(), Wake)
      modifies this
      ensures View() == Step(old(View()), Wake)
    {
      Escalate(phase.delivered);
    }
  }
}
