/** The exit diagnostics of one forked coverage worker (`scripts/coverage-fork-diagnostics.ts`). */
module ForkDiagnostics {
  import opened Wrappers

  /** A run or collect request; `id` tells requests apart that name the same files. */
  datatype Request = Request(id: nat, files: seq<string>)

  datatype Message = Work(request: Request) | StopMessage | OtherMessage

  datatype Event =
    | Started
    | Send(message: Message)
    | Finished(request: Request)   // the worker finished this request; the response itself does not say which
    | Error
    | StopCall
    | Exit(code: Option<int>)

  datatype Report = Report(files: seq<string>, code: Option<int>)

  datatype State = State(
    expectedExit: bool, observing: bool, listensToErrors: bool, workerErrored: bool,
    request: Option<Request>, reports: seq<Report>)

  function Init(): State {
    State(false, false, false, false, None, [])
  }

  function Stopping(s: State): State {
    if s.workerErrored then s else s.(expectedExit := true)
  }

  function Step(s: State, e: Event): State {
    match e
    case Started => s.(observing := true, listensToErrors := true)
    case Send(Work(request)) => s.(request := Some(request))
    case Send(StopMessage) => Stopping(s)
    case Send(OtherMessage) => s
    case Finished(_) => s.(request := None)
    case Error => if s.listensToErrors && !s.expectedExit then s.(workerErrored := true) else s
    case StopCall => if s.workerErrored then s else s.(expectedExit := true, observing := false)
    case Exit(code) =>
      if s.observing && !s.expectedExit
      then s.(reports := s.reports + [Report(if s.request.Some? then s.request.value.files else [], code)])
      else s
  }

  function Run(events: seq<Event>): State {
    if events == [] then Init() else Step(Run(events[..|events| - 1]), events[|events| - 1])
  }

  // ---------- reading a trace ----------

  predicate IsStop(e: Event) {
    e == StopCall || e == Send(StopMessage)
  }

  ghost predicate Stopped(events: seq<Event>) {
    exists i :: 0 <= i < |events| && IsStop(events[i])
  }

  ghost predicate HasStarted(events: seq<Event>) {
    Started in events
  }

  /** An error arrives once the worker has started and before any stop. */
  ghost predicate ErroredFirst(events: seq<Event>) {
    exists i :: ErrorBeforeStop(events, i)
  }

  ghost predicate ErrorBeforeStop(events: seq<Event>, i: int) {
    0 <= i < |events| && events[i] == Error && HasStarted(events[..i]) && !Stopped(events[..i])
  }

  lemma StoppedAppend(events: seq<Event>, e: Event)
    ensures Stopped(events + [e]) <==> Stopped(events) || IsStop(e)
  {
    var longer := events + [e];
    if Stopped(events) {
      var i :| 0 <= i < |events| && IsStop(events[i]);
      assert IsStop(longer[i]);
    }
    if IsStop(e) { assert IsStop(longer[|events|]); }
  }

  lemma ErroredFirstAppend(events: seq<Event>, e: Event)
    ensures ErroredFirst(events + [e]) <==>
              ErroredFirst(events) || (e == Error && HasStarted(events) && !Stopped(events))
  {
    var longer := events + [e];
    assert longer[..|events|] == events;
    forall i | 0 <= i < |events| ensures ErrorBeforeStop(longer, i) <==> ErrorBeforeStop(events, i) {
      assert longer[..i] == events[..i];
    }
    if ErroredFirst(events) {
      var i :| ErrorBeforeStop(events, i);
      assert ErrorBeforeStop(longer, i);
    }
    if e == Error && HasStarted(events) && !Stopped(events) {
      assert ErrorBeforeStop(longer, |events|);
    }
  }

  /** One start, at the most, in a worker's lifecycle. */
  ghost predicate OneLifecycle(events: seq<Event>) {
    forall i, j | 0 <= i < j < |events| && events[i] == Started :: events[j] != Started
  }

  lemma StartsOnce(events: seq<Event>, e: Event)
    requires OneLifecycle(events + [e])
    ensures OneLifecycle(events) && (HasStarted(events) ==> e != Started)
    ensures HasStarted(events + [e]) <==> HasStarted(events) || e == Started
  {
    var longer := events + [e];
    assert forall i | 0 <= i < |events| :: longer[i] == events[i];
    assert longer[|events|] == e;
  }

  /** The flags as a trace that started, stopped and errored first, or not, leaves them. */
  ghost predicate FlagsAre(s: State, started: bool, stopped: bool, erroredFirst: bool) {
    s.workerErrored == erroredFirst &&
    s.expectedExit == (stopped && !erroredFirst) &&
    s.listensToErrors == started &&
    (s.observing ==> started) && (started && !s.expectedExit ==> s.observing)
  }

  lemma FlagsStep(s: State, e: Event, started: bool, stopped: bool, erroredFirst: bool)
    requires FlagsAre(s, started, stopped, erroredFirst) && (started ==> e != Started)
    ensures var now := erroredFirst || (e == Error && started && !stopped);
            FlagsAre(Step(s, e), started || e == Started, stopped || IsStop(e), now)
  {
  }

  /**
   * The flags after any trace of one lifecycle, read off the trace: an orderly stop was expected exactly when
   * some stop came with no observed error before it.
   */
  lemma {:induction false} Flags(events: seq<Event>)
    requires OneLifecycle(events)
    ensures FlagsAre(Run(events), HasStarted(events), Stopped(events), ErroredFirst(events))
  {
    if events != [] {
      var n := |events| - 1;
      var before, e := events[..n], events[n];
      assert events == before + [e];
      StartsOnce(before, e);
      Flags(before);
      FlagsStep(Run(before), e, HasStarted(before), Stopped(before), ErroredFirst(before));
      StoppedAppend(before, e);
      ErroredFirstAppend(before, e);
    }
  }

  /** `expectedExit` and `workerErrored` are never both set. */
  lemma {:induction false} NeverBoth(events: seq<Event>)
    ensures !(Run(events).expectedExit && Run(events).workerErrored)
  {
    if events != [] { NeverBoth(events[..|events| - 1]); }
  }

  // ---------- which files a report names ----------

  /** The requests sent whose own finish has not arrived, in sending order. */
  ghost function Outstanding(events: seq<Event>): seq<Request> {
    if events == [] then []
    else
      var before, e := Outstanding(events[..|events| - 1]), events[|events| - 1];
      match e
      case Send(Work(request)) => before + [request]
      case Finished(request) => Without(before, request)
      case _ => before
  }

  ghost function Without(requests: seq<Request>, request: Request): (r: seq<Request>)
    ensures |r| <= |requests|
  {
    if requests == [] then []
    else if requests[0] == request then requests[1..]
    else [requests[0]] + Without(requests[1..], request)
  }

  ghost function Latest(requests: seq<Request>): Option<Request> {
    if requests == [] then None else Some(requests[|requests| - 1])
  }

  /** No request finished since the last one was sent. */
  ghost predicate NoneFinishedSince(events: seq<Event>) {
    events != [] &&
    (events[|events| - 1].Finished? ==> false) &&
    ((events[|events| - 1].Send? && events[|events| - 1].message.Work?) || NoneFinishedSince(events[..|events| - 1]))
  }

  /** The remembered request is the last one sent, unless some request finished since. */
  lemma {:induction false} Remembered(events: seq<Event>)
    ensures Run(events).request.Some? <==> NoneFinishedSince(events)
    ensures NoneFinishedSince(events) ==> Run(events).request == Latest(Outstanding(events))
  {
    if events != [] { Remembered(events[..|events| - 1]); }
  }

  /**
   * A report names the files of the latest outstanding request exactly when no request finished since the last
   * one was sent, or none is outstanding.
   */
  lemma {:induction false} ReportNamesLatest(events: seq<Event>)
    ensures Run(events).request == Latest(Outstanding(events)) <==>
              NoneFinishedSince(events) || Outstanding(events) == []
  {
    Remembered(events);
  }

  /** The files of the latest outstanding request, unless some request finished since it was sent. */
  ghost function NamedFiles(events: seq<Event>): seq<string> {
    var latest := Latest(Outstanding(events));
    if NoneFinishedSince(events) && latest.Some? then latest.value.files else []
  }

  /**
   * After a start, an exit is reported exactly when no stop came before it or an error was observed before the
   * first stop; the report has the exit code, and the files of the latest outstanding request unless some request
   * finished since.
   */
  lemma ExitReported(events: seq<Event>, code: Option<int>)
    requires OneLifecycle(events) && HasStarted(events)
    ensures Run(events + [Exit(code)]).reports ==
              Run(events).reports +
              (if !Stopped(events) || ErroredFirst(events) then [Report(NamedFiles(events), code)] else [])
  {
    Flags(events);
    Remembered(events);
    assert (events + [Exit(code)])[..|events|] == events;
  }

  /** Requests are sent one at a time, and only a request that was sent finishes. */
  ghost predicate Sequential(events: seq<Event>) {
    events == [] ||
    (var before, e := events[..|events| - 1], events[|events| - 1];
     Sequential(before) &&
     (e.Send? && e.message.Work? ==> Outstanding(before) == []) &&
     (e.Finished? ==> Outstanding(before) == [e.request]))
  }

  /** For a caller that waits for each request, reports always name the request in progress. */
  lemma {:induction false} SequentialReportsNameLatest(events: seq<Event>)
    requires Sequential(events)
    ensures |Outstanding(events)| <= 1 && Run(events).request == Latest(Outstanding(events))
  {
    if events != [] { SequentialReportsNameLatest(events[..|events| - 1]); }
  }

  /** With two requests under way, the finish of the first makes an exit forget the files of the second. */
  lemma OverlapForgetsFiles()
    ensures var a, b := Request(0, ["a"]), Request(1, ["b"]);
            var events := [Started, Send(Work(a)), Send(Work(b)), Finished(a)];
            Outstanding(events) == [b] && Run(events + [Exit(Some(1))]).reports == [Report([], Some(1))]
  {
    var a, b := Request(0, ["a"]), Request(1, ["b"]);
    var e1, e2, e3 := [Started], [Started, Send(Work(a))], [Started, Send(Work(a)), Send(Work(b))];
    var e4 := e3 + [Finished(a)];
    assert e1[..0] == [] && e2[..1] == e1 && e3[..2] == e2 && e4[..3] == e3 && (e4 + [Exit(Some(1))])[..4] == e4;
    assert Outstanding(e1) == [] && Outstanding(e2) == [a] && Outstanding(e3) == [a, b];
    assert Run(e1) == Step(Init(), Started);
    assert Run(e2) == Step(Run(e1), Send(Work(a)));
    assert Run(e3) == Step(Run(e2), Send(Work(b)));
    assert Run(e4) == Step(Run(e3), Finished(a));
    assert e4 == [Started, Send(Work(a)), Send(Work(b)), Finished(a)];
  }

  // ---------- the worker object ----------

  class DiagnosticForkWorker {
    var expectedExit: bool
    var observing: bool
    var workerErrored: bool
    var request: Option<Request>
    /** Whether the error observer is attached, and the lines logged so far. */
    var listensToErrors: bool
    var reports: seq<Report>

    ghost function View(): State
      reads this
    {
      State(expectedExit, observing, listensToErrors, workerErrored, request, reports)
    }

    constructor ()
      ensures View() == Init()
    {
      expectedExit, observing, workerErrored, request := false, false, false, None;
      listensToErrors, reports := false, [];
    }

    method Start()
      modifies this
      ensures View() == Step(old(View()), Started)
    {
      listensToErrors, observing := true, true;
    }

    method SendMessage(message: Message)
      modifies this
      ensures View() == Step(old(View()), Send(message))
    {
      if message.Work? { request := Some(message.request); }
      if message.StopMessage? && !workerErrored { expectedExit := true; }
    }

    /** A `testfileFinished` response, whichever request it answers. */
    method Deserialize(finished: Request)
      modifies this
      ensures View() == Step(old(View()), Finished(finished))
    {
      request := None;
    }

    method ObserveError()
      modifies this
      ensures View() == Step(old(View()), Error)
    {
      if listensToErrors && !expectedExit { workerErrored := true; }
    }

    method StopWorker()
      modifies this
      ensures View() == Step(old(View()), StopCall)
    {
      if !workerErrored {
        expectedExit := true;
        if observing { observing := false; }
      }
    }

    method ReportExit(code: Option<int>)
      modifies this
      ensures View() == Step(old(View()), Exit(code))
    {
      if observing && !expectedExit {
        reports := reports + [Report(if request.Some? then request.value.files else [], code)];
      }
    }
  }
}
