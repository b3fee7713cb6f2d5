/** `MetricsSampler` as atomic steps at lock granularity: one worker, any number of readers, shutdown. */
module Sampler {
  import opened Basics
  import opened SystemMetricsModel

  /** Where the worker thread is: in its timed wait, collecting without the lock, or finished. */
  datatype Worker = Waiting | Collecting | Exited

  datatype State = State(
    generation: nat, latest: SystemMetrics, latestError: string, hasSnapshot: bool, stopping: bool, worker: Worker)

  /** What a reader is told. `metrics` is meaningful only when `ok`. */
  datatype Response = Response(ok: bool, generation: nat, metrics: SystemMetrics, error: string)

  /** One critical section. `Wake` is the end of the worker's wait, `Publish` the end of its `Sample`,
      `Wait` a `WaitForNext` call whose condition holds. */
  datatype Event = Wake | Publish(outcome: Collected) | Stop | Get | Wait(previous: nat)

  // ----- the steps -----

  function Published(s: State, outcome: Collected): State {
    var next := s.(generation := (s.generation + 1) % WORD);
    match outcome
    case Sampled(metrics) => next.(latest := metrics, latestError := "", hasSnapshot := true)
    case Failed(error) => next.(latestError := error)
  }

  /** The sampler after its constructor: the first sample is taken before the worker starts. */
  function Initial(outcome: Collected): State {
    Published(State(0, NO_METRICS, "", false, false, Waiting), outcome)
  }

  predicate Enabled(s: State, e: Event) {
    match e
    case Wake => s.worker.Waiting?
    case Publish(_) => s.worker.Collecting?
    case Stop => true
    case Get => true
    case Wait(previous) => s.stopping || s.generation > previous
  }

  function Next(s: State, e: Event): State {
    match e
    case Wake => s.(worker := if s.stopping then Exited else Collecting)
    case Publish(outcome) => Published(s, outcome).(worker := Waiting)
    case Stop => s.(stopping := true)
    case Get => s
    case Wait(_) => s
  }

  function Latest(s: State): Response {
    Response(s.hasSnapshot && s.latestError == "", s.generation, s.latest, s.latestError)
  }

  const STOPPING := "metrics sampler is stopping"

  function Awaited(s: State): Response {
    if s.stopping then Response(false, s.generation, s.latest, STOPPING) else Latest(s)
  }

  // ----- the class -----

  class MetricsSampler {
    var generation: nat
    var latestMetrics: SystemMetrics
    var latestError: string
    var hasSnapshot: bool
    var stopping: bool
    var worker: Worker

    function Snapshot(): State
      reads this
    {
      State(generation, latestMetrics, latestError, hasSnapshot, stopping, worker)
    }

    constructor (first: Collected)
      ensures Snapshot() == Initial(first)
    {
      generation, latestMetrics, latestError, hasSnapshot, stopping := 0, NO_METRICS, "", false, false;
      worker := Waiting;
      new;
      StoreSample(first);
    }

    /** The locked part of `Sample`. */
    method StoreSample(outcome: Collected)
      modifies this
      ensures Snapshot() == Published(old(Snapshot()), outcome)
    {
      generation := (generation + 1) % WORD;
      match outcome
      case Sampled(metrics) =>
        latestMetrics := metrics;
        latestError := "";
        hasSnapshot := true;
      case Failed(error) =>
        latestError := error;
    }

    /** The worker's loop, one critical section at a time. */
    method WorkerWakes()
      requires Enabled(Snapshot(), Wake)
      modifies this
      ensures Snapshot() == Next(old(Snapshot()), Wake)
    {
      worker := if stopping then Exited else Collecting;
    }

    method WorkerPublishes(outcome: Collected)
      requires Enabled(Snapshot(), Publish(outcome))
      modifies this
      ensures Snapshot() == Next(old(Snapshot()), Publish(outcome))
    {
      StoreSample(outcome);
      worker := Waiting;
    }

    /** The destructor's critical section; it then joins the worker. */
    method RequestStop()
      modifies this
      ensures Snapshot() == Next(old(Snapshot()), Stop)
    {
      stopping := true;
    }

    method GetLatest() returns (r: Response)
      ensures r == Latest(Snapshot())
    {
      if !hasSnapshot || latestError != "" {
        return Response(false, generation, latestMetrics, latestError);
      }
      return Response(true, generation, latestMetrics, latestError);
    }

    method WaitForNext(previous: nat) returns (r: Response)
      requires Enabled(Snapshot(), Wait(previous))
      ensures r == Awaited(Snapshot())
    {
      if stopping {
        return Response(false, generation, latestMetrics, STOPPING);
      }
      if !hasSnapshot || latestError != "" {
        return Response(false, generation, latestMetrics, latestError);
      }
      return Response(true, generation, latestMetrics, latestError);
    }
  }

  // ----- runs -----

  function Run(s: State, events: seq<Event>): State
    decreases |events|
  {
    if events == [] then s else Run(Next(s, events[0]), events[1..])
  }

  predicate Possible(s: State, events: seq<Event>)
    decreases |events|
  {
    events == [] || (Enabled(s, events[0]) && Possible(Next(s, events[0]), events[1..]))
  }

  /** The samples published by a run, in order. */
  function Outcomes(events: seq<Event>): (outcomes: seq<Collected>)
    ensures |outcomes| <= |events|
  {
    if events == [] then []
    else (if events[0].Publish? then [events[0].outcome] else []) + Outcomes(events[1..])
  }

  // ----- what the state says about the samples published so far -----

  /** The metrics of the last successful sample. */
  function LastSuccess(outcomes: seq<Collected>): (m: SystemMetrics)
    decreases |outcomes|
  {
    if outcomes == [] then NO_METRICS
    else match outcomes[|outcomes| - 1]
      case Sampled(metrics) => metrics
      case Failed(_) => LastSuccess(outcomes[..|outcomes| - 1])
  }

  ghost predicate Reflects(s: State, outcomes: seq<Collected>) {
    && outcomes != []
    && s.generation == |outcomes|
    && s.latest == LastSuccess(outcomes)
    && (s.hasSnapshot <==> exists k :: 0 <= k < |outcomes| && outcomes[k].Sampled?)
    && s.latestError == match outcomes[|outcomes| - 1] { case Sampled(_) => "" case Failed(error) => error }
  }

  lemma PublishedReflects(s: State, outcomes: seq<Collected>, outcome: Collected)
    requires |outcomes| + 1 < WORD
    requires outcomes == [] ==> s.generation == 0 && !s.hasSnapshot && s.latest == NO_METRICS
    requires outcomes != [] ==> Reflects(s, outcomes)
    ensures Reflects(Published(s, outcome), outcomes + [outcome])
  {
    var all := outcomes + [outcome];
    assert all[..|all| - 1] == outcomes;
    assert all[|outcomes|] == outcome;
    assert forall k :: 0 <= k < |outcomes| ==> all[k] == outcomes[k];
    assert (s.generation + 1) % WORD == s.generation + 1;
  }

  /** In every interleaving the generation is the number of samples published, and the rest of the state
      describes the last of them. */
  lemma {:induction false} RunReflects(s: State, before: seq<Collected>, events: seq<Event>)
    requires before != [] && Reflects(s, before) && |before| + |events| < WORD
    ensures Reflects(Run(s, events), before + Outcomes(events))
    decreases |events|
  {
    hide Reflects, Published;
    if events == [] {
      assert before + [] == before;
    } else {
      var e := events[0];
      var first := if e.Publish? then [e.outcome] else [];
      if e.Publish? {
        PublishedReflects(s, before, e.outcome);
        WorkerIsIrrelevant(Published(s, e.outcome), Waiting, s.stopping, before + first);
        OtherFieldsStay(s, e.outcome);
      } else {
        assert before + first == before;
        WorkerIsIrrelevant(s, Next(s, e).worker, Next(s, e).stopping, before);
      }
      RunReflects(Next(s, e), before + first, events[1..]);
      assert before + first + Outcomes(events[1..]) == before + (first + Outcomes(events[1..]));
    }
  }

  lemma WorkerIsIrrelevant(s: State, worker: Worker, stopping: bool, outcomes: seq<Collected>)
    requires Reflects(s, outcomes)
    ensures Reflects(s.(worker := worker, stopping := stopping), outcomes)
  {
  }

  lemma OtherFieldsStay(s: State, outcome: Collected)
    ensures Published(s, outcome).stopping == s.stopping && Published(s, outcome).worker == s.worker
  {
  }

  lemma ReachableReflects(first: Collected, events: seq<Event>)
    requires 1 + |events| < WORD
    ensures Reflects(Run(Initial(first), events), [first] + Outcomes(events))
  {
    hide Reflects, Published;
    PublishedReflects(State(0, NO_METRICS, "", false, false, Waiting), [], first);
    assert [] + [first] == [first];
    RunReflects(Initial(first), [first], events);
  }

  // ----- what readers are told -----

  /** The response is the sample published at the generation it names. */
  predicate Faithful(r: Response, published: seq<Collected>) {
    1 <= r.generation <= |published| && published[r.generation - 1] == Sampled(r.metrics)
  }

  /** Exactly when a reader is given metrics, and exactly when they are the newest ones: a failed sample
      whose error text is empty is the one thing that would pass off old metrics as new. */
  lemma LatestExactlyWhen(first: Collected, events: seq<Event>)
    requires 1 + |events| < WORD
    ensures var published := [first] + Outcomes(events);
      var newest := published[|published| - 1];
      var r := Latest(Run(Initial(first), events));
      && r.generation == |published|
      && r.error == (if newest.Sampled? then "" else newest.error)
      && (r.ok <==>
            || newest.Sampled?
            || (newest.error == "" && exists k :: 0 <= k < |published| && published[k].Sampled?))
      && (r.ok ==> (Faithful(r, published) <==> newest.Sampled?))
  {
    ReachableReflects(first, events);
  }

  ghost predicate ErrorsAreNamed(first: Collected, events: seq<Event>) {
    forall k :: 0 <= k < |[first] + Outcomes(events)| ==> ([first] + Outcomes(events))[k] != Failed("")
  }

  /** With the collector's error texts never empty, every successful answer is the sample of its generation,
      and `WaitForNext` moves forward. */
  lemma AnswersAreFaithful(first: Collected, events: seq<Event>, previous: nat)
    requires 1 + |events| < WORD && ErrorsAreNamed(first, events)
    ensures var s := Run(Initial(first), events);
      var published := [first] + Outcomes(events);
      && s.generation == |published|
      && (Latest(s).ok ==> Faithful(Latest(s), published))
      && (Awaited(s).ok && Enabled(s, Wait(previous)) ==>
            Faithful(Awaited(s), published) && Awaited(s).generation > previous)
  {
    LatestExactlyWhen(first, events);
    var published := [first] + Outcomes(events);
    assert published[|published| - 1] != Failed("");
  }

  lemma {:induction false} StopSticks(s: State, events: seq<Event>)
    ensures Run(s, events).stopping <==> s.stopping || Stop in events
    decreases |events|
  {
    hide Published;
    if events != [] {
      if events[0].Publish? {
        OtherFieldsStay(s, events[0].outcome);
      }
      StopSticks(Next(s, events[0]), events[1..]);
      assert events == [events[0]] + events[1..];
    }
  }

  /** A waiter is released exactly when a sample newer than the one it holds has been published or the sampler is
      stopping; a stopping sampler says so, any other answers like `GetLatest`. */
  lemma WaiterWakesExactlyWhen(first: Collected, events: seq<Event>, previous: nat)
    requires 1 + |events| < WORD
    ensures var s := Run(Initial(first), events);
      var published := [first] + Outcomes(events);
      && (Enabled(s, Wait(previous)) <==> Stop in events || |published| > previous)
      && Awaited(s).generation == |published|
      && (if Stop in events then !Awaited(s).ok && Awaited(s).error == "metrics sampler is stopping"
          else Awaited(s) == Latest(s))
  {
    hide Published, Run, Outcomes;
    ReachableReflects(first, events);
    StopSticks(Initial(first), events);
    OtherFieldsStay(State(0, NO_METRICS, "", false, false, Waiting), first);
  }

  lemma {:induction false} WorkerLives(s: State, events: seq<Event>)
    requires Possible(s, events) && Stop !in events && !s.stopping && !s.worker.Exited?
    ensures !Run(s, events).stopping && !Run(s, events).worker.Exited?
    decreases |events|
  {
    hide Published;
    if events != [] {
      if events[0].Publish? {
        OtherFieldsStay(s, events[0].outcome);
      }
      assert events == [events[0]] + events[1..];
      WorkerLives(Next(s, events[0]), events[1..]);
    }
  }

  lemma OneEvent(s: State, e: Event)
    ensures Run(s, [e]) == Next(s, e) && (Possible(s, [e]) <==> Enabled(s, e))
  {
    hide Next, Enabled;
    assert [e][1..] == [];
  }

  lemma TwoEvents(s: State, e: Event, f: Event)
    ensures Run(s, [e, f]) == Next(Next(s, e), f)
    ensures Possible(s, [e, f]) <==> Enabled(s, e) && Enabled(Next(s, e), f)
  {
    hide Next, Enabled;
    assert [e, f][1..] == [f];
    OneEvent(Next(s, e), f);
  }

  /** As long as nobody stops the sampler, its worker can always publish another sample. */
  lemma SamplingGoesOn(first: Collected, events: seq<Event>, outcome: Collected) returns (more: seq<Event>)
    requires Possible(Initial(first), events) && Stop !in events
    ensures var s := Run(Initial(first), events);
      Possible(s, more) && |more| <= 2 && Outcomes(more) == [outcome] && Run(s, more).worker.Waiting?
  {
    hide Published;
    OtherFieldsStay(State(0, NO_METRICS, "", false, false, Waiting), first);
    WorkerLives(Initial(first), events);
    var s := Run(Initial(first), events);
    assert [Publish(outcome)][1..] == [];
    if s.worker.Collecting? {
      more := [Publish(outcome)];
      OneEvent(s, Publish(outcome));
    } else {
      more := [Wake, Publish(outcome)];
      assert more[1..] == [Publish(outcome)];
      TwoEvents(s, Wake, Publish(outcome));
    }
  }

  // ----- shutdown -----

  /** How many more samples a stopping sampler can publish. */
  function Pending(s: State): nat {
    if s.worker.Collecting? then 1 else 0
  }

  /** How many more steps the worker of a stopping sampler takes before it has exited. */
  function StepsLeft(s: State): nat {
    match s.worker
    case Collecting => 2
    case Waiting => 1
    case Exited => 0
  }

  function WorkerSteps(events: seq<Event>): (n: nat) {
    if events == [] then 0
    else (if events[0].Wake? || events[0].Publish? then 1 else 0) + WorkerSteps(events[1..])
  }

  /** Once stopping, at most one more sample is published (the one being collected), the worker takes at
      most two more steps, and no waiter is left blocked. */
  lemma {:induction false} StoppingEnds(s: State, events: seq<Event>, previous: nat)
    requires s.stopping && Possible(s, events)
    requires s.generation + |events| < WORD
    ensures var t := Run(s, events);
      && t.stopping
      && s.generation <= t.generation <= s.generation + Pending(s)
      && WorkerSteps(events) + StepsLeft(t) == StepsLeft(s)
      && Enabled(t, Wait(previous)) && !Awaited(t).ok
    decreases |events|
  {
    if events != [] {
      assert (s.generation + 1) % WORD == s.generation + 1;
      StoppingEnds(Next(s, events[0]), events[1..], previous);
    }
  }

  /** The steps that bring the worker of a stopping sampler to its end, whatever is being collected. */
  function FinishingSteps(s: State, outcome: Collected): (events: seq<Event>) {
    match s.worker
    case Collecting => [Publish(outcome), Wake]
    case Waiting => [Wake]
    case Exited => []
  }

  /** The join in the destructor returns: after any run of a stopping sampler the worker can always take its
      remaining steps, and has then exited. */
  lemma StoppingWorkerExits(s: State, events: seq<Event>, outcome: Collected)
    requires s.stopping && Possible(s, events) && s.generation + |events| + 1 < WORD
    ensures var t := Run(s, events);
      var more := FinishingSteps(t, outcome);
      && |more| == StepsLeft(t)
      && Possible(t, more)
      && Run(t, more).worker.Exited?
  {
    StoppingEnds(s, events, 0);
    hide Published;
    var t := Run(s, events);
    if t.worker.Collecting? {
      assert [Publish(outcome), Wake][1..] == [Wake];
      OtherFieldsStay(t, outcome);
    }
    assert [Wake][1..] == [];
  }
}
