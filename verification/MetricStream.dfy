/** `EdgeScopeServiceImpl::StreamSystemMetrics`: forwarding every so many generations. */
module MetricStream {
  import opened Basics
  import opened SystemMetricsModel
  import opened Sampler
  import Config
  import ConfigLaws

  const DEFAULT_INTERVAL: nat := 1000
  const MINIMUM_INTERVAL: nat := 1000
  const MAXIMUM_INTERVAL: nat := 60000

  datatype StreamStatus = Ok | InvalidArgument | Internal

  /** A response that is written, with the generation it shows. */
  datatype Sent = Sent(generation: nat, metrics: SystemMetrics)

  function Interval(requested: nat): nat {
    if requested == 0 then DEFAULT_INTERVAL else requested
  }

  function SamplesPerResponse(interval: nat, sampleInterval: nat): nat
    requires sampleInterval > 0
  {
    (interval + sampleInterval - 1) / sampleInterval
  }

  /** How far one generation is past another, in unsigned arithmetic. */
  function Past(generation: nat, last: nat): (n: nat) {
    (generation - last) % WORD
  }

  /** What the loop writes for the answers of successive `WaitForNext` calls, up to the first refusal. */
  function Forwarded(last: nat, answers: seq<Response>, every: nat): (sent: seq<Sent>)
    decreases |answers|
  {
    if answers == [] || !answers[0].ok then []
    else if Past(answers[0].generation, last) < every then Forwarded(last, answers[1..], every)
    else
      [Sent(answers[0].generation, answers[0].metrics)] + Forwarded(answers[0].generation, answers[1..], every)
  }

  /** Each answer shows a later generation than the one before, as `WaitForNext` promises. */
  predicate Advancing(last: nat, answers: seq<Response>)
    decreases |answers|
  {
    answers == [] ||
    (answers[0].ok ==> last < answers[0].generation < WORD && Advancing(answers[0].generation, answers[1..]))
  }

  lemma ForwardedStep(last: nat, answers: seq<Response>, i: nat, every: nat)
    requires i < |answers|
    ensures Forwarded(last, answers[i..], every) ==
      if !answers[i].ok then []
      else if Past(answers[i].generation, last) < every then Forwarded(last, answers[i + 1..], every)
      else
        [Sent(answers[i].generation, answers[i].metrics)]
        + Forwarded(answers[i].generation, answers[i + 1..], every)
  {
    assert answers[i..][1..] == answers[i + 1..];
  }

  lemma NothingForwarded(last: nat, every: nat)
    ensures Forwarded(last, [], every) == []
  {
  }

  /** The responses to a client that takes them all. */
  function Responses(requested: nat, sampleInterval: nat, first: Response, answers: seq<Response>): (sent: seq<Sent>)
    requires sampleInterval > 0
  {
    [Sent(first.generation, first.metrics)]
    + Forwarded(first.generation, answers, SamplesPerResponse(Interval(requested), sampleInterval))
  }

  /** `answers` are what `WaitForNext` returns until the client cancels; the client takes `accepts` responses. */
  method StreamSystemMetrics(
    requested: nat, sampleInterval: nat, first: Response, answers: seq<Response>, accepts: nat)
    returns (status: StreamStatus, sent: seq<Sent>)
    requires sampleInterval > 0
    ensures status == InvalidArgument <==> requested != 0 && !(1000 <= requested <= 60000)
    ensures status == InvalidArgument ==> sent == []
    ensures status != InvalidArgument && !first.ok ==> status == Internal && sent == []
    ensures status != InvalidArgument && first.ok ==>
      var all := Responses(requested, sampleInterval, first, answers);
      && sent == (if |all| > accepts then all[..accepts] else all)
      && (status == Internal <==> |all| <= accepts && exists k :: 0 <= k < |answers| && !answers[k].ok)
  {
    hide Forwarded, SamplesPerResponse, Past;
    var intervalMs := requested;
    if intervalMs == 0 {
      intervalMs := DEFAULT_INTERVAL;
    }
    if intervalMs < MINIMUM_INTERVAL || intervalMs > MAXIMUM_INTERVAL {
      return InvalidArgument, [];
    }
    if !first.ok {
      return Internal, [];
    }
    var samplesPerResponse := SamplesPerResponse(intervalMs, sampleInterval);
    ghost var all := [Sent(first.generation, first.metrics)]
      + Forwarded(first.generation, answers, samplesPerResponse);
    if accepts == 0 {
      assert all[..0] == [];
      return Ok, [];
    }
    sent := [Sent(first.generation, first.metrics)];
    var generation, lastSentGeneration := first.generation, first.generation;
    var i := 0;
    assert answers[0..] == answers;
    while i < |answers|
      invariant 0 <= i <= |answers|
      invariant |sent| <= accepts
      invariant all == sent + Forwarded(lastSentGeneration, answers[i..], samplesPerResponse)
      invariant forall k :: 0 <= k < i ==> answers[k].ok
    {
      ForwardedStep(lastSentGeneration, answers, i, samplesPerResponse);
      var answer := answers[i];
      i := i + 1;
      if !answer.ok {
        assert sent + [] == sent;
        return Internal, sent;
      }
      generation := answer.generation;
      if Past(generation, lastSentGeneration) < samplesPerResponse {
        continue;
      }
      if |sent| == accepts {
        assert all[..accepts] == sent;
        return Ok, sent;
      }
      Associate(sent, [Sent(generation, answer.metrics)], Forwarded(generation, answers[i..], samplesPerResponse));
      sent := sent + [Sent(generation, answer.metrics)];
      lastSentGeneration := generation;
    }
    NothingForwarded(lastSentGeneration, samplesPerResponse);
    assert answers[i..] == [];
    assert sent + [] == sent;
    status := Ok;
  }

  // ----- the divider -----

  /** `SamplesPerResponse` is the ceiling of the two intervals' quotient. */
  lemma CeilingIsExact(interval: nat, sampleInterval: nat)
    requires sampleInterval > 0 && interval > 0
    ensures var n := SamplesPerResponse(interval, sampleInterval);
      n >= 1 && (n - 1) * sampleInterval < interval <= n * sampleInterval
  {
    var n := SamplesPerResponse(interval, sampleInterval);
    var r := (interval + sampleInterval - 1) % sampleInterval;
    QuotientAndRemainder(interval + sampleInterval - 1, sampleInterval);
    assert n * sampleInterval + r == interval + sampleInterval - 1;
    assert (n - 1) * sampleInterval == n * sampleInterval - sampleInterval;
    Positive(n, sampleInterval);
  }

  lemma Positive(a: nat, b: nat)
    requires a * b > 0
    ensures a > 0
  {
  }

  lemma QuotientAndRemainder(a: nat, b: nat)
    requires b > 0
    ensures a / b * b + a % b == a && a % b < b
  {
  }

  /** Index of the first answer at least `every` generations past `last`, or the number of answers. */
  function NextDue(last: nat, answers: seq<Response>, every: nat): (k: nat)
    ensures k <= |answers|
    ensures k < |answers| ==> Past(answers[k].generation, last) >= every
    ensures forall j :: 0 <= j < k ==> Past(answers[j].generation, last) < every
  {
    if answers == [] || Past(answers[0].generation, last) >= every then 0 else 1 + NextDue(last, answers[1..], every)
  }

  /** What is forwarded after `last` is the first answer due, then what is forwarded after that one. */
  lemma {:induction false} ForwardsFirstDue(last: nat, answers: seq<Response>, every: nat)
    requires forall k :: 0 <= k < |answers| ==> answers[k].ok
    ensures var k := NextDue(last, answers, every);
      Forwarded(last, answers, every) ==
      if k == |answers| then []
      else [Sent(answers[k].generation, answers[k].metrics)] + Forwarded(answers[k].generation, answers[k + 1..], every)
  {
    hide Past;
    if answers != [] && Past(answers[0].generation, last) < every {
      ForwardsFirstDue(last, answers[1..], every);
      var k := NextDue(last, answers[1..], every);
      if k < |answers| - 1 {
        assert answers[1..][k + 1..] == answers[k + 2..];
      }
    }
  }

  /** Successive responses are at least `every` generations apart, hence cover the requested interval. */
  ghost predicate Spaced(last: nat, sent: seq<Sent>, interval: nat, sampleInterval: nat)
    decreases |sent|
  {
    sent == [] || (
      && sent[0].generation >= last
      && (sent[0].generation - last) * sampleInterval >= interval
      && Spaced(sent[0].generation, sent[1..], interval, sampleInterval))
  }

  lemma {:induction false} ResponsesCoverTheInterval(
    last: nat, seen: nat, answers: seq<Response>, interval: nat, sampleInterval: nat)
    requires sampleInterval > 0 && interval > 0
    requires last <= seen && Advancing(seen, answers)
    ensures Spaced(last, Forwarded(last, answers, SamplesPerResponse(interval, sampleInterval)), interval, sampleInterval)
    decreases |answers|
  {
    hide SamplesPerResponse;
    var every := SamplesPerResponse(interval, sampleInterval);
    CeilingIsExact(interval, sampleInterval);
    if answers != [] && answers[0].ok {
      var g := answers[0].generation;
      assert Past(g, last) == g - last;
      if g - last < every {
        ResponsesCoverTheInterval(last, g, answers[1..], interval, sampleInterval);
      } else {
        ResponsesCoverTheInterval(g, g, answers[1..], interval, sampleInterval);
        Monotone(every, g - last, sampleInterval);
        var rest := Forwarded(g, answers[1..], every);
        assert ([Sent(g, answers[0].metrics)] + rest)[1..] == rest;
      }
    }
  }

  lemma Monotone(a: nat, b: nat, c: nat)
    requires a <= b
    ensures a * c <= b * c
  {
  }

  /** A stream that misses no generation forwards exactly every n-th. */
  lemma {:induction false} ForwardsEveryNth(last: nat, seen: nat, answers: seq<Response>, every: nat)
    requires every >= 1 && last <= seen < last + every && seen + |answers| < WORD
    requires forall k :: 0 <= k < |answers| ==> answers[k].ok && answers[k].generation == seen + 1 + k
    ensures var sent := Forwarded(last, answers, every);
      && |sent| == (seen + |answers| - last) / every
      && forall j :: 0 <= j < |sent| ==> sent[j].generation == last + (j + 1) * every
    decreases |answers|
  {
    if answers != [] {
      var rest, g := answers[1..], answers[0].generation;
      assert forall k :: 0 <= k < |rest| ==> rest[k] == answers[k + 1];
      assert Past(g, last) == g - last;
      if g - last < every {
        ForwardsEveryNth(last, g, rest, every);
      } else {
        assert g == last + every;
        ForwardsEveryNth(g, g, rest, every);
        OneMoreQuotient(|rest|, every);
        var later := Forwarded(g, rest, every);
        var sent := Forwarded(last, answers, every);
        assert sent == [Sent(g, answers[0].metrics)] + later;
        forall j | 0 <= j < |sent| ensures sent[j].generation == last + (j + 1) * every {
          if j > 0 {
            assert sent[j] == later[j - 1];
            assert (j + 1) * every == j * every + every;
          }
        }
      }
    } else {
      SmallQuotient(seen - last, every);
    }
  }

  lemma OneMoreQuotient(a: nat, every: nat)
    requires every >= 1
    ensures (a + every) / every == a / every + 1
  {
    QuotientAndRemainder(a, every);
    QuotientAndRemainder(a + every, every);
    var q, r := (a + every) / every - a / every - 1, (a + every) % every - a % every;
    assert q * every + r == 0;
  }

  lemma SmallQuotient(a: nat, every: nat)
    requires a < every
    ensures a / every == 0
  {
  }

  /** The responses to a request of `requested` milliseconds, 1000 when it names none, are as far apart. */
  lemma ResponsesCoverTheRequest(requested: nat, sampleInterval: nat, first: Response, answers: seq<Response>)
    requires sampleInterval > 0 && Advancing(first.generation, answers)
    ensures var sent := Responses(requested, sampleInterval, first, answers);
      && sent != [] && sent[0] == Sent(first.generation, first.metrics)
      && Spaced(first.generation, sent[1..], if requested == 0 then 1000 else requested, sampleInterval)
  {
    hide Forwarded, SamplesPerResponse, Spaced, Advancing;
    ResponsesCoverTheInterval(first.generation, first.generation, answers, Interval(requested), sampleInterval);
    var later := Forwarded(first.generation, answers, SamplesPerResponse(Interval(requested), sampleInterval));
    assert ([Sent(first.generation, first.metrics)] + later)[1..] == later;
  }

  /** A stream that misses no generation shows every n-th, where n sampling periods are the first to cover the
      interval requested. */
  lemma EveryNthIsShown(requested: nat, sampleInterval: nat, first: Response, answers: seq<Response>)
    returns (every: nat)
    requires sampleInterval > 0 && first.generation + |answers| < WORD
    requires forall k :: 0 <= k < |answers| ==> answers[k].ok && answers[k].generation == first.generation + 1 + k
    ensures var wanted := if requested == 0 then 1000 else requested;
      every >= 1 && (every - 1) * sampleInterval < wanted <= every * sampleInterval
    ensures var sent := Responses(requested, sampleInterval, first, answers);
      && |sent| == 1 + |answers| / every
      && forall j :: 0 <= j < |sent| ==> sent[j].generation == first.generation + j * every
  {
    every := SamplesPerResponse(Interval(requested), sampleInterval);
    CeilingIsExact(Interval(requested), sampleInterval);
    hide SamplesPerResponse, Forwarded;
    var g := first.generation;
    ForwardsEveryNth(g, g, answers, every);
    var sent, later := Responses(requested, sampleInterval, first, answers), Forwarded(g, answers, every);
    forall j | 0 <= j < |sent| ensures sent[j].generation == g + j * every {
      if j > 0 {
        var i: nat := j - 1;
        assert later[i].generation == g + (i + 1) * every;
      }
    }
  }

  /** No accepted configuration makes the divider divide by zero. */
  lemma LoadedIntervalDivides(file: Option<string>, requested: nat)
    requires Config.Loaded(file).Success? && (requested == 0 || 1000 <= requested <= 60000)
    ensures var s, wanted := Config.Loaded(file).config.sampleIntervalMs, if requested == 0 then 1000 else requested;
      && 100 <= s <= 60000
      && var n := SamplesPerResponse(wanted, s);
         1 <= n <= 600 && (n - 1) * s < wanted <= n * s
  {
    hide Config.Loaded, ConfigLaws.Usable, SamplesPerResponse;
    ConfigLaws.LoadedIsUsable(file);
    var s := Config.Loaded(file).config.sampleIntervalMs;
    IntervalOfUsable(Config.Loaded(file).config);
    var wanted := if requested == 0 then 1000 else requested;
    CeilingIsExact(wanted, s);
    var n := SamplesPerResponse(wanted, s);
    if n > 600 {
      Monotone(600, n - 1, s);
    }
  }

  lemma IntervalOfUsable(c: Config.AgentConfig)
    requires ConfigLaws.Usable(c)
    ensures 100 <= c.sampleIntervalMs <= 60000
  {
  }

  // ----- the stream and the sampler together -----

  /** The sampler after the first `moment` events of its history. */
  function At(firstSample: Collected, events: seq<Event>, moment: nat): (s: State)
    requires moment <= |events|
  {
    Run(Initial(firstSample), events[..moment])
  }

  /** In one history of the sampler, each answer is what `WaitForNext` returns, at a moment no earlier than
      that of the answer before, to a caller holding the generation of that answer. */
  ghost predicate AnsweredBy(
    firstSample: Collected, events: seq<Event>, from: nat, moments: seq<nat>, last: nat, answers: seq<Response>)
    requires |moments| == |answers|
    decreases |answers|
  {
    answers == [] || (
      && from <= moments[0] <= |events|
      && var s := At(firstSample, events, moments[0]);
         && Enabled(s, Wait(last))
         && answers[0] == Awaited(s)
         && (answers[0].ok ==>
             AnsweredBy(firstSample, events, moments[0], moments[1..], answers[0].generation, answers[1..])))
  }

  lemma {:induction false} OutcomesOfConcat(a: seq<Event>, b: seq<Event>)
    ensures Outcomes(a + b) == Outcomes(a) + Outcomes(b)
  {
    if a == [] {
      assert a + b == b;
    } else {
      assert (a + b)[1..] == a[1..] + b;
      OutcomesOfConcat(a[1..], b);
      Associate(if a[0].Publish? then [a[0].outcome] else [], Outcomes(a[1..]), Outcomes(b));
    }
  }

  lemma EarlierIsPrefix(firstSample: Collected, events: seq<Event>, moment: nat)
    requires moment <= |events|
    ensures [firstSample] + Outcomes(events[..moment]) <= [firstSample] + Outcomes(events)
  {
    hide Outcomes;
    var early, late := events[..moment], events[moment..];
    assert events == early + late;
    OutcomesOfConcat(early, late);
    Associate([firstSample], Outcomes(early), Outcomes(late));
  }

  lemma FaithfulLater(r: Response, early: seq<Collected>, published: seq<Collected>)
    requires Faithful(r, early) && early <= published
    ensures Faithful(r, published)
  {
  }

  lemma NamedEarlier(firstSample: Collected, events: seq<Event>, moment: nat)
    requires moment <= |events| && ErrorsAreNamed(firstSample, events)
    ensures ErrorsAreNamed(firstSample, events[..moment])
  {
    EarlierIsPrefix(firstSample, events, moment);
    hide Outcomes;
    var early, published := [firstSample] + Outcomes(events[..moment]), [firstSample] + Outcomes(events);
    assert forall k :: 0 <= k < |early| ==> early[k] == published[k];
  }

  /** What holds of a moment in a history holds of the history. */
  lemma AnswerAtMoment(firstSample: Collected, events: seq<Event>, moment: nat, last: nat)
    requires moment <= |events| && 1 + |events| < WORD && ErrorsAreNamed(firstSample, events)
    ensures var s := At(firstSample, events, moment);
      var published := [firstSample] + Outcomes(events);
      && s.generation < WORD
      && (Latest(s).ok ==> Faithful(Latest(s), published))
      && (Awaited(s).ok && Enabled(s, Wait(last)) ==>
            Faithful(Awaited(s), published) && Awaited(s).generation > last)
  {
    NamedEarlier(firstSample, events, moment);
    EarlierIsPrefix(firstSample, events, moment);
    AnswersAreFaithful(firstSample, events[..moment], last);
    hide Run, Initial, Outcomes, Awaited, Latest, Enabled, Faithful, ErrorsAreNamed;
    var s := At(firstSample, events, moment);
    var early, published := [firstSample] + Outcomes(events[..moment]), [firstSample] + Outcomes(events);
    if Latest(s).ok {
      FaithfulLater(Latest(s), early, published);
    }
    if Awaited(s).ok && Enabled(s, Wait(last)) {
      FaithfulLater(Awaited(s), early, published);
    }
  }

  lemma {:induction false} SamplerAnswersAdvance(
    firstSample: Collected, events: seq<Event>, from: nat, moments: seq<nat>, last: nat, answers: seq<Response>)
    requires |moments| == |answers| && AnsweredBy(firstSample, events, from, moments, last, answers)
    requires 1 + |events| < WORD && ErrorsAreNamed(firstSample, events)
    ensures Advancing(last, answers)
    decreases |answers|
  {
    hide At, Awaited, Enabled, ErrorsAreNamed, Faithful;
    if answers != [] {
      AnswerAtMoment(firstSample, events, moments[0], last);
      AwaitedGeneration(At(firstSample, events, moments[0]));
      if answers[0].ok {
        SamplerAnswersAdvance(firstSample, events, moments[0], moments[1..], answers[0].generation, answers[1..]);
      }
    }
  }

  lemma AwaitedGeneration(s: State)
    ensures Awaited(s).generation == s.generation
  {
  }

  /** The response shows the sample published at its generation. */
  predicate ShowsSample(sent: Sent, published: seq<Collected>) {
    1 <= sent.generation <= |published| && published[sent.generation - 1] == Sampled(sent.metrics)
  }

  predicate AllShown(sent: seq<Sent>, published: seq<Collected>) {
    forall i :: 0 <= i < |sent| ==> ShowsSample(sent[i], published)
  }

  lemma NoneShown(published: seq<Collected>)
    ensures AllShown([], published)
  {
  }

  lemma MoreShown(head: Sent, rest: seq<Sent>, published: seq<Collected>)
    requires ShowsSample(head, published) && AllShown(rest, published)
    ensures AllShown([head] + rest, published)
  {
    hide ShowsSample;
  }

  lemma {:induction false} ForwardedSamplesAreFaithful(
    firstSample: Collected, events: seq<Event>, from: nat, moments: seq<nat>, last: nat, due: nat,
    answers: seq<Response>, every: nat)
    requires |moments| == |answers| && AnsweredBy(firstSample, events, from, moments, last, answers)
    requires 1 + |events| < WORD && ErrorsAreNamed(firstSample, events)
    ensures AllShown(Forwarded(due, answers, every), [firstSample] + Outcomes(events))
    decreases |answers|
  {
    hide At, Awaited, Enabled, ErrorsAreNamed, Outcomes, Past, AllShown;
    NoneShown([firstSample] + Outcomes(events));
    if answers != [] && answers[0].ok {
      var g := answers[0].generation;
      AnswerAtMoment(firstSample, events, moments[0], last);
      var next := if Past(g, due) < every then due else g;
      ForwardedSamplesAreFaithful(firstSample, events, moments[0], moments[1..], g, next, answers[1..], every);
      MoreShown(Sent(g, answers[0].metrics), Forwarded(next, answers[1..], every), [firstSample] + Outcomes(events));
    }
  }

  /** A stream whose first answer is `GetLatest` at some moment and whose others are those of `WaitForNext`
      after it writes nothing but samples, each under the generation at which this sampler published it. */
  lemma StreamedSamplesAreFaithful(
    firstSample: Collected, events: seq<Event>, moment: nat, moments: seq<nat>, answers: seq<Response>, every: nat)
    requires moment <= |events| && |moments| == |answers|
    requires 1 + |events| < WORD && ErrorsAreNamed(firstSample, events)
    requires Latest(At(firstSample, events, moment)).ok
    requires AnsweredBy(firstSample, events, moment, moments,
                        Latest(At(firstSample, events, moment)).generation, answers)
    ensures var first := Latest(At(firstSample, events, moment));
      var sent := [Sent(first.generation, first.metrics)] + Forwarded(first.generation, answers, every);
      AllShown(sent, [firstSample] + Outcomes(events))
  {
    hide At, Latest, ErrorsAreNamed, AnsweredBy, AllShown, Forwarded, Outcomes;
    var first := Latest(At(firstSample, events, moment));
    AnswerAtMoment(firstSample, events, moment, 0);
    ForwardedSamplesAreFaithful(
      firstSample, events, moment, moments, first.generation, first.generation, answers, every);
    var published := [firstSample] + Outcomes(events);
    MoreShown(Sent(first.generation, first.metrics), Forwarded(first.generation, answers, every), published);
  }

  predicate Shows(sent: Sent, answer: Response) {
    sent.generation == answer.generation && sent.metrics == answer.metrics
  }

  /** Every response forwarded is one of the answers, metrics and generation together. */
  lemma {:induction false} ForwardedComesFromAnswers(last: nat, answers: seq<Response>, every: nat, i: nat)
    requires i < |Forwarded(last, answers, every)|
    ensures exists k :: 0 <= k < |answers| && answers[k].ok && Shows(Forwarded(last, answers, every)[i], answers[k])
    decreases |answers|
  {
    hide Past;
    var due := Past(answers[0].generation, last) >= every;
    if due && i == 0 {
      assert answers[0].ok;
    } else {
      var from, j := if due then answers[0].generation else last, if due then i - 1 else i;
      ForwardedComesFromAnswers(from, answers[1..], every, j);
      var later := Forwarded(from, answers[1..], every);
      var k :| 0 <= k < |answers[1..]| && answers[1..][k].ok && Shows(later[j], answers[1..][k]);
      assert answers[k + 1] == answers[1..][k];
    }
  }
}
