/** Why the threshold must be positive: a run with a threshold of zero and fixed labels that leaves two
    live IFOs. */
module LifecycleThreshold {
  import opened Prelude
  import opened Api
  import opened Evaluator
  import opened Operations
  import opened Lifecycle
  import opened LifecycleSafety
  import opened LifecycleOutcome
  import opened LifecycleLabels
  import opened LifecycleMisses

  /** An expression language in which every expression holds of content 1 and of nothing else. */
  const AnyCel := Cel(_ => Some(Program(0)), (_, content) => Some(BoolValue(content == 1)))

  const OneRule := RuleSetOf("rules", GroupVersionResource("", "v1", "pods"),
    RuleSetSpec("", [Rule("Starting", "x")], [], map[], []))

  function Pod(content: Content): Subject {
    Subject("v1", "Pod", "pod", "default", "uid", 1, [], content)
  }

  const Wanted := Build(Pod(1), "Starting", OneRule, map[])

  function PodOperations(content: Content): seq<string> {
    if content == 1 then ["Starting"] else []
  }

  lemma PodResult(content: Content)
    ensures FreshResult(AnyCel, Pod(content), OneRule) == Some(RuleSetResult(OneRule, PodOperations(content), map[]))
  {
    assert FreshValue(AnyCel, content, "x") == Some(BoolValue(content == 1));
    MatchedOfOne(AnyCel, content, Rule("Starting", "x"), content == 1);
  }

  lemma PodResults(content: Content)
    ensures Desired(Pod(content), Results(AnyCel, Pod(content), [OneRule])) == if content == 1 then [Wanted] else []
  {
    var pod, r := Pod(content), RuleSetResult(OneRule, PodOperations(content), map[]);
    PodResult(content);
    ResultsOfOne(AnyCel, pod, OneRule, r);
    DesiredOfOne(pod, r);
    if content == 1 {
      BuiltOfOne(pod, r, "Starting");
    }
  }

  function PodEvent(content: Content, clean: bool): Event {
    Handled(Pod(content), [OneRule], 0, clean)
  }

  /** Detected, missed, detected, detected: all within one second. */
  function Events(config: Config): seq<Event> {
    [PodEvent(1, true), PodEvent(0, config.retain), PodEvent(1, true), PodEvent(1, true)]
  }

  lemma PodIsDesired(content: Content, clean: bool)
    ensures DesiredBy(AnyCel, PodEvent(content, clean)) == if content == 1 then [Wanted] else []
  {
    PodResults(content);
  }

  lemma PodMisses(clean: bool)
    ensures Misses(AnyCel, PodEvent(0, clean), Wanted)
  {
    PodIsDesired(0, clean);
    BuildIsIndexed(Pod(1), "Starting", OneRule, map[]);
  }

  lemma PodLabelsFixed(content: Content, clean: bool)
    ensures LabelsFixed(AnyCel, _ => Wanted.labels, PodEvent(content, clean))
  {
    PodIsDesired(content, clean);
  }

  lemma EventsFixed(config: Config)
    ensures forall e <- Events(config) :: LabelsFixed(AnyCel, _ => Wanted.labels, e)
  {
    PodLabelsFixed(1, true);
    PodLabelsFixed(0, config.retain);
  }

  /** Without a positive threshold these four events, all with the same labels, leave two active IFOs. */
  lemma ZeroThresholdFails(config: Config) returns (states: seq<World>, n: Name, m: Name)
    requires config.threshold <= 0
    ensures FixedRun(config, AnyCel, _ => Wanted.labels, states, Events(config))
    ensures SameOperation(states[4].store, n, m)
    ensures states[4].store[n].status.phase == states[4].store[m].status.phase == Active
  {
    EventsFixed(config);
    PodIsDesired(1, true);
    PodMisses(config.retain);
    states, n, m := MissedTwoLive(config, AnyCel, PodEvent(1, true), PodEvent(0, config.retain), Wanted);
  }

  /** Exactly the positive thresholds keep one live IFO per operation whenever labels are fixed. */
  lemma ThresholdDecidesSafety(config: Config)
    ensures config.threshold > 0 <==>
      forall cel, allowed, labelsOf {:trigger AllFixed(cel, allowed, labelsOf), KeepsOneLive(config, cel, allowed)} ::
        AllFixed(cel, allowed, labelsOf) ==> KeepsOneLive(config, cel, allowed)
  {
    if config.threshold > 0 {
      forall cel, allowed, labelsOf | AllFixed(cel, allowed, labelsOf)
        ensures KeepsOneLive(config, cel, allowed)
      {
        FixedKeepsOneLive(config, cel, allowed, labelsOf);
      }
    } else {
      var states, n, m := ZeroThresholdFails(config);
      var allowed, labelsOf := e => e in Events(config), _ => Wanted.labels;
      assert AllFixed(AnyCel, allowed, labelsOf);
      if KeepsOneLive(config, AnyCel, allowed) {
        AllowedRunIsSafe(config, AnyCel, allowed, states, Events(config), 4);
      }
    }
  }
}
