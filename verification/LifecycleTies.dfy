/** Exactly when a repeated event changes more than timestamps, and a run in which it does. */
module LifecycleTies {
  import opened Api
  import opened Evaluator
  import opened Operations
  import opened Lifecycle
  import opened LifecycleSafety
  import opened LifecycleOutcome
  import opened LifecycleLabels
  import opened LifecycleSteady
  import opened LifecycleDebounce
  import opened LifecycleRepeat

  /** However the event is handled, it changes timestamps only. */
  ghost predicate ChangesOnlyTimes(config: Config, cel: Cel, e: Event, w: World) {
    forall w' {:trigger Step(config, cel, e, w, w')} :: Step(config, cel, e, w, w') ==> SameButTimesAll(w, w')
  }

  // ----- one way to handle the event again

  /** Detection never takes names back, and while it gives out none it keeps what labels select. */
  lemma {:induction false} TraceGrows(c: Context, desired: seq<Ifo>, trace: seq<World>, labels: Labels, i: nat)
    requires DetectionPass(c, desired, true, trace) && i < |trace|
    ensures trace[0].next <= trace[i].next
    ensures trace[i].next == trace[0].next ==> SameShape(labels, trace[0].store, trace[i].store)
  {
    if i > 0 {
      TraceGrows(c, desired, trace, labels, i - 1);
      StepGrows(c, desired[i - 1], trace[i - 1], trace[i], labels);
    }
  }

  lemma StepGrows(c: Context, d: Ifo, w: World, w': World, labels: Labels)
    requires DetectStep(c, d, true, w, w')
    ensures w.next <= w'.next
    ensures w'.next == w.next ==> SameShape(labels, w.store, w'.store)
  {
    if w'.next == w.next {
      var n :| Reuses(c, d, w.store, n) && w' == w.(store := w.store[n := c.Redetected(w.store[n], d)]);
      assert forall a :: a in w'.store <==> a in w.store;
    }
  }

  /** The completion pass and the first k detect steps of handling e. */
  ghost predicate Begun(config: Config, cel: Cel, e: Event, w: World, k: nat, front: seq<World>)
    requires e.Handled?
  {
    var c, desired := ContextOf(config, e), DesiredBy(cel, e);
    && k <= |desired| && DetectionPass(c, desired[..k], true, front) && front[0].next == w.next
    && CompletionPass(c, OperationNames(desired), true, w.store, front[0].store)
  }

  lemma BeginsSomehow(config: Config, cel: Cel, e: Event, w: World, k: nat) returns (front: seq<World>)
    requires e.Handled? && k <= |DesiredBy(cel, e)|
    ensures Begun(config, cel, e, w, k, front)
  {
    var c, desired := ContextOf(config, e), DesiredBy(cel, e);
    var s := CompletionHappens(c, OperationNames(desired), w.store);
    front := DetectionHappens(c, desired[..k], World(s, w.next));
  }

  /** Any next step can be followed by the rest of the event. */
  lemma EndsSomehow(config: Config, cel: Cel, e: Event, w: World, k: nat, front: seq<World>, next: World)
    returns (rest: seq<World>)
    requires e.Handled? && e.clean && e.ruleSets != [] && Begun(config, cel, e, w, k, front)
    requires k < |DesiredBy(cel, e)| && DetectStep(ContextOf(config, e), DesiredBy(cel, e)[k], true, front[k], next)
    ensures DetectionPass(ContextOf(config, e), DesiredBy(cel, e)[k + 1..], true, rest) && rest[0] == next
    ensures Step(config, cel, e, w, rest[|rest| - 1])
  {
    var c, desired := ContextOf(config, e), DesiredBy(cel, e);
    rest := DetectionHappens(c, desired[k + 1..], next);
    var trace := front + rest;
    PassJoins(c, desired, k, front, rest);
    assert HandleTrace(config, cel, e, w, rest[|rest| - 1], trace);
  }

  lemma PassJoins(c: Context, desired: seq<Ifo>, k: nat, front: seq<World>, rest: seq<World>)
    requires k < |desired| && DetectionPass(c, desired[..k], true, front)
    requires DetectionPass(c, desired[k + 1..], true, rest) && DetectStep(c, desired[k], true, front[k], rest[0])
    ensures DetectionPass(c, desired, true, front + rest)
  {
    var trace := front + rest;
    forall i | 0 <= i < |desired|
      ensures DetectStep(c, desired[i], true, trace[i], trace[i + 1])
    {
      if i < k {
        assert desired[..k][i] == desired[i];
      } else if i > k {
        assert desired[k + 1..][i - k - 1] == desired[i];
      }
    }
  }

  // ----- the exact condition

  /** When no handling creates an IFO, the steps so far have not either. */
  lemma QuietSoFar(config: Config, cel: Cel, e: Event, w: World, k: nat, front: seq<World>, labels: Labels)
    requires e.Handled? && e.clean && e.ruleSets != [] && ChangesOnlyTimes(config, cel, e, w)
    requires k < |DesiredBy(cel, e)| && Begun(config, cel, e, w, k, front)
    ensures front[k].next == w.next && SameShape(labels, front[0].store, front[k].store)
  {
    var c, desired := ContextOf(config, e), DesiredBy(cel, e);
    var next := DetectHappens(c, desired[k], front[k]);
    var rest := EndsSomehow(config, cel, e, w, k, front, next);
    TraceGrows(c, desired[..k], front, labels, k);
    StepGrows(c, desired[k], front[k], next, labels);
    TraceGrows(c, desired[k + 1..], rest, labels, |rest| - 1);
  }

  /** So the newest IFOs are the same at every step. */
  lemma QuietKeepsNewest(
    config: Config, cel: Cel, e: Event, w: World, k: nat, front: seq<World>, n: Name)
    requires e.Handled? && e.clean && e.ruleSets != [] && Good(w, e.now) && ChangesOnlyTimes(config, cel, e, w)
    requires k < |DesiredBy(cel, e)| && Begun(config, cel, e, w, k, front)
    requires Newest(w.store, DesiredBy(cel, e)[k].labels, n)
    ensures Newest(front[k].store, DesiredBy(cel, e)[k].labels, n) && front[k].next == w.next
  {
    var d := DesiredBy(cel, e)[k];
    QuietSoFar(config, cel, e, w, k, front, d.labels);
    DesiredShape(e.subject, Results(cel, e.subject, e.ruleSets));
    CompletionSpares(ContextOf(config, e), DesiredBy(cel, e), d, true, w.store, front[0].store);
    SameNewest(d.labels, w.store, front[0].store);
    SameNewest(d.labels, front[0].store, front[k].store);
  }

  lemma {:induction false} TraceKeepsDetected(
    c: Context, desired: seq<Ifo>, trace: seq<World>, d: Ifo, n: Name, i: nat)
    requires DetectionPass(c, desired, true, trace) && i < |trace| && DetectedAs(c, trace[0].store, d, n)
    requires Good(trace[0], c.now) && forall x <- desired :: Indexed(x)
    ensures DetectedAs(c, trace[i].store, d, n)
  {
    if i > 0 {
      TraceKeepsDetected(c, desired, trace, d, n, i - 1);
      TraceKeepsGood(c, desired, true, trace, i - 1);
      var t := DetectTouchesOne(c, desired[i - 1], true, trace[i - 1], trace[i]);
    }
  }

  lemma BegunIsGood(config: Config, cel: Cel, e: Event, w: World, k: nat, front: seq<World>)
    requires e.Handled? && Good(w, e.now) && Begun(config, cel, e, w, k, front)
    ensures Good(front[k], e.now) && forall x <- DesiredBy(cel, e) :: Indexed(x)
  {
    var c, desired := ContextOf(config, e), DesiredBy(cel, e);
    DesiredShape(e.subject, Results(cel, e.subject, e.ruleSets));
    CompletionKeepsGood(c, OperationNames(desired), true, w, front[0]);
    TraceKeepsGood(c, desired[..k], true, front, k);
  }

  lemma QuietIsNotPast(
    config: Config, cel: Cel, e: Event, w: World, k: nat, front: seq<World>, n: Name)
    requires e.Handled? && e.clean && e.ruleSets != [] && Good(w, e.now) && ChangesOnlyTimes(config, cel, e, w)
    requires k < |DesiredBy(cel, e)| && Begun(config, cel, e, w, k, front)
    requires Newest(front[k].store, DesiredBy(cel, e)[k].labels, n) && front[k].next == w.next
    ensures !ContextOf(config, e).Past(front[k].store[n])
  {
    var c, desired := ContextOf(config, e), DesiredBy(cel, e);
    var d, now := desired[k], front[k];
    if c.Past(now.store[n]) {
      var next := World(now.store[now.next := c.Redetected(c.Created(d, now.next), d)], now.next + 1);
      assert NeedsFresh(c, d, now.store);
      var rest := EndsSomehow(config, cel, e, w, k, front, next);
      TraceGrows(c, desired[k + 1..], rest, d.labels, |rest| - 1);
    }
  }

  /** Each newest IFO can be the one that the event detects. */
  lemma NewestCanBeDetected(
    config: Config, cel: Cel, e: Event, w: World, k: nat, front: seq<World>, n: Name) returns (w': World)
    requires e.Handled? && e.clean && e.ruleSets != [] && Good(w, e.now)
    requires k < |DesiredBy(cel, e)| && Begun(config, cel, e, w, k, front)
    requires Reuses(ContextOf(config, e), DesiredBy(cel, e)[k], front[k].store, n)
    ensures Step(config, cel, e, w, w') && DetectedAs(ContextOf(config, e), w'.store, DesiredBy(cel, e)[k], n)
  {
    var c, desired := ContextOf(config, e), DesiredBy(cel, e);
    var d, now := desired[k], front[k];
    BegunIsGood(config, cel, e, w, k, front);
    var next := now.(store := now.store[n := c.Redetected(now.store[n], d)]);
    MatchIsSameKey(d, now.store[n]);
    IndexedSelectsOwn(d, now.store);
    DetectKeepsGood(c, d, true, now, next);
    var rest := EndsSomehow(config, cel, e, w, k, front, next);
    TraceKeepsDetected(c, desired[k + 1..], rest, d, n, |rest| - 1);
    w' := rest[|rest| - 1];
  }

  lemma QuietMeansDetected(config: Config, cel: Cel, e: Event, w: World, d: Ifo, n: Name)
    requires e.Handled? && e.clean && e.ruleSets != [] && Good(w, e.now) && ChangesOnlyTimes(config, cel, e, w)
    requires d in DesiredBy(cel, e) && Newest(w.store, d.labels, n)
    ensures StaysDetected(ContextOf(config, e), d, w.store[n])
  {
    var k :| 0 <= k < |DesiredBy(cel, e)| && DesiredBy(cel, e)[k] == d;
    var front := BeginsSomehow(config, cel, e, w, k);
    QuietKeepsNewest(config, cel, e, w, k, front, n);
    QuietIsNotPast(config, cel, e, w, k, front, n);
    var w' := NewestCanBeDetected(config, cel, e, w, k, front, n);
    assert SameButTimes(w.store[n], w'.store[n]);
  }

  /** After a clean event, repeating it changes only timestamps, whichever of the newest IFOs it picks, if and
      only if each of these is active, detected by its ruleset, and at the subject's generation. */
  lemma RepeatsExactly(config: Config, cel: Cel, e: Event, e': Event, w: World, w': World, before: Time)
    requires e.Handled? && e.clean && e' == e.(now := e'.now) && before <= e.now <= e'.now && Good(w, before)
    requires Step(config, cel, e, w, w')
    ensures ChangesOnlyTimes(config, cel, e', w') <==>
      NewestDetected(ContextOf(config, e), DesiredBy(cel, e), w'.store)
  {
    if NewestDetected(ContextOf(config, e), DesiredBy(cel, e), w'.store) {
      forall w'' | Step(config, cel, e', w', w'')
        ensures SameButTimesAll(w', w'')
      {
        DetectedRepeats(config, cel, e, e', w, w', w'', before);
      }
    }
    if ChangesOnlyTimes(config, cel, e', w') && e.ruleSets != [] {
      StepKeepsGood(config, cel, e, w, w', before);
      GoodLater(w', e.now, e'.now);
      forall d, n | d in DesiredBy(cel, e) && Newest(w'.store, d.labels, n)
        ensures StaysDetected(ContextOf(config, e), d, w'.store[n])
      {
        QuietMeansDetected(config, cel, e', w', d, n);
      }
    }
  }

  // ----- a run in which a repeated event changes more

  const PlainRules := LabelRules.(spec := LabelRules.spec.(labelExpressions := []))

  const LaterPod := PodWith(0).(generation := 2)

  const PlainIfo := Build(LaterPod, "Starting", PlainRules, map[])

  const PlainEvent := Handled(LaterPod, [PlainRules], 0, true)

  lemma PodOnly(content: Content)
    ensures DesiredBy(LabelCel, PodEvent(content, 0)) == [PodIfo(content)]
  {
    var pod, r := PodWith(content), RuleSetResult(LabelRules, ["Starting"], map["k" := LabelValue(content)]);
    PodIsLabelled(content);
    ResultsOfOne(LabelCel, pod, LabelRules, r);
    DesiredOfOne(pod, r);
    BuiltOfOne(pod, r, "Starting");
  }

  lemma PlainOnly()
    ensures DesiredBy(LabelCel, PlainEvent) == [PlainIfo]
  {
    var r := RuleSetResult(PlainRules, ["Starting"], map[]);
    assert "x" != "y";
    MatchedOfOne(LabelCel, 0, Rule("Starting", "x"), true);
    assert DynamicLabels(LabelCel, 0, []) == map[];
    ResultsOfOne(LabelCel, LaterPod, PlainRules, r);
    DesiredOfOne(LaterPod, r);
    BuiltOfOne(LaterPod, r, "Starting");
  }

  /** Labels without those of the expression select an IFO that has them. */
  lemma PlainSelects(content: Content)
    ensures Matches(PlainIfo.labels, PodIfo(content).labels)
  {
    assert SubjectLabels(LaterPod) == SubjectLabels(PodWith(content));
    assert OwnerLabels(LaterPod) == OwnerLabels(PodWith(content)) == map[];
  }

  /** A run at time 0 goes on with an event that desires one IFO, while everything stored is of that operation. */
  lemma OneDetection(config: Config, cel: Cel, states: seq<World>, events: seq<Event>, e: Event, d: Ifo, w': World)
    requires IsRun(config, cel, states, events) && e.now == 0 && forall x <- events :: x.now == 0
    requires e.Handled? && e.clean && e.ruleSets != [] && DesiredBy(cel, e) == [d]
    requires var s := states[|events|].store; forall n <- s :: s[n].spec.operation == d.spec.operation
    requires DetectStep(ContextOf(config, e), d, true, states[|events|], w')
    ensures IsRun(config, cel, states + [w'], events + [e])
  {
    var w := states[|events|];
    assert d in [d];
    assert HandleTrace(config, cel, e, w, w', [w, w']);
    RunExtends(config, cel, states, events, e, w');
  }

  lemma RunExtends(config: Config, cel: Cel, states: seq<World>, events: seq<Event>, e: Event, w': World)
    requires IsRun(config, cel, states, events) && Step(config, cel, e, states[|events|], w')
    requires forall x <- events :: x.now <= e.now
    ensures IsRun(config, cel, states + [w'], events + [e])
  {
    var states', events' := states + [w'], events + [e];
    forall i | 0 <= i < |events'|
      ensures Step(config, cel, events'[i], states'[i], states'[i + 1])
    {
      assert i < |events| ==> events'[i] == events[i];
    }
  }

  function Stored(config: Config, content: Content, n: Name): Ifo {
    var c := ContextOf(config, PodEvent(content, 0));
    c.Redetected(c.Created(PodIfo(content), n), PodIfo(content))
  }

  function Redone(config: Config, ifo: Ifo): Ifo {
    ContextOf(config, PlainEvent).Redetected(ifo, PlainIfo)
  }

  /** Everything stored was created at time 0, is live, and is selected by the plain labels. */
  ghost predicate AllTied(s: Store) {
    forall n <- s ::
      && Matches(PlainIfo.labels, s[n].labels) && s[n].spec.operation == "Starting"
      && s[n].created == 0 && s[n].status.completed.None?
  }

  function Redo(config: Config, w: World, n: Name): World
    requires n in w.store
  {
    w.(store := w.store[n := Redone(config, w.store[n])])
  }

  lemma PlainExtends(config: Config, states: seq<World>, events: seq<Event>, n: Name)
    requires IsRun(config, LabelCel, states, events) && forall x <- events :: x.now == 0
    requires var s := states[|events|].store; AllTied(s) && n in s
    ensures var w' := Redo(config, states[|events|], n);
      AllTied(w'.store) && IsRun(config, LabelCel, states + [w'], events + [PlainEvent])
  {
    var w := states[|events|];
    PlainOnly();
    assert Reuses(ContextOf(config, PlainEvent), PlainIfo, w.store, n);
    OneDetection(config, LabelCel, states, events, PlainEvent, PlainIfo, Redo(config, w, n));
  }

  function Add(config: Config, w: World, content: Content): World {
    World(w.store[w.next := Stored(config, content, w.next)], w.next + 1)
  }

  lemma PodExtends(config: Config, states: seq<World>, events: seq<Event>, content: Content)
    requires IsRun(config, LabelCel, states, events) && forall x <- events :: x.now == 0
    requires var s := states[|events|].store;
      forall n <- s :: s[n].spec.operation == "Starting" && !Matches(PodIfo(content).labels, s[n].labels)
    ensures IsRun(config, LabelCel, states + [Add(config, states[|events|], content)], events + [PodEvent(content, 0)])
  {
    var w := states[|events|];
    PodOnly(content);
    assert NeedsFresh(ContextOf(config, PodEvent(content, 0)), PodIfo(content), w.store);
    OneDetection(config, LabelCel, states, events, PodEvent(content, 0), PodIfo(content), Add(config, w, content));
  }

  const TiedEvents := [PodEvent(0, 0)] + [PodEvent(1, 0)]

  lemma TwoTied(config: Config) returns (states: seq<World>)
    ensures IsRun(config, LabelCel, states, TiedEvents)
    ensures var s := states[2].store; s.Keys == {1, 2} && s[2] == Stored(config, 1, 2) && AllTied(s)
  {
    var w1 := Add(config, Empty, 0);
    var w2 := Add(config, w1, 1);
    PodLabelsApart();
    assert IsRun(config, LabelCel, [Empty], []);
    PodExtends(config, [Empty], [], 0);
    assert [] + [PodEvent(0, 0)] == [PodEvent(0, 0)];
    PodExtends(config, [Empty] + [w1], [PodEvent(0, 0)], 1);
    states := [Empty] + [w1] + [w2];
    StoredAreTied(config, w2.store);
  }

  lemma StoredAreTied(config: Config, s: Store)
    requires forall n <- s :: s[n] == Stored(config, 0, n) || s[n] == Stored(config, 1, n)
    ensures AllTied(s)
  {
    PlainSelects(0);
    PlainSelects(1);
  }

  /** The label expression gives two values within one second, so two IFOs tie; then it is dropped and the
      subject reaches a new generation. Handling that once updates one IFO, handling it again the other. */
  lemma TiesFail(config: Config) returns (states: seq<World>)
    ensures IsRun(config, LabelCel, states, TiedEvents + [PlainEvent] + [PlainEvent])
    ensures !SameButTimesAll(states[3], states[4])
  {
    var tied := TwoTied(config);
    PlainExtends(config, tied, TiedEvents, 1);
    var w3 := Redo(config, tied[2], 1);
    PlainExtends(config, tied + [w3], TiedEvents + [PlainEvent], 2);
    states := tied + [w3] + [Redo(config, w3, 2)];
    assert !SameButTimes(w3.store[2], Redone(config, w3.store[2]));
  }
}
