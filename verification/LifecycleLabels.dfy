/** When labels change: which sets of events keep one live IFO per operation. */
module LifecycleLabels {
  import opened Api
  import opened Evaluator
  import opened Operations
  import opened Lifecycle
  import opened LifecycleSafety
  import opened LifecycleOutcome
  import RuleIndex

  /** At most one IFO of each operation is not completed. */
  ghost predicate OneLive(s: Store) {
    forall a, b {:trigger SameOperation(s, a, b)} :: SameOperation(s, a, b) ==>
      s[a].status.phase == Completed || s[b].status.phase == Completed
  }

  /** Every run of allowed events keeps one live IFO per operation, whichever calls fail. */
  ghost predicate KeepsOneLive(config: Config, cel: Cel, allowed: Event -> bool) {
    forall states: seq<World>, events, i: nat ::
      IsRun(config, cel, states, events) && (forall e <- events :: allowed(e)) && i < |states| ==>
        OneLive(states[i].store)
  }

  /** The labels of an operation are the same whenever an allowed event detects it. */
  ghost predicate AllFixed(cel: Cel, allowed: Event -> bool, labelsOf: OperationKey -> Labels) {
    forall e :: allowed(e) ==> LabelsFixed(cel, labelsOf, e)
  }

  function At(e: Event, now: Time, clean: bool): Event {
    match e
    case Handled(subject, ruleSets, _, _) => Handled(subject, ruleSets, now, clean)
    case Deleted(subject, _, _) => Deleted(subject, now, clean)
  }

  /** What is allowed does not depend on the clock or on failing calls. */
  ghost predicate Timeless(allowed: Event -> bool) {
    forall e, now, clean {:trigger At(e, now, clean)} :: allowed(e) ==> allowed(At(e, now, clean))
  }

  /** The rule cache holds one ruleset per name and target. */
  ghost predicate NamesDiffer(ruleSets: seq<OperationRuleSet>) {
    forall r <- ruleSets, r' <- ruleSets :: r.name == r'.name ==> r == r'
  }

  ghost predicate EventsNamed(allowed: Event -> bool) {
    forall e :: allowed(e) && e.Handled? ==> NamesDiffer(e.ruleSets)
  }

  /** What the rule cache lists for a target, whatever calls were made, is named apart. */
  lemma CachedNamesDiffer(
    s: RuleIndex.State<GroupVersionResource, string, RuleSetSpec>,
    m: RuleIndex.RuleMap<GroupVersionResource, string, RuleSetSpec>, gvr: GroupVersionResource)
    requires RuleIndex.Stands(s, m)
    ensures NamesDiffer(RuleIndex.Get(s.index, gvr))
  {
    var rules := RuleIndex.Get(s.index, gvr);
    if gvr in s.index {
      assert RuleIndex.Lists(m, gvr, rules);
      forall i, j | 0 <= i < |rules| && 0 <= j < |rules| && rules[i].name == rules[j].name
        ensures i == j
      {
        assert !RuleIndex.SameName(rules, i, j) && !RuleIndex.SameName(rules, j, i);
      }
    }
  }

  // ----- fixed labels suffice

  lemma TimeAfter(events: seq<Event>, i: nat) returns (now: Time)
    requires i <= |events| && forall a, b :: 0 <= a < b < |events| ==> events[a].now <= events[b].now
    ensures After(events[..i], now)
  {
    now := if i == 0 then 0 else events[i - 1].now;
  }

  lemma NewestIsOneLive(threshold: int, s: Store, now: Time)
    requires OnlyNewestLive(threshold, s, now)
    ensures OneLive(s)
  {
  }

  lemma FixedRunIsOneLive(
    config: Config, cel: Cel, labelsOf: OperationKey -> Labels, states: seq<World>, events: seq<Event>, i: nat)
    requires config.threshold > 0 && FixedRun(config, cel, labelsOf, states, events) && i < |states|
    ensures OneLive(states[i].store)
  {
    var now := TimeAfter(events, i);
    OnlyNewestIsLive(config, cel, labelsOf, states, events, i, now);
    NewestIsOneLive(config.threshold, states[i].store, now);
  }

  lemma FixedKeepsOneLive(config: Config, cel: Cel, allowed: Event -> bool, labelsOf: OperationKey -> Labels)
    requires config.threshold > 0 && AllFixed(cel, allowed, labelsOf)
    ensures KeepsOneLive(config, cel, allowed)
  {
    forall states: seq<World>, events: seq<Event>, i: nat
      | IsRun(config, cel, states, events) && (forall e <- events :: allowed(e)) && i < |states|
      ensures OneLive(states[i].store)
    {
      FixedRunIsOneLive(config, cel, labelsOf, states, events, i);
    }
  }

  // ----- clean events can always happen

  lemma NewestExists(s: Store, selector: Labels, m: Name) returns (n: Name)
    requires m in s && Matches(selector, s[m].labels)
    ensures Newest(s, selector, n)
  {
    n := m;
    var todo := s.Keys;
    while todo != {}
      invariant n in s && Matches(selector, s[n].labels) && todo <= s.Keys
      invariant forall k <- s :: k !in todo && Matches(selector, s[k].labels) ==> s[k].created <= s[n].created
    {
      var k :| k in todo;
      if Matches(selector, s[k].labels) && s[k].created > s[n].created {
        n := k;
      }
      todo := todo - {k};
    }
  }

  lemma DetectHappens(c: Context, d: Ifo, w: World) returns (w': World)
    ensures DetectStep(c, d, true, w, w')
  {
    var created := World(w.store[w.next := c.Redetected(c.Created(d, w.next), d)], w.next + 1);
    if m :| m in w.store && Matches(d.labels, w.store[m].labels) {
      var n := NewestExists(w.store, d.labels, m);
      w' := if c.Past(w.store[n]) then created else w.(store := w.store[n := c.Redetected(w.store[n], d)]);
      assert c.Past(w.store[n]) || Reuses(c, d, w.store, n);
    } else {
      w' := created;
    }
  }

  lemma {:induction false} DetectionHappens(c: Context, desired: seq<Ifo>, w: World) returns (trace: seq<World>)
    ensures DetectionPass(c, desired, true, trace) && trace[0] == w
  {
    if desired == [] {
      trace := [w];
    } else {
      var front, last := desired[..|desired| - 1], desired[|desired| - 1];
      var before := DetectionHappens(c, front, w);
      var w' := DetectHappens(c, last, before[|front|]);
      trace := before + [w'];
      forall i | 0 <= i < |desired|
        ensures DetectStep(c, desired[i], true, trace[i], trace[i + 1])
      {
        assert i < |front| ==> front[i] == desired[i];
      }
    }
  }

  lemma CompletionHappens(c: Context, detected: set<string>, s: Store) returns (s': Store)
    ensures CompletionPass(c, detected, true, s, s')
  {
    s' := map n | n in s && (!Missed(c, detected, s[n]) || c.config.retain) ::
      if Missed(c, detected, s[n]) then c.Completed(s[n]) else s[n];
  }

  lemma HandlingHappens(config: Config, cel: Cel, e: Event, w: World) returns (w': World)
    requires e.Handled? && e.clean && e.ruleSets != []
    ensures Step(config, cel, e, w, w')
  {
    var c, desired := ContextOf(config, e), DesiredBy(cel, e);
    var s := CompletionHappens(c, OperationNames(desired), w.store);
    var trace := DetectionHappens(c, desired, World(s, w.next));
    w' := trace[|trace| - 1];
    assert HandleTrace(config, cel, e, w, w', trace);
  }

  // ----- one event gives an operation one set of labels

  lemma {:induction false} DesiredIsBuilt(
      subject: Subject, results: seq<RuleSetResult>, d: Ifo)
    returns (r: RuleSetResult)
    requires d in Desired(subject, results)
    ensures r in results && d == Build(subject, d.spec.operation, r.ruleSet, r.labels)
  {
    var front, last := results[..|results| - 1], results[|results| - 1];
    if d in Desired(subject, front) {
      r := DesiredIsBuilt(subject, front, d);
    } else {
      r := last;
    }
  }

  lemma OneEventAgrees(cel: Cel, e: Event, d: Ifo, d': Ifo)
    requires e.Handled? && NamesDiffer(e.ruleSets)
    requires d in DesiredBy(cel, e) && d' in DesiredBy(cel, e) && Key(d) == Key(d')
    ensures d.labels == d'.labels
  {
    var results := Results(cel, e.subject, e.ruleSets);
    var r := DesiredIsBuilt(e.subject, results, d);
    var r' := DesiredIsBuilt(e.subject, results, d');
    ResultsMeaning(cel, e.subject, e.ruleSets, r);
    ResultsMeaning(cel, e.subject, e.ruleSets, r');
    assert r.ruleSet.name == d.spec.ruleSet == d'.spec.ruleSet == r'.ruleSet.name;
  }

  // ----- two sets of labels make two live IFOs

  /** The stored IFOs of an operation all have these labels. */
  ghost predicate Labelled(key: OperationKey, labels: Labels, s: Store) {
    forall n <- s :: Key(s[n]) == key ==> s[n].labels == labels
  }

  lemma {:induction false} TraceLabels(
    c: Context, desired: seq<Ifo>, key: OperationKey, labels: Labels, trace: seq<World>, i: nat)
    requires DetectionPass(c, desired, true, trace) && i < |trace| && Labelled(key, labels, trace[0].store)
    requires forall d <- desired :: Key(d) == key ==> d.labels == labels
    ensures Labelled(key, labels, trace[i].store)
  {
    if i > 0 {
      TraceLabels(c, desired, key, labels, trace, i - 1);
      var d := desired[i - 1];
      assert d in desired && DetectStep(c, d, true, trace[i - 1], trace[i]);
    }
  }

  /** Detection leaves an IFO alone that none of the desired labels select. */
  lemma {:induction false} TraceSparesUnselected(c: Context, desired: seq<Ifo>, trace: seq<World>, n: Name, i: nat)
    requires DetectionPass(c, desired, true, trace) && i < |trace|
    requires n in trace[0].store && n < trace[0].next
    requires forall d <- desired :: !Matches(d.labels, trace[0].store[n].labels)
    ensures n in trace[i].store && n < trace[i].next && trace[i].store[n] == trace[0].store[n]
  {
    if i > 0 {
      TraceSparesUnselected(c, desired, trace, n, i - 1);
      var d := desired[i - 1];
      assert d in desired && DetectStep(c, d, true, trace[i - 1], trace[i]);
    }
  }

  lemma AllAgree(cel: Cel, e: Event, d: Ifo)
    requires e.Handled? && NamesDiffer(e.ruleSets) && d in DesiredBy(cel, e)
    ensures forall x <- DesiredBy(cel, e) :: Key(x) == Key(d) ==> x.labels == d.labels
  {
    forall x | x in DesiredBy(cel, e) && Key(x) == Key(d)
      ensures x.labels == d.labels
    {
      OneEventAgrees(cel, e, d, x);
    }
  }

  lemma FirstPass(c: Context, desired: seq<Ifo>, d: Ifo, trace: seq<World>)
    requires DetectionPass(c, desired, true, trace) && trace[0].store == map[]
    requires forall x <- desired :: Key(x) == Key(d) ==> x.labels == d.labels
    ensures Labelled(Key(d), d.labels, trace[|trace| - 1].store)
  {
    TraceLabels(c, desired, Key(d), d.labels, trace, |trace| - 1);
  }

  lemma FirstLabels(config: Config, cel: Cel, e: Event, d: Ifo, w: World)
    requires e.Handled? && e.clean && e.ruleSets != [] && NamesDiffer(e.ruleSets) && d in DesiredBy(cel, e)
    requires Step(config, cel, e, Empty, w)
    ensures Labelled(Key(d), d.labels, w.store)
  {
    AllAgree(cel, e, d);
    var trace := CleanPasses(config, cel, e, Empty, w);
    FirstPass(ContextOf(config, e), DesiredBy(cel, e), d, trace);
  }

  /** The first event makes an active IFO with its labels. */
  lemma FirstEvent(config: Config, cel: Cel, e: Event, d: Ifo) returns (w: World, n: Name)
    requires e.Handled? && e.clean && NamesDiffer(e.ruleSets) && d in DesiredBy(cel, e)
    ensures Step(config, cel, e, Empty, w) && Good(w, e.now)
    ensures DetectedAs(ContextOf(config, e), w.store, d, n) && w.store[n].labels == d.labels
  {
    w := HandlingHappens(config, cel, e, Empty);
    StepKeepsGood(config, cel, e, Empty, w, e.now);
    HandleIsExact(config, cel, e, Empty, w, e.now);
    n :| DetectedAs(ContextOf(config, e), w.store, d, n);
    FirstLabels(config, cel, e, d, w);
  }

  /** The second event, whose labels do not select that IFO, makes another and leaves the first as it is. */
  lemma SecondEvent(config: Config, cel: Cel, e: Event, d: Ifo, w: World, n: Name) returns (w': World, m: Name)
    requires e.Handled? && e.clean && NamesDiffer(e.ruleSets) && d in DesiredBy(cel, e) && Good(w, e.now)
    requires n in w.store && Key(w.store[n]) == Key(d) && !Matches(d.labels, w.store[n].labels)
    ensures Step(config, cel, e, w, w') && n in w'.store && w'.store[n] == w.store[n]
    ensures DetectedAs(ContextOf(config, e), w'.store, d, m)
  {
    w' := HandlingHappens(config, cel, e, w);
    HandleIsExact(config, cel, e, w, w', e.now);
    m :| DetectedAs(ContextOf(config, e), w'.store, d, m);
    SecondSpares(config, cel, e, d, w, w', n);
  }

  lemma SecondSpares(config: Config, cel: Cel, e: Event, d: Ifo, w: World, w': World, n: Name)
    requires e.Handled? && e.clean && e.ruleSets != [] && NamesDiffer(e.ruleSets) && d in DesiredBy(cel, e)
    requires Good(w, e.now) && Step(config, cel, e, w, w')
    requires n in w.store && Key(w.store[n]) == Key(d) && !Matches(d.labels, w.store[n].labels)
    ensures n in w'.store && w'.store[n] == w.store[n]
  {
    assert GoodIfo(n, w.store[n], w.next, e.now) && Indexed(w.store[n]);
    NoneSelects(cel, e, d, w.store[n]);
    var trace := CleanPasses(config, cel, e, w, w');
    PassesSpare(ContextOf(config, e), DesiredBy(cel, e), d, w, trace, n);
  }

  lemma PassesSpare(c: Context, desired: seq<Ifo>, d: Ifo, w: World, trace: seq<World>, n: Name)
    requires DetectionPass(c, desired, true, trace) && trace[0].next == w.next && d in desired
    requires CompletionPass(c, OperationNames(desired), true, w.store, trace[0].store)
    requires n in w.store && n < w.next && Key(w.store[n]) == Key(d)
    requires forall d' <- desired :: !Matches(d'.labels, w.store[n].labels)
    ensures var s := trace[|trace| - 1].store; n in s && s[n] == w.store[n]
  {
    assert w.store[n].spec.operation == d.spec.operation && d.spec.operation in OperationNames(desired);
    TraceSparesUnselected(c, desired, trace, n, |trace| - 1);
  }

  lemma NoneSelects(cel: Cel, e: Event, d: Ifo, x: Ifo)
    requires e.Handled? && NamesDiffer(e.ruleSets) && d in DesiredBy(cel, e) && Indexed(x)
    requires Key(x) == Key(d) && !Matches(d.labels, x.labels)
    ensures forall d' <- DesiredBy(cel, e) :: !Matches(d'.labels, x.labels)
  {
    DesiredShape(e.subject, Results(cel, e.subject, e.ruleSets));
    forall d' | d' in DesiredBy(cel, e)
      ensures !Matches(d'.labels, x.labels)
    {
      if Matches(d'.labels, x.labels) {
        MatchIsSameKey(d', x);
        OneEventAgrees(cel, e, d, d');
      }
    }
  }

  /** Two events that give one operation labels of which the second do not select the first leave two
      active IFOs of that operation. */
  lemma TwoLabelsTwoLive(config: Config, cel: Cel, e: Event, e': Event, d: Ifo, d': Ifo)
    returns (states: seq<World>, n: Name, m: Name)
    requires e.Handled? && NamesDiffer(e.ruleSets) && d in DesiredBy(cel, e)
    requires e'.Handled? && NamesDiffer(e'.ruleSets) && d' in DesiredBy(cel, e')
    requires Key(d) == Key(d') && !Matches(d'.labels, d.labels)
    ensures IsRun(config, cel, states, [At(e, 0, true), At(e', 1, true)])
    ensures var s := states[2].store;
      SameOperation(s, n, m) && s[n].status.phase == s[m].status.phase == Active
  {
    var w, w';
    w, n := FirstEvent(config, cel, At(e, 0, true), d);
    GoodLater(w, 0, 1);
    w', m := SecondEvent(config, cel, At(e', 1, true), d', w, n);
    states := [Empty, w, w'];
    RunOfTwo(config, cel, At(e, 0, true), At(e', 1, true), w, w');
  }

  lemma GoodLater(w: World, now: Time, later: Time)
    requires Good(w, now) && now <= later
    ensures Good(w, later)
  {
    forall n | n in w.store
      ensures GoodIfo(n, w.store[n], w.next, later)
    {
      assert GoodIfo(n, w.store[n], w.next, now);
    }
  }

  lemma RunOfTwo(config: Config, cel: Cel, e: Event, e': Event, w: World, w': World)
    requires Step(config, cel, e, Empty, w) && Step(config, cel, e', w, w') && e.now <= e'.now
    ensures IsRun(config, cel, [Empty, w, w'], [e, e'])
  {
  }

  // ----- exactly fixed labels are safe

  ghost predicate Gives(cel: Cel, allowed: Event -> bool, e: Event, d: Ifo) {
    allowed(e) && d in DesiredBy(cel, e)
  }

  /** Whenever allowed events detect the same operation, they give it the same labels. */
  ghost predicate LabelsAgree(cel: Cel, allowed: Event -> bool) {
    forall e, e', d, d' {:trigger Gives(cel, allowed, e, d), Gives(cel, allowed, e', d')} ::
      Gives(cel, allowed, e, d) && Gives(cel, allowed, e', d') && Key(d) == Key(d') ==> d.labels == d'.labels
  }

  ghost function LabelsGiven(cel: Cel, allowed: Event -> bool, key: OperationKey): Labels {
    if exists e, d :: Gives(cel, allowed, e, d) && Key(d) == key
    then var e, d :| Gives(cel, allowed, e, d) && Key(d) == key; d.labels
    else map[]
  }

  lemma AgreeingLabelsAreFixed(cel: Cel, allowed: Event -> bool)
    requires LabelsAgree(cel, allowed)
    ensures AllFixed(cel, allowed, key => LabelsGiven(cel, allowed, key))
  {
    forall e, d | allowed(e) && d in DesiredBy(cel, e)
      ensures d.labels == LabelsGiven(cel, allowed, Key(d))
    {
      assert Gives(cel, allowed, e, d);
    }
  }

  lemma SafeLabelsAgree(config: Config, cel: Cel, allowed: Event -> bool)
    requires Timeless(allowed) && EventsNamed(allowed) && KeepsOneLive(config, cel, allowed)
    ensures LabelsAgree(cel, allowed)
  {
    forall e, e', d, d' | Gives(cel, allowed, e, d) && Gives(cel, allowed, e', d') && Key(d) == Key(d')
      ensures d.labels == d'.labels
    {
      SafeLabelsSelect(config, cel, allowed, e, e', d, d');
      SafeLabelsSelect(config, cel, allowed, e', e, d', d);
    }
  }

  lemma AllowedRunIsSafe(
    config: Config, cel: Cel, allowed: Event -> bool, states: seq<World>, events: seq<Event>, i: nat)
    requires KeepsOneLive(config, cel, allowed)
    requires IsRun(config, cel, states, events) && (forall e <- events :: allowed(e)) && i < |states|
    ensures OneLive(states[i].store)
  {
  }

  lemma SafeLabelsSelect(config: Config, cel: Cel, allowed: Event -> bool, e: Event, e': Event, d: Ifo, d': Ifo)
    requires Timeless(allowed) && EventsNamed(allowed) && KeepsOneLive(config, cel, allowed)
    requires Gives(cel, allowed, e, d) && Gives(cel, allowed, e', d') && Key(d) == Key(d')
    ensures Matches(d'.labels, d.labels)
  {
    if !Matches(d'.labels, d.labels) {
      var states, n, m := TwoLabelsTwoLive(config, cel, e, e', d, d');
      AllowedRunIsSafe(config, cel, allowed, states, [At(e, 0, true), At(e', 1, true)], 2);
    }
  }

  /** With a positive threshold, the events that keep one live IFO per operation in all their runs are
      exactly those that give every operation the same labels throughout. */
  lemma LabelsDecideSafety(config: Config, cel: Cel, allowed: Event -> bool)
    requires config.threshold > 0 && Timeless(allowed) && EventsNamed(allowed)
    ensures KeepsOneLive(config, cel, allowed) <==> LabelsAgree(cel, allowed)
    ensures KeepsOneLive(config, cel, allowed) <==> exists labelsOf :: AllFixed(cel, allowed, labelsOf)
  {
    if KeepsOneLive(config, cel, allowed) {
      SafeLabelsAgree(config, cel, allowed);
    }
    if LabelsAgree(cel, allowed) {
      AgreeingLabelsAreFixed(cel, allowed);
    }
    if labelsOf :| AllFixed(cel, allowed, labelsOf) {
      FixedKeepsOneLive(config, cel, allowed, labelsOf);
    }
  }
}
