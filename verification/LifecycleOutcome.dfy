/** What one event achieves when no API call fails, and what it leaves alone in any case. */
module LifecycleOutcome {
  import opened Prelude
  import opened Api
  import opened Evaluator
  import opened Operations
  import opened Lifecycle
  import opened LifecycleSafety

  /** Except when a call fails, a detect step writes one IFO: one with the desired key that was not
      past the threshold, or a new one. */
  ghost predicate TouchesOne(c: Context, d: Ifo, w: World, w': World, t: Name) {
    && t in w'.store && w'.store == w.store[t := w'.store[t]]
    && Key(w'.store[t]) == Key(d)
    && (t in w.store ==> Key(w.store[t]) == Key(d) && w'.store[t] == c.Redetected(w.store[t], d))
  }

  lemma DetectTouchesOne(c: Context, d: Ifo, clean: bool, w: World, w': World) returns (t: Name)
    requires Good(w, c.now) && Indexed(d) && DetectStep(c, d, clean, w, w')
    ensures w' == w || TouchesOne(c, d, w, w', t)
    ensures clean ==> DetectedAs(c, w'.store, d, t)
  {
    assert w.next !in w.store;
    if m :| Reuses(c, d, w.store, m) && w' == w.(store := w.store[m := c.Redetected(w.store[m], d)]) {
      assert GoodIfo(m, w.store[m], w.next, c.now);
      MatchIsSameKey(d, w.store[m]);
      t := m;
    } else {
      t := w.next;
    }
  }

  function DetectedStatus(c: Context, ruleSet: string): IfoStatus {
    IfoStatus(Active, None, Some(c.now), [ruleSet], c.subject.generation)
  }

  /** The IFO named n stands for the desired one and carries this event's detection. */
  ghost predicate DetectedAs(c: Context, s: Store, d: Ifo, n: Name) {
    n in s && Key(s[n]) == Key(d) && s[n].status == DetectedStatus(c, d.spec.ruleSet)
  }

  // ----- other subjects

  /** Other subjects' IFOs are unchanged, and none appears for another subject. */
  ghost predicate SameElsewhere(subject: Subject, s: Store, s': Store) {
    && (forall n <- s :: !IsSubjectOf(subject, s[n]) ==> n in s' && s'[n] == s[n])
    && (forall n <- s' :: n !in s ==> IsSubjectOf(subject, s'[n]))
  }

  lemma {:induction false} TraceIsolation(c: Context, desired: seq<Ifo>, clean: bool, trace: seq<World>, i: nat)
    requires DetectionPass(c, desired, clean, trace) && i < |trace| && Good(trace[0], c.now)
    requires forall d <- desired :: Indexed(d) && IsSubjectOf(c.subject, d)
    ensures SameElsewhere(c.subject, trace[0].store, trace[i].store)
  {
    if i > 0 {
      TraceIsolation(c, desired, clean, trace, i - 1);
      TraceKeepsGood(c, desired, clean, trace, i - 1);
      var t := DetectTouchesOne(c, desired[i - 1], clean, trace[i - 1], trace[i]);
    }
  }

  lemma DeletionIsolation(e: Event, w: World, w': World)
    requires e.Deleted? && AllIndexed(w.store) && DeleteStep(e, w, w')
    ensures SameElsewhere(e.subject, w.store, w'.store)
    ensures e.clean ==> forall n <- w'.store :: !IsSubjectOf(e.subject, w'.store[n])
  {
    forall n | n in w.store
      ensures Matches(SubjectLabels(e.subject), w.store[n].labels) <==> IsSubjectOf(e.subject, w.store[n])
    {
      SubjectSelection(e.subject, w.store[n]);
    }
  }

  lemma CompletionIsolation(c: Context, detected: set<string>, clean: bool, s: Store, s': Store)
    requires AllIndexed(s) && CompletionPass(c, detected, clean, s, s')
    ensures SameElsewhere(c.subject, s, s')
    ensures forall n <- s :: IsSubjectOf(c.subject, s[n]) && n in s' ==> IsSubjectOf(c.subject, s'[n])
  {
    forall n | n in s && !IsSubjectOf(c.subject, s[n])
      ensures !Missed(c, detected, s[n])
    {
      SubjectSelection(c.subject, s[n]);
    }
  }

  /** Handling or deleting one subject leaves every other subject's IFOs alone, even when calls fail. */
  lemma OtherSubjectsUntouched(config: Config, cel: Cel, e: Event, w: World, w': World, before: Time)
    requires Good(w, before) && before <= e.now && Step(config, cel, e, w, w')
    ensures SameElsewhere(e.subject, w.store, w'.store)
    ensures e.Deleted? && e.clean ==> forall n <- w'.store :: !IsSubjectOf(e.subject, w'.store[n])
  {
    if e.Deleted? {
      DeletionIsolation(e, w, w');
    } else {
      var trace: seq<World> :| HandleTrace(config, cel, e, w, w', trace);
      if e.ruleSets != [] && trace != [] {
        var c, desired := ContextOf(config, e), DesiredBy(cel, e);
        DesiredShape(e.subject, Results(cel, e.subject, e.ruleSets));
        CompletionIsolation(c, OperationNames(desired), e.clean, w.store, trace[0].store);
        CompletionKeepsGood(c, OperationNames(desired), e.clean, w, trace[0]);
        TraceIsolation(c, desired, e.clean, trace, |trace| - 1);
      }
    }
  }

  // ----- what a clean event makes active

  lemma {:induction false} TraceDetects(
      c: Context, desired: seq<Ifo>, trace: seq<World>, k: nat, i: nat)
    returns (n: Name)
    requires DetectionPass(c, desired, true, trace) && k < i < |trace|
    requires Good(trace[0], c.now) && forall d <- desired :: Indexed(d)
    ensures DetectedAs(c, trace[i].store, desired[k], n)
    decreases i
  {
    TraceKeepsGood(c, desired, true, trace, i - 1);
    var t := DetectTouchesOne(c, desired[i - 1], true, trace[i - 1], trace[i]);
    if k == i - 1 {
      n := t;
    } else {
      n := TraceDetects(c, desired, trace, k, i - 1);
    }
  }

  /** Detection does not reach IFOs whose operation is not among those desired. */
  ghost predicate SameUndetected(names: set<string>, s: Store, s': Store) {
    && (forall n <- s :: s[n].spec.operation !in names ==> n in s' && s'[n] == s[n])
    && (forall n <- s' :: n !in s || s'[n] != s[n] ==> s'[n].spec.operation in names)
  }

  lemma {:induction false} TraceSpares(c: Context, desired: seq<Ifo>, clean: bool, trace: seq<World>, i: nat)
    requires DetectionPass(c, desired, clean, trace) && i < |trace|
    requires Good(trace[0], c.now) && forall d <- desired :: Indexed(d)
    ensures SameUndetected(OperationNames(desired), trace[0].store, trace[i].store)
  {
    if i > 0 {
      TraceSpares(c, desired, clean, trace, i - 1);
      TraceKeepsGood(c, desired, clean, trace, i - 1);
      var d := desired[i - 1];
      var t := DetectTouchesOne(c, d, clean, trace[i - 1], trace[i]);
      assert d.spec.operation in OperationNames(desired);
    }
  }

  /** The operations of a subject's IFOs that are not completed. */
  ghost function LiveOperations(subject: Subject, s: Store): set<string> {
    set n | n in s && IsSubjectOf(subject, s[n]) && s[n].status.phase != Completed :: s[n].spec.operation
  }

  ghost function ActiveOperations(subject: Subject, s: Store): set<string> {
    set n | n in s && IsSubjectOf(subject, s[n]) && s[n].status.phase == Active :: s[n].spec.operation
  }

  lemma ResultsMeaning(cel: Cel, subject: Subject, ruleSets: seq<OperationRuleSet>, r: RuleSetResult)
    ensures r in Results(cel, subject, ruleSets) <==>
      exists ruleSet <- ruleSets :: AppliesTo(ruleSet, subject) && FreshResult(cel, subject, ruleSet) == Some(r)
  {
    if ruleSets != [] {
      var front, last := ruleSets[..|ruleSets| - 1], ruleSets[|ruleSets| - 1];
      ResultsMeaning(cel, subject, front, r);
      assert ruleSets == front + [last];
    }
  }

  lemma ResultsOfOne(cel: Cel, subject: Subject, ruleSet: OperationRuleSet, r: RuleSetResult)
    requires AppliesTo(ruleSet, subject) && FreshResult(cel, subject, ruleSet) == Some(r)
    ensures Results(cel, subject, [ruleSet]) == [r]
  {
    assert [ruleSet][..0] == [] && Results(cel, subject, []) == [];
  }

  lemma DesiredOfOne(subject: Subject, r: RuleSetResult)
    ensures Desired(subject, [r]) == BuildAll(subject, r, |r.operations|)
  {
    assert [r][..0] == [] && Desired(subject, []) == [];
  }

  lemma BuiltOfOne(subject: Subject, r: RuleSetResult, operation: string)
    requires r.operations == [operation]
    ensures BuildAll(subject, r, 1) == [Build(subject, operation, r.ruleSet, r.labels)]
  {
  }

  lemma MatchedOfOne(cel: Cel, content: Content, rule: Rule, b: bool)
    requires FreshValue(cel, content, rule.expression) == Some(BoolValue(b))
    ensures MatchedOperations(cel, content, [rule]) == Some(if b then [rule.operation] else [])
  {
    assert [rule][..0] == [] && MatchedOperations(cel, content, []) == Some([]);
    assert [] + [rule.operation] == [rule.operation];
  }

  lemma EveryMatchIsActive(c: Context, desired: seq<Ifo>, trace: seq<World>, s: Store)
    requires DetectionPass(c, desired, true, trace) && Good(trace[0], c.now) && s == trace[|trace| - 1].store
    requires forall d <- desired :: Indexed(d) && IsSubjectOf(c.subject, d)
    ensures forall d <- desired :: exists n :: DetectedAs(c, s, d, n)
    ensures OperationNames(desired) <= ActiveOperations(c.subject, s)
  {
    forall d | d in desired
      ensures exists n :: DetectedAs(c, s, d, n)
      ensures d.spec.operation in ActiveOperations(c.subject, s)
    {
      var k :| 0 <= k < |desired| && desired[k] == d;
      var n := TraceDetects(c, desired, trace, k, |trace| - 1);
      assert IsSubjectOf(c.subject, s[n]);
    }
  }

  lemma EveryLiveIsMatched(c: Context, desired: seq<Ifo>, w: World, trace: seq<World>)
    requires DetectionPass(c, desired, true, trace) && Good(trace[0], c.now)
    requires Good(w, c.now) && CompletionPass(c, OperationNames(desired), true, w.store, trace[0].store)
    requires forall d <- desired :: Indexed(d)
    ensures LiveOperations(c.subject, trace[|trace| - 1].store) <= OperationNames(desired)
  {
    TraceSpares(c, desired, true, trace, |trace| - 1);
    var names, s := OperationNames(desired), trace[|trace| - 1].store;
    forall n | n in s && IsSubjectOf(c.subject, s[n]) && s[n].status.phase != Completed
      ensures s[n].spec.operation in names
    {
      if s[n].spec.operation !in names {
        UndetectedIsCompleted(c, names, w, trace[0], n);
      }
    }
  }

  /** The two passes of a clean event. */
  lemma CleanPasses(config: Config, cel: Cel, e: Event, w: World, w': World) returns (trace: seq<World>)
    requires e.Handled? && e.clean && e.ruleSets != [] && Step(config, cel, e, w, w')
    ensures DetectionPass(ContextOf(config, e), DesiredBy(cel, e), true, trace)
    ensures CompletionPass(ContextOf(config, e), OperationNames(DesiredBy(cel, e)), true, w.store, trace[0].store)
    ensures trace[0].next == w.next && trace[|trace| - 1] == w'
    ensures forall d <- DesiredBy(cel, e) :: Indexed(d) && IsSubjectOf(e.subject, d)
  {
    trace :| HandleTrace(config, cel, e, w, w', trace);
    DesiredShape(e.subject, Results(cel, e.subject, e.ruleSets));
  }

  /** After a clean event the subject's active operations are exactly the detected ones, and each
      (ruleset, operation) match has an active IFO of its own, detected by that ruleset. */
  lemma HandleIsExact(config: Config, cel: Cel, e: Event, w: World, w': World, before: Time)
    requires e.Handled? && e.clean && e.ruleSets != []
    requires Good(w, before) && before <= e.now && Step(config, cel, e, w, w')
    ensures ActiveOperations(e.subject, w'.store) == OperationNames(DesiredBy(cel, e))
    ensures LiveOperations(e.subject, w'.store) == OperationNames(DesiredBy(cel, e))
    ensures forall d <- DesiredBy(cel, e) :: exists n :: DetectedAs(ContextOf(config, e), w'.store, d, n)
  {
    var c, desired := ContextOf(config, e), DesiredBy(cel, e);
    var trace := CleanPasses(config, cel, e, w, w');
    CompletionKeepsGood(c, OperationNames(desired), true, w, trace[0]);
    EveryMatchIsActive(c, desired, trace, w'.store);
    EveryLiveIsMatched(c, desired, w, trace);
    assert ActiveOperations(e.subject, w'.store) <= LiveOperations(e.subject, w'.store);
  }

  lemma UndetectedIsCompleted(c: Context, names: set<string>, w: World, w': World, n: Name)
    requires Good(w, c.now) && CompletionPass(c, names, true, w.store, w'.store)
    requires n in w'.store && IsSubjectOf(c.subject, w'.store[n]) && w'.store[n].spec.operation !in names
    ensures w'.store[n].status.phase == Completed
    ensures c.Past(w'.store[n]) || (c.config.retain && w'.store[n] == c.Completed(w.store[n]))
  {
    assert n in w.store && GoodIfo(n, w.store[n], w.next, c.now);
    SubjectSelection(c.subject, w.store[n]);
  }
}
