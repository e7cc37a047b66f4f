/** What one clean event does, in terms of rulesets, subjects, labels and times alone. */
module LifecyclePlain {
  import opened Prelude
  import opened Api
  import opened Evaluator
  import opened Operations
  import opened Lifecycle
  import opened LifecycleSafety
  import opened LifecycleOutcome
  import opened LifecycleLabels
  import opened LifecycleDebounce
  import opened LifecycleRepeat

  // ----- what is detected

  /** A ruleset of this name applies to the subject's namespace, all of its rules decide, and one for this
      operation holds. */
  ghost predicate Detects(
    cel: Cel, subject: Subject, ruleSets: seq<OperationRuleSet>, name: string, operation: string)
  {
    exists r <- ruleSets :: DetectsBy(cel, subject, r, name, operation)
  }

  ghost predicate DetectsBy(cel: Cel, subject: Subject, r: OperationRuleSet, name: string, operation: string) {
    && r.name == name && (r.spec.namespaces == [] || subject.namespace in r.spec.namespaces)
    && (forall x <- r.spec.rules :: Decides(cel, subject.content, x))
    && exists x <- r.spec.rules :: x.operation == operation && Holds(cel, subject.content, x)
  }

  lemma ResultDetects(cel: Cel, subject: Subject, r: OperationRuleSet, operation: string)
    ensures var result := FreshResult(cel, subject, r);
      DetectsBy(cel, subject, r, r.name, operation) <==>
        AppliesTo(r, subject) && result.Some? && operation in result.value.operations
  {
    var rules, content := r.spec.rules, subject.content;
    MatchedOperationsMeaning(cel, content, rules);
    FreshResultMeaning(cel, subject, r);
    assert forall x: Rule ::
      Holds(cel, content, x) <==> FreshValue(cel, content, x.expression) == Some(BoolValue(true));
  }

  lemma DesiredHasResult(subject: Subject, results: seq<RuleSetResult>, d: Ifo) returns (r: RuleSetResult)
    requires d in Desired(subject, results)
    ensures r in results && d.spec.ruleSet == r.ruleSet.name && d.spec.operation in r.operations
  {
    DesiredShape(subject, results);
    r :| r in results && d.spec.ruleSet == r.ruleSet.name && d.spec.operation in r.operations;
  }

  lemma ResultIsDesired(subject: Subject, results: seq<RuleSetResult>, r: RuleSetResult, operation: string)
    returns (d: Ifo)
    requires r in results && operation in r.operations
    ensures d in Desired(subject, results) && d.spec.ruleSet == r.ruleSet.name && d.spec.operation == operation
  {
    DesiredShape(subject, results);
    d :| d in Desired(subject, results) && d.spec.ruleSet == r.ruleSet.name && d.spec.operation == operation;
  }

  lemma ResultIsFresh(cel: Cel, subject: Subject, ruleSets: seq<OperationRuleSet>, r: RuleSetResult)
    requires r in Results(cel, subject, ruleSets)
    ensures r.ruleSet in ruleSets && AppliesTo(r.ruleSet, subject) && FreshResult(cel, subject, r.ruleSet) == Some(r)
  {
    ResultsMeaning(cel, subject, ruleSets, r);
  }

  lemma DesiredIsDetected(cel: Cel, subject: Subject, ruleSets: seq<OperationRuleSet>, d: Ifo)
    requires d in Desired(subject, Results(cel, subject, ruleSets))
    ensures Detects(cel, subject, ruleSets, d.spec.ruleSet, d.spec.operation)
  {
    var r := DesiredHasResult(subject, Results(cel, subject, ruleSets), d);
    ResultIsFresh(cel, subject, ruleSets, r);
    ResultDetects(cel, subject, r.ruleSet, d.spec.operation);
  }

  lemma DetectedIsDesired(
    cel: Cel, subject: Subject, ruleSets: seq<OperationRuleSet>, name: string, operation: string) returns (d: Ifo)
    requires Detects(cel, subject, ruleSets, name, operation)
    ensures d in Desired(subject, Results(cel, subject, ruleSets))
    ensures d.spec.ruleSet == name && d.spec.operation == operation
  {
    var r :| r in ruleSets && DetectsBy(cel, subject, r, name, operation);
    ResultDetects(cel, subject, r, operation);
    var result := FreshResult(cel, subject, r).value;
    ResultsMeaning(cel, subject, ruleSets, result);
    d := ResultIsDesired(subject, Results(cel, subject, ruleSets), result, operation);
  }

  /** What an event desires is what its rulesets detect. */
  lemma DesiredMeaning(cel: Cel, e: Event, name: string, operation: string)
    requires e.Handled?
    ensures (exists d <- DesiredBy(cel, e) :: d.spec.ruleSet == name && d.spec.operation == operation) <==>
      Detects(cel, e.subject, e.ruleSets, name, operation)
  {
    if d :| d in DesiredBy(cel, e) && d.spec.ruleSet == name && d.spec.operation == operation {
      DesiredIsDetected(cel, e.subject, e.ruleSets, d);
    }
    if Detects(cel, e.subject, e.ruleSets, name, operation) {
      var d := DetectedIsDesired(cel, e.subject, e.ruleSets, name, operation);
    }
  }

  // ----- in which order

  /** The ruleset applies and all of its rules decide. */
  ghost predicate Counts(cel: Cel, subject: Subject, r: OperationRuleSet) {
    && (r.spec.namespaces == [] || subject.namespace in r.spec.namespaces)
    && forall x <- r.spec.rules :: Decides(cel, subject.content, x)
  }

  /** The results are those of the rulesets at these ascending places, which are all that count. */
  ghost predicate ResultsAt(
    cel: Cel, subject: Subject, ruleSets: seq<OperationRuleSet>, results: seq<RuleSetResult>, at: seq<nat>)
  {
    && |at| == |results|
    && (forall j :: 0 <= j < |at| ==> at[j] < |ruleSets| && ResultIs(cel, subject, ruleSets[at[j]], results[j]))
    && (forall i, j :: 0 <= i < j < |at| ==> at[i] < at[j])
    && (forall i :: 0 <= i < |ruleSets| ==> (i in at <==> Counts(cel, subject, ruleSets[i])))
  }

  lemma {:induction false} ResultsInOrder(
    cel: Cel, subject: Subject, ruleSets: seq<OperationRuleSet>, results: seq<RuleSetResult>) returns (at: seq<nat>)
    requires results == Results(cel, subject, ruleSets)
    ensures ResultsAt(cel, subject, ruleSets, results, at)
  {
    at := [];
    if ruleSets != [] {
      var front, last := ruleSets[..|ruleSets| - 1], ruleSets[|ruleSets| - 1];
      var before := Results(cel, subject, front);
      at := ResultsInOrder(cel, subject, front, before);
      FreshResultMeaning(cel, subject, last);
      assert ruleSets == front + [last];
      if Counts(cel, subject, last) {
        ResultsOneMore(cel, subject, front, before, at, last, FreshResult(cel, subject, last).value);
        at := at + [|front|];
      } else {
        assert results == before;
        assert forall i :: i in at ==> i < |front|;
      }
    }
  }

  lemma ResultsOneMore(
    cel: Cel, subject: Subject, front: seq<OperationRuleSet>, before: seq<RuleSetResult>, at: seq<nat>,
    last: OperationRuleSet, result: RuleSetResult)
    requires ResultsAt(cel, subject, front, before, at)
    requires Counts(cel, subject, last) && ResultIs(cel, subject, last, result)
    ensures ResultsAt(cel, subject, front + [last], before + [result], at + [|front|])
  {
    assert forall i :: i in at ==> i < |front|;
  }

  /** A place in a list of lists comes before another. */
  ghost predicate Precedes(a: (nat, nat), b: (nat, nat)) {
    a.0 < b.0 || (a.0 == b.0 && a.1 < b.1)
  }

  /** There is one IFO for each operation of each result, and they come in this order. */
  ghost predicate DesiredAt(subject: Subject, results: seq<RuleSetResult>, desired: seq<Ifo>, at: seq<(nat, nat)>) {
    && |at| == |desired|
    && (forall i :: 0 <= i < |at| ==>
         && at[i].0 < |results| && at[i].1 < |results[at[i].0].operations|
         && var r := results[at[i].0]; desired[i] == Build(subject, r.operations[at[i].1], r.ruleSet, r.labels))
    && (forall i, j :: 0 <= i < j < |at| ==> Precedes(at[i], at[j]))
    && (forall a: nat, b: nat :: a < |results| && b < |results[a].operations| ==> (a, b) in at)
  }

  lemma {:induction false} DesiredInOrder(subject: Subject, results: seq<RuleSetResult>, desired: seq<Ifo>)
    returns (at: seq<(nat, nat)>)
    requires desired == Desired(subject, results)
    ensures DesiredAt(subject, results, desired, at)
  {
    at := [];
    if results != [] {
      var front, last := results[..|results| - 1], results[|results| - 1];
      var before := Desired(subject, front);
      at := DesiredInOrder(subject, front, before);
      at := DesiredOneMore(subject, front, before, at, last);
      assert results == front + [last];
    }
  }

  lemma DesiredOneMore(
    subject: Subject, front: seq<RuleSetResult>, before: seq<Ifo>, at: seq<(nat, nat)>, last: RuleSetResult)
    returns (at': seq<(nat, nat)>)
    requires DesiredAt(subject, front, before, at)
    ensures DesiredAt(subject, front + [last], before + BuildAll(subject, last, |last.operations|), at')
  {
    var n := |last.operations|;
    var added: seq<(nat, nat)> := seq(n, j requires 0 <= j < n => (|front|, j));
    at' := at + added;
    var results, desired := front + [last], before + BuildAll(subject, last, n);
    forall a: nat, b: nat | a < |results| && b < |results[a].operations|
      ensures (a, b) in at'
    {
      if a == |front| {
        assert added[b] == (a, b);
      } else {
        assert (a, b) in at;
      }
    }
  }

  /** The IFO is of this subject and stands for this operation. */
  ghost predicate StandsFor(subject: Subject, operation: string, x: Ifo) {
    && x.spec.subject.uid == subject.uid && x.spec.subject.name == subject.name
    && x.spec.subject.namespace == subject.namespace && x.spec.subject.kind == subject.kind
    && x.spec.operation == operation
  }

  /** Detected now by the ruleset of this name. */
  ghost predicate DetectedNow(e: Event, name: string, x: Ifo) {
    && x.spec.ruleSet == name
    && x.status == IfoStatus(Active, None, Some(e.now), [name], e.subject.generation)
  }

  /** The names of the rulesets that detect an operation are those of the IFOs detected now. */
  lemma DetectedHasIfo(
    config: Config, cel: Cel, e: Event, w: World, w': World, before: Time, name: string, operation: string)
    returns (n: Name)
    requires e.Handled? && e.clean && e.ruleSets != []
    requires Good(w, before) && before <= e.now && Step(config, cel, e, w, w')
    requires Detects(cel, e.subject, e.ruleSets, name, operation)
    ensures n in w'.store && StandsFor(e.subject, operation, w'.store[n]) && DetectedNow(e, name, w'.store[n])
  {
    HandleIsExact(config, cel, e, w, w', before);
    var d := DetectedIsDesired(cel, e.subject, e.ruleSets, name, operation);
    DesiredShape(e.subject, Results(cel, e.subject, e.ruleSets));
    n :| DetectedAs(ContextOf(config, e), w'.store, d, n);
  }

  lemma LiveIsDetected(config: Config, cel: Cel, e: Event, w: World, w': World, before: Time, n: Name)
    returns (name: string)
    requires e.Handled? && e.clean && e.ruleSets != []
    requires Good(w, before) && before <= e.now && Step(config, cel, e, w, w')
    requires n in w'.store && StandsFor(e.subject, w'.store[n].spec.operation, w'.store[n])
    requires w'.store[n].status.phase != Completed
    ensures Detects(cel, e.subject, e.ruleSets, name, w'.store[n].spec.operation)
  {
    var operation := w'.store[n].spec.operation;
    HandleIsExact(config, cel, e, w, w', before);
    assert operation in LiveOperations(e.subject, w'.store);
    name := DesiredHasName(cel, e, operation);
  }

  lemma DesiredHasName(cel: Cel, e: Event, operation: string) returns (name: string)
    requires e.Handled? && operation in OperationNames(DesiredBy(cel, e))
    ensures Detects(cel, e.subject, e.ruleSets, name, operation)
  {
    var d :| d in DesiredBy(cel, e) && d.spec.operation == operation;
    DesiredIsDetected(cel, e.subject, e.ruleSets, d);
    name := d.spec.ruleSet;
  }

  ghost predicate HasLive(e: Event, operation: string, s: Store) {
    exists n <- s :: StandsFor(e.subject, operation, s[n]) && s[n].status.phase != Completed
  }

  ghost predicate HasDetected(e: Event, name: string, operation: string, s: Store) {
    exists n <- s :: StandsFor(e.subject, operation, s[n]) && DetectedNow(e, name, s[n])
  }

  /** After a clean event an operation of the subject has a live IFO iff some ruleset detects it, and for each
      ruleset that does there is one it detected now. */
  lemma LiveMeaning(config: Config, cel: Cel, e: Event, w: World, w': World, before: Time, operation: string)
    requires e.Handled? && e.clean && e.ruleSets != []
    requires Good(w, before) && before <= e.now && Step(config, cel, e, w, w')
    ensures HasLive(e, operation, w'.store) <==> exists name :: Detects(cel, e.subject, e.ruleSets, name, operation)
    ensures forall name :: Detects(cel, e.subject, e.ruleSets, name, operation) ==>
      HasDetected(e, name, operation, w'.store)
  {
    forall name | Detects(cel, e.subject, e.ruleSets, name, operation)
      ensures HasDetected(e, name, operation, w'.store) && HasLive(e, operation, w'.store)
    {
      var n := DetectedHasIfo(config, cel, e, w, w', before, name, operation);
    }
    if n :| n in w'.store && StandsFor(e.subject, operation, w'.store[n]) && w'.store[n].status.phase != Completed {
      var name := LiveIsDetected(config, cel, e, w, w', before, n);
    }
  }

  // ----- what is completed

  /** After a clean event an IFO of the subject whose operation no ruleset detects is as it was, if it had completed
      at least a threshold ago; otherwise it is completed as of now or, without retention, gone. */
  lemma MissedMeaning(config: Config, cel: Cel, e: Event, w: World, w': World, before: Time, n: Name)
    requires e.Handled? && e.clean && e.ruleSets != []
    requires Good(w, before) && before <= e.now && Step(config, cel, e, w, w')
    requires n in w.store && StandsFor(e.subject, w.store[n].spec.operation, w.store[n])
    requires forall name :: !Detects(cel, e.subject, e.ruleSets, name, w.store[n].spec.operation)
    ensures var x := w.store[n];
      if x.status.completed.Some? && x.status.completed.value + config.threshold <= e.now
      then n in w'.store && w'.store[n] == x
      else if config.retain
      then n in w'.store && w'.store[n] == x.(status := IfoStatus(
        Completed, Some(e.now), x.status.lastDetected, x.status.detectedBy, e.subject.generation))
      else n !in w'.store
  {
    if w.store[n].spec.operation in OperationNames(DesiredBy(cel, e)) {
      var name := DesiredHasName(cel, e, w.store[n].spec.operation);
    }
    assert GoodIfo(n, w.store[n], w.next, before);
    if w.store[n].PastDebounceThreshold(config.threshold, e.now) {
      StepKeepsPast(config, cel, e, w, w', n);
    } else {
      MissRestartsThreshold(config, cel, e, w, w', before, n);
    }
  }

  // ----- what is reused and what is created

  /** All these labels are on the IFO. */
  ghost predicate HasAll(labels: Labels, x: Ifo) {
    forall k <- labels :: k in x.labels && x.labels[k] == labels[k]
  }

  /** The IFO has the labels, and all others that have them were created before it. */
  ghost predicate SoleNewest(labels: Labels, s: Store, n: Name) {
    n in s && HasAll(labels, s[n]) &&
    forall m <- s :: m != n && HasAll(labels, s[m]) ==> s[m].created < s[n].created
  }

  /** The IFO has the labels, and none that has them was created after it. */
  ghost predicate AmongNewest(labels: Labels, s: Store, n: Name) {
    n in s && HasAll(labels, s[n]) && forall m <- s :: HasAll(labels, s[m]) ==> s[m].created <= s[n].created
  }

  lemma NewestMeaning(labels: Labels, s: Store)
    ensures forall n :: Newest(s, labels, n) <==> AmongNewest(labels, s, n)
    ensures forall n :: Selected(labels, s, n) <==> n in s && HasAll(labels, s[n])
  {
  }

  /** A sole newest IFO that has not completed, or completed less than a threshold ago, keeps its name and all else it
      is but its status, which says Active; no other IFO with the labels changes, appears or goes. */
  lemma LiveIsReused(config: Config, cel: Cel, e: Event, w: World, w': World, before: Time, d: Ifo, n: Name)
    requires e.Handled? && e.clean && NamesDiffer(e.ruleSets) && d in DesiredBy(cel, e)
    requires Good(w, before) && before <= e.now && Step(config, cel, e, w, w') && SoleNewest(d.labels, w.store, n)
    requires match w.store[n].status.completed case None => true case Some(t) => e.now < t + config.threshold
    ensures n in w'.store && w'.store[n] == w.store[n].(status := IfoStatus(
      Active, None, Some(e.now), [d.spec.ruleSet], e.subject.generation))
    ensures forall m :: m in w'.store && HasAll(d.labels, w'.store[m]) <==> m in w.store && HasAll(d.labels, w.store[m])
    ensures forall m <- w.store :: m != n && HasAll(d.labels, w.store[m]) ==> w'.store[m] == w.store[m]
  {
    var t := DebounceIdentity(config, cel, e, w, w', before, d);
    DebouncedReuses(ContextOf(config, e), d, w, w', t, n);
  }

  lemma DebouncedReuses(c: Context, d: Ifo, w: World, w': World, t: Name, n: Name)
    requires Debounced(c, d, w, w', t) && SoleNewest(d.labels, w.store, n)
    requires match w.store[n].status.completed case None => true case Some(t) => c.now < t + c.config.threshold
    ensures n in w'.store && w'.store[n] == w.store[n].(status := IfoStatus(
      Active, None, Some(c.now), [d.spec.ruleSet], c.subject.generation))
    ensures forall m :: m in w'.store && HasAll(d.labels, w'.store[m]) <==> m in w.store && HasAll(d.labels, w.store[m])
    ensures forall m <- w.store :: m != n && HasAll(d.labels, w.store[m]) ==> w'.store[m] == w.store[m]
  {
    NewestMeaning(d.labels, w.store);
    NewestMeaning(d.labels, w'.store);
    assert AmongNewest(d.labels, w.store, n);
    SoleNewestIsReused(c, d, w, w', t, n);
    assert Selected(d.labels, w.store, n);
  }

  /** When the newest IFOs with the labels completed at least a positive threshold ago, or there is none, exactly one
      appears, with the labels, created and detected now; those there were stay as they are. */
  lemma PastIsReplaced(config: Config, cel: Cel, e: Event, w: World, w': World, before: Time, d: Ifo) returns (k: Name)
    requires e.Handled? && e.clean && NamesDiffer(e.ruleSets) && d in DesiredBy(cel, e) && config.threshold > 0
    requires Good(w, before) && before <= e.now && Step(config, cel, e, w, w')
    requires forall m :: AmongNewest(d.labels, w.store, m) ==>
      w.store[m].status.completed.Some? && w.store[m].status.completed.value + config.threshold <= e.now
    ensures k !in w.store && k in w'.store && w'.store[k].labels == d.labels && w'.store[k].created == e.now
    ensures StandsFor(e.subject, d.spec.operation, w'.store[k]) && DetectedNow(e, d.spec.ruleSet, w'.store[k])
    ensures forall m :: m in w'.store && HasAll(d.labels, w'.store[m]) <==>
      m == k || (m in w.store && HasAll(d.labels, w.store[m]))
    ensures forall m <- w.store :: HasAll(d.labels, w.store[m]) ==> w'.store[m] == w.store[m]
  {
    k := DebounceIdentity(config, cel, e, w, w', before, d);
    DesiredShape(e.subject, Results(cel, e.subject, e.ruleSets));
    DebouncedCreates(ContextOf(config, e), d, w, w', k);
    assert k in w.store ==> GoodIfo(k, w.store[k], w.next, before);
  }

  lemma DebouncedCreates(c: Context, d: Ifo, w: World, w': World, k: Name)
    requires Debounced(c, d, w, w', k) && c.config.threshold > 0
    requires forall m :: AmongNewest(d.labels, w.store, m) ==>
      w.store[m].status.completed.Some? && w.store[m].status.completed.value + c.config.threshold <= c.now
    ensures k >= w.next && DetectedAs(c, w'.store, d, k)
    ensures w'.store[k].labels == d.labels && w'.store[k].created == c.now
    ensures forall m :: m in w'.store && HasAll(d.labels, w'.store[m]) <==>
      m == k || (m in w.store && HasAll(d.labels, w.store[m]))
    ensures forall m <- w.store :: HasAll(d.labels, w.store[m]) ==> w'.store[m] == w.store[m]
  {
    NewestMeaning(d.labels, w.store);
    NewestMeaning(d.labels, w'.store);
    assert AllPast(c, d.labels, w.store);
  }

  // ----- what an event never touches

  /** All but the status is the same. */
  ghost predicate SameObject(x: Ifo, y: Ifo) {
    x.name == y.name && x.labels == y.labels && x.created == y.created && x.spec == y.spec
  }

  /** A desired IFO's ruleset has detected this one now. */
  ghost predicate WasDetected(e: Event, desired: seq<Ifo>, x: Ifo) {
    exists d <- desired :: x.status == IfoStatus(Active, None, Some(e.now), [d.spec.ruleSet], e.subject.generation)
  }

  /** Its status may stay, or say completed or detected as of now. */
  ghost predicate MovesTo(e: Event, desired: seq<Ifo>, x: Ifo, y: Ifo) {
    && SameObject(x, y)
    && (|| y.status == x.status || WasDetected(e, desired, y)
        || y.status == IfoStatus(
             Completed, Some(e.now), x.status.lastDetected, x.status.detectedBy, e.subject.generation))
  }

  /** The IFO is new: created now under its own name, with the spec and the labels of a desired one. It is detected,
      or, when a call failed, may be without any status. */
  ghost predicate MadeFor(e: Event, desired: seq<Ifo>, w: World, n: Name, x: Ifo) {
    && w.next <= n && x.name == n && x.created == e.now
    && (exists d <- desired :: x.spec == d.spec && x.labels == d.labels)
    && (WasDetected(e, desired, x) || (!e.clean && x.status == IfoStatus(Unset, None, None, [], 0)))
  }

  ghost predicate OnlyAdds(e: Event, desired: seq<Ifo>, w: World, w': World) {
    && w.next <= w'.next
    && forall n <- w'.store ::
      if n in w.store then MovesTo(e, desired, w.store[n], w'.store[n]) else MadeFor(e, desired, w, n, w'.store[n])
  }

  lemma {:induction false} TraceOnlyAdds(e: Event, c: Context, desired: seq<Ifo>, trace: seq<World>, i: nat)
    requires DetectionPass(c, desired, e.clean, trace) && i < |trace| && c.now == e.now && c.subject == e.subject
    requires forall n <- trace[0].store :: n < trace[0].next
    ensures OnlyAdds(e, desired, trace[0], trace[i]) && forall n <- trace[i].store :: n < trace[i].next
  {
    if i > 0 {
      TraceOnlyAdds(e, c, desired, trace, i - 1);
      StepOnlyAdds(e, c, desired, desired[i - 1], trace[0], trace[i - 1], trace[i]);
    }
  }

  lemma StepOnlyAdds(e: Event, c: Context, desired: seq<Ifo>, d: Ifo, w0: World, w: World, w': World)
    requires DetectStep(c, d, e.clean, w, w') && d in desired && c.now == e.now && c.subject == e.subject
    requires OnlyAdds(e, desired, w0, w) && forall n <- w.store :: n < w.next
    requires forall n <- w0.store :: n < w0.next
    ensures OnlyAdds(e, desired, w0, w') && forall n <- w'.store :: n < w'.next
  {
    if n :| Reuses(c, d, w.store, n) && w' == w.(store := w.store[n := c.Redetected(w.store[n], d)]) {
      assert n in w0.store ==> MovesTo(e, desired, w0.store[n], w.store[n]);
      assert WasDetected(e, desired, w'.store[n]);
    } else if w' != w {
      assert w.next !in w.store;
      assert WasDetected(e, desired, w'.store[w.next]) || !e.clean;
    }
  }

  /** Whatever fails, handling an event changes nothing but statuses of IFOs that were there, to completed or detected
      as of now, and those that appear are made for what its rulesets detect. */
  lemma HandlingOnlyAdds(config: Config, cel: Cel, e: Event, w: World, w': World, before: Time)
    requires e.Handled? && Good(w, before) && before <= e.now && Step(config, cel, e, w, w')
    ensures OnlyAdds(e, DesiredBy(cel, e), w, w')
  {
    var trace: seq<World> :| HandleTrace(config, cel, e, w, w', trace);
    forall n | n in w.store
      ensures n < w.next
    {
      assert GoodIfo(n, w.store[n], w.next, before);
    }
    if e.ruleSets != [] && trace != [] {
      TraceOnlyAdds(e, ContextOf(config, e), DesiredBy(cel, e), trace, |trace| - 1);
      AddsSince(e, DesiredBy(cel, e), ContextOf(config, e), w, trace[0], w');
    }
  }

  lemma AddsSince(e: Event, desired: seq<Ifo>, c: Context, w: World, w0: World, w': World)
    requires CompletionPass(c, OperationNames(desired), e.clean, w.store, w0.store) && w0.next == w.next
    requires c.now == e.now && c.subject == e.subject
    requires OnlyAdds(e, desired, w0, w') && forall n <- w.store :: n < w.next
    ensures OnlyAdds(e, desired, w, w')
  {
    forall n | n in w'.store
      ensures if n in w.store then MovesTo(e, desired, w.store[n], w'.store[n])
        else MadeFor(e, desired, w, n, w'.store[n])
    {
      if n in w0.store {
        assert MovesTo(e, desired, w0.store[n], w'.store[n]) && MovesTo(e, desired, w.store[n], w0.store[n]);
      }
    }
  }

  /** Deleting a subject without failure deletes exactly the IFOs that name it by uid, name, namespace and kind. */
  lemma DeletionMeaning(config: Config, cel: Cel, e: Event, w: World, w': World, before: Time)
    requires e.Deleted? && e.clean && Good(w, before) && Step(config, cel, e, w, w')
    ensures forall n :: n in w'.store <==> n in w.store && !StandsFor(e.subject, w.store[n].spec.operation, w.store[n])
    ensures w'.next == w.next && forall n <- w'.store :: w'.store[n] == w.store[n]
  {
    forall n | n in w.store
      ensures n in w'.store <==> !StandsFor(e.subject, w.store[n].spec.operation, w.store[n])
    {
      assert GoodIfo(n, w.store[n], w.next, before) && Indexed(w.store[n]);
      SubjectSelection(e.subject, w.store[n]);
    }
  }

  // ----- one live IFO

  /** Both are of one subject, stand for one operation and were made for one ruleset. */
  ghost predicate SameSubjectAndOperation(x: Ifo, y: Ifo) {
    var a, b := x.spec.subject, y.spec.subject;
    && a.uid == b.uid && a.name == b.name && a.namespace == b.namespace && a.kind == b.kind
    && x.spec.operation == y.spec.operation && x.spec.ruleSet == y.spec.ruleSet
  }

  lemma KeyMeaning(x: Ifo, y: Ifo)
    ensures Key(x) == Key(y) <==> SameSubjectAndOperation(x, y)
  {
  }

  /** With labels fixed and a positive threshold: of any two IFOs in any state of a run that agree in subject, operation
      and ruleset one has completed, and the one created no later at least a threshold before any later time. */
  lemma OneIsLive(
    config: Config, cel: Cel, labelsOf: OperationKey -> Labels, states: seq<World>, events: seq<Event>, i: nat,
    now: Time, a: Name, b: Name)
    requires config.threshold > 0 && FixedRun(config, cel, labelsOf, states, events)
    requires i < |states| && After(events[..i], now)
    requires a in states[i].store && b in states[i].store && a != b
    requires SameSubjectAndOperation(states[i].store[a], states[i].store[b])
    requires states[i].store[a].created <= states[i].store[b].created
    ensures var x, y := states[i].store[a], states[i].store[b];
      && x.created < y.created && x.status.phase == Completed
      && x.status.completed.Some? && x.status.completed.value + config.threshold <= now
  {
    OnlyNewestIsLive(config, cel, labelsOf, states, events, i, now);
    RunKeepsInvariant(config, cel, labelsOf, states, events, i, now);
    var s := states[i].store;
    KeyMeaning(s[a], s[b]);
    assert SameOperation(s, a, b) && Twin(s, a, b);
    assert GoodIfo(a, s[a], states[i].next, now);
  }
}
