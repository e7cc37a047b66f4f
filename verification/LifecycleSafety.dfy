/** What every run of events keeps, whichever API calls fail. */
module LifecycleSafety {
  import opened Api
  import opened Evaluator
  import opened Operations
  import opened Lifecycle

  // ----- status and index: for every configuration and all labels

  /** Phase Completed goes with a completion time, and an IFO is detected by its own ruleset only. */
  ghost predicate GoodStatus(ifo: Ifo, now: Time) {
    && (ifo.status.phase == Completed <==> ifo.status.completed.Some?)
    && (ifo.status.completed.Some? ==> ifo.created <= ifo.status.completed.value <= now)
    && (ifo.status.detectedBy == [] || ifo.status.detectedBy == [ifo.spec.ruleSet])
  }

  ghost predicate GoodIfo(n: Name, ifo: Ifo, next: Name, now: Time) {
    n < next && ifo.name == n && ifo.created <= now && GoodStatus(ifo, now)
  }

  ghost predicate Timely(w: World, now: Time) {
    forall n <- w.store :: GoodIfo(n, w.store[n], w.next, now)
  }

  ghost predicate AllIndexed(s: Store) {
    forall n <- s :: Indexed(s[n])
  }

  ghost predicate Good(w: World, now: Time) {
    Timely(w, now) && AllIndexed(w.store)
  }

  lemma CompletionKeepsGood(c: Context, detected: set<string>, clean: bool, w: World, w': World)
    requires Good(w, c.now) && CompletionPass(c, detected, clean, w.store, w'.store) && w'.next == w.next
    ensures Good(w', c.now)
  {
    forall n | n in w'.store
      ensures GoodIfo(n, w'.store[n], w'.next, c.now) && Indexed(w'.store[n])
    {
      assert n in w.store && GoodIfo(n, w.store[n], w.next, c.now);
      assert w'.store[n] == w.store[n] || w'.store[n] == c.Completed(w.store[n]);
    }
  }

  /** The desired labels select IFOs of the desired ruleset only. */
  ghost predicate SelectsOwn(d: Ifo, s: Store) {
    forall n <- s :: Matches(d.labels, s[n].labels) ==> s[n].spec.ruleSet == d.spec.ruleSet
  }

  lemma DetectKeepsGood(c: Context, d: Ifo, clean: bool, w: World, w': World)
    requires Timely(w, c.now) && DetectStep(c, d, clean, w, w') && SelectsOwn(d, w.store)
    ensures Timely(w', c.now)
    ensures AllIndexed(w.store) && Indexed(d) ==> AllIndexed(w'.store)
  {
  }

  /** A selector made from an IFO's labels picks only IFOs of the same subject, operation and ruleset. */
  lemma MatchIsSameKey(d: Ifo, x: Ifo)
    requires Indexed(d) && Indexed(x) && Matches(d.labels, x.labels)
    ensures Key(d) == Key(x)
  {
    assert LabelSubjectUID in d.labels && LabelSubjectName in d.labels && LabelSubjectNamespace in d.labels;
    assert LabelSubjectKind in d.labels && LabelOperation in d.labels && LabelRuleSet in d.labels;
  }

  lemma IndexedSelectsOwn(d: Ifo, s: Store)
    requires Indexed(d) && AllIndexed(s)
    ensures SelectsOwn(d, s)
    ensures forall n <- s :: Matches(d.labels, s[n].labels) ==> Key(s[n]) == Key(d)
  {
    forall n | n in s && Matches(d.labels, s[n].labels)
      ensures Key(s[n]) == Key(d)
    {
      MatchIsSameKey(d, s[n]);
    }
  }

  lemma {:induction false} TraceKeepsGood(c: Context, desired: seq<Ifo>, clean: bool, trace: seq<World>, i: nat)
    requires DetectionPass(c, desired, clean, trace) && i < |trace|
    requires Good(trace[0], c.now) && forall d <- desired :: Indexed(d)
    ensures Good(trace[i], c.now)
  {
    if i > 0 {
      TraceKeepsGood(c, desired, clean, trace, i - 1);
      IndexedSelectsOwn(desired[i - 1], trace[i - 1].store);
      DetectKeepsGood(c, desired[i - 1], clean, trace[i - 1], trace[i]);
    }
  }

  lemma StepKeepsGood(config: Config, cel: Cel, e: Event, w: World, w': World, before: Time)
    requires Good(w, before) && before <= e.now && Step(config, cel, e, w, w')
    ensures Good(w', e.now)
  {
    assert Good(w, e.now);
    if e.Handled? {
      var trace :| HandleTrace(config, cel, e, w, w', trace);
      if e.ruleSets != [] && trace != [] {
        DesiredShape(e.subject, Results(cel, e.subject, e.ruleSets));
        CompletionKeepsGood(ContextOf(config, e), OperationNames(DesiredBy(cel, e)), e.clean, w, trace[0]);
        TraceKeepsGood(ContextOf(config, e), DesiredBy(cel, e), e.clean, trace, |trace| - 1);
      }
    }
  }

  // ----- one live IFO: for a positive threshold and labels fixed per operation key

  /** Whenever an operation of a subject is detected by a ruleset, it gets the same labels. */
  ghost predicate LabelsFixed(cel: Cel, labelsOf: OperationKey -> Labels, e: Event) {
    forall d <- DesiredBy(cel, e) :: d.labels == labelsOf(Key(d))
  }

  ghost predicate Keyed(labelsOf: OperationKey -> Labels, s: Store) {
    forall n <- s :: s[n].labels == labelsOf(Key(s[n]))
  }

  ghost predicate Twin(s: Store, a: Name, b: Name) {
    a in s && b in s && a != b && s[a].labels == s[b].labels
  }

  /** Of two IFOs with equal labels one is older, and it was past the threshold when the other was created. */
  ghost predicate Ladder(threshold: int, s: Store) {
    forall a, b {:trigger Twin(s, a, b)} :: Twin(s, a, b) ==>
      && s[a].created != s[b].created
      && (s[a].created < s[b].created ==> s[a].PastDebounceThreshold(threshold, s[b].created))
  }

  ghost predicate Invariant(threshold: int, labelsOf: OperationKey -> Labels, w: World, now: Time) {
    Good(w, now) && Keyed(labelsOf, w.store) && Ladder(threshold, w.store)
  }

  /** A selector made from the desired labels picks exactly the IFOs with these labels. */
  ghost predicate SelectsTwins(d: Ifo, s: Store) {
    forall n <- s :: Matches(d.labels, s[n].labels) <==> s[n].labels == d.labels
  }

  lemma FixedLabelsSelectTwins(labelsOf: OperationKey -> Labels, d: Ifo, s: Store)
    requires Keyed(labelsOf, s) && AllIndexed(s) && Indexed(d) && d.labels == labelsOf(Key(d))
    ensures SelectsTwins(d, s)
  {
    IndexedSelectsOwn(d, s);
  }

  /** The completion pass never touches an IFO that has a younger twin: that one is past the threshold. */
  lemma CompletionKeepsInvariant(
      c: Context, detected: set<string>, clean: bool, labelsOf: OperationKey -> Labels, w: World, w': World)
    requires Invariant(c.config.threshold, labelsOf, w, c.now)
    requires CompletionPass(c, detected, clean, w.store, w'.store) && w'.next == w.next
    ensures Invariant(c.config.threshold, labelsOf, w', c.now)
  {
    CompletionKeepsGood(c, detected, clean, w, w');
    var s, s' := w.store, w'.store;
    forall n | n in s'
      ensures n in s && (s'[n] == s[n] || (!c.Past(s[n]) && s'[n] == c.Completed(s[n])))
    {
    }
    UpdatesKeepLadder(c, s, s');
  }

  /** Changing the status of IFOs that are not past the threshold keeps the ladder: none has a younger twin. */
  lemma UpdatesKeepLadder(c: Context, s: Store, s': Store)
    requires Ladder(c.config.threshold, s) && forall n <- s :: s[n].created <= c.now
    requires forall n <- s' :: n in s && (s'[n] == s[n] || (!c.Past(s[n]) && s'[n] == s[n].(status := s'[n].status)))
    ensures Ladder(c.config.threshold, s')
  {
    forall a, b | Twin(s', a, b)
      ensures s'[a].created != s'[b].created
      ensures s'[a].created < s'[b].created ==> s'[a].PastDebounceThreshold(c.config.threshold, s'[b].created)
    {
      assert Twin(s, a, b);
    }
  }

  lemma DetectKeepsInvariant(c: Context, d: Ifo, clean: bool, labelsOf: OperationKey -> Labels, w: World, w': World)
    requires c.config.threshold > 0
    requires Invariant(c.config.threshold, labelsOf, w, c.now)
    requires Indexed(d) && d.labels == labelsOf(Key(d)) && DetectStep(c, d, clean, w, w')
    ensures Invariant(c.config.threshold, labelsOf, w', c.now)
  {
    FixedLabelsSelectTwins(labelsOf, d, w.store);
    IndexedSelectsOwn(d, w.store);
    DetectKeepsGood(c, d, clean, w, w');
    DetectKeepsKeyed(c, d, clean, labelsOf, w, w');
    DetectKeepsLadder(c, d, clean, w, w');
  }

  lemma DetectKeepsKeyed(c: Context, d: Ifo, clean: bool, labelsOf: OperationKey -> Labels, w: World, w': World)
    requires Keyed(labelsOf, w.store) && d.labels == labelsOf(Key(d)) && DetectStep(c, d, clean, w, w')
    ensures Keyed(labelsOf, w'.store)
  {
    forall n | n in w'.store
      ensures w'.store[n].labels == labelsOf(Key(w'.store[n]))
    {
      if n !in w.store || w'.store[n] != w.store[n] {
        assert Key(w'.store[n]) == Key(d) || (n in w.store && Key(w'.store[n]) == Key(w.store[n]));
      }
    }
  }

  lemma DetectKeepsLadder(c: Context, d: Ifo, clean: bool, w: World, w': World)
    requires c.config.threshold > 0 && Timely(w, c.now) &&
      Ladder(c.config.threshold, w.store) && SelectsTwins(d, w.store)
    requires DetectStep(c, d, clean, w, w')
    ensures Ladder(c.config.threshold, w'.store)
  {
    var s, s' := w.store, w'.store;
    assert forall n <- s :: GoodIfo(n, s[n], w.next, c.now);
    if n :| Reuses(c, d, s, n) && w' == w.(store := s[n := c.Redetected(s[n], d)]) {
      UpdatesKeepLadder(c, s, s');
    } else if w' != w {
      FreshKeepsLadder(c, d, w, w');
    }
  }

  lemma FreshKeepsLadder(c: Context, d: Ifo, w: World, w': World)
    requires c.config.threshold > 0 && Timely(w, c.now) &&
      Ladder(c.config.threshold, w.store) && SelectsTwins(d, w.store)
    requires NeedsFresh(c, d, w.store)
    requires w.next in w'.store && w'.store == w.store[w.next := w'.store[w.next]]
    requires w'.store[w.next].created == c.now && w'.store[w.next].labels == d.labels
    ensures Ladder(c.config.threshold, w'.store)
  {
    var s, s' := w.store, w'.store;
    forall a | a in s && s[a].labels == d.labels
      ensures c.Past(s[a]) && s[a].created < c.now
    {
      var m :| Newest(s, d.labels, m) && c.Past(s[m]);
      assert a != m ==> Twin(s, a, m);
    }
    assert w.next !in s;
    forall a, b | Twin(s', a, b)
      ensures s'[a].created != s'[b].created
      ensures s'[a].created < s'[b].created ==> s'[a].PastDebounceThreshold(c.config.threshold, s'[b].created)
    {
      if a != w.next && b != w.next {
        assert Twin(s, a, b);
      }
    }
  }

  lemma {:induction false} TraceKeepsInvariant(
    c: Context, desired: seq<Ifo>, clean: bool, labelsOf: OperationKey -> Labels, trace: seq<World>, i: nat)
    requires c.config.threshold > 0
    requires DetectionPass(c, desired, clean, trace) && i < |trace|
    requires Invariant(c.config.threshold, labelsOf, trace[0], c.now)
    requires forall d <- desired :: Indexed(d) && d.labels == labelsOf(Key(d))
    ensures Invariant(c.config.threshold, labelsOf, trace[i], c.now)
  {
    if i > 0 {
      TraceKeepsInvariant(c, desired, clean, labelsOf, trace, i - 1);
      DetectKeepsInvariant(c, desired[i - 1], clean, labelsOf, trace[i - 1], trace[i]);
    }
  }

  lemma StepKeepsInvariant(
      config: Config, cel: Cel, labelsOf: OperationKey -> Labels, e: Event, w: World, w': World, before: Time)
    requires config.threshold > 0 && before <= e.now && LabelsFixed(cel, labelsOf, e)
    requires Invariant(config.threshold, labelsOf, w, before) && Step(config, cel, e, w, w')
    ensures Invariant(config.threshold, labelsOf, w', e.now)
  {
    assert Invariant(config.threshold, labelsOf, w, e.now);
    if e.Deleted? {
      UpdatesKeepLadder(ContextOf(config, e), w.store, w'.store);
      StepKeepsGood(config, cel, e, w, w', before);
    } else {
      var trace :| HandleTrace(config, cel, e, w, w', trace);
      if e.ruleSets != [] && trace != [] {
        var c, desired := ContextOf(config, e), DesiredBy(cel, e);
        DesiredShape(e.subject, Results(cel, e.subject, e.ruleSets));
        CompletionKeepsInvariant(c, OperationNames(desired), e.clean, labelsOf, w, trace[0]);
        TraceKeepsInvariant(c, desired, e.clean, labelsOf, trace, |trace| - 1);
      }
    }
  }

  // ----- runs

  ghost predicate FixedRun(
      config: Config, cel: Cel, labelsOf: OperationKey -> Labels, states: seq<World>, events: seq<Event>)
  {
    IsRun(config, cel, states, events) && forall e <- events :: LabelsFixed(cel, labelsOf, e)
  }

  /** A time no earlier than any event so far. */
  ghost predicate After(events: seq<Event>, now: Time) {
    forall e <- events :: e.now <= now
  }

  lemma {:induction false} RunIsGood(
      config: Config, cel: Cel, states: seq<World>, events: seq<Event>, i: nat, now: Time)
    requires IsRun(config, cel, states, events) && i < |states| && After(events[..i], now)
    ensures Good(states[i], now)
  {
    if i > 0 {
      var e := events[i - 1];
      assert e in events[..i];
      assert After(events[..i - 1], e.now);
      RunIsGood(config, cel, states, events, i - 1, e.now);
      StepKeepsGood(config, cel, e, states[i - 1], states[i], e.now);
    }
  }

  lemma {:induction false} RunKeepsInvariant(
    config: Config, cel: Cel, labelsOf: OperationKey -> Labels, states: seq<World>,
    events: seq<Event>, i: nat, now: Time)
    requires config.threshold > 0 && FixedRun(config, cel, labelsOf, states, events)
    requires i < |states| && After(events[..i], now)
    ensures Invariant(config.threshold, labelsOf, states[i], now)
  {
    if i > 0 {
      var e := events[i - 1];
      assert e in events[..i];
      assert After(events[..i - 1], e.now);
      RunKeepsInvariant(config, cel, labelsOf, states, events, i - 1, e.now);
      StepKeepsInvariant(config, cel, labelsOf, e, states[i - 1], states[i], e.now);
    }
  }

  /** Two IFOs stand for the same operation of the same subject, detected by the same ruleset. */
  ghost predicate SameOperation(s: Store, a: Name, b: Name) {
    a in s && b in s && a != b && Key(s[a]) == Key(s[b])
  }

  /** Two IFOs of one operation are never both live, and the older of them is past the threshold. */
  ghost predicate OnlyNewestLive(threshold: int, s: Store, now: Time) {
    forall a, b {:trigger SameOperation(s, a, b)} :: SameOperation(s, a, b) ==>
      && (s[a].created <= s[b].created ==> s[a].PastDebounceThreshold(threshold, now))
      && (s[a].status.phase != Completed ==> s[b].status.phase == Completed)
  }

  /** Safety: in every state of every run with fixed labels only the newest IFO of an operation is live. */
  lemma OnlyNewestIsLive(
    config: Config, cel: Cel, labelsOf: OperationKey -> Labels, states: seq<World>,
    events: seq<Event>, i: nat, now: Time)
    requires config.threshold > 0 && FixedRun(config, cel, labelsOf, states, events)
    requires i < |states| && After(events[..i], now)
    ensures OnlyNewestLive(config.threshold, states[i].store, now)
  {
    RunKeepsInvariant(config, cel, labelsOf, states, events, i, now);
    var s := states[i].store;
    forall a, b | SameOperation(s, a, b)
      ensures s[a].created <= s[b].created ==> s[a].PastDebounceThreshold(config.threshold, now)
      ensures s[a].status.phase != Completed ==> s[b].status.phase == Completed
    {
      assert GoodIfo(a, s[a], states[i].next, now) && GoodIfo(b, s[b], states[i].next, now);
      assert Twin(s, a, b) && Twin(s, b, a);
    }
  }

  // ----- past the threshold means frozen

  lemma {:induction false} TraceKeepsPast(
      c: Context, desired: seq<Ifo>, clean: bool, trace: seq<World>, n: Name, i: nat)
    requires DetectionPass(c, desired, clean, trace) && i < |trace|
    requires n in trace[0].store && n < trace[0].next && c.Past(trace[0].store[n])
    ensures n in trace[i].store && n < trace[i].next && trace[i].store[n] == trace[0].store[n]
  {
    if i > 0 {
      TraceKeepsPast(c, desired, clean, trace, n, i - 1);
      assert DetectStep(c, desired[i - 1], clean, trace[i - 1], trace[i]);
    }
  }

  lemma StepKeepsPast(config: Config, cel: Cel, e: Event, w: World, w': World, n: Name)
    requires Step(config, cel, e, w, w') && n in w.store && n < w.next && Indexed(w.store[n])
    requires w.store[n].PastDebounceThreshold(config.threshold, e.now)
    requires e.Deleted? ==> !IsSubjectOf(e.subject, w.store[n])
    ensures n in w'.store && w'.store[n] == w.store[n]
  {
    if e.Deleted? {
      SubjectSelection(e.subject, w.store[n]);
    } else {
      var trace :| HandleTrace(config, cel, e, w, w', trace);
      if e.ruleSets != [] && trace != [] {
        TraceKeepsPast(ContextOf(config, e), DesiredBy(cel, e), e.clean, trace, n, |trace| - 1);
      }
    }
  }

  /** An IFO past the threshold survives every later event unchanged, up to the deletion of its subject. */
  lemma {:induction false} PastIsFrozen(
    config: Config, cel: Cel, states: seq<World>, events: seq<Event>, i: nat, j: nat, n: Name, now: Time)
    requires IsRun(config, cel, states, events) && i <= j < |states|
    requires forall e <- events[i..j] :: now <= e.now
    requires n in states[i].store && states[i].store[n].PastDebounceThreshold(config.threshold, now)
    requires forall e <- events[i..j] :: e.Deleted? ==> !IsSubjectOf(e.subject, states[i].store[n])
    ensures n in states[j].store && states[j].store[n] == states[i].store[n]
    decreases j - i
  {
    if i < j {
      assert events[i..j] == events[i..j - 1] + [events[j - 1]];
      PastIsFrozen(config, cel, states, events, i, j - 1, n, now);
      var e := events[j - 1];
      assert Good(states[j - 1], e.now) by { RunIsGood(config, cel, states, events, j - 1, e.now); }
      StepKeepsPast(config, cel, e, states[j - 1], states[j], n);
    }
  }
}
