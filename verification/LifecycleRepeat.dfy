/** Repeated events, missed detections, and runs that retain nothing. */
module LifecycleRepeat {
  import opened Prelude
  import opened Api
  import opened Evaluator
  import opened Operations
  import opened Lifecycle
  import opened LifecycleSafety
  import opened LifecycleOutcome
  import opened LifecycleLabels
  import opened LifecycleDebounce

  /** The values of the two timestamps are all that differs. */
  ghost predicate SameButTimes(a: Ifo, b: Ifo) {
    && b == a.(status := a.status.(completed := b.status.completed, lastDetected := b.status.lastDetected))
    && (a.status.completed.Some? <==> b.status.completed.Some?)
    && (a.status.lastDetected.Some? <==> b.status.lastDetected.Some?)
  }

  ghost predicate SameButTimesAll(w: World, w': World) {
    && w'.next == w.next && w'.store.Keys == w.store.Keys
    && forall n <- w.store :: SameButTimes(w.store[n], w'.store[n])
  }

  /** An IFO of the subject whose operation is not among those desired. */
  predicate Undesired(c: Context, desired: seq<Ifo>, ifo: Ifo) {
    Matches(SubjectLabels(c.subject), ifo.labels) && ifo.spec.operation !in OperationNames(desired)
  }

  /** What a clean event leaves behind: detections for all desired, and the subject's other IFOs
      completed, for the last time by this event unless they are past the threshold. */
  ghost predicate Settled(c: Context, desired: seq<Ifo>, s: Store) {
    && (forall d <- desired :: exists n :: DetectedAs(c, s, d, n))
    && forall n <- s :: Undesired(c, desired, s[n]) ==>
      c.Past(s[n]) || (c.config.retain && s[n].status.completed.Some? && s[n] == c.Completed(s[n]))
  }

  lemma CleanEventSettles(c: Context, desired: seq<Ifo>, w: World, trace: seq<World>)
    requires Good(w, c.now) && forall d <- desired :: Indexed(d) && IsSubjectOf(c.subject, d)
    requires DetectionPass(c, desired, true, trace) && trace[0].next == w.next
    requires CompletionPass(c, OperationNames(desired), true, w.store, trace[0].store)
    ensures Settled(c, desired, trace[|trace| - 1].store)
  {
    CompletionKeepsGood(c, OperationNames(desired), true, w, trace[0]);
    EveryMatchIsActive(c, desired, trace, trace[|trace| - 1].store);
    TraceSpares(c, desired, true, trace, |trace| - 1);
  }

  lemma CompletionRepeats(c0: Context, c: Context, desired: seq<Ifo>, w: World, w': World)
    requires c == c0.(now := c.now) && c0.now <= c.now && Settled(c0, desired, w.store)
    requires CompletionPass(c, OperationNames(desired), true, w.store, w'.store) && w'.next == w.next
    ensures SameButTimesAll(w, w')
  {
    forall n | n in w.store
      ensures n in w'.store && SameButTimes(w.store[n], w'.store[n])
    {
      if Missed(c, OperationNames(desired), w.store[n]) {
        assert !c0.Past(w.store[n]);
      }
    }
  }

  // ----- what a repeated detection finds

  /** A detection changes the timestamps of this IFO only. */
  ghost predicate StaysDetected(c: Context, d: Ifo, x: Ifo) {
    && x.status.phase == Active && x.status.completed.None? && x.status.lastDetected.Some?
    && x.status.detectedBy == [d.spec.ruleSet] && x.status.subjectGeneration == c.subject.generation
  }

  /** The newest IFOs that the desired labels select are all active, detected by the desired ruleset
      and at the subject's generation. */
  ghost predicate NewestDetected(c: Context, desired: seq<Ifo>, s: Store) {
    forall d, n {:trigger Newest(s, d.labels, n)} :: d in desired && Newest(s, d.labels, n) ==>
      StaysDetected(c, d, s[n])
  }

  ghost predicate EachSelects(desired: seq<Ifo>, s: Store) {
    forall d <- desired :: exists n :: Selected(d.labels, s, n)
  }

  lemma SameButTimesShape(w: World, w': World, labels: Labels)
    requires SameButTimesAll(w, w')
    ensures SameShape(labels, w.store, w'.store)
  {
    assert forall n <- w.store :: SameButTimes(w.store[n], w'.store[n]);
  }

  lemma StillDetected(c0: Context, c: Context, desired: seq<Ifo>, d: Ifo, w0: World, w: World)
    requires c == c0.(now := c.now) && d in desired && SameButTimesAll(w0, w)
    requires NewestDetected(c0, desired, w0.store) && EachSelects(desired, w0.store)
    ensures forall n :: Newest(w.store, d.labels, n) ==> StaysDetected(c, d, w.store[n])
    ensures AllLive(c, d.labels, w.store)
  {
    SameButTimesShape(w0, w, d.labels);
    SameNewest(d.labels, w0.store, w.store);
    forall n | Newest(w.store, d.labels, n)
      ensures StaysDetected(c, d, w.store[n])
    {
      assert Newest(w0.store, d.labels, n) && SameButTimes(w0.store[n], w.store[n]);
    }
    var m :| Selected(d.labels, w0.store, m);
    assert Selected(d.labels, w.store, m);
  }

  lemma RedetectedIsSame(c: Context, d: Ifo, x0: Ifo, x: Ifo)
    requires SameButTimes(x0, x) && StaysDetected(c, d, x)
    ensures SameButTimes(x0, c.Redetected(x, d))
  {
  }

  /** Detecting what stays detected changes timestamps only. */
  lemma StepRepeats(c: Context, d: Ifo, w0: World, w: World, w': World)
    requires AllLive(c, d.labels, w.store)
    requires forall n :: Newest(w.store, d.labels, n) ==> StaysDetected(c, d, w.store[n])
    requires SameButTimesAll(w0, w) && DetectStep(c, d, true, w, w')
    ensures SameButTimesAll(w0, w')
  {
    NoneNeedsFresh(c, d, w.store);
    var n :| Reuses(c, d, w.store, n) && w' == w.(store := w.store[n := c.Redetected(w.store[n], d)]);
    RedetectedIsSame(c, d, w0.store[n], w.store[n]);
  }

  lemma {:induction false} TraceRepeats(
    c0: Context, c: Context, desired: seq<Ifo>, w0: World, trace: seq<World>, i: nat)
    requires c == c0.(now := c.now) && DetectionPass(c, desired, true, trace) && i < |trace|
    requires NewestDetected(c0, desired, w0.store) && EachSelects(desired, w0.store)
    requires SameButTimesAll(w0, trace[0])
    ensures SameButTimesAll(w0, trace[i])
  {
    if i > 0 {
      TraceRepeats(c0, c, desired, w0, trace, i - 1);
      StillDetected(c0, c, desired, desired[i - 1], w0, trace[i - 1]);
      StepRepeats(c, desired[i - 1], w0, trace[i - 1], trace[i]);
    }
  }

  /** What a step of the pass selected or created is selected from then on. */
  lemma {:induction false} TraceSelects(c: Context, desired: seq<Ifo>, trace: seq<World>, k: nat, i: nat)
    returns (n: Name)
    requires DetectionPass(c, desired, true, trace) && k < i < |trace|
    requires Good(trace[0], c.now) && forall x <- desired :: Indexed(x)
    ensures Selected(desired[k].labels, trace[i].store, n)
    decreases i
  {
    TraceKeepsGood(c, desired, true, trace, i - 1);
    if k == i - 1 {
      n := OwnStep(c, desired[k], desired[k], trace[k], trace[i]);
    } else {
      n := TraceSelects(c, desired, trace, k, i - 1);
      KeepsSelected(c, desired[i - 1], trace[i - 1], trace[i], desired[k].labels, n);
    }
  }

  lemma KeepsSelected(c: Context, x: Ifo, w: World, w': World, labels: Labels, n: Name)
    requires Timely(w, c.now) && DetectStep(c, x, true, w, w') && Selected(labels, w.store, n)
    ensures Selected(labels, w'.store, n)
  {
    assert GoodIfo(n, w.store[n], w.next, c.now);
  }

  lemma PassSelects(c: Context, desired: seq<Ifo>, trace: seq<World>)
    requires DetectionPass(c, desired, true, trace)
    requires Good(trace[0], c.now) && forall x <- desired :: Indexed(x)
    ensures EachSelects(desired, trace[|desired|].store)
  {
    forall d | d in desired
      ensures exists n :: Selected(d.labels, trace[|desired|].store, n)
    {
      var k :| 0 <= k < |desired| && desired[k] == d;
      var n := TraceSelects(c, desired, trace, k, |desired|);
    }
  }

  // ----- the newest after a clean event

  /** Some newest IFO that the labels select carries this event's detection. */
  ghost predicate NewestIsDetected(c: Context, d: Ifo, s: Store) {
    exists n :: Newest(s, d.labels, n) && DetectedAs(c, s, d, n)
  }

  lemma DetectsNewest(c: Context, d: Ifo, x: Ifo, w: World, w': World)
    requires Good(w, c.now) && Indexed(d) && Key(x) == Key(d) && x.labels == d.labels && DetectStep(c, x, true, w, w')
    ensures NewestIsDetected(c, d, w'.store)
  {
    var t := OwnStep(c, d, x, w, w');
    IndexedSelectsOwn(d, w.store);
    forall m | m in w'.store && Matches(d.labels, w'.store[m].labels)
      ensures w'.store[m].created <= w'.store[t].created
    {
      assert m != t ==> m in w.store && GoodIfo(m, w.store[m], w.next, c.now);
    }
    assert Newest(w'.store, d.labels, t) && DetectedAs(c, w'.store, d, t);
  }

  lemma KeepsNewest(c: Context, d: Ifo, x: Ifo, w: World, w': World)
    requires Good(w, c.now) && Indexed(d) && Indexed(x) && Key(x) != Key(d) && DetectStep(c, x, true, w, w')
    requires NewestIsDetected(c, d, w.store)
    ensures NewestIsDetected(c, d, w'.store)
  {
    OtherStep(c, d, x, w, w');
    SameNewest(d.labels, w.store, w'.store);
    var n :| Newest(w.store, d.labels, n) && DetectedAs(c, w.store, d, n);
    assert Selected(d.labels, w.store, n);
    assert Newest(w'.store, d.labels, n) && DetectedAs(c, w'.store, d, n);
  }

  lemma {:induction false} TraceDetectsNewest(c: Context, desired: seq<Ifo>, d: Ifo, trace: seq<World>, i: nat)
    requires DetectionPass(c, desired, true, trace) && i < |trace| && d in desired && Agree(desired)
    requires Good(trace[0], c.now) && forall x <- desired :: Indexed(x)
    ensures Seen(desired, d, i) ==> NewestIsDetected(c, d, trace[i].store)
  {
    if i > 0 {
      TraceDetectsNewest(c, desired, d, trace, i - 1);
      TraceKeepsGood(c, desired, true, trace, i - 1);
      SeenNext(desired, d, i);
      if Seen(desired, d, i) {
        NextDetectsNewest(c, d, desired[i - 1], trace[i - 1], trace[i]);
      }
    }
  }

  lemma NextDetectsNewest(c: Context, d: Ifo, x: Ifo, w: World, w': World)
    requires Good(w, c.now) && Indexed(d) && Indexed(x) && DetectStep(c, x, true, w, w')
    requires if Key(x) == Key(d) then x.labels == d.labels else NewestIsDetected(c, d, w.store)
    ensures NewestIsDetected(c, d, w'.store)
  {
    if Key(x) == Key(d) {
      DetectsNewest(c, d, x, w, w');
    } else {
      KeepsNewest(c, d, x, w, w');
    }
  }

  /** No two IFOs are the newest ones that some desired labels select. */
  ghost predicate NoTies(desired: seq<Ifo>, s: Store) {
    forall d, m, n {:trigger Newest(s, d.labels, m), Newest(s, d.labels, n)} ::
      d in desired && Newest(s, d.labels, m) && Newest(s, d.labels, n) ==> m == n
  }

  lemma UntiedAreDetected(c: Context, desired: seq<Ifo>, trace: seq<World>)
    requires DetectionPass(c, desired, true, trace) && Agree(desired)
    requires Good(trace[0], c.now) && forall x <- desired :: Indexed(x)
    requires NoTies(desired, trace[|trace| - 1].store)
    ensures NewestDetected(c, desired, trace[|trace| - 1].store)
  {
    var s := trace[|trace| - 1].store;
    forall d, n | d in desired && Newest(s, d.labels, n)
      ensures StaysDetected(c, d, s[n])
    {
      DesiredIsSeen(desired, d);
      TraceDetectsNewest(c, desired, d, trace, |trace| - 1);
    }
  }

  // ----- a repeated event

  /** What a clean event leaves for the next one. */
  lemma EventLeaves(config: Config, cel: Cel, e: Event, w: World, w': World, before: Time)
    requires e.Handled? && e.clean && e.ruleSets != [] && Good(w, before) && before <= e.now
    requires Step(config, cel, e, w, w')
    ensures Settled(ContextOf(config, e), DesiredBy(cel, e), w'.store) && EachSelects(DesiredBy(cel, e), w'.store)
    ensures Good(w', e.now)
  {
    var c, desired := ContextOf(config, e), DesiredBy(cel, e);
    var trace := CleanPasses(config, cel, e, w, w');
    CleanEventSettles(c, desired, w, trace);
    CompletionKeepsGood(c, OperationNames(desired), true, w, trace[0]);
    PassSelects(c, desired, trace);
    StepKeepsGood(config, cel, e, w, w', before);
  }

  lemma PassesRepeat(c0: Context, c: Context, desired: seq<Ifo>, w0: World, trace: seq<World>)
    requires c == c0.(now := c.now) && c0.now <= c.now && Settled(c0, desired, w0.store)
    requires NewestDetected(c0, desired, w0.store) && EachSelects(desired, w0.store)
    requires DetectionPass(c, desired, true, trace) && trace[0].next == w0.next
    requires CompletionPass(c, OperationNames(desired), true, w0.store, trace[0].store)
    ensures SameButTimesAll(w0, trace[|trace| - 1])
  {
    CompletionRepeats(c0, c, desired, w0, trace[0]);
    TraceRepeats(c0, c, desired, w0, trace, |trace| - 1);
  }

  /** When all that the repetition finds newest was detected already, it changes only timestamps. */
  lemma DetectedRepeats(
    config: Config, cel: Cel, e: Event, e': Event, w: World, w': World, w'': World, before: Time)
    requires e.Handled? && e.clean && e' == e.(now := e'.now) && before <= e.now <= e'.now && Good(w, before)
    requires Step(config, cel, e, w, w') && Step(config, cel, e', w', w'')
    requires NewestDetected(ContextOf(config, e), DesiredBy(cel, e), w'.store)
    ensures SameButTimesAll(w', w'')
  {
    if e.ruleSets != [] {
      EventLeaves(config, cel, e, w, w', before);
      var trace := CleanPasses(config, cel, e', w', w'');
      PassesRepeat(ContextOf(config, e), ContextOf(config, e'), DesiredBy(cel, e), w', trace);
    }
  }

  /** Handling the same subject again under the same rulesets creates nothing, deletes nothing and changes
      only timestamps, however much later and however many rules name one operation: for any threshold
      and whatever labels came before, unless newest IFOs tie. */
  lemma RepeatChangesOnlyTimes(
    config: Config, cel: Cel, e: Event, e': Event, w: World, w': World, w'': World, before: Time)
    requires e.Handled? && e.clean && e' == e.(now := e'.now) && before <= e.now <= e'.now && Good(w, before)
    requires NamesDiffer(e.ruleSets) && NoTies(DesiredBy(cel, e), w'.store)
    requires Step(config, cel, e, w, w') && Step(config, cel, e', w', w'')
    ensures SameButTimesAll(w', w'')
  {
    DesiredAgree(cel, e);
    if e.ruleSets != [] {
      UntiedEvent(config, cel, e, w, w', before);
    } else {
      assert DesiredBy(cel, e) == [];
    }
    DetectedRepeats(config, cel, e, e', w, w', w'', before);
  }

  lemma UntiedEvent(config: Config, cel: Cel, e: Event, w: World, w': World, before: Time)
    requires e.Handled? && e.clean && e.ruleSets != [] && before <= e.now && Good(w, before)
    requires Agree(DesiredBy(cel, e)) && NoTies(DesiredBy(cel, e), w'.store) && Step(config, cel, e, w, w')
    ensures NewestDetected(ContextOf(config, e), DesiredBy(cel, e), w'.store)
  {
    var c, desired := ContextOf(config, e), DesiredBy(cel, e);
    var trace := CleanPasses(config, cel, e, w, w');
    CompletionKeepsGood(c, OperationNames(desired), true, w, trace[0]);
    UntiedAreDetected(c, desired, trace);
  }

  /** IFOs with equal labels never tie while labels are fixed and the threshold is positive. */
  lemma FixedLabelsDoNotTie(labelsOf: OperationKey -> Labels, threshold: int, desired: seq<Ifo>, w: World, now: Time)
    requires Invariant(threshold, labelsOf, w, now)
    requires forall d <- desired :: Indexed(d) && d.labels == labelsOf(Key(d))
    ensures NoTies(desired, w.store)
  {
    forall d, m, n | d in desired && Newest(w.store, d.labels, m) && Newest(w.store, d.labels, n)
      ensures m == n
    {
      FixedLabelsSelectTwins(labelsOf, d, w.store);
      assert m != n ==> Twin(w.store, m, n);
    }
  }

  /** So with fixed labels and a positive threshold repetition never changes more than timestamps. */
  lemma FixedRepeat(
    config: Config, cel: Cel, labelsOf: OperationKey -> Labels, e: Event, e': Event, w: World, w': World, w'': World,
    before: Time)
    requires e.Handled? && e.clean && e' == e.(now := e'.now) && before <= e.now <= e'.now
    requires config.threshold > 0 && LabelsFixed(cel, labelsOf, e) && Invariant(config.threshold, labelsOf, w, before)
    requires Step(config, cel, e, w, w') && Step(config, cel, e', w', w'')
    ensures SameButTimesAll(w', w'')
  {
    StepKeepsInvariant(config, cel, labelsOf, e, w, w', before);
    if e.ruleSets != [] {
      DesiredShape(e.subject, Results(cel, e.subject, e.ruleSets));
      FixedLabelsDoNotTie(labelsOf, config.threshold, DesiredBy(cel, e), w', e.now);
      UntiedEvent(config, cel, e, w, w', before);
      DetectedRepeats(config, cel, e, e', w, w', w'', before);
    }
  }

  // ----- missed detections

  /** An undetected IFO inside the threshold is completed as of now, even if it was completed before,
      so every further miss restarts the threshold; without retention it is gone at once. */
  lemma MissRestartsThreshold(config: Config, cel: Cel, e: Event, w: World, w': World, before: Time, n: Name)
    requires e.Handled? && e.clean && e.ruleSets != [] && Good(w, before) && before <= e.now
    requires Step(config, cel, e, w, w') && n in w.store && IsSubjectOf(e.subject, w.store[n])
    requires w.store[n].spec.operation !in OperationNames(DesiredBy(cel, e))
    requires !w.store[n].PastDebounceThreshold(config.threshold, e.now)
    ensures if config.retain
      then n in w'.store && w'.store[n] == w.store[n].WithCompleted(e.subject, e.now)
      else n !in w'.store
  {
    var c, names := ContextOf(config, e), OperationNames(DesiredBy(cel, e));
    var trace := CleanPasses(config, cel, e, w, w');
    SubjectSelection(e.subject, w.store[n]);
    CompletionKeepsGood(c, names, true, w, trace[0]);
    TraceSpares(c, DesiredBy(cel, e), true, trace, |trace| - 1);
    assert GoodIfo(n, w.store[n], w.next, e.now);
    if !config.retain {
      TraceIsNew(c, DesiredBy(cel, e), trace, n, |trace| - 1);
    }
  }

  lemma {:induction false} TraceIsNew(c: Context, desired: seq<Ifo>, trace: seq<World>, n: Name, i: nat)
    requires DetectionPass(c, desired, true, trace) && i < |trace|
    requires n !in trace[0].store && n < trace[0].next
    ensures n !in trace[i].store && n < trace[i].next
  {
    if i > 0 {
      TraceIsNew(c, desired, trace, n, i - 1);
      assert DetectStep(c, desired[i - 1], true, trace[i - 1], trace[i]);
    }
  }

  // ----- nothing completed is kept

  ghost predicate NoneCompleted(s: Store) {
    forall n <- s :: s[n].status.completed == None && s[n].status.phase != Completed
  }

  lemma {:induction false} TraceCompletesNone(c: Context, desired: seq<Ifo>, trace: seq<World>, i: nat)
    requires DetectionPass(c, desired, true, trace) && i < |trace| && NoneCompleted(trace[0].store)
    ensures NoneCompleted(trace[i].store)
  {
    if i > 0 {
      TraceCompletesNone(c, desired, trace, i - 1);
      assert DetectStep(c, desired[i - 1], true, trace[i - 1], trace[i]);
    }
  }

  lemma StepCompletesNone(config: Config, cel: Cel, e: Event, w: World, w': World)
    requires e.clean && !config.retain && NoneCompleted(w.store) && Step(config, cel, e, w, w')
    ensures NoneCompleted(w'.store)
  {
    if e.Handled? && e.ruleSets != [] {
      var trace := CleanPasses(config, cel, e, w, w');
      TraceCompletesNone(ContextOf(config, e), DesiredBy(cel, e), trace, |trace| - 1);
    }
  }

  /** Without retention and failures a completed IFO is never left in the store. */
  lemma {:induction false} CompletedAreNeverKept(
      config: Config, cel: Cel, states: seq<World>, events: seq<Event>, i: nat)
    requires IsRun(config, cel, states, events) && i < |states| && !config.retain
    requires forall e <- events :: e.clean
    ensures NoneCompleted(states[i].store)
  {
    if i > 0 {
      CompletedAreNeverKept(config, cel, states, events, i - 1);
      assert events[i - 1] in events;
      StepCompletesNone(config, cel, events[i - 1], states[i - 1], states[i]);
    }
  }
}
