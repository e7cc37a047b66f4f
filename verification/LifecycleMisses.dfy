/** Without a positive threshold an operation must never be missed: creation times are whole seconds, so
    an IFO can be created in the second in which its predecessor completed, and the two tie. */
module LifecycleMisses {
  import opened Api
  import opened Evaluator
  import opened Operations
  import opened Lifecycle
  import opened LifecycleSafety
  import opened LifecycleOutcome
  import opened LifecycleLabels

  /** The event handles the subject of d under some ruleset and does not detect the operation of d. */
  ghost predicate Misses(cel: Cel, e: Event, d: Ifo) {
    && e.Handled? && e.ruleSets != [] && IsSubjectOf(e.subject, d)
    && d.spec.operation !in OperationNames(DesiredBy(cel, e))
  }

  /** No allowed event misses an operation that an allowed event detects. */
  ghost predicate NeverMissed(cel: Cel, allowed: Event -> bool) {
    forall e, d, e' {:trigger Gives(cel, allowed, e, d), allowed(e')} ::
      Gives(cel, allowed, e, d) && allowed(e') ==> !Misses(cel, e', d)
  }

  // ----- never missed: nothing completes and nothing is created twice

  /** The IFO is not completed and was asked for by an allowed event with these labels. */
  ghost predicate Wanted(cel: Cel, allowed: Event -> bool, ifo: Ifo) {
    ifo.status.completed.None? && exists e, d ::
      Gives(cel, allowed, e, d) && Key(d) == Key(ifo) && d.labels == ifo.labels
  }

  ghost predicate AllWanted(cel: Cel, allowed: Event -> bool, w: World) {
    && AllIndexed(w.store)
    && (forall n <- w.store :: n < w.next && Wanted(cel, allowed, w.store[n]))
    && (forall a, b {:trigger SameOperation(w.store, a, b)} :: !SameOperation(w.store, a, b))
  }

  lemma NothingMissed(cel: Cel, allowed: Event -> bool, e: Event, c: Context, clean: bool, w: World, s': Store)
    requires NeverMissed(cel, allowed) && allowed(e) && e.Handled? && e.ruleSets != [] && c.subject == e.subject
    requires AllWanted(cel, allowed, w)
    requires CompletionPass(c, OperationNames(DesiredBy(cel, e)), clean, w.store, s')
    ensures s' == w.store
  {
    forall n | n in w.store
      ensures !Missed(c, OperationNames(DesiredBy(cel, e)), w.store[n])
    {
      assert Wanted(cel, allowed, w.store[n]);
      SubjectSelection(e.subject, w.store[n]);
      var e0, d0 :| Gives(cel, allowed, e0, d0) && Key(d0) == Key(w.store[n]) && d0.labels == w.store[n].labels;
      assert !Misses(cel, e, d0);
    }
  }

  lemma DetectKeepsWanted(
      cel: Cel, allowed: Event -> bool, e: Event, c: Context, d: Ifo, clean: bool, w: World, w': World)
    requires LabelsAgree(cel, allowed) && Gives(cel, allowed, e, d) && Indexed(d) && d.status == EmptyStatus
    requires AllWanted(cel, allowed, w) && DetectStep(c, d, clean, w, w')
    ensures AllWanted(cel, allowed, w')
  {
    if n :| Reuses(c, d, w.store, n) && w' == w.(store := w.store[n := c.Redetected(w.store[n], d)]) {
      UpdateKeepsWanted(cel, allowed, w, w', n);
    } else if w' != w {
      FreshIsNew(cel, allowed, e, c, d, w);
      FreshKeepsWanted(cel, allowed, e, d, w, w');
    }
  }

  /** Nothing is past the threshold, so an IFO is created for an operation without one only. */
  lemma FreshIsNew(cel: Cel, allowed: Event -> bool, e: Event, c: Context, d: Ifo, w: World)
    requires LabelsAgree(cel, allowed) && Gives(cel, allowed, e, d) && Indexed(d)
    requires AllWanted(cel, allowed, w) && NeedsFresh(c, d, w.store)
    ensures forall n <- w.store :: Key(w.store[n]) != Key(d)
  {
    WantedSelected(cel, allowed, e, d, w);
    assert forall n <- w.store :: Wanted(cel, allowed, w.store[n]) && !c.Past(w.store[n]);
  }

  /** The labels of a desired IFO select exactly the stored IFO of its operation. */
  lemma WantedSelected(cel: Cel, allowed: Event -> bool, e: Event, d: Ifo, w: World)
    requires LabelsAgree(cel, allowed) && Gives(cel, allowed, e, d) && Indexed(d) && AllWanted(cel, allowed, w)
    ensures forall n <- w.store :: Matches(d.labels, w.store[n].labels) <==> Key(w.store[n]) == Key(d)
  {
    forall n | n in w.store
      ensures Matches(d.labels, w.store[n].labels) <==> Key(w.store[n]) == Key(d)
    {
      assert Wanted(cel, allowed, w.store[n]);
      if Matches(d.labels, w.store[n].labels) {
        MatchIsSameKey(d, w.store[n]);
      }
    }
  }

  lemma UpdateKeepsWanted(cel: Cel, allowed: Event -> bool, w: World, w': World, n: Name)
    requires AllWanted(cel, allowed, w) && n in w.store && n in w'.store
    requires w' == w.(store := w.store[n := w'.store[n]])
    requires w'.store[n] == w.store[n].(status := w'.store[n].status) && w'.store[n].status.completed.None?
    ensures AllWanted(cel, allowed, w')
  {
    forall k | k in w'.store
      ensures k < w'.next && Wanted(cel, allowed, w'.store[k]) && Indexed(w'.store[k])
    {
      assert Wanted(cel, allowed, w.store[k]) && Indexed(w.store[k]);
    }
    forall a, b
      ensures !SameOperation(w'.store, a, b)
    {
      assert !SameOperation(w.store, a, b);
    }
  }

  lemma FreshKeepsWanted(cel: Cel, allowed: Event -> bool, e: Event, d: Ifo, w: World, w': World)
    requires Gives(cel, allowed, e, d) && Indexed(d) && AllWanted(cel, allowed, w)
    requires forall n <- w.store :: Key(w.store[n]) != Key(d)
    requires w.next in w'.store && w' == World(w.store[w.next := w'.store[w.next]], w.next + 1)
    requires Key(w'.store[w.next]) == Key(d) && w'.store[w.next].labels == d.labels
    requires w'.store[w.next].spec == d.spec && w'.store[w.next].status.completed.None?
    ensures AllWanted(cel, allowed, w')
  {
    forall k | k in w'.store
      ensures k < w'.next && Wanted(cel, allowed, w'.store[k]) && Indexed(w'.store[k])
    {
      assert k != w.next ==> Wanted(cel, allowed, w.store[k]) && Indexed(w.store[k]);
    }
    forall a, b
      ensures !SameOperation(w'.store, a, b)
    {
      assert !SameOperation(w.store, a, b);
    }
  }

  lemma {:induction false} TraceKeepsWanted(
    cel: Cel, allowed: Event -> bool, e: Event, c: Context, desired: seq<Ifo>, clean: bool, trace: seq<World>, i: nat)
    requires LabelsAgree(cel, allowed) && i < |trace| && DetectionPass(c, desired, clean, trace)
    requires forall d <- desired :: Gives(cel, allowed, e, d) && Indexed(d) && d.status == EmptyStatus
    requires AllWanted(cel, allowed, trace[0])
    ensures AllWanted(cel, allowed, trace[i])
  {
    if i > 0 {
      TraceKeepsWanted(cel, allowed, e, c, desired, clean, trace, i - 1);
      DetectKeepsWanted(cel, allowed, e, c, desired[i - 1], clean, trace[i - 1], trace[i]);
    }
  }

  lemma DeleteKeepsWanted(cel: Cel, allowed: Event -> bool, e: Event, w: World, w': World)
    requires e.Deleted? && AllWanted(cel, allowed, w) && DeleteStep(e, w, w')
    ensures AllWanted(cel, allowed, w')
  {
    forall a, b
      ensures !SameOperation(w'.store, a, b)
    {
      assert !SameOperation(w.store, a, b);
    }
  }

  lemma StepKeepsWanted(config: Config, cel: Cel, allowed: Event -> bool, e: Event, w: World, w': World)
    requires LabelsAgree(cel, allowed) && NeverMissed(cel, allowed) && allowed(e)
    requires AllWanted(cel, allowed, w) && Step(config, cel, e, w, w')
    ensures AllWanted(cel, allowed, w')
  {
    if e.Deleted? {
      DeleteKeepsWanted(cel, allowed, e, w, w');
    } else {
      var trace: seq<World> :| HandleTrace(config, cel, e, w, w', trace);
      if e.ruleSets != [] && trace != [] {
        PassesKeepWanted(cel, allowed, e, ContextOf(config, e), e.clean, w, trace);
      }
    }
  }

  lemma PassesKeepWanted(
    cel: Cel, allowed: Event -> bool, e: Event, c: Context, clean: bool, w: World, trace: seq<World>)
    requires LabelsAgree(cel, allowed) && NeverMissed(cel, allowed) && AllWanted(cel, allowed, w)
    requires allowed(e) && e.Handled? && e.ruleSets != [] && c.subject == e.subject
    requires DetectionPass(c, DesiredBy(cel, e), clean, trace) && trace[0].next == w.next
    requires CompletionPass(c, OperationNames(DesiredBy(cel, e)), clean, w.store, trace[0].store)
    ensures AllWanted(cel, allowed, trace[|trace| - 1])
  {
    NothingMissed(cel, allowed, e, c, clean, w, trace[0].store);
    DesiredAreGiven(cel, allowed, e);
    TraceKeepsWanted(cel, allowed, e, c, DesiredBy(cel, e), clean, trace, |trace| - 1);
  }

  lemma DesiredAreGiven(cel: Cel, allowed: Event -> bool, e: Event)
    requires allowed(e) && e.Handled?
    ensures forall d <- DesiredBy(cel, e) :: Gives(cel, allowed, e, d) && Indexed(d) && d.status == EmptyStatus
  {
    DesiredShape(e.subject, Results(cel, e.subject, e.ruleSets));
  }

  lemma {:induction false} RunKeepsWanted(
    config: Config, cel: Cel, allowed: Event -> bool, states: seq<World>, events: seq<Event>, i: nat)
    requires LabelsAgree(cel, allowed) && NeverMissed(cel, allowed)
    requires IsRun(config, cel, states, events) && (forall e <- events :: allowed(e)) && i < |states|
    ensures AllWanted(cel, allowed, states[i])
  {
    if i > 0 {
      RunKeepsWanted(config, cel, allowed, states, events, i - 1);
      assert events[i - 1] in events;
      StepKeepsWanted(config, cel, allowed, events[i - 1], states[i - 1], states[i]);
    }
  }

  lemma NeverMissedKeepsOneLive(config: Config, cel: Cel, allowed: Event -> bool)
    requires LabelsAgree(cel, allowed) && NeverMissed(cel, allowed)
    ensures KeepsOneLive(config, cel, allowed)
  {
    forall states: seq<World>, events: seq<Event>, i: nat
      | IsRun(config, cel, states, events) && (forall e <- events :: allowed(e)) && i < |states|
      ensures OneLive(states[i].store)
    {
      RunKeepsWanted(config, cel, allowed, states, events, i);
    }
  }

  // ----- missed once: the completed IFO ties with every IFO created in the same second

  /** An IFO of the operation of d, completed in the second in which it was created. */
  ghost predicate Tied(c: Context, d: Ifo, w: World, n: Name) {
    && n in w.store && n < w.next && w.store[n].labels == d.labels && Key(w.store[n]) == Key(d)
    && w.store[n].created == c.now && c.Past(w.store[n])
  }

  /** The IFOs of an operation stay as they are. */
  ghost predicate SpareOperation(key: OperationKey, s: Store, s': Store) {
    forall k <- s :: Key(s[k]) == key ==> k in s' && s'[k] == s[k]
  }

  /** While a tied IFO is there a detection may always create another. */
  lemma DetectRenews(c: Context, d: Ifo, w: World, n: Name) returns (w': World)
    requires Good(w, c.now) && Tied(c, d, w, n)
    ensures w' == World(w.store[w.next := c.Redetected(c.Created(d, w.next), d)], w.next + 1)
    ensures DetectStep(c, d, true, w, w')
  {
    forall m | m in w.store
      ensures w.store[m].created <= c.now
    {
      assert GoodIfo(m, w.store[m], w.next, c.now);
    }
    assert Newest(w.store, d.labels, n);
    w' := World(w.store[w.next := c.Redetected(c.Created(d, w.next), d)], w.next + 1);
  }

  /** A detection of another operation leaves this one's IFOs alone. */
  lemma OtherDetectSpares(c: Context, d: Ifo, key: OperationKey, w: World, w': World)
    requires Good(w, c.now) && Indexed(d) && Key(d) != key && DetectStep(c, d, true, w, w')
    ensures SpareOperation(key, w.store, w'.store)
  {
    IndexedSelectsOwn(d, w.store);
    assert forall k <- w.store :: GoodIfo(k, w.store[k], w.next, c.now);
  }

  /** A step of a pass in which every detection of the operation creates an IFO. */
  lemma RenewOne(c: Context, x: Ifo, d: Ifo, w: World, n: Name) returns (w': World)
    requires Good(w, c.now) && Tied(c, d, w, n) && Indexed(x) && (Key(x) == Key(d) ==> x.labels == d.labels)
    ensures DetectStep(c, x, true, w, w') && Good(w', c.now) && w.next <= w'.next
    ensures SpareOperation(Key(d), w.store, w'.store) && Tied(c, d, w', n)
    ensures Key(x) == Key(d) ==> DetectedAs(c, w'.store, d, w.next)
  {
    if Key(x) == Key(d) {
      w' := DetectRenews(c, x, w, n);
      assert w.next !in w.store by {
        assert w.next in w.store ==> GoodIfo(w.next, w.store[w.next], w.next, c.now);
      }
    } else {
      w' := DetectHappens(c, x, w);
      OtherDetectSpares(c, x, Key(d), w, w');
    }
    IndexedSelectsOwn(x, w.store);
    DetectKeepsGood(c, x, true, w, w');
  }

  /** The operation has an IFO with this detection that a later world than `w` made. */
  ghost predicate Renewed(c: Context, d: Ifo, w: World, w': World) {
    exists m: Name :: m >= w.next && DetectedAs(c, w'.store, d, m)
  }

  lemma {:induction false} DetectionRenews(c: Context, desired: seq<Ifo>, d: Ifo, w: World, n: Name)
    returns (trace: seq<World>)
    requires Good(w, c.now) && Tied(c, d, w, n) && forall x <- desired :: Indexed(x)
    requires forall x <- desired :: Key(x) == Key(d) ==> x.labels == d.labels
    ensures DetectionPass(c, desired, true, trace) && trace[0] == w
    ensures var w' := trace[|trace| - 1];
      && Good(w', c.now) && Tied(c, d, w', n) && w.next <= w'.next && SpareOperation(Key(d), w.store, w'.store)
      && (d in desired ==> Renewed(c, d, w, w'))
  {
    if desired == [] {
      trace := [w];
    } else {
      var front, last := desired[..|desired| - 1], desired[|desired| - 1];
      assert desired == front + [last];
      var before := DetectionRenews(c, front, d, w, n);
      var mid := before[|front|];
      var w' := RenewOne(c, last, d, mid, n);
      trace := before + [w'];
      PassExtends(c, front, last, before, w');
      if d in front {
        var m: Name :| m >= w.next && DetectedAs(c, mid.store, d, m);
        assert DetectedAs(c, w'.store, d, m);
      }
    }
  }

  lemma PassExtends(c: Context, desired: seq<Ifo>, d: Ifo, trace: seq<World>, w: World)
    requires DetectionPass(c, desired, true, trace) && DetectStep(c, d, true, trace[|trace| - 1], w)
    ensures DetectionPass(c, desired + [d], true, trace + [w])
  {
    var all := desired + [d];
    forall i | 0 <= i < |all|
      ensures DetectStep(c, all[i], true, (trace + [w])[i], (trace + [w])[i + 1])
    {
      assert i < |desired| ==> all[i] == desired[i];
    }
  }

  /** An event that detects the operation again while a tied IFO is there: it creates another IFO and
      leaves those of the operation that are there. */
  lemma RenewingEvent(config: Config, cel: Cel, e: Event, d: Ifo, w: World, n: Name) returns (w': World, m: Name)
    requires e.Handled? && e.clean && NamesDiffer(e.ruleSets) && d in DesiredBy(cel, e)
    requires Good(w, e.now) && Tied(ContextOf(config, e), d, w, n)
    ensures Step(config, cel, e, w, w') && Good(w', e.now) && Tied(ContextOf(config, e), d, w', n)
    ensures SpareOperation(Key(d), w.store, w'.store)
    ensures m >= w.next && DetectedAs(ContextOf(config, e), w'.store, d, m)
  {
    var c, desired := ContextOf(config, e), DesiredBy(cel, e);
    DesiredShape(e.subject, Results(cel, e.subject, e.ruleSets));
    var s := CompletionHappens(c, OperationNames(desired), w.store);
    var mid := World(s, w.next);
    CompletionKeepsGood(c, OperationNames(desired), true, w, mid);
    CompletionSpares(c, desired, d, w.store, s);
    forall x | x in desired && Key(x) == Key(d)
      ensures x.labels == d.labels
    {
      OneEventAgrees(cel, e, d, x);
    }
    var trace := DetectionRenews(c, desired, d, mid, n);
    w' := trace[|trace| - 1];
    m :| m >= w.next && DetectedAs(c, w'.store, d, m);
    assert HandleTrace(config, cel, e, w, w', trace);
  }

  lemma CompletionSpares(c: Context, desired: seq<Ifo>, d: Ifo, s: Store, s': Store)
    requires CompletionPass(c, OperationNames(desired), true, s, s') && d in desired
    ensures SpareOperation(Key(d), s, s')
  {
    assert d.spec.operation in OperationNames(desired);
    assert forall k <- s :: Key(s[k]) == Key(d) ==> s[k].spec.operation == d.spec.operation;
  }

  /** An event in the same second that misses the operation completes the IFO. When completed IFOs are
      deleted, that deletion fails. */
  lemma MissingEvent(config: Config, cel: Cel, e: Event, d: Ifo, w: World, n: Name) returns (w': World)
    requires config.threshold <= 0 && Misses(cel, e, d) && e.clean == config.retain && Good(w, e.now)
    requires n in w.store && Key(w.store[n]) == Key(d) && w.store[n].labels == d.labels
    requires w.store[n].created == e.now && w.store[n].status.completed.None?
    ensures Step(config, cel, e, w, w') && Good(w', e.now) && Tied(ContextOf(config, e), d, w', n)
  {
    var c, desired := ContextOf(config, e), DesiredBy(cel, e);
    var s := map k | k in w.store ::
      if Missed(c, OperationNames(desired), w.store[k]) then c.Completed(w.store[k]) else w.store[k];
    SubjectSelection(e.subject, w.store[n]);
    assert GoodIfo(n, w.store[n], w.next, e.now);
    var trace := DetectionHappens(c, desired, World(s, w.next));
    TraceKeepsPast(c, desired, true, trace, n, |trace| - 1);
    if !e.clean {
      PassWeakens(c, desired, trace);
    }
    w' := trace[|trace| - 1];
    assert HandleTrace(config, cel, e, w, w', trace);
    StepKeepsGood(config, cel, e, w, w', e.now);
    assert GoodIfo(n, w'.store[n], w'.next, e.now);
  }

  lemma PassWeakens(c: Context, desired: seq<Ifo>, trace: seq<World>)
    requires DetectionPass(c, desired, true, trace)
    ensures DetectionPass(c, desired, false, trace)
  {
    forall i | 0 <= i < |desired|
      ensures DetectStep(c, desired[i], false, trace[i], trace[i + 1])
    {
      assert DetectStep(c, desired[i], true, trace[i], trace[i + 1]);
    }
  }

  /** Detected, missed, detected and detected again, all within one second: two IFOs of the operation are live. */
  lemma MissedTwoLive(config: Config, cel: Cel, a: Event, b: Event, d: Ifo)
    returns (states: seq<World>, n: Name, m: Name)
    requires config.threshold <= 0 && a.Handled? && a.clean && NamesDiffer(a.ruleSets) && d in DesiredBy(cel, a)
    requires Misses(cel, b, d) && b.clean == config.retain && a.now == b.now
    ensures IsRun(config, cel, states, [a, b, a, a])
    ensures SameOperation(states[4].store, n, m)
    ensures states[4].store[n].status.phase == states[4].store[m].status.phase == Active
  {
    var w1, w2, t := CompletedAtOnce(config, cel, a, b, d);
    var w3, w4;
    w3, w4, n, m := RenewedTwice(config, cel, a, d, w2, t);
    states := RunOfFour(config, cel, a, b, w1, w2, w3, w4);
  }

  lemma CompletedAtOnce(config: Config, cel: Cel, a: Event, b: Event, d: Ifo)
    returns (w1: World, w2: World, t: Name)
    requires config.threshold <= 0 && a.Handled? && a.clean && NamesDiffer(a.ruleSets) && d in DesiredBy(cel, a)
    requires Misses(cel, b, d) && b.clean == config.retain && a.now == b.now
    ensures Step(config, cel, a, Empty, w1) && Step(config, cel, b, w1, w2)
    ensures Good(w2, a.now) && Tied(ContextOf(config, a), d, w2, t)
  {
    w1, t := FirstEvent(config, cel, a, d);
    CreatedNow(config, cel, a, w1, t);
    w2 := MissingEvent(config, cel, b, d, w1, t);
  }

  lemma RenewedTwice(config: Config, cel: Cel, a: Event, d: Ifo, w: World, t: Name)
    returns (w': World, w'': World, n: Name, m: Name)
    requires a.Handled? && a.clean && NamesDiffer(a.ruleSets) && d in DesiredBy(cel, a) && Good(w, a.now)
    requires Tied(ContextOf(config, a), d, w, t)
    ensures Step(config, cel, a, w, w') && Step(config, cel, a, w', w'')
    ensures var s := w''.store; SameOperation(s, n, m) && s[n].status.phase == s[m].status.phase == Active
  {
    w', n := RenewingEvent(config, cel, a, d, w, t);
    assert GoodIfo(n, w'.store[n], w'.next, a.now);
    w'', m := RenewingEvent(config, cel, a, d, w', t);
  }

  lemma RunOfFour(
    config: Config, cel: Cel, a: Event, b: Event, w1: World, w2: World, w3: World, w4: World)
    returns (states: seq<World>)
    requires Step(config, cel, a, Empty, w1) && Step(config, cel, b, w1, w2)
    requires Step(config, cel, a, w2, w3) && Step(config, cel, a, w3, w4) && a.now == b.now
    ensures IsRun(config, cel, states, [a, b, a, a]) && states[4] == w4
  {
    states := [Empty, w1, w2, w3, w4];
    var events := [a, b, a, a];
    forall i | 0 <= i < 4
      ensures Step(config, cel, events[i], states[i], states[i + 1])
    {
      assert i == 0 || i == 1 || i == 2 || i == 3;
    }
  }

  /** The first event's IFOs are created at its time. */
  lemma CreatedNow(config: Config, cel: Cel, e: Event, w: World, n: Name)
    requires e.Handled? && e.clean && e.ruleSets != [] && Step(config, cel, e, Empty, w) && n in w.store
    ensures w.store[n].created == e.now
  {
    var trace := CleanPasses(config, cel, e, Empty, w);
    TraceCreates(ContextOf(config, e), DesiredBy(cel, e), trace, |trace| - 1);
  }

  lemma {:induction false} TraceCreates(c: Context, desired: seq<Ifo>, trace: seq<World>, i: nat)
    requires DetectionPass(c, desired, true, trace) && i < |trace|
    requires forall n <- trace[0].store :: trace[0].store[n].created == c.now
    ensures forall n <- trace[i].store :: trace[i].store[n].created == c.now
  {
    if i > 0 {
      TraceCreates(c, desired, trace, i - 1);
      assert DetectStep(c, desired[i - 1], true, trace[i - 1], trace[i]);
    }
  }

  // ----- the exact condition

  lemma SafeNeverMisses(config: Config, cel: Cel, allowed: Event -> bool)
    requires config.threshold <= 0 && Timeless(allowed) && EventsNamed(allowed) && KeepsOneLive(config, cel, allowed)
    ensures NeverMissed(cel, allowed)
  {
    forall e, d, e' | Gives(cel, allowed, e, d) && allowed(e')
      ensures !Misses(cel, e', d)
    {
      if Misses(cel, e', d) {
        var a, b := At(e, 0, true), At(e', 0, config.retain);
        var states, n, m := MissedTwoLive(config, cel, a, b, d);
        AllowedRunIsSafe(config, cel, allowed, states, [a, b, a, a], 4);
      }
    }
  }

  /** Every run of allowed events keeps one live IFO per operation if and only if those events give each
      operation the same labels throughout and, without a positive threshold, never miss one. */
  lemma ExactlySafe(config: Config, cel: Cel, allowed: Event -> bool)
    requires Timeless(allowed) && EventsNamed(allowed)
    ensures KeepsOneLive(config, cel, allowed) <==>
      LabelsAgree(cel, allowed) && (config.threshold > 0 || NeverMissed(cel, allowed))
  {
    if config.threshold > 0 {
      LabelsDecideSafety(config, cel, allowed);
    } else {
      if KeepsOneLive(config, cel, allowed) {
        SafeLabelsAgree(config, cel, allowed);
        SafeNeverMisses(config, cel, allowed);
      }
      if LabelsAgree(cel, allowed) && NeverMissed(cel, allowed) {
        NeverMissedKeepsOneLive(config, cel, allowed);
      }
    }
  }
}
