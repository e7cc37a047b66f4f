/** What handling one event of a subject may do to the stored IFOs, as a relation between the state
    of the API server before and after. Any API call may fail without effect; an event during which
    none failed is called clean. */
module Lifecycle {
  import opened Prelude
  import opened Api
  import opened Evaluator
  import opened Operations

  /** The operator's settings: the debounce threshold in seconds, and RETAIN_COMPLETED_IFOS. */
  datatype Config = Config(threshold: int, retain: bool)

  type Store = map<Name, Ifo>

  /** `next` bounds every name ever given out. */
  datatype World = World(store: Store, next: Name)

  /** What stays the same while one event is handled. */
  datatype Context = Context(config: Config, subject: Subject, now: Time) {

    predicate Past(ifo: Ifo) {
      ifo.PastDebounceThreshold(config.threshold, now)
    }

    function Completed(ifo: Ifo): Ifo {
      ifo.WithCompleted(subject, now)
    }

    function Redetected(ifo: Ifo, desired: Ifo): Ifo {
      ifo.WithDetection(subject, [desired.spec.ruleSet], now)
    }

    function Created(desired: Ifo, name: Name): Ifo {
      desired.(name := name, created := now, status := EmptyStatus)
    }
  }

  // ----- what is detected

  /** The results of the applicable rulesets that evaluate without error, in order. */
  function Results(cel: Cel, subject: Subject, ruleSets: seq<OperationRuleSet>): seq<RuleSetResult> {
    if ruleSets == [] then
      []
    else
      var results, last := Results(cel, subject, ruleSets[..|ruleSets| - 1]), ruleSets[|ruleSets| - 1];
      if !AppliesTo(last, subject) then results else
      match FreshResult(cel, subject, last)
      case None => results
      case Some(result) => results + [result]
  }

  function BuildAll(subject: Subject, result: RuleSetResult, count: nat): seq<Ifo>
    requires count <= |result.operations|
  {
    seq(count, i requires 0 <= i < count => Build(subject, result.operations[i], result.ruleSet, result.labels))
  }

  /** One IFO to ensure for each matched operation of each result, in order. */
  function Desired(subject: Subject, results: seq<RuleSetResult>): seq<Ifo> {
    if results == [] then
      []
    else
      var last := results[|results| - 1];
      Desired(subject, results[..|results| - 1]) + BuildAll(subject, last, |last.operations|)
  }

  function OperationNames(desired: seq<Ifo>): set<string> {
    set d | d in desired :: d.spec.operation
  }

  // ----- the two passes of handle

  /** An IFO of the subject that is not past the threshold and whose operation is not detected. */
  predicate Missed(c: Context, detected: set<string>, ifo: Ifo) {
    && Matches(SubjectLabels(c.subject), ifo.labels)
    && !c.Past(ifo)
    && ifo.spec.operation !in detected
  }

  /** The completion pass touches missed IFOs only: it marks them completed and, unless completed
      IFOs are retained, deletes them. Each of the two calls may fail on its own. */
  ghost predicate CompletionPass(c: Context, detected: set<string>, clean: bool, s: Store, s': Store) {
    && s'.Keys <= s.Keys
    && forall n <- s ::
      if !Missed(c, detected, s[n]) then
        n in s' && s'[n] == s[n]
      else if clean then
        if c.config.retain then n in s' && s'[n] == c.Completed(s[n]) else n !in s'
      else
        if n in s' then s'[n] == s[n] || s'[n] == c.Completed(s[n]) else !c.config.retain
  }

  /** A most recently created IFO among those the selector picks; creation times may tie. */
  ghost predicate Newest(s: Store, selector: Labels, n: Name) {
    && n in s && Matches(selector, s[n].labels)
    && forall m <- s :: Matches(selector, s[m].labels) ==> s[m].created <= s[n].created
  }

  ghost predicate Reuses(c: Context, d: Ifo, s: Store, n: Name) {
    Newest(s, d.labels, n) && !c.Past(s[n])
  }

  ghost predicate NeedsFresh(c: Context, d: Ifo, s: Store) {
    || (forall n <- s :: !Matches(d.labels, s[n].labels))
    || exists n {:trigger Newest(s, d.labels, n)} :: Newest(s, d.labels, n) && c.Past(s[n])
  }

  /** Ensure finds or creates the IFO, and a status update marks it detected. */
  ghost predicate DetectStep(c: Context, d: Ifo, clean: bool, w: World, w': World) {
    || (!clean && w' == w)
    || (exists n {:trigger Reuses(c, d, w.store, n)} ::
          Reuses(c, d, w.store, n) && w' == w.(store := w.store[n := c.Redetected(w.store[n], d)]))
    || (NeedsFresh(c, d, w.store) &&
         var created := c.Created(d, w.next);
         || w' == World(w.store[w.next := c.Redetected(created, d)], w.next + 1)
         || (!clean && w' == World(w.store[w.next := created], w.next + 1)))
  }

  /** The states between the detect steps; the first is the one the completion pass leaves. */
  ghost predicate DetectionPass(c: Context, desired: seq<Ifo>, clean: bool, trace: seq<World>) {
    && |trace| == |desired| + 1
    && forall i {:trigger desired[i]} :: 0 <= i < |desired| ==> DetectStep(c, desired[i], clean, trace[i], trace[i + 1])
  }

  // ----- events and runs

  datatype Event =
    | Handled(subject: Subject, ruleSets: seq<OperationRuleSet>, now: Time, clean: bool)
    | Deleted(subject: Subject, now: Time, clean: bool)

  /** The IFOs an event asks for. */
  function DesiredBy(cel: Cel, e: Event): seq<Ifo> {
    if e.Handled? then Desired(e.subject, Results(cel, e.subject, e.ruleSets)) else []
  }

  function ContextOf(config: Config, e: Event): Context {
    Context(config, e.subject, e.now)
  }

  /** The trace is empty when the event ends before the completion pass. */
  ghost predicate HandleTrace(config: Config, cel: Cel, e: Event, w: World, w': World, trace: seq<World>)
    requires e.Handled?
  {
    if e.ruleSets == [] || trace == [] then
      w' == w && (e.ruleSets == [] || !e.clean)
    else
      var c, desired := ContextOf(config, e), DesiredBy(cel, e);
      && CompletionPass(c, OperationNames(desired), e.clean, w.store, trace[0].store) && trace[0].next == w.next
      && DetectionPass(c, desired, e.clean, trace)
      && w' == trace[|trace| - 1]
  }

  /** Deleting a subject deletes the IFOs its labels select. */
  ghost predicate DeleteStep(e: Event, w: World, w': World)
    requires e.Deleted?
  {
    || (!e.clean && w' == w)
    || w' == w.(store := map n | n in w.store && !Matches(SubjectLabels(e.subject), w.store[n].labels) :: w.store[n])
  }

  ghost predicate Step(config: Config, cel: Cel, e: Event, w: World, w': World) {
    if e.Deleted? then DeleteStep(e, w, w') else exists trace :: HandleTrace(config, cel, e, w, w', trace)
  }

  const Empty := World(map[], 1)

  /** A run: states joined by events at non-decreasing times, from an empty store. */
  ghost predicate IsRun(config: Config, cel: Cel, states: seq<World>, events: seq<Event>) {
    && |states| == |events| + 1
    && states[0] == Empty
    && (forall i {:trigger events[i]} :: 0 <= i < |events| ==> Step(config, cel, events[i], states[i], states[i + 1]))
    && (forall i, j :: 0 <= i < j < |events| ==> events[i].now <= events[j].now)
  }

  lemma {:induction false} DesiredShape(subject: Subject, results: seq<RuleSetResult>)
    ensures forall d <- Desired(subject, results) :: Indexed(d) && IsSubjectOf(subject, d) && d.status == EmptyStatus
    ensures forall d <- Desired(subject, results) ::
      exists r <- results :: d.spec.ruleSet == r.ruleSet.name && d.spec.operation in r.operations
    ensures forall r <- results, o <- r.operations :: exists d <- Desired(subject, results) ::
      d.spec.ruleSet == r.ruleSet.name && d.spec.operation == o
  {
    if results != [] {
      var front, last := results[..|results| - 1], results[|results| - 1];
      DesiredShape(subject, front);
      assert results == front + [last];
      var built := BuildAll(subject, last, |last.operations|);
      forall i | 0 <= i < |built|
        ensures Indexed(built[i]) && IsSubjectOf(subject, built[i])
      {
        BuildIsIndexed(subject, last.operations[i], last.ruleSet, last.labels);
      }
      forall o | o in last.operations
        ensures exists d <- built :: d.spec.ruleSet == last.ruleSet.name && d.spec.operation == o
      {
        var i :| 0 <= i < |last.operations| && last.operations[i] == o;
        assert built[i] in built;
      }
    }
  }
}
