/** internal/watch/watcher.go: handling the events of watched subjects. */
module Watchers {
  import opened Prelude
  import opened Api
  import opened Evaluator
  import opened Operations
  import opened Lifecycle
  import opened ApiServers
  import opened Sorting
  import opened RuleIndex
  import opened RuleCaches

  /** The comparison of Ensure: the newest first. */
  predicate NewerFirst(a: Ifo, b: Ifo) {
    a.created >= b.created
  }

  /** Operations of internal/watch/operations.go that talk to the API server. */
  class OperationClient {
    const server: ApiServer
    const threshold: int

    constructor (server: ApiServer, threshold: int)
      ensures this.server == server && this.threshold == threshold
    {
      this.server, this.threshold := server, threshold;
    }

    method DeleteAll(subject: Subject, now: Time) returns (ok: bool)
      requires server.Named()
      modifies server
      ensures server.Named() && DeleteStep(Deleted(subject, now, ok), old(server.Current()), server.Current())
      ensures server.Counted(old(server.failures), ok)
    {
      ok := server.DeleteAllOf(SubjectLabels(subject));
    }

    method List(subject: Subject) returns (ok: bool, items: seq<Ifo>)
      requires server.Named()
      modifies server`failures, server`lastFailed
      ensures server.Counted(old(server.failures), ok)
      ensures ok ==> Listing(server.store, SubjectLabels(subject), items)
    {
      ok, items := server.List(SubjectLabels(subject));
    }

    /** The newest IFO with the labels unless that is past the threshold, otherwise a new one. */
    method Ensure(ghost c: Context, op: Ifo, now: Time) returns (ok: bool, out: Ifo)
      requires server.Named() && c.config.threshold == threshold && c.now == now
      modifies server
      ensures server.Named() && server.Counted(old(server.failures), ok)
      ensures !ok ==> server.Current() == old(server.Current())
      ensures ok ==>
        || (Reuses(c, op, server.store, out.name) && out == server.store[out.name] &&
          server.Current() == old(server.Current()))
        || (NeedsFresh(c, op, old(server.store)) && out == c.Created(op, old(server.next)) &&
              server.Current() == World(old(server.store)[old(server.next) := out], old(server.next) + 1))
      ensures ok && server.next == old(server.next) ==>
        match out.status.completed case None => true case Some(t) => now < t + threshold
      ensures ok && server.next != old(server.next) ==>
        || (forall n <- old(server.store) :: !Matches(op.labels, old(server.store)[n].labels))
        || exists n {:trigger Newest(old(server.store), op.labels, n)} :: Newest(old(server.store), op.labels, n) &&
             match old(server.store)[n].status.completed case None => false case Some(t) => t + threshold <= now
    {
      var items;
      ok, items := server.List(op.labels);
      out := op;
      if !ok {
        return;
      }
      var sorted := SortFunc(items, NewerFirst);
      FirstIsNewest(server.store, op.labels, items, sorted);
      if |sorted| == 0 || sorted[0].PastDebounceThreshold(threshold, now) {
        ok, out := server.Create(op, now);
      } else {
        out := sorted[0];
      }
    }
  }

  lemma FirstIsNewest(s: Store, selector: Labels, items: seq<Ifo>, sorted: seq<Ifo>)
    requires Listing(s, selector, items) && multiset(sorted) == multiset(items)
    requires SortedBy(NewerFirst, sorted)
    ensures if sorted == [] then forall n <- s :: !Matches(selector, s[n].labels)
      else sorted[0].name in s && s[sorted[0].name] == sorted[0] && Newest(s, selector, sorted[0].name)
  {
    forall n | n in s && Matches(selector, s[n].labels)
      ensures s[n] in sorted
    {
      assert s[n] in multiset(items);
    }
    if sorted != [] {
      assert sorted[0] in multiset(sorted);
      assert sorted[0] in items;
    }
  }

  /** ok says exactly that no call has failed in between. */
  predicate FailedUnless(ok: bool, before: nat, after: nat) {
    before <= after && (ok <==> after == before)
  }

  // ----- the two passes, one item or match at a time

  /** What the completion pass may have done with one stored IFO. */
  ghost predicate PassedOver(c: Context, detected: set<string>, clean: bool, before: Ifo, n: Name, s: Store) {
    if !Missed(c, detected, before) then
      n in s && s[n] == before
    else if clean then
      if c.config.retain then n in s && s[n] == c.Completed(before) else n !in s
    else
      if n in s then s[n] == before || s[n] == c.Completed(before) else !c.config.retain
  }

  /** The pass so far: the IFOs named have been passed over, the others are as they were. */
  ghost predicate PassedThrough(c: Context, detected: set<string>, clean: bool, s0: Store, s: Store, names: set<Name>) {
    && s.Keys <= s0.Keys
    && forall n <- s0 :: if n in names then PassedOver(c, detected, clean, s0[n], n, s) else n in s && s[n] == s0[n]
  }

  lemma PassExtends(
      c: Context, detected: set<string>, clean: bool, s0: Store, s: Store, names: set<Name>,
      ok: bool, s': Store, n: Name)
    requires PassedThrough(c, detected, clean, s0, s, names) && n in s0 && n !in names
    requires s' - {n} == s - {n} && PassedOver(c, detected, ok, s0[n], n, s')
    ensures PassedThrough(c, detected, clean && ok, s0, s', names + {n})
  {
    forall m | m in s'
      ensures m in s0
    {
      assert m != n ==> m in s' - {n};
    }
    forall m | m in s0 && m != n
      ensures (m in s' <==> m in s) && (m in s ==> s'[m] == s[m])
    {
      assert m in s' <==> m in s' - {n};
      assert m in s <==> m in s - {n};
      assert m in s - {n} ==> s[m] == (s - {n})[m] == (s' - {n})[m] == s'[m];
    }
  }

  /** What completed at least a threshold ago stays. When no call failed, of the items listed each other one that is
      not detected is completed now or, without retention, gone. */
  ghost predicate Completes(c: Context, items: seq<Ifo>, detected: set<string>, clean: bool, s: Store, s': Store) {
    && (forall n <- s :: s[n].status.completed.Some? && s[n].status.completed.value + c.config.threshold <= c.now ==>
         n in s' && s'[n] == s[n])
    && (clean ==> forall x <- items ::
         x.spec.operation !in detected &&
         (x.status.completed.None? || c.now < x.status.completed.value + c.config.threshold) ==>
           if c.config.retain
           then x.name in s' && s'[x.name].status.phase == Completed && s'[x.name].status.completed == Some(c.now)
           else x.name !in s')
  }

  function NamesOf(items: seq<Ifo>): set<Name> {
    set x | x in items :: x.name
  }

  lemma PassIsComplete(c: Context, items: seq<Ifo>, detected: set<string>, clean: bool, s: Store, s': Store)
    requires Listing(s, SubjectLabels(c.subject), items) && PassedThrough(c, detected, clean, s, s', NamesOf(items))
    requires forall n <- s :: s[n].name == n
    ensures CompletionPass(c, detected, clean, s, s') && Completes(c, items, detected, clean, s, s')
  {
    forall n | n in s
      ensures PassedOver(c, detected, clean, s[n], n, s')
    {
      if n !in NamesOf(items) {
        assert s[n] !in items;
      }
    }
  }

  /** The operations of some results, as handle collects them. */
  lemma DetectedNames(subject: Subject, results: seq<RuleSetResult>)
    ensures OperationNames(Desired(subject, results)) == set r, o | r in results && o in r.operations :: o
  {
    DesiredShape(subject, results);
  }

  lemma DetectWeakens(c: Context, desired: seq<Ifo>, clean: bool, trace: seq<World>)
    requires DetectionPass(c, desired, clean, trace)
    ensures DetectionPass(c, desired, false, trace)
  {
    forall i | 0 <= i < |desired|
      ensures DetectStep(c, desired[i], false, trace[i], trace[i + 1])
    {
      assert DetectStep(c, desired[i], clean, trace[i], trace[i + 1]);
    }
  }

  lemma DetectExtends(c: Context, desired: seq<Ifo>, clean: bool, trace: seq<World>, d: Ifo, ok: bool, w: World)
    requires DetectionPass(c, desired, clean, trace) && DetectStep(c, d, ok, trace[|trace| - 1], w)
    ensures DetectionPass(c, desired + [d], clean && ok, trace + [w])
  {
    if !(clean && ok) {
      DetectWeakens(c, desired, clean, trace);
    }
    var ds, t := desired + [d], trace + [w];
    forall i | 0 <= i < |ds|
      ensures DetectStep(c, ds[i], clean && ok, t[i], t[i + 1])
    {
      if i < |desired| {
        assert ds[i] == desired[i] && t[i] == trace[i] && t[i + 1] == trace[i + 1];
      }
    }
  }

  lemma NextDetected(
    c: Context, subject: Subject, result: RuleSetResult, j: nat, done: seq<Ifo>, clean: bool, trace: seq<World>,
    ok: bool, w: World)
    requires j < |result.operations| && DetectionPass(c, done + BuildAll(subject, result, j), clean, trace)
    requires var op := Build(subject, result.operations[j], result.ruleSet, result.labels);
      DetectStep(c, op, ok, trace[|trace| - 1], w)
    ensures DetectionPass(c, done + BuildAll(subject, result, j + 1), clean && ok, trace + [w])
    ensures done + BuildAll(subject, result, j + 1) != []
  {
    var op := Build(subject, result.operations[j], result.ruleSet, result.labels);
    DetectExtends(c, done + BuildAll(subject, result, j), clean, trace, op, ok, w);
    assert done + BuildAll(subject, result, j + 1) == done + BuildAll(subject, result, j) + [op];
  }

  type Rules = RuleCache<GroupVersionResource, string, RuleSetSpec>

  class Watcher {
    const server: ApiServer
    const operations: OperationClient
    const evaluator: CelEvaluator
    const rules: Rules
    const config: Config

    constructor (server: ApiServer, evaluator: CelEvaluator, rules: Rules, config: Config)
      ensures this.server == server && this.evaluator == evaluator && this.rules == rules && this.config == config
      ensures operations.server == server && operations.threshold == config.threshold
    {
      this.server, this.evaluator, this.rules, this.config := server, evaluator, rules, config;
      operations := new OperationClient(server, config.threshold);
    }

    /** handle: the event's relation on the stored IFOs holds, whichever calls fail; clean says exactly that none did.
        The error returned is that of the last call of the detections, or of the listing when that fails. */
    method Handle(subject: Subject, gvr: GroupVersionResource, now: Time)
      returns (err: bool, ghost clean: bool, ghost trace: seq<World>)
      requires rules.Valid() && evaluator.Valid() && server.Named()
      requires operations.server == server && operations.threshold == config.threshold
      modifies server, evaluator
      ensures evaluator.Valid() && server.Named()
      ensures HandleTrace(config, evaluator.cel, Handled(subject, Get(rules.index, gvr), now, clean),
        old(server.Current()), server.Current(), trace)
      ensures clean <==> server.failures == old(server.failures)
      ensures clean ==> !err
      ensures var ruleSets := Get(rules.index, gvr);
        var detects := Desired(subject, Results(evaluator.cel, subject, ruleSets)) != [];
        err <==> ruleSets != [] && (trace == [] || detects) && server.lastFailed
    {
      err, clean, trace := false, true, [];
      var rulesets := rules.List(gvr);
      var ruleSets := rulesets[..];
      if |ruleSets| == 0 {
        return;
      }
      ghost var c := Context(config, subject, now);
      var results, detected := EvaluateAll(subject, ruleSets);
      var ok, items := operations.List(subject);
      if !ok {
        return true, false, [];
      }
      DetectedNames(subject, results);
      clean := CompleteMissed(c, subject, items, detected, now);
      err, clean, trace := DetectAll(c, subject, results, now, clean);
    }

    /** The loop inside handle's first loop. */
    method NoteDetected(operations: seq<string>, before: set<string>) returns (detected: set<string>)
      ensures detected == before + set o | o in operations
    {
      detected := before;
      for j := 0 to |operations|
        invariant detected == before + set o | o in operations[..j]
      {
        detected := detected + {operations[j]};
      }
      assert operations[..|operations|] == operations;
    }

    lemma NamesOneMore(results: seq<RuleSetResult>, result: RuleSetResult)
      ensures (set r, o | r in results + [result] && o in r.operations :: o) ==
        (set r, o | r in results && o in r.operations :: o) + set o | o in result.operations
    {
      assert forall r :: r in results + [result] <==> r in results || r == result;
    }

    /** handle's first loop. */
    method EvaluateAll(
        subject: Subject, ruleSets: seq<OperationRuleSet>)
      returns (results: seq<RuleSetResult>, detected: set<string>)
      requires evaluator.Valid()
      modifies evaluator
      ensures evaluator.Valid()
      ensures results == Results(evaluator.cel, subject, ruleSets)
      ensures detected == set r, o | r in results && o in r.operations :: o
    {
      results, detected := [], {};
      for i := 0 to |ruleSets|
        invariant evaluator.Valid()
        invariant results == Results(evaluator.cel, subject, ruleSets[..i])
        invariant detected == set r, o | r in results && o in r.operations :: o
      {
        assert ruleSets[..i + 1][..i] == ruleSets[..i];
        if !AppliesTo(ruleSets[i], subject) {
          continue;
        }
        var result := evaluator.EvaluateRuleSet(subject, ruleSets[i]);
        if result.None? {
          continue;
        }
        NamesOneMore(results, result.value);
        results := results + [result.value];
        detected := NoteDetected(result.value.operations, detected);
      }
      assert ruleSets[..|ruleSets|] == ruleSets;
    }

    /** handle's second loop: completing, and unless they are retained deleting, what is no longer detected. */
    method CompleteMissed(
        ghost c: Context, subject: Subject, items: seq<Ifo>, detected: set<string>, now: Time)
      returns (ghost clean: bool)
      requires c == Context(config, subject, now) && operations.server == server
      requires server.Named() && Listing(server.store, SubjectLabels(subject), items)
      modifies server
      ensures server.Named() && server.next == old(server.next)
      ensures CompletionPass(c, detected, clean, old(server.store), server.store)
      ensures FailedUnless(clean, old(server.failures), server.failures)
      ensures Completes(c, items, detected, clean, old(server.store), server.store)
    {
      ghost var s0 := server.store;
      clean := CompleteEach(c, subject, items, detected, now);
      PassIsComplete(c, items, detected, clean, s0, server.store);
    }

    /** The loop itself. */
    method CompleteEach(
        ghost c: Context, subject: Subject, items: seq<Ifo>, detected: set<string>, now: Time)
      returns (ghost clean: bool)
      requires c == Context(config, subject, now) && operations.server == server
      requires server.Named() && Listing(server.store, SubjectLabels(subject), items)
      modifies server
      ensures server.Named() && server.next == old(server.next)
      ensures PassedThrough(c, detected, clean, old(server.store), server.store, NamesOf(items))
      ensures FailedUnless(clean, old(server.failures), server.failures)
    {
      clean := true;
      ghost var s0 := server.store;
      for i := 0 to |items|
        invariant server.Named() && server.next == old(server.next)
        invariant PassedThrough(c, detected, clean, s0, server.store, NamesOf(items[..i]))
        invariant FailedUnless(clean, old(server.failures), server.failures)
      {
        assert items[..i + 1] == items[..i] + [items[i]];
        assert items[i] in items && items[i].name !in NamesOf(items[..i]);
        ghost var before := server.store;
        var ok := CompleteOne(c, subject, items[i], detected, now);
        PassExtends(c, detected, clean, s0, before, NamesOf(items[..i]), ok, server.store, items[i].name);
        clean := clean && ok;
        assert NamesOf(items[..i + 1]) == NamesOf(items[..i]) + {items[i].name};
      }
      assert items[..|items|] == items;
    }

    /** One round of that loop. */
    method CompleteOne(
        ghost c: Context, subject: Subject, ifo: Ifo, detected: set<string>, now: Time)
      returns (ok: bool)
      requires c == Context(config, subject, now) && operations.server == server && server.Named()
      requires ifo.name in server.store && server.store[ifo.name] == ifo && Matches(SubjectLabels(subject), ifo.labels)
      modifies server
      ensures server.Named() && server.next == old(server.next)
      ensures server.store - {ifo.name} == old(server.store) - {ifo.name}
      ensures PassedOver(c, detected, ok, ifo, ifo.name, server.store)
      ensures FailedUnless(ok, old(server.failures), server.failures)
    {
      ok := true;
      if !ifo.PastDebounceThreshold(config.threshold, now) {
        if ifo.spec.operation !in detected {
          var updated := MarkCompleted(subject, ifo, now);
          var deleted := CleanupCompleted(ifo.name);
          ok := updated && deleted;
        }
      }
    }

    /** markCompleted: a best-effort status update. */
    method MarkCompleted(subject: Subject, ifo: Ifo, now: Time) returns (ok: bool)
      requires server.Named() && ifo.name in server.store && server.store[ifo.name] == ifo
      modifies server
      ensures server.Named() && server.next == old(server.next)
      ensures server.store == if ok
        then old(server.store)[ifo.name := ifo.WithCompleted(subject, now)] else old(server.store)
      ensures FailedUnless(ok, old(server.failures), server.failures)
    {
      var copy := new IfoVariable(ifo);
      copy.MarkCompleted(subject, now);
      ok := server.UpdateStatus(copy.value);
    }

    /** cleanupCompleted: a best-effort deletion, unless completed IFOs are retained. */
    method CleanupCompleted(name: Name) returns (ok: bool)
      requires server.Named()
      modifies server
      ensures server.Named() && server.next == old(server.next)
      ensures server.store == if ok && !config.retain then old(server.store) - {name} else old(server.store)
      ensures config.retain ==> ok
      ensures FailedUnless(ok, old(server.failures), server.failures)
    {
      if config.retain {
        return true;
      }
      ok := server.Delete(name);
    }

    /** handle's last loop. */
    method DetectAll(ghost c: Context, subject: Subject, results: seq<RuleSetResult>, now: Time, ghost cleanSoFar: bool)
      returns (err: bool, ghost clean: bool, ghost trace: seq<World>)
      requires c == Context(config, subject, now) && server.Named()
      requires operations.server == server && operations.threshold == config.threshold
      modifies server
      ensures server.Named() && (clean ==> !err) && (err <==> Desired(subject, results) != [] && server.lastFailed)
      ensures old(server.failures) <= server.failures
      ensures clean <==> cleanSoFar && server.failures == old(server.failures)
      ensures DetectionPass(c, Desired(subject, results), clean, trace)
      ensures trace[0] == old(server.Current()) && trace[|trace| - 1] == server.Current()
    {
      err, clean, trace := false, cleanSoFar, [server.Current()];
      for i := 0 to |results|
        invariant server.Named() && (clean ==> !err)
        invariant err <==> Desired(subject, results[..i]) != [] && server.lastFailed
        invariant old(server.failures) <= server.failures
        invariant clean <==> cleanSoFar && server.failures == old(server.failures)
        invariant DetectionPass(c, Desired(subject, results[..i]), clean, trace)
        invariant trace[0] == old(server.Current()) && trace[|trace| - 1] == server.Current()
      {
        var result := results[i];
        ghost var done := Desired(subject, results[..i]);
        assert results[..i + 1][..i] == results[..i];
        for j := 0 to |result.operations|
          invariant server.Named() && (clean ==> !err)
          invariant err <==> done + BuildAll(subject, result, j) != [] && server.lastFailed
          invariant old(server.failures) <= server.failures
          invariant clean <==> cleanSoFar && server.failures == old(server.failures)
          invariant DetectionPass(c, done + BuildAll(subject, result, j), clean, trace)
          invariant trace[0] == old(server.Current()) && trace[|trace| - 1] == server.Current()
        {
          var op := Build(subject, result.operations[j], result.ruleSet, result.labels);
          var ok := Detect(c, subject, op, now);
          NextDetected(c, subject, result, j, done, clean, trace, ok, server.Current());
          err, clean, trace := !ok, clean && ok, trace + [server.Current()];
        }
      }
      assert results[..|results|] == results;
    }

    method Detect(ghost c: Context, subject: Subject, op: Ifo, now: Time) returns (ok: bool)
      requires c == Context(config, subject, now) && server.Named()
      requires operations.server == server && operations.threshold == config.threshold
      modifies server
      ensures server.Named() && DetectStep(c, op, ok, old(server.Current()), server.Current())
      ensures FailedUnless(ok, old(server.failures), server.failures) && (ok <==> !server.lastFailed)
    {
      var out;
      ok, out := operations.Ensure(c, op, now);
      if !ok {
        return;
      }
      var variable := new IfoVariable(out);
      variable.MarkDetection(subject, [op.spec.ruleSet], now);
      ok := server.UpdateStatus(variable.value);
    }

    /** handleDelete. */
    method HandleDelete(subject: Subject, now: Time) returns (ok: bool)
      requires server.Named() && operations.server == server
      modifies server
      ensures server.Named() && DeleteStep(Deleted(subject, now, ok), old(server.Current()), server.Current())
      ensures server.Counted(old(server.failures), ok)
    {
      ok := operations.DeleteAll(subject, now);
    }
  }
}
