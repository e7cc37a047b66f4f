/** internal/controller/operationruleset_controller.go: reconciling one OperationRuleSet. */
module Reconcilers {
  import opened Prelude
  import opened Api
  import opened Evaluator
  import opened RuleIndex
  import opened WatchRegistries
  import opened StatusConditions
  import opened ReconcilePass
  import Lists = ConditionLists
  import WatchSet

  /** Every expression of a ruleset compiles. */
  predicate Compiles(cel: Cel, rule: OperationRuleSet) {
    && (forall r <- rule.spec.rules :: cel.compile(r.expression).Some?)
    && (forall le <- rule.spec.labelExpressions :: cel.compile(le.expression).Some?)
  }

  /** The caches after the setup, which a blocker leaves out. */
  ghost predicate SetUp<G, N, S>(
    w: WatchSet.Watching<G, N, S>, w': WatchSet.Watching<G, N, S>, rule: RuleSetOf<G, N, S>, blocked: bool, ok: bool)
  {
    if blocked then w' == w else WatchSet.SetupStep(w, w', rule, ok)
  }

  /** The caches after the deletion's part. */
  ghost predicate TornDown<G, N, S>(
    w: WatchSet.Watching<G, N, S>, w': WatchSet.Watching<G, N, S>, rule: RuleSetOf<G, N, S>, deleting: bool)
  {
    if deleting then WatchSet.TeardownStep(w, w', rule) else w' == w
  }

  /** What one reconcile does to the caches: a teardown when the ruleset is being deleted, and in any
      case a setup unless validation blocks it. */
  ghost predicate CachesStep<G, N, S>(
    w: WatchSet.Watching<G, N, S>, mid: WatchSet.Watching<G, N, S>, w': WatchSet.Watching<G, N, S>,
    rule: RuleSetOf<G, N, S>, deleting: bool, blocked: bool, ok: bool)
  {
    TornDown(w, mid, rule, deleting) && SetUp(mid, w', rule, blocked, ok)
  }

  /** The map after a deletion, with the ruleset in it again unless it stays out. */
  function Returned<G, N, S>(m: RuleMap<G, N, S>, rule: RuleSetOf<G, N, S>, out: bool): RuleMap<G, N, S> {
    if out then m - {KeyOf(rule)} else (m - {KeyOf(rule)})[KeyOf(rule) := rule]
  }

  lemma ReturnedOrNot<G, N, S>(m: RuleMap<G, N, S>, rule: RuleSetOf<G, N, S>, out: bool)
    ensures KeyOf(rule) !in Returned(m, rule, out) <==> out
    ensures Returned(m, rule, out) - {KeyOf(rule)} == m - {KeyOf(rule)}
  {
  }

  /** The deletion falls through into validation and setup, so a deleted ruleset is out of the cache
      after its reconcile exactly if validation blocks it or its watch cannot be registered. */
  lemma DeletedRuleSetReturns<G, N, S>(
    w: WatchSet.Watching<G, N, S>, mid: WatchSet.Watching<G, N, S>, w': WatchSet.Watching<G, N, S>, m: RuleMap<G, N, S>,
    rule: RuleSetOf<G, N, S>, blocked: bool, ok: bool) returns (m': RuleMap<G, N, S>)
    requires Stands(w.rules, m) && CachesStep(w, mid, w', rule, true, blocked, ok)
    ensures Stands(w'.rules, m')
    ensures KeyOf(rule) !in m' <==> blocked || !ok
    ensures m' - {KeyOf(rule)} == m - {KeyOf(rule)}
  {
    m' := Returned(m, rule, blocked || !ok);
    ReturnedOrNot(m, rule, blocked || !ok);
    AfterStands(w.rules, m, Drop(rule));
    SetUpStands(mid, w', m - {KeyOf(rule)}, rule, blocked, ok);
  }

  lemma SetUpStands<G, N, S>(
    w: WatchSet.Watching<G, N, S>, w': WatchSet.Watching<G, N, S>, m: RuleMap<G, N, S>,
    rule: RuleSetOf<G, N, S>, blocked: bool, ok: bool)
    requires Stands(w.rules, m) && KeyOf(rule) !in m && SetUp(w, w', rule, blocked, ok)
    ensures Stands(w'.rules, if blocked || !ok then m else m[KeyOf(rule) := rule])
  {
    if !blocked {
      SetupStands(w, w', m, rule, ok);
      assert m - {KeyOf(rule)} == m;
    }
  }

  lemma SetupStands<G, N, S>(
    w: WatchSet.Watching<G, N, S>, w': WatchSet.Watching<G, N, S>, m: RuleMap<G, N, S>,
    rule: RuleSetOf<G, N, S>, ok: bool)
    requires Stands(w.rules, m) && WatchSet.SetupStep(w, w', rule, ok)
    ensures Stands(w'.rules, if ok then m[KeyOf(rule) := rule] else m - {KeyOf(rule)})
  {
    var k := KeyOf(rule);
    AfterStands(w.rules, m, Put(rule));
    if !ok {
      AfterStands(After(w.rules, Put(rule)), m[k := rule], Drop(rule));
      assert m[k := rule] - {k} == m - {k};
    }
  }

  /** The findings are those of this ruleset and of discovery's answer. */
  ghost predicate Found(
      f: Findings, cel: Cel, rule: OperationRuleSet, targetError: Option<string>, ruleMessage: string, gvrName: string)
  {
    && f.target == targetError && f.gvr == gvrName
    && f.rule == if Compiles(cel, rule) then None else Some(ruleMessage)
  }

  /** A blocker or a failed setup asks for a retry; a blocker leaves the watch status alone. */
  ghost predicate Answers(blocked: bool, f: Findings, requeue: bool, watchActive: Option<bool>) {
    && (requeue <==> blocked || f.setup.Some?)
    && watchActive == if blocked then None else Some(f.setup.None?)
  }

  type Watched = WatchSet.Watching<GroupVersionResource, string, RuleSetSpec>

  type Registry = WatchRegistry<GroupVersionResource, string, RuleSetSpec>

  class Reconciler {
    const registry: Registry
    const evaluator: CelEvaluator

    constructor (registry: Registry, evaluator: CelEvaluator)
      ensures this.registry == registry && this.evaluator == evaluator
    {
      this.registry, this.evaluator := registry, evaluator;
    }

    /** validateExpressions: compiling every expression, up to the first error. */
    method ValidateExpressions(rule: OperationRuleSet) returns (ok: bool)
      requires evaluator.Valid()
      modifies evaluator
      ensures evaluator.Valid() && (ok <==> Compiles(evaluator.cel, rule))
    {
      for i := 0 to |rule.spec.rules|
        invariant evaluator.Valid() && forall j :: 0 <= j < i ==>
          evaluator.cel.compile(rule.spec.rules[j].expression).Some?
      {
        var program := evaluator.GetOrCompile(rule.spec.rules[i].expression);
        if program.None? {
          assert rule.spec.rules[i] in rule.spec.rules;
          return false;
        }
      }
      for i := 0 to |rule.spec.labelExpressions|
        invariant evaluator.Valid() && forall j :: 0 <= j < i ==>
          evaluator.cel.compile(rule.spec.labelExpressions[j].expression).Some?
      {
        var program := evaluator.GetOrCompile(rule.spec.labelExpressions[i].expression);
        if program.None? {
          assert rule.spec.labelExpressions[i] in rule.spec.labelExpressions;
          return false;
        }
      }
      return true;
    }

    /** Validate, inside a staging session. */
    method Validate(
        rule: OperationRuleSet, status: ManagedConditions, targetError: Option<string>, ruleMessage: string, now: Time)
      returns (ghost f: Findings)
      requires evaluator.Valid() && status.staging
      modifies evaluator, status, status.explain
      ensures evaluator.Valid() && status.staging
      ensures f.target == targetError && f.rule == if Compiles(evaluator.cel, rule) then None else Some(ruleMessage)
      ensures f.setup == None && f.gvr == ""
      ensures var s1 := Lists.ApplyAll(old(status.Current()), SetOps(InvalidConditions(f), now));
        status.Current() == if HasBlocking(s1.list, Blockers, true) then s1 else Lists.SetOne(s1, Validated, now)
    {
      ghost var s0 := status.Current();
      f := Findings(targetError, None, None, "");
      if targetError.Some? {
        status.SetCondition([InvalidTarget(targetError.value)], now);
      }
      assert SetOps<string, StatusConditions.Content>([], now) == [];
      assert status.Current() == Lists.ApplyAll(s0, SetOps(InvalidConditions(f), now));
      var ok := ValidateExpressions(rule);
      if !ok {
        AppendOps(s0, InvalidConditions(f), InvalidRule(ruleMessage), now);
        status.SetNext(InvalidRule(ruleMessage), now);
        f := f.(rule := Some(ruleMessage));
      }
      var blocker := status.HasBlockerCondition();
      if !blocker {
        status.SetNext(Validated, now);
      }
    }

    /** The staging session up to the setup. */
    method BeginAndValidate(
        rule: OperationRuleSet, status: ManagedConditions, targetError: Option<string>, ruleMessage: string, now: Time)
      returns (blocker: bool, ghost f: Findings)
      requires evaluator.Valid()
      modifies evaluator, status, status.explain
      ensures evaluator.Valid()
      ensures f.target == targetError && f.rule == if Compiles(evaluator.cel, rule) then None else Some(ruleMessage)
      ensures f.setup == None && f.gvr == "" && (blocker <==> Blocked(old(status.List), f))
      ensures status.Current() == AfterValidation(old(status.Current()), f, blocker, now)
    {
      ghost var s := status.Current();
      ghost var s0 := s.(list := Lists.Begin(s.list));
      status.BeginStagingConditions();
      f := Validate(rule, status, targetError, ruleMessage, now);
      BlockedAfterValidation(s, f, now);
      AppendOps(s0, InvalidConditions(f), Validated, now);
      blocker := status.HasBlockerCondition();
    }

    /** Reports the setup, if there was one, and ends the session. */
    method ReportAndEnd(
        status: ManagedConditions, ghost s: StatusState, ghost f: Findings, blocker: bool,
        setupError: Option<string>, gvrName: string, now: Time)
      requires blocker == Blocked(s.list, f) && f.setup == setupError && f.gvr == gvrName
      requires status.Current() == AfterValidation(s, f, blocker, now)
      modifies status, status.explain
      ensures status.Current() == Pass(s, f, now)
    {
      PassEnds(s, f, blocker, now);
      if !blocker {
        status.SetNext(if setupError.Some? then WatchFailed(setupError.value) else Ready(gvrName), now);
      }
      status.EndStagingConditions();
    }

    /** The staging session up to the setup, as the caches see it. */
    method ValidateOnly(
        rule: OperationRuleSet, status: ManagedConditions, targetError: Option<string>, ruleMessage: string, now: Time)
      returns (blocker: bool, ghost f: Findings)
      requires registry.Valid() && evaluator.Valid()
      modifies evaluator, status, status.explain
      ensures registry.Valid() && registry.Current() == old(registry.Current()) && evaluator.Valid()
      ensures Found(f, evaluator.cel, rule, targetError, ruleMessage, "")
      ensures f.setup == None && blocker == Blocked(old(status.List), f)
      ensures status.Current() == AfterValidation(old(status.Current()), f, blocker, now)
    {
      blocker, f := BeginAndValidate(rule, status, targetError, ruleMessage, now);
    }

    /** The setup, which a blocker leaves out. */
    method SetupUnlessBlocked(
        rule: OperationRuleSet, blocker: bool, setupMessage: string, ghost status: ManagedConditions)
      returns (setupError: Option<string>, ghost w: Watched)
      requires registry.Valid()
      modifies registry.rules, registry.rules.owners.Keys
      modifies registry.cache, registry.cache.channels.Keys, registry.cache.channels.Values
      ensures registry.Valid() && registry.cache.Grown(old(registry.cache.channels))
      ensures registry.Current() == w && SetUp(old(registry.Current()), w, rule, blocker, setupError.None?)
      ensures evaluator.Valid() == old(evaluator.Valid()) && status.Current() == old(status.Current())
    {
      setupError := None;
      if !blocker {
        var ok := registry.Setup(rule);
        setupError := if ok then None else Some(setupMessage);
      }
      w := registry.Current();
    }

    /** The staging session up to and with the setup. */
    method ValidateThenSetup(
        rule: OperationRuleSet, status: ManagedConditions,
        targetError: Option<string>, ruleMessage: string, setupMessage: string, now: Time)
      returns (blocker: bool, setupError: Option<string>, ghost f: Findings, ghost w: Watched)
      requires registry.Valid() && evaluator.Valid()
      modifies registry.rules, registry.rules.owners.Keys
      modifies registry.cache, registry.cache.channels.Keys, registry.cache.channels.Values
      modifies evaluator, status, status.explain
      ensures registry.Valid() && evaluator.Valid()
      ensures Found(f, evaluator.cel, rule, targetError, ruleMessage, "")
      ensures f.setup == None && blocker == Blocked(old(status.List), f)
      ensures status.Current() == AfterValidation(old(status.Current()), f, blocker, now)
      ensures registry.cache.Grown(old(registry.cache.channels))
      ensures registry.Current() == w && SetUp(old(registry.Current()), w, rule, blocker, setupError.None?)
    {
      blocker, f := ValidateOnly(rule, status, targetError, ruleMessage, now);
      setupError, w := SetupUnlessBlocked(rule, blocker, setupMessage, status);
    }

    /** The staging session from begin to end. */
    method ValidateAndSetup(
        rule: OperationRuleSet, status: ManagedConditions,
        targetError: Option<string>, ruleMessage: string, setupMessage: string, gvrName: string, now: Time)
      returns (blocker: bool, setupError: Option<string>, ghost f: Findings, ghost w: Watched)
      requires registry.Valid() && evaluator.Valid()
      modifies registry.rules, registry.rules.owners.Keys
      modifies registry.cache, registry.cache.channels.Keys, registry.cache.channels.Values
      modifies evaluator, status, status.explain
      ensures registry.Valid() && evaluator.Valid()
      ensures Found(f, evaluator.cel, rule, targetError, ruleMessage, gvrName)
      ensures blocker == Blocked(old(status.List), f) && f.setup == setupError
      ensures status.Current() == Pass(old(status.Current()), f, now)
      ensures registry.cache.Grown(old(registry.cache.channels))
      ensures registry.Current() == w && SetUp(old(registry.Current()), w, rule, blocker, setupError.None?)
    {
      ghost var s := status.Current();
      blocker, setupError, f, w := ValidateThenSetup(rule, status, targetError, ruleMessage, setupMessage, now);
      ghost var g := f.(gvr := gvrName, setup := setupError);
      ValidationIgnoresSetup(s, f, setupError, gvrName, blocker, now);
      f := g;
      ReportAndEnd(status, s, f, blocker, setupError, gvrName, now);
    }

    /** The part of Reconcile after the finalizer: requeue says that a retry was asked for, and
        watchActive what is assigned to the status field, if anything. */
    method ReconcileStatus(
        rule: OperationRuleSet, status: ManagedConditions,
        targetError: Option<string>, ruleMessage: string, setupMessage: string, gvrName: string, now: Time)
      returns (requeue: bool, watchActive: Option<bool>, ghost f: Findings, ghost w: Watched)
      requires registry.Valid() && evaluator.Valid()
      modifies registry.rules, registry.rules.owners.Keys
      modifies registry.cache, registry.cache.channels.Keys, registry.cache.channels.Values
      modifies evaluator, status, status.explain
      ensures registry.Valid() && evaluator.Valid()
      ensures Found(f, evaluator.cel, rule, targetError, ruleMessage, gvrName)
      ensures status.Current() == Pass(old(status.Current()), f, now)
      ensures Answers(Blocked(old(status.List), f), f, requeue, watchActive)
      ensures registry.Current() == w && registry.cache.Grown(old(registry.cache.channels))
      ensures SetUp(old(registry.Current()), w, rule, Blocked(old(status.List), f), f.setup.None?)
    {
      var blocker, setupError;
      blocker, setupError, f, w := ValidateAndSetup(rule, status, targetError, ruleMessage, setupMessage, gvrName, now);
      requeue := blocker || setupError.Some?;
      watchActive := if blocker then None else Some(setupError.None?);
    }

    /** The deletion's part of Reconcile. */
    method TeardownDeleted(rule: OperationRuleSet, deleting: bool) returns (ghost mid: Watched)
      requires registry.Valid()
      modifies registry.rules, registry.rules.owners.Keys
      modifies registry.cache, registry.cache.channels.Keys, registry.cache.channels.Values
      ensures registry.Valid() && registry.rules.owners == old(registry.rules.owners)
      ensures registry.cache.channels == old(registry.cache.channels) && registry.Current() == mid
      ensures TornDown(old(registry.Current()), mid, rule, deleting)
    {
      if deleting {
        registry.Teardown(rule);
      }
      mid := registry.Current();
    }

    /** Reconcile for a ruleset that was found. `targetError` is what discovery answers about the
        target; the finalizer patch succeeds or not. */
    method Reconcile(
        rule: OperationRuleSet, deleting: bool, status: ManagedConditions,
        targetError: Option<string>, ruleMessage: string, setupMessage: string, gvrName: string,
        patched: bool, now: Time)
      returns (requeue: bool, watchActive: Option<bool>, ghost f: Findings, ghost mid: Watched, ghost w: Watched)
      requires registry.Valid() && evaluator.Valid()
      modifies registry.rules, registry.rules.owners.Keys
      modifies registry.cache, registry.cache.channels.Keys, registry.cache.channels.Values
      modifies evaluator, status, status.explain
      ensures registry.Valid() && evaluator.Valid() && registry.Current() == w
      ensures registry.cache.Grown(old(registry.cache.channels))
      ensures var blocked := !patched || Blocked(old(status.List), f);
        CachesStep(old(registry.Current()), mid, w, rule, deleting, blocked, f.setup.None?)
      ensures !patched ==> status.Current() == old(status.Current()) && requeue && watchActive == None
      ensures patched ==>
        && Found(f, evaluator.cel, rule, targetError, ruleMessage, gvrName)
        && status.Current() == Pass(old(status.Current()), f, now)
        && Answers(Blocked(old(status.List), f), f, requeue, watchActive)
        && Reports(status.List, f, IsBlocked(old(status.List), f))
    {
      f, requeue, watchActive := Findings(None, None, None, gvrName), true, None;
      mid := TeardownDeleted(rule, deleting);
      w := mid;
      assert status.Current() == old(status.Current());
      if patched {
        requeue, watchActive, f, w := ReconcileStatus(
          rule, status, targetError, ruleMessage, setupMessage, gvrName, now);
        PassReports(old(status.Current()), f, now);
      }
    }
  }
}
