/** Rulesets and subjects that give every operation the same labels, and an ordinary ruleset that does not. */
module LifecycleSteady {
  import opened Prelude
  import opened Api
  import opened Evaluator
  import opened Operations
  import opened Lifecycle
  import opened LifecycleSafety
  import opened LifecycleOutcome
  import opened LifecycleLabels

  // ----- a condition on rulesets and subjects

  function FirstOwner(subject: Subject): Option<OwnerReference> {
    if subject.ownerReferences == [] then None else Some(subject.ownerReferences[0])
  }

  predicate SameIdentity(a: Subject, b: Subject) {
    a.uid == b.uid && a.name == b.name && a.namespace == b.namespace && a.kind == b.kind
  }

  /** Rulesets of one name have no label expressions and agree on static labels and component. */
  ghost predicate SteadyRuleSets(a: Event, b: Event) {
    a.Handled? && b.Handled? ==>
      forall r <- a.ruleSets, r' <- b.ruleSets :: r.name == r'.name ==>
        && r.spec.labelExpressions == [] == r'.spec.labelExpressions
        && r.spec.labels == r'.spec.labels && r.spec.component == r'.spec.component
  }

  /** A subject keeps its first owner reference. */
  ghost predicate SteadyOwners(a: Event, b: Event) {
    SameIdentity(a.subject, b.subject) ==> FirstOwner(a.subject) == FirstOwner(b.subject)
  }

  ghost predicate Steady(allowed: Event -> bool) {
    forall a, b :: allowed(a) && allowed(b) ==> SteadyRuleSets(a, b) && SteadyOwners(a, b)
  }

  lemma DesiredComesFrom(cel: Cel, e: Event, d: Ifo) returns (r: OperationRuleSet)
    requires e.Handled? && d in DesiredBy(cel, e)
    ensures r in e.ruleSets
    ensures d == Build(e.subject, d.spec.operation, r, DynamicLabels(cel, e.subject.content, r.spec.labelExpressions))
  {
    var result := DesiredIsBuilt(e.subject, Results(cel, e.subject, e.ruleSets), d);
    ResultsMeaning(cel, e.subject, e.ruleSets, result);
    r := result.ruleSet;
  }

  lemma SteadyBuilds(a: Subject, b: Subject, operation: string, r: OperationRuleSet, r': OperationRuleSet)
    requires SameIdentity(a, b) && FirstOwner(a) == FirstOwner(b)
    requires r.name == r'.name && r.spec.labels == r'.spec.labels && r.spec.component == r'.spec.component
    ensures Build(a, operation, r, map[]).labels == Build(b, operation, r', map[]).labels
  {
    assert SubjectLabels(a) == SubjectLabels(b);
    assert a.ownerReferences != [] ==> a.ownerReferences[0] == b.ownerReferences[0];
    assert OwnerLabels(a) == OwnerLabels(b);
  }

  /** Without label expressions, with fixed static labels and component and a fixed first owner, an
      operation has the same labels in every event. */
  lemma SteadyLabelsAgree(cel: Cel, allowed: Event -> bool)
    requires Steady(allowed)
    ensures LabelsAgree(cel, allowed)
  {
    forall e, e', d, d' | Gives(cel, allowed, e, d) && Gives(cel, allowed, e', d') && Key(d) == Key(d')
      ensures d.labels == d'.labels
    {
      var r := DesiredComesFrom(cel, e, d);
      var r' := DesiredComesFrom(cel, e', d');
      assert SteadyRuleSets(e, e') && SteadyOwners(e, e');
      assert SameIdentity(e.subject, e'.subject) && r.name == r'.name;
      SteadyBuilds(e.subject, e'.subject, d.spec.operation, r, r');
    }
  }

  // ----- a label expression that changes its value

  /** Of the two expressions, x always holds, and y is a or b as the content is 0 or not. */
  const LabelCel := Cel(
    expression => Some(Program(if expression == "y" then 1 else 0)),
    (program: Program, content: Content) => Some(
      if program.id == 0 then BoolValue(true) else StringValue(if content == 0 then "a" else "b")))

  const LabelRules := RuleSetOf("rules", GroupVersionResource("", "v1", "pods"),
    RuleSetSpec("", [Rule("Starting", "x")], [], map[], [LabelExpression("k", "y")]))

  function PodWith(content: Content): Subject {
    Subject("v1", "Pod", "pod", "default", "uid", 1, [], content)
  }

  function LabelValue(content: Content): string {
    if content == 0 then "a" else "b"
  }

  function PodEvent(content: Content, now: Time): Event {
    Handled(PodWith(content), [LabelRules], now, true)
  }

  function PodIfo(content: Content): Ifo {
    Build(PodWith(content), "Starting", LabelRules, map["k" := LabelValue(content)])
  }

  lemma PodIsLabelled(content: Content)
    ensures FreshResult(LabelCel, PodWith(content), LabelRules) ==
      Some(RuleSetResult(LabelRules, ["Starting"], map["k" := LabelValue(content)]))
  {
    assert "x" != "y";
    MatchedOfOne(LabelCel, content, Rule("Starting", "x"), true);
    var expression := LabelExpression("k", "y");
    assert [expression][..0] == [] && DynamicLabels(LabelCel, content, []) == map[];
    assert DynamicLabels(LabelCel, content, [expression]) == map["k" := LabelValue(content)];
  }

  lemma PodIsDesired(content: Content, now: Time)
    ensures PodIfo(content) in DesiredBy(LabelCel, PodEvent(content, now))
  {
    var pod, r := PodWith(content), RuleSetResult(LabelRules, ["Starting"], map["k" := LabelValue(content)]);
    PodIsLabelled(content);
    ResultsOfOne(LabelCel, pod, LabelRules, r);
    DesiredOfOne(pod, r);
    assert BuildAll(pod, r, 1)[0] == PodIfo(content);
  }

  lemma ShortKeyIsUsers(key: string)
    requires |key| == 1
    ensures key !in SubjectKeys + OperationKeys + OwnerKeys
  {
    assert forall i :: 0 <= i < 4 ==> |SubjectKeys[i]| > 1;
    assert forall i :: 0 <= i < 3 ==> |OperationKeys[i]| > 1;
    assert forall i :: 0 <= i < 5 ==> |OwnerKeys[i]| > 1;
  }

  lemma PodLabelIs(content: Content)
    ensures Has(PodIfo(content).labels, "k", LabelValue(content))
  {
    ShortKeyIsUsers("k");
    UserLabelPriority(PodWith(content), "Starting", LabelRules, map["k" := LabelValue(content)], "k");
  }

  lemma PodLabelsApart()
    ensures !Matches(PodIfo(1).labels, PodIfo(0).labels)
  {
    PodLabelIs(0);
    PodLabelIs(1);
  }

  /** Under every configuration two clean events, between which only the value of a label expression
      changes, leave two active IFOs of one operation. */
  lemma LabelChangeFails(config: Config) returns (states: seq<World>, n: Name, m: Name)
    ensures IsRun(config, LabelCel, states, [PodEvent(0, 0), PodEvent(1, 1)])
    ensures var s := states[2].store;
      SameOperation(s, n, m) && s[n].status.phase == s[m].status.phase == Active
  {
    PodIsDesired(0, 0);
    PodIsDesired(1, 1);
    PodLabelsApart();
    states, n, m := TwoLabelsTwoLive(config, LabelCel, PodEvent(0, 0), PodEvent(1, 1), PodIfo(0), PodIfo(1));
  }
}
