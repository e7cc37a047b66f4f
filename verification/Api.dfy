/** The resource types of api/v1alpha1 and their status transitions. */
module Api {
  import opened Prelude

  /** Kubernetes timestamps carry whole seconds. */
  type Time = int
  type Labels = map<string, string>
  /** Object names; the API server turns a generate-name prefix into a fresh one. */
  type Name = nat

  const LabelOwnerUID := "ifo.kubevirt.io/owner-uid"
  const LabelOwnerName := "ifo.kubevirt.io/owner-name"
  const LabelOwnerKind := "ifo.kubevirt.io/owner-kind"
  const LabelOwnerGroup := "ifo.kubevirt.io/owner-group"
  const LabelOwnerVersion := "ifo.kubevirt.io/owner-version"
  const LabelSubjectUID := "ifo.kubevirt.io/subject-uid"
  const LabelSubjectName := "ifo.kubevirt.io/subject-name"
  const LabelSubjectNamespace := "ifo.kubevirt.io/subject-namespace"
  const LabelSubjectKind := "ifo.kubevirt.io/subject-kind"
  const LabelOperation := "ifo.kubevirt.io/operation"
  const LabelComponent := "ifo.kubevirt.io/component"
  const LabelRuleSet := "ifo.kubevirt.io/ruleset"
  const LabelCorrelationGroup := "ifo.kubevirt.io/correlation-group"
  const LabelCorrelationRole := "ifo.kubevirt.io/correlation-role"
  const CorrelationRoleRoot := "root"

  datatype GroupVersionResource = GroupVersionResource(group: string, version: string, resource: string)

  datatype OwnerReference = OwnerReference(apiVersion: string, kind: string, name: string, uid: string)

  /** What a subject's fields look like to an expression is outside this model. */
  type Content = int

  /** The watched Kubernetes resource. */
  datatype Subject = Subject(
    apiVersion: string, kind: string, name: string, namespace: string, uid: string,
    generation: int, ownerReferences: seq<OwnerReference>, content: Content)

  datatype SubjectReference = SubjectReference(
    apiVersion: string, kind: string, name: string, namespace: string, uid: string,
    ownerReferences: seq<OwnerReference>)

  datatype IfoSpec = IfoSpec(operation: string, ruleSet: string, component: string, subject: SubjectReference)

  /** `Unset` is the empty phase of an IFO whose first status update has not happened. */
  datatype Phase = Unset | Active | Completed

  datatype IfoStatus = IfoStatus(
    phase: Phase, completed: Option<Time>, lastDetected: Option<Time>,
    detectedBy: seq<string>, subjectGeneration: int)

  const EmptyStatus := IfoStatus(Unset, None, None, [], 0)

  /** An InFlightOperation as a value: what the API server stores and a list returns. */
  datatype Ifo = Ifo(name: Name, labels: Labels, created: Time, spec: IfoSpec, status: IfoStatus) {

    function WithCompleted(subject: Subject, now: Time): Ifo {
      this.(status := status.(phase := Completed, completed := Some(now), subjectGeneration := subject.generation))
    }

    function WithDetection(subject: Subject, detectedBy: seq<string>, now: Time): Ifo {
      this.(status := IfoStatus(Active, None, Some(now), detectedBy, subject.generation))
    }

    /** Whether the IFO completed at least a threshold ago; until then a new detection reuses it. */
    predicate PastDebounceThreshold(threshold: int, now: Time) {
      status.completed.Some? && status.completed.value + threshold <= now
    }
  }

  /** A Go variable of type InFlightOperation, updated through its address. */
  class IfoVariable {
    var value: Ifo

    constructor (v: Ifo)
      ensures value == v
    {
      value := v;
    }

    method MarkCompleted(subject: Subject, now: Time)
      modifies this
      ensures value == old(value).WithCompleted(subject, now)
    {
      var status := value.status;
      status := status.(phase := Completed);
      status := status.(completed := Some(now));
      status := status.(subjectGeneration := subject.generation);
      value := value.(status := status);
    }

    method MarkDetection(subject: Subject, detectedBy: seq<string>, now: Time)
      modifies this
      ensures value == old(value).WithDetection(subject, detectedBy, now)
    {
      var status := value.status;
      status := status.(phase := Active);
      status := status.(lastDetected := Some(now));
      status := status.(subjectGeneration := subject.generation);
      status := status.(detectedBy := detectedBy);
      status := status.(completed := None);
      value := value.(status := status);
    }
  }

  datatype Rule = Rule(operation: string, expression: string)

  datatype LabelExpression = LabelExpression(key: string, expression: string)

  /** A named set of rules for a target; only the operator's own instance below looks inside. */
  datatype RuleSetOf<+G, +N, +S> = RuleSetOf(name: N, target: G, spec: S) {

    function GVR(): G {
      target
    }
  }

  datatype RuleSetSpec = RuleSetSpec(
    component: string, rules: seq<Rule>, namespaces: seq<string>,
    labels: Labels, labelExpressions: seq<LabelExpression>)

  type OperationRuleSet = RuleSetOf<GroupVersionResource, string, RuleSetSpec>

  /** A ruleset without namespaces applies everywhere. */
  predicate AppliesTo(ruleSet: OperationRuleSet, subject: Subject) {
    ruleSet.spec.namespaces == [] || subject.namespace in ruleSet.spec.namespaces
  }
}
