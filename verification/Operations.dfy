/** internal/watch/operations.go: the labels an IFO is found by, and the IFO built for a match. */
module Operations {
  import opened Prelude
  import opened Api

  /** A label selector made from a set of labels: every pair must be present. */
  predicate Matches(selector: Labels, labels: Labels) {
    forall k <- selector :: k in labels && labels[k] == selector[k]
  }

  function SubjectLabels(subject: Subject): Labels {
    map[
      LabelSubjectUID := subject.uid,
      LabelSubjectName := subject.name,
      LabelSubjectNamespace := subject.namespace,
      LabelSubjectKind := subject.kind
    ]
  }

  /** The position of the first slash, or the length when there is none. */
  function Slash(s: string): (i: nat)
    ensures i <= |s| && '/' !in s[..i] && (i < |s| ==> s[i] == '/')
  {
    if s == [] || s[0] == '/' then 0 else
      var i := Slash(s[1..]);
      assert s[..i + 1] == [s[0]] + s[1..][..i];
      i + 1
  }

  /** schema.ParseGroupVersion: (group, version), both empty when there is more than one slash. */
  function ParseGroupVersion(apiVersion: string): (string, string) {
    if apiVersion == "" || apiVersion == "/" then ("", "") else
      var i := Slash(apiVersion);
      if i == |apiVersion| then ("", apiVersion)
      else if '/' !in apiVersion[i + 1..] then (apiVersion[..i], apiVersion[i + 1..])
      else ("", "")
  }

  function OwnerLabels(subject: Subject): Labels {
    if subject.ownerReferences == [] then
      map[]
    else
      var owner := subject.ownerReferences[0];
      var (group, version) := ParseGroupVersion(owner.apiVersion);
      map[
        LabelOwnerUID := owner.uid,
        LabelOwnerName := owner.name,
        LabelOwnerKind := owner.kind,
        LabelOwnerGroup := group,
        LabelOwnerVersion := version
      ]
  }

  /** Merge order: dynamic labels lowest, then static labels, then the built-in ones. */
  function OperationLabels(
      subject: Subject, operation: string, ruleSet: OperationRuleSet, dynamicLabels: Labels): Labels
  {
    var labels := dynamicLabels + ruleSet.spec.labels + SubjectLabels(subject);
    var labels := labels[LabelOperation := operation];
    var labels := labels[LabelRuleSet := ruleSet.name];
    var labels := labels[LabelComponent := ruleSet.spec.component];
    labels + OwnerLabels(subject)
  }

  /** The IFO to create for a match; the API server fills in name and creation time. */
  function Build(subject: Subject, operation: string, ruleSet: OperationRuleSet, dynamicLabels: Labels): Ifo {
    Ifo(0, OperationLabels(subject, operation, ruleSet, dynamicLabels), 0,
      IfoSpec(operation, ruleSet.name, ruleSet.spec.component,
        SubjectReference(subject.apiVersion, subject.kind, subject.name,
          subject.namespace, subject.uid, subject.ownerReferences)),
      EmptyStatus)
  }

  /** What identifies an operation in progress: its subject, its name and the detecting ruleset. */
  datatype OperationKey = OperationKey(
    uid: string, name: string, namespace: string, kind: string, operation: string, ruleSet: string)

  function Key(ifo: Ifo): OperationKey {
    var s := ifo.spec.subject;
    OperationKey(s.uid, s.name, s.namespace, s.kind, ifo.spec.operation, ifo.spec.ruleSet)
  }

  predicate IsSubjectOf(subject: Subject, ifo: Ifo) {
    var s := ifo.spec.subject;
    s.uid == subject.uid && s.name == subject.name && s.namespace == subject.namespace && s.kind == subject.kind
  }

  predicate Has(labels: Labels, key: string, value: string) {
    key in labels && labels[key] == value
  }

  /** The labels of an IFO repeat its spec. */
  ghost predicate Indexed(ifo: Ifo) {
    var l, s := ifo.labels, ifo.spec.subject;
    && Has(l, LabelSubjectUID, s.uid)
    && Has(l, LabelSubjectName, s.name)
    && Has(l, LabelSubjectNamespace, s.namespace)
    && Has(l, LabelSubjectKind, s.kind)
    && Has(l, LabelOperation, ifo.spec.operation)
    && Has(l, LabelRuleSet, ifo.spec.ruleSet)
  }

  const SubjectKeys := [LabelSubjectUID, LabelSubjectName, LabelSubjectNamespace, LabelSubjectKind]
  const OperationKeys := [LabelOperation, LabelRuleSet, LabelComponent]
  const OwnerKeys := [LabelOwnerUID, LabelOwnerName, LabelOwnerKind, LabelOwnerGroup, LabelOwnerVersion]

  lemma KeysDiffer()
    ensures Distinct(SubjectKeys + OperationKeys + OwnerKeys)
  {
  }

  lemma MatchesDisplay(k: seq<string>, v: seq<string>, labels: Labels)
    requires |k| == |v| == 4 && Distinct(k)
    ensures Matches(map[k[0] := v[0], k[1] := v[1], k[2] := v[2], k[3] := v[3]], labels) <==>
      Has(labels, k[0], v[0]) && Has(labels, k[1], v[1]) && Has(labels, k[2], v[2]) && Has(labels, k[3], v[3])
  {
    var m := map[k[0] := v[0], k[1] := v[1], k[2] := v[2], k[3] := v[3]];
    assert k[0] in m && k[1] in m && k[2] in m && k[3] in m;
  }

  /** Later writes to a label map do not disturb keys they do not mention. */
  lemma MergeKeeps(user: Labels, k: seq<string>, v: seq<string>, o: seq<string>, w: seq<string>, owner: Labels)
    requires |k| == |v| == 4 && |o| == |w| == 3 && Distinct(k + o)
    requires forall key <- k + o :: key !in owner
    ensures var labels := (user + map[k[0] := v[0], k[1] := v[1], k[2] := v[2], k[3] := v[3]])
      [o[0] := w[0]][o[1] := w[1]][o[2] := w[2]] + owner;
      && (forall i :: 0 <= i < 4 ==> Has(labels, k[i], v[i]))
      && (forall i :: 0 <= i < 3 ==> Has(labels, o[i], w[i]))
  {
    var all := k + o;
    forall i | 0 <= i < 4
      ensures k[i] !in owner && k[i] != o[0] && k[i] != o[1] && k[i] != o[2]
    {
      assert all[i] == k[i] && all[4] == o[0] && all[5] == o[1] && all[6] == o[2];
    }
    assert o[0] == all[4] && o[1] == all[5] && o[2] == all[6];
    assert k[0] == all[0] && k[1] == all[1] && k[2] == all[2] && k[3] == all[3];
  }

  lemma BuiltInKeysApart(subject: Subject)
    ensures Distinct(SubjectKeys + OperationKeys)
    ensures forall key <- SubjectKeys + OperationKeys :: key !in OwnerLabels(subject)
  {
    KeysDiffer();
    var all, owner := SubjectKeys + OperationKeys + OwnerKeys, OwnerLabels(subject);
    assert forall i :: 0 <= i < 7 ==> all[i] == (SubjectKeys + OperationKeys)[i];
    forall key | key in SubjectKeys + OperationKeys
      ensures key !in owner
    {
      var i :| 0 <= i < 7 && (SubjectKeys + OperationKeys)[i] == key;
      assert forall j :: 7 <= j < 12 ==> all[j] != all[i] && all[j] == OwnerKeys[j - 7];
      assert key !in OwnerKeys;
    }
  }

  /** User-supplied labels cannot hide an IFO from its subject or its operation. */
  lemma BuildIsIndexed(subject: Subject, operation: string, ruleSet: OperationRuleSet, dynamicLabels: Labels)
    ensures Indexed(Build(subject, operation, ruleSet, dynamicLabels))
    ensures IsSubjectOf(subject, Build(subject, operation, ruleSet, dynamicLabels))
  {
    BuiltInKeysApart(subject);
    MergeKeeps(dynamicLabels + ruleSet.spec.labels, SubjectKeys,
      [subject.uid, subject.name, subject.namespace, subject.kind],
      OperationKeys, [operation, ruleSet.name, ruleSet.spec.component], OwnerLabels(subject));
  }

  /** A label the operator does not set itself comes from the ruleset's static labels, or failing
      that from its label expressions. */
  lemma UserLabelPriority(
      subject: Subject, operation: string, ruleSet: OperationRuleSet, dynamicLabels: Labels, key: string)
    requires key !in SubjectKeys + OperationKeys + OwnerKeys
    ensures var labels := OperationLabels(subject, operation, ruleSet, dynamicLabels);
      && (key in labels <==> key in ruleSet.spec.labels || key in dynamicLabels)
      && (key in ruleSet.spec.labels ==> labels[key] == ruleSet.spec.labels[key])
      && (key in dynamicLabels && key !in ruleSet.spec.labels ==> labels[key] == dynamicLabels[key])
  {
    var all := SubjectKeys + OperationKeys + OwnerKeys;
    assert forall i :: 0 <= i < 12 ==> all[i] in all;
    assert forall i :: 0 <= i < 4 ==> all[i] == SubjectKeys[i];
    assert forall i :: 0 <= i < 3 ==> all[4 + i] == OperationKeys[i];
    assert forall i :: 0 <= i < 5 ==> all[7 + i] == OwnerKeys[i];
    assert key !in SubjectKeys && key !in OperationKeys && key !in OwnerKeys;
  }

  /** Selecting by subject labels is selecting by the spec's subject. */
  lemma SubjectSelection(subject: Subject, ifo: Ifo)
    requires Indexed(ifo)
    ensures Matches(SubjectLabels(subject), ifo.labels) <==> IsSubjectOf(subject, ifo)
  {
    KeysDiffer();
    assert Distinct(SubjectKeys) by {
      var all := SubjectKeys + OperationKeys + OwnerKeys;
      forall i, j | 0 <= i < j < 4 ensures SubjectKeys[i] != SubjectKeys[j] {
        assert all[i] == SubjectKeys[i] && all[j] == SubjectKeys[j];
      }
    }
    MatchesDisplay(SubjectKeys, [subject.uid, subject.name, subject.namespace, subject.kind], ifo.labels);
  }

  // ----- what an IFO is built with, field by field and label by label

  lemma {:induction false} SlashIsFirst(a: string, b: string)
    requires '/' !in a
    ensures Slash(a + "/" + b) == |a| && Slash(a) == |a|
  {
    if a == [] {
      assert (a + "/" + b)[0] == '/';
    } else {
      assert (a + "/" + b)[0] == a[0] && (a + "/" + b)[1..] == a[1..] + "/" + b;
      SlashIsFirst(a[1..], b);
    }
  }

  /** An API version is a version, or a group and a version with one slash between them; anything else gives neither. */
  lemma GroupVersions(group: string, version: string, more: string)
    requires '/' !in group && '/' !in version
    ensures ParseGroupVersion(version) == ("", version)
    ensures ParseGroupVersion(group + "/" + version) == (group, version)
    ensures ParseGroupVersion(group + "/" + version + "/" + more) == ("", "")
  {
    SlashIsFirst(version, "");
    SlashIsFirst(group, version);
    var one, two := group + "/" + version, group + "/" + (version + "/" + more);
    assert one[..|group|] == group && one[|group| + 1..] == version;
    SlashIsFirst(group, version + "/" + more);
    assert group + "/" + version + "/" + more == two && two[|group| + 1..] == version + "/" + more;
    assert (version + "/" + more)[|version|] == '/';
  }

  /** The labels of the operator's own: of the subject, the operation, the ruleset and, if there is one, the first
      owner. */
  ghost predicate HasOwn(labels: Labels, subject: Subject, operation: string, name: string, component: string) {
    && Has(labels, "ifo.kubevirt.io/subject-uid", subject.uid)
    && Has(labels, "ifo.kubevirt.io/subject-name", subject.name)
    && Has(labels, "ifo.kubevirt.io/subject-namespace", subject.namespace)
    && Has(labels, "ifo.kubevirt.io/subject-kind", subject.kind)
    && Has(labels, "ifo.kubevirt.io/operation", operation)
    && Has(labels, "ifo.kubevirt.io/ruleset", name)
    && Has(labels, "ifo.kubevirt.io/component", component)
  }

  ghost predicate HasOwner(labels: Labels, owner: OwnerReference) {
    && Has(labels, "ifo.kubevirt.io/owner-uid", owner.uid)
    && Has(labels, "ifo.kubevirt.io/owner-name", owner.name)
    && Has(labels, "ifo.kubevirt.io/owner-kind", owner.kind)
    && Has(labels, "ifo.kubevirt.io/owner-group", ParseGroupVersion(owner.apiVersion).0)
    && Has(labels, "ifo.kubevirt.io/owner-version", ParseGroupVersion(owner.apiVersion).1)
  }

  lemma BuildsFor(subject: Subject, operation: string, ruleSet: OperationRuleSet, dynamicLabels: Labels)
    ensures var x := Build(subject, operation, ruleSet, dynamicLabels);
      && HasOwn(x.labels, subject, operation, ruleSet.name, ruleSet.spec.component)
      && (subject.ownerReferences != [] ==> HasOwner(x.labels, subject.ownerReferences[0]))
      && x.spec.operation == operation && x.spec.ruleSet == ruleSet.name
      && x.spec.component == ruleSet.spec.component
      && x.spec.subject.apiVersion == subject.apiVersion && x.spec.subject.ownerReferences == subject.ownerReferences
      && x.spec.subject.uid == subject.uid && x.spec.subject.name == subject.name
      && x.spec.subject.namespace == subject.namespace && x.spec.subject.kind == subject.kind
  {
    BuildIsIndexed(subject, operation, ruleSet, dynamicLabels);
    BuiltInKeysApart(subject);
    OwnerKeysApart();
    MergeKeeps(dynamicLabels + ruleSet.spec.labels, SubjectKeys,
      [subject.uid, subject.name, subject.namespace, subject.kind],
      OperationKeys, [operation, ruleSet.name, ruleSet.spec.component], OwnerLabels(subject));
    var built := OperationKeys[2];
    assert built == LabelComponent;
  }

  lemma OwnerKeysApart()
    ensures Distinct(OwnerKeys)
  {
    KeysDiffer();
    var all := SubjectKeys + OperationKeys + OwnerKeys;
    assert forall i :: 0 <= i < 5 ==> all[7 + i] == OwnerKeys[i];
  }

  /** A subject without owners leaves the owner labels, like all others, to the user. */
  lemma UnownedUserLabels(
      subject: Subject, operation: string, ruleSet: OperationRuleSet, dynamicLabels: Labels, key: string)
    requires subject.ownerReferences == [] && key !in SubjectKeys + OperationKeys
    ensures var labels := OperationLabels(subject, operation, ruleSet, dynamicLabels);
      && (key in labels <==> key in ruleSet.spec.labels || key in dynamicLabels)
      && (key in ruleSet.spec.labels ==> labels[key] == ruleSet.spec.labels[key])
      && (key in dynamicLabels && key !in ruleSet.spec.labels ==> labels[key] == dynamicLabels[key])
  {
    var built := SubjectKeys + OperationKeys;
    assert forall i :: 0 <= i < 7 ==> built[i] in built;
    assert forall i :: 0 <= i < 4 ==> built[i] == SubjectKeys[i];
    assert forall i :: 0 <= i < 3 ==> built[4 + i] == OperationKeys[i];
    assert key !in SubjectKeys && key !in OperationKeys;
  }
}
