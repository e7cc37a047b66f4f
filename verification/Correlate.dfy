/** The label correlator: roots that carry the same correlation group come under the group's root. */
module Correlators {
  import opened Prelude
  import opened Api
  import opened OwnerGraph
  import opened Adoption
  import opened Forests
  import opened Sorting

  datatype GroupKey = GroupKey(group: string, namespace: string)

  /** A Go map gives the empty string for a missing label. */
  function LabelOf(n: Node, name: string): string {
    if name in n.IFO.ifo.labels then n.IFO.ifo.labels[name] else ""
  }

  function GroupOf(n: Node): Option<GroupKey> {
    var group := LabelOf(n, LabelCorrelationGroup);
    if group == "" then None else Some(GroupKey(group, n.IFO.ifo.spec.subject.namespace))
  }

  predicate HasRootRole(n: Node) {
    LabelOf(n, LabelCorrelationRole) == CorrelationRoleRoot
  }

  function CreatedAt(n: Node): int {
    n.IFO.ifo.created
  }

  predicate EarlierFirst(a: Node, b: Node) {
    CreatedAt(a) <= CreatedAt(b)
  }

  // ----- groups, in terms of labels and namespaces

  /** Both carry the same correlation group, which is not empty, and their subjects are of one namespace. */
  ghost predicate SameGroup(a: Node, b: Node) {
    var x, y, key := a.IFO.ifo, b.IFO.ifo, "ifo.kubevirt.io/correlation-group";
    && key in x.labels && key in y.labels && x.labels[key] == y.labels[key] != ""
    && x.spec.subject.namespace == y.spec.subject.namespace
  }

  ghost predicate PlaysRoot(n: Node) {
    var labels, key := n.IFO.ifo.labels, "ifo.kubevirt.io/correlation-role";
    key in labels && labels[key] == "root"
  }

  lemma GroupMeaning(a: Node, b: Node)
    ensures GroupOf(a).Some? && GroupOf(a) == GroupOf(b) <==> SameGroup(a, b)
    ensures HasRootRole(a) <==> PlaysRoot(a)
  {
  }

  /** From p to q the root n came under an earliest root-role node of its group, which stays a root. */
  ghost predicate MovedUnderRoot(p: Parents<Node>, q: Parents<Node>, n: Node)
    requires n in p && n in q
  {
    && p[n] == None && q[n].Some?
    && var r := q[n].value;
    && r != n && r in p && r in q && p[r] == None && q[r] == None && SameGroup(n, r) && PlaysRoot(r)
    && forall m <- p :: p[m] == None && SameGroup(n, m) && PlaysRoot(m) ==> r.IFO.ifo.created <= m.IFO.ifo.created
  }

  /** Whatever changed its parent moved under a root of its group, and of two roots of one group, one of
      which plays the root, at most one is left a root. */
  ghost predicate GroupedUnderRoots(p: Parents<Node>, q: Parents<Node>) {
    && q.Keys == p.Keys
    && (forall n <- p :: q[n] != p[n] ==> MovedUnderRoot(p, q, n))
    && (forall n <- p, m <- p :: n != m && p[n] == None && p[m] == None && SameGroup(n, m) && PlaysRoot(m) ==>
         q[n].Some? || q[m].Some?)
  }

  lemma RegroupedUnderRoots(
    p: Parents<Node>, roots: seq<Node>, leaders: map<GroupKey, Node>, q: Parents<Node>)
    requires AreRoots(p, roots) && Leads(roots, GroupOf, HasRootRole, CreatedAt, leaders)
    requires Regrouped(p, roots, GroupOf, leaders, q)
    ensures GroupedUnderRoots(p, q)
  {
    forall n | n in p && q[n] != p[n]
      ensures MovedUnderRoot(p, q, n)
    {
      MovesUnderRoot(p, roots, leaders, q, n);
    }
    forall n, m | n in p && m in p && n != m && p[n] == None && p[m] == None && SameGroup(n, m) && PlaysRoot(m)
      ensures q[n].Some? || q[m].Some?
    {
      GroupMeaning(n, m);
      GroupMeaning(m, n);
      assert n in roots && m in roots && GroupOf(m).value in leaders;
    }
  }

  lemma MovesUnderRoot(
    p: Parents<Node>, roots: seq<Node>, leaders: map<GroupKey, Node>, q: Parents<Node>, n: Node)
    requires AreRoots(p, roots) && Leads(roots, GroupOf, HasRootRole, CreatedAt, leaders)
    requires Regrouped(p, roots, GroupOf, leaders, q) && n in p && q[n] != p[n]
    ensures MovedUnderRoot(p, q, n)
  {
    var key := GroupOf(n).value;
    var r := leaders[key];
    assert Oldest(roots, GroupOf, HasRootRole, CreatedAt, key, r);
    GroupMeaning(n, r);
    GroupMeaning(r, r);
    forall m | m in p && p[m] == None && SameGroup(n, m) && PlaysRoot(m)
      ensures r.IFO.ifo.created <= m.IFO.ifo.created
    {
      GroupMeaning(n, m);
      GroupMeaning(m, m);
    }
  }

  /** The earliest node with the root role, or null when there is none. */
  method FindGroupRoot(nodes: seq<Node>) returns (root: Node?)
    ensures root == null <==> forall n <- nodes :: !HasRootRole(n)
    ensures root != null ==>
      root in nodes && HasRootRole(root) && forall n <- nodes :: HasRootRole(n) ==> CreatedAt(root) <= CreatedAt(n)
  {
    var candidates: seq<Node> := [];
    for i := 0 to |nodes|
      invariant forall n <- candidates :: n in nodes && HasRootRole(n)
      invariant forall j :: 0 <= j < i && HasRootRole(nodes[j]) ==> nodes[j] in candidates
    {
      if HasRootRole(nodes[i]) {
        candidates := candidates + [nodes[i]];
      }
    }
    if |candidates| == 0 {
      return null;
    }
    assert candidates[0] in candidates;
    if |candidates| == 1 {
      return candidates[0];
    }
    var sorted := SortFunc(candidates, EarlierFirst);
    SameElements(sorted, candidates);
    assert sorted[0] in sorted;
    root := sorted[0];
  }

  method GroupRoots(roots: seq<Node>) returns (groups: map<GroupKey, seq<Node>>, remaining: seq<Node>)
    ensures remaining == Members(roots, GroupOf, None)
    ensures forall key <- groups :: groups[key] == Members(roots, GroupOf, Some(key))
    ensures forall r <- roots :: GroupOf(r).Some? ==> GroupOf(r).value in groups
    ensures forall r <- roots :: r in remaining <==> !SameGroup(r, r)
    ensures forall key, a, b :: key in groups && a in groups[key] && b in roots ==>
      (b in groups[key] <==> SameGroup(a, b))
  {
    groups, remaining := map[], [];
    for i := 0 to |roots|
      invariant remaining == Members(roots[..i], GroupOf, None)
      invariant forall key <- groups :: groups[key] == Members(roots[..i], GroupOf, Some(key))
      invariant forall key {:trigger Members(roots[..i], GroupOf, Some(key))} ::
        key !in groups ==> Members(roots[..i], GroupOf, Some(key)) == []
      invariant forall j :: 0 <= j < i && GroupOf(roots[j]).Some? ==> GroupOf(roots[j]).value in groups
    {
      assert roots[..i + 1][..i] == roots[..i];
      match GroupOf(roots[i]) {
        case None => remaining := remaining + [roots[i]];
        case Some(key) =>
          var list := if key in groups then groups[key] else [];
          assert list == Members(roots[..i], GroupOf, Some(key));
          groups := groups[key := list + [roots[i]]];
      }
    }
    assert roots[..|roots|] == roots;
    GroupsAreSame(roots, groups, remaining);
  }

  lemma GroupsAreSame(roots: seq<Node>, groups: map<GroupKey, seq<Node>>, remaining: seq<Node>)
    requires remaining == Members(roots, GroupOf, None)
    requires forall key <- groups :: groups[key] == Members(roots, GroupOf, Some(key))
    ensures forall r <- roots :: r in remaining <==> !SameGroup(r, r)
    ensures forall key, a, b :: key in groups && a in groups[key] && b in roots ==>
      (b in groups[key] <==> SameGroup(a, b))
  {
    MembersAre(roots, GroupOf, None, remaining);
    forall r | r in roots
      ensures r in remaining <==> !SameGroup(r, r)
    {
      GroupMeaning(r, r);
    }
    forall key, a, b | key in groups && a in groups[key] && b in roots
      ensures b in groups[key] <==> SameGroup(a, b)
    {
      MembersAre(roots, GroupOf, Some(key), groups[key]);
      GroupMeaning(a, b);
    }
  }

  method AdoptOne(
    rootNode: Node, n: Node, ghost nodes: set<Node>, ghost q: Parents<Node>, ghost d: Children<Node>)
    requires rootNode in nodes && n in nodes && Linking(nodes, q, d)
    modifies nodes`Parent, nodes`Children
    ensures Linking(nodes, q[n := Some(rootNode)], d[rootNode := d[rootNode] + [n]])
  {
    n.Parent := rootNode;
    rootNode.Children := rootNode.Children + [n];
  }

  /** Hangs every other member under the group's root. */
  method Adopt(
    rootNode: Node, members: seq<Node>, ghost nodes: set<Node>, ghost q: Parents<Node>, ghost d: Children<Node>)
    returns (ghost r: Parents<Node>, ghost e: Children<Node>)
    requires rootNode in nodes && Linking(nodes, q, d)
    requires forall i :: 0 <= i < |members| ==> members[i] in nodes
    modifies nodes`Parent, nodes`Children
    ensures Linking(nodes, r, e) && Adopted(q, d, members, rootNode, r, e)
  {
    r, e := q, d;
    AdoptedNone(q, d, rootNode);
    for i := 0 to |members|
      invariant Linking(nodes, r, e) && Adopted(q, d, members[..i], rootNode, r, e)
    {
      AdoptedOneMore(q, d, members, i, rootNode, r, e);
      if members[i] != rootNode {
        AdoptOne(rootNode, members[i], nodes, r, e);
        r, e := r[members[i] := Some(rootNode)], e[rootNode := e[rootNode] + [members[i]]];
      }
    }
    assert members[..|members|] == members;
  }

  lemma MembersAreNodes(
    p: Parents<Node>, roots: seq<Node>, key: GroupKey, members: seq<Node>)
    requires AreRoots(p, roots) && members == Members(roots, GroupOf, Some(key))
    ensures forall i :: 0 <= i < |members| ==> members[i] in p
    ensures forall n <- members :: n in p && GroupOf(n) == Some(key)
  {
    MembersHold(roots, GroupOf, Some(key), members);
    forall i | 0 <= i < |members|
      ensures members[i] in p
    {
      assert members[i] in members;
    }
  }

  /** What has been regrouped once the groups in `done` have been visited. */
  ghost predicate Visited(
    p: Parents<Node>, c: Children<Node>, roots: seq<Node>, done: set<GroupKey>, leaders: map<GroupKey, Node>,
    q: Parents<Node>, d: Children<Node>, remaining: seq<Node>)
  {
    Regrouping(p, c, roots, GroupOf, HasRootRole, CreatedAt, done, leaders, q, d, remaining)
  }

  method LeadGroup(
    rootNode: Node, ghost key: GroupKey, members: seq<Node>, ghost remaining: seq<Node>, ghost nodes: set<Node>,
    ghost p: Parents<Node>, ghost c: Children<Node>, ghost roots: seq<Node>, ghost done: set<GroupKey>,
    ghost leaders: map<GroupKey, Node>, ghost q: Parents<Node>, ghost d: Children<Node>)
    returns (ghost r: Parents<Node>, ghost e: Children<Node>)
    requires Linking(nodes, q, d) && p.Keys == nodes && Visited(p, c, roots, done, leaders, q, d, remaining)
    requires key !in done && members == Members(roots, GroupOf, Some(key))
    requires rootNode in members && HasRootRole(rootNode)
    requires forall n <- members :: HasRootRole(n) ==> CreatedAt(rootNode) <= CreatedAt(n)
    modifies nodes`Parent, nodes`Children
    ensures Linking(nodes, r, e)
    ensures Visited(p, c, roots, done + {key}, leaders[key := rootNode], r, e, remaining + [rootNode])
  {
    MembersAreNodes(p, roots, key, members);
    r, e := Adopt(rootNode, members, nodes, q, d);
    StepLed(p, c, roots, GroupOf, HasRootRole, CreatedAt, done, leaders, q, d, remaining, key, members, rootNode, r, e);
  }

  /** One group: its root, if it has one, adopts the other members and stays. */
  method CorrelateGroup(
    key: GroupKey, members: seq<Node>, remaining: seq<Node>, ghost nodes: set<Node>, ghost p: Parents<Node>,
    ghost c: Children<Node>, ghost roots: seq<Node>, ghost done: set<GroupKey>, ghost leaders: map<GroupKey, Node>,
    ghost q: Parents<Node>, ghost d: Children<Node>)
    returns (left: seq<Node>, ghost led: map<GroupKey, Node>, ghost r: Parents<Node>, ghost e: Children<Node>)
    requires Linking(nodes, q, d) && p.Keys == nodes && Visited(p, c, roots, done, leaders, q, d, remaining)
    requires key !in done && members == Members(roots, GroupOf, Some(key))
    modifies nodes`Parent, nodes`Children
    ensures Linking(nodes, r, e) && Visited(p, c, roots, done + {key}, led, r, e, left)
  {
    var rootNode := FindGroupRoot(members);
    if rootNode == null {
      StepUnled(p, c, roots, GroupOf, HasRootRole, CreatedAt, done, leaders, q, d, remaining, key, members);
      led, r, e := leaders, q, d;
      left := remaining + members;
    } else {
      r, e := LeadGroup(rootNode, key, members, remaining, nodes, p, c, roots, done, leaders, q, d);
      led := leaders[key := rootNode];
      left := remaining + [rootNode];
    }
  }

  /** The roots after regrouping. The order in which groups are visited, and so the order of what is left, is open. */
  method CorrelateRoots(roots: seq<Node>, ghost nodes: set<Node>, ghost p: Parents<Node>, ghost c: Children<Node>)
    returns (remaining: seq<Node>, ghost leaders: map<GroupKey, Node>, ghost done: set<GroupKey>,
             ghost q: Parents<Node>, ghost d: Children<Node>)
    requires Linking(nodes, p, c) && AreRoots(p, roots)
    modifies nodes`Parent, nodes`Children
    ensures Linking(nodes, q, d) && Visited(p, c, roots, done, leaders, q, d, remaining)
    ensures forall r <- roots :: GroupOf(r).Some? ==> GroupOf(r).value in done
  {
    var groups;
    groups, remaining := GroupRoots(roots);
    leaders, done, q, d := map[], {}, p, c;
    RegroupingStarts(p, c, roots, GroupOf, HasRootRole, CreatedAt, remaining);
    var keys := groups.Keys;
    while keys != {}
      invariant keys <= groups.Keys && done == groups.Keys - keys
      invariant Linking(nodes, q, d) && Visited(p, c, roots, done, leaders, q, d, remaining)
      decreases |keys|
    {
      var key :| key in keys;
      remaining, leaders, q, d := CorrelateGroup(key, groups[key], remaining, nodes, p, c, roots, done, leaders, q, d);
      done := done + {key};
      keys := keys - {key};
    }
  }

  method Correlate(forest: Forest, ghost nodes: set<Node>, ghost p: Parents<Node>, ghost c: Children<Node>)
    returns (ghost leaders: map<GroupKey, Node>, ghost q: Parents<Node>, ghost d: Children<Node>)
    requires Linking(nodes, p, c) && WellFormed(p, c, forest.Roots)
    modifies forest`Roots, nodes`Parent, nodes`Children
    ensures Linking(nodes, q, d) && WellFormed(q, d, forest.Roots)
    ensures Leads(old(forest.Roots), GroupOf, HasRootRole, CreatedAt, leaders)
    ensures Regrouped(p, old(forest.Roots), GroupOf, leaders, q)
    ensures Extends(c, old(forest.Roots), q, d) && GroupedUnderRoots(p, q)
  {
    ghost var roots, done := forest.Roots, {};
    var remaining;
    remaining, leaders, done, q, d := CorrelateRoots(forest.Roots, nodes, p, c);
    RegroupingEnds(p, c, roots, GroupOf, HasRootRole, CreatedAt, done, leaders, q, d, remaining);
    RegroupedUnderRoots(p, roots, leaders, q);
    forest.Roots := remaining;
  }
}
