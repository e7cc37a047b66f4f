/** pkg/plugin/model: nodes that link to one another and form a forest of owner trees. */
module Forests {
  import opened Prelude
  import opened Api
  import opened OwnerGraph
  import opened SubjectGroups

  /** One subject with its in-flight operations: the first in IFO, the others in Siblings. */
  class Node {
    const IFO: Item
    var Siblings: seq<Item>
    var Children: seq<Node>
    var Parent: Node?

    constructor (ifo: Item)
      ensures IFO == ifo && Siblings == [] && Children == [] && Parent == null
    {
      IFO := ifo;
      Siblings, Children, Parent := [], [], null;
    }
  }

  function UID(n: Node): string {
    SubjectUID(n.IFO.ifo)
  }

  function OwnerRefs(n: Node): seq<OwnerReference> {
    n.IFO.ifo.spec.subject.ownerReferences
  }

  /** The IFOs at these positions, in this order, and at least one. */
  ghost predicate Holds(ifos: seq<Ifo>, g: seq<nat>, items: seq<Item>) {
    && |g| == |items| > 0
    && forall k :: 0 <= k < |g| ==> g[k] < |ifos| && items[k] == Item(g[k], ifos[g[k]])
  }

  ghost function Cells(n: Node): seq<Item>
    reads n`Siblings
  {
    [n.IFO] + n.Siblings
  }

  ghost predicate AllHeld(ifos: seq<Ifo>, groups: seq<seq<nat>>, nodes: seq<Node>)
    reads nodes`Siblings
  {
    |groups| == |nodes| && forall j :: 0 <= j < |nodes| ==> Holds(ifos, groups[j], Cells(nodes[j]))
  }

  ghost predicate Indexes(bySubjectUID: map<string, Node>, nodes: seq<Node>) {
    && (forall u <- bySubjectUID :: u != "" && bySubjectUID[u] in nodes && UID(bySubjectUID[u]) == u)
    && (forall n <- nodes :: UID(n) != "" ==> UID(n) in bySubjectUID && bySubjectUID[UID(n)] == n)
  }

  ghost predicate Unlinked(nodes: seq<Node>)
    reads nodes`Children, nodes`Parent
  {
    forall n <- nodes :: n.Children == [] && n.Parent == null
  }

  /** The first n IFOs are merged into these nodes. */
  ghost predicate Merged(
    ifos: seq<Ifo>, n: nat, nodes: seq<Node>, bySubjectUID: map<string, Node>, groups: seq<seq<nat>>)
    reads nodes
  {
    && n <= |ifos| && Distinct(nodes) && Unlinked(nodes)
    && Grouped(ifos, n, groups) && AllHeld(ifos, groups, nodes)
    && Indexes(bySubjectUID, nodes)
  }

  method AddSibling(
    ifos: seq<Ifo>, i: nat, ghost nodes: seq<Node>, bySubjectUID: map<string, Node>, ghost groups: seq<seq<nat>>)
    returns (ghost joined: seq<seq<nat>>)
    requires i < |ifos| && Merged(ifos, i, nodes, bySubjectUID, groups)
    requires SubjectUID(ifos[i]) != "" && SubjectUID(ifos[i]) in bySubjectUID
    modifies nodes
    ensures Merged(ifos, i + 1, nodes, bySubjectUID, joined)
  {
    var existing := bySubjectUID[SubjectUID(ifos[i])];
    ghost var a :| 0 <= a < |nodes| && nodes[a] == existing;
    assert Holds(ifos, groups[a], Cells(existing)) && Cells(existing)[0] == existing.IFO;
    JoinGroup(ifos, i, groups, a);
    existing.Siblings := existing.Siblings + [Item(i, ifos[i])];
    joined := groups[a := groups[a] + [i]];
    assert Cells(existing) == old(Cells(existing)) + [Item(i, ifos[i])];
    forall j | 0 <= j < |nodes|
      ensures Holds(ifos, joined[j], Cells(nodes[j]))
    {
      assert Holds(ifos, groups[j], old(Cells(nodes[j])));
    }
  }

  method AddNode(
    ifos: seq<Ifo>, i: nat, nodes: seq<Node>, bySubjectUID: map<string, Node>, ghost groups: seq<seq<nat>>)
    returns (n: Node, index: map<string, Node>)
    requires i < |ifos| && Merged(ifos, i, nodes, bySubjectUID, groups)
    requires SubjectUID(ifos[i]) == "" || SubjectUID(ifos[i]) !in bySubjectUID
    ensures fresh(n) && Merged(ifos, i + 1, nodes + [n], index, groups + [[i]])
  {
    NoSuchSubject(ifos, i, groups, nodes, bySubjectUID);
    NewGroup(ifos, i, groups);
    n := new Node(Item(i, ifos[i]));
    index := bySubjectUID;
    if UID(n) != "" {
      index := index[UID(n) := n];
    }
  }

  /** IFOs that share a subject UID share a node. */
  method MergeSubjects(ifos: seq<Ifo>)
    returns (nodes: seq<Node>, bySubjectUID: map<string, Node>, ghost groups: seq<seq<nat>>)
    ensures fresh(nodes) && Merged(ifos, |ifos|, nodes, bySubjectUID, groups)
  {
    nodes, bySubjectUID, groups := [], map[], [];
    for i := 0 to |ifos|
      invariant fresh(nodes) && Merged(ifos, i, nodes, bySubjectUID, groups)
    {
      var uid := SubjectUID(ifos[i]);
      if uid != "" && uid in bySubjectUID {
        groups := AddSibling(ifos, i, nodes, bySubjectUID, groups);
      } else {
        var n;
        n, bySubjectUID := AddNode(ifos, i, nodes, bySubjectUID, groups);
        nodes := nodes + [n];
        groups := groups + [[i]];
      }
    }
  }

  lemma NoSuchSubject(
    ifos: seq<Ifo>, i: nat, groups: seq<seq<nat>>, nodes: seq<Node>, bySubjectUID: map<string, Node>)
    requires i < |ifos| && Grouped(ifos, i, groups)
    requires AllHeld(ifos, groups, nodes) && Indexes(bySubjectUID, nodes)
    requires SubjectUID(ifos[i]) == "" || SubjectUID(ifos[i]) !in bySubjectUID
    ensures forall g <- groups :: g != [] && !SameSubject(ifos, g[0], i)
  {
    forall g | g in groups
      ensures g != [] && !SameSubject(ifos, g[0], i)
    {
      var j :| 0 <= j < |groups| && groups[j] == g;
      assert Holds(ifos, groups[j], Cells(nodes[j]));
      assert nodes[j] in nodes && Cells(nodes[j])[0] == nodes[j].IFO;
      assert Group(ifos, i, g) && g[0] in g;
    }
  }

  // ----- owners

  /** The node of the first reference that names a known subject. */
  function OwnerOf(bySubjectUID: map<string, Node>, refs: seq<OwnerReference>): Option<Node> {
    if refs == [] then None
    else if refs[0].uid in bySubjectUID then Some(bySubjectUID[refs[0].uid])
    else OwnerOf(bySubjectUID, refs[1..])
  }

  /** No node has this subject. */
  ghost predicate Unknown(nodes: seq<Node>, uid: string) {
    uid == "" || forall n <- nodes :: UID(n) != uid
  }

  /** The owner is the node whose subject the k-th reference names, and no earlier reference names any. */
  ghost predicate Owner(nodes: seq<Node>, refs: seq<OwnerReference>, owner: Option<Node>) {
    match owner
    case None => forall k :: 0 <= k < |refs| ==> Unknown(nodes, refs[k].uid)
    case Some(m) =>
      && m in nodes && UID(m) != ""
      && exists k :: 0 <= k < |refs| && refs[k].uid == UID(m) && forall j :: 0 <= j < k ==> Unknown(nodes, refs[j].uid)
  }

  lemma {:induction false} OwnerOfIsOwner(bySubjectUID: map<string, Node>, nodes: seq<Node>, refs: seq<OwnerReference>)
    requires Indexes(bySubjectUID, nodes)
    ensures Owner(nodes, refs, OwnerOf(bySubjectUID, refs))
  {
    if refs != [] {
      if refs[0].uid in bySubjectUID {
        assert refs[0].uid == UID(bySubjectUID[refs[0].uid]);
      } else {
        assert Unknown(nodes, refs[0].uid);
        OwnerOfIsOwner(bySubjectUID, nodes, refs[1..]);
        var owner := OwnerOf(bySubjectUID, refs[1..]);
        if owner.Some? {
          var k :| 0 <= k < |refs[1..]| && refs[1..][k].uid == UID(owner.value) &&
            forall j :: 0 <= j < k ==> Unknown(nodes, refs[1..][j].uid);
          assert refs[k + 1].uid == UID(owner.value);
          forall j | 0 <= j < k + 1
            ensures Unknown(nodes, refs[j].uid)
          {
            assert j > 0 ==> refs[j] == refs[1..][j - 1];
          }
        } else {
          forall k | 0 <= k < |refs|
            ensures Unknown(nodes, refs[k].uid)
          {
            assert k > 0 ==> refs[k] == refs[1..][k - 1];
          }
        }
      }
    }
  }

  /** The parents that owner references give. */
  ghost function OwnerLinks(nodes: seq<Node>, bySubjectUID: map<string, Node>): Parents<Node> {
    map n | n in nodes :: OwnerOf(bySubjectUID, OwnerRefs(n))
  }

  method FindOwner(bySubjectUID: map<string, Node>, refs: seq<OwnerReference>) returns (parent: Node?)
    ensures match OwnerOf(bySubjectUID, refs) case None => parent == null case Some(m) => parent == m
  {
    parent := null;
    for i := 0 to |refs|
      invariant parent == null && OwnerOf(bySubjectUID, refs) == OwnerOf(bySubjectUID, refs[i..])
    {
      if refs[i].uid in bySubjectUID {
        parent := bySubjectUID[refs[i].uid];
        return;
      }
    }
  }

  ghost function AsOption(n: Node?): Option<Node> {
    if n == null then None else Some(n)
  }

  /** The first t nodes have their links, in both directions; the others have no parent yet. */
  ghost predicate LinkedUpTo(nodes: seq<Node>, links: Parents<Node>, t: nat)
    reads nodes`Parent, nodes`Children
  {
    && t <= |nodes| && links.Keys == Elements(nodes)
    && (forall j :: 0 <= j < |nodes| ==> AsOption(nodes[j].Parent) == if j < t then links[nodes[j]] else None)
    && (forall n <- nodes :: n.Children == Linked(nodes[..t], links, Some(n)))
  }

  /** Links one node to its owner; a node that owns itself becomes its own child. */
  method Link(ghost nodes: seq<Node>, ghost links: Parents<Node>, ghost t: nat, n: Node, parent: Node?)
    requires Distinct(nodes) && LinkedUpTo(nodes, links, t) && t < |nodes| && n == nodes[t]
    requires links[n] == AsOption(parent) && (parent != null ==> parent in nodes)
    modifies nodes`Parent, nodes`Children
    ensures LinkedUpTo(nodes, links, t + 1)
  {
    assert nodes[..t + 1][..t] == nodes[..t];
    if parent != null {
      n.Parent := parent;
      parent.Children := parent.Children + [n];
    }
  }

  method LinkOwners(nodes: seq<Node>, bySubjectUID: map<string, Node>)
    requires Distinct(nodes) && Unlinked(nodes) && Indexes(bySubjectUID, nodes)
    modifies nodes`Parent, nodes`Children
    ensures LinkedUpTo(nodes, OwnerLinks(nodes, bySubjectUID), |nodes|)
  {
    ghost var links := OwnerLinks(nodes, bySubjectUID);
    for t := 0 to |nodes|
      invariant LinkedUpTo(nodes, links, t)
    {
      var n := nodes[t];
      var parent := FindOwner(bySubjectUID, OwnerRefs(n));
      OwnerOfIsOwner(bySubjectUID, nodes, OwnerRefs(n));
      Link(nodes, links, t, n, parent);
    }
  }

  class Forest {
    var Roots: seq<Node>
    var Orphans: seq<Node>

    constructor (roots: seq<Node>)
      ensures Roots == roots && Orphans == []
    {
      Roots, Orphans := roots, [];
    }
  }

  /** The links between the nodes, as values. */
  ghost predicate Linking(nodes: set<Node>, p: Parents<Node>, c: Children<Node>)
    reads nodes`Parent, nodes`Children
  {
    && p.Keys == nodes && c.Keys == nodes
    && forall n <- nodes :: p[n] == AsOption(n.Parent) && c[n] == n.Children
  }

  /** Child lists mirror parent links, so each node has at most one parent and is in at most one list,
      and the roots are the nodes without a parent. The nodes include those that no root reaches. */
  ghost predicate WellFormed(p: Parents<Node>, c: Children<Node>, roots: seq<Node>) {
    Mirrors(p, c) && AreRoots(p, roots)
  }

  /** These links give every node the parent that its owner references name. */
  ghost predicate OwnersLinked(nodes: seq<Node>, links: Parents<Node>) {
    links.Keys == Elements(nodes) && forall n <- nodes :: Owner(nodes, OwnerRefs(n), links[n])
  }

  lemma OwnerLinksLink(nodes: seq<Node>, bySubjectUID: map<string, Node>)
    requires Indexes(bySubjectUID, nodes)
    ensures Closed(OwnerLinks(nodes, bySubjectUID)) && OwnersLinked(nodes, OwnerLinks(nodes, bySubjectUID))
  {
    forall n | n in nodes
      ensures Owner(nodes, OwnerRefs(n), OwnerOf(bySubjectUID, OwnerRefs(n)))
    {
      OwnerOfIsOwner(bySubjectUID, nodes, OwnerRefs(n));
    }
  }

  lemma LinkedIsLinking(nodes: seq<Node>, p: Parents<Node>, c: Children<Node>)
    requires LinkedUpTo(nodes, p, |nodes|)
    requires c.Keys == Elements(nodes) && forall n <- nodes :: c[n] == n.Children
    ensures Linking(Elements(nodes), p, c) && forall n <- c :: c[n] == Linked(nodes, p, Some(n))
  {
    assert nodes[..|nodes|] == nodes;
    forall n | n in nodes
      ensures p[n] == AsOption(n.Parent)
    {
      var j :| 0 <= j < |nodes| && nodes[j] == n;
    }
  }

  method FindRoots(nodes: seq<Node>, ghost p: Parents<Node>, ghost c: Children<Node>) returns (roots: seq<Node>)
    requires Distinct(nodes) && Linking(Elements(nodes), p, c)
    ensures AreRoots(p, roots)
  {
    roots := [];
    for t := 0 to |nodes|
      invariant roots == Linked(nodes[..t], p, None)
    {
      assert nodes[..t + 1][..t] == nodes[..t];
      assert nodes[t] in Elements(nodes);
      if nodes[t].Parent == null {
        roots := roots + [nodes[t]];
      }
    }
    assert nodes[..|nodes|] == nodes;
    LinkedHolds(nodes, p, None, roots);
  }

  /** The nodes hold the listed IFOs, divided by subject. */
  ghost predicate HoldAll(ifos: seq<Ifo>, groups: seq<seq<nat>>, nodes: seq<Node>)
    reads nodes`Siblings
  {
    Grouped(ifos, |ifos|, groups) && AllHeld(ifos, groups, nodes)
  }

  method MakeNodes(ifos: seq<Ifo>)
    returns (nodes: seq<Node>, ghost groups: seq<seq<nat>>, ghost p: Parents<Node>, ghost c: Children<Node>)
    ensures fresh(Elements(nodes)) && Distinct(nodes) && HoldAll(ifos, groups, nodes)
    ensures Linking(Elements(nodes), p, c) && OwnersLinked(nodes, p) && Mirrors(p, c)
  {
    var bySubjectUID;
    nodes, bySubjectUID, groups := MergeSubjects(ifos);
    LinkOwners(nodes, bySubjectUID);
    p := OwnerLinks(nodes, bySubjectUID);
    c := map n | n in nodes :: n.Children;
    OwnerLinksLink(nodes, bySubjectUID);
    LinkedIsLinking(nodes, p, c);
    LinkedListsMirror(nodes, p, c);
  }

  method BuildOwnerRefTrees(ifos: seq<Ifo>)
    returns (forest: Forest, ghost nodes: seq<Node>, ghost groups: seq<seq<nat>>,
             ghost p: Parents<Node>, ghost c: Children<Node>)
    ensures fresh(forest) && fresh(Elements(nodes)) && Distinct(nodes) && HoldAll(ifos, groups, nodes)
    ensures Linking(Elements(nodes), p, c) && OwnersLinked(nodes, p)
    ensures WellFormed(p, c, forest.Roots) && forest.Orphans == []
  {
    var made;
    made, groups, p, c := MakeNodes(ifos);
    nodes := made;
    var roots := FindRoots(made, p, c);
    forest := new Forest(roots);
  }
}
