/** BuildForest: owner trees, then correlation, then sorting. */
module ForestBuilder {
  import opened Prelude
  import opened Api
  import opened OwnerGraph
  import opened SubjectGroups
  import opened Adoption
  import opened Forests
  import opened Correlators
  import opened ForestWalks
  import opened Sorting

  datatype Correlator = LabelCorrelator

  ghost predicate SameReach(links: Parents<Node>, q: Parents<Node>, n: Node) {
    n in links && n in q && (Rooted(q, n) <==> Rooted(links, n)) && (links[n].Some? ==> q[n] == links[n])
  }

  /** From the owner links to q, only roots found a parent, and no node became reachable or unreachable. */
  ghost predicate OnlyRootsMoved(links: Parents<Node>, q: Parents<Node>) {
    links.Keys == q.Keys && forall n {:trigger SameReach(links, q, n)} :: n in links ==> SameReach(links, q, n)
  }

  /** What the correlators make of the owner links, whose roots these are: without one nothing moves; otherwise,
      however many there are, each group with a root-role node comes under its leader, and nothing else moves. */
  ghost predicate Correlated(
    correlators: seq<Correlator>, links: Parents<Node>, roots: seq<Node>, leaders: map<GroupKey, Node>,
    p: Parents<Node>)
  {
    && Closed(links) && AreRoots(links, roots)
    && if correlators == [] then p == links
      else Leads(roots, GroupOf, HasRootRole, CreatedAt, leaders) && Regrouped(links, roots, GroupOf, leaders, p)
  }

  lemma CorrelatingMovesRoots(
    correlators: seq<Correlator>, links: Parents<Node>, roots: seq<Node>, leaders: map<GroupKey, Node>,
    p: Parents<Node>)
    requires Correlated(correlators, links, roots, leaders, p)
    ensures OnlyRootsMoved(links, p)
  {
    if correlators != [] {
      RegroupingAdopts(links, roots, GroupOf, HasRootRole, CreatedAt, leaders, p);
    }
    forall n | n in links
      ensures SameReach(links, p, n)
    {
      if correlators != [] {
        AdoptionKeepsRooted(links, roots, p, n);
      }
    }
  }

  /** A correlator after the first finds nothing to move. */
  lemma CorrelatesOnce(
    done: seq<Correlator>, more: seq<Correlator>, links: Parents<Node>, roots: seq<Node>,
    leaders: map<GroupKey, Node>, p: Parents<Node>, c: Children<Node>, after: seq<Node>,
    again: map<GroupKey, Node>, q: Parents<Node>, d: Children<Node>)
    returns (led: map<GroupKey, Node>)
    requires Correlated(done, links, roots, leaders, p) && AreRoots(p, after) && more != []
    requires done == [] ==> after == roots
    requires Leads(after, GroupOf, HasRootRole, CreatedAt, again) && Regrouped(p, after, GroupOf, again, q)
    requires Extends(c, after, q, d)
    ensures Correlated(more, links, roots, led, q)
  {
    if done == [] {
      led := again;
    } else {
      led := leaders;
      RegroupingTwice(
        links, roots, GroupOf, HasRootRole, CreatedAt, leaders, p, c, after, again, q, d);
    }
  }

  method CorrelateAll(
    correlators: seq<Correlator>, forest: Forest, ghost nodes: set<Node>, ghost links: Parents<Node>,
    ghost lists: Children<Node>)
    returns (ghost leaders: map<GroupKey, Node>, ghost p: Parents<Node>, ghost c: Children<Node>)
    requires Linking(nodes, links, lists) && WellFormed(links, lists, forest.Roots)
    modifies forest`Roots, nodes`Parent, nodes`Children
    ensures Linking(nodes, p, c) && WellFormed(p, c, forest.Roots)
    ensures Correlated(correlators, links, old(forest.Roots), leaders, p)
  {
    leaders, p, c := map[], links, lists;
    for i := 0 to |correlators|
      invariant Linking(nodes, p, c) && WellFormed(p, c, forest.Roots)
      invariant Correlated(correlators[..i], links, old(forest.Roots), leaders, p)
      invariant i == 0 ==> forest.Roots == old(forest.Roots)
    {
      match correlators[i] {
        case LabelCorrelator =>
          ghost var roots, before, children := forest.Roots, p, c;
          ghost var again;
          again, p, c := Correlate(forest, nodes, p, c);
          leaders := CorrelatesOnce(correlators[..i], correlators[..i + 1], links, old(forest.Roots), leaders,
            before, children, roots, again, p, c);
      }
    }
    assert correlators[..|correlators|] == correlators;
  }

  method Arrange(
    correlators: seq<Correlator>, forest: Forest, ghost nodes: set<Node>, ghost links: Parents<Node>,
    ghost lists: Children<Node>)
    returns (ghost leaders: map<GroupKey, Node>, ghost p: Parents<Node>, ghost c: Children<Node>)
    requires Linking(nodes, links, lists) && WellFormed(links, lists, forest.Roots)
    modifies forest, nodes`Parent, nodes`Children
    ensures Linking(nodes, p, c) && WellFormed(p, c, forest.Roots)
    ensures Correlated(correlators, links, old(forest.Roots), leaders, p)
    ensures SortedBy(Ordered, forest.Roots) && RootedAreSorted(p, c)
    ensures InOrder(forest.Roots) && RootedInOrder(p, c)
    ensures Permuted(old(forest.Orphans), forest.Orphans)
  {
    leaders, p, c := CorrelateAll(correlators, forest, nodes, links, lists);
    c := SortForest(forest, nodes, p, c);
  }

  /** `links` are the parents that owner references give and `roots` their roots; `leaders` are the nodes that
      the groups were put under, and p and c the links of the forest. */
  method BuildForest(ifos: seq<Ifo>, correlators: seq<Correlator>)
    returns (forest: Forest, ghost nodes: seq<Node>, ghost groups: seq<seq<nat>>, ghost links: Parents<Node>,
             ghost roots: seq<Node>, ghost leaders: map<GroupKey, Node>, ghost p: Parents<Node>,
             ghost c: Children<Node>)
    ensures fresh(forest) && fresh(Elements(nodes)) && Distinct(nodes) && HoldAll(ifos, groups, nodes)
    ensures OwnersLinked(nodes, links) && Closed(links) && OnlyRootsMoved(links, p)
    ensures Correlated(correlators, links, roots, leaders, p)
    ensures if correlators == [] then p == links else GroupedUnderRoots(links, p)
    ensures Linking(Elements(nodes), p, c) && WellFormed(p, c, forest.Roots)
    ensures SortedBy(Ordered, forest.Roots) && RootedAreSorted(p, c) && forest.Orphans == []
    ensures InOrder(forest.Roots) && RootedInOrder(p, c)
  {
    ghost var lists;
    forest, nodes, groups, links, lists := BuildOwnerRefTrees(ifos);
    roots := forest.Roots;
    ghost var made := Elements(nodes);
    leaders, p, c := Arrange(correlators, forest, made, links, lists);
    CorrelatingMovesRoots(correlators, links, roots, leaders, p);
    if correlators != [] {
      RegroupedUnderRoots(links, roots, leaders, p);
    }
    RearrangedHold([], forest.Orphans);
  }

  // ----- conservation

  /** Every IFO of the list is in exactly one node, and in one place of it. */
  lemma EveryIfoHeldOnce(ifos: seq<Ifo>, groups: seq<seq<nat>>, nodes: seq<Node>, i: nat)
    returns (j: nat, k: nat)
    requires Distinct(nodes) && HoldAll(ifos, groups, nodes) && i < |ifos|
    ensures j < |nodes| && k < |Cells(nodes[j])| && Cells(nodes[j])[k] == Item(i, ifos[i])
    ensures forall a, b :: 0 <= a < |nodes| && 0 <= b < |Cells(nodes[a])| && Cells(nodes[a])[b].position == i ==>
      a == j && b == k
  {
    assert InSome(groups, i);
    var g :| g in groups && i in g;
    j :| 0 <= j < |groups| && groups[j] == g;
    k :| 0 <= k < |g| && g[k] == i;
    assert Holds(ifos, groups[j], Cells(nodes[j]));
    forall a, b | 0 <= a < |nodes| && 0 <= b < |Cells(nodes[a])| && Cells(nodes[a])[b].position == i
      ensures a == j && b == k
    {
      assert Holds(ifos, groups[a], Cells(nodes[a]));
      GroupsMatchSubjects(ifos, groups, i, i, j, a);
    }
  }

  /** Two IFOs are in one node iff they are one, or their subjects have the same UID and it is not empty. */
  lemma NodesAreSubjects(
    ifos: seq<Ifo>, groups: seq<seq<nat>>, nodes: seq<Node>, a: nat, k: nat, b: nat, l: nat)
    requires HoldAll(ifos, groups, nodes) && a < |nodes| && b < |nodes|
    requires k < |Cells(nodes[a])| && l < |Cells(nodes[b])|
    ensures var x, y := Cells(nodes[a])[k], Cells(nodes[b])[l];
      a == b <==> x.position == y.position || x.ifo.spec.subject.uid == y.ifo.spec.subject.uid != ""
  {
    assert Holds(ifos, groups[a], Cells(nodes[a])) && Holds(ifos, groups[b], Cells(nodes[b]));
    GroupsMatchSubjects(ifos, groups, groups[a][k], groups[b][l], a, b);
  }

  /** Some node stands for the subject with this UID. */
  ghost predicate Known(nodes: seq<Node>, uid: string) {
    exists m <- nodes :: m.IFO.ifo.spec.subject.uid == uid != ""
  }

  /** The owner link of a node goes to the node whose subject's UID is the first that its owner references name among
      those of all subjects; without such a reference there is no owner. */
  lemma OwnerMeaning(nodes: seq<Node>, links: Parents<Node>, n: Node)
    requires OwnersLinked(nodes, links) && n in nodes
    ensures var refs := n.IFO.ifo.spec.subject.ownerReferences;
      match links[n]
      case None => forall k :: 0 <= k < |refs| ==> !Known(nodes, refs[k].uid)
      case Some(m) => m in nodes && m.IFO.ifo.spec.subject.uid != "" && exists k ::
        0 <= k < |refs| && refs[k].uid == m.IFO.ifo.spec.subject.uid &&
        forall j :: 0 <= j < k ==> !Known(nodes, refs[j].uid)
  {
    var refs := OwnerRefs(n);
    assert Owner(nodes, refs, links[n]);
    forall k | 0 <= k < |refs|
      ensures Unknown(nodes, refs[k].uid) <==> !Known(nodes, refs[k].uid)
    {
    }
  }

  /** When owner references are acyclic nothing is lost: every IFO is in one place of one listed node. In
      general exactly the IFOs of the nodes whose owner chain ends are listed. */
  lemma NothingIsLost(
    ifos: seq<Ifo>, groups: seq<seq<nat>>, nodes: seq<Node>, links: Parents<Node>, p: Parents<Node>,
    all: seq<Node>)
    requires Distinct(nodes) && HoldAll(ifos, groups, nodes)
    requires OwnersLinked(nodes, links) && Closed(links) && OnlyRootsMoved(links, p)
    requires forall n :: n in all <==> n in p && Rooted(p, n)
    ensures Acyclic(links) <==> forall n <- nodes :: n in all
    ensures forall n <- nodes :: n in all <==> Rooted(links, n)
  {
    forall n | n in nodes
      ensures n in all <==> Rooted(links, n)
    {
      assert SameReach(links, p, n);
    }
    AllRootedIffAcyclic(links);
  }

  // ----- a subject that owns itself

  function SelfOwned(uid: string): Ifo {
    var subject := SubjectReference("v1", "Pod", "pod", "default", uid, [OwnerReference("v1", "Pod", "pod", uid)]);
    Ifo(1, map[], 0, IfoSpec("Starting", "rules", "", subject), EmptyStatus)
  }

  lemma OneNode(ifo: Ifo, groups: seq<seq<nat>>, nodes: seq<Node>)
    requires HoldAll([ifo], groups, nodes)
    ensures |nodes| == 1 && nodes[0].IFO.ifo == ifo
  {
    assert InSome(groups, 0);
    assert |groups| > 1 ==> Apart([ifo], groups[0], groups[1]);
    assert Holds([ifo], groups[0], Cells(nodes[0])) && Cells(nodes[0])[0] == nodes[0].IFO;
  }

  lemma SelfOwnedIsUnrooted(uid: string, nodes: seq<Node>, groups: seq<seq<nat>>, links: Parents<Node>)
    requires uid != "" && HoldAll([SelfOwned(uid)], groups, nodes) && OwnersLinked(nodes, links) && Closed(links)
    ensures |nodes| == 1 && nodes[0] in links && !Rooted(links, nodes[0])
  {
    OneNode(SelfOwned(uid), groups, nodes);
    var n := nodes[0];
    assert n in nodes && Owner(nodes, OwnerRefs(n), links[n]);
    assert OwnerRefs(n)[0].uid == UID(n);
    assert links[n] == Some(n);
    assert Ancestor(links, n, 0) == Some(n) && Ancestor(links, n, 1) == Some(n);
    if Rooted(links, n) {
      RootedIsOffCycle(links, n);
    }
  }

  /** One IFO whose subject owns itself is held by a node that the forest does not list. */
  method ListSelfOwned(uid: string) returns (forest: Forest, all: seq<Node>, ghost nodes: seq<Node>)
    requires uid != ""
    ensures |nodes| == 1 && nodes[0].IFO.ifo == SelfOwned(uid) && all == []
  {
    ghost var groups, links, roots, leaders, p, c;
    forest, nodes, groups, links, roots, leaders, p, c := BuildForest([SelfOwned(uid)], []);
    all := AllNodes(forest, Elements(nodes), p, c);
    OneNode(SelfOwned(uid), groups, nodes);
    SelfOwnedIsUnrooted(uid, nodes, groups, links);
    NoneListed(nodes, p, all);
  }

  lemma NoneListed(nodes: seq<Node>, p: Parents<Node>, all: seq<Node>)
    requires |nodes| == 1 && p.Keys == Elements(nodes) && Closed(p) && !Rooted(p, nodes[0])
    requires forall n <- all :: n in p && Rooted(p, n)
    ensures all == []
  {
    HeadIsIn(all);
  }
}
