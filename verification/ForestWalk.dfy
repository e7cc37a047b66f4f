/** The recursive walks over a forest: listing its nodes and sorting its lists. */
module ForestWalks {
  import opened Prelude
  import opened OwnerGraph
  import opened Forests
  import opened Sorting
  import opened Comparing
  import opened Rearranging

  // ----- AllNodes

  method CollectNodes(n: Node, ghost nodes: set<Node>, ghost p: Parents<Node>, ghost c: Children<Node>, ghost k: nat)
    returns (list: seq<Node>)
    requires Linking(nodes, p, c) && Mirrors(p, c) && RootedAt(p, n, k) && k <= |p|
    ensures list == Preorder(TreeOf(c, n, |p| - k))
    decreases |p| - k, 0
  {
    ChildIsDeeper(p, c, n, k);
    ghost var deeper, kids := k + 1, c[n];
    var children := n.Children;
    assert children == kids && AllRootedAt(p, kids, deeper);
    var below := CollectEach(children, nodes, p, c, deeper);
    WalksTree(c, n, |p| - k, below);
    list := [n] + below;
  }

  method CollectEach(
      xs: seq<Node>, ghost nodes: set<Node>, ghost p: Parents<Node>, ghost c: Children<Node>, ghost k: nat)
    returns (list: seq<Node>)
    requires Linking(nodes, p, c) && Mirrors(p, c) && AllRootedAt(p, xs, k) && k <= |p|
    ensures Walks(c, xs, |p| - k, list)
    decreases |p| - k, 1
  {
    list := [];
    for i := 0 to |xs|
      invariant Walks(c, xs[..i], |p| - k, list)
    {
      var tree := CollectNodes(xs[i], nodes, p, c, k);
      WalksPrefix(c, xs, i, |p| - k, list, tree);
      list := list + tree;
    }
    assert xs[..|xs|] == xs;
  }

  /** Lists every node whose owner chain ends at a root, once, and no other node; a parent comes before
      what it owns. */
  method AllNodes(forest: Forest, ghost nodes: set<Node>, ghost p: Parents<Node>, ghost c: Children<Node>)
    returns (all: seq<Node>)
    requires Linking(nodes, p, c) && WellFormed(p, c, forest.Roots) && forest.Orphans == []
    ensures Walks(c, forest.Roots, |p|, all) && Distinct(all)
    ensures forall n :: n in all <==> n in p && Rooted(p, n)
  {
    all := CollectEach(forest.Roots, nodes, p, c, 0);
    RootsListTheRooted(p, c, forest.Roots, all);
    assert all + forest.Orphans == all;
    all := all + forest.Orphans;
  }

  // ----- sortForest

  function SortKey(n: Node): (string, string, string) {
    (n.IFO.ifo.spec.component, n.IFO.ifo.spec.subject.kind, n.IFO.ifo.spec.subject.name)
  }

  function CompareNodes(a: Node, b: Node): int {
    Compare3(SortKey(a), SortKey(b))
  }

  predicate Ordered(a: Node, b: Node) {
    CompareNodes(a, b) <= 0
  }

  lemma OrderedIsTotal(nodes: seq<Node>)
    ensures TotalPreorder(Ordered, nodes)
  {
    forall a, b | a in nodes && b in nodes
      ensures Ordered(a, b) || Ordered(b, a)
    {
      Compare3IsAntisymmetric(SortKey(a), SortKey(b));
    }
    forall a, b, c | a in nodes && b in nodes && c in nodes && Ordered(a, b) && Ordered(b, c)
      ensures Ordered(a, c)
    {
      Compare3IsTransitive(SortKey(a), SortKey(b), SortKey(c));
    }
  }

  /** x may stand before y: its component is not the later one; if these are equal, its kind is not; and if
      these are equal too, its name is not. */
  ghost predicate NotAfter(x: Node, y: Node) {
    var a, b := x.IFO.ifo.spec, y.IFO.ifo.spec;
    && !Before(b.component, a.component)
    && (a.component == b.component ==> !Before(b.subject.kind, a.subject.kind))
    && (a.component == b.component && a.subject.kind == b.subject.kind ==> !Before(b.subject.name, a.subject.name))
  }

  ghost predicate InOrder(list: seq<Node>) {
    forall i, j :: 0 <= i < j < |list| ==> NotAfter(list[i], list[j])
  }

  lemma OrderedIsNotAfter(x: Node, y: Node)
    ensures Ordered(x, y) <==> NotAfter(x, y)
  {
    var a, b := SortKey(x), SortKey(y);
    CompareIsZero(a.0, b.0);
    CompareIsZero(a.1, b.1);
    CompareIsAntisymmetric(a.0, b.0);
    CompareIsAntisymmetric(a.1, b.1);
    CompareIsAntisymmetric(a.2, b.2);
    CompareIsBefore(b.0, a.0);
    CompareIsBefore(b.1, a.1);
    CompareIsBefore(b.2, a.2);
  }

  lemma SortedIsInOrder(list: seq<Node>)
    requires SortedBy(Ordered, list)
    ensures InOrder(list)
  {
    forall i, j | 0 <= i < j < |list|
      ensures NotAfter(list[i], list[j])
    {
      OrderedIsNotAfter(list[i], list[j]);
    }
  }

  method SortNodes(items: seq<Node>) returns (sorted: seq<Node>)
    ensures multiset(sorted) == multiset(items) && SortedBy(Ordered, sorted)
  {
    OrderedIsTotal(items);
    sorted := SortFunc(items, Ordered);
  }

  method SortOwn(n: Node, ghost nodes: set<Node>, ghost p: Parents<Node>, ghost c: Children<Node>)
    returns (children: seq<Node>, ghost d: Children<Node>)
    requires n in nodes && Linking(nodes, p, c)
    modifies nodes`Children
    ensures d == c[n := children] && Linking(nodes, p, d)
    ensures SortedBy(Ordered, children) && Permuted(c[n], children)
  {
    children := SortNodes(n.Children);
    n.Children := children;
    d := c[n := children];
  }

  /** Sorts the lists of a node and everything below it; `built` is what the lists were before any sorting. */
  method SortChildren(
    n: Node, ghost nodes: set<Node>, ghost p: Parents<Node>, ghost built: Children<Node>, ghost c: Children<Node>,
    ghost k: nat)
    returns (ghost e: Children<Node>)
    requires Linking(nodes, p, c) && Mirrors(p, built) && Rearranged(built, c) && RootedAt(p, n, k)
    modifies nodes`Children
    ensures Linking(nodes, p, e) && Sorts(p, c, e, [n], Ordered)
    decreases |p| - k, 0
  {
    var children;
    ghost var d;
    children, d := SortOwn(n, nodes, p, c);
    SortedIsReady(p, built, c, d, n, k, children);
    ghost var deeper := k + 1;
    assert AllRootedAt(p, children, deeper);
    e := SortEach(children, nodes, p, built, d, deeper);
    SortsTop(p, built, c, d, e, n, children, Ordered);
  }

  method SortEach(
    xs: seq<Node>, ghost nodes: set<Node>, ghost p: Parents<Node>, ghost built: Children<Node>,
    ghost c: Children<Node>, ghost k: nat)
    returns (ghost e: Children<Node>)
    requires Linking(nodes, p, c) && Mirrors(p, built) && Rearranged(built, c) && AllRootedAt(p, xs, k)
    modifies nodes`Children
    ensures Linking(nodes, p, e) && Sorts(p, c, e, xs, Ordered)
    decreases |p| - k, 1
  {
    e := c;
    SortsNone(p, c, Ordered);
    for i := 0 to |xs|
      invariant Linking(nodes, p, e) && Sorts(p, c, e, xs[..i], Ordered)
    {
      ghost var d := e;
      RearrangedTwice(built, c, d);
      e := SortChildren(xs[i], nodes, p, built, d, k);
      SortsOneMore(p, c, d, e, xs, i, Ordered);
    }
    assert xs[..|xs|] == xs;
  }

  ghost predicate RootedAreSorted(p: Parents<Node>, c: Children<Node>) {
    forall n <- c :: Rooted(p, n) ==> SortedBy(Ordered, c[n])
  }

  /** Every child list of a node whose owner chain ends is in order. */
  ghost predicate RootedInOrder(p: Parents<Node>, c: Children<Node>) {
    forall n <- c :: Rooted(p, n) ==> InOrder(c[n])
  }

  lemma SortedAreInOrder(p: Parents<Node>, c: Children<Node>, roots: seq<Node>)
    requires SortedBy(Ordered, roots) && RootedAreSorted(p, c)
    ensures InOrder(roots) && RootedInOrder(p, c)
  {
    SortedIsInOrder(roots);
    forall n | n in c && Rooted(p, n)
      ensures InOrder(c[n])
    {
      SortedIsInOrder(c[n]);
    }
  }

  lemma SortedUnderRoots(
    p: Parents<Node>, roots: seq<Node>, sorted: seq<Node>, c: Children<Node>, d: Children<Node>)
    requires AreRoots(p, roots) && Permuted(roots, sorted) && Mirrors(p, c) && Sorts(p, c, d, sorted, Ordered)
    ensures Mirrors(p, d) && AreRoots(p, sorted) && RootedAreSorted(p, d)
  {
    RearrangedHold(roots, sorted);
    RearrangedMirrors(p, c, d);
    forall n | n in d && Rooted(p, n)
      ensures SortedBy(Ordered, d[n])
    {
      RootedIsUnderRoot(p, sorted, n);
    }
  }

  method SortRoots(roots: seq<Node>, ghost nodes: set<Node>, ghost p: Parents<Node>, ghost c: Children<Node>)
    returns (sorted: seq<Node>, ghost d: Children<Node>)
    requires Linking(nodes, p, c) && WellFormed(p, c, roots)
    modifies nodes`Children
    ensures Linking(nodes, p, d) && WellFormed(p, d, sorted)
    ensures Permuted(roots, sorted) && SortedBy(Ordered, sorted)
    ensures Rearranged(c, d) && RootedAreSorted(p, d)
  {
    sorted := SortNodes(roots);
    RearrangedHold(roots, sorted);
    RearrangedOnce(c);
    d := SortEach(sorted, nodes, p, c, c, 0);
    SortedUnderRoots(p, roots, sorted, c, d);
  }

  /** Sorts the roots and every child list below them; links and reachability stay as they are. */
  method SortForest(forest: Forest, ghost nodes: set<Node>, ghost p: Parents<Node>, ghost c: Children<Node>)
    returns (ghost d: Children<Node>)
    requires Linking(nodes, p, c) && WellFormed(p, c, forest.Roots)
    modifies forest, nodes`Children
    ensures Linking(nodes, p, d) && WellFormed(p, d, forest.Roots)
    ensures Permuted(old(forest.Roots), forest.Roots) && SortedBy(Ordered, forest.Roots)
    ensures Rearranged(c, d) && RootedAreSorted(p, d)
    ensures Permuted(old(forest.Orphans), forest.Orphans) && SortedBy(Ordered, forest.Orphans)
    ensures InOrder(forest.Roots) && InOrder(forest.Orphans) && RootedInOrder(p, d)
  {
    forest.Roots, d := SortRoots(forest.Roots, nodes, p, c);
    forest.Orphans := SortNodes(forest.Orphans);
    SortedAreInOrder(p, d, forest.Roots);
    SortedIsInOrder(forest.Orphans);
  }
}
