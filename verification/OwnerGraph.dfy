/** Parent links that may form cycles, the child lists that mirror them, and the trees that hang from
    the roots. */
module OwnerGraph {
  import opened Prelude

  /** Each node's parent, if it has one. */
  type Parents<T> = map<T, Option<T>>
  type Children<T> = map<T, seq<T>>

  ghost predicate Closed<T>(p: Parents<T>) {
    forall x {:trigger p[x]} :: x in p && p[x].Some? ==> p[x].value in p
  }

  /** The k-th ancestor, if the chain is that long. */
  ghost function Ancestor<T>(p: Parents<T>, x: T, k: nat): Option<T>
    requires Closed(p) && x in p
    ensures Ancestor(p, x, k).Some? ==> Ancestor(p, x, k).value in p
  {
    if k == 0 then Some(x)
    else match Ancestor(p, x, k - 1) case None => None case Some(y) => p[y]
  }

  /** The chain of parents of x ends at a root after k steps. */
  ghost predicate RootedAt<T>(p: Parents<T>, x: T, k: nat) {
    x in p && if k == 0 then p[x] == None else p[x].Some? && RootedAt(p, p[x].value, k - 1)
  }

  ghost predicate Rooted<T>(p: Parents<T>, x: T) {
    exists k: nat :: RootedAt(p, x, k)
  }

  ghost predicate OnCycle<T>(p: Parents<T>, x: T)
    requires Closed(p) && x in p
  {
    exists k: nat :: k > 0 && Ancestor(p, x, k) == Some(x)
  }

  ghost predicate Acyclic<T>(p: Parents<T>)
    requires Closed(p)
  {
    forall x <- p :: !OnCycle(p, x)
  }

  lemma {:induction false} DepthIsUnique<T>(p: Parents<T>, x: T, j: nat, k: nat)
    requires RootedAt(p, x, j) && RootedAt(p, x, k)
    ensures j == k
  {
    if j > 0 && k > 0 {
      DepthIsUnique(p, p[x].value, j - 1, k - 1);
    }
  }

  /** The nodes on the way from x to its root. */
  ghost function Chain<T>(p: Parents<T>, x: T, k: nat): set<T>
    requires RootedAt(p, x, k)
  {
    if k == 0 then {x} else {x} + Chain(p, p[x].value, k - 1)
  }

  ghost predicate RootedWithin<T>(p: Parents<T>, x: T, k: nat) {
    exists j: nat :: j <= k && RootedAt(p, x, j)
  }

  lemma {:induction false} ChainSize<T>(p: Parents<T>, x: T, k: nat)
    requires RootedAt(p, x, k)
    ensures Chain(p, x, k) <= p.Keys && |Chain(p, x, k)| == k + 1
    ensures forall y <- Chain(p, x, k) :: RootedWithin(p, y, k)
  {
    if k > 0 {
      ChainSize(p, p[x].value, k - 1);
      if x in Chain(p, p[x].value, k - 1) {
        var j: nat :| j <= k - 1 && RootedAt(p, x, j);
        DepthIsUnique(p, x, j, k);
      }
      forall y | y in Chain(p, x, k)
        ensures RootedWithin(p, y, k)
      {
        if y == x {
          assert RootedAt(p, y, k);
        }
      }
    }
  }

  /** A node is less deep than there are nodes, which bounds every descent from a root. */
  lemma DepthIsBounded<T>(p: Parents<T>, x: T, k: nat)
    requires RootedAt(p, x, k)
    ensures k < |p|
  {
    ChainSize(p, x, k);
    SubsetSize(Chain(p, x, k), p.Keys);
  }

  lemma {:induction false} SubsetSize<T>(a: set<T>, b: set<T>)
    requires a <= b
    ensures |a| <= |b|
  {
    assert b == a + (b - a);
  }

  lemma {:induction false} AncestorOfParent<T>(p: Parents<T>, x: T, k: nat)
    requires Closed(p) && x in p && p[x].Some?
    ensures Ancestor(p, x, k + 1) == Ancestor(p, p[x].value, k)
  {
    if k > 0 {
      AncestorOfParent(p, x, k - 1);
    } else {
      assert Ancestor(p, x, 0) == Some(x);
    }
  }

  /** A rooted chain is exhausted after its depth. */
  lemma {:induction false} RootedChainEnds<T>(p: Parents<T>, x: T, k: nat, i: nat)
    requires Closed(p) && RootedAt(p, x, k)
    ensures Ancestor(p, x, i).Some? <==> i <= k
    ensures i <= k ==> RootedAt(p, Ancestor(p, x, i).value, k - i)
  {
    if i > 0 {
      RootedChainEnds(p, x, k, i - 1);
    }
  }

  lemma RootedIsOffCycle<T>(p: Parents<T>, x: T)
    requires Closed(p) && Rooted(p, x)
    ensures !OnCycle(p, x)
  {
    var k: nat :| RootedAt(p, x, k);
    if j: nat :| j > 0 && Ancestor(p, x, j) == Some(x) {
      RootedChainEnds(p, x, k, j);
      DepthIsUnique(p, x, k, k - j);
    }
  }

  /** Following parents often enough from a node that has no root below it meets a node twice. */
  lemma {:induction false} UnrootedChain<T>(p: Parents<T>, x: T, k: nat)
    requires Closed(p) && x in p && !Rooted(p, x)
    ensures Ancestor(p, x, k).Some? && !Rooted(p, Ancestor(p, x, k).value)
  {
    if k > 0 {
      UnrootedChain(p, x, k - 1);
      ParentDecides(p, Ancestor(p, x, k - 1).value);
    }
  }

  /** A node is rooted when it is a root or its parent is rooted. */
  lemma ParentDecides<T>(p: Parents<T>, x: T)
    requires Closed(p) && x in p
    ensures Rooted(p, x) <==> p[x] == None || Rooted(p, p[x].value)
  {
    if p[x] == None {
      assert RootedAt(p, x, 0);
    } else {
      if Rooted(p, x) {
        var j: nat :| RootedAt(p, x, j);
        assert RootedAt(p, p[x].value, j - 1);
      }
      if Rooted(p, p[x].value) {
        var j: nat :| RootedAt(p, p[x].value, j);
        assert RootedAt(p, x, j + 1);
      }
    }
  }

  lemma {:induction false} AncestorAdds<T>(p: Parents<T>, x: T, i: nat, j: nat)
    requires Closed(p) && x in p && Ancestor(p, x, i).Some?
    ensures Ancestor(p, x, i + j) == Ancestor(p, Ancestor(p, x, i).value, j)
  {
    if j > 0 {
      AncestorAdds(p, x, i, j - 1);
    }
  }

  lemma UnrootedReachesCycle<T>(p: Parents<T>, x: T) returns (c: T)
    requires Closed(p) && x in p && !Rooted(p, x)
    ensures c in p && OnCycle(p, c) && exists i: nat :: Ancestor(p, x, i) == Some(c)
  {
    forall k: nat
      ensures Ancestor(p, x, k).Some?
    {
      UnrootedChain(p, x, k);
    }
    var n := |p| + 1;
    var chain := seq(n, i requires 0 <= i < n => Ancestor(p, x, i).value);
    assert Elements(chain) <= p.Keys by {
      forall y | y in chain ensures y in p {
      }
    }
    SubsetSize(Elements(chain), p.Keys);
    DistinctCardinality(chain);
    var i, j :| 0 <= i < j < n && chain[i] == chain[j];
    c := chain[i];
    AncestorAdds(p, x, i, j - i);
    assert Ancestor(p, x, i) == Some(c);
  }

  /** Everything is rooted exactly when nothing is on a cycle. */
  lemma AllRootedIffAcyclic<T>(p: Parents<T>)
    requires Closed(p)
    ensures (forall x <- p :: Rooted(p, x)) <==> Acyclic(p)
  {
    if forall x <- p :: Rooted(p, x) {
      forall x | x in p ensures !OnCycle(p, x) {
        RootedIsOffCycle(p, x);
      }
    } else {
      var x :| x in p && !Rooted(p, x);
      var c := UnrootedReachesCycle(p, x);
    }
  }

  /** x is y or an ancestor of y. */
  ghost predicate Above<T>(p: Parents<T>, x: T, y: T)
    requires Closed(p)
  {
    y in p && exists i: nat :: Ancestor(p, y, i) == Some(x)
  }

  lemma {:induction false} DepthBelow<T>(p: Parents<T>, x: T, k: nat, y: T, i: nat)
    requires Closed(p) && y in p && RootedAt(p, x, k) && Ancestor(p, y, i) == Some(x)
    ensures RootedAt(p, y, k + i)
  {
    if i > 0 {
      assert p[y].Some? by { FirstStep(p, y, i); }
      AncestorOfParent(p, y, i - 1);
      DepthBelow(p, x, k, p[y].value, i - 1);
    }
  }

  lemma {:induction false} FirstStep<T>(p: Parents<T>, y: T, i: nat)
    requires Closed(p) && y in p && i > 0 && Ancestor(p, y, i).Some?
    ensures p[y].Some?
  {
    if i > 1 {
      FirstStep(p, y, i - 1);
    } else {
      assert Ancestor(p, y, 0) == Some(y);
    }
  }

  /** Subtrees of different nodes of one depth share nothing. */
  lemma SubtreesAreDisjoint<T>(p: Parents<T>, a: T, b: T, k: nat, y: T)
    requires Closed(p) && RootedAt(p, a, k) && RootedAt(p, b, k) && Above(p, a, y) && Above(p, b, y)
    ensures a == b
  {
    var i: nat :| Ancestor(p, y, i) == Some(a);
    var j: nat :| Ancestor(p, y, j) == Some(b);
    DepthBelow(p, a, k, y, i);
    DepthBelow(p, b, k, y, j);
    DepthIsUnique(p, y, k + i, k + j);
  }

  // ----- child lists and trees

  /** The list names nodes whose parent is x, each once. */
  ghost predicate ChildList<T>(p: Parents<T>, x: T, list: seq<T>) {
    Distinct(list) && forall y <- list :: y in p && p[y] == Some(x)
  }

  ghost predicate Listed<T>(p: Parents<T>, c: Children<T>, y: T)
    requires y in p
  {
    p[y].Some? ==> p[y].value in c && y in c[p[y].value]
  }

  /** The child lists say the same as the parent links, each child once. */
  ghost predicate Mirrors<T>(p: Parents<T>, c: Children<T>) {
    && c.Keys == p.Keys && Closed(p)
    && (forall x {:trigger ChildList(p, x, c[x])} :: x in c ==> ChildList(p, x, c[x]))
    && (forall y {:trigger Listed(p, c, y)} :: y in p ==> Listed(p, c, y))
  }

  ghost predicate AllRootedAt<T>(p: Parents<T>, xs: seq<T>, k: nat) {
    forall i :: 0 <= i < |xs| ==> RootedAt(p, xs[i], k)
  }

  datatype Tree<T> = Tree(node: T, children: seq<Tree<T>>)

  /** The tree below x, as deep as `depth` says; a forest is never deeper than it has nodes. */
  ghost function TreeOf<T>(c: Children<T>, x: T, depth: nat): Tree<T>
    decreases depth, 0, 0
  {
    Tree(x, if depth == 0 || x !in c then [] else TreesOf(c, c[x], depth - 1))
  }

  ghost function TreesOf<T>(c: Children<T>, xs: seq<T>, depth: nat): seq<Tree<T>>
    decreases depth, 1, |xs|
  {
    if xs == [] then [] else [TreeOf(c, xs[0], depth)] + TreesOf(c, xs[1..], depth)
  }

  /** The nodes of a tree, each before its descendants. */
  function Preorder<T>(t: Tree<T>): seq<T> {
    [t.node] + PreorderAll(t.children)
  }

  function PreorderAll<T>(ts: seq<Tree<T>>): seq<T> {
    if ts == [] then [] else Preorder(ts[0]) + PreorderAll(ts[1..])
  }

  /** y is in the subtree of one of xs. */
  ghost predicate Under<T>(p: Parents<T>, xs: seq<T>, y: T)
    requires Closed(p)
  {
    exists x :: x in xs && Above(p, x, y)
  }

  /** The listing holds what is under xs, each node once. */
  ghost predicate Lists<T>(p: Parents<T>, xs: seq<T>, listing: seq<T>)
    requires Closed(p)
  {
    && Distinct(listing)
    && (forall y <- listing :: y in p && Under(p, xs, y))
    && (forall y <- p :: Under(p, xs, y) ==> y in listing)
  }

  lemma AboveByChild<T>(p: Parents<T>, c: Children<T>, x: T, y: T)
    requires Mirrors(p, c) && x in p && y in p
    ensures Above(p, x, y) <==> y == x || Under(p, c[x], y)
  {
    assert ChildList(p, x, c[x]);
    if y == x {
      assert Ancestor(p, y, 0) == Some(x);
    } else {
      if Above(p, x, y) {
        var i: nat :| Ancestor(p, y, i) == Some(x);
        assert Above(p, Ancestor(p, y, i - 1).value, y) && Listed(p, c, Ancestor(p, y, i - 1).value);
      }
      if Under(p, c[x], y) {
        var z :| z in c[x] && Above(p, z, y);
        var i: nat :| Ancestor(p, y, i) == Some(z);
        assert Ancestor(p, y, i + 1) == Some(x);
      }
    }
  }

  lemma DistinctConcat<T>(a: seq<T>, b: seq<T>)
    requires Distinct(a) && Distinct(b) && forall y <- a :: y !in b
    ensures Distinct(a + b)
  {
    var s := a + b;
    forall i, j | 0 <= i < j < |s|
      ensures s[i] != s[j]
    {
      assert i < |a| ==> s[i] in a;
      assert j >= |a| ==> s[j] in b;
    }
  }

  /** Reading a subtree in preorder lists exactly what is below its top, each node once. */
  lemma {:induction false} TreeListsSubtree<T>(p: Parents<T>, c: Children<T>, x: T, k: nat, listing: seq<T>)
    requires Mirrors(p, c) && RootedAt(p, x, k) && k <= |p| && listing == Preorder(TreeOf(c, x, |p| - k))
    ensures Lists(p, [x], listing)
    decreases |p| - k, 0, 0
  {
    ChildIsDeeper(p, c, x, k);
    var below := PreorderAll(TreesOf(c, c[x], |p| - k - 1));
    TreesListSubtrees(p, c, c[x], k + 1, below);
    AddTop(p, c, x, k, below);
  }

  lemma ChildIsDeeper<T>(p: Parents<T>, c: Children<T>, x: T, k: nat)
    requires Mirrors(p, c) && RootedAt(p, x, k)
    ensures k < |p| && Distinct(c[x]) && AllRootedAt(p, c[x], k + 1)
  {
    assert ChildList(p, x, c[x]);
    DepthIsBounded(p, x, k);
  }

  lemma AddTop<T>(p: Parents<T>, c: Children<T>, x: T, k: nat, below: seq<T>)
    requires Mirrors(p, c) && RootedAt(p, x, k) && Lists(p, c[x], below)
    ensures Lists(p, [x], [x] + below)
  {
    if x in below {
      var z :| z in c[x] && Above(p, z, x);
      SubtreesAreDeeper(p, c, x, k, z);
    }
    DistinctConcat([x], below);
    forall y | y in p
      ensures Under(p, [x], y) <==> y == x || Under(p, c[x], y)
    {
      AboveByChild(p, c, x, y);
      assert x in [x];
    }
  }

  lemma SubtreesAreDeeper<T>(p: Parents<T>, c: Children<T>, x: T, k: nat, z: T)
    requires Mirrors(p, c) && RootedAt(p, x, k) && z in c[x]
    ensures !Above(p, z, x)
  {
    assert ChildList(p, x, c[x]);
    if i: nat :| Ancestor(p, x, i) == Some(z) {
      DepthBelow(p, z, k + 1, x, i);
      DepthIsUnique(p, x, k, k + 1 + i);
    }
  }

  lemma {:induction false} TreesListSubtrees<T>(p: Parents<T>, c: Children<T>, xs: seq<T>, k: nat, listing: seq<T>)
    requires Mirrors(p, c) && AllRootedAt(p, xs, k) && Distinct(xs)
    requires k <= |p| && listing == PreorderAll(TreesOf(c, xs, |p| - k))
    ensures Lists(p, xs, listing)
    decreases |p| - k, 1, |xs|
  {
    if xs != [] {
      var first, rest := Preorder(TreeOf(c, xs[0], |p| - k)), PreorderAll(TreesOf(c, xs[1..], |p| - k));
      TreeListsSubtree(p, c, xs[0], k, first);
      TreesListSubtrees(p, c, xs[1..], k, rest);
      AddTree(p, xs, k, first, rest);
    }
  }

  lemma AddTree<T>(p: Parents<T>, xs: seq<T>, k: nat, first: seq<T>, rest: seq<T>)
    requires Closed(p) && AllRootedAt(p, xs, k) && Distinct(xs) && xs != []
    requires Lists(p, [xs[0]], first) && Lists(p, xs[1..], rest)
    ensures Lists(p, xs, first + rest)
  {
    forall y | y in first
      ensures y !in rest && Under(p, xs, y)
    {
      assert Above(p, xs[0], y) && xs[0] in xs;
      if y in rest {
        var x :| x in xs[1..] && Above(p, x, y);
        SubtreesAreDisjoint(p, xs[0], x, k, y);
      }
    }
    DistinctConcat(first, rest);
    forall y | y in p
      ensures Under(p, xs, y) <==> Under(p, [xs[0]], y) || Under(p, xs[1..], y)
    {
      UnderSplits(p, xs, y);
    }
  }

  lemma UnderSplits<T>(p: Parents<T>, xs: seq<T>, y: T)
    requires Closed(p) && xs != []
    ensures Under(p, xs, y) <==> Under(p, [xs[0]], y) || Under(p, xs[1..], y)
  {
    assert xs[0] in [xs[0]] && xs[0] in xs;
    assert forall x :: x in xs <==> x == xs[0] || x in xs[1..];
  }

  /** The nodes without a parent, each once. */
  ghost predicate AreRoots<T>(p: Parents<T>, roots: seq<T>) {
    && Distinct(roots)
    && (forall x <- roots :: x in p && p[x] == None)
    && (forall x <- p :: p[x] == None ==> x in roots)
  }

  // ----- child lists filled by one pass over the nodes

  /** The nodes whose parent is the given one, or the roots, in node order. */
  ghost function Linked<T>(nodes: seq<T>, p: Parents<T>, parent: Option<T>): seq<T> {
    if nodes == [] then []
    else
      var last := nodes[|nodes| - 1];
      Linked(nodes[..|nodes| - 1], p, parent) + if last in p && p[last] == parent then [last] else []
  }

  lemma {:induction false} LinkedHolds<T>(nodes: seq<T>, p: Parents<T>, parent: Option<T>, list: seq<T>)
    requires Distinct(nodes) && list == Linked(nodes, p, parent)
    ensures Distinct(list)
    ensures forall y :: y in list <==> y in nodes && y in p && p[y] == parent
  {
    if nodes != [] {
      var front, last := nodes[..|nodes| - 1], nodes[|nodes| - 1];
      assert nodes == front + [last];
      assert last !in front;
      var before := Linked(front, p, parent);
      LinkedHolds(front, p, parent, before);
      DistinctConcat(before, if last in p && p[last] == parent then [last] else []);
    }
  }

  lemma LinkedIsChildList<T>(nodes: seq<T>, p: Parents<T>, x: T, list: seq<T>)
    requires Distinct(nodes) && p.Keys == Elements(nodes) && list == Linked(nodes, p, Some(x))
    ensures ChildList(p, x, list)
    ensures forall y {:trigger p[y]} :: y in p && p[y] == Some(x) ==> y in list
  {
    LinkedHolds(nodes, p, Some(x), list);
  }

  lemma LinkedListsMirror<T>(nodes: seq<T>, p: Parents<T>, c: Children<T>)
    requires Distinct(nodes) && Closed(p) && p.Keys == c.Keys == Elements(nodes)
    requires forall x <- c :: c[x] == Linked(nodes, p, Some(x))
    ensures Mirrors(p, c)
  {
    forall x | x in c
      ensures ChildList(p, x, c[x])
    {
      LinkedIsChildList(nodes, p, x, c[x]);
    }
    forall y | y in p
      ensures Listed(p, c, y)
    {
      if p[y].Some? {
        LinkedIsChildList(nodes, p, p[y].value, c[p[y].value]);
      }
    }
  }

  // ----- walks and rearrangements

  /** Listing the trees of xs in order. */
  ghost predicate Walks<T>(c: Children<T>, xs: seq<T>, depth: nat, listing: seq<T>) {
    listing == PreorderAll(TreesOf(c, xs, depth))
  }

  lemma {:induction false} WalksOneMore<T>(
    c: Children<T>, xs: seq<T>, x: T, depth: nat, listing: seq<T>, below: seq<T>)
    requires Walks(c, xs, depth, listing) && below == Preorder(TreeOf(c, x, depth))
    ensures Walks(c, xs + [x], depth, listing + below)
  {
    if xs == [] {
      assert [x][1..] == [];
    } else {
      assert (xs + [x])[1..] == xs[1..] + [x];
      WalksOneMore(c, xs[1..], x, depth, PreorderAll(TreesOf(c, xs[1..], depth)), below);
    }
  }

  lemma WalksPrefix<T>(c: Children<T>, xs: seq<T>, i: nat, depth: nat, listing: seq<T>, below: seq<T>)
    requires i < |xs| && Walks(c, xs[..i], depth, listing) && below == Preorder(TreeOf(c, xs[i], depth))
    ensures Walks(c, xs[..i + 1], depth, listing + below)
  {
    WalksOneMore(c, xs[..i], xs[i], depth, listing, below);
    assert xs[..i + 1] == xs[..i] + [xs[i]];
  }

  lemma WalksTree<T>(c: Children<T>, x: T, depth: nat, below: seq<T>)
    requires x in c && depth > 0 && Walks(c, c[x], depth - 1, below)
    ensures [x] + below == Preorder(TreeOf(c, x, depth))
  {
  }

  /** The listing from all roots: each rooted node once, and no other. */
  lemma RootsListTheRooted<T>(p: Parents<T>, c: Children<T>, roots: seq<T>, listing: seq<T>)
    requires Mirrors(p, c) && AreRoots(p, roots) && Walks(c, roots, |p|, listing)
    ensures Distinct(listing)
    ensures forall y :: y in listing <==> y in p && Rooted(p, y)
  {
    TreesListSubtrees(p, c, roots, 0, listing);
    forall y | y in p
      ensures Rooted(p, y) <==> Under(p, roots, y)
    {
      RootedIsUnderRoot(p, roots, y);
    }
  }

  lemma RootedIsUnderRoot<T>(p: Parents<T>, roots: seq<T>, y: T)
    requires Closed(p) && AreRoots(p, roots) && y in p
    ensures Rooted(p, y) <==> Under(p, roots, y)
  {
    if Rooted(p, y) {
      var k: nat :| RootedAt(p, y, k);
      RootedChainEnds(p, y, k, k);
      var x := Ancestor(p, y, k).value;
      assert x in roots && Above(p, x, y);
    }
    if Under(p, roots, y) {
      var x :| x in roots && Above(p, x, y);
      var i: nat :| Ancestor(p, y, i) == Some(x);
      DepthBelow(p, x, 0, y, i);
    }
  }

  /** Every list keeps its elements; only their order may change. */
  ghost predicate Rearranged<T>(c: Children<T>, d: Children<T>) {
    c.Keys == d.Keys && forall x {:trigger Permuted(c[x], d[x])} :: x in c ==> Permuted(c[x], d[x])
  }

  ghost predicate Permuted<T>(a: seq<T>, b: seq<T>) {
    multiset(a) == multiset(b)
  }

  lemma RearrangedHold<T>(a: seq<T>, b: seq<T>)
    requires Permuted(a, b)
    ensures |a| == |b| && (Distinct(a) <==> Distinct(b)) && forall y :: y in a <==> y in b
  {
    assert |a| == |multiset(a)| == |multiset(b)| == |b|;
    assert forall y :: y in a <==> y in multiset(a);
    assert forall y :: y in b <==> y in multiset(b);
    assert Elements(a) == Elements(b);
    DistinctCardinality(a);
    DistinctCardinality(b);
  }

  lemma RearrangedMirrors<T>(p: Parents<T>, c: Children<T>, d: Children<T>)
    requires Mirrors(p, c) && Rearranged(c, d)
    ensures Mirrors(p, d)
  {
    forall x | x in d
      ensures ChildList(p, x, d[x])
    {
      assert ChildList(p, x, c[x]) && Permuted(c[x], d[x]);
      RearrangedHold(c[x], d[x]);
    }
    forall y | y in p
      ensures Listed(p, d, y)
    {
      assert Listed(p, c, y);
      if p[y].Some? {
        var x := p[y].value;
        assert Permuted(c[x], d[x]);
        RearrangedHold(c[x], d[x]);
      }
    }
  }
}
