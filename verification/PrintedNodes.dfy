/** What is printed for the linked nodes of a forest: a row for every listed node, each once. */
module PrintedNodes {
  import opened Prelude
  import opened Api
  import opened OwnerGraph
  import opened SubjectGroups
  import opened Forests
  import opened Layout
  import opened ForestPrinter
  import opened Comparing
  import opened Sorting

  // ----- all rows of an output

  type Key = (string, string)

  function KeyOf(root: EntryTree): Key {
    (Component(root), RootNamespace(root))
  }

  function PartKeys(comp: string, parts: seq<Part>): seq<Key> {
    seq(|parts|, i requires 0 <= i < |parts| => (comp, parts[i].namespace))
  }

  /** The component and namespace of each part, from top to bottom. */
  function KeysOf(blocks: seq<Block>): seq<Key> {
    if blocks == [] then []
    else
      var last := blocks[|blocks| - 1];
      KeysOf(blocks[..|blocks| - 1]) + PartKeys(last.component, last.parts)
  }

  function RowsOfParts(parts: seq<Part>): seq<Row> {
    if parts == [] then [] else RowsOfParts(parts[..|parts| - 1]) + parts[|parts| - 1].rows
  }

  /** The rows from top to bottom. */
  function RowsOf(blocks: seq<Block>): seq<Row> {
    if blocks == [] then [] else RowsOf(blocks[..|blocks| - 1]) + RowsOfParts(blocks[|blocks| - 1].parts)
  }

  function Sections(roots: seq<EntryTree>, keys: seq<Key>): seq<EntryTree> {
    if keys == [] then []
    else
      var last := keys[|keys| - 1];
      Sections(roots, keys[..|keys| - 1]) + Section(roots, last.0, last.1)
  }

  lemma {:induction false} SectionsConcat(roots: seq<EntryTree>, a: seq<Key>, b: seq<Key>)
    ensures Sections(roots, a + b) == Sections(roots, a) + Sections(roots, b)
  {
    if b == [] {
      assert a + b == a;
    } else {
      assert (a + b)[..|a + b| - 1] == a + b[..|b| - 1];
      SectionsConcat(roots, a, b[..|b| - 1]);
    }
  }

  lemma {:induction false} AllLinesConcat(a: seq<EntryTree>, b: seq<EntryTree>)
    ensures AllLines(a + b) == AllLines(a) + AllLines(b)
  {
    if b == [] {
      assert a + b == a;
    } else {
      assert (a + b)[..|a + b| - 1] == a + b[..|b| - 1];
      AllLinesConcat(a, b[..|b| - 1]);
    }
  }

  lemma {:induction false} PartsShow(
    roots: seq<EntryTree>, comp: string, colWidth: int, opColWidth: int, parts: seq<Part>)
    requires forall part <- parts :: PrintsPart(roots, comp, colWidth, opColWidth, part)
    ensures ShowsAll(AllLines(Sections(roots, PartKeys(comp, parts))), colWidth, opColWidth, RowsOfParts(parts))
  {
    if parts != [] {
      var front, last := parts[..|parts| - 1], parts[|parts| - 1];
      PartsShow(roots, comp, colWidth, opColWidth, front);
      assert PartKeys(comp, parts)[..|parts| - 1] == PartKeys(comp, front);
      AllLinesConcat(Sections(roots, PartKeys(comp, front)), Section(roots, comp, last.namespace));
      assert PrintsPart(roots, comp, colWidth, opColWidth, last);
    }
  }

  lemma {:induction false} BlocksShow(roots: seq<EntryTree>, colWidth: int, opColWidth: int, blocks: seq<Block>)
    requires forall block <- blocks :: PrintsBlock(roots, colWidth, opColWidth, block)
    ensures ShowsAll(AllLines(Sections(roots, KeysOf(blocks))), colWidth, opColWidth, RowsOf(blocks))
  {
    if blocks != [] {
      var front, last := blocks[..|blocks| - 1], blocks[|blocks| - 1];
      BlocksShow(roots, colWidth, opColWidth, front);
      assert PrintsBlock(roots, colWidth, opColWidth, last);
      PartsShow(roots, last.component, colWidth, opColWidth, last.parts);
      var keys := PartKeys(last.component, last.parts);
      SectionsConcat(roots, KeysOf(front), keys);
      AllLinesConcat(Sections(roots, KeysOf(front)), Sections(roots, keys));
    }
  }

  // ----- every root is in exactly one part

  ghost predicate DistinctComponents(blocks: seq<Block>) {
    forall i, j :: 0 <= i < j < |blocks| ==> blocks[i].component != blocks[j].component
  }

  lemma PartKeysAreDistinct(comp: string, parts: seq<Part>)
    requires forall i, j :: 0 <= i < j < |parts| ==> Compare(parts[i].namespace, parts[j].namespace) < 0
    ensures Distinct(PartKeys(comp, parts))
  {
    forall i, j | 0 <= i < j < |parts|
      ensures parts[i].namespace != parts[j].namespace
    {
      CompareIsZero(parts[i].namespace, parts[j].namespace);
    }
  }

  lemma {:induction false} KeysAreDistinct(
    roots: seq<EntryTree>, colWidth: int, opColWidth: int, blocks: seq<Block>, keys: seq<Key>)
    requires DistinctComponents(blocks) && keys == KeysOf(blocks)
    requires forall block <- blocks :: PrintsBlock(roots, colWidth, opColWidth, block)
    ensures Distinct(keys) && forall k <- keys :: exists block <- blocks :: block.component == k.0
  {
    if blocks != [] {
      var front, last := blocks[..|blocks| - 1], blocks[|blocks| - 1];
      KeysAreDistinct(roots, colWidth, opColWidth, front, KeysOf(front));
      assert PrintsBlock(roots, colWidth, opColWidth, last);
      PartKeysAreDistinct(last.component, last.parts);
      forall k | k in KeysOf(front)
        ensures k !in PartKeys(last.component, last.parts)
      {
        var block :| block in front && block.component == k.0;
        var i :| 0 <= i < |front| && front[i] == block;
        assert blocks[i].component != blocks[|front|].component;
      }
      DistinctConcat(KeysOf(front), PartKeys(last.component, last.parts));
      assert blocks == front + [last];
    }
  }

  lemma {:induction false} PlaceHasKey(blocks: seq<Block>, root: EntryTree, b: nat, s: nat)
    requires IsPlace(blocks, root, b, s)
    ensures KeyOf(root) in KeysOf(blocks)
  {
    var front, last := blocks[..|blocks| - 1], blocks[|blocks| - 1];
    if b < |front| {
      PlaceHasKey(front, root, b, s);
    } else {
      assert PartKeys(last.component, last.parts)[s] == KeyOf(root);
    }
  }

  lemma {:induction false} SectionsCount(roots: seq<EntryTree>, keys: seq<Key>, root: EntryTree)
    requires Distinct(keys)
    ensures multiset(Sections(roots, keys))[root] == if KeyOf(root) in keys then multiset(roots)[root] else 0
  {
    if keys != [] {
      var front, last := keys[..|keys| - 1], keys[|keys| - 1];
      assert keys == front + [last];
      SectionsCount(roots, front, root);
      RootsInOneSection(roots, last.0, last.1, root);
    }
  }

  lemma SectionsAreAll(roots: seq<EntryTree>, colWidth: int, opColWidth: int, blocks: seq<Block>)
    requires Prints(roots, colWidth, opColWidth, blocks)
    ensures multiset(Sections(roots, KeysOf(blocks))) == multiset(roots)
  {
    ComponentsHold(roots, Components(roots));
    KeysAreDistinct(roots, colWidth, opColWidth, blocks, KeysOf(blocks));
    forall root
      ensures multiset(Sections(roots, KeysOf(blocks)))[root] == multiset(roots)[root]
    {
      SectionsCount(roots, KeysOf(blocks), root);
      if root in roots {
        var b, s := RootHasOnePlace(roots, colWidth, opColWidth, blocks, root);
        PlaceHasKey(blocks, root, b, s);
      }
    }
  }

  // ----- entries

  lemma {:induction false} PreorderConcat<T>(a: seq<Tree<T>>, b: seq<Tree<T>>)
    ensures PreorderAll(a + b) == PreorderAll(a) + PreorderAll(b)
  {
    if a == [] {
      assert a + b == b;
    } else {
      assert (a + b)[1..] == a[1..] + b;
      PreorderConcat(a[1..], b);
    }
  }

  lemma {:induction false} PreorderPermutes<T>(a: seq<Tree<T>>, b: seq<Tree<T>>)
    requires multiset(a) == multiset(b)
    ensures multiset(PreorderAll(a)) == multiset(PreorderAll(b))
  {
    assert |a| == |multiset(a)| == |multiset(b)| == |b|;
    if a != [] {
      assert a[0] in multiset(b);
      var k :| 0 <= k < |b| && b[k] == a[0];
      var rest := b[..k] + b[k + 1..];
      assert b == b[..k] + ([b[k]] + b[k + 1..]);
      MultisetTail(a);
      MultisetWithout(b, k);
      assert a == [a[0]] + a[1..];
      PreorderPermutes(a[1..], rest);
      PreorderConcat(b[..k], [b[k]] + b[k + 1..]);
      PreorderConcat([b[k]], b[k + 1..]);
      PreorderConcat(b[..k], b[k + 1..]);
      PreorderConcat([a[0]], a[1..]);
    }
  }

  lemma {:induction false} AllLinesArePreorder(roots: seq<EntryTree>)
    ensures Entries(AllLines(roots)) == PreorderAll(roots)
  {
    if roots != [] {
      var front, last := roots[..|roots| - 1], roots[|roots| - 1];
      AllLinesArePreorder(front);
      LinesArePreorder(last, RootPrefix, RootPrefix);
      EntriesConcat(AllLines(front), RootLines(last));
      assert roots == front + [last];
      PreorderConcat(front, [last]);
      assert PreorderAll([last]) == Preorder(last) + PreorderAll([last][1..]);
    }
  }

  /** The rows show every node of every tree, each once. */
  lemma EveryEntryIsPrinted(roots: seq<EntryTree>, colWidth: int, opColWidth: int, blocks: seq<Block>)
    returns (lines: seq<Line>)
    requires Prints(roots, colWidth, opColWidth, blocks)
    ensures ShowsAll(lines, colWidth, opColWidth, RowsOf(blocks))
    ensures multiset(Entries(lines)) == multiset(PreorderAll(roots))
  {
    var sections := Sections(roots, KeysOf(blocks));
    lines := AllLines(sections);
    BlocksShow(roots, colWidth, opColWidth, blocks);
    SectionsAreAll(roots, colWidth, opColWidth, blocks);
    PreorderPermutes(sections, roots);
    AllLinesArePreorder(sections);
  }

  // ----- the nodes behind the entries

  ghost function OldestOf(items: seq<Item>): Time
    requires items != []
  {
    var last := items[|items| - 1].ifo.created;
    if |items| == 1 then last
    else
      var before := OldestOf(items[..|items| - 1]);
      if last < before then last else before
  }

  /** What the printer reads of a node: the subject of its IFO, the operations of that and the
      siblings, and the age of the oldest of them. */
  ghost function EntryOf(n: Node, age: Time -> string): Entry
    reads n`Siblings
  {
    var spec, cells := n.IFO.ifo.spec, Cells(n);
    Entry(spec.component, spec.subject.namespace, spec.subject.kind, spec.subject.name,
      seq(|cells|, i requires 0 <= i < |cells| => cells[i].ifo.spec.operation), age(OldestOf(cells)))
  }

  /** EntryOf as it is now, for these nodes. */
  ghost function EntriesOf(nodes: set<Node>, age: Time -> string): (read: Node -> Entry)
    reads nodes`Siblings
    ensures forall n <- nodes :: read(n) == EntryOf(n, age)
  {
    var entries := map n | n in nodes :: EntryOf(n, age);
    n => if n in entries then entries[n] else Entry("", "", "", "", [], "")
  }

  /** The trees that the printer walks. */
  ghost function PrintedTrees(p: Parents<Node>, c: Children<Node>, roots: seq<Node>, age: Time -> string)
    : seq<EntryTree>
    reads p.Keys`Siblings
  {
    MapTrees(EntriesOf(p.Keys, age), TreesOf(c, roots, |p|))
  }

  ghost function MapSeq<T, U>(f: T -> U, s: seq<T>): seq<U> {
    seq(|s|, i requires 0 <= i < |s| => f(s[i]))
  }

  ghost function MapTree<T, U>(f: T -> U, t: Tree<T>): Tree<U>
    decreases t, 0
  {
    Tree(f(t.node), MapTrees(f, t.children))
  }

  ghost function MapTrees<T, U>(f: T -> U, ts: seq<Tree<T>>): seq<Tree<U>>
    decreases ts, 1
  {
    if ts == [] then [] else [MapTree(f, ts[0])] + MapTrees(f, ts[1..])
  }

  lemma {:induction false} MapsPreorder<T, U>(f: T -> U, t: Tree<T>)
    ensures Preorder(MapTree(f, t)) == MapSeq(f, Preorder(t))
    decreases t, 0
  {
    MapsPreorderAll(f, t.children);
  }

  lemma {:induction false} MapsPreorderAll<T, U>(f: T -> U, ts: seq<Tree<T>>)
    ensures PreorderAll(MapTrees(f, ts)) == MapSeq(f, PreorderAll(ts))
    decreases ts, 1
  {
    if ts != [] {
      MapsPreorder(f, ts[0]);
      MapsPreorderAll(f, ts[1..]);
      assert MapTrees(f, ts)[1..] == MapTrees(f, ts[1..]);
    }
  }

  lemma MapSeqWithout<T, U>(f: T -> U, xs: seq<T>, k: nat)
    requires k < |xs|
    ensures multiset(MapSeq(f, xs[..k] + xs[k + 1..])) == multiset(MapSeq(f, xs)) - multiset{f(xs[k])}
  {
    var mapped := MapSeq(f, xs);
    assert MapSeq(f, xs[..k] + xs[k + 1..]) == mapped[..k] + mapped[k + 1..];
    MultisetWithout(mapped, k);
  }

  lemma FirstImage<T, U>(f: T -> U, xs: seq<T>, images: seq<U>) returns (k: nat)
    requires Permuted(MapSeq(f, xs), images) && images != []
    ensures k < |xs| && f(xs[k]) == images[0]
  {
    RearrangedHold(MapSeq(f, xs), images);
    assert images[0] in MapSeq(f, xs);
    k :| 0 <= k < |xs| && MapSeq(f, xs)[k] == images[0];
  }

  lemma FirstInOrder<T, U>(f: T -> U, xs: seq<T>, k: nat, images: seq<U>, after: seq<T>)
    requires k < |xs| && images != [] && f(xs[k]) == images[0]
    requires Permuted(xs[..k] + xs[k + 1..], after) && MapSeq(f, after) == images[1..]
    ensures Permuted(xs, [xs[k]] + after) && MapSeq(f, [xs[k]] + after) == images
  {
    MultisetWithout(xs, k);
    assert MapSeq(f, [xs[k]] + after) == [f(xs[k])] + MapSeq(f, after);
  }

  /** Elements whose images are given up to order can be put in the order of the images. */
  lemma {:induction false} OrderedLike<T, U>(f: T -> U, xs: seq<T>, images: seq<U>) returns (order: seq<T>)
    requires Permuted(MapSeq(f, xs), images)
    ensures Permuted(xs, order) && MapSeq(f, order) == images
    decreases |images|
  {
    if images == [] {
      RearrangedHold(MapSeq(f, xs), images);
      order := [];
    } else {
      var k := FirstImage(f, xs, images);
      MapSeqWithout(f, xs, k);
      MultisetTail(images);
      var after := OrderedLike(f, xs[..k] + xs[k + 1..], images[1..]);
      order := [xs[k]] + after;
      FirstInOrder(f, xs, k, images, after);
    }
  }

  /** The row is the node's, whatever its prefix. */
  ghost predicate PrintsNode(n: Node, age: Time -> string, colWidth: int, opColWidth: int, row: Row)
    reads n`Siblings
  {
    Shows(Line(row.prefix, EntryOf(n, age)), colWidth, opColWidth, row)
  }

  ghost predicate IsOldest(items: seq<Item>, t: Time) {
    (exists x <- items :: x.ifo.created == t) && forall x <- items :: t <= x.ifo.created
  }

  lemma {:induction false} OldestMeaning(items: seq<Item>)
    requires items != []
    ensures IsOldest(items, OldestOf(items))
  {
    var front, last := items[..|items| - 1], items[|items| - 1];
    assert items == front + [last] && last in items;
    if |items| > 1 {
      OldestMeaning(front);
    }
  }

  /** The words are the operations of the items, each as often as it occurs, none after a later one. */
  ghost predicate Ascends(items: seq<Item>, words: seq<string>) {
    && multiset(words) == multiset(seq(|items|, i requires 0 <= i < |items| => items[i].ifo.spec.operation))
    && forall i, j :: 0 <= i < j < |words| ==> !Before(words[j], words[i])
  }

  /** A node's row shows its subject as kind and name, its operations and those of its siblings in ascending order, and
      the age of the oldest of its IFOs. */
  lemma RowMeaning(n: Node, age: Time -> string, colWidth: int, opColWidth: int, row: Row)
    returns (words: seq<string>, oldest: Time)
    requires PrintsNode(n, age, colWidth, opColWidth, row)
    ensures row.subject == n.IFO.ifo.spec.subject.kind + "/" + n.IFO.ifo.spec.subject.name
    ensures Ascends([n.IFO] + n.Siblings, words) && row.operations == Join(words)
    ensures IsOldest([n.IFO] + n.Siblings, oldest) && row.age == age(oldest)
  {
    var items := Cells(n);
    words :| multiset(words) == multiset(EntryOf(n, age).operations) && SortedBy(StringsInOrder, words) &&
      row.operations == Join(words);
    oldest := OldestOf(items);
    OldestMeaning(items);
    forall i, j | 0 <= i < j < |words|
      ensures !Before(words[j], words[i])
    {
      CompareIsBefore(words[j], words[i]);
      CompareIsAntisymmetric(words[i], words[j]);
    }
  }

  /** The namespaces of a block ascend. */
  lemma NamespacesAscend(
    roots: seq<EntryTree>, colWidth: int, opColWidth: int, block: Block, i: nat, j: nat)
    requires PrintsBlock(roots, colWidth, opColWidth, block) && i < j < |block.parts|
    ensures Before(block.parts[i].namespace, block.parts[j].namespace)
  {
    CompareIsBefore(block.parts[i].namespace, block.parts[j].namespace);
  }

  /** For some order of the rooted nodes the rows show what was read of them. */
  lemma RowsShowNodes<T>(
    p: Parents<T>, c: Children<T>, roots: seq<T>, read: T -> Entry, colWidth: int, opColWidth: int, blocks: seq<Block>)
    returns (order: seq<T>)
    requires Mirrors(p, c) && AreRoots(p, roots)
    requires Prints(MapTrees(read, TreesOf(c, roots, |p|)), colWidth, opColWidth, blocks)
    ensures Distinct(order) && forall n :: n in order <==> n in p && Rooted(p, n)
    ensures |order| == |RowsOf(blocks)| && forall i :: 0 <= i < |order| ==>
      Shows(Line(RowsOf(blocks)[i].prefix, read(order[i])), colWidth, opColWidth, RowsOf(blocks)[i])
  {
    var trees := TreesOf(c, roots, |p|);
    var all := PreorderAll(trees);
    RootsListTheRooted(p, c, roots, all);
    var lines := EveryEntryIsPrinted(MapTrees(read, trees), colWidth, opColWidth, blocks);
    MapsPreorderAll(read, trees);
    order := OrderedLike(read, all, Entries(lines));
    RearrangedHold(all, order);
    forall i | 0 <= i < |order|
      ensures Shows(Line(RowsOf(blocks)[i].prefix, read(order[i])), colWidth, opColWidth, RowsOf(blocks)[i])
    {
      assert MapSeq(read, order)[i] == lines[i].entry;
      assert Shows(lines[i], colWidth, opColWidth, RowsOf(blocks)[i]);
    }
  }

  /** Printing the trees of a forest prints, for some order of them, a row for every node whose owner
      chain ends at a root, each once, and no other row. */
  lemma ListedNodesArePrinted(
    p: Parents<Node>, c: Children<Node>, roots: seq<Node>, age: Time -> string,
    colWidth: int, opColWidth: int, blocks: seq<Block>)
    returns (order: seq<Node>)
    requires WellFormed(p, c, roots) && Prints(PrintedTrees(p, c, roots, age), colWidth, opColWidth, blocks)
    ensures Distinct(order) && forall n :: n in order <==> n in p && Rooted(p, n)
    ensures |order| == |RowsOf(blocks)|
    ensures forall i :: 0 <= i < |order| ==> PrintsNode(order[i], age, colWidth, opColWidth, RowsOf(blocks)[i])
  {
    order := RowsShowNodes(p, c, roots, EntriesOf(p.Keys, age), colWidth, opColWidth, blocks);
    assert forall i :: 0 <= i < |order| ==> order[i] in order;
  }
}
