/** TreePrinter.PrintForest: roots grouped by component and namespace, in columns shared by the whole forest. */
module ForestPrinter {
  import opened Prelude
  import opened OwnerGraph
  import opened Layout
  import opened Sorting
  import opened Comparing

  const ClusterScoped := "(cluster-scoped)"
  const NoComponent := "(none)"
  const RootPrefix := "    "

  function Component(root: EntryTree): string {
    if root.node.component == "" then NoComponent else root.node.component
  }

  function RootNamespace(root: EntryTree): string {
    if root.node.namespace == "" then ClusterScoped else root.node.namespace
  }

  /** What is printed under one namespace of one component. */
  datatype Part = Part(namespace: string, rows: seq<Row>)

  /** A component with its namespaces; blocks are separated by an empty line. */
  datatype Block = Block(component: string, parts: seq<Part>)

  datatype Output = NothingFound | Blocks(blocks: seq<Block>)

  // ----- grouping

  /** The roots that belong under a component and namespace, in forest order. */
  function Section(roots: seq<EntryTree>, comp: string, ns: string): seq<EntryTree> {
    if roots == [] then []
    else
      var last := roots[|roots| - 1];
      Section(roots[..|roots| - 1], comp, ns) +
        if Component(last) == comp && RootNamespace(last) == ns then [last] else []
  }

  /** The components, in the order in which they are first seen. */
  function Components(roots: seq<EntryTree>): seq<string> {
    if roots == [] then []
    else
      var before, last := Components(roots[..|roots| - 1]), Component(roots[|roots| - 1]);
      before + if last in before then [] else [last]
  }

  /** Every root is in its own section as often as in the forest, and in no other. */
  lemma {:induction false} RootsInOneSection(roots: seq<EntryTree>, comp: string, ns: string, root: EntryTree)
    ensures multiset(Section(roots, comp, ns))[root] ==
      if Component(root) == comp && RootNamespace(root) == ns then multiset(roots)[root] else 0
  {
    if roots != [] {
      var front, last := roots[..|roots| - 1], roots[|roots| - 1];
      assert roots == front + [last];
      RootsInOneSection(front, comp, ns, root);
    }
  }

  /** The heading under which a value comes. */
  ghost predicate Heads(heading: string, instead: string, value: string) {
    heading == if value == "" then instead else value
  }

  /** Under both headings: "(none)" stands for an empty component, "(cluster-scoped)" for an empty namespace. */
  ghost predicate ComesUnder(root: EntryTree, comp: string, ns: string) {
    Heads(comp, "(none)", root.node.component) && Heads(ns, "(cluster-scoped)", root.node.namespace)
  }

  /** The roots at these ascending places, which are all that come under the headings. */
  ghost predicate PicksAt(roots: seq<EntryTree>, comp: string, ns: string, section: seq<EntryTree>, at: seq<nat>) {
    && |at| == |section| && (forall j :: 0 <= j < |at| ==> at[j] < |roots| && section[j] == roots[at[j]])
    && (forall i, j :: 0 <= i < j < |at| ==> at[i] < at[j])
    && (forall i :: 0 <= i < |roots| ==> (i in at <==> ComesUnder(roots[i], comp, ns)))
  }

  lemma PicksOneMore(
    front: seq<EntryTree>, root: EntryTree, comp: string, ns: string, section: seq<EntryTree>, at: seq<nat>)
    requires PicksAt(front, comp, ns, section, at)
    ensures ComesUnder(root, comp, ns) ==> PicksAt(front + [root], comp, ns, section + [root], at + [|front|])
    ensures !ComesUnder(root, comp, ns) ==> PicksAt(front + [root], comp, ns, section, at)
  {
    assert forall i :: i in at ==> i < |front|;
  }

  /** A section keeps the forest order. */
  lemma {:induction false} SectionInOrder(
    roots: seq<EntryTree>, comp: string, ns: string, section: seq<EntryTree>) returns (at: seq<nat>)
    requires section == Section(roots, comp, ns)
    ensures PicksAt(roots, comp, ns, section, at)
  {
    at := [];
    if roots != [] {
      var front, last := roots[..|roots| - 1], roots[|roots| - 1];
      var before := Section(front, comp, ns);
      at := SectionInOrder(front, comp, ns, before);
      PicksOneMore(front, last, comp, ns, before, at);
      assert roots == front + [last];
      if ComesUnder(last, comp, ns) {
        at := at + [|front|];
        assert section == before + [last];
      } else {
        assert section == before;
      }
    }
  }

  ghost predicate FirstWith(roots: seq<EntryTree>, comp: string, i: nat) {
    i < |roots| && Component(roots[i]) == comp && forall j :: 0 <= j < i ==> Component(roots[j]) != comp
  }

  /** Components come in the order of the first roots that have them. */
  lemma {:induction false} ComponentsInOrder(roots: seq<EntryTree>, comps: seq<string>) returns (at: seq<nat>)
    requires comps == Components(roots)
    ensures |at| == |comps| && forall j :: 0 <= j < |at| ==> FirstWith(roots, comps[j], at[j])
    ensures forall i, j :: 0 <= i < j < |at| ==> at[i] < at[j]
  {
    at := [];
    if roots != [] {
      var front, last := roots[..|roots| - 1], roots[|roots| - 1];
      var before := Components(front);
      at := ComponentsInOrder(front, before);
      ComponentsHold(front, before);
      forall j | 0 <= j < |at|
        ensures FirstWith(roots, before[j], at[j])
      {
        assert FirstWith(front, before[j], at[j]);
      }
      if Component(last) !in before {
        forall j | 0 <= j < |front|
          ensures Component(roots[j]) != Component(last)
        {
          assert roots[j] == front[j];
        }
        at := at + [|front|];
      }
    }
  }

  lemma {:induction false} ComponentsHold(roots: seq<EntryTree>, comps: seq<string>)
    requires comps == Components(roots)
    ensures Distinct(comps)
    ensures forall comp :: comp in comps <==> exists i :: 0 <= i < |roots| && Component(roots[i]) == comp
  {
    if roots != [] {
      var front, last := roots[..|roots| - 1], roots[|roots| - 1];
      var before := Components(front);
      ComponentsHold(front, before);
      forall comp | comp in comps
        ensures exists i :: 0 <= i < |roots| && Component(roots[i]) == comp
      {
        if comp in before {
          var i :| 0 <= i < |front| && Component(front[i]) == comp;
          assert roots[i] == front[i];
        } else {
          assert Component(roots[|roots| - 1]) == comp;
        }
      }
      forall i | 0 <= i < |roots|
        ensures Component(roots[i]) in comps
      {
        assert i < |front| ==> roots[i] == front[i];
      }
    }
  }

  datatype CompGroup = CompGroup(namespaces: map<string, seq<EntryTree>>, nsOrder: seq<string>)

  ghost predicate Groups(roots: seq<EntryTree>, comp: string, g: CompGroup) {
    && Distinct(g.nsOrder) && (forall ns :: ns in g.nsOrder <==> ns in g.namespaces)
    && (forall ns <- g.namespaces :: g.namespaces[ns] == Section(roots, comp, ns) != [])
    && (forall ns :: ns !in g.namespaces ==> Section(roots, comp, ns) == [])
  }

  const NewGroup := CompGroup(map[], [])

  function GroupFor(groups: map<string, CompGroup>, comp: string): CompGroup {
    if comp in groups then groups[comp] else NewGroup
  }

  ghost predicate AllGroups(roots: seq<EntryTree>, groups: map<string, CompGroup>) {
    forall comp {:trigger GroupFor(groups, comp)} :: Groups(roots, comp, GroupFor(groups, comp))
  }

  function Added(g: CompGroup, ns: string, root: EntryTree): CompGroup {
    var nsOrder := if ns in g.namespaces then g.nsOrder else g.nsOrder + [ns];
    var list := if ns in g.namespaces then g.namespaces[ns] else [];
    CompGroup(g.namespaces[ns := list + [root]], nsOrder)
  }

  lemma AddedGroups(roots: seq<EntryTree>, comp: string, g: CompGroup, root: EntryTree)
    requires Groups(roots, comp, g) && Component(root) == comp
    ensures Groups(roots + [root], comp, Added(g, RootNamespace(root), root))
  {
    var all, ns, h := roots + [root], RootNamespace(root), Added(g, RootNamespace(root), root);
    assert all[..|roots|] == roots;
    forall other
      ensures Section(all, comp, other) == Section(roots, comp, other) + if other == ns then [root] else []
    {
    }
  }

  lemma OtherGroups(roots: seq<EntryTree>, comp: string, g: CompGroup, root: EntryTree)
    requires Groups(roots, comp, g) && Component(root) != comp
    ensures Groups(roots + [root], comp, g)
  {
    assert (roots + [root])[..|roots|] == roots;
    forall ns
      ensures Section(roots + [root], comp, ns) == Section(roots, comp, ns)
    {
    }
  }

  lemma AllGroupsStep(
    before: seq<EntryTree>, groups: map<string, CompGroup>, root: EntryTree, g: CompGroup, all: seq<EntryTree>)
    requires AllGroups(before, groups) && g == GroupFor(groups, Component(root)) && all == before + [root]
    ensures AllGroups(all, groups[Component(root) := Added(g, RootNamespace(root), root)])
  {
    var after := groups[Component(root) := Added(g, RootNamespace(root), root)];
    forall comp
      ensures Groups(all, comp, GroupFor(after, comp))
    {
      if comp == Component(root) {
        AddedGroups(before, comp, g, root);
      } else {
        assert GroupFor(after, comp) == GroupFor(groups, comp);
        OtherGroups(before, comp, GroupFor(groups, comp), root);
      }
    }
  }

  ghost predicate Ordered(roots: seq<EntryTree>, groups: map<string, CompGroup>, compOrder: seq<string>) {
    compOrder == Components(roots) && forall comp :: comp in groups <==> comp in compOrder
  }

  lemma OrderedStep(
    before: seq<EntryTree>, groups: map<string, CompGroup>, compOrder: seq<string>, root: EntryTree, g: CompGroup,
    all: seq<EntryTree>, order: seq<string>)
    requires Ordered(before, groups, compOrder) && all == before + [root]
    requires order == if Component(root) in groups then compOrder else compOrder + [Component(root)]
    ensures Ordered(all, groups[Component(root) := g], order)
  {
    assert all[..|before|] == before;
  }

  method GroupRoots(roots: seq<EntryTree>) returns (groups: map<string, CompGroup>, compOrder: seq<string>)
    ensures Ordered(roots, groups, compOrder) && AllGroups(roots, groups)
  {
    groups, compOrder := map[], [];
    for i := 0 to |roots|
      invariant Ordered(roots[..i], groups, compOrder) && AllGroups(roots[..i], groups)
    {
      var root, comp, ns := roots[i], Component(roots[i]), RootNamespace(roots[i]);
      var cg := GroupFor(groups, comp);
      var order := if comp in groups then compOrder else compOrder + [comp];
      ghost var before, all := roots[..i], roots[..i + 1];
      AllGroupsStep(before, groups, root, cg, all);
      OrderedStep(before, groups, compOrder, root, Added(cg, ns, root), all, order);
      groups, compOrder := groups[comp := Added(cg, ns, root)], order;
    }
    assert roots[..|roots|] == roots;
  }

  // ----- columns

  function RootLines(root: EntryTree): seq<Line> {
    Lines(root, RootPrefix, RootPrefix)
  }

  function AllLines(roots: seq<EntryTree>): seq<Line> {
    if roots == [] then [] else AllLines(roots[..|roots| - 1]) + RootLines(roots[|roots| - 1])
  }

  /** Every line of the tree leaves a gap of two before the operations, and no operations are too wide. */
  ghost predicate Fits(root: EntryTree, colWidth: int, opColWidth: int) {
    forall l <- RootLines(root) :: Width(l) + 2 <= colWidth && OpsWidth(l.entry) <= opColWidth
  }

  /** The columns fit every tree, and no narrower ones would. */
  ghost predicate Columns(roots: seq<EntryTree>, colWidth: int, opColWidth: int) {
    && (forall root <- roots :: Fits(root, colWidth, opColWidth))
    && (exists root :: root in roots && IsMaxWidth(RootLines(root), colWidth - 2))
    && (exists root :: root in roots && IsMaxOpsWidth(Preorder(root), opColWidth))
  }

  ghost predicate WidthWithin(root: EntryTree, w: int) {
    forall l <- RootLines(root) :: Width(l) <= w
  }

  ghost predicate OpsWithin(root: EntryTree, w: int) {
    forall e <- Preorder(root) :: OpsWidth(e) <= w
  }

  lemma WidestFits(root: EntryTree, colWidth: int, opColWidth: int)
    requires WidthWithin(root, colWidth - 2) && OpsWithin(root, opColWidth)
    ensures Fits(root, colWidth, opColWidth)
  {
    LinesArePreorder(root, RootPrefix, RootPrefix);
    var lines := RootLines(root);
    forall l | l in lines
      ensures OpsWidth(l.entry) <= opColWidth
    {
      var i :| 0 <= i < |lines| && lines[i] == l;
      assert Entries(lines)[i] == l.entry;
      assert l.entry in Preorder(root);
    }
  }

  lemma WidthIsPositive(root: EntryTree, w: int)
    requires IsMaxWidth(RootLines(root), w)
    ensures w > 0
  {
    assert RootLines(root)[0] in RootLines(root);
  }

  method MaxWidthOfRoots(roots: seq<EntryTree>) returns (colWidth: int)
    requires roots != []
    ensures forall root <- roots :: WidthWithin(root, colWidth)
    ensures exists root :: root in roots && IsMaxWidth(RootLines(root), colWidth)
  {
    colWidth := 0;
    ghost var widest := roots[0];
    for i := 0 to |roots|
      invariant forall j :: 0 <= j < i ==> WidthWithin(roots[j], colWidth)
      invariant i == 0 ==> colWidth == 0
      invariant i > 0 ==> widest in roots && IsMaxWidth(RootLines(widest), colWidth)
    {
      var w := ComputeMaxWidth(roots[i], RootPrefix, RootPrefix);
      WidthIsPositive(roots[i], w);
      if w > colWidth {
        colWidth := w;
        widest := roots[i];
      }
    }
  }

  method MaxOpsWidthOfRoots(roots: seq<EntryTree>) returns (opColWidth: int)
    requires roots != []
    ensures forall root <- roots :: OpsWithin(root, opColWidth)
    ensures exists root :: root in roots && IsMaxOpsWidth(Preorder(root), opColWidth)
  {
    opColWidth := 0;
    ghost var widest := roots[0];
    for i := 0 to |roots|
      invariant 0 <= opColWidth && forall j :: 0 <= j < i ==> OpsWithin(roots[j], opColWidth)
      invariant i == 0 ==> opColWidth == 0
      invariant i > 0 ==> widest in roots && IsMaxOpsWidth(Preorder(widest), opColWidth)
    {
      var w := ComputeMaxOpsWidth(roots[i]);
      if w > opColWidth || i == 0 {
        widest := roots[i];
      }
      if w > opColWidth {
        opColWidth := w;
      }
    }
  }

  method ComputeColumns(roots: seq<EntryTree>) returns (colWidth: int, opColWidth: int)
    requires roots != []
    ensures Columns(roots, colWidth, opColWidth)
  {
    colWidth := MaxWidthOfRoots(roots);
    colWidth := colWidth + 2;
    opColWidth := MaxOpsWidthOfRoots(roots);
    forall root | root in roots
      ensures Fits(root, colWidth, opColWidth)
    {
      WidestFits(root, colWidth, opColWidth);
    }
  }

  // ----- printing

  method PrintRoots(roots: seq<EntryTree>, colWidth: int, opColWidth: int) returns (rows: seq<Row>)
    ensures ShowsAll(AllLines(roots), colWidth, opColWidth, rows)
  {
    rows := [];
    for i := 0 to |roots|
      invariant ShowsAll(AllLines(roots[..i]), colWidth, opColWidth, rows)
    {
      var below := PrintSubtree(roots[i], RootPrefix, RootPrefix, colWidth, opColWidth);
      assert roots[..i + 1][..i] == roots[..i];
      rows := rows + below;
    }
    assert roots[..|roots|] == roots;
  }

  ghost predicate PrintsPart(roots: seq<EntryTree>, comp: string, colWidth: int, opColWidth: int, part: Part) {
    ShowsAll(AllLines(Section(roots, comp, part.namespace)), colWidth, opColWidth, part.rows)
  }

  /** The block has the component's namespaces, each once and in order, and under each its roots. */
  ghost predicate PrintsBlock(roots: seq<EntryTree>, colWidth: int, opColWidth: int, block: Block) {
    && (forall i, j :: 0 <= i < j < |block.parts| ==> Compare(block.parts[i].namespace, block.parts[j].namespace) < 0)
    && (forall part <- block.parts :: PrintsPart(roots, block.component, colWidth, opColWidth, part))
    && (forall ns :: Section(roots, block.component, ns) != [] <==>
      exists i :: 0 <= i < |block.parts| && block.parts[i].namespace == ns)
  }

  method PrintBlock(ghost roots: seq<EntryTree>, comp: string, cg: CompGroup, colWidth: int, opColWidth: int)
    returns (block: Block)
    requires Groups(roots, comp, cg)
    ensures block.component == comp && PrintsBlock(roots, colWidth, opColWidth, block)
  {
    StringsAreOrdered(cg.nsOrder);
    var nsOrder := SortFunc(cg.nsOrder, StringsInOrder);
    RearrangedHold(cg.nsOrder, nsOrder);
    var parts: seq<Part> := [];
    for i := 0 to |nsOrder|
      invariant |parts| == i && forall j :: 0 <= j < i ==> parts[j].namespace == nsOrder[j]
      invariant forall part <- parts :: PrintsPart(roots, comp, colWidth, opColWidth, part)
    {
      assert nsOrder[i] in nsOrder;
      var rows := PrintRoots(cg.namespaces[nsOrder[i]], colWidth, opColWidth);
      parts := parts + [Part(nsOrder[i], rows)];
    }
    block := Block(comp, parts);
    forall i, j | 0 <= i < j < |parts|
      ensures Compare(parts[i].namespace, parts[j].namespace) < 0
    {
      CompareIsZero(nsOrder[i], nsOrder[j]);
    }
  }

  /** One block for every component in first-seen order, all in the same columns. */
  ghost predicate Prints(roots: seq<EntryTree>, colWidth: int, opColWidth: int, blocks: seq<Block>) {
    && |blocks| == |Components(roots)|
    && (forall i :: 0 <= i < |blocks| ==> blocks[i].component == Components(roots)[i])
    && (forall block <- blocks :: PrintsBlock(roots, colWidth, opColWidth, block))
    && Columns(roots, colWidth, opColWidth)
  }

  method PrintBlocks(
    ghost roots: seq<EntryTree>, groups: map<string, CompGroup>, compOrder: seq<string>, colWidth: int, opColWidth: int)
    returns (blocks: seq<Block>)
    requires AllGroups(roots, groups)
    ensures |blocks| == |compOrder| && forall i :: 0 <= i < |blocks| ==> blocks[i].component == compOrder[i]
    ensures forall block <- blocks :: PrintsBlock(roots, colWidth, opColWidth, block)
  {
    blocks := [];
    for i := 0 to |compOrder|
      invariant |blocks| == i && forall j :: 0 <= j < i ==> blocks[j].component == compOrder[j]
      invariant forall block <- blocks :: PrintsBlock(roots, colWidth, opColWidth, block)
    {
      assert compOrder[i] in compOrder;
      var block := PrintBlock(roots, compOrder[i], GroupFor(groups, compOrder[i]), colWidth, opColWidth);
      blocks := blocks + [block];
    }
  }

  method PrintForest(roots: seq<EntryTree>, orphans: seq<EntryTree>)
    returns (output: Output, ghost colWidth: int, ghost opColWidth: int)
    ensures output.NothingFound? <==> roots + orphans == []
    ensures output.Blocks? ==> Prints(roots + orphans, colWidth, opColWidth, output.blocks)
  {
    if |roots| == 0 && |orphans| == 0 {
      return NothingFound, 0, 0;
    }
    var allRoots := roots + orphans;
    var cw, ow := ComputeColumns(allRoots);
    var groups, compOrder := GroupRoots(allRoots);
    var blocks := PrintBlocks(allRoots, groups, compOrder, cw, ow);
    output, colWidth, opColWidth := Blocks(blocks), cw, ow;
  }

  // ----- what a reader sees

  lemma {:induction false} AllLinesFit(roots: seq<EntryTree>, colWidth: int, opColWidth: int)
    requires forall root <- roots :: Fits(root, colWidth, opColWidth)
    ensures forall l <- AllLines(roots) :: Width(l) + 2 <= colWidth && OpsWidth(l.entry) <= opColWidth
  {
    if roots != [] {
      var front, last := roots[..|roots| - 1], roots[|roots| - 1];
      AllLinesFit(front, colWidth, opColWidth);
      assert last in roots && Fits(last, colWidth, opColWidth);
    }
  }

  /** Every printed row of the whole forest has a gap of at least two, and its operations and its age start
      in the columns of the forest if, and only if, they are preceded by ASCII. */
  lemma ForestIsAligned(
    roots: seq<EntryTree>, colWidth: int, opColWidth: int, blocks: seq<Block>, block: Block, part: Part, row: Row)
    requires Prints(roots, colWidth, opColWidth, blocks)
    requires block in blocks && part in block.parts && row in part.rows
    ensures row.padding >= 2
    ensures row.OperationColumn() == colWidth <==> Ascii(row.subject)
    ensures row.AgeColumn() == colWidth + opColWidth + 2 <==> Ascii(row.subject) && Ascii(row.operations)
  {
    assert PrintsBlock(roots, colWidth, opColWidth, block);
    assert PrintsPart(roots, block.component, colWidth, opColWidth, part);
    var section := Section(roots, block.component, part.namespace);
    SectionIsPart(roots, block.component, part.namespace, section);
    AllLinesFit(section, colWidth, opColWidth);
    RowsAreAligned(AllLines(section), colWidth, opColWidth, part.rows);
    AlignedIffAscii(row, colWidth, opColWidth);
  }

  lemma {:induction false} SectionIsPart(roots: seq<EntryTree>, comp: string, ns: string, section: seq<EntryTree>)
    requires section == Section(roots, comp, ns)
    ensures forall root <- section :: root in roots && Component(root) == comp && RootNamespace(root) == ns
  {
    if roots != [] {
      var front := roots[..|roots| - 1];
      SectionIsPart(front, comp, ns, Section(front, comp, ns));
    }
  }

  predicate IsPlace(blocks: seq<Block>, root: EntryTree, b: nat, s: nat) {
    && b < |blocks| && s < |blocks[b].parts|
    && blocks[b].component == Component(root) && blocks[b].parts[s].namespace == RootNamespace(root)
  }

  /** Exactly one block and one part of it are for a root's component and namespace. */
  lemma RootHasOnePlace(
    roots: seq<EntryTree>, colWidth: int, opColWidth: int, blocks: seq<Block>, root: EntryTree)
    returns (b: nat, s: nat)
    requires Prints(roots, colWidth, opColWidth, blocks) && root in roots
    ensures IsPlace(blocks, root, b, s) && forall i, j :: IsPlace(blocks, root, i, j) ==> i == b && j == s
  {
    var comps := Components(roots);
    ComponentsHold(roots, comps);
    var k :| 0 <= k < |roots| && roots[k] == root;
    assert Component(roots[k]) in comps;
    b :| 0 <= b < |comps| && comps[b] == Component(root);
    s := PartOf(roots, colWidth, opColWidth, blocks[b], root);
    forall i: nat, j: nat | IsPlace(blocks, root, i, j)
      ensures i == b && j == s
    {
      assert comps[i] == comps[b];
      CompareIsZero(RootNamespace(root), RootNamespace(root));
    }
  }

  lemma PartOf(roots: seq<EntryTree>, colWidth: int, opColWidth: int, block: Block, root: EntryTree) returns (s: nat)
    requires PrintsBlock(roots, colWidth, opColWidth, block) && root in roots && block.component == Component(root)
    ensures s < |block.parts| && block.parts[s].namespace == RootNamespace(root)
  {
    RootsInOneSection(roots, block.component, RootNamespace(root), root);
    assert multiset(roots)[root] > 0;
    assert Section(roots, block.component, RootNamespace(root)) != [];
    s :| 0 <= s < |block.parts| && block.parts[s].namespace == RootNamespace(root);
  }
}
