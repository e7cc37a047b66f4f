/** The tree layout of pkg/plugin/output: one row per node, with aligned columns. */
module Layout {
  import opened Prelude
  import opened OwnerGraph
  import opened Sorting
  import opened Comparing

  const TreeBranch := "├── "
  const TreeCorner := "└── "
  const TreeBar := "│   "
  const TreeBlank := "    "

  /** What the printer reads of a node; the operations are those of its IFO and its siblings. */
  datatype Entry = Entry(
    component: string, namespace: string, kind: string, name: string, operations: seq<string>, age: string)

  type EntryTree = Tree<Entry>

  function FormatSubject(e: Entry): string {
    e.kind + "/" + e.name
  }

  // ----- which lines there are

  /** A node with the tree-drawing prefix of its line. */
  datatype Line = Line(prefix: string, entry: Entry)

  function Lines(t: EntryTree, linePrefix: string, childPrefix: string): seq<Line> {
    [Line(linePrefix, t.node)] + LinesAll(t.children, childPrefix)
  }

  /** The lines of a node's children, of which the last hangs on a corner. */
  function LinesAll(ts: seq<EntryTree>, childPrefix: string): seq<Line> {
    if ts == [] then []
    else
      var first := Lines(ts[0], childPrefix + Connector(|ts| == 1), childPrefix + NextPrefix(|ts| == 1));
      first + LinesAll(ts[1..], childPrefix)
  }

  function Connector(isLast: bool): string {
    if isLast then TreeCorner else TreeBranch
  }

  function NextPrefix(isLast: bool): string {
    if isLast then TreeBlank else TreeBar
  }

  function Entries(lines: seq<Line>): seq<Entry> {
    seq(|lines|, i requires 0 <= i < |lines| => lines[i].entry)
  }

  /** The lines follow the tree in preorder. */
  lemma {:induction false} LinesArePreorder(t: EntryTree, linePrefix: string, childPrefix: string)
    ensures Entries(Lines(t, linePrefix, childPrefix)) == Preorder(t)
    decreases t, 0
  {
    LinesAllArePreorder(t.children, childPrefix);
    EntriesConcat([Line(linePrefix, t.node)], LinesAll(t.children, childPrefix));
  }

  lemma {:induction false} LinesAllArePreorder(ts: seq<EntryTree>, childPrefix: string)
    ensures Entries(LinesAll(ts, childPrefix)) == PreorderAll(ts)
    decreases ts, 1
  {
    if ts != [] {
      var linePrefix, nextPrefix := childPrefix + Connector(|ts| == 1), childPrefix + NextPrefix(|ts| == 1);
      LinesArePreorder(ts[0], linePrefix, nextPrefix);
      LinesAllArePreorder(ts[1..], childPrefix);
      EntriesConcat(Lines(ts[0], linePrefix, nextPrefix), LinesAll(ts[1..], childPrefix));
    }
  }

  lemma EntriesConcat(a: seq<Line>, b: seq<Line>)
    ensures Entries(a + b) == Entries(a) + Entries(b)
  {
  }

  // ----- the prefix of each line

  /** A path leads from the top of a tree down, by child positions. */
  ghost predicate IsPath(t: EntryTree, path: seq<nat>) {
    path == [] || (path[0] < |t.children| && IsPath(t.children[path[0]], path[1..]))
  }

  ghost function At(t: EntryTree, path: seq<nat>): EntryTree
    requires IsPath(t, path)
  {
    if path == [] then t else At(t.children[path[0]], path[1..])
  }

  /** Whether the j-th step of the path goes to a last child. */
  ghost predicate GoesLast(t: EntryTree, path: seq<nat>, j: nat)
    requires IsPath(t, path) && j < |path|
  {
    if j == 0 then path[0] == |t.children| - 1 else GoesLast(t.children[path[0]], path[1..], j - 1)
  }

  /** What a step of the path draws: before the last one the bar of a branch that goes on, or nothing below a last
      child; the last step draws a branch, or the corner of a last child. */
  ghost function Drawn(t: EntryTree, path: seq<nat>, j: nat): string
    requires IsPath(t, path) && j < |path|
  {
    if j < |path| - 1 then (if GoesLast(t, path, j) then "    " else "│   ")
    else (if GoesLast(t, path, j) then "└── " else "├── ")
  }

  /** Four places for each step. */
  ghost predicate Draws(t: EntryTree, path: seq<nat>, drawing: string)
    requires IsPath(t, path)
  {
    && |drawing| == 4 * |path|
    && forall j :: 0 <= j < |path| ==> drawing[4 * j..4 * j + 4] == Drawn(t, path, j)
  }

  lemma DrawingOf(t: EntryTree, path: seq<nat>, below: string) returns (drawing: string)
    requires IsPath(t, path) && path != [] && Draws(t.children[path[0]], path[1..], below)
    ensures Draws(t, path, drawing)
    ensures var isLast := path[0] == |t.children| - 1;
      drawing == if |path| == 1 then Connector(isLast) else NextPrefix(isLast) + below
  {
    var isLast := path[0] == |t.children| - 1;
    var first := if |path| == 1 then Connector(isLast) else NextPrefix(isLast);
    drawing := first + below;
    forall j | 0 <= j < |path|
      ensures drawing[4 * j..4 * j + 4] == Drawn(t, path, j)
    {
      if j == 0 {
        assert drawing[0..4] == first;
      } else {
        assert drawing[4 * j..4 * j + 4] == below[4 * (j - 1)..4 * (j - 1) + 4];
        assert Drawn(t.children[path[0]], path[1..], j - 1) == Drawn(t, path, j);
      }
    }
    assert |path| == 1 ==> below == "" && first + below == first;
  }

  /** Where a line of the k-th child stands among those of all children. */
  lemma {:induction false} LineOfChild(ts: seq<EntryTree>, childPrefix: string, k: nat, i: nat) returns (at: nat)
    requires k < |ts|
    requires var isLast := k == |ts| - 1;
      i < |Lines(ts[k], childPrefix + Connector(isLast), childPrefix + NextPrefix(isLast))|
    ensures var isLast := k == |ts| - 1;
      at < |LinesAll(ts, childPrefix)| && LinesAll(ts, childPrefix)[at] ==
        Lines(ts[k], childPrefix + Connector(isLast), childPrefix + NextPrefix(isLast))[i]
    decreases k
  {
    var first := Lines(ts[0], childPrefix + Connector(|ts| == 1), childPrefix + NextPrefix(|ts| == 1));
    var rest := LinesAll(ts[1..], childPrefix);
    assert LinesAll(ts, childPrefix) == first + rest;
    if k == 0 {
      at := i;
    } else {
      var before := LineOfChild(ts[1..], childPrefix, k - 1, i);
      at := |first| + before;
    }
  }

  lemma LineUnder(t: EntryTree, linePrefix: string, childPrefix: string, k: nat, i: nat) returns (at: nat)
    requires k < |t.children|
    requires var isLast := k == |t.children| - 1;
      i < |Lines(t.children[k], childPrefix + Connector(isLast), childPrefix + NextPrefix(isLast))|
    ensures var isLast := k == |t.children| - 1;
      at < |Lines(t, linePrefix, childPrefix)| && Lines(t, linePrefix, childPrefix)[at] ==
        Lines(t.children[k], childPrefix + Connector(isLast), childPrefix + NextPrefix(isLast))[i]
  {
    var inAll := LineOfChild(t.children, childPrefix, k, i);
    at := 1 + inAll;
  }

  /** The node at the end of a path has a line, in which its drawing follows the prefix of the tree. */
  lemma {:induction false} LineOfPath(t: EntryTree, linePrefix: string, childPrefix: string, path: seq<nat>)
    returns (i: nat, drawing: string)
    requires IsPath(t, path)
    ensures Draws(t, path, drawing) && i < |Lines(t, linePrefix, childPrefix)|
    ensures Lines(t, linePrefix, childPrefix)[i] ==
      Line(if path == [] then linePrefix else childPrefix + drawing, At(t, path).node)
    decreases |path|
  {
    if path == [] {
      i, drawing := 0, "";
    } else {
      var k, child := path[0], t.children[path[0]];
      var isLast := k == |t.children| - 1;
      var connector, nextPrefix := childPrefix + Connector(isLast), childPrefix + NextPrefix(isLast);
      var inChild, below := LineOfPath(child, connector, nextPrefix, path[1..]);
      i := LineUnder(t, linePrefix, childPrefix, k, inChild);
      drawing := DrawingOf(t, path, below);
      assert childPrefix + NextPrefix(isLast) + below == childPrefix + (NextPrefix(isLast) + below);
      assert At(t, path) == At(child, path[1..]);
    }
  }

  // ----- widths

  /** How many bytes a character takes in UTF-8. */
  function BytesOfChar(c: char): (n: nat) {
    if c as int < 0x80 then 1 else if c as int < 0x800 then 2 else if c as int < 0x1_0000 then 3 else 4
  }

  /** Go's len of a string. */
  function Bytes(s: string): nat {
    if s == [] then 0 else Bytes(s[..|s| - 1]) + BytesOfChar(s[|s| - 1])
  }

  ghost predicate Ascii(s: string) {
    forall i :: 0 <= i < |s| ==> s[i] as int < 0x80
  }

  lemma {:induction false} BytesConcat(a: string, b: string)
    ensures Bytes(a + b) == Bytes(a) + Bytes(b)
  {
    if b == [] {
      assert a + b == a;
    } else {
      BytesConcat(a, b[..|b| - 1]);
      assert (a + b)[..|a + b| - 1] == a + b[..|b| - 1];
    }
  }

  /** A string has at least as many bytes as characters, and as many exactly if it is ASCII. */
  lemma {:induction false} BytesOfAscii(s: string)
    ensures Bytes(s) >= |s| && (Bytes(s) == |s| <==> Ascii(s))
  {
    if s != [] {
      var front := s[..|s| - 1];
      BytesOfAscii(front);
      assert forall i :: 0 <= i < |front| ==> s[i] == front[i];
    }
  }

  /** Prefixes count by characters, subjects and operations by bytes. */
  function Width(line: Line): nat {
    |line.prefix| + Bytes(FormatSubject(line.entry))
  }

  function Join(words: seq<string>): string {
    if words == [] then ""
    else if |words| == 1 then words[0]
    else words[0] + ", " + Join(words[1..])
  }

  /** Words are joined in order, a comma and a blank between each two. */
  lemma {:induction false} JoinsInOrder(words: seq<string>, last: string)
    ensures Join([]) == "" && Join([last]) == last
    ensures words != [] ==> Join(words + [last]) == Join(words) + ", " + last
  {
    if |words| == 1 {
      assert (words + [last])[1..] == [last];
    } else if |words| > 1 {
      JoinsInOrder(words[1..], last);
      assert (words + [last])[1..] == words[1..] + [last];
    }
  }

  /** The width of the joined operations, in whatever order they are joined. */
  function OpsWidth(e: Entry): nat {
    TotalBytes(e.operations) + if e.operations == [] then 0 else 2 * (|e.operations| - 1)
  }

  function TotalBytes(words: seq<string>): nat {
    if words == [] then 0 else Bytes(words[0]) + TotalBytes(words[1..])
  }

  lemma {:induction false} JoinLength(words: seq<string>)
    ensures Bytes(Join(words)) == TotalBytes(words) + if words == [] then 0 else 2 * (|words| - 1)
  {
    if |words| == 1 {
      assert words[1..] == [];
    } else if |words| > 1 {
      JoinLength(words[1..]);
      BytesConcat(words[0] + ", ", Join(words[1..]));
      BytesConcat(words[0], ", ");
      BytesOfAscii(", ");
      assert Join(words) == words[0] + ", " + Join(words[1..]);
    }
  }

  lemma {:induction false} TotalBytesSplits(a: seq<string>, b: seq<string>)
    ensures TotalBytes(a + b) == TotalBytes(a) + TotalBytes(b)
  {
    if a == [] {
      assert a + b == b;
    } else {
      TotalBytesSplits(a[1..], b);
      assert (a + b)[1..] == a[1..] + b;
    }
  }

  lemma {:induction false} TotalBytesPermutes(a: seq<string>, b: seq<string>)
    requires multiset(a) == multiset(b)
    ensures |a| == |b| && TotalBytes(a) == TotalBytes(b)
  {
    assert |a| == |multiset(a)| == |multiset(b)| == |b|;
    if a != [] {
      assert a[0] in multiset(b);
      var k :| 0 <= k < |b| && b[k] == a[0];
      var rest := b[..k] + b[k + 1..];
      assert b == b[..k] + ([b[k]] + b[k + 1..]);
      assert a == [a[0]] + a[1..];
      MultisetTail(a);
      MultisetWithout(b, k);
      TotalBytesPermutes(a[1..], rest);
      TotalBytesSplits(b[..k], [b[k]] + b[k + 1..]);
      TotalBytesSplits(b[..k], b[k + 1..]);
    }
  }

  // ----- rows

  datatype Row = Row(prefix: string, subject: string, padding: nat, operations: string, opPadding: nat, age: string) {

    function OperationColumn(): nat {
      |prefix| + |subject| + padding
    }

    function AgeColumn(): nat {
      OperationColumn() + |operations| + opPadding + 2
    }

    function Text(): string {
      prefix + subject + Spaces(padding) + operations + Spaces(opPadding) + "  " + age
    }
  }

  function Spaces(n: nat): string {
    seq(n, i => ' ')
  }

  /** The columns say where in the text the operations and the age stand. */
  lemma ColumnsInText(r: Row)
    ensures |r.Text()| == r.AgeColumn() + |r.age|
    ensures r.Text()[r.OperationColumn()..r.OperationColumn() + |r.operations|] == r.operations
    ensures r.Text()[r.AgeColumn()..] == r.age
    ensures r.Text()[..|r.prefix| + |r.subject|] == r.prefix + r.subject
    ensures forall i :: |r.prefix| + |r.subject| <= i < r.OperationColumn() ==> r.Text()[i] == ' '
    ensures forall i :: r.OperationColumn() + |r.operations| <= i < r.AgeColumn() ==> r.Text()[i] == ' '
  {
    var head := r.prefix + r.subject + Spaces(r.padding);
    var tail := Spaces(r.opPadding) + "  " + r.age;
    assert r.Text() == head + (r.operations + tail);
    assert |head| == r.OperationColumn();
    assert r.Text() == (head + r.operations + Spaces(r.opPadding) + "  ") + r.age;
  }

  predicate StringsInOrder(a: string, b: string) {
    Compare(a, b) <= 0
  }

  /** The row names the line's operations in sorted order. */
  ghost predicate ShowsOperations(e: Entry, text: string) {
    exists sorted :: multiset(sorted) == multiset(e.operations) &&
      SortedBy(StringsInOrder, sorted) && text == Join(sorted)
  }

  lemma ShownWidth(e: Entry, text: string)
    requires ShowsOperations(e, text)
    ensures Bytes(text) == OpsWidth(e)
  {
    var sorted :| multiset(sorted) == multiset(e.operations) &&
      SortedBy(StringsInOrder, sorted) && text == Join(sorted);
    JoinLength(sorted);
    TotalBytesPermutes(sorted, e.operations);
  }

  function Max(a: int, b: int): int {
    if a < b then b else a
  }

  ghost predicate Shows(line: Line, colWidth: int, opColWidth: int, row: Row) {
    && row.prefix == line.prefix && row.subject == FormatSubject(line.entry) && row.age == line.entry.age
    && row.padding == Max(colWidth - Width(line), 2)
    && ShowsOperations(line.entry, row.operations)
    && row.opPadding == Max(opColWidth - Bytes(row.operations), 0)
  }

  ghost predicate ShowsAll(lines: seq<Line>, colWidth: int, opColWidth: int, rows: seq<Row>) {
    |rows| == |lines| && forall i :: 0 <= i < |rows| ==> Shows(lines[i], colWidth, opColWidth, rows[i])
  }

  method SortOperations(e: Entry) returns (text: string)
    ensures ShowsOperations(e, text)
  {
    StringsAreOrdered(e.operations);
    var sorted := SortFunc(e.operations, StringsInOrder);
    text := Join(sorted);
  }

  lemma StringsAreOrdered(words: seq<string>)
    ensures TotalPreorder(StringsInOrder, words)
  {
    forall a, b | a in words && b in words
      ensures StringsInOrder(a, b) || StringsInOrder(b, a)
    {
      CompareIsAntisymmetric(a, b);
    }
    forall a, b, c | a in words && b in words && c in words && StringsInOrder(a, b) && StringsInOrder(b, c)
      ensures StringsInOrder(a, c)
    {
      CompareIsTransitive(a, b, c);
    }
  }

  method OperationsWidth(e: Entry) returns (width: nat)
    ensures width == OpsWidth(e)
  {
    var text := SortOperations(e);
    ShownWidth(e, text);
    width := Bytes(text);
  }

  // ----- the two passes over a tree

  ghost predicate IsMaxWidth(lines: seq<Line>, w: int) {
    (forall l <- lines :: Width(l) <= w) && exists l :: l in lines && Width(l) == w
  }

  lemma MaxWidthOfBoth(a: seq<Line>, v: int, b: seq<Line>, w: int)
    requires IsMaxWidth(a, v) && IsMaxWidth(b, w)
    ensures IsMaxWidth(a + b, Max(v, w))
  {
    var l :| l in a && Width(l) == v;
    var m :| m in b && Width(m) == w;
    assert l in a + b && m in a + b;
  }

  /** The lines of a node are those done and those of the children from the i-th on. */
  ghost predicate Remain(
    n: EntryTree, linePrefix: string, childPrefix: string, done: seq<Line>, i: nat)
    requires i <= |n.children|
  {
    Lines(n, linePrefix, childPrefix) == done + LinesAll(n.children[i..], childPrefix)
  }

  lemma NextChild(n: EntryTree, linePrefix: string, childPrefix: string, done: seq<Line>, i: nat, below: seq<Line>)
    requires i < |n.children| && Remain(n, linePrefix, childPrefix, done, i)
    requires var isLast := i == |n.children| - 1;
      below == Lines(n.children[i], childPrefix + Connector(isLast), childPrefix + NextPrefix(isLast))
    ensures Remain(n, linePrefix, childPrefix, done + below, i + 1)
  {
    var ts := n.children;
    assert ts[i..][0] == ts[i] && ts[i..][1..] == ts[i + 1..];
    assert LinesAll(ts[i..], childPrefix) == below + LinesAll(ts[i + 1..], childPrefix);
  }

  lemma NoneRemain(n: EntryTree, linePrefix: string, childPrefix: string, done: seq<Line>)
    requires Remain(n, linePrefix, childPrefix, done, |n.children|)
    ensures done == Lines(n, linePrefix, childPrefix)
  {
    assert n.children[|n.children|..] == [];
  }

  /** The widest line of a subtree. */
  method ComputeMaxWidth(n: EntryTree, linePrefix: string, childPrefix: string) returns (maxW: int)
    ensures IsMaxWidth(Lines(n, linePrefix, childPrefix), maxW)
  {
    maxW := |linePrefix| + Bytes(FormatSubject(n.node));
    ghost var done := [Line(linePrefix, n.node)];
    assert done[0] in done;
    for i := 0 to |n.children|
      invariant Remain(n, linePrefix, childPrefix, done, i)
      invariant IsMaxWidth(done, maxW)
    {
      var isLast := i == |n.children| - 1;
      var connector, nextPrefix := childPrefix + Connector(isLast), childPrefix + NextPrefix(isLast);
      var w := ComputeMaxWidth(n.children[i], connector, nextPrefix);
      ghost var below := Lines(n.children[i], connector, nextPrefix);
      NextChild(n, linePrefix, childPrefix, done, i, below);
      MaxWidthOfBoth(done, maxW, below, w);
      done := done + below;
      if w > maxW {
        maxW := w;
      }
    }
    NoneRemain(n, linePrefix, childPrefix, done);
  }

  ghost predicate IsMaxOpsWidth(entries: seq<Entry>, w: int) {
    (forall e <- entries :: OpsWidth(e) <= w) && exists e :: e in entries && OpsWidth(e) == w
  }

  lemma MaxOpsWidthOfBoth(a: seq<Entry>, v: int, b: seq<Entry>, w: int)
    requires IsMaxOpsWidth(a, v) && IsMaxOpsWidth(b, w)
    ensures IsMaxOpsWidth(a + b, Max(v, w))
  {
    var l :| l in a && OpsWidth(l) == v;
    var m :| m in b && OpsWidth(m) == w;
    assert l in a + b && m in a + b;
  }

  method ComputeMaxOpsWidth(n: EntryTree) returns (maxW: int)
    ensures IsMaxOpsWidth(Preorder(n), maxW)
  {
    maxW := OperationsWidth(n.node);
    ghost var done := [n.node];
    assert done[0] in done;
    for i := 0 to |n.children|
      invariant Preorder(n) == done + PreorderAll(n.children[i..])
      invariant IsMaxOpsWidth(done, maxW)
    {
      var w := ComputeMaxOpsWidth(n.children[i]);
      ghost var below := Preorder(n.children[i]);
      assert n.children[i..][0] == n.children[i] && n.children[i..][1..] == n.children[i + 1..];
      MaxOpsWidthOfBoth(done, maxW, below, w);
      done := done + below;
      if w > maxW {
        maxW := w;
      }
    }
    assert done == Preorder(n);
  }

  /** printSubtree's own row. */
  method PrintLine(e: Entry, linePrefix: string, colWidth: int, opColWidth: int) returns (row: Row)
    ensures Shows(Line(linePrefix, e), colWidth, opColWidth, row)
  {
    var subject := FormatSubject(e);
    var operations := SortOperations(e);
    var plainOpsWidth := OperationsWidth(e);
    ShownWidth(e, operations);
    var padding := Max(colWidth - |linePrefix| - Bytes(subject), 2);
    var opPadding := Max(opColWidth - plainOpsWidth, 0);
    row := Row(linePrefix, subject, padding, operations, opPadding, e.age);
  }

  /** Prints one row for every line of the subtree, in order. */
  method PrintSubtree(n: EntryTree, linePrefix: string, childPrefix: string, colWidth: int, opColWidth: int)
    returns (rows: seq<Row>)
    ensures ShowsAll(Lines(n, linePrefix, childPrefix), colWidth, opColWidth, rows)
  {
    var row := PrintLine(n.node, linePrefix, colWidth, opColWidth);
    rows := [row];
    ghost var done := [Line(linePrefix, n.node)];
    for i := 0 to |n.children|
      invariant Remain(n, linePrefix, childPrefix, done, i)
      invariant ShowsAll(done, colWidth, opColWidth, rows)
    {
      var isLast := i == |n.children| - 1;
      var connector, nextPrefix := childPrefix + Connector(isLast), childPrefix + NextPrefix(isLast);
      var below := PrintSubtree(n.children[i], connector, nextPrefix, colWidth, opColWidth);
      ghost var lines := Lines(n.children[i], connector, nextPrefix);
      NextChild(n, linePrefix, childPrefix, done, i, lines);
      done := done + lines;
      rows := rows + below;
    }
    NoneRemain(n, linePrefix, childPrefix, done);
  }

  /** Where a row puts its operations and its age in columns wide enough: short of the columns by what
      its subject and its operations have more bytes than characters. */
  ghost predicate Placed(r: Row, colWidth: int, opColWidth: int) {
    && r.padding >= 2
    && r.OperationColumn() == colWidth - (Bytes(r.subject) - |r.subject|)
    && r.AgeColumn() == r.OperationColumn() + opColWidth + 2 - (Bytes(r.operations) - |r.operations|)
  }

  /** Columns wide enough for the lines make every row put its operations and its age at the same place,
      but for bytes that are not characters. */
  lemma RowsAreAligned(lines: seq<Line>, colWidth: int, opColWidth: int, rows: seq<Row>)
    requires ShowsAll(lines, colWidth, opColWidth, rows)
    requires forall l <- lines :: Width(l) + 2 <= colWidth && OpsWidth(l.entry) <= opColWidth
    ensures forall r <- rows :: Placed(r, colWidth, opColWidth)
  {
    forall r | r in rows
      ensures Placed(r, colWidth, opColWidth)
    {
      var i :| 0 <= i < |rows| && rows[i] == r;
      assert Shows(lines[i], colWidth, opColWidth, rows[i]) && lines[i] in lines;
      ShownWidth(lines[i].entry, r.operations);
    }
  }

  /** A row so placed is exactly in the columns if, and only if, what it shows is ASCII. */
  lemma AlignedIffAscii(r: Row, colWidth: int, opColWidth: int)
    requires Placed(r, colWidth, opColWidth)
    ensures r.OperationColumn() == colWidth <==> Ascii(r.subject)
    ensures r.AgeColumn() == colWidth + opColWidth + 2 <==> Ascii(r.subject) && Ascii(r.operations)
  {
    BytesOfAscii(r.subject);
    BytesOfAscii(r.operations);
  }

  function PodNamed(name: string): Entry {
    Entry("", "default", "Pod", name, ["Starting"], "1m")
  }

  /** Two pods, one of which has a name that is not ASCII: whatever columns fit, their rows differ by one place. */
  lemma AccentMisaligns(colWidth: int, opColWidth: int, rows: seq<Row>)
    requires ShowsAll([Line("", PodNamed("a")), Line("", PodNamed("\U{00E9}"))], colWidth, opColWidth, rows)
    requires 8 <= colWidth
    ensures rows[0].OperationColumn() == colWidth && rows[1].OperationColumn() == colWidth - 1
  {
    var lines := [Line("", PodNamed("a")), Line("", PodNamed("\U{00E9}"))];
    assert Shows(lines[0], colWidth, opColWidth, rows[0]) && Shows(lines[1], colWidth, opColWidth, rows[1]);
    PodWidth("a", 1);
    PodWidth("\U{00E9}", 2);
  }

  lemma PodWidth(name: string, bytes: nat)
    requires |name| == 1 && BytesOfChar(name[0]) == bytes
    ensures |FormatSubject(PodNamed(name))| == 5 && Bytes(FormatSubject(PodNamed(name))) == 4 + bytes
  {
    BytesOfAscii("Pod/");
    BytesConcat("Pod/", name);
    assert FormatSubject(PodNamed(name)) == "Pod/" + name;
    assert name[..0] == "" && Bytes(name) == Bytes(name[..0]) + bytes;
  }
}
