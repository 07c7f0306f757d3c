/** The graph builder of the `sqitch-visualizer.loadSqitchPlanGraph` command:
    one Mermaid node per change, one edge per requirement, and the text of a
    `graph LR` flowchart. Nothing is checked: edges may name changes that
    have no node, and equal edges are kept. */
module GraphBuilder {
  import opened JsStrings
  import opened PlanParser

  /** A node; `caption` is the source's `label` (a keyword here), and `title`
      carries the description but is never rendered. */
  datatype Node = Node(id: string, caption: string, title: string)

  /** An edge from a requirement to the change that requires it. */
  datatype Edge = Edge(from: string, to: string)

  // ---------------------------------------------------------------------
  // Nodes
  // ---------------------------------------------------------------------

  /** One node per change, in order: id and caption are the name, title the
      description. */
  function BuildNodes(changes: seq<Change>): (nodes: seq<Node>)
    ensures |nodes| == |changes|
    ensures forall i :: 0 <= i < |changes| ==>
      nodes[i] == Node(changes[i].name, changes[i].name, changes[i].description)
  {
    if changes == [] then []
    else
      var c := changes[0];
      [Node(c.name, c.name, c.description)] + BuildNodes(changes[1..])
  }

  // ---------------------------------------------------------------------
  // Edges
  // ---------------------------------------------------------------------

  /** The edges one change contributes: one per requirement, in requirement
      order, each ending at the change. */
  function EdgesFrom(reqs: seq<string>, to: string): (edges: seq<Edge>)
    ensures |edges| == |reqs|
    ensures forall j :: 0 <= j < |reqs| ==> edges[j] == Edge(reqs[j], to)
  {
    if reqs == [] then [] else [Edge(reqs[0], to)] + EdgesFrom(reqs[1..], to)
  }

  /** Adding a requirement at the end adds its edge at the end. */
  lemma EdgesFromSnoc(reqs: seq<string>, to: string)
    requires reqs != []
    ensures EdgesFrom(reqs, to) == EdgesFrom(reqs[..|reqs| - 1], to) + [Edge(reqs[|reqs| - 1], to)]
  {
  }

  /** All edges: the edges of each change, change after change. */
  function EdgesOf(changes: seq<Change>): seq<Edge>
  {
    if changes == [] then []
    else EdgesFrom(changes[0].requirements, changes[0].name) + EdgesOf(changes[1..])
  }

  /** The number of requirements over all changes. */
  function TotalRequirements(changes: seq<Change>): nat
  {
    if changes == [] then 0 else |changes[0].requirements| + TotalRequirements(changes[1..])
  }

  /** The edges of a concatenation are the edges of each part in turn. */
  lemma {:induction false} EdgesOfAppend(a: seq<Change>, b: seq<Change>)
    ensures EdgesOf(a + b) == EdgesOf(a) + EdgesOf(b)
    ensures TotalRequirements(a + b) == TotalRequirements(a) + TotalRequirements(b)
  {
    if a == [] {
      assert a + b == b;
    } else {
      assert (a + b)[0] == a[0];
      assert (a + b)[1..] == a[1..] + b;
      EdgesOfAppend(a[1..], b);
    }
  }

  /** There is one edge per requirement: no deduplication, nothing dropped. */
  lemma {:induction false} EdgeCount(changes: seq<Change>)
    ensures |EdgesOf(changes)| == TotalRequirements(changes)
  {
    if changes != [] {
      EdgeCount(changes[1..]);
    }
  }

  /** Where each edge sits: the edge for requirement `j` of change `i` comes
      after all edges of the changes before `i` and the first `j` edges of
      change `i`, so edges are ordered by change, then by requirement. */
  lemma {:induction false} EdgeAt(changes: seq<Change>, i: nat, j: nat)
    requires i < |changes| && j < |changes[i].requirements|
    ensures var k := TotalRequirements(changes[..i]) + j;
      k < |EdgesOf(changes)| && EdgesOf(changes)[k] == Edge(changes[i].requirements[j], changes[i].name)
  {
    var before, rest := changes[..i], changes[i..];
    assert changes == before + rest;
    EdgesOfAppend(before, rest);
    EdgeCount(before);
    assert rest[0] == changes[i];
  }

  /** An edge is present exactly when its source is a requirement of the
      change its target names. */
  lemma {:induction false} EdgeMembers(changes: seq<Change>, e: Edge)
    ensures e in EdgesOf(changes) <==>
      exists i, j :: 0 <= i < |changes| && 0 <= j < |changes[i].requirements| &&
        e == Edge(changes[i].requirements[j], changes[i].name)
  {
    if changes != [] {
      EdgeMembers(changes[1..], e);
      var c := changes[0];
      if e in EdgesFrom(c.requirements, c.name) {
        var j :| 0 <= j < |c.requirements| && EdgesFrom(c.requirements, c.name)[j] == e;
        assert e == Edge(changes[0].requirements[j], changes[0].name);
      } else if e in EdgesOf(changes[1..]) {
        var i, j :| 0 <= i < |changes[1..]| && 0 <= j < |changes[1..][i].requirements| &&
          e == Edge(changes[1..][i].requirements[j], changes[1..][i].name);
        assert changes[1..][i] == changes[i + 1];
      } else {
        forall i, j | 0 <= i < |changes| && 0 <= j < |changes[i].requirements|
          ensures e != Edge(changes[i].requirements[j], changes[i].name)
        {
          if i == 0 {
            assert EdgesFrom(c.requirements, c.name)[j] == Edge(c.requirements[j], c.name);
          } else {
            assert changes[1..][i - 1] == changes[i];
          }
        }
      }
    }
  }

  /** The nested `forEach` loops: walk the changes, and within each change
      its requirements, appending one edge per requirement. */
  method BuildEdges(changes: seq<Change>) returns (edges: seq<Edge>)
    ensures edges == EdgesOf(changes)
  {
    edges := [];
    for i := 0 to |changes|
      invariant edges == EdgesOf(changes[..i])
    {
      var change := changes[i];
      for j := 0 to |change.requirements|
        invariant edges == EdgesOf(changes[..i]) + EdgesFrom(change.requirements[..j], change.name)
      {
        EdgesFromSnoc(change.requirements[..j + 1], change.name);
        assert change.requirements[..j + 1][..j] == change.requirements[..j];
        AppendSnoc(EdgesOf(changes[..i]), EdgesFrom(change.requirements[..j], change.name),
          Edge(change.requirements[j], change.name));
        edges := edges + [Edge(change.requirements[j], change.name)];
      }
      assert change.requirements[..|change.requirements|] == change.requirements;
      assert changes[..i + 1] == changes[..i] + [change];
      EdgesOfAppend(changes[..i], [change]);
      EdgesOfSingle(change);
    }
    assert changes[..|changes|] == changes;
  }

  /** The edges of a single change are its own edges. */
  lemma EdgesOfSingle(change: Change)
    ensures EdgesOf([change]) == EdgesFrom(change.requirements, change.name)
  {
    assert [change][1..] == [];
  }

  lemma AppendSnoc<T>(a: seq<T>, b: seq<T>, x: T)
    ensures a + b + [x] == a + (b + [x])
  {
  }

  // ---------------------------------------------------------------------
  // Mermaid text
  // ---------------------------------------------------------------------

  /** The first line of the flowchart and the two tabs that indent the next. */
  const Header := "graph LR\n\t\t"

  /** `${node.id}[${node.caption}]` */
  function NodeLine(node: Node): string
  {
    node.id + "[" + node.caption + "]"
  }

  /** `${edge.from} --> ${edge.to}` */
  function EdgeLine(edge: Edge): string
  {
    edge.from + " --> " + edge.to
  }

  function NodeLines(nodes: seq<Node>): seq<string>
  {
    seq(|nodes|, i requires 0 <= i < |nodes| => NodeLine(nodes[i]))
  }

  function EdgeLines(edges: seq<Edge>): seq<string>
  {
    seq(|edges|, i requires 0 <= i < |edges| => EdgeLine(edges[i]))
  }

  /** The template literal: the header, the node lines joined by `\n`, a line
      break and two tabs, the edge lines joined by `\n`, a line break and two
      tabs. */
  function GraphText(nodes: seq<Node>, edges: seq<Edge>): (text: string)
    ensures Header <= text
    ensures text[|text| - 3..] == "\n\t\t"
  {
    Header + Join(NodeLines(nodes), "\n") + "\n\t\t" + Join(EdgeLines(edges), "\n") + "\n\t\t"
  }

  /** With no changes the text is the header and two empty indented lines. */
  lemma EmptyGraphText()
    ensures GraphText([], []) == "graph LR\n\t\t\n\t\t\n\t\t"
  {
  }

  /** A block of lines as it appears in the text: the first line carries the
      template's two tabs; an empty block still leaves the two tabs alone. */
  function Indented(lines: seq<string>): seq<string>
  {
    if lines == [] then ["\t\t"] else ["\t\t" + lines[0]] + lines[1..]
  }

  /** A block of single-line entries, joined and indented, splits back into
      its lines. */
  lemma SplitIndented(lines: seq<string>)
    requires forall i :: 0 <= i < |lines| ==> '\n' !in lines[i]
    ensures Split("\t\t" + Join(lines, "\n"), '\n') == Indented(lines)
  {
    assert '\n' !in "\t\t";
    SplitPrefixed("\t\t", lines, '\n');
  }

  /** The general form: a separator-free prefix glued to the first piece. */
  lemma SplitPrefixed(prefix: string, lines: seq<string>, sep: char)
    requires sep !in prefix
    requires forall i :: 0 <= i < |lines| ==> sep !in lines[i]
    ensures Split(prefix + Join(lines, [sep]), sep) ==
      if lines == [] then [prefix] else [prefix + lines[0]] + lines[1..]
  {
    if lines == [] {
      assert prefix + Join(lines, [sep]) == prefix;
      SplitWithoutSeparator(prefix, sep);
    } else {
      var shifted := [prefix + lines[0]] + lines[1..];
      assert shifted[0] == prefix + lines[0] && shifted[1..] == lines[1..];
      if |lines| > 1 {
        assert Join(lines, [sep]) == lines[0] + [sep] + Join(lines[1..], [sep]);
        assert Join(shifted, [sep]) == shifted[0] + [sep] + Join(lines[1..], [sep]);
      }
      assert prefix + Join(lines, [sep]) == Join(shifted, [sep]);
      SplitJoin(shifted, sep);
    }
  }

  /** Read back line by line, the text is the header line, one line per node
      in order, one line per edge in order, and a last line of two tabs,
      provided no name breaks a line. */
  lemma GraphTextLines(nodes: seq<Node>, edges: seq<Edge>)
    requires forall i :: 0 <= i < |nodes| ==> '\n' !in nodes[i].id && '\n' !in nodes[i].caption
    requires forall i :: 0 <= i < |edges| ==> '\n' !in edges[i].from && '\n' !in edges[i].to
    ensures Split(GraphText(nodes, edges), '\n') ==
      ["graph LR"] + Indented(NodeLines(nodes)) + Indented(EdgeLines(edges)) + ["\t\t"]
  {
    var nodeText, edgeText := Join(NodeLines(nodes), "\n"), Join(EdgeLines(edges), "\n");
    TemplateBlocks(nodeText, edgeText);
    SplitIndented(NodeLines(nodes));
    SplitIndented(EdgeLines(edges));
    SplitFourBlocks("graph LR", "\t\t" + nodeText, "\t\t" + edgeText, "\t\t", '\n');
    HeaderLines();
  }

  /** The header line and the closing tabs hold no line break. */
  lemma HeaderLines()
    ensures Split("graph LR", '\n') == ["graph LR"] && Split("\t\t", '\n') == ["\t\t"]
  {
    SplitWithoutSeparator("graph LR", '\n');
    SplitWithoutSeparator("\t\t", '\n');
  }

  /** The template regrouped as four blocks separated by line breaks: the
      header line, the indented node block, the indented edge block, and the
      closing tabs. */
  lemma TemplateBlocks(nodeText: string, edgeText: string)
    ensures Header + nodeText + "\n\t\t" + edgeText + "\n\t\t" ==
      "graph LR" + ['\n'] + ("\t\t" + nodeText + ['\n'] + ("\t\t" + edgeText + ['\n'] + "\t\t"))
  {
  }

  /** Splitting four blocks joined by three separators splits each block. */
  lemma SplitFourBlocks(a: string, b: string, c: string, d: string, sep: char)
    ensures Split(a + [sep] + (b + [sep] + (c + [sep] + d)), sep) ==
      Split(a, sep) + Split(b, sep) + Split(c, sep) + Split(d, sep)
  {
    var bcd := b + [sep] + (c + [sep] + d);
    SplitAround(a, sep, bcd);
    SplitThreeBlocks(b, c, d, sep);
  }

  /** Splitting three blocks joined by two separators splits each block. */
  lemma SplitThreeBlocks(b: string, c: string, d: string, sep: char)
    ensures Split(b + [sep] + (c + [sep] + d), sep) == Split(b, sep) + Split(c, sep) + Split(d, sep)
  {
    SplitAround(c, sep, d);
    SplitAround(b, sep, c + [sep] + d);
  }
}
