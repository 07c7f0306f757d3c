/** The whole `sqitch-visualizer.loadSqitchPlanGraph` pipeline, from the text
    of a plan file to the text of a Mermaid flowchart, and what it does with
    typical and unusual plan lines. */
module PlanGraph {
  import opened JsStrings
  import opened PlanParser
  import opened GraphBuilder

  /** The body of the command between reading the document and opening the
      panel: parse the plan, build nodes and edges, render the flowchart.
      The command fails exactly when some kept line has no space, with the
      error of the first such line. */
  method LoadPlanGraph(text: string) returns (r: Result<string>)
    ensures var lines := KeptLines(Split(text, '\n'));
      r.Ok? <==> forall i :: 0 <= i < |lines| ==> ' ' in lines[i]
    ensures r.Err? ==> exists i :: (FirstFailing(KeptLines(Split(text, '\n')), i) &&
      r.error == UndefinedToken(KeptLines(Split(text, '\n'))[i]))
    ensures r.Ok? ==> ParsePlan(text).Ok?
    ensures r.Ok? ==> var changes := ParsePlan(text).value;
      r.value == GraphText(BuildNodes(changes), EdgesOf(changes))
  {
    var parsed := ParsePlan(text);
    if parsed.Err? {
      return Err(parsed.error);
    }
    var changes := parsed.value;
    var nodes := BuildNodes(changes);
    var edges := BuildEdges(changes);
    r := Ok(GraphText(nodes, edges));
  }

  /** For every plan that parses, the flowchart read back line by line is the
      header, one `name[name]` line per change in plan order, one
      `requirement --> name` line per requirement, and two closing tabs. */
  lemma PlanGraphLines(text: string)
    requires ParsePlan(text).Ok?
    ensures var changes := ParsePlan(text).value;
      Split(GraphText(BuildNodes(changes), EdgesOf(changes)), '\n') ==
        ["graph LR"] + Indented(NodeLines(BuildNodes(changes))) +
        Indented(EdgeLines(EdgesOf(changes))) + ["\t\t"]
  {
    var changes := ParsePlan(text).value;
    var nodes, edges := BuildNodes(changes), EdgesOf(changes);
    ParsePlanSingleLine(text);
    forall k | 0 <= k < |edges| ensures '\n' !in edges[k].from && '\n' !in edges[k].to {
      assert edges[k] in edges;
      EdgeMembers(changes, edges[k]);
    }
    GraphTextLines(nodes, edges);
  }

  /** Two changes, the second requiring the first: two node lines and one edge. */
  lemma TwoChangeGraph(a: string, b: string, da: string, db: string)
    ensures var changes := [Change(a, [], da), Change(b, [a], db)];
      EdgesOf(changes) == [Edge(a, b)] &&
      GraphText(BuildNodes(changes), EdgesOf(changes)) ==
        "graph LR\n\t\t" + (a + "[" + a + "]" + "\n" + b + "[" + b + "]") + "\n\t\t" + (a + " --> " + b) + "\n\t\t"
  {
    var changes := [Change(a, [], da), Change(b, [a], db)];
    TwoChangeEdges(a, b, da, db);
    TwoChangeNodes(a, b, da, db);
    var edgeLines := EdgeLines([Edge(a, b)]);
    assert edgeLines == [a + " --> " + b];
    assert Join(edgeLines, "\n") == a + " --> " + b;
  }

  /** The only edge of the two-change plan runs from the first to the second. */
  lemma TwoChangeEdges(a: string, b: string, da: string, db: string)
    ensures EdgesOf([Change(a, [], da), Change(b, [a], db)]) == [Edge(a, b)]
  {
    var changes := [Change(a, [], da), Change(b, [a], db)];
    assert changes[1..] == [Change(b, [a], db)] && changes[1..][1..] == [];
    assert EdgesFrom([a], b) == [Edge(a, b)];
    assert EdgesOf(changes[1..]) == [Edge(a, b)] + EdgesOf([]);
    assert EdgesOf(changes) == EdgesFrom([], a) + EdgesOf(changes[1..]);
  }

  /** The node lines of the two-change plan, joined. */
  lemma TwoChangeNodes(a: string, b: string, da: string, db: string)
    ensures Join(NodeLines(BuildNodes([Change(a, [], da), Change(b, [a], db)])), "\n") ==
      a + "[" + a + "]" + "\n" + b + "[" + b + "]"
  {
    var nodeLines := NodeLines(BuildNodes([Change(a, [], da), Change(b, [a], db)]));
    assert nodeLines == [a + "[" + a + "]", b + "[" + b + "]"];
    assert nodeLines[1..] == [b + "[" + b + "]"];
  }
}
