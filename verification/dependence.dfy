/** The state-dependence extractor: which compartments each flow's rate
    expression reads. Compartments are matched by label text; the expression
    parser is a parameter, returning the names of the expression's symbol
    nodes in order (with repeats), or None for a parse error. Screen
    coordinates of the rows are a rendering concern and are not modelled. */
module Dependence {
  import opened Wrappers
  import opened Graph

  /** One row of the dependence frame: flow `flow` reads compartment `state`. */
  datatype Row = Row(state: string, flow: string)

  /** The expression parser: the symbol names of an expression in order, or
      None when it does not parse. */
  type Parser = string -> Option<seq<string>>

  /** `text` is the non-empty label of some node. */
  ghost predicate IsLabel(nodes: seq<Node>, text: string)
  {
    text != "" && exists j :: 0 <= j < |nodes| && nodes[j].text == text
  }

  /** The compartment set: the non-empty labels of all nodes. */
  function Compartments(nodes: seq<Node>): (r: set<string>)
    ensures forall text :: text in r <==> IsLabel(nodes, text)
  {
    if |nodes| == 0 then {}
    else
      var init := nodes[..|nodes| - 1];
      var last := nodes[|nodes| - 1].text;
      assert forall j :: 0 <= j < |init| ==> init[j] == nodes[j];
      Compartments(init) + (if last != "" then {last} else {})
  }

  /** The `if (stateNode)` test never fails: every compartment is the label
      of some node, so the lookup by label finds one. */
  lemma CompartmentHasNode(nodes: seq<Node>, v: string)
    requires v in Compartments(nodes)
    ensures FindByLabel(nodes, v).Some?
    ensures FindByLabel(nodes, v).value.text == v
  {
  }

  /** `varsInRate`: the parser's symbols, or none when parsing fails. */
  function SymbolsOf(parse: Parser, expr: string): (vs: seq<string>)
    ensures parse(expr).Some? ==> vs == parse(expr).value
    ensures parse(expr).None? ==> vs == []
  {
    match parse(expr)
    case Some(vs) => vs
    case None => []
  }

  /** The label of the edge's target node, or "" when there is none. */
  function TargetLabel(nodes: seq<Node>, e: Edge): string
  {
    match FindNode(nodes, e.target)
    case Some(n) => n.text
    case None => ""
  }

  /** The guard of the loop: an edge is skipped when its target or source
      node is missing, the target's label is empty, or it has no rate
      expression. */
  predicate Skipped(nodes: seq<Node>, e: Edge)
  {
    TargetLabel(nodes, e) == "" || e.rate == "" || FindNode(nodes, e.source).None? || FindNode(nodes, e.target).None?
  }

  /** The inner loop: one row per symbol that is a compartment, in symbol order. */
  function RowsFor(nodes: seq<Node>, comps: set<string>, vars: seq<string>, flow: string): (r: seq<Row>)
    ensures |r| <= |vars|
    ensures forall k :: 0 <= k < |r| ==> r[k].state in comps && r[k].state in vars && r[k].flow == flow
  {
    if |vars| == 0 then []
    else
      var v := vars[|vars| - 1];
      var prior := RowsFor(nodes, comps, vars[..|vars| - 1], flow);
      if v in comps && FindByLabel(nodes, v).Some? then prior + [Row(v, flow)] else prior
  }

  /** The rows one edge contributes. */
  function EdgeRows(nodes: seq<Node>, comps: set<string>, e: Edge, parse: Parser): seq<Row>
  {
    if Skipped(nodes, e) then []
    else RowsFor(nodes, comps, SymbolsOf(parse, e.rate), FlowNameOf(e))
  }

  /** The rows of all edges, in edge order. */
  function FrameWith(nodes: seq<Node>, comps: set<string>, edges: seq<Edge>, parse: Parser): seq<Row>
  {
    if |edges| == 0 then []
    else FrameWith(nodes, comps, edges[..|edges| - 1], parse) + EdgeRows(nodes, comps, edges[|edges| - 1], parse)
  }

  /** `getStateDependenceFrame`, without the coordinate fields. */
  function Frame(nodes: seq<Node>, edges: seq<Edge>, parse: Parser): seq<Row>
  {
    FrameWith(nodes, Compartments(nodes), edges, parse)
  }

  /** The inner loop of `getStateDependenceFrame`: the rows for one edge's
      symbols. */
  method SymbolRows(nodes: seq<Node>, compartments: set<string>, varsInRate: seq<string>, flowName: string)
    returns (rows: seq<Row>)
    ensures rows == RowsFor(nodes, compartments, varsInRate, flowName)
  {
    rows := [];
    var j := 0;
    while j < |varsInRate|
      invariant 0 <= j <= |varsInRate|
      invariant rows == RowsFor(nodes, compartments, varsInRate[..j], flowName)
    {
      var v := varsInRate[j];
      RowsForPrefix(nodes, compartments, varsInRate, j, flowName);
      if v in compartments {
        var stateNode := FindByLabel(nodes, v);
        if stateNode.Some? {
          rows := rows + [Row(v, flowName)];
        }
      }
      j := j + 1;
    }
    assert varsInRate[..j] == varsInRate;
  }

  lemma RowsForPrefix(nodes: seq<Node>, comps: set<string>, vars: seq<string>, j: int, flow: string)
    requires 0 <= j < |vars|
    ensures RowsFor(nodes, comps, vars[..j + 1], flow)
         == RowsFor(nodes, comps, vars[..j], flow)
          + (if vars[j] in comps && FindByLabel(nodes, vars[j]).Some? then [Row(vars[j], flow)] else [])
  {
    assert vars[..j + 1][..j] == vars[..j];
  }

  lemma KeptEdgeRows(nodes: seq<Node>, comps: set<string>, e: Edge, parse: Parser)
    requires !Skipped(nodes, e)
    ensures EdgeRows(nodes, comps, e, parse) == RowsFor(nodes, comps, SymbolsOf(parse, e.rate), FlowNameOf(e))
  {
  }

  lemma FrameWithPrefix(nodes: seq<Node>, comps: set<string>, edges: seq<Edge>, i: int, parse: Parser)
    requires 0 <= i < |edges|
    ensures FrameWith(nodes, comps, edges[..i + 1], parse)
         == FrameWith(nodes, comps, edges[..i], parse) + EdgeRows(nodes, comps, edges[i], parse)
  {
    assert edges[..i + 1][..i] == edges[..i];
  }

  /** The loop of `getStateDependenceFrame` with the intended guard (a flow
      with a missing endpoint is skipped rather than aborting): a loop over the
      edges, and for each edge that passes the guard the rows for the
      symbols of its rate expression. */
  method StateDependenceFrame(nodes: seq<Node>, edges: seq<Edge>, parse: Parser) returns (rows: seq<Row>)
    ensures rows == Frame(nodes, edges, parse)
  {
    var compartments := Compartments(nodes);
    rows := [];
    var i := 0;
    while i < |edges|
      invariant 0 <= i <= |edges|
      invariant rows == FrameWith(nodes, compartments, edges[..i], parse)
    {
      FrameWithPrefix(nodes, compartments, edges, i, parse);
      var more := EdgeStep(nodes, compartments, edges[i], parse);
      rows := rows + more;
      i := i + 1;
    }
    assert edges[..i] == edges;
  }

  /** The body of the edge loop: the guard, the parse (an empty symbol list
      when it fails) and the inner loop. */
  method EdgeStep(nodes: seq<Node>, compartments: set<string>, edge: Edge, parse: Parser) returns (more: seq<Row>)
    ensures more == EdgeRows(nodes, compartments, edge, parse)
  {
    var toNode := FindNode(nodes, edge.target);
    var fromNode := FindNode(nodes, edge.source);
    var toLabel := if toNode.Some? then toNode.value.text else "";
    var flowName := FlowNameOf(edge);
    var rateExpr := edge.rate;
    if toLabel != "" && rateExpr != "" && fromNode.Some? && toNode.Some? {
      var varsInRate: seq<string>;
      match parse(rateExpr) {
        case Some(vs) => varsInRate := vs;
        case None => varsInRate := [];
      }
      assert varsInRate == SymbolsOf(parse, edge.rate);
      assert TargetLabel(nodes, edge) == toLabel;
      KeptEdgeRows(nodes, compartments, edge, parse);
      more := SymbolRows(nodes, compartments, varsInRate, flowName);
    } else {
      assert Skipped(nodes, edge);
      more := [];
    }
  }

  // ---------------------------------------------------------------------
  // Properties of the dependence frame

  /** The symbols of `vars` that are in `comps`, in order, repeats kept. */
  function Keep(vars: seq<string>, comps: set<string>): seq<string>
  {
    if |vars| == 0 then []
    else (if vars[0] in comps then [vars[0]] else []) + Keep(vars[1..], comps)
  }

  /** Each kept symbol as a row of flow `flow`. */
  function Tag(vs: seq<string>, flow: string): (r: seq<Row>)
    ensures |r| == |vs|
    ensures forall k :: 0 <= k < |vs| ==> r[k] == Row(vs[k], flow)
  {
    seq(|vs|, k requires 0 <= k < |vs| => Row(vs[k], flow))
  }

  lemma {:induction false} KeepSnoc(vars: seq<string>, v: string, comps: set<string>)
    ensures Keep(vars + [v], comps) == Keep(vars, comps) + (if v in comps then [v] else [])
  {
    if |vars| == 0 {
      assert vars + [v] == [v];
    } else {
      var head := if vars[0] in comps then [vars[0]] else [];
      assert (vars + [v])[0] == vars[0];
      assert (vars + [v])[1..] == vars[1..] + [v];
      KeepSnoc(vars[1..], v, comps);
      assert Keep(vars + [v], comps) == head + Keep(vars[1..] + [v], comps);
    }
  }

  /** A symbol is kept exactly when it occurs and is a compartment. */
  lemma {:induction false} KeepMember(vars: seq<string>, comps: set<string>, v: string)
    ensures v in Keep(vars, comps) <==> v in vars && v in comps
  {
    if |vars| > 0 {
      KeepMember(vars[1..], comps, v);
      assert vars == [vars[0]] + vars[1..];
    }
  }

  /** The rows for one edge are exactly the symbols of its rate expression
      that are compartments, in the parser's order and with repeats, each
      tagged with the edge's flow name. */
  lemma {:induction false} RowsForIsKeep(nodes: seq<Node>, vars: seq<string>, flow: string)
    ensures RowsFor(nodes, Compartments(nodes), vars, flow) == Tag(Keep(vars, Compartments(nodes)), flow)
  {
    var comps := Compartments(nodes);
    if |vars| > 0 {
      var init := vars[..|vars| - 1];
      var v := vars[|vars| - 1];
      assert init + [v] == vars;
      var kv := if v in comps then [v] else [];
      RowsForIsKeep(nodes, init, flow);
      if v in comps {
        CompartmentHasNode(nodes, v);
        assert RowsFor(nodes, comps, vars, flow) == RowsFor(nodes, comps, init, flow) + [Row(v, flow)];
      } else {
        assert RowsFor(nodes, comps, vars, flow) == RowsFor(nodes, comps, init, flow);
      }
      assert Tag(kv, flow) == if v in comps then [Row(v, flow)] else [];
      KeepSnoc(init, v, comps);
      TagAppend(Keep(init, comps), kv, flow);
    }
  }

  lemma TagAppend(a: seq<string>, b: seq<string>, flow: string)
    ensures Tag(a + b, flow) == Tag(a, flow) + Tag(b, flow)
  {
  }

  /** An edge contributes no rows exactly when it is skipped by the guard or
      none of its rate expression's symbols is a compartment (in particular
      when the expression does not parse). */
  lemma EdgeRowsEmptyIff(nodes: seq<Node>, e: Edge, parse: Parser)
    ensures EdgeRows(nodes, Compartments(nodes), e, parse) == []
        <==> Skipped(nodes, e) || forall v :: v in SymbolsOf(parse, e.rate) ==> v !in Compartments(nodes)
  {
    var comps := Compartments(nodes);
    var vars := SymbolsOf(parse, e.rate);
    RowsForIsKeep(nodes, vars, FlowNameOf(e));
    if exists v :: v in vars && v in comps {
      var v :| v in vars && v in comps;
      KeepMember(vars, comps, v);
    } else if Keep(vars, comps) != [] {
      KeepMember(vars, comps, Keep(vars, comps)[0]);
    }
  }

  /** The frame of two edge lists placed one after the other is the frame of
      the first followed by the frame of the second: each edge is processed
      on its own, in edge order. */
  lemma {:induction false} FrameAppend(nodes: seq<Node>, comps: set<string>, a: seq<Edge>, b: seq<Edge>, parse: Parser)
    ensures FrameWith(nodes, comps, a + b, parse) == FrameWith(nodes, comps, a, parse) + FrameWith(nodes, comps, b, parse)
  {
    if |b| > 0 {
      var init := b[..|b| - 1];
      assert (a + b)[..|a + b| - 1] == a + init;
      FrameAppend(nodes, comps, a, init, parse);
    } else {
      assert a + b == a;
    }
  }

  /** A flow whose rate expression does not parse, or that the guard skips,
      contributes no rows. */
  lemma NoRowsOnFailure(nodes: seq<Node>, comps: set<string>, e: Edge, parse: Parser)
    requires parse(e.rate).None? || Skipped(nodes, e)
    ensures EdgeRows(nodes, comps, e, parse) == []
  {
    if !Skipped(nodes, e) {
      assert SymbolsOf(parse, e.rate) == [];
    }
  }

  /** A flow whose rate expression does not parse, or that the guard skips,
      contributes nothing, and the edges around it are processed as if it
      were not there. */
  lemma FailureIsolated(nodes: seq<Node>, a: seq<Edge>, e: Edge, b: seq<Edge>, parse: Parser)
    requires parse(e.rate).None? || Skipped(nodes, e)
    ensures Frame(nodes, a + [e] + b, parse) == Frame(nodes, a, parse) + Frame(nodes, b, parse)
  {
    var comps := Compartments(nodes);
    NoRowsOnFailure(nodes, comps, e, parse);
    FrameAppend(nodes, comps, a + [e], b, parse);
    FrameAppend(nodes, comps, a, [e], parse);
    assert [e][..0] == [];
    assert FrameWith(nodes, comps, [e], parse) == [];
    assert FrameWith(nodes, comps, a + [e], parse) == FrameWith(nodes, comps, a, parse);
    assert FrameWith(nodes, comps, a + [e] + b, parse) == FrameWith(nodes, comps, a, parse) + FrameWith(nodes, comps, b, parse);
  }

  /** Every row names a compartment read by the rate expression of an edge
      that passed the guard, and carries that edge's flow name. */
  lemma {:induction false} FrameSound(nodes: seq<Node>, comps: set<string>, edges: seq<Edge>, parse: Parser)
    ensures forall k :: 0 <= k < |FrameWith(nodes, comps, edges, parse)| ==>
      var row := FrameWith(nodes, comps, edges, parse)[k];
      && row.state in comps
      && exists i :: 0 <= i < |edges| && !Skipped(nodes, edges[i])
                     && row.flow == FlowNameOf(edges[i]) && row.state in SymbolsOf(parse, edges[i].rate)
  {
    if |edges| > 0 {
      var n := |edges| - 1;
      var init := edges[..n];
      FrameSound(nodes, comps, init, parse);
      var prior := FrameWith(nodes, comps, init, parse);
      var rows := FrameWith(nodes, comps, edges, parse);
      forall k | 0 <= k < |rows|
        ensures rows[k].state in comps
        ensures exists i :: 0 <= i < |edges| && !Skipped(nodes, edges[i])
                            && rows[k].flow == FlowNameOf(edges[i]) && rows[k].state in SymbolsOf(parse, edges[i].rate)
      {
        if k < |prior| {
          assert rows[k] == prior[k];
          var i :| 0 <= i < |init| && !Skipped(nodes, init[i])
                   && prior[k].flow == FlowNameOf(init[i]) && prior[k].state in SymbolsOf(parse, init[i].rate);
          assert init[i] == edges[i];
        } else {
          assert rows[k] == EdgeRows(nodes, comps, edges[n], parse)[k - |prior|];
        }
      }
    }
  }

  /** The frame is the frame before edge `i`, then the rows of edge `i`,
      then the frame after it. */
  lemma FrameSplitAt(nodes: seq<Node>, comps: set<string>, edges: seq<Edge>, parse: Parser, i: int)
    requires 0 <= i < |edges|
    ensures FrameWith(nodes, comps, edges, parse)
         == FrameWith(nodes, comps, edges[..i], parse) + EdgeRows(nodes, comps, edges[i], parse)
            + FrameWith(nodes, comps, edges[i + 1..], parse)
  {
    var e := edges[i];
    assert edges == edges[..i] + [e] + edges[i + 1..];
    FrameAppend(nodes, comps, edges[..i] + [e], edges[i + 1..], parse);
    FrameAppend(nodes, comps, edges[..i], [e], parse);
    assert [e][..0] == [];
  }

  /** Where the row for compartment `v` sits among the rows of edge `e`. */
  lemma RowOfSymbol(nodes: seq<Node>, e: Edge, parse: Parser, v: string) returns (k: int)
    requires !Skipped(nodes, e)
    requires v in SymbolsOf(parse, e.rate) && v in Compartments(nodes)
    ensures 0 <= k < |EdgeRows(nodes, Compartments(nodes), e, parse)|
    ensures EdgeRows(nodes, Compartments(nodes), e, parse)[k] == Row(v, FlowNameOf(e))
  {
    var comps := Compartments(nodes);
    var vars := SymbolsOf(parse, e.rate);
    RowsForIsKeep(nodes, vars, FlowNameOf(e));
    KeepMember(vars, comps, v);
    var kept := Keep(vars, comps);
    k :| 0 <= k < |kept| && kept[k] == v;
  }

  /** Conversely, every compartment read by the rate expression of an edge
      that passed the guard appears in a row with that edge's flow name. */
  lemma FrameComplete(nodes: seq<Node>, edges: seq<Edge>, parse: Parser, i: int, v: string)
    requires 0 <= i < |edges| && !Skipped(nodes, edges[i])
    requires v in SymbolsOf(parse, edges[i].rate) && v in Compartments(nodes)
    ensures Row(v, FlowNameOf(edges[i])) in Frame(nodes, edges, parse)
  {
    var comps := Compartments(nodes);
    var k := RowOfSymbol(nodes, edges[i], parse, v);
    var rows := EdgeRows(nodes, comps, edges[i], parse);
    FrameSplitAt(nodes, comps, edges, parse, i);
    var before := FrameWith(nodes, comps, edges[..i], parse);
    var after := FrameWith(nodes, comps, edges[i + 1..], parse);
    InMiddle(before, rows, after, k);
  }

  lemma InMiddle<T>(a: seq<T>, b: seq<T>, c: seq<T>, k: int)
    requires 0 <= k < |b|
    ensures b[k] in a + b + c
  {
    assert (a + b + c)[|a| + k] == b[k];
  }

  // ---------------------------------------------------------------------
  // The frame as written: the endpoint geometry is read before the guard

  /** Both endpoint nodes of the edge exist. The loop reads the position of
      both (through `getEdgeParams`) before its guard runs, and reading the
      position of a missing node raises an error. */
  predicate EndpointsPresent(nodes: seq<Node>, e: Edge)
  {
    FindNode(nodes, e.source).Some? && FindNode(nodes, e.target).Some?
  }

  /** The loop exactly as written: the first edge with a missing endpoint
      aborts the whole computation (None), so the `!fromNode || !toNode`
      part of the guard can never skip an edge. */
  function FrameAsWrittenWith(nodes: seq<Node>, comps: set<string>, edges: seq<Edge>, parse: Parser): Option<seq<Row>>
  {
    if |edges| == 0 then Some([])
    else
      match FrameAsWrittenWith(nodes, comps, edges[..|edges| - 1], parse)
      case None => None
      case Some(prior) =>
        var e := edges[|edges| - 1];
        if EndpointsPresent(nodes, e) then Some(prior + EdgeRows(nodes, comps, e, parse)) else None
  }

  function FrameAsWritten(nodes: seq<Node>, edges: seq<Edge>, parse: Parser): Option<seq<Row>>
  {
    FrameAsWrittenWith(nodes, Compartments(nodes), edges, parse)
  }

  /** Every edge has both endpoints, stated edge by edge from the last. */
  predicate AllPresent(nodes: seq<Node>, edges: seq<Edge>)
  {
    |edges| == 0 || (AllPresent(nodes, edges[..|edges| - 1]) && EndpointsPresent(nodes, edges[|edges| - 1]))
  }

  lemma {:induction false} AllPresentIff(nodes: seq<Node>, edges: seq<Edge>)
    ensures AllPresent(nodes, edges) <==> forall i :: 0 <= i < |edges| ==> EndpointsPresent(nodes, edges[i])
  {
    if |edges| > 0 {
      var n := |edges| - 1;
      var init := edges[..n];
      AllPresentIff(nodes, init);
      assert edges == init + [edges[n]];
      SnocAll(init, edges[n], e => EndpointsPresent(nodes, e));
    }
  }

  /** A property holds of every element of `init + [last]` exactly when it
      holds of every element of `init` and of `last`. */
  lemma SnocAll<T>(init: seq<T>, last: T, p: T -> bool)
    ensures (forall i :: 0 <= i < |init + [last]| ==> p((init + [last])[i]))
        <==> (forall i :: 0 <= i < |init| ==> p(init[i])) && p(last)
  {
    var s := init + [last];
    if forall i :: 0 <= i < |init| ==> p(init[i]) {
      if p(last) {
        forall i | 0 <= i < |s| ensures p(s[i]) {
          if i < |init| {
            assert s[i] == init[i];
          }
        }
      }
    }
    if forall i :: 0 <= i < |s| ==> p(s[i]) {
      forall i | 0 <= i < |init| ensures p(init[i]) {
        assert s[i] == init[i];
      }
      assert s[|init|] == last;
    }
  }

  /** As written, the loop returns exactly when every edge has both
      endpoints, and then it returns the frame the guard describes. */
  lemma {:induction false} FrameAsWrittenWithAgrees(nodes: seq<Node>, comps: set<string>, edges: seq<Edge>, parse: Parser)
    ensures FrameAsWrittenWith(nodes, comps, edges, parse).Some? <==> AllPresent(nodes, edges)
    ensures FrameAsWrittenWith(nodes, comps, edges, parse).Some? ==>
      FrameAsWrittenWith(nodes, comps, edges, parse).value == FrameWith(nodes, comps, edges, parse)
  {
    if |edges| > 0 {
      FrameAsWrittenWithAgrees(nodes, comps, edges[..|edges| - 1], parse);
    }
  }

  lemma FrameAsWrittenAgrees(nodes: seq<Node>, edges: seq<Edge>, parse: Parser)
    ensures FrameAsWritten(nodes, edges, parse).Some?
        <==> forall i :: 0 <= i < |edges| ==> EndpointsPresent(nodes, edges[i])
    ensures FrameAsWritten(nodes, edges, parse).Some? ==> FrameAsWritten(nodes, edges, parse).value == Frame(nodes, edges, parse)
  {
    FrameAsWrittenWithAgrees(nodes, Compartments(nodes), edges, parse);
    AllPresentIff(nodes, edges);
  }

  /** A flow with a missing endpoint makes the extractor as written fail,
      whatever the other flows are; the intended guard would skip it, so
      that the result is the frame of the other flows. */
  lemma DanglingFlowAborts(nodes: seq<Node>, a: seq<Edge>, e: Edge, b: seq<Edge>, parse: Parser)
    requires !EndpointsPresent(nodes, e)
    ensures FrameAsWritten(nodes, a + [e] + b, parse).None?
    ensures Frame(nodes, a + [e] + b, parse) == Frame(nodes, a, parse) + Frame(nodes, b, parse)
  {
    var edges := a + [e] + b;
    assert edges[|a|] == e;
    FrameAsWrittenAgrees(nodes, edges, parse);
    FailureIsolated(nodes, a, e, b, parse);
  }

  /** The smallest such graph: one compartment and one flow into a node id
      that does not exist. */
  lemma DanglingFlowExample()
    ensures FrameAsWritten([Node("node_0", "S")], [Edge("e1", "node_0", "node_9", "beta * S", "foi")], ExampleParse).None?
    ensures Frame([Node("node_0", "S")], [Edge("e1", "node_0", "node_9", "beta * S", "foi")], ExampleParse) == []
  {
    var nodes := [Node("node_0", "S")];
    var e := Edge("e1", "node_0", "node_9", "beta * S", "foi");
    assert FindNode(nodes, "node_9").None?;
    DanglingFlowAborts(nodes, [], e, [], ExampleParse);
    assert [] + [e] + [] == [e];
  }

  const ExampleNodes: seq<Node> := [Node("node_0", "S"), Node("node_1", "E"), Node("node_2", "I"), Node("node_3", "N")]
  const ExampleEdge: Edge := Edge("e1", "node_0", "node_1", "beta * I / N", "foi")

  /** A parser that knows one expression. */
  function ExampleParse(expr: string): Option<seq<string>>
  {
    if expr == "beta * I / N" then Some(["beta", "I", "N"]) else None
  }

  lemma ExampleCompartments()
    ensures "beta" !in Compartments(ExampleNodes)
    ensures "I" in Compartments(ExampleNodes) && "N" in Compartments(ExampleNodes)
  {
    assert ExampleNodes[2].text == "I";
    assert ExampleNodes[3].text == "N";
  }

  lemma ExampleEdgeKept()
    ensures !Skipped(ExampleNodes, ExampleEdge)
  {
    var nodes := ExampleNodes;
    assert FindNode(nodes, "node_0") == Some(nodes[0]);
    assert FindNode(nodes[1..], "node_1") == Some(nodes[1]);
  }

  /** The expression `beta * I / N` on a flow into E, with compartments S,
      E, I and N and no compartment `beta`, yields the rows I then N. */
  lemma BetaINExample()
    ensures Frame(ExampleNodes, [ExampleEdge], ExampleParse) == [Row("I", "foi"), Row("N", "foi")]
  {
    ExampleCompartments();
    ExampleEdgeKept();
    assert SymbolsOf(ExampleParse, ExampleEdge.rate) == ["beta", "I", "N"];
    SingleEdgeFrame(ExampleNodes, ExampleEdge, ExampleParse);
  }

  lemma SingleEdgeFrame(nodes: seq<Node>, e: Edge, parse: Parser)
    requires !Skipped(nodes, e) && e.flowName == "foi"
    requires SymbolsOf(parse, e.rate) == ["beta", "I", "N"]
    requires "beta" !in Compartments(nodes) && "I" in Compartments(nodes) && "N" in Compartments(nodes)
    ensures Frame(nodes, [e], parse) == [Row("I", "foi"), Row("N", "foi")]
  {
    var comps := Compartments(nodes);
    var vars := ["beta", "I", "N"];
    ExampleKeep(comps);
    RowsForIsKeep(nodes, vars, "foi");
    var rows := [Row("I", "foi"), Row("N", "foi")];
    var tagged := Tag(["I", "N"], "foi");
    assert |tagged| == 2;
    assert tagged[0] == rows[0];
    assert tagged[1] == rows[1];
    assert tagged == rows;
    assert EdgeRows(nodes, comps, e, parse) == rows;
    assert [e][..0] == [];
    assert FrameWith(nodes, comps, [e], parse) == [] + rows;
  }

  lemma ExampleKeep(comps: set<string>)
    requires "beta" !in comps && "I" in comps && "N" in comps
    ensures Keep(["beta", "I", "N"], comps) == ["I", "N"]
  {
    var vars := ["beta", "I", "N"];
    var i_n := ["I", "N"];
    assert vars[1..] == i_n;
    assert i_n[1..] == ["N"];
    assert ["N"][1..] == [];
    assert Keep(["N"], comps) == ["N"];
    assert Keep(i_n, comps) == ["I", "N"];
  }
}
