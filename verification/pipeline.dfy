/** How the editor's mutations affect the generated program, which the
    editor recomputes after every change, and properties that relate the
    generator and the dependence extractor over the same graph. The
    extractor is exported by the utilities but not called by the editor. */
module Pipeline {
  import opened Wrappers
  import opened Graph
  import opened FlowEditor
  import opened CodeGen
  import opened Dependence

  /** Editing an edge's rate expression or flow name to a non-empty value
      changes exactly that value in the calls of the edges with that id, and
      leaves every other call as it was. */
  lemma EdgeEditReachesProgram(s: EditorState, id: string, labelType: string, input: string)
    requires input != ""
    ensures var r := UpdateLabel(s, Some(SelectedEdge(id)), labelType, input);
      |Calls(r.nodes, r.edges)| == |Calls(s.nodes, s.edges)|
      && forall i :: 0 <= i < |s.edges| ==>
        Calls(r.nodes, r.edges)[i] ==
          if s.edges[i].id != id then Calls(s.nodes, s.edges)[i]
          else if labelType == "label" then Calls(s.nodes, s.edges)[i].(rate := input)
          else Calls(s.nodes, s.edges)[i].(absRate := input)
  {
  }

  /** The first node with id `id` after a rename of `id` carries the new label. */
  lemma FindRenamed(nodes: seq<Node>, id: string, input: string)
    requires exists j :: 0 <= j < |nodes| && nodes[j].id == id
    ensures FindNode(UpdateNodes(nodes, id, input), id).Some?
    ensures FindNode(UpdateNodes(nodes, id, input), id).value.text == input
  {
    var r := UpdateNodes(nodes, id, input);
    var j :| 0 <= j < |nodes| && nodes[j].id == id;
    assert r[j].id == id;
    var n := FindNode(r, id).value;
    var i :| FirstWithId(r, id, i) && n == r[i];
    assert nodes[i].id == id;
  }

  /** A rename of `id` does not change which node any other id finds. */
  lemma {:induction false} FindOthersUnchanged(nodes: seq<Node>, id: string, input: string, x: string)
    requires x != id
    ensures FindNode(UpdateNodes(nodes, id, input), x) == FindNode(nodes, x)
  {
    if |nodes| > 0 {
      var r := UpdateNodes(nodes, id, input);
      assert r[1..] == UpdateNodes(nodes[1..], id, input);
      FindOthersUnchanged(nodes[1..], id, input, x);
      assert r[0].id == nodes[0].id;
      if nodes[0].id == x {
        assert r[0] == nodes[0];
      }
    }
  }

  /** Renaming a compartment to a non-empty label changes the `from` of every
      flow leaving it and the `to` of every flow entering it; every other
      endpoint, and every rate and flow name, keeps its value. */
  lemma RenameReachesProgram(s: EditorState, id: string, input: string)
    requires input != ""
    requires exists j :: 0 <= j < |s.nodes| && s.nodes[j].id == id
    ensures var r := UpdateLabel(s, Some(SelectedNode(id)), "label", input);
      |Calls(r.nodes, r.edges)| == |s.edges|
      && forall i :: 0 <= i < |s.edges| ==>
        && (s.edges[i].source == id ==> Calls(r.nodes, r.edges)[i].from == input)
        && (s.edges[i].target == id ==> Calls(r.nodes, r.edges)[i].to == input)
        && (s.edges[i].source != id ==> Calls(r.nodes, r.edges)[i].from == Calls(s.nodes, s.edges)[i].from)
        && (s.edges[i].target != id ==> Calls(r.nodes, r.edges)[i].to == Calls(s.nodes, s.edges)[i].to)
        && Calls(r.nodes, r.edges)[i].rate == Calls(s.nodes, s.edges)[i].rate
        && Calls(r.nodes, r.edges)[i].absRate == Calls(s.nodes, s.edges)[i].absRate
  {
    FindRenamed(s.nodes, id, input);
    var r := UpdateLabel(s, Some(SelectedNode(id)), "label", input);
    forall i | 0 <= i < |s.edges|
      ensures s.edges[i].source != id ==> Calls(r.nodes, r.edges)[i].from == Calls(s.nodes, s.edges)[i].from
      ensures s.edges[i].target != id ==> Calls(r.nodes, r.edges)[i].to == Calls(s.nodes, s.edges)[i].to
    {
      if s.edges[i].source != id {
        FindOthersUnchanged(s.nodes, id, input, s.edges[i].source);
      }
      if s.edges[i].target != id {
        FindOthersUnchanged(s.nodes, id, input, s.edges[i].target);
      }
    }
  }

  /** Connecting two compartments appends one call, with the placeholder rate
      and flow name, after the calls already generated. */
  lemma ConnectAppendsCall(s: EditorState, c: Connection)
    ensures var r := Connect(s, c);
      Calls(r.nodes, r.edges)
        == Calls(s.nodes, s.edges)
           + [FlowCall(EndpointName(s.nodes, c.source), EndpointName(s.nodes, c.target), "rate_here", "flow_name")]
  {
    var r := Connect(s, c);
    assert r.edges == s.edges + [r.edges[|s.edges|]];
  }

  /** Looking an id up in a longer node list finds the same node, unless the
      id only occurs in the appended node. */
  lemma FindNodeAppend(nodes: seq<Node>, n: Node, id: string)
    requires id != n.id
    ensures FindNode(nodes + [n], id) == FindNode(nodes, id)
  {
    if |nodes| > 0 {
      assert (nodes + [n])[1..] == nodes[1..] + [n];
      FindNodeAppend(nodes[1..], n, id);
    }
  }

  /** Adding a compartment leaves the program unchanged as long as no flow
      already names the fresh id. */
  lemma AddNodeKeepsProgram(s: EditorState)
    requires forall i :: 0 <= i < |s.edges| ==> s.edges[i].source != NodeId(s.nextId) && s.edges[i].target != NodeId(s.nextId)
    ensures Program(AddNode(s).nodes, AddNode(s).edges) == Program(s.nodes, s.edges)
  {
    var r := AddNode(s);
    var n := r.nodes[|s.nodes|];
    assert r.nodes == s.nodes + [n];
    forall i | 0 <= i < |s.edges| ensures Resolve(r.nodes, s.edges[i]) == Resolve(s.nodes, s.edges[i]) {
      FindNodeAppend(s.nodes, n, s.edges[i].source);
      FindNodeAppend(s.nodes, n, s.edges[i].target);
    }
    assert Calls(r.nodes, r.edges) == Calls(s.nodes, s.edges);
  }

  /** A flow whose target compartment does not exist yields no dependence
      rows, but is still generated, with its raw target id as `to`. */
  lemma {:induction false} DanglingTarget(nodes: seq<Node>, edges: seq<Edge>, parse: Parser, i: int)
    requires 0 <= i < |edges|
    requires forall j :: 0 <= j < |nodes| ==> nodes[j].id != edges[i].target
    ensures EdgeRows(nodes, Compartments(nodes), edges[i], parse) == []
    ensures Calls(nodes, edges)[i].to == edges[i].target
  {
    var e := edges[i];
    assert FindNode(nodes, e.target).None?;
    assert Skipped(nodes, e);
    assert EndpointName(nodes, e.target) == e.target;
  }

  /** A graph without flows generates the empty model block and no rows. */
  lemma NoFlows(nodes: seq<Node>, parse: Parser)
    ensures Program(nodes, []) == "mp_tmb_model_spec(during = list(\n\n))"
    ensures Frame(nodes, [], parse) == []
  {
    EmptyProgram(nodes);
  }
}
