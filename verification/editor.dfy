/** The graph mutations of the flow editor: the module-level id counter,
    adding a compartment, connecting two compartments, and the "Update"
    button that rewrites one field of the selected element.

    React state is replaced by an explicit `EditorState` value that every
    mutation takes and returns. */
module FlowEditor {
  import opened Wrappers
  import opened Text
  import opened Graph

  /** The id counter shared by every editor, and the current nodes and edges. */
  datatype EditorState = EditorState(nextId: nat, nodes: seq<Node>, edges: seq<Edge>)

  const Initial: EditorState := EditorState(0, [], [])

  /** The id `getId` hands out for counter value `k`. */
  function NodeId(k: nat): string
  {
    "node_" + NatToString(k)
  }

  /** `getId`: the id for the current counter value, and the incremented counter. */
  function GetId(counter: nat): (r: (string, nat))
    ensures r == (NodeId(counter), counter + 1)
    ensures "node_" <= r.0
  {
    (NodeId(counter), counter + 1)
  }

  /** Distinct counter values give distinct ids. */
  lemma NodeIdInjective(a: nat, b: nat)
    requires NodeId(a) == NodeId(b)
    ensures a == b
  {
    PrefixInjective("node_", NatToString(a), NatToString(b));
    NatToStringInjective(a, b);
  }

  /** `getId` never repeats: a later call, made with a larger counter, never
      returns an id an earlier call returned. */
  lemma GetIdNeverRepeats(k1: nat, k2: nat)
    requires k1 < k2
    ensures GetId(k1).0 != GetId(k2).0
    ensures GetId(k1).1 <= k2
  {
    if GetId(k1).0 == GetId(k2).0 {
      NodeIdInjective(k1, k2);
    }
  }

  /** `id` was handed out by `getId` before the counter reached `next`. */
  ghost predicate Issued(id: string, next: nat)
  {
    exists k: nat :: k < next && id == NodeId(k)
  }

  /** Every node id was handed out by `getId` for an earlier counter value. */
  ghost predicate IdsIssued(s: EditorState)
  {
    forall i :: 0 <= i < |s.nodes| ==> Issued(s.nodes[i].id, s.nextId)
  }

  /** No two nodes share an id. */
  ghost predicate IdsUnique(nodes: seq<Node>)
  {
    forall i, j :: 0 <= i < j < |nodes| ==> nodes[i].id != nodes[j].id
  }

  ghost predicate Valid(s: EditorState)
  {
    IdsIssued(s) && IdsUnique(s.nodes)
  }

  /** `addNode`: appends one node with a fresh id; its label is built after
      the counter has been incremented, so node `node_k` is called `Box k+1`. */
  function AddNode(s: EditorState): (r: EditorState)
    ensures r.nextId == s.nextId + 1
    ensures |r.nodes| == |s.nodes| + 1
    ensures r.nodes[..|s.nodes|] == s.nodes
    ensures r.nodes[|s.nodes|].id == NodeId(s.nextId)
    ensures r.nodes[|s.nodes|].text == "Box " + NatToString(r.nextId)
    ensures r.edges == s.edges
  {
    var (id, next) := GetId(s.nextId);
    s.(nextId := next, nodes := s.nodes + [Node(id, "Box " + NatToString(next))])
  }

  /** Adding a node keeps every node id issued and distinct. */
  lemma AddNodePreservesValid(s: EditorState)
    requires Valid(s)
    ensures Valid(AddNode(s))
  {
    var r := AddNode(s);
    var n := |s.nodes|;
    forall i | 0 <= i < n ensures r.nodes[i].id != r.nodes[n].id {
      assert Issued(s.nodes[i].id, s.nextId);
      var k: nat :| k < s.nextId && s.nodes[i].id == NodeId(k);
      assert r.nodes[i] == s.nodes[i];
      if r.nodes[i].id == r.nodes[n].id {
        NodeIdInjective(k, s.nextId);
      }
    }
    forall i | 0 <= i < |r.nodes| ensures Issued(r.nodes[i].id, r.nextId) {
      if i < n {
        assert r.nodes[i] == s.nodes[i];
        var k: nat :| k < s.nextId && s.nodes[i].id == NodeId(k);
        assert k < r.nextId;
      } else {
        assert r.nodes[i].id == NodeId(s.nextId);
      }
    }
  }

  /** The parameters React Flow passes to `onConnect`. */
  datatype Connection = Connection(id: string, source: string, target: string)

  /** `onConnect`: appends an edge between the two handles, carrying the
      placeholder rate expression and flow name. */
  function Connect(s: EditorState, c: Connection): (r: EditorState)
    ensures r.nextId == s.nextId && r.nodes == s.nodes
    ensures |r.edges| == |s.edges| + 1
    ensures r.edges[..|s.edges|] == s.edges
    ensures var e := r.edges[|s.edges|];
      e.id == c.id && e.source == c.source && e.target == c.target
      && e.rate == "rate_here" && e.flowName == "flow_name"
  {
    s.(edges := s.edges + [Edge(c.id, c.source, c.target, "rate_here", "flow_name")])
  }

  /** The element selected on the canvas: an edge is anything with a `source`. */
  datatype Selected = SelectedNode(id: string) | SelectedEdge(id: string)

  /** The edge branch of `updateLabel`: on every edge with the selected id,
      the rate expression when `labelType` is `'label'`, otherwise the flow
      name, becomes `input`. */
  function UpdateEdges(edges: seq<Edge>, id: string, labelType: string, input: string): (r: seq<Edge>)
    ensures |r| == |edges|
    ensures forall i :: 0 <= i < |edges| ==>
      && r[i].id == edges[i].id && r[i].source == edges[i].source && r[i].target == edges[i].target
      && (edges[i].id != id ==> r[i] == edges[i])
      && (edges[i].id == id && labelType == "label" ==> r[i].rate == input && r[i].flowName == edges[i].flowName)
      && (edges[i].id == id && labelType != "label" ==> r[i].flowName == input && r[i].rate == edges[i].rate)
  {
    seq(|edges|, i requires 0 <= i < |edges| =>
      var e := edges[i];
      if e.id != id then e
      else if labelType == "label" then e.(rate := input)
      else e.(flowName := input))
  }

  /** The node branch of `updateLabel`: every node with the selected id gets
      label `input`. */
  function UpdateNodes(nodes: seq<Node>, id: string, input: string): (r: seq<Node>)
    ensures |r| == |nodes|
    ensures forall i :: 0 <= i < |nodes| ==>
      && r[i].id == nodes[i].id
      && (nodes[i].id != id ==> r[i] == nodes[i])
      && (nodes[i].id == id ==> r[i].text == input)
  {
    seq(|nodes|, i requires 0 <= i < |nodes| =>
      if nodes[i].id == id then nodes[i].(text := input) else nodes[i])
  }

  /** `updateLabel`: nothing happens without a selection; otherwise only the
      selected kind of element is rewritten. */
  function UpdateLabel(s: EditorState, sel: Option<Selected>, labelType: string, input: string): (r: EditorState)
    ensures sel.None? ==> r == s
    ensures r.nextId == s.nextId
    ensures sel.Some? && sel.value.SelectedEdge? ==>
      r.nodes == s.nodes && r.edges == UpdateEdges(s.edges, sel.value.id, labelType, input)
    ensures sel.Some? && sel.value.SelectedNode? ==>
      r.edges == s.edges && r.nodes == UpdateNodes(s.nodes, sel.value.id, input)
  {
    match sel
    case None => s
    case Some(SelectedEdge(id)) => s.(edges := UpdateEdges(s.edges, id, labelType, input))
    case Some(SelectedNode(id)) => s.(nodes := UpdateNodes(s.nodes, id, input))
  }

  /** A state with the same counter and the same node ids, position by
      position, as a valid state is valid. */
  lemma SameIdsValid(s: EditorState, r: EditorState)
    requires Valid(s)
    requires r.nextId == s.nextId && |r.nodes| == |s.nodes|
    requires forall i :: 0 <= i < |s.nodes| ==> r.nodes[i].id == s.nodes[i].id
    ensures Valid(r)
  {
  }

  /** Connecting and updating labels keep node ids issued and distinct. */
  lemma MutationsPreserveValid(s: EditorState, c: Connection, sel: Option<Selected>, labelType: string, input: string)
    requires Valid(s)
    ensures Valid(Connect(s, c))
    ensures Valid(UpdateLabel(s, sel, labelType, input))
  {
    SameIdsValid(s, Connect(s, c));
    SameIdsValid(s, UpdateLabel(s, sel, labelType, input));
  }
}
