/** The editor's graph: compartments (nodes) and flows (edges), as held in the
    React Flow node and edge lists. Only the fields the core reads are kept:
    geometry, handles, node types and edge markers belong to rendering.

    JavaScript truthiness of a label or name is modelled as "non-empty"; an
    absent `data.label`, `label` or `data.name` is the empty string. */
module Graph {
  import opened Wrappers

  /** A compartment: its `id` and its `data.label`, here called `text`. */
  datatype Node = Node(id: string, text: string)

  /** A flow: `id`, `source`, `target`, the rate expression the source keeps
      in the edge's `label`, and the flow name it keeps in `data.name`. */
  datatype Edge = Edge(id: string, source: string, target: string, rate: string, flowName: string)

  /** `i` is the first position of a node whose id is `id`. */
  ghost predicate FirstWithId(nodes: seq<Node>, id: string, i: int)
  {
    0 <= i < |nodes| && nodes[i].id == id && forall j :: 0 <= j < i ==> nodes[j].id != id
  }

  /** `i` is the first position of a node whose label is `text`. */
  ghost predicate FirstWithLabel(nodes: seq<Node>, text: string, i: int)
  {
    0 <= i < |nodes| && nodes[i].text == text && forall j :: 0 <= j < i ==> nodes[j].text != text
  }

  /** The first node whose id is `id`, if any. */
  function FindNode(nodes: seq<Node>, id: string): (r: Option<Node>)
    ensures r.None? <==> forall j :: 0 <= j < |nodes| ==> nodes[j].id != id
    ensures r.Some? ==> exists i :: FirstWithId(nodes, id, i) && r.value == nodes[i]
  {
    if |nodes| == 0 then None
    else if nodes[0].id == id then
      assert FirstWithId(nodes, id, 0);
      Some(nodes[0])
    else
      var r := FindNode(nodes[1..], id);
      assert r.Some? ==> exists i :: FirstWithId(nodes, id, i) && r.value == nodes[i] by {
        if r.Some? {
          var i :| FirstWithId(nodes[1..], id, i) && r.value == nodes[1..][i];
          assert FirstWithId(nodes, id, i + 1);
        }
      }
      r
  }

  /** The first node whose label is `text`, if any. */
  function FindByLabel(nodes: seq<Node>, text: string): (r: Option<Node>)
    ensures r.None? <==> forall j :: 0 <= j < |nodes| ==> nodes[j].text != text
    ensures r.Some? ==> exists i :: FirstWithLabel(nodes, text, i) && r.value == nodes[i]
  {
    if |nodes| == 0 then None
    else if nodes[0].text == text then
      assert FirstWithLabel(nodes, text, 0);
      Some(nodes[0])
    else
      var r := FindByLabel(nodes[1..], text);
      assert r.Some? ==> exists i :: FirstWithLabel(nodes, text, i) && r.value == nodes[i] by {
        if r.Some? {
          var i :| FirstWithLabel(nodes[1..], text, i) && r.value == nodes[1..][i];
          assert FirstWithLabel(nodes, text, i + 1);
        }
      }
      r
  }

  /** The first node with a given id is unique. */
  lemma FirstWithIdUnique(nodes: seq<Node>, id: string, i: int, k: int)
    requires FirstWithId(nodes, id, i) && FirstWithId(nodes, id, k)
    ensures i == k
  {
  }

  /** The flow name, or `unnamed_flow` when it is empty or absent,
      shared by the code generator and the dependence extractor. */
  function FlowNameOf(e: Edge): (r: string)
    ensures r != ""
    ensures e.flowName != "" ==> r == e.flowName
    ensures e.flowName == "" ==> r == "unnamed_flow"
  {
    if e.flowName != "" then e.flowName else "unnamed_flow"
  }
}
