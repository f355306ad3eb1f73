# macpan2 model builder: flow editor core in Dafny

The model builder is a browser editor in which compartments (boxes) are
connected by flows (arrows). Two things are derived from the graph:

- the **model code**, an R snippet for macpan2. It is one
  `mp_tmb_model_spec(during = list(...))` block holding one
  `mp_per_capita_flow(from, to, rate, abs_rate)` call per flow. The editor
  recomputes it whenever the nodes or edges change;
- the **state-dependence frame**, computed by the extractor that
  `src/utils.jsx` exports. It has one row per occurrence of a compartment
  name among the symbols of a flow's rate expression, for each flow that
  passes the guard; repeated symbols give repeated rows. The editor itself
  does not call the extractor.

This project models:

- the editor's graph mutations: the id counter, adding a box, connecting two
  boxes, and the Update button;
- the code generator (`CodeGen`);
- the state-dependence extractor (`Dependence`).

It proves properties of each part, of how mutations affect the generated
code, and of how the generator and the extractor treat the same graph
(`Pipeline`).

Modules:

- `Wrappers` – the `Option` type.
- `Text` – `join`, decimal rendering of the counter, prefix and delimiter
  scanners.
- `Graph` – `Node` (id and `data.label`, here `text`) and `Edge`.
  - An edge holds id, source, target, the rate expression kept in the edge's
    `label` (here `rate`), and `data.name` (here `flowName`).
  - It also holds the `find` lookups and the `unnamed_flow` fallback.
  - JavaScript truthiness of a string is "non-empty"; an absent field is "".
- `FlowEditor` – `EditorState` (counter, nodes, edges), `GetId`, `AddNode`,
  `Connect`, `UpdateLabel`, and the invariant that node ids are issued by the
  counter and distinct.
- `CodeGen` – how an edge resolves to a call, with the fallbacks.
  - The program text (`Program`) and the button handler's loop
    (`GenerateModelCode`).
  - `ParseProgram`, a reader for generated programs. The round-trip lemmas
    are stated against it.
- `Dependence` – the compartment set, the edge guard, the per-edge rows and
  the frame (`Frame`).
  - The source's loop with the intended guard (`StateDependenceFrame`; see
    Findings).
  - The loop exactly as written, including the error raised before the
    guard (`FrameAsWritten`; see Findings).
  - The expression parser (mathjs `parse` followed by the symbol-node
    filter) is a parameter `Parser`. It maps an expression to its symbol
    names in order, or to `None` when parsing throws.
- `Pipeline` – the effect of each mutation on the generated calls, and
  properties relating the generator and the extractor over the same graph.

## Model

| member | source | states |
|---|---|---|
| Graph.FindNode | src/FlowEditor.jsx:121 | the result is the first node with the id, and is None exactly when no node has it |
| Graph.FindByLabel | src/utils.jsx:88 | the result is the first node with the label, and is None exactly when no node has it |
| FlowEditor.NodeIdInjective | src/FlowEditor.jsx:23 | two counter values with the same `node_${k}` id are equal |
| FlowEditor.GetIdNeverRepeats | src/FlowEditor.jsx:22-23 | a later `getId` call never returns an id an earlier one returned |
| FlowEditor.AddNode | src/FlowEditor.jsx:51-59 | counter +1; exactly one node appended, with id `node_k` and label `Box k+1`; earlier nodes and all edges kept |
| FlowEditor.AddNodePreservesValid | src/FlowEditor.jsx:51-59 | after adding a box, node ids are still all issued by the counter and pairwise distinct |
| FlowEditor.Connect | src/FlowEditor.jsx:35-49 | exactly one edge appended between the two handles, with rate `rate_here` and name `flow_name`; nodes and earlier edges kept |
| FlowEditor.UpdateEdges | src/FlowEditor.jsx:85-94 | an edge with the selected id gets the input as its rate (label type `label`) or else as its name, and its other field is kept; other edges are unchanged |
| FlowEditor.UpdateNodes | src/FlowEditor.jsx:97-101 | a node with the selected id gets the input as its label; other nodes are unchanged; ids are kept |
| FlowEditor.UpdateLabel | src/FlowEditor.jsx:81-103 | no selection leaves the state unchanged; a selected edge changes only edges; a selected node changes only nodes |
| FlowEditor.MutationsPreserveValid | src/FlowEditor.jsx:35-103 | connecting and updating labels keep node ids issued and distinct |
| CodeGen.EndpointName | src/FlowEditor.jsx:121-122 | the label of the first node with the id when that label is non-empty, else the raw id |
| CodeGen.Resolve | src/FlowEditor.jsx:120-125 | a call carries both endpoint names, the rate or `RATE` when there is none, and the name or `unnamed_flow` |
| CodeGen.ResolveFound | src/FlowEditor.jsx:121-124 | when both endpoints are found with labels and rate and name are set, the call carries exactly those values |
| CodeGen.GenerateModelCode | src/FlowEditor.jsx:105-117 | the button handler's loop builds exactly the text the effect computes |
| CodeGen.ParseCallOfRender | src/FlowEditor.jsx:125 | a rendered quote-free call reads back as the same four values, whatever follows it |
| CodeGen.ParseCallsOfJoin | src/FlowEditor.jsx:130-131 | the calls joined by `",\n"` and closed read back as the same calls in order |
| CodeGen.ParseProgramOf | src/FlowEditor.jsx:128-132 | a program built from quote-free calls reads back as exactly those calls, including none |
| CodeGen.ProgramRoundTrip | src/FlowEditor.jsx:119-135 | for a quote-free graph, the program holds one call per edge, in edge order, each equal to that edge's resolved call |
| CodeGen.EmptyProgram | src/FlowEditor.jsx:128-132 | without edges the program is the header, an empty line and `))` |
| CodeGen.TwoFlowExample | src/FlowEditor.jsx:119-135 | flows S to E and E to I give their two calls, in that order, separated by `",\n"` |
| Dependence.Compartments | src/utils.jsx:53 | a string is a compartment exactly when it is the non-empty label of some node |
| Dependence.CompartmentHasNode | src/utils.jsx:87-89 | for a compartment, the lookup by label always finds a node with that label |
| Dependence.RowsFor | src/utils.jsx:86-100 | at most one row per symbol; every row names a compartment among the symbols, with the flow's name |
| Dependence.SymbolRows | src/utils.jsx:86-100 | the inner loop yields the rows of the functional definition |
| Dependence.EdgeStep | src/utils.jsx:58-100 | one pass of the edge loop: guard, parse with fallback to no symbols, inner loop |
| Dependence.StateDependenceFrame | src/utils.jsx:52-104 | the loop over edges yields the frame of the functional definition |
| Dependence.RowsForIsKeep | src/utils.jsx:86-100 | an edge's rows are the symbols that are compartments, in parser order and with repeats, tagged with the flow name |
| Dependence.EdgeRowsEmptyIff | src/utils.jsx:73-100 | an edge adds no rows exactly when the guard skips it or none of its symbols is a compartment |
| Dependence.FrameAppend | src/utils.jsx:56-101 | the frame of two edge lists in sequence is the first frame followed by the second |
| Dependence.FailureIsolated | src/utils.jsx:73-84 | a skipped flow, or one whose rate fails to parse, adds nothing and leaves the rows of the flows around it unchanged |
| Dependence.FrameSound | src/utils.jsx:86-97 | every row names a compartment read by a guarded flow and carries that flow's name |
| Dependence.FrameComplete | src/utils.jsx:86-97 | every compartment read by a flow that passes the guard appears in a row with that flow's name |
| Dependence.FrameAsWrittenAgrees | src/utils.jsx:56-73 | the loop as written returns exactly when every flow has both endpoint nodes, and then returns the frame |
| Dependence.DanglingFlowAborts | src/utils.jsx:68-73 | as written, one flow with a missing endpoint makes the extractor fail; the guarded frame just drops that flow |
| Dependence.DanglingFlowExample | src/utils.jsx:68-73 | one box and one flow into `node_9`: as written it fails; guarded, it gives no rows |
| Dependence.BetaINExample | src/utils.jsx:52-104 | `beta * I / N` on a flow named `foi`, with compartments S, E, I and N, gives rows I then N |
| Pipeline.EdgeEditReachesProgram | src/FlowEditor.jsx:81-135 | editing an edge's rate or name to a non-empty value changes exactly that value in that edge's call; all other calls stay |
| Pipeline.RenameReachesProgram | src/FlowEditor.jsx:95-135 | renaming a box to a non-empty label makes it the `from` of flows leaving it and the `to` of flows entering it; every other endpoint name, rate and flow name keeps its value |
| Pipeline.ConnectAppendsCall | src/FlowEditor.jsx:35-126 | a new connection appends one call with `rate_here` and `flow_name` after the existing calls |
| Pipeline.AddNodeKeepsProgram | src/FlowEditor.jsx:51-126 | adding a box leaves the program unchanged when no flow names the fresh id |
| Pipeline.DanglingTarget | src/utils.jsx:58-73 | a flow into a missing node yields no rows but is still generated, with its raw target id as `to` |
| Pipeline.NoFlows | src/FlowEditor.jsx:128-132 | a graph without flows gives the empty model block and no rows |

## Left out

- Expression parsing: mathjs `parse` and the `isSymbolNode` filter are a
  parameter. Only their result is modelled: symbol names in traversal order,
  or failure.
- Geometry is not modelled:
  - `getHandleCoords`, `getEdgeParams` and `getBezierPath`;
  - the `stateX`, `stateY`, `flowX` and `flowY` fields of a row.
  `getEdgeParams` is also called with the two nodes swapped. That only
  affects coordinates.
- Node positions are not modelled. `addNode` draws them with
  `Math.random()`.
- React is not modelled: hooks, state setters, selection tracking
  (`onSelectionChange`), syncing the input box, the JSX layout, and the
  `CustomNode` and `CustomEdge` components. The selected element, the label
  type and the input are plain parameters of `UpdateLabel`.
- React Flow's `addEdge` is modelled as an append:
  - its duplicate-connection check is not modelled;
  - its generated edge id is not modelled; the id is part of `Connection`;
  - handles and the arrow marker are not modelled.
- Deleting nodes or edges is not modelled. `onNodesChange` and
  `onEdgesChange` are React Flow internals.
- `console.log` and `console.warn` are not modelled.
- A node is always modelled with a `data` object. In the source,
  `?.data.label` throws when a found node has no `data`, and the editor
  never creates such a node.
- FlowEditor.GetId: the counter is an unbounded natural. The JavaScript
  number loses precision beyond 2^53, and that is not modelled.
- CodeGen.ProgramRoundTrip: holds only when no label, id, rate or name
  contains a double quote. The generator does not escape quotes, so such a
  value makes the text ambiguous.
- CodeGen.TwoFlowExample: states the expected text through `Render` and
  the named constants, not as one string literal.

## Findings

| source | as written | input that shows it | evidently intended | confidence | as-written member | corrected member |
|---|---|---|---|---|---|---|
| src/utils.jsx:68-73 | `getEdgeParams` reads the positions of both endpoint nodes before the guard `!fromNode \|\| !toNode`. A missing node throws, which aborts the whole frame, so that part of the guard can never skip an edge | one box `node_0` labelled S and one flow `e1` from `node_0` to `node_9` | a flow with a missing endpoint is skipped, and the other flows still contribute their rows | not executed; high, since reading `position` of `undefined` throws | Dependence.DanglingFlowAborts | Dependence.FailureIsolated |

`Frame` and `StateDependenceFrame` implement the intended guard. The rest of
the model uses them.
