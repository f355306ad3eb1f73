/** The model-code generator of the flow editor: every edge becomes one
    `mp_per_capita_flow(from, to, rate, abs_rate)` call, and the calls are
    wrapped in one `mp_tmb_model_spec(during = list(...))` block.

    `Program` is the text the editor's effect computes whenever the nodes or
    edges change; `GenerateModelCode` is the button handler, which builds the
    same text with a loop. `ParseProgram` reads a generated program back into
    its calls, and is the partner the round-trip lemmas are stated against. */
module CodeGen {
  import opened Wrappers
  import opened Text
  import opened Graph

  /** The four values of one `mp_per_capita_flow` call. */
  datatype FlowCall = FlowCall(from: string, to: string, rate: string, absRate: string)

  const Header: string := "mp_tmb_model_spec(during = list("
  const Footer: string := "))"
  const Separator: string := ",\n"
  /** What follows the last call: the line break before the footer, then the footer. */
  const Closing: string := "\n" + Footer
  const CallOpen: string := "  mp_per_capita_flow(from = \""
  const ToOpen: string := "\", to = \""
  const RateOpen: string := "\", rate = \""
  const AbsRateOpen: string := "\", abs_rate = \""
  const CallClose: string := "\")"

  /** The name a flow endpoint gets: the label of the first node whose id is
      `id` when that label is non-empty, otherwise `id` itself. */
  function EndpointName(nodes: seq<Node>, id: string): (r: string)
    ensures (exists i :: FirstWithId(nodes, id, i) && nodes[i].text != "" && r == nodes[i].text)
         || ((forall i :: FirstWithId(nodes, id, i) ==> nodes[i].text == "") && r == id)
  {
    match FindNode(nodes, id)
    case Some(n) =>
      if n.text != "" then n.text
      else
        assert forall i :: FirstWithId(nodes, id, i) ==> nodes[i].text == "" by {
          forall i | FirstWithId(nodes, id, i) ensures nodes[i].text == "" {
            var k :| FirstWithId(nodes, id, k) && n == nodes[k];
            FirstWithIdUnique(nodes, id, i, k);
          }
        }
        id
    case None => id
  }

  /** The call generated for edge `e`, with the fallbacks of the source:
      the raw endpoint ids, `RATE` and `unnamed_flow`. */
  function Resolve(nodes: seq<Node>, e: Edge): (c: FlowCall)
    ensures c.from == EndpointName(nodes, e.source)
    ensures c.to == EndpointName(nodes, e.target)
    ensures c.rate == (if e.rate != "" then e.rate else "RATE")
    ensures c.absRate == FlowNameOf(e)
  {
    FlowCall(EndpointName(nodes, e.source), EndpointName(nodes, e.target),
             if e.rate != "" then e.rate else "RATE", FlowNameOf(e))
  }

  /** One call as a line of the program, indented by two spaces. */
  function Render(c: FlowCall): string
  {
    CallOpen + c.from + ToOpen + c.to + RateOpen + c.rate + AbsRateOpen + c.absRate + CallClose
  }

  /** The calls for all edges, in edge order. */
  function Calls(nodes: seq<Node>, edges: seq<Edge>): (cs: seq<FlowCall>)
    ensures |cs| == |edges|
    ensures forall i :: 0 <= i < |edges| ==> cs[i] == Resolve(nodes, edges[i])
  {
    seq(|edges|, i requires 0 <= i < |edges| => Resolve(nodes, edges[i]))
  }

  function RenderAll(cs: seq<FlowCall>): (lines: seq<string>)
    ensures |lines| == |cs|
    ensures forall i :: 0 <= i < |cs| ==> lines[i] == Render(cs[i])
  {
    seq(|cs|, i requires 0 <= i < |cs| => Render(cs[i]))
  }

  /** The program text for a list of calls: the header line, the calls joined
      by `",\n"`, and the closing `"))"`, all joined by `"\n"`. */
  function ProgramOf(cs: seq<FlowCall>): string
  {
    Join([Header, Join(RenderAll(cs), Separator), Footer], "\n")
  }

  /** The program the editor shows for a graph. */
  function Program(nodes: seq<Node>, edges: seq<Edge>): string
  {
    ProgramOf(Calls(nodes, edges))
  }

  /** `generateModelCode`: the same text built by a loop over the edges. */
  method GenerateModelCode(nodes: seq<Node>, edges: seq<Edge>) returns (code: string)
    ensures code == Program(nodes, edges)
  {
    var flows: seq<string> := [];
    var i := 0;
    while i < |edges|
      invariant 0 <= i <= |edges|
      invariant flows == RenderAll(Calls(nodes, edges[..i]))
    {
      flows := flows + [Render(Resolve(nodes, edges[i]))];
      i := i + 1;
    }
    assert edges[..i] == edges;
    code := Join([Header, Join(flows, Separator), Footer], "\n");
  }

  // ---------------------------------------------------------------------
  // Reading a generated program back

  /** No value contains a double quote, so every quoted value ends at the
      first quote after it. */
  predicate QuoteFree(c: FlowCall)
  {
    '"' !in c.from && '"' !in c.to && '"' !in c.rate && '"' !in c.absRate
  }

  /** Reads a value up to its closing quote, then the text `after` that
      quote; returns the value and the rest. */
  function ParseValue(s: string, after: string): (r: Option<(string, string)>)
    ensures r.Some? ==> |r.value.1| < |s|
  {
    var p :- SplitAtFirst(s, '"');
    var rest :- StripPrefix(after, p.1);
    Some((p.0, rest))
  }

  /** Reads one rendered call from the front of `s`; returns it and the rest. */
  function ParseCall(s: string): (r: Option<(FlowCall, string)>)
    ensures r.Some? ==> |r.value.1| < |s|
  {
    var s1 :- StripPrefix(CallOpen, s);
    var from :- ParseValue(s1, ToOpen[1..]);
    var to :- ParseValue(from.1, RateOpen[1..]);
    var rate :- ParseValue(to.1, AbsRateOpen[1..]);
    var absRate :- ParseValue(rate.1, CallClose[1..]);
    Some((FlowCall(from.0, to.0, rate.0, absRate.0), absRate.1))
  }

  /** Reads the non-empty list of calls that closes with `"\n))"`. */
  function ParseCalls(s: string): (r: Option<seq<FlowCall>>)
    decreases |s|
  {
    var first :- ParseCall(s);
    if first.1 == Closing then Some([first.0])
    else
      var rest :- StripPrefix(Separator, first.1);
      var more :- ParseCalls(rest);
      Some([first.0] + more)
  }

  /** Reads a whole program back into its calls. */
  function ParseProgram(s: string): Option<seq<FlowCall>>
  {
    var body :- StripPrefix(Header + "\n", s);
    if body == Closing then Some([]) else ParseCalls(body)
  }

  lemma ParseValueOfConcat(v: string, after: string, rest: string)
    requires '"' !in v
    ensures ParseValue(v + "\"" + after + rest, after) == Some((v, rest))
  {
    assert v + "\"" + after + rest == v + ['"'] + (after + rest);
    SplitAtFirstOfConcat(v, '"', after + rest);
    StripPrefixOfConcat(after, rest);
  }

  /** A rendered call is read back exactly, whatever follows it. */
  lemma ParseCallOfRender(c: FlowCall, rest: string)
    requires QuoteFree(c)
    ensures ParseCall(Render(c) + rest) == Some((c, rest))
  {
    var t4 := c.absRate + "\"" + CallClose[1..] + rest;
    var t3 := c.rate + "\"" + AbsRateOpen[1..] + t4;
    var t2 := c.to + "\"" + RateOpen[1..] + t3;
    var t1 := c.from + "\"" + ToOpen[1..] + t2;
    assert Render(c) + rest == CallOpen + t1;
    StripPrefixOfConcat(CallOpen, t1);
    ParseValueOfConcat(c.from, ToOpen[1..], t2);
    ParseValueOfConcat(c.to, RateOpen[1..], t3);
    ParseValueOfConcat(c.rate, AbsRateOpen[1..], t4);
    ParseValueOfConcat(c.absRate, CallClose[1..], rest);
  }

  lemma ParseCallsLast(s: string, c: FlowCall)
    requires ParseCall(s) == Some((c, Closing))
    ensures ParseCalls(s) == Some([c])
  {
  }

  lemma ParseCallsStep(s: string, c: FlowCall, more: string, cs: seq<FlowCall>)
    requires ParseCall(s) == Some((c, Separator + more))
    requires ParseCalls(more) == Some(cs)
    ensures ParseCalls(s) == Some([c] + cs)
  {
    assert (Separator + more)[0] == ',';
    assert Separator + more != Closing;
    StripPrefixOfConcat(Separator, more);
  }

  lemma ParseCallsOfOne(c: FlowCall)
    requires QuoteFree(c)
    ensures ParseCalls(Join(RenderAll([c]), Separator) + Closing) == Some([c])
  {
    assert Join(RenderAll([c]), Separator) == Render(c);
    ParseCallOfRender(c, Closing);
    ParseCallsLast(Render(c) + Closing, c);
  }

  /** A non-empty list of rendered calls, joined and closed, is read back. */
  lemma {:induction false} ParseCallsOfJoin(cs: seq<FlowCall>)
    requires |cs| > 0
    requires forall i :: 0 <= i < |cs| ==> QuoteFree(cs[i])
    ensures ParseCalls(Join(RenderAll(cs), Separator) + Closing) == Some(cs)
  {
    var lines := RenderAll(cs);
    if |cs| == 1 {
      assert cs == [cs[0]];
      ParseCallsOfOne(cs[0]);
    } else {
      ParseCallsOfJoin(cs[1..]);
      ParseCallsCons(cs);
    }
  }

  lemma ParseCallsCons(cs: seq<FlowCall>)
    requires |cs| >= 2 && QuoteFree(cs[0])
    requires ParseCalls(Join(RenderAll(cs[1..]), Separator) + Closing) == Some(cs[1..])
    ensures ParseCalls(Join(RenderAll(cs), Separator) + Closing) == Some(cs)
  {
    var lines := RenderAll(cs);
    var more := Join(RenderAll(cs[1..]), Separator) + Closing;
    assert lines[1..] == RenderAll(cs[1..]);
    JoinConsClosed(lines, Separator, Closing);
    var whole := lines[0] + (Separator + more);
    assert Join(lines, Separator) + Closing == whole;
    assert lines[0] == Render(cs[0]);
    ParseCallOfRender(cs[0], Separator + more);
    ParseCallsStep(whole, cs[0], more, cs[1..]);
    assert ParseCalls(whole) == Some([cs[0]] + cs[1..]);
    assert [cs[0]] + cs[1..] == cs;
  }

  /** Round trip: the program text for quote-free calls reads back as exactly
      those calls, in order. */
  lemma ParseProgramOf(cs: seq<FlowCall>)
    requires forall i :: 0 <= i < |cs| ==> QuoteFree(cs[i])
    ensures ParseProgram(ProgramOf(cs)) == Some(cs)
  {
    var body := Join(RenderAll(cs), Separator) + Closing;
    JoinThree(Header, Join(RenderAll(cs), Separator), Footer, "\n");
    assert ProgramOf(cs) == Header + "\n" + body;
    StripPrefixOfConcat(Header + "\n", body);
    if |cs| == 0 {
      assert body == Closing;
    } else {
      ParseCallsOfJoin(cs);
      assert Join(RenderAll(cs), Separator)[0] == ' ' by {
        if |cs| == 1 {
          assert Join(RenderAll(cs), Separator) == Render(cs[0]);
        } else {
          assert Join(RenderAll(cs), Separator) == Render(cs[0]) + Separator + Join(RenderAll(cs)[1..], Separator);
        }
      }
    }
  }

  // ---------------------------------------------------------------------
  // Properties of the generated program

  /** No label, id, rate expression or flow name of the graph contains a
      double quote (the generator does not escape them). */
  predicate GraphQuoteFree(nodes: seq<Node>, edges: seq<Edge>)
  {
    && (forall j :: 0 <= j < |nodes| ==> '"' !in nodes[j].text)
    && (forall i :: 0 <= i < |edges| ==>
          '"' !in edges[i].source && '"' !in edges[i].target && '"' !in edges[i].rate && '"' !in edges[i].flowName)
  }

  /** The generated program holds exactly one call per edge, in edge order,
      each carrying that edge's endpoints, rate and flow name with their
      fallbacks; reading the text back recovers them. */
  lemma ProgramRoundTrip(nodes: seq<Node>, edges: seq<Edge>)
    requires GraphQuoteFree(nodes, edges)
    ensures ParseProgram(Program(nodes, edges)).Some?
    ensures |ParseProgram(Program(nodes, edges)).value| == |edges|
    ensures forall i :: 0 <= i < |edges| ==> ParseProgram(Program(nodes, edges)).value[i] == Resolve(nodes, edges[i])
  {
    var cs := Calls(nodes, edges);
    forall i | 0 <= i < |cs| ensures QuoteFree(cs[i]) {
      var e := edges[i];
      assert EndpointName(nodes, e.source) == e.source || exists j :: 0 <= j < |nodes| && EndpointName(nodes, e.source) == nodes[j].text;
      assert EndpointName(nodes, e.target) == e.target || exists j :: 0 <= j < |nodes| && EndpointName(nodes, e.target) == nodes[j].text;
    }
    ParseProgramOf(cs);
  }

  /** With no edges the program is the header, an empty body and the footer. */
  lemma EmptyProgram(nodes: seq<Node>)
    ensures Program(nodes, []) == "mp_tmb_model_spec(during = list(\n\n))"
  {
    JoinThree(Header, Join(RenderAll(Calls(nodes, [])), Separator), Footer, "\n");
  }

  const ExampleNodes: seq<Node> := [Node("node_0", "S"), Node("node_1", "E"), Node("node_2", "I")]
  const ExampleEdges: seq<Edge> :=
    [Edge("e1", "node_0", "node_1", "beta*I/N", "foi"), Edge("e2", "node_1", "node_2", "sigma*E", "sigma_flow")]

  /** An edge whose endpoints are found with non-empty labels, and whose
      rate and flow name are set, generates a call with exactly those values. */
  lemma ResolveFound(nodes: seq<Node>, e: Edge, src: Node, dst: Node)
    requires FindNode(nodes, e.source) == Some(src) && src.text != ""
    requires FindNode(nodes, e.target) == Some(dst) && dst.text != ""
    requires e.rate != "" && e.flowName != ""
    ensures Resolve(nodes, e) == FlowCall(src.text, dst.text, e.rate, e.flowName)
  {
  }

  lemma ExampleCalls()
    ensures Calls(ExampleNodes, ExampleEdges)
         == [FlowCall("S", "E", "beta*I/N", "foi"), FlowCall("E", "I", "sigma*E", "sigma_flow")]
  {
    var nodes := ExampleNodes;
    var edges := ExampleEdges;
    assert FindNode(nodes, "node_0") == Some(nodes[0]);
    assert FindNode(nodes[1..], "node_1") == Some(nodes[1]);
    assert FindNode(nodes[1..][1..], "node_2") == Some(nodes[2]);
    ResolveFound(nodes, edges[0], nodes[0], nodes[1]);
    ResolveFound(nodes, edges[1], nodes[1], nodes[2]);
    CallsOfTwo(nodes, edges[0], edges[1]);
    assert edges == [edges[0], edges[1]];
  }

  lemma CallsOfTwo(nodes: seq<Node>, e1: Edge, e2: Edge)
    ensures Calls(nodes, [e1, e2]) == [Resolve(nodes, e1), Resolve(nodes, e2)]
  {
  }

  /** Two flows S to E and E to I, created in that order, give their two
      calls in that order with exactly the given values. */
  lemma TwoFlowExample()
    ensures Program(ExampleNodes, ExampleEdges)
      == Header + "\n"
       + Render(FlowCall("S", "E", "beta*I/N", "foi")) + ",\n"
       + Render(FlowCall("E", "I", "sigma*E", "sigma_flow")) + "\n"
       + Footer
  {
    ExampleCalls();
    TwoCallProgram(ExampleNodes, ExampleEdges, FlowCall("S", "E", "beta*I/N", "foi"), FlowCall("E", "I", "sigma*E", "sigma_flow"));
  }

  lemma TwoCallProgram(nodes: seq<Node>, edges: seq<Edge>, c1: FlowCall, c2: FlowCall)
    requires Calls(nodes, edges) == [c1, c2]
    ensures Program(nodes, edges) == Header + "\n" + Render(c1) + ",\n" + Render(c2) + "\n" + Footer
  {
    var lines := RenderAll([c1, c2]);
    assert lines[1..] == [Render(c2)];
    assert Join(lines, Separator) == Render(c1) + Separator + Render(c2);
    JoinThree(Header, Join(lines, Separator), Footer, "\n");
    Regroup(Header, "\n", Render(c1), Separator, Render(c2), Footer);
  }

  lemma Regroup(h: string, nl: string, x: string, sep: string, y: string, f: string)
    ensures h + nl + (x + sep + y) + nl + f == h + nl + x + sep + y + nl + f
  {
  }
}
