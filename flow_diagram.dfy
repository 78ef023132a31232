/** The Mermaid diagram generator: for one final data item, resolve its
    steps, record nodes, producers and readers, build the edges and draw
    them; and the same for every final data item. Each method walks the
    document the way the generator does and is proved to compute the
    specification in module FlowGraph and the rendering below. */
module FlowDiagram {
  import opened Common
  import opened OrderedDict
  import opened RequirementsDoc
  import opened FlowGraph
  import opened MermaidText

  // ---------------------------------------------------------------------
  // Rendering
  // ---------------------------------------------------------------------

  /** How a key is printed: Python prints None as `None`. */
  function KeyText(k: Key): string {
    match k
    case Named(n) => n
    case Unnamed => "None"
  }

  /** A node declaration: data nodes are drawn as parallelograms, steps as
      boxes. */
  function NodeLine(id: string, k: Key, t: NodeType): string {
    match t
    case Raw => "    " + id + "[/" + KeyText(k) + "/]"
    case Final => "    " + id + "[/" + KeyText(k) + "/]"
    case StepNode => "    " + id + "[" + KeyText(k) + "]"
  }

  /** An edge line, with the label only when it is not empty. */
  function EdgeLine(srcId: string, dstId: string, caption: string): string {
    "    " + srcId + " --> " + (if caption != "" then "|" + caption + "| " else "") + dstId
  }

  /** Each node paired with the identifier of its position. */
  function IdPairs(nodes: Dict<Key, NodeType>): Dict<Key, string> {
    seq(|nodes|, i requires 0 <= i < |nodes| => (nodes[i].0, IdOf(i)))
  }

  /** The identifier table, filled in node order. */
  function NodeIds(nodes: Dict<Key, NodeType>): Dict<Key, string> {
    PutAll([], IdPairs(nodes))
  }

  /** The declaration of every node, numbered in order. */
  function NodeLines(nodes: Dict<Key, NodeType>): (r: seq<string>)
    ensures |r| == |nodes|
  {
    if nodes == [] then []
    else
      var (k, t) := nodes[|nodes| - 1];
      NodeLines(nodes[..|nodes| - 1]) + [NodeLine(IdOf(|nodes| - 1), k, t)]
  }

  /** The line of every edge whose two ends have an identifier. */
  function EdgeLines(edges: seq<Edge>, ids: Dict<Key, string>): seq<string> {
    if edges == [] then []
    else
      var e := edges[|edges| - 1];
      EdgeLines(edges[..|edges| - 1], ids)
        + (if e.src in Keys(ids) && e.dst in Keys(ids)
           then [EdgeLine(Get(ids, e.src).value, Get(ids, e.dst).value, e.caption)]
           else [])
  }

  /** The header, one line per node, then one line per drawn edge. */
  function Lines(nodes: Dict<Key, NodeType>, edges: seq<Edge>): seq<string> {
    ["graph TD"] + NodeLines(nodes) + EdgeLines(edges, NodeIds(nodes))
  }

  /** The diagram of the resolved steps of `target`. */
  function Diagram(raws: seq<string>, target: string, rs: seq<ResolvedStep>): seq<string> {
    Lines(Nodes(raws, target, rs), Edges(raws, target, rs))
  }

  /** The diagram text for `target`: empty when it has no (or an empty)
      `processing` entry, an error when a bare step name does not resolve. */
  function Mermaid(target: string, doc: Document): Result<string, GenError> {
    var procs := Processing(doc);
    match Get(procs, target)
    case None => Success("")
    case Some(p) =>
      if p.steps.None? && !p.hasOtherKeys then Success("")
      else
        match ResolveAll(procs, StepsOf(p))
        case Failure(e) => Failure(e)
        case Success(rs) => Success(Join(Diagram(RawNames(doc), target, rs)))
  }

  /** The text is empty exactly when the target has no `processing` entry
      or an empty one; a drawn diagram always starts with its header. */
  lemma MermaidEmpty(target: string, doc: Document)
    ensures Mermaid(target, doc) == Success("") <==>
      Get(Processing(doc), target).None?
      || (Get(Processing(doc), target).value.steps.None? && !Get(Processing(doc), target).value.hasOtherKeys)
  {
    var procs := Processing(doc);
    if Get(procs, target).Some? {
      var p := Get(procs, target).value;
      if (p.steps.Some? || p.hasOtherKeys) && ResolveAll(procs, StepsOf(p)).Success? {
        var lines := Diagram(RawNames(doc), target, ResolveAll(procs, StepsOf(p)).value);
        assert lines[0] == "graph TD";
        JoinStartsWithFirst(lines);
      }
    }
  }

  /** The diagrams of `names` in turn, keyed by name; the first failure
      stops the run. */
  function MermaidFor(doc: Document, names: seq<string>): Result<Dict<string, string>, GenError> {
    if names == [] then Success([])
    else
      match MermaidFor(doc, names[..|names| - 1])
      case Failure(e) => Failure(e)
      case Success(d) =>
        match Mermaid(names[|names| - 1], doc)
        case Failure(e) => Failure(e)
        case Success(m) => Success(Put(d, names[|names| - 1], m))
  }

  /** The run succeeds iff every name's diagram does, and then it maps each
      name to its diagram and nothing else. */
  lemma {:induction false} MermaidForGet(doc: Document, names: seq<string>)
    ensures MermaidFor(doc, names).Success? <==> forall i :: 0 <= i < |names| ==> Mermaid(names[i], doc).Success?
    ensures MermaidFor(doc, names).Success? ==>
      forall t :: Get(MermaidFor(doc, names).value, t) == if t in names then Some(Mermaid(t, doc).value) else None
  {
    if names != [] {
      var names' := names[..|names| - 1];
      MermaidForGet(doc, names');
      assert forall i :: 0 <= i < |names'| ==> names'[i] == names[i];
      assert forall t :: t in names <==> t in names' || t == names[|names| - 1];
    }
  }

  /** The diagram of every final data item. */
  function AllMermaid(doc: Document): Result<Dict<string, string>, GenError> {
    MermaidFor(doc, Keys(Targets(doc)))
  }

  // ---------------------------------------------------------------------
  // Properties of the rendering
  // ---------------------------------------------------------------------

  /** The identifier table holds each node's identifier, found by its key. */
  lemma NodeIdsGet(nodes: Dict<Key, NodeType>, i: int)
    requires IsDict(nodes) && 0 <= i < |nodes|
    ensures Keys(NodeIds(nodes)) == Keys(nodes)
    ensures Get(NodeIds(nodes), nodes[i].0) == Some(IdOf(i))
  {
    assert Keys(IdPairs(nodes)) == Keys(nodes);
    PutAllDistinct(IdPairs(nodes));
    GetAt(IdPairs(nodes), i);
  }

  /** The `i`-th node is declared with the `i`-th identifier. */
  lemma {:induction false} NodeLinesAt(nodes: Dict<Key, NodeType>, i: int)
    requires 0 <= i < |nodes|
    ensures NodeLines(nodes)[i] == NodeLine(IdOf(i), nodes[i].0, nodes[i].1)
  {
    if i < |nodes| - 1 {
      var nodes' := nodes[..|nodes| - 1];
      NodeLinesAt(nodes', i);
      assert NodeLines(nodes)[i] == NodeLines(nodes')[i];
    }
  }

  /** When both ends of every edge have an identifier, there is one line per edge. */
  lemma {:induction false} EdgeLinesLength(edges: seq<Edge>, ids: Dict<Key, string>)
    requires forall e :: e in edges ==> e.src in Keys(ids) && e.dst in Keys(ids)
    ensures |EdgeLines(edges, ids)| == |edges|
  {
    if edges != [] {
      var edges' := edges[..|edges| - 1];
      assert forall e :: e in edges' ==> e in edges;
      EdgeLinesLength(edges', ids);
    }
  }

  /** ... and the `j`-th line joins the identifiers of the `j`-th edge's ends. */
  lemma {:induction false} EdgeLinesAt(edges: seq<Edge>, ids: Dict<Key, string>, j: int)
    requires forall e :: e in edges ==> e.src in Keys(ids) && e.dst in Keys(ids)
    requires 0 <= j < |edges|
    ensures |EdgeLines(edges, ids)| == |edges|
    ensures EdgeLines(edges, ids)[j] == EdgeLine(Get(ids, edges[j].src).value, Get(ids, edges[j].dst).value, edges[j].caption)
  {
    var edges' := edges[..|edges| - 1];
    assert forall e :: e in edges' ==> e in edges;
    EdgeLinesLength(edges', ids);
    if j < |edges| - 1 {
      EdgeLinesAt(edges', ids, j);
      assert edges'[j] == edges[j];
    }
  }

  /** The lines of a drawing: the header, then each node declared with the
      identifier of its position. */
  lemma LinesNodes(nodes: Dict<Key, NodeType>, edges: seq<Edge>)
    ensures |Lines(nodes, edges)| >= 1 + |nodes|
    ensures Lines(nodes, edges)[0] == "graph TD"
    ensures forall i :: 0 <= i < |nodes| ==> Lines(nodes, edges)[1 + i] == NodeLine(IdOf(i), nodes[i].0, nodes[i].1)
  {
    var lines := Lines(nodes, edges);
    forall i | 0 <= i < |nodes|
      ensures lines[1 + i] == NodeLine(IdOf(i), nodes[i].0, nodes[i].1)
    {
      NodeLinesAt(nodes, i);
      assert lines[1 + i] == NodeLines(nodes)[i];
    }
  }

  /** ... then, when both ends of every edge are nodes, one line per edge
      between the identifiers of its ends. */
  lemma LinesEdges(nodes: Dict<Key, NodeType>, edges: seq<Edge>)
    requires IsDict(nodes)
    requires forall e :: e in edges ==> e.src in Keys(nodes) && e.dst in Keys(nodes)
    ensures |Lines(nodes, edges)| == 1 + |nodes| + |edges|
    ensures forall j :: 0 <= j < |edges| ==>
      Lines(nodes, edges)[1 + |nodes| + j]
        == EdgeLine(IdOf(IndexOf(nodes, edges[j].src)), IdOf(IndexOf(nodes, edges[j].dst)), edges[j].caption)
  {
    NodeIdKeys(nodes);
    EdgeLinesLength(edges, NodeIds(nodes));
    forall j | 0 <= j < |edges|
      ensures Lines(nodes, edges)[1 + |nodes| + j]
              == EdgeLine(IdOf(IndexOf(nodes, edges[j].src)), IdOf(IndexOf(nodes, edges[j].dst)), edges[j].caption)
    {
      LinesEdgeAt(nodes, edges, j);
    }
  }

  /** The identifier table has exactly the node keys. */
  lemma NodeIdKeys(nodes: Dict<Key, NodeType>)
    requires IsDict(nodes)
    ensures Keys(NodeIds(nodes)) == Keys(nodes)
  {
    if nodes != [] {
      NodeIdsGet(nodes, 0);
    } else {
      assert IdPairs(nodes) == [];
    }
  }

  /** The line of the `j`-th edge. */
  lemma LinesEdgeAt(nodes: Dict<Key, NodeType>, edges: seq<Edge>, j: int)
    requires IsDict(nodes)
    requires forall e :: e in edges ==> e.src in Keys(nodes) && e.dst in Keys(nodes)
    requires 0 <= j < |edges|
    ensures |Lines(nodes, edges)| == 1 + |nodes| + |edges|
    ensures Lines(nodes, edges)[1 + |nodes| + j]
            == EdgeLine(IdOf(IndexOf(nodes, edges[j].src)), IdOf(IndexOf(nodes, edges[j].dst)), edges[j].caption)
  {
    var ids := NodeIds(nodes);
    NodeIdKeys(nodes);
    EdgeLinesAt(edges, ids, j);
    EdgeIds(nodes, edges[j]);
    var header := ["graph TD"] + NodeLines(nodes);
    assert Lines(nodes, edges) == header + EdgeLines(edges, ids);
    assert (header + EdgeLines(edges, ids))[|header| + j] == EdgeLines(edges, ids)[j];
  }

  /** The identifiers of an edge's ends are those of their positions. */
  lemma EdgeIds(nodes: Dict<Key, NodeType>, e: Edge)
    requires IsDict(nodes) && e.src in Keys(nodes) && e.dst in Keys(nodes)
    ensures Get(NodeIds(nodes), e.src) == Some(IdOf(IndexOf(nodes, e.src)))
    ensures Get(NodeIds(nodes), e.dst) == Some(IdOf(IndexOf(nodes, e.dst)))
  {
    NodeIdsGet(nodes, IndexOf(nodes, e.src));
    NodeIdsGet(nodes, IndexOf(nodes, e.dst));
  }

  /** Every edge of a diagram is drawn: after the header and the node
      declarations (`LinesNodes`) comes one line per edge, between the
      identifiers of its ends. */
  lemma DiagramEdges(raws: seq<string>, target: string, rs: seq<ResolvedStep>)
    ensures |Diagram(raws, target, rs)| == 1 + |Nodes(raws, target, rs)| + |Edges(raws, target, rs)|
    ensures forall j :: 0 <= j < |Edges(raws, target, rs)| ==>
      var nodes := Nodes(raws, target, rs);
      var e := Edges(raws, target, rs)[j];
      && e.src in Keys(nodes) && e.dst in Keys(nodes)
      && Diagram(raws, target, rs)[1 + |nodes| + j] == EdgeLine(IdOf(IndexOf(nodes, e.src)), IdOf(IndexOf(nodes, e.dst)), e.caption)
  {
    var nodes := Nodes(raws, target, rs);
    var edges := Edges(raws, target, rs);
    forall e | e in edges
      ensures e.src in Keys(nodes) && e.dst in Keys(nodes)
    {
      EdgesWithinNodes(raws, target, rs, e);
    }
    LinesEdges(nodes, edges);
  }

  /** Generation for a target fails iff its entry is non-empty and one of
      its bare step names is defined by no target. */
  lemma MermaidFails(target: string, doc: Document)
    ensures Mermaid(target, doc).Failure? <==>
      var procs := Processing(doc);
      && Get(procs, target).Some?
      && var p := Get(procs, target).value;
         && (p.steps.Some? || p.hasOtherKeys)
         && exists i :: 0 <= i < |StepsOf(p)| && StepsOf(p)[i].Reuse? && !DefinesStep(procs, StepsOf(p)[i].reused)
  {
    var procs := Processing(doc);
    if Get(procs, target).Some? {
      var steps := StepsOf(Get(procs, target).value);
      forall i | 0 <= i < |steps| && steps[i].Reuse?
        ensures Resolve(procs, steps[i]).Failure? <==> !DefinesStep(procs, steps[i].reused)
      {
        FindDefinitionDefines(procs, steps[i].reused);
      }
      ResolveAllSuccess(procs, steps);
    }
  }

  /** Every final data item gets its diagram, in `required_data` order,
      unless one of them fails. */
  lemma {:induction false} MermaidForKeys(doc: Document, names: seq<string>)
    requires MermaidFor(doc, names).Success?
    ensures Keys(MermaidFor(doc, names).value) == FirstOccurrences(names)
  {
    if names != [] {
      var names' := names[..|names| - 1];
      MermaidForKeys(doc, names');
    }
  }

  // ---------------------------------------------------------------------
  // The generator
  // ---------------------------------------------------------------------

  /** The search for the definition of a bare step name: each target's steps
      up to its first match, every target in turn. */
  method FindReusedStep(procs: Dict<string, ProcessingEntry>, stepName: string) returns (found: Option<Step>)
    ensures found == FindDefinition(procs, stepName)
  {
    found := None;
    var i := 0;
    while i < |procs|
      invariant 0 <= i <= |procs|
      invariant found == FindDefinition(procs[..i], stepName)
    {
      var steps := StepsOf(procs[i].1);
      var j := 0;
      while j < |steps|
        invariant 0 <= j <= |steps|
        invariant FirstDefinition(steps[j..], stepName) == FirstDefinition(steps, stepName)
        invariant found == FindDefinition(procs[..i], stepName)
      {
        if Defines(steps[j], stepName) {
          found := Some(steps[j]);
          break;
        }
        assert steps[j..][1..] == steps[j + 1..];
        j := j + 1;
      }
      assert procs[..i + 1][..i] == procs[..i];
      i := i + 1;
    }
    assert procs[..i] == procs;
  }

  /** The walk over a target's steps: resolve each one, record it as a step
      node, as a reader of each input and as the source of each output.
      Stops at the first bare name that does not resolve. */
  method CollectSteps(procs: Dict<string, ProcessingEntry>, steps: seq<Step>, nodes0: Dict<Key, NodeType>)
    returns (failure: Option<GenError>, nodes: Dict<Key, NodeType>, sources: Dict<string, Key>, consumers: Dict<string, seq<Key>>)
    ensures failure.Some? <==> ResolveAll(procs, steps).Failure?
    ensures failure.Some? ==> failure.value == ResolveAll(procs, steps).error
    ensures failure.None? ==>
      var rs := ResolveAll(procs, steps).value;
      nodes == PutEach(nodes0, StepKeys(rs), StepNode) && sources == Sources(rs) && consumers == Consumers(rs)
  {
    failure, nodes, sources, consumers := None, nodes0, [], [];
    ghost var rs: seq<ResolvedStep> := [];
    var j := 0;
    while j < |steps|
      invariant 0 <= j <= |steps|
      invariant ResolveAll(procs, steps[..j]) == Success(rs)
      invariant nodes == PutEach(nodes0, StepKeys(rs), StepNode)
      invariant sources == Sources(rs) && consumers == Consumers(rs)
    {
      var resolved := ResolveStep(procs, steps[j]);
      if resolved.Failure? {
        CollectStops(procs, steps, j, rs);
        return Some(resolved.error), nodes, sources, consumers;
      }
      var r := resolved.value;
      CollectOneMore(procs, steps, j, rs, r, nodes0);
      nodes := Put(nodes, r.key, StepNode);
      consumers := RecordReaders(consumers, r.inputs, r.key);
      sources := RecordSources(sources, r.outputs, r.key);
      rs := rs + [r];
      j := j + 1;
    }
    assert steps[..j] == steps;
  }

  /** A step that does not resolve is the outcome of the whole resolution. */
  lemma CollectStops(procs: Dict<string, ProcessingEntry>, steps: seq<Step>, j: int, rs: seq<ResolvedStep>)
    requires 0 <= j < |steps|
    requires ResolveAll(procs, steps[..j]) == Success(rs) && Resolve(procs, steps[j]).Failure?
    ensures ResolveAll(procs, steps) == Failure(Resolve(procs, steps[j]).error)
  {
    assert steps[..j + 1][..j] == steps[..j];
    ResolveAllPrefixFailure(procs, steps, j + 1);
  }

  /** Resolving the next step extends the resolved prefix by that step. */
  lemma CollectOneMore(procs: Dict<string, ProcessingEntry>, steps: seq<Step>, j: int, rs: seq<ResolvedStep>, r: ResolvedStep,
                       nodes0: Dict<Key, NodeType>)
    requires 0 <= j < |steps|
    requires ResolveAll(procs, steps[..j]) == Success(rs) && Resolve(procs, steps[j]) == Success(r)
    ensures ResolveAll(procs, steps[..j + 1]) == Success(rs + [r])
    ensures PutEach(nodes0, StepKeys(rs + [r]), StepNode) == Put(PutEach(nodes0, StepKeys(rs), StepNode), r.key, StepNode)
    ensures Sources(rs + [r]) == PutEach(Sources(rs), r.outputs, r.key)
    ensures Consumers(rs + [r]) == AppendEach(Consumers(rs), r.inputs, r.key)
  {
    assert steps[..j + 1][..j] == steps[..j];
    RecordOneMore(rs, r, nodes0);
  }

  /** Recording one more resolved step adds its node, its outputs and its
      inputs after those of the steps before it. */
  lemma RecordOneMore(rs: seq<ResolvedStep>, r: ResolvedStep, nodes0: Dict<Key, NodeType>)
    ensures PutEach(nodes0, StepKeys(rs + [r]), StepNode) == Put(PutEach(nodes0, StepKeys(rs), StepNode), r.key, StepNode)
    ensures Sources(rs + [r]) == PutEach(Sources(rs), r.outputs, r.key)
    ensures Consumers(rs + [r]) == AppendEach(Consumers(rs), r.inputs, r.key)
  {
    assert (rs + [r])[..|rs|] == rs;
    assert StepKeys(rs + [r])[..|rs|] == StepKeys(rs);
  }

  /** Resolves one step: a reused step through its definition, an inline
      step as it stands. */
  method ResolveStep(procs: Dict<string, ProcessingEntry>, step: Step) returns (r: Result<ResolvedStep, GenError>)
    ensures r == Resolve(procs, step)
  {
    match step {
      case Reuse(stepName) =>
        var definition := FindReusedStep(procs, stepName);
        if definition.None? {
          return Failure(UnresolvedStep(stepName));
        }
        r := Success(ResolvedStep(Named(stepName), InputNames(definition.value.inputData), definition.value.outputData.GetOr([])));
      case Inline(name, inputData, outputData) =>
        r := Success(ResolvedStep(StepKey(name), InputNames(inputData), outputData.GetOr([])));
    }
  }

  /** Declaring one more node adds its identifier and its line. */
  lemma DeclareOneMore(nodes: Dict<Key, NodeType>, c: int)
    requires 0 <= c < |nodes|
    ensures PutAll([], IdPairs(nodes)[..c + 1]) == Put(PutAll([], IdPairs(nodes)[..c]), nodes[c].0, IdOf(c))
    ensures ["graph TD"] + NodeLines(nodes[..c + 1]) == ["graph TD"] + NodeLines(nodes[..c]) + [NodeLine(IdOf(c), nodes[c].0, nodes[c].1)]
  {
    assert IdPairs(nodes)[..c + 1][..c] == IdPairs(nodes)[..c];
    assert nodes[..c + 1][..c] == nodes[..c];
    AppendAssociative(["graph TD"], NodeLines(nodes[..c]), [NodeLine(IdOf(c), nodes[c].0, nodes[c].1)]);
  }

  /** Records `key` as a reader of each input name. */
  method RecordReaders(consumers0: Dict<string, seq<Key>>, inputs: seq<string>, key: Key) returns (consumers: Dict<string, seq<Key>>)
    ensures consumers == AppendEach(consumers0, inputs, key)
  {
    consumers := consumers0;
    var k := 0;
    while k < |inputs|
      invariant 0 <= k <= |inputs|
      invariant consumers == AppendEach(consumers0, inputs[..k], key)
    {
      assert inputs[..k + 1][..k] == inputs[..k];
      consumers := Append(consumers, inputs[k], key);
      k := k + 1;
    }
    assert inputs[..k] == inputs;
  }

  /** Records `key` as the source of each output name. */
  method RecordSources(sources0: Dict<string, Key>, outputs: seq<string>, key: Key) returns (sources: Dict<string, Key>)
    ensures sources == PutEach(sources0, outputs, key)
  {
    sources := sources0;
    var k := 0;
    while k < |outputs|
      invariant 0 <= k <= |outputs|
      invariant sources == PutEach(sources0, outputs[..k], key)
    {
      assert outputs[..k + 1][..k] == outputs[..k];
      sources := Put(sources, outputs[k], key);
      k := k + 1;
    }
    assert outputs[..k] == outputs;
  }

  /** Appends one edge from `src` to each reader. */
  method AddReaderEdges(edges0: seq<Edge>, src: Key, readers: seq<Key>, caption: string) returns (edges: seq<Edge>)
    ensures edges == edges0 + ConsumerEdges(src, readers, caption)
  {
    edges := edges0;
    var k := 0;
    while k < |readers|
      invariant 0 <= k <= |readers|
      invariant edges == edges0 + ConsumerEdges(src, readers[..k], caption)
    {
      assert ConsumerEdges(src, readers[..k + 1], caption) == ConsumerEdges(src, readers[..k], caption) + [Edge(src, readers[k], caption)];
      edges := edges + [Edge(src, readers[k], caption)];
      k := k + 1;
    }
    assert readers[..k] == readers;
  }

  /** The edges of every output in source order, then those of the raw inputs. */
  method BuildEdges(raws: seq<string>, target: string, sources: Dict<string, Key>, consumers: Dict<string, seq<Key>>)
    returns (edges: seq<Edge>)
    ensures edges == ProducedEdges(sources, consumers, target) + RawEdges(raws, consumers)
  {
    var produced := AddProducedEdges(sources, consumers, target);
    var fromRaws := AddRawEdges(raws, consumers);
    edges := produced + fromRaws;
  }

  /** For each output and its source: an edge to the final node when the
      output is the target, none when nobody reads it, otherwise one edge
      per reader. */
  method AddProducedEdges(sources: Dict<string, Key>, consumers: Dict<string, seq<Key>>, target: string)
    returns (edges: seq<Edge>)
    ensures edges == ProducedEdges(sources, consumers, target)
  {
    edges := [];
    var i := 0;
    while i < |sources|
      invariant 0 <= i <= |sources|
      invariant edges == ProducedEdges(sources[..i], consumers, target)
    {
      assert sources[..i + 1][..i] == sources[..i];
      var (outputName, sourceStep) := sources[i];
      var readers := Get(consumers, outputName).GetOr([]);
      if outputName == target {
        edges := edges + [Edge(sourceStep, Named(outputName), outputName)];
      } else if readers == [] {
        // an intermediate output nobody reads is not drawn
      } else {
        edges := AddReaderEdges(edges, sourceStep, readers, outputName);
      }
      i := i + 1;
    }
    assert sources[..i] == sources;
  }

  /** Unlabelled edges from each raw input that some step reads. */
  method AddRawEdges(raws: seq<string>, consumers: Dict<string, seq<Key>>) returns (edges: seq<Edge>)
    ensures edges == RawEdges(raws, consumers)
  {
    edges := [];
    var i := 0;
    while i < |raws|
      invariant 0 <= i <= |raws|
      invariant edges == RawEdges(raws[..i], consumers)
    {
      assert raws[..i + 1][..i] == raws[..i];
      var readers := Get(consumers, raws[i]);
      if readers.Some? {
        edges := AddReaderEdges(edges, Named(raws[i]), readers.value, "");
      }
      i := i + 1;
    }
    assert raws[..i] == raws;
  }

  /** Numbers the nodes in order, declares each, then draws each edge whose
      ends both have an identifier. */
  method Render(nodes: Dict<Key, NodeType>, edges: seq<Edge>) returns (lines: seq<string>)
    ensures lines == Lines(nodes, edges)
  {
    var nodeId;
    lines, nodeId := DeclareNodes(nodes);
    lines := DrawEdges(lines, edges, nodeId);
  }

  /** The header and a declaration per node, with the identifier table. */
  method DeclareNodes(nodes: Dict<Key, NodeType>) returns (lines: seq<string>, nodeId: Dict<Key, string>)
    ensures lines == ["graph TD"] + NodeLines(nodes)
    ensures nodeId == NodeIds(nodes)
  {
    lines := ["graph TD"];
    nodeId := [];
    var counter := 0;
    while counter < |nodes|
      invariant 0 <= counter <= |nodes|
      invariant nodeId == PutAll([], IdPairs(nodes)[..counter])
      invariant lines == ["graph TD"] + NodeLines(nodes[..counter])
    {
      var (nodeName, nodeType) := nodes[counter];
      DeclareOneMore(nodes, counter);
      nodeId := Put(nodeId, nodeName, IdOf(counter));
      lines := lines + [NodeLine(IdOf(counter), nodeName, nodeType)];
      counter := counter + 1;
    }
    assert IdPairs(nodes)[..counter] == IdPairs(nodes);
    assert nodes[..counter] == nodes;
  }

  /** Appends the line of each edge whose two ends have an identifier. */
  method DrawEdges(lines0: seq<string>, edges: seq<Edge>, nodeId: Dict<Key, string>) returns (lines: seq<string>)
    ensures lines == lines0 + EdgeLines(edges, nodeId)
  {
    lines := lines0;
    var j := 0;
    while j < |edges|
      invariant 0 <= j <= |edges|
      invariant lines == lines0 + EdgeLines(edges[..j], nodeId)
    {
      EdgeLinesNext(lines0, edges, j, nodeId);
      var e := edges[j];
      if e.src in Keys(nodeId) && e.dst in Keys(nodeId) {
        lines := lines + [EdgeLine(Get(nodeId, e.src).value, Get(nodeId, e.dst).value, e.caption)];
      }
      j := j + 1;
    }
    assert edges[..j] == edges;
  }

  /** Drawing one more edge appends its line, if any, after the others. */
  lemma EdgeLinesNext(lines0: seq<string>, edges: seq<Edge>, j: int, ids: Dict<Key, string>)
    requires 0 <= j < |edges|
    ensures lines0 + EdgeLines(edges[..j + 1], ids)
            == lines0 + EdgeLines(edges[..j], ids)
               + (if edges[j].src in Keys(ids) && edges[j].dst in Keys(ids)
                  then [EdgeLine(Get(ids, edges[j].src).value, Get(ids, edges[j].dst).value, edges[j].caption)]
                  else [])
  {
    assert edges[..j + 1][..j] == edges[..j];
    var e := edges[j];
    AppendAssociative(lines0, EdgeLines(edges[..j], ids),
                      if e.src in Keys(ids) && e.dst in Keys(ids) then [EdgeLine(Get(ids, e.src).value, Get(ids, e.dst).value, e.caption)] else []);
  }

  /** A raw-data node for each raw input, in order. */
  method DeclareRawNodes(raws: seq<string>) returns (nodes: Dict<Key, NodeType>)
    ensures nodes == PutEach([], NamedKeys(raws), Raw)
  {
    nodes := [];
    var i := 0;
    while i < |raws|
      invariant 0 <= i <= |raws|
      invariant nodes == PutEach([], NamedKeys(raws[..i]), Raw)
    {
      ghost var keys := NamedKeys(raws[..i + 1]);
      assert keys[..i] == NamedKeys(raws[..i]) && keys[i] == Named(raws[i]);
      assert PutEach([], keys, Raw) == Put(PutEach([], keys[..i], Raw), keys[i], Raw);
      nodes := Put(nodes, Named(raws[i]), Raw);
      i := i + 1;
    }
    assert raws[..i] == raws;
  }

  /** The diagram for one final data item. */
  method GenerateMermaidForData(dataName: string, doc: Document) returns (r: Result<string, GenError>)
    ensures r == Mermaid(dataName, doc)
  {
    var procs := Processing(doc);
    var processing := Get(procs, dataName);
    if processing.None? || (processing.value.steps.None? && !processing.value.hasOtherKeys) {
      return Success("");
    }
    var raws := RawNames(doc);
    var nodes := DeclareRawNodes(raws);
    nodes := Put(nodes, Named(dataName), Final);
    var failure, allNodes, sources, consumers := CollectSteps(procs, StepsOf(processing.value), nodes);
    if failure.Some? {
      return Failure(failure.value);
    }
    var edges := BuildEdges(raws, dataName, sources, consumers);
    var lines := Render(allNodes, edges);
    return Success(Join(lines));
  }

  /** The diagram of every final data item, keyed by its name. */
  method GenerateAllMermaid(doc: Document) returns (r: Result<Dict<string, string>, GenError>)
    ensures r == AllMermaid(doc)
  {
    var names := Keys(Targets(doc));
    var results: Dict<string, string> := [];
    var i := 0;
    while i < |names|
      invariant 0 <= i <= |names|
      invariant MermaidFor(doc, names[..i]) == Success(results)
    {
      var mermaid := GenerateMermaidForData(names[i], doc);
      MermaidForOneMore(doc, names, i, results);
      if mermaid.Failure? {
        MermaidForPrefixFailure(doc, names, i + 1);
        return Failure(mermaid.error);
      }
      results := Put(results, names[i], mermaid.value);
      i := i + 1;
    }
    assert names[..i] == names;
    return Success(results);
  }

  /** One more name either fails the run or adds its diagram. */
  lemma MermaidForOneMore(doc: Document, names: seq<string>, i: int, results: Dict<string, string>)
    requires 0 <= i < |names| && MermaidFor(doc, names[..i]) == Success(results)
    ensures MermaidFor(doc, names[..i + 1])
            == match Mermaid(names[i], doc)
               case Failure(e) => Failure(e)
               case Success(m) => Success(Put(results, names[i], m))
  {
    assert names[..i + 1][..i] == names[..i];
  }

  /** Once the diagrams of a prefix fail, the whole run fails the same way. */
  lemma {:induction false} MermaidForPrefixFailure(doc: Document, names: seq<string>, k: int)
    requires 0 <= k <= |names| && MermaidFor(doc, names[..k]).Failure?
    ensures MermaidFor(doc, names) == MermaidFor(doc, names[..k])
    decreases |names|
  {
    if k < |names| {
      var names' := names[..|names| - 1];
      assert names'[..k] == names[..k];
      MermaidForPrefixFailure(doc, names', k);
    } else {
      assert names[..k] == names;
    }
  }
}
