/** The data-flow graph drawn for one final data item: how bare step names
    are resolved, which nodes exist and with which type, which step last
    produces each output, which steps read each input, and the edges that
    follow. These are the specification functions of the diagram generator. */
module FlowGraph {
  import opened Common
  import opened OrderedDict
  import opened RequirementsDoc

  /** A node key. A mapping step without `name` is keyed by Python's None,
      which the diagram renders as the text `None`. */
  datatype Key = Named(name: string) | Unnamed

  datatype NodeType = Raw | Final | StepNode

  /** An edge from `src` to `dst`, labelled with a data name or unlabelled (""). */
  datatype Edge = Edge(src: Key, dst: Key, caption: string)

  /** A bare step name no mapping step defines: the generator then reads a
      key of a string and raises. */
  datatype GenError = UnresolvedStep(name: string)

  /** A step as the generator uses it: its key, the names it reads and the
      names it writes. */
  datatype ResolvedStep = ResolvedStep(key: Key, inputs: seq<string>, outputs: seq<string>)

  // ---------------------------------------------------------------------
  // Resolving bare step names
  // ---------------------------------------------------------------------

  /** The first mapping step named `n` in one target's steps. */
  function FirstDefinition(steps: seq<Step>, n: string): (r: Option<Step>)
    ensures r.Some? ==> Defines(r.value, n) && r.value in steps
    ensures r.None? <==> forall j :: 0 <= j < |steps| ==> !Defines(steps[j], n)
  {
    if steps == [] then None
    else if Defines(steps[0], n) then Some(steps[0])
    else
      assert forall j :: 0 < j < |steps| ==> steps[j] == steps[1..][j - 1];
      FirstDefinition(steps[1..], n)
  }

  /** The definition found in one target's steps is the first step of the
      list that defines the name: the search stops at the first match. */
  lemma {:induction false} FirstDefinitionFirst(steps: seq<Step>, n: string)
    ensures FirstDefinition(steps, n).Some? ==>
      exists j :: 0 <= j < |steps| && steps[j] == FirstDefinition(steps, n).value
        && forall k :: 0 <= k < j ==> !Defines(steps[k], n)
  {
    if steps != [] && !Defines(steps[0], n) && FirstDefinition(steps, n).Some? {
      var rest := steps[1..];
      FirstDefinitionFirst(rest, n);
      var j :| 0 <= j < |rest| && rest[j] == FirstDefinition(rest, n).value
        && forall k :: 0 <= k < j ==> !Defines(rest[k], n);
      assert steps[j + 1] == rest[j];
      assert forall k :: 1 <= k < j + 1 ==> steps[k] == rest[k - 1];
    }
  }

  /** The definition a bare step name resolves to: the search goes through
      every target and only stops inside one target, so a later target's
      definition replaces an earlier one. */
  function FindDefinition(procs: Dict<string, ProcessingEntry>, n: string): (r: Option<Step>)
    ensures r.Some? ==> Defines(r.value, n)
  {
    if procs == [] then None
    else
      match FirstDefinition(StepsOf(procs[|procs| - 1].1), n)
      case Some(s) => Some(s)
      case None => FindDefinition(procs[..|procs| - 1], n)
  }

  /** A bare name resolves iff some target defines a step of that name. */
  lemma {:induction false} FindDefinitionDefines(procs: Dict<string, ProcessingEntry>, n: string)
    ensures FindDefinition(procs, n).Some? <==> DefinesStep(procs, n)
  {
    if procs != [] {
      var procs' := procs[..|procs| - 1];
      FindDefinitionDefines(procs', n);
      var last := StepsOf(procs[|procs| - 1].1);
      if FirstDefinition(last, n).None? {
        assert forall i :: 0 <= i < |procs'| ==> procs'[i] == procs[i];
        if DefinesStep(procs, n) {
          var i, j :| 0 <= i < |procs| && 0 <= j < |StepsOf(procs[i].1)| && Defines(StepsOf(procs[i].1)[j], n);
          assert i < |procs'|;
          assert DefinesStep(procs', n);
        }
      } else {
        var s := FirstDefinition(last, n).value;
        var j :| 0 <= j < |last| && last[j] == s;
        assert Defines(StepsOf(procs[|procs| - 1].1)[j], n);
      }
    }
  }

  /** The definition used is the first one in the last target that has one. */
  lemma {:induction false} FindDefinitionLast(procs: Dict<string, ProcessingEntry>, n: string, i: int)
    requires 0 <= i < |procs| && FirstDefinition(StepsOf(procs[i].1), n).Some?
    requires forall k :: i < k < |procs| ==> FirstDefinition(StepsOf(procs[k].1), n).None?
    ensures FindDefinition(procs, n) == FirstDefinition(StepsOf(procs[i].1), n)
  {
    if i < |procs| - 1 {
      var procs' := procs[..|procs| - 1];
      assert procs'[i] == procs[i];
      assert forall k :: i < k < |procs'| ==> procs'[k] == procs[k];
      FindDefinitionLast(procs', n, i);
    }
  }

  /** The key of a mapping step. */
  function StepKey(name: Option<string>): Key {
    if name.Some? then Named(name.value) else Unnamed
  }

  /** A bare name takes the inputs and outputs of its definition and keeps
      its own name as key; a mapping step stands for itself. */
  function Resolve(procs: Dict<string, ProcessingEntry>, s: Step): Result<ResolvedStep, GenError> {
    match s
    case Reuse(n) =>
      (match FindDefinition(procs, n)
       case None => Failure(UnresolvedStep(n))
       case Some(d) => Success(ResolvedStep(Named(n), InputNames(d.inputData), d.outputData.GetOr([]))))
    case Inline(name, inputData, outputData) =>
      Success(ResolvedStep(StepKey(name), InputNames(inputData), outputData.GetOr([])))
  }

  /** Resolving a target's steps in order; the first failure is the outcome. */
  function ResolveAll(procs: Dict<string, ProcessingEntry>, steps: seq<Step>): (r: Result<seq<ResolvedStep>, GenError>)
    ensures r.Success? ==> |r.value| == |steps|
  {
    if steps == [] then Success([])
    else
      match ResolveAll(procs, steps[..|steps| - 1])
      case Failure(e) => Failure(e)
      case Success(rs) =>
        match Resolve(procs, steps[|steps| - 1])
        case Failure(e) => Failure(e)
        case Success(r) => Success(rs + [r])
  }

  /** Resolution succeeds iff every step resolves, and then the i-th
      resolved step is the i-th step's resolution. */
  lemma {:induction false} ResolveAllSuccess(procs: Dict<string, ProcessingEntry>, steps: seq<Step>)
    ensures ResolveAll(procs, steps).Success? <==> forall i :: 0 <= i < |steps| ==> Resolve(procs, steps[i]).Success?
    ensures ResolveAll(procs, steps).Success? ==>
      forall i :: 0 <= i < |steps| ==> Resolve(procs, steps[i]) == Success(ResolveAll(procs, steps).value[i])
  {
    if steps != [] {
      var steps' := steps[..|steps| - 1];
      ResolveAllSuccess(procs, steps');
      assert forall i :: 0 <= i < |steps'| ==> steps'[i] == steps[i];
    }
  }

  /** Once a prefix fails, the whole list fails the same way. */
  lemma {:induction false} ResolveAllPrefixFailure(procs: Dict<string, ProcessingEntry>, steps: seq<Step>, k: int)
    requires 0 <= k <= |steps| && ResolveAll(procs, steps[..k]).Failure?
    ensures ResolveAll(procs, steps) == ResolveAll(procs, steps[..k])
    decreases |steps|
  {
    if k < |steps| {
      var steps' := steps[..|steps| - 1];
      assert steps'[..k] == steps[..k];
      ResolveAllPrefixFailure(procs, steps', k);
    } else {
      assert steps[..k] == steps;
    }
  }

  /** A failure names the first step that does not resolve. */
  lemma {:induction false} ResolveAllFailure(procs: Dict<string, ProcessingEntry>, steps: seq<Step>)
    requires ResolveAll(procs, steps).Failure?
    ensures exists i :: 0 <= i < |steps| && Resolve(procs, steps[i]) == Failure(ResolveAll(procs, steps).error)
                        && (forall j :: 0 <= j < i ==> Resolve(procs, steps[j]).Success?)
  {
    var steps' := steps[..|steps| - 1];
    assert forall i :: 0 <= i < |steps'| ==> steps'[i] == steps[i];
    if ResolveAll(procs, steps').Failure? {
      ResolveAllFailure(procs, steps');
      var i :| 0 <= i < |steps'| && Resolve(procs, steps'[i]) == Failure(ResolveAll(procs, steps').error)
                 && (forall j :: 0 <= j < i ==> Resolve(procs, steps'[j]).Success?);
      assert Resolve(procs, steps[i]) == Failure(ResolveAll(procs, steps).error);
    } else {
      ResolveAllSuccess(procs, steps');
      assert Resolve(procs, steps[|steps| - 1]) == Failure(ResolveAll(procs, steps).error);
    }
  }

  // ---------------------------------------------------------------------
  // Nodes
  // ---------------------------------------------------------------------

  function NamedKeys(names: seq<string>): seq<Key> {
    seq(|names|, i requires 0 <= i < |names| => Named(names[i]))
  }

  function StepKeys(rs: seq<ResolvedStep>): seq<Key> {
    seq(|rs|, i requires 0 <= i < |rs| => rs[i].key)
  }

  /** The raw-data nodes, then the final node. */
  function BaseNodes(raws: seq<string>, target: string): Dict<Key, NodeType> {
    Put(PutEach([], NamedKeys(raws), Raw), Named(target), Final)
  }

  /** Every node with its type: a later assignment overrides the type but
      keeps the key's place, so a step wins over the final data, and the
      final data over a raw input, of the same name. */
  function Nodes(raws: seq<string>, target: string, rs: seq<ResolvedStep>): (r: Dict<Key, NodeType>)
    ensures IsDict(r)
    ensures forall k :: Get(r, k) == (
              if k in StepKeys(rs) then Some(StepNode)
              else if k == Named(target) then Some(Final)
              else if k in NamedKeys(raws) then Some(Raw)
              else None)
  {
    PutEach(BaseNodes(raws, target), StepKeys(rs), StepNode)
  }

  /** Nodes are ordered by the first time their key is assigned. */
  lemma NodesOrder(raws: seq<string>, target: string, rs: seq<ResolvedStep>)
    ensures Keys(Nodes(raws, target, rs)) == FirstOccurrences(NamedKeys(raws) + [Named(target)] + StepKeys(rs))
  {
    var d0: Dict<Key, NodeType> := [];
    var rawNodes := PutEach(d0, NamedKeys(raws), Raw);
    PutEachKeys(d0, NamedKeys(raws), Raw);
    assert Keys(d0) + NamedKeys(raws) == NamedKeys(raws);
    var a := NamedKeys(raws) + [Named(target)];
    assert a[..|a| - 1] == NamedKeys(raws);
    assert Keys(BaseNodes(raws, target)) == FirstOccurrences(a) by {
      assert BaseNodes(raws, target) == Put(rawNodes, Named(target), Final);
    }
    PutEachKeys(BaseNodes(raws, target), StepKeys(rs), StepNode);
    FirstOccurrencesAppend(a, StepKeys(rs));
  }

  // ---------------------------------------------------------------------
  // Producers and readers of each data name
  // ---------------------------------------------------------------------

  /** For each output name, the step that writes it, the last writer winning. */
  function Sources(rs: seq<ResolvedStep>): (r: Dict<string, Key>)
    ensures IsDict(r)
  {
    if rs == [] then []
    else PutEach(Sources(rs[..|rs| - 1]), rs[|rs| - 1].outputs, rs[|rs| - 1].key)
  }

  /** For each input name, the steps that read it. */
  function Consumers(rs: seq<ResolvedStep>): (r: Dict<string, seq<Key>>)
    ensures IsDict(r)
  {
    if rs == [] then []
    else AppendEach(Consumers(rs[..|rs| - 1]), rs[|rs| - 1].inputs, rs[|rs| - 1].key)
  }

  /** The output names of the steps, in order. */
  function AllOutputs(rs: seq<ResolvedStep>): seq<string> {
    if rs == [] then [] else AllOutputs(rs[..|rs| - 1]) + rs[|rs| - 1].outputs
  }

  /** The steps reading `x`, in step order, once for each time they list it. */
  function ReadersOf(rs: seq<ResolvedStep>, x: string): seq<Key> {
    if rs == [] then []
    else ReadersOf(rs[..|rs| - 1], x) + Repeat(rs[|rs| - 1].key, multiset(rs[|rs| - 1].inputs)[x])
  }

  /** The step recorded for an output is the last step that writes it. */
  lemma {:induction false} SourcesLastWriter(rs: seq<ResolvedStep>, i: int, o: string)
    requires 0 <= i < |rs| && o in rs[i].outputs
    requires forall j :: i < j < |rs| ==> o !in rs[j].outputs
    ensures Get(Sources(rs), o) == Some(rs[i].key)
  {
    if i < |rs| - 1 {
      var rs' := rs[..|rs| - 1];
      assert rs'[i] == rs[i];
      assert forall j :: i < j < |rs'| ==> rs'[j] == rs[j];
      SourcesLastWriter(rs', i, o);
    }
  }

  /** An output has a recorded source iff some step writes it, and that
      source is one of the steps. */
  lemma SourcesDefined(rs: seq<ResolvedStep>, o: string)
    ensures Get(Sources(rs), o).Some? <==> exists i :: 0 <= i < |rs| && o in rs[i].outputs
    ensures Get(Sources(rs), o).Some? ==> Get(Sources(rs), o).value in StepKeys(rs)
  {
    if Get(Sources(rs), o).Some? {
      var i := SourceWriter(rs, o);
      assert StepKeys(rs)[i] == rs[i].key;
    }
    if exists i :: 0 <= i < |rs| && o in rs[i].outputs {
      var i :| 0 <= i < |rs| && o in rs[i].outputs;
      SourceRecorded(rs, i, o);
    }
  }

  /** A recorded source is a step that writes the output. */
  lemma {:induction false} SourceWriter(rs: seq<ResolvedStep>, o: string) returns (i: int)
    requires Get(Sources(rs), o).Some?
    ensures 0 <= i < |rs| && o in rs[i].outputs && Get(Sources(rs), o) == Some(rs[i].key)
  {
    var rs' := rs[..|rs| - 1];
    if o in rs[|rs| - 1].outputs {
      i := |rs| - 1;
    } else {
      i := SourceWriter(rs', o);
      assert rs[i] == rs'[i];
    }
  }

  /** A written output has a recorded source. */
  lemma {:induction false} SourceRecorded(rs: seq<ResolvedStep>, i: int, o: string)
    requires 0 <= i < |rs| && o in rs[i].outputs
    ensures Get(Sources(rs), o).Some?
  {
    var rs' := rs[..|rs| - 1];
    if i < |rs| - 1 && o !in rs[|rs| - 1].outputs {
      assert rs'[i] == rs[i];
      SourceRecorded(rs', i, o);
    }
  }

  /** Sources are ordered by the first time an output is written. */
  lemma {:induction false} SourcesOrder(rs: seq<ResolvedStep>)
    ensures Keys(Sources(rs)) == FirstOccurrences(AllOutputs(rs))
  {
    if rs != [] {
      var rs' := rs[..|rs| - 1];
      SourcesOrder(rs');
      PutEachKeys(Sources(rs'), rs[|rs| - 1].outputs, rs[|rs| - 1].key);
      FirstOccurrencesAppend(AllOutputs(rs'), rs[|rs| - 1].outputs);
    }
  }

  /** The readers recorded for a name are exactly the steps reading it, in
      step order; a name is recorded iff some step reads it. */
  lemma {:induction false} ConsumersGet(rs: seq<ResolvedStep>, x: string)
    ensures Get(Consumers(rs), x).GetOr([]) == ReadersOf(rs, x)
    ensures Get(Consumers(rs), x).Some? <==> exists i :: 0 <= i < |rs| && x in rs[i].inputs
  {
    if rs != [] {
      var rs' := rs[..|rs| - 1];
      ConsumersGet(rs', x);
      AppendEachGet(Consumers(rs'), rs[|rs| - 1].inputs, rs[|rs| - 1].key, x);
      assert forall i :: 0 <= i < |rs'| ==> rs'[i] == rs[i];
    }
  }

  /** Every recorded reader is one of the steps. */
  lemma {:induction false} ReadersAreSteps(rs: seq<ResolvedStep>, x: string)
    ensures forall k :: k in ReadersOf(rs, x) ==> k in StepKeys(rs)
  {
    if rs != [] {
      var rs' := rs[..|rs| - 1];
      ReadersAreSteps(rs', x);
      assert forall i :: 0 <= i < |rs'| ==> StepKeys(rs')[i] == StepKeys(rs)[i];
      assert StepKeys(rs)[|rs| - 1] == rs[|rs| - 1].key;
    }
  }

  // ---------------------------------------------------------------------
  // Edges
  // ---------------------------------------------------------------------

  /** One edge from `src` to each reader, in order. */
  function ConsumerEdges(src: Key, readers: seq<Key>, caption: string): (r: seq<Edge>)
    ensures |r| == |readers| && forall i :: 0 <= i < |readers| ==> r[i] == Edge(src, readers[i], caption)
    ensures forall e: Edge :: e in r <==> e.src == src && e.caption == caption && e.dst in readers
  {
    var r := seq(|readers|, i requires 0 <= i < |readers| => Edge(src, readers[i], caption));
    assert forall e: Edge :: e.src == src && e.caption == caption && e.dst in readers ==> e in r by {
      forall e: Edge | e.src == src && e.caption == caption && e.dst in readers
        ensures e in r
      {
        var i :| 0 <= i < |readers| && readers[i] == e.dst;
        assert r[i] == e;
      }
    }
    r
  }

  /** Each reader entry gives its own edge: an edge occurs once per
      occurrence of its destination among the readers. */
  lemma {:induction false} ConsumerEdgesCount(src: Key, readers: seq<Key>, caption: string, e: Edge)
    ensures multiset(ConsumerEdges(src, readers, caption))[e]
            == if e.src == src && e.caption == caption then multiset(readers)[e.dst] else 0
  {
    if readers != [] {
      var readers' := readers[..|readers| - 1];
      var last := readers[|readers| - 1];
      ConsumerEdgesCount(src, readers', caption, e);
      ConsumerEdgesLast(src, readers, caption);
      MultisetLast(readers);
    }
  }

  /** The edge of the last reader comes after the others. */
  lemma ConsumerEdgesLast(src: Key, readers: seq<Key>, caption: string)
    requires readers != []
    ensures multiset(ConsumerEdges(src, readers, caption))
            == multiset(ConsumerEdges(src, readers[..|readers| - 1], caption)) + multiset{Edge(src, readers[|readers| - 1], caption)}
  {
    var r := ConsumerEdges(src, readers, caption);
    var r' := ConsumerEdges(src, readers[..|readers| - 1], caption);
    assert r == r' + [Edge(src, readers[|readers| - 1], caption)];
  }

  /** The edges of one output: to the final node when it is the target
      itself, otherwise to each step reading it (none when no step does). */
  function OutputEdges(o: string, src: Key, consumers: Dict<string, seq<Key>>, target: string): seq<Edge> {
    if o == target then [Edge(src, Named(o), o)]
    else ConsumerEdges(src, Get(consumers, o).GetOr([]), o)
  }

  /** The edges of every output, in the order of the sources. */
  function ProducedEdges(sources: Dict<string, Key>, consumers: Dict<string, seq<Key>>, target: string): seq<Edge> {
    if sources == [] then []
    else
      var (o, src) := sources[|sources| - 1];
      ProducedEdges(sources[..|sources| - 1], consumers, target) + OutputEdges(o, src, consumers, target)
  }

  /** Unlabelled edges from each raw input to the steps reading it. */
  function RawEdges(raws: seq<string>, consumers: Dict<string, seq<Key>>): seq<Edge> {
    if raws == [] then []
    else
      var raw := raws[|raws| - 1];
      RawEdges(raws[..|raws| - 1], consumers)
        + (match Get(consumers, raw)
           case Some(readers) => ConsumerEdges(Named(raw), readers, "")
           case None => [])
  }

  /** All edges, in the order they are drawn. */
  function Edges(raws: seq<string>, target: string, rs: seq<ResolvedStep>): seq<Edge> {
    ProducedEdges(Sources(rs), Consumers(rs), target) + RawEdges(raws, Consumers(rs))
  }

  /** A produced edge runs from the recorded source of its caption either to
      the final node, when the caption is the target, or to a reader of it. */
  lemma {:induction false} ProducedEdgesMember(sources: Dict<string, Key>, consumers: Dict<string, seq<Key>>, target: string, e: Edge)
    requires IsDict(sources)
    ensures e in ProducedEdges(sources, consumers, target) <==>
      Get(sources, e.caption) == Some(e.src)
      && (if e.caption == target then e.dst == Named(target) else e.dst in Get(consumers, e.caption).GetOr([]))
  {
    if sources != [] {
      var sources' := sources[..|sources| - 1];
      var (o, src) := sources[|sources| - 1];
      GetLast(sources, e.caption);
      ProducedEdgesMember(sources', consumers, target, e);
      if e.caption == o {
        assert Keys(sources')[..] == Keys(sources)[..|sources| - 1];
        assert Keys(sources)[|sources| - 1] == o;
        assert o !in Keys(sources');
      }
    }
  }

  /** How often a produced edge is drawn: once to the final node, and for
      any other output once per reader entry recorded for it. */
  lemma {:induction false} ProducedEdgesCount(sources: Dict<string, Key>, consumers: Dict<string, seq<Key>>, target: string, e: Edge)
    requires IsDict(sources)
    ensures multiset(ProducedEdges(sources, consumers, target))[e] ==
      if Get(sources, e.caption) != Some(e.src) then 0
      else if e.caption == target then (if e.dst == Named(target) then 1 else 0)
      else multiset(Get(consumers, e.caption).GetOr([]))[e.dst]
  {
    if sources != [] {
      var sources' := sources[..|sources| - 1];
      var (o, src) := sources[|sources| - 1];
      GetLast(sources, e.caption);
      ProducedEdgesCount(sources', consumers, target, e);
      var here := OutputEdges(o, src, consumers, target);
      assert multiset(ProducedEdges(sources, consumers, target))[e]
        == multiset(ProducedEdges(sources', consumers, target))[e] + multiset(here)[e];
      if o != target {
        ConsumerEdgesCount(src, Get(consumers, o).GetOr([]), o, e);
      }
      if e.caption == o {
        assert Keys(sources')[..] == Keys(sources)[..|sources| - 1];
        assert Keys(sources)[|sources| - 1] == o;
        assert o !in Keys(sources');
      }
    }
  }

  /** A raw edge is unlabelled and runs from a raw input to a step reading it. */
  lemma {:induction false} RawEdgesMember(raws: seq<string>, consumers: Dict<string, seq<Key>>, e: Edge)
    ensures e in RawEdges(raws, consumers) <==>
      e.caption == "" && e.src.Named? && e.src.name in raws && e.dst in Get(consumers, e.src.name).GetOr([])
  {
    if raws != [] {
      var raws' := raws[..|raws| - 1];
      RawEdgesMember(raws', consumers, e);
      assert forall x :: x in raws <==> x in raws' || x == raws[|raws| - 1];
    }
  }

  /** How often a raw edge is drawn: once per listing of its raw input and
      reader entry recorded for that input. */
  lemma {:induction false} RawEdgesCount(raws: seq<string>, consumers: Dict<string, seq<Key>>, e: Edge)
    ensures multiset(RawEdges(raws, consumers))[e] ==
      if e.caption == "" && e.src.Named?
      then multiset(raws)[e.src.name] * multiset(Get(consumers, e.src.name).GetOr([]))[e.dst]
      else 0
  {
    if raws != [] {
      var raws' := raws[..|raws| - 1];
      var raw := raws[|raws| - 1];
      RawEdgesCount(raws', consumers, e);
      RawEdgesLast(raws, consumers);
      ConsumerEdgesCount(Named(raw), Get(consumers, raw).GetOr([]), "", e);
      MultisetLast(raws);
      var total := multiset(RawEdges(raws, consumers))[e];
      var prev := multiset(RawEdges(raws', consumers))[e];
      var here := multiset(ConsumerEdges(Named(raw), Get(consumers, raw).GetOr([]), ""))[e];
      assert total == prev + here;
      if e.caption == "" && e.src.Named? {
        var a := multiset(raws')[e.src.name];
        var c := multiset(Get(consumers, e.src.name).GetOr([]))[e.dst];
        assert prev == a * c;
        if raw == e.src.name {
          assert here == c;
          assert multiset(raws)[e.src.name] == a + 1;
          MultiplyNext(a, c);
        } else {
          assert here == 0;
          assert multiset(raws)[e.src.name] == a;
        }
      }
    }
  }

  /** The raw edges of the last raw input come after the others. */
  lemma RawEdgesLast(raws: seq<string>, consumers: Dict<string, seq<Key>>)
    requires raws != []
    ensures multiset(RawEdges(raws, consumers))
            == multiset(RawEdges(raws[..|raws| - 1], consumers))
               + multiset(ConsumerEdges(Named(raws[|raws| - 1]), Get(consumers, raws[|raws| - 1]).GetOr([]), ""))
  {
  }

  lemma MultiplyNext(a: nat, c: nat)
    ensures (a + 1) * c == a * c + c
  {
  }

  /** Every edge joins two nodes of the diagram, so none is dropped when
      the edges are drawn. */
  lemma EdgesWithinNodes(raws: seq<string>, target: string, rs: seq<ResolvedStep>, e: Edge)
    requires e in Edges(raws, target, rs)
    ensures e.src in Keys(Nodes(raws, target, rs)) && e.dst in Keys(Nodes(raws, target, rs))
  {
    if e in ProducedEdges(Sources(rs), Consumers(rs), target) {
      ProducedEdgeWithinNodes(raws, target, rs, e);
    } else {
      RawEdgeWithinNodes(raws, target, rs, e);
    }
  }

  /** A produced edge runs from a step to the final node or to a step. */
  lemma ProducedEdgeWithinNodes(raws: seq<string>, target: string, rs: seq<ResolvedStep>, e: Edge)
    requires e in ProducedEdges(Sources(rs), Consumers(rs), target)
    ensures e.src in Keys(Nodes(raws, target, rs)) && e.dst in Keys(Nodes(raws, target, rs))
  {
    var nodes := Nodes(raws, target, rs);
    ProducedEdgesMember(Sources(rs), Consumers(rs), target, e);
    SourcesDefined(rs, e.caption);
    assert e.src in StepKeys(rs);
    assert Get(nodes, e.src).Some?;
    if e.caption != target {
      ConsumersGet(rs, e.caption);
      ReadersAreSteps(rs, e.caption);
      assert e.dst in StepKeys(rs);
    }
    assert Get(nodes, e.dst).Some?;
  }

  /** A raw edge runs from a raw-data node to a step. */
  lemma RawEdgeWithinNodes(raws: seq<string>, target: string, rs: seq<ResolvedStep>, e: Edge)
    requires e in RawEdges(raws, Consumers(rs))
    ensures e.src in Keys(Nodes(raws, target, rs)) && e.dst in Keys(Nodes(raws, target, rs))
  {
    var nodes := Nodes(raws, target, rs);
    RawEdgesMember(raws, Consumers(rs), e);
    ConsumersGet(rs, e.src.name);
    ReadersAreSteps(rs, e.src.name);
    assert e.dst in StepKeys(rs);
    var i :| 0 <= i < |raws| && raws[i] == e.src.name;
    assert NamedKeys(raws)[i] == e.src;
    assert Get(nodes, e.src).Some?;
    assert Get(nodes, e.dst).Some?;
  }
}
