/** The traces of a run are its call tree in disguise: newest first, every trace
    is given exactly the path from the root of the tree to its own node. */
module TraceTree {
  import opened Words
  import opened Ops
  import opened Semantics
  import opened Tracing
  import opened DottedPaths
  import opened TraceTable
  import opened TracePaths

  // ----- the specification: a tree, labelled with its paths -----

  /** Every source index in the tree fits in 16 bits. */
  predicate Narrow(t: CallTree)
    decreases t
  {
    t.source <= U16_MAX && forall i | 0 <= i < |t.children| :: Narrow(t.children[i])
  }

  /** No node evaluates a source of `above` or of one of its own ancestors. */
  predicate Acyclic(above: set<nat>, t: CallTree)
    decreases t
  {
    t.source !in above && forall i | 0 <= i < |t.children| :: Acyclic(above + {t.source}, t.children[i])
  }

  datatype Labelled = Labelled(trace: RainSourceTrace, path: seq<nat>)

  function TraceOf(parent: nat, t: CallTree): RainSourceTrace
    requires parent <= U16_MAX && Narrow(t)
  {
    RainSourceTrace(parent, t.source, Reverse(t.stack))
  }

  /** The tree's traces with their true paths: a node before its calls, later
      calls before earlier ones. `prefix` is the path of the node's parent. */
  function LabelTree(prefix: seq<nat>, parent: nat, t: CallTree): (r: seq<Labelled>)
    requires parent <= U16_MAX && Narrow(t)
    ensures r != []
    decreases t
  {
    [Labelled(TraceOf(parent, t), prefix + [t.source])] + LabelForest(prefix + [t.source], t.source, t.children)
  }

  function LabelForest(prefix: seq<nat>, parent: nat, ts: seq<CallTree>): seq<Labelled>
    requires parent <= U16_MAX && forall i | 0 <= i < |ts| :: Narrow(ts[i])
    decreases ts
  {
    if ts == [] then []
    else LabelTree(prefix, parent, ts[|ts| - 1]) + LabelForest(prefix, parent, ts[..|ts| - 1])
  }

  function TracesOf(labels: seq<Labelled>): (r: seq<RainSourceTrace>)
    ensures |r| == |labels|
    ensures forall i | 0 <= i < |labels| :: r[i] == labels[i].trace
  {
    seq(|labels|, i requires 0 <= i < |labels| => labels[i].trace)
  }

  // ----- what is emitted, once decoded and reversed -----

  /** The calldata of the tracer's calls, in order, among everything that a call
      arena records: the evaluation's own call, store reads and calls to externs
      are nodes of it too. */
  function TracerData(nodes: seq<CallNode>): seq<seq<Byte>> {
    if nodes == [] then []
    else
      var node := nodes[|nodes| - 1];
      TracerData(nodes[..|nodes| - 1]) + if node.address == RAIN_TRACER_ADDRESS then [node.data] else []
  }

  /** The same calls with nothing else around them. */
  function TracerNodes(calls: seq<seq<Byte>>): (r: seq<CallNode>)
    ensures |r| == |calls|
  {
    seq(|calls|, i requires 0 <= i < |calls| => CallNode(RAIN_TRACER_ADDRESS, calls[i]))
  }

  function DecodedCalls(calls: seq<seq<Byte>>): seq<RainSourceTrace> {
    DecodedNodes(TracerNodes(calls))
  }

  lemma {:induction false} DecodedConcat(a: seq<CallNode>, b: seq<CallNode>)
    ensures DecodedNodes(a + b) == DecodedNodes(a) + DecodedNodes(b)
  {
    if b == [] {
      assert a + b == a;
    } else {
      assert (a + b)[..|a + b| - 1] == a + b[..|b| - 1];
      DecodedConcat(a, b[..|b| - 1]);
    }
  }

  lemma DecodedCallsConcat(a: seq<seq<Byte>>, b: seq<seq<Byte>>)
    ensures DecodedCalls(a + b) == DecodedCalls(a) + DecodedCalls(b)
  {
    assert TracerNodes(a + b) == TracerNodes(a) + TracerNodes(b);
    DecodedConcat(TracerNodes(a), TracerNodes(b));
  }

  /** Collecting traces sees nothing of an arena but the tracer's calls. */
  lemma {:induction false} ForeignIgnored(nodes: seq<CallNode>)
    ensures DecodedNodes(nodes) == DecodedCalls(TracerData(nodes))
  {
    hide Decoded;
    if nodes == [] {
      assert TracerNodes([]) == [];
    } else {
      var n := |nodes| - 1;
      var before := TracerData(nodes[..n]);
      ForeignIgnored(nodes[..n]);
      if nodes[n].address == RAIN_TRACER_ADDRESS {
        DecodedCallsConcat(before, [nodes[n].data]);
        assert TracerNodes([nodes[n].data]) == [nodes[n]];
        assert [nodes[n]][..0] == [] && DecodedNodes([]) == [];
      } else {
        assert before + [] == before;
      }
    }
  }

  lemma DecodedOne(parent: nat, t: CallTree)
    requires parent <= U16_MAX && Narrow(t)
    ensures DecodedCalls([Calldata(parent, t.source, t.stack)]) == [TraceOf(parent, t)]
  {
    hide Decoded, Calldata;
    DecodedCalldata(parent, t.source, t.stack);
    var nodes := TracerNodes([Calldata(parent, t.source, t.stack)]);
    assert nodes[..0] == [];
    assert DecodedNodes(nodes[..0]) == [];
  }

  lemma ReverseConcat<T>(a: seq<T>, b: seq<T>)
    ensures Reverse(a + b) == Reverse(b) + Reverse(a)
  {}

  lemma TracesConcat(a: seq<Labelled>, b: seq<Labelled>)
    ensures TracesOf(a + b) == TracesOf(a) + TracesOf(b)
  {}

  /** Decoding and reversing what a tree emits gives its labelled traces. */
  lemma {:induction false} EmittedTree(prefix: seq<nat>, parent: nat, t: CallTree)
    requires parent <= U16_MAX && Narrow(t)
    ensures Reverse(DecodedCalls(EmitTree(parent, t))) == TracesOf(LabelTree(prefix, parent, t))
    decreases t
  {
    EmittedForest(prefix + [t.source], t.source, t.children);
    hide DecodedCalls, Calldata;
    var below, own := EmitForest(t.source, t.children), [Calldata(parent, t.source, t.stack)];
    DecodedCallsConcat(below, own);
    DecodedOne(parent, t);
    ReverseConcat(DecodedCalls(below), DecodedCalls(own));
    TracesConcat([Labelled(TraceOf(parent, t), prefix + [t.source])], LabelForest(prefix + [t.source], t.source, t.children));
  }

  lemma {:induction false} EmittedForest(prefix: seq<nat>, parent: nat, ts: seq<CallTree>)
    requires parent <= U16_MAX && forall i | 0 <= i < |ts| :: Narrow(ts[i])
    ensures Reverse(DecodedCalls(EmitForest(parent, ts))) == TracesOf(LabelForest(prefix, parent, ts))
    decreases ts
  {
    if ts == [] {
      assert TracerNodes([]) == [];
    } else {
      var n := |ts| - 1;
      EmittedForest(prefix, parent, ts[..n]);
      EmittedTree(prefix, parent, ts[n]);
      DecodedCallsConcat(EmitForest(parent, ts[..n]), EmitTree(parent, ts[n]));
      ReverseConcat(DecodedCalls(EmitForest(parent, ts[..n])), DecodedCalls(EmitTree(parent, ts[n])));
      TracesConcat(LabelTree(prefix, parent, ts[n]), LabelForest(prefix, parent, ts[..n]));
    }
  }

  // ----- rebuilding the paths -----

  /** The traces from `o` on are the labelled ones. */
  ghost predicate Spans(traces: seq<RainSourceTrace>, o: nat, labels: seq<Labelled>) {
    o + |labels| <= |traces| && traces[o..o + |labels|] == TracesOf(labels)
  }

  /** Every labelled trace is given its true path. */
  ghost predicate PathsTrue(traces: seq<RainSourceTrace>, o: nat, labels: seq<Labelled>)
    requires o + |labels| <= |traces|
  {
    forall i | 0 <= i < |labels| :: NumPath(traces, o + i) == Some(labels[i].path)
  }

  lemma {:induction false} SkipOthers(traces: seq<RainSourceTrace>, o: nat, n: nat, s: nat)
    requires o <= n <= |traces|
    requires forall i | o <= i < n :: traces[i].sourceIndex != s
    ensures MostRecent(traces, n, s) == MostRecent(traces, o, s)
  {
    if o < n {
      SkipOthers(traces, o, n - 1, s);
    }
  }

  /** A subtree evaluates none of the sources above it. */
  lemma {:induction false} TreeAvoids(prefix: seq<nat>, parent: nat, t: CallTree, above: set<nat>)
    requires parent <= U16_MAX && Narrow(t) && Acyclic(above, t)
    ensures forall l | l in LabelTree(prefix, parent, t) :: l.trace.sourceIndex !in above
    decreases t
  {
    ForestAvoids(prefix + [t.source], t.source, t.children, above + {t.source});
  }

  lemma {:induction false} ForestAvoids(prefix: seq<nat>, parent: nat, ts: seq<CallTree>, above: set<nat>)
    requires parent <= U16_MAX && forall i | 0 <= i < |ts| :: Narrow(ts[i]) && Acyclic(above, ts[i])
    ensures forall l | l in LabelForest(prefix, parent, ts) :: l.trace.sourceIndex !in above
    decreases ts
  {
    if ts == [] {
    } else {
      TreeAvoids(prefix, parent, ts[|ts| - 1], above);
      ForestAvoids(prefix, parent, ts[..|ts| - 1], above);
    }
  }

  lemma SpansSplit(traces: seq<RainSourceTrace>, o: nat, a: seq<Labelled>, b: seq<Labelled>)
    requires Spans(traces, o, a + b)
    ensures Spans(traces, o, a) && Spans(traces, o + |a|, b)
  {
    TracesConcat(a, b);
    var all := traces[o..o + |a + b|];
    assert all[..|a|] == traces[o..o + |a|];
    assert all[|a|..] == traces[o + |a|..o + |a| + |b|];
  }

  lemma PathsJoin(traces: seq<RainSourceTrace>, o: nat, a: seq<Labelled>, b: seq<Labelled>)
    requires o + |a| + |b| <= |traces|
    requires PathsTrue(traces, o, a) && PathsTrue(traces, o + |a|, b)
    ensures PathsTrue(traces, o, a + b)
  {
    forall i | 0 <= i < |a + b|
      ensures NumPath(traces, o + i) == Some((a + b)[i].path)
    {
      if i >= |a| {
        assert NumPath(traces, o + |a| + (i - |a|)) == Some(b[i - |a|].path);
      }
    }
  }

  /** A trace extends the path of the most recent trace of its parent. */
  lemma NodePath(traces: seq<RainSourceTrace>, o: nat, prefix: seq<nat>)
    requires o < |traces| && traces[o].parentSourceIndex != traces[o].sourceIndex
    requires MostRecent(traces, o, traces[o].parentSourceIndex).Some?
    requires NumPath(traces, MostRecent(traces, o, traces[o].parentSourceIndex).value) == Some(prefix)
    ensures NumPath(traces, o) == Some(prefix + [traces[o].sourceIndex as nat])
    ensures MostRecent(traces, o + 1, traces[o].sourceIndex) == Some(o)
  {}

  /** Below a parent whose path is known and still the most recent for its
      source, every node of an acyclic subtree is given its true path, and the
      parent is still the most recent for its source afterwards. */
  lemma {:induction false} TreePaths(
      traces: seq<RainSourceTrace>, o: nat, prefix: seq<nat>, parent: nat, t: CallTree, above: set<nat>)
    requires parent <= U16_MAX && Narrow(t) && Acyclic(above, t) && parent in above
    requires Spans(traces, o, LabelTree(prefix, parent, t))
    requires MostRecent(traces, o, parent).Some?
    requires NumPath(traces, MostRecent(traces, o, parent).value) == Some(prefix)
    ensures PathsTrue(traces, o, LabelTree(prefix, parent, t))
    ensures MostRecent(traces, o + |LabelTree(prefix, parent, t)|, parent) == MostRecent(traces, o, parent)
    decreases t
  {
    hide NumPath, MostRecent, LabelForest, TracesOf;
    var labels := LabelTree(prefix, parent, t);
    var own, below := labels[..1], labels[1..];
    assert labels == own + below;
    SpansSplit(traces, o, own, below);
    assert traces[o] == traces[o..o + 1][0] == TraceOf(parent, t);
    NodePath(traces, o, prefix);
    ForestPaths(traces, o + 1, prefix + [t.source], t.source, t.children, above + {t.source});
    PathsJoin(traces, o, own, below);
    TreeAvoids(prefix, parent, t, above);
    SkipLabels(traces, o, labels, parent);
  }

  lemma SkipLabels(traces: seq<RainSourceTrace>, o: nat, labels: seq<Labelled>, s: nat)
    requires Spans(traces, o, labels)
    requires forall l | l in labels :: l.trace.sourceIndex != s
    ensures MostRecent(traces, o + |labels|, s) == MostRecent(traces, o, s)
  {
    forall i | o <= i < o + |labels|
      ensures traces[i].sourceIndex != s
    {
      assert traces[o..o + |labels|][i - o] == labels[i - o].trace;
      assert labels[i - o] in labels;
    }
    SkipOthers(traces, o, o + |labels|, s);
  }

  lemma {:induction false} ForestPaths(
      traces: seq<RainSourceTrace>, o: nat, prefix: seq<nat>, parent: nat, ts: seq<CallTree>, above: set<nat>)
    requires parent <= U16_MAX && parent in above
    requires forall i | 0 <= i < |ts| :: Narrow(ts[i]) && Acyclic(above, ts[i])
    requires Spans(traces, o, LabelForest(prefix, parent, ts))
    requires MostRecent(traces, o, parent).Some?
    requires NumPath(traces, MostRecent(traces, o, parent).value) == Some(prefix)
    ensures PathsTrue(traces, o, LabelForest(prefix, parent, ts))
    decreases ts
  {
    hide NumPath, MostRecent, TracesOf, LabelTree, Narrow, Acyclic;
    if ts == [] {
    } else {
      var n := |ts| - 1;
      var a, b := LabelTree(prefix, parent, ts[n]), LabelForest(prefix, parent, ts[..n]);
      SpansSplit(traces, o, a, b);
      TreePaths(traces, o, prefix, parent, ts[n], above);
      ForestPaths(traces, o + |a|, prefix, parent, ts[..n], above);
      PathsJoin(traces, o, a, b);
    }
  }

  /** For every non-recursive call tree, of any depth and fan-out, and every arena
      whose tracer calls are the ones it emits, the collected traces are each named
      by exactly their path from the root; the fallback never appears. */
  lemma ReversedTracesNameTheirPaths(t: CallTree, nodes: seq<CallNode>)
    requires Narrow(t) && Acyclic({}, t)
    requires TracerData(nodes) == EmitTree(t.source, t)
    ensures var labels := LabelTree([], t.source, t);
            var traces := Collected(nodes);
            && traces == TracesOf(labels)
            && forall i | 0 <= i < |labels| ::
                 NumPath(traces, i) == Some(labels[i].path) && PathString(traces, i) == Join(labels[i].path)
  {
    hide Collected, NumPath, PathString, LabelTree, TracesOf, EmitTree, TracerData;
    var labels := LabelTree([], t.source, t);
    var traces := Collected(nodes);
    CollectedTree(t, nodes);
    RootPaths(traces, t);
    forall i | 0 <= i < |labels|
      ensures NumPath(traces, i) == Some(labels[i].path) && PathString(traces, i) == Join(labels[i].path)
    {
      assert NumPath(traces, 0 + i) == Some(labels[i].path);
      PathIsJoin(traces, i);
    }
  }

  /** Whatever else an arena records, the traces collected from it are the nodes
      of the tree that emitted its tracer calls: callers before their callees, and
      later calls before earlier ones. */
  lemma CollectedTree(t: CallTree, nodes: seq<CallNode>)
    requires Narrow(t) && TracerData(nodes) == EmitTree(t.source, t)
    ensures Collected(nodes) == TracesOf(LabelTree([], t.source, t))
  {
    hide DecodedNodes, DecodedCalls, EmitTree, LabelTree, TracesOf, TracerData;
    ForeignIgnored(nodes);
    EmittedTree([], t.source, t);
  }

  /** The root is its own parent, so its path is its own index. */
  lemma RootPaths(traces: seq<RainSourceTrace>, t: CallTree)
    requires Narrow(t) && Acyclic({}, t)
    requires traces == TracesOf(LabelTree([], t.source, t))
    ensures PathsTrue(traces, 0, LabelTree([], t.source, t))
  {
    var labels := LabelTree([], t.source, t);
    assert traces[0..|labels|] == traces;
    var own, below := labels[..1], labels[1..];
    assert labels == own + below;
    SpansSplit(traces, 0, own, below);
    assert traces[0] == TraceOf(t.source, t);
    assert [] + [t.source] == [t.source];
    ForestPaths(traces, 1, [t.source], t.source, t.children, {} + {t.source});
    PathsJoin(traces, 0, own, below);
  }
}
