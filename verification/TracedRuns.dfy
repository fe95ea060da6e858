/** Interpreter and trace tooling together: the traces of every run of acyclic
    bytecode are named by the call paths of that run. */
module TracedRuns {
  import opened Words
  import opened Bytecode
  import opened Ops
  import opened Semantics
  import opened Tracing
  import opened DottedPaths
  import opened TraceTable
  import opened TracePaths
  import opened TraceTree

  /** Calls only ever go down in rank. */
  predicate Descending(rank: seq<nat>, t: CallTree)
    decreases t
  {
    && t.source < |rank|
    && forall i | 0 <= i < |t.children| ::
         && Descending(rank, t.children[i])
         && rank[t.children[i].source] < rank[t.source]
  }

  ghost predicate DescendsFrom(rank: seq<nat>, src: nat, calls: seq<CallTree>)
    requires src < |rank|
  {
    forall i | 0 <= i < |calls| :: Descending(rank, calls[i]) && rank[calls[i].source] < rank[src]
  }

  /** Every call a run makes goes down in rank, and so do the calls inside it. */
  lemma {:induction false} CallsDescend(env: Env, rank: seq<nat>, src: nat, k: nat, inputs: seq<Word>, kv: map<Word, Word>)
    requires Ranked(env, rank) && src < |env.sources| && k <= |env.sources[src].ops|
    requires Exec(env, rank, src, k, inputs, kv).Some?
    ensures DescendsFrom(rank, src, Exec(env, rank, src, k, inputs, kv).value.calls)
    decreases rank[src], 1, k
  {
    if k == 0 {
    } else {
      CallsDescend(env, rank, src, k - 1, inputs, kv);
      var f := Exec(env, rank, src, k - 1, inputs, kv).value;
      var op := env.sources[src].ops[k - 1];
      assert CallDescends(env, rank, src, op);
      OpDescends(env, rank, src, env.fs[op.opcode], op.operand, f);
    }
  }

  lemma OpDescends(env: Env, rank: seq<nat>, src: nat, impl: OpImpl, operand: nat, f: Frame)
    requires Ranked(env, rank) && src < |env.sources|
    requires impl.CallSource? && Index(operand) < |rank| ==> rank[Index(operand)] < rank[src]
    requires DescendsFrom(rank, src, f.calls)
    requires EffectOf(env, rank, src, impl, operand, f).Some?
    ensures DescendsFrom(rank, src, EffectOf(env, rank, src, impl, operand, f).value.calls)
    decreases rank[src], 0
  {
    if impl.CallSource? {
      var callee := Index(operand);
      CallsDescend(env, rank, callee, |env.sources[callee].ops|, Top(f.stack, OpInputs(operand)), f.kv);
    }
  }

  lemma {:induction false} DescendingIsAcyclic(rank: seq<nat>, t: CallTree, above: set<nat>)
    requires Descending(rank, t)
    requires forall a | a in above :: a < |rank| && rank[t.source] < rank[a]
    ensures Acyclic(above, t)
    decreases t
  {
    forall i | 0 <= i < |t.children|
      ensures Acyclic(above + {t.source}, t.children[i])
    {
      DescendingIsAcyclic(rank, t.children[i], above + {t.source});
    }
  }

  lemma {:induction false} DescendingIsNarrow(rank: seq<nat>, t: CallTree)
    requires Descending(rank, t) && |rank| <= 0x1_0000
    ensures Narrow(t)
    decreases t
  {
    forall i | 0 <= i < |t.children|
      ensures Narrow(t.children[i])
    {
      DescendingIsNarrow(rank, t.children[i]);
    }
  }

  /** Every run of acyclic bytecode emits traces that, collected from any arena in
      which they are the tracer's calls, are the nodes of its call tree, each named
      by its path from the root. */
  lemma RunsNameTheirPaths(
      env: Env, rank: seq<nat>, src: nat, inputs: seq<Word>, kv: map<Word, Word>, nodes: seq<CallNode>)
    requires Ranked(env, rank) && src < |env.sources| <= 0x100
    requires Run(env, rank, src, inputs, kv).Some?
    requires var g := Run(env, rank, src, inputs, kv).value;
             TracerData(nodes) == EmitTree(src, Node(src, g.stack, g.calls))
    ensures var g := Run(env, rank, src, inputs, kv).value;
            var tree := Node(src, g.stack, g.calls);
            var traces := Collected(nodes);
            && Narrow(tree)
            && traces == TracesOf(LabelTree([], src, tree))
            && forall i | 0 <= i < |traces| ::
                 && NumPath(traces, i) == Some(LabelTree([], src, tree)[i].path)
                 && PathString(traces, i) == Join(LabelTree([], src, tree)[i].path)
  {
    hide Collected, NumPath, PathString, LabelTree, TracesOf, EmitTree, TracerData;
    CallsDescend(env, rank, src, |env.sources[src].ops|, inputs, kv);
    var g := Run(env, rank, src, inputs, kv).value;
    var tree := Node(src, g.stack, g.calls);
    DescendingIsNarrow(rank, tree);
    DescendingIsAcyclic(rank, tree, {});
    ReversedTracesNameTheirPaths(tree, nodes);
  }

  /** A run can be asked about: where no source calls another twice, the value that
      any of its nodes left `k` up from the bottom of its stack is found by the dotted
      path of the node followed by `k`. */
  lemma RunsAnswerSearches(
      env: Env, rank: seq<nat>, src: nat, inputs: seq<Word>, kv: map<Word, Word>, nodes: seq<CallNode>, i: nat, k: nat)
    requires Ranked(env, rank) && src < |env.sources| <= 0x100
    requires Run(env, rank, src, inputs, kv).Some?
    requires var g := Run(env, rank, src, inputs, kv).value;
             TracerData(nodes) == EmitTree(src, Node(src, g.stack, g.calls))
    requires DistinctEdges(Collected(nodes)) && CountableStacks(Collected(nodes))
    requires i < |Collected(nodes)| && k < |Collected(nodes)[i].stack|
    ensures var g := Run(env, rank, src, inputs, kv).value;
            var tree := Node(src, g.stack, g.calls);
            && Narrow(tree) && i < |LabelTree([], src, tree)|
            && var node := LabelTree([], src, tree)[i];
               && k < |node.trace.stack| && node.path != []
               && Search(Collected(nodes), Join(node.path) + "." + Show(k)) == Ok(Reverse(node.trace.stack)[k])
  {
    hide Collected, NumPath, PathString, LabelTree, TracesOf, EmitTree, TracerData, Search, Show, Join, DistinctEdges,
      CountableStacks;
    RunsNameTheirPaths(env, rank, src, inputs, kv, nodes);
    NameFindsItem(Collected(nodes), i, k);
  }
}
