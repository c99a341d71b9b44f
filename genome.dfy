/** A genome: its ordered node list, its connection list and its own registry of linked
    (source, destination) pairs, changed in place by the four mutation operators; and the
    queue-based forward pass over it. */
module Genomes {
  import opened Genes
  import opened Evaluation
  import Draws

  datatype Option<T> = None | Some(value: T)

  /** `factor`: the scale of a new link's weight. */
  const Factor: real := 10.0

  /** The kind of node `i` in a genome with `inputs` input and `outputs` output nodes. */
  function KindAt(i: nat, inputs: nat, outputs: nat): NodeType
  {
    if i < inputs then Input else if i < inputs + outputs then Output else Hidden
  }

  /** The ordered pair a connection links. */
  function Pair(c: GeneConnection): (nat, nat)
  {
    (c.source, c.destination)
  }

  /** A pair the search loop of `LinkMutate` accepts: both ends exist and they are neither
      both inputs nor both outputs. */
  predicate Admissible(nodes: seq<GeneNode>, p: (nat, nat))
  {
    p.0 < |nodes| && p.1 < |nodes| &&
    !(nodes[p.0].kind == Input && nodes[p.1].kind == Input) &&
    !(nodes[p.0].kind == Output && nodes[p.1].kind == Output)
  }

  predicate IsRegistered(registered: map<nat, set<nat>>, p: (nat, nat))
  {
    p.0 in registered && p.1 in registered[p.0]
  }

  /** `registeredConnection[p.0].Add(p.1)`, creating the entry when it is missing. */
  function Register(registered: map<nat, set<nat>>, p: (nat, nat)): (r: map<nat, set<nat>>)
    ensures IsRegistered(r, p) && r.Keys == registered.Keys + {p.0}
    ensures forall q :: IsRegistered(r, q) <==> q == p || IsRegistered(registered, q)
  {
    registered[p.0 := (if p.0 in registered then registered[p.0] else {}) + {p.1}]
  }

  /** The pair `LinkMutate` links among its ten drawn pairs: the first one not registered. */
  function FirstFree(pairs: seq<(nat, nat)>, registered: map<nat, set<nat>>): (r: Option<(nat, nat)>)
    ensures r.Some? ==> r.value in pairs && !IsRegistered(registered, r.value)
    ensures r.None? <==> forall k :: 0 <= k < |pairs| ==> IsRegistered(registered, pairs[k])
  {
    if pairs == [] then None
    else if !IsRegistered(registered, pairs[0]) then Some(pairs[0])
    else
      var r := FirstFree(pairs[1..], registered);
      assert forall k :: 1 <= k < |pairs| ==> pairs[k] == pairs[1..][k - 1];
      r
  }

  /** `random.Next() % k`: the slot a draw lands on in a list of `k` connections. */
  function Slot(pick: nat, k: nat): (n: nat)
    requires k > 0
    ensures n < k
  {
    pick % k
  }

  /** The slot `PointMutate` settles on among its ten drawn picks: the first whose
      connection is enabled. */
  function FirstEnabled(gs: seq<Gene>, picks: seq<nat>): (r: Option<nat>)
    requires |gs| > 0
    ensures r.Some? ==> r.value < |gs| && gs[r.value].enabled
  {
    if picks == [] then None
    else if gs[Slot(picks[0], |gs|)].enabled then Some(Slot(picks[0], |gs|))
    else FirstEnabled(gs, picks[1..])
  }

  /** No slot is chosen exactly when none of the drawn picks lands on an enabled
      connection; otherwise the chosen slot is one of the picks. */
  lemma {:induction false} FirstEnabledNone(gs: seq<Gene>, picks: seq<nat>)
    requires |gs| > 0
    ensures FirstEnabled(gs, picks).None? <==> forall k :: 0 <= k < |picks| ==> !gs[Slot(picks[k], |gs|)].enabled
    ensures FirstEnabled(gs, picks).Some? ==> exists k :: 0 <= k < |picks| && FirstEnabled(gs, picks).value == Slot(picks[k], |gs|)
  {
    if picks != [] && !gs[Slot(picks[0], |gs|)].enabled {
      FirstEnabledNone(gs, picks[1..]);
      assert forall k :: 1 <= k < |picks| ==> picks[k] == picks[1..][k - 1];
      if FirstEnabled(gs, picks).Some? {
        var k :| 0 <= k < |picks[1..]| && FirstEnabled(gs, picks).value == Slot(picks[1..][k], |gs|);
        assert picks[1..][k] == picks[k + 1];
      }
    }
  }

  /** `random.Next(-100, 100) / 1000f`: the weight shift of a point mutation. */
  function Shift(step: int): (d: real)
    requires -100 <= step < 100
    ensures -0.1 <= d <= 0.099
  {
    step as real / 1000.0
  }

  /** Two connection lists that differ at most in their weights. */
  predicate SameWiringExceptWeights(gs1: seq<Gene>, gs2: seq<Gene>)
  {
    |gs1| == |gs2| &&
    forall i :: 0 <= i < |gs1| ==> gs1[i] == gs2[i].(weight := gs1[i].weight)
  }

  /** The connection list after a point mutation with these draws. */
  function PointMutated(gs: seq<Gene>, picks: seq<nat>, step: int): (r: seq<Gene>)
    requires |gs| > 0 && -100 <= step < 100
    ensures |r| == |gs|
  {
    match FirstEnabled(gs, picks)
    case None => gs
    case Some(n) => gs[n := gs[n].(weight := gs[n].weight + Shift(step))]
  }

  /** A point mutation keeps the wiring and the statuses, moves at most the weight of the
      first enabled pick, by the drawn shift, and is the identity exactly when no pick
      lands on an enabled connection or the shift is zero. */
  lemma PointMutatedSpec(gs: seq<Gene>, picks: seq<nat>, step: int)
    requires |gs| > 0 && -100 <= step < 100
    ensures SameWiringExceptWeights(gs, PointMutated(gs, picks, step))
    ensures forall i :: 0 <= i < |gs| && PointMutated(gs, picks, step)[i].weight != gs[i].weight ==>
      FirstEnabled(gs, picks) == Some(i) && PointMutated(gs, picks, step)[i].weight - gs[i].weight == Shift(step)
    ensures PointMutated(gs, picks, step) == gs <==>
      (forall k :: 0 <= k < |picks| ==> !gs[Slot(picks[k], |gs|)].enabled) || step == 0
  {
    FirstEnabledNone(gs, picks);
    var r := PointMutated(gs, picks, step);
    if FirstEnabled(gs, picks).Some? && step != 0 {
      var n := FirstEnabled(gs, picks).value;
      assert r[n].weight != gs[n].weight;
    }
  }

  lemma PointMutatedAt(gs: seq<Gene>, picks: seq<nat>, step: int, n: nat)
    requires |gs| > 0 && -100 <= step < 100 && FirstEnabled(gs, picks) == Some(n)
    ensures n < |gs| && PointMutated(gs, picks, step) == gs[n := gs[n].(weight := gs[n].weight + Shift(step))]
  {
  }

  /** `gs2` is `gs1` with the wiring and statuses kept and at most one weight moved, that of
      an enabled connection, by a shift in [-0.1, 0.099]. */
  predicate OneShift(gs1: seq<Gene>, gs2: seq<Gene>)
  {
    SameWiringExceptWeights(gs1, gs2) &&
    forall i :: 0 <= i < |gs1| && gs2[i].weight != gs1[i].weight ==>
      gs1[i].enabled && -0.1 <= gs2[i].weight - gs1[i].weight <= 0.099 &&
      forall k :: 0 <= k < |gs1| && k != i ==> gs2[k] == gs1[k]
  }

  /** The weights `w1` are the weights `w0` with at most one moved, one whose status in
      `on` is enabled, by a shift in [-0.1, 0.099]. */
  predicate ShiftedOnce(w0: seq<real>, w1: seq<real>, on: seq<bool>)
  {
    |w1| == |w0| == |on| &&
    forall i :: 0 <= i < |w0| && w1[i] != w0[i] ==>
      on[i] && -0.1 <= w1[i] - w0[i] <= 0.099 &&
      forall k :: 0 <= k < |w0| && k != i ==> w1[k] == w0[k]
  }

  /** A shift keeps the statuses and moves the weights as `ShiftedOnce` says. */
  lemma ShiftedWeights(gs1: seq<Gene>, gs2: seq<Gene>)
    requires OneShift(gs1, gs2)
    ensures EnabledOf(gs2) == EnabledOf(gs1)
    ensures ShiftedOnce(WeightsOf(gs1), WeightsOf(gs2), EnabledOf(gs1))
  {
    assert forall i :: 0 <= i < |gs1| ==> EnabledOf(gs2)[i] == EnabledOf(gs1)[i];
  }

  /** A flip keeps the weights and negates one status. */
  lemma FlippedFields(gs: seq<Gene>, n: nat)
    requires n < |gs|
    ensures WeightsOf(Flipped(gs, n)) == WeightsOf(gs)
    ensures EnabledOf(Flipped(gs, n)) == EnabledOf(gs)[n := !gs[n].enabled]
  {
    assert forall i :: 0 <= i < |gs| ==> WeightsOf(Flipped(gs, n))[i] == WeightsOf(gs)[i];
  }

  /** Every point mutation is such a shift. */
  lemma PointMutatedShifts(gs: seq<Gene>, picks: seq<nat>, step: int)
    requires |gs| > 0 && -100 <= step < 100
    ensures OneShift(gs, PointMutated(gs, picks, step))
  {
    PointMutatedSpec(gs, picks, step);
  }

  function Flipped(gs: seq<Gene>, n: nat): (r: seq<Gene>)
    requires n < |gs|
    ensures |r| == |gs| && r[n].enabled == !gs[n].enabled
    ensures forall i :: 0 <= i < |gs| && i != n ==> r[i] == gs[i]
  {
    gs[n := gs[n].(enabled := !gs[n].enabled)]
  }

  /** The edge list the walk finds for node `u` in its graph dictionary: none when the
      dictionary has no entry. */
  function Lookup(graph: map<nat, seq<Edge>>, u: nat): seq<Edge>
  {
    if u in graph then graph[u] else []
  }

  /** The `foreach` over the edges leaving the head `u` of the queue, on the arrays
      `nodesBuffer` and `key` and the queue `buffer`. */
  method Propagate(es: seq<Edge>, u: nat, values: array<real>, key: array<bool>, buffer: seq<nat>,
                   inLen: nat, act: real -> real) returns (queue: seq<nat>)
    requires u < values.Length && EdgesBelow(es, values.Length)
    requires Sized(State(values[..], key[..], buffer), values.Length)
    modifies values, key
    ensures State(values[..], key[..], queue) == RelaxAll(es, u, old(State(values[..], key[..], buffer)), inLen, act)
  {
    ghost var s0 := State(values[..], key[..], buffer);
    queue := buffer;
    for j := 0 to |es|
      invariant Sized(State(values[..], key[..], queue), values.Length)
      invariant RelaxAll(es[j..], u, State(values[..], key[..], queue), inLen, act) == RelaxAll(es, u, s0, inLen, act)
    {
      assert es[j..][1..] == es[j + 1..];
      queue := Visit(es[j], u, values, key, queue, inLen, act);
    }
  }

  /** One round of that `foreach`: queue and mark an unmarked destination, activate the
      head, and add `weight * value` to the destination unless the head is an input slot. */
  method Visit(e: Edge, u: nat, values: array<real>, key: array<bool>, buffer: seq<nat>,
               inLen: nat, act: real -> real) returns (queue: seq<nat>)
    requires u < values.Length && e.destination < values.Length
    requires Sized(State(values[..], key[..], buffer), values.Length)
    modifies values, key
    ensures State(values[..], key[..], queue) == Relax(e, u, old(State(values[..], key[..], buffer)), inLen, act)
  {
    ghost var s := State(values[..], key[..], buffer);
    queue := buffer;
    if !key[e.destination] {
      queue := queue + [e.destination];
      key[e.destination] := true;
    }
    values[u] := Activate(act, values[u]);
    ghost var v1 := values[..];
    assert v1 == s.values[u := Activate(act, s.values[u])];
    if u >= inLen {
      var sum := values[e.destination] + e.weight * values[u];
      SpreadOnto(v1, u, e.destination, e.weight, inLen, sum);
      values[e.destination] := sum;
    }
    assert values[..] == Spread(v1, u, e.destination, e.weight, inLen);
  }

  /** The `while (buffer.Count > 0)` loop: each round runs `Propagate` on the head of the
      queue, when the graph has an entry for it, then drops the head. */
  method Walk(graph: map<nat, seq<Edge>>, ghost adj: seq<seq<Edge>>, values: array<real>, key: array<bool>,
              buffer: seq<nat>, inLen: nat, act: real -> real)
    requires WellFormed(adj, values.Length) && forall u :: 0 <= u < values.Length ==> Lookup(graph, u) == adj[u]
    requires Sized(State(values[..], key[..], buffer), values.Length)
    modifies values, key
    ensures values[..] == Drain(adj, old(State(values[..], key[..], buffer)), inLen, act)
  {
    var queue := buffer;
    while queue != []
      invariant Sized(State(values[..], key[..], queue), values.Length)
      invariant Drain(adj, State(values[..], key[..], queue), inLen, act)
             == Drain(adj, old(State(values[..], key[..], buffer)), inLen, act)
      decreases CountFalse(key[..]), |queue|
    {
      var u := queue[0];
      if u in graph {
        queue := Propagate(graph[u], u, values, key, queue, inLen, act);
      }
      queue := queue[1..];
    }
  }

  /** `nodesBuffer` before the walk: the input values in the first slots, zero elsewhere. */
  method LoadInput(n: nat, input: seq<real>) returns (values: array<real>)
    requires |input| <= n
    ensures fresh(values) && values[..] == input + seq(n - |input|, _ => 0.0)
  {
    values := new real[n](_ => 0.0);
    for i := 0 to |input|
      invariant forall k :: 0 <= k < n ==> values[k] == if k < i then input[k] else 0.0
    {
      values[i] := input[i];
    }
    assert forall k :: 0 <= k < n ==> values[..][k] == (input + seq(n - |input|, _ => 0.0))[k];
  }

  /** The loop that queues the input nodes `0 .. inputSize - 1` and gives each one a graph
      entry, empty when it has no outgoing connection. */
  method QueueInputs(graph: map<nat, seq<Edge>>, inputSize: nat) returns (buffer: seq<nat>, graph': map<nat, seq<Edge>>)
    ensures buffer == Range(inputSize)
    ensures forall u :: Lookup(graph', u) == Lookup(graph, u)
  {
    buffer, graph' := [], graph;
    for i: nat := 0 to inputSize
      invariant buffer == Range(i)
      invariant forall u :: Lookup(graph', u) == Lookup(graph, u)
    {
      buffer := buffer + [i];
      if i !in graph' {
        graph' := graph'[i := []];
      }
    }
  }

  /** `outputData`: the `count` node values from slot `from` on. */
  method ReadOutputs(values: array<real>, from: nat, count: nat) returns (output: seq<real>)
    requires from + count <= values.Length
    ensures output == values[from .. from + count]
  {
    output := [];
    for i := 0 to count
      invariant output == values[from .. from + i]
    {
      output := output + [values[i + from]];
    }
  }

  /** The part of `Output` after the graph is built: the arrays, the queue of input nodes,
      the walk and the read-out, for the connection list `gs` whose graph is `graph`. */
  method Forward(graph: map<nat, seq<Edge>>, ghost gs: seq<Gene>, n: nat, inputSize: nat, outputSize: nat,
                 input: seq<real>, act: real -> real) returns (output: seq<real>)
    requires Linked(gs, n) && inputSize + outputSize <= n && |input| <= n
    requires forall u :: Lookup(graph, u) == OutEdges(gs, u)
    ensures output == Evaluation.Output(gs, n, inputSize, outputSize, input, act)
  {
    var values := LoadInput(n, input);
    var key := new bool[n](_ => false);
    var buffer, graph' := QueueInputs(graph, inputSize);
    assert forall k :: 0 <= k < n ==> key[..][k] == Start(n, inputSize, input).key[k];
    assert State(values[..], key[..], buffer) == Start(n, inputSize, input);
    AdjacencyWellFormed(gs, n);
    Walk(graph', Adjacency(gs, n), values, key, buffer, |input|, act);
    assert values[..] == FinalValues(gs, n, inputSize, input, act);
    output := ReadOutputs(values, inputSize, outputSize);
  }

  /** The two connections that route `c` through node `top`: in `top` with weight 1,
      out of `top` with the weight of `c`; they take two consecutive counter values. */
  method NewBypass(c: GeneConnection, top: nat, counter: InnovationCounter) returns (a: GeneConnection, b: GeneConnection)
    modifies counter
    ensures fresh(a) && fresh(b) && counter.next == old(counter.next) + 2
    ensures a.View() == Gene(old(counter.next), c.source, top, 1.0, true)
    ensures b.View() == Gene(old(counter.next) + 1, top, c.destination, c.weight, true)
  {
    a := new GeneConnection(c.source, top, 1.0, counter);
    b := new GeneConnection(top, c.destination, c.weight, counter);
  }

  class Genome {
    var nodes: seq<GeneNode>
    var connections: seq<GeneConnection>
    var score: real
    var noNodes: nat
    const inputSize: nat
    const outputSize: nat
    var registered: map<nat, set<nat>>

    /** Node numbering, the registration invariant and the order of innovation numbers. */
    ghost predicate Valid()
      reads this
    {
      0 < inputSize && 0 < outputSize &&
      inputSize + outputSize <= |nodes| && noNodes == |nodes| &&
      (forall i :: 0 <= i < |nodes| ==> nodes[i] == GeneNode(i, KindAt(i, inputSize, outputSize))) &&
      (forall s :: s in registered ==> s < |nodes| && forall d :: d in registered[s] ==> d < |nodes|) &&
      (forall i :: 0 <= i < |connections| ==> IsRegistered(registered, Pair(connections[i]))) &&
      (forall i, j :: 0 <= i < j < |connections| ==> connections[i].innovation < connections[j].innovation) &&
      (forall i, j :: 0 <= i < j < |connections| ==> Pair(connections[i]) != Pair(connections[j]))
    }

    /** Every innovation number of the genome is below `bound`. */
    ghost predicate InnovationsBelow(bound: nat)
      reads this
    {
      forall i :: 0 <= i < |connections| ==> connections[i].innovation < bound
    }

    ghost function Innovations(): (h: set<nat>)
      reads this
      ensures forall i :: 0 <= i < |connections| ==> connections[i].innovation in h
      ensures forall k :: k in h ==> exists i :: 0 <= i < |connections| && connections[i].innovation == k
    {
      InnovationsOf(connections)
    }

    /** The connection list as values. */
    ghost function Snapshot(): (gs: seq<Gene>)
      reads this, connections
      ensures |gs| == |connections|
      ensures forall i :: 0 <= i < |connections| ==> gs[i] == connections[i].View()
    {
      Snapshots(connections)
    }

    /** The connection list grew from `cs0` only by appending connections that took the
        counter values from `next0` up to `next`, in order. */
    ghost predicate Extends(cs0: seq<GeneConnection>, next0: nat, next: nat)
      reads this
    {
      |cs0| <= |connections| && connections[..|cs0|] == cs0 &&
      next == next0 + (|connections| - |cs0|) &&
      forall i :: |cs0| <= i < |connections| ==> connections[i].innovation == next0 + (i - |cs0|)
    }

    /** `score = s`: the score is not part of the genome's structure. */
    method Rescore(s: real)
      modifies this
      ensures score == s
      ensures nodes == old(nodes) && connections == old(connections)
      ensures noNodes == old(noNodes) && registered == old(registered)
      ensures old(Valid()) ==> Valid()
      ensures Innovations() == old(Innovations())
      ensures forall bound: nat :: old(InnovationsBelow(bound)) ==> InnovationsBelow(bound)
    {
      score := s;
    }

    lemma DistinctObjects(n: nat)
      requires Valid() && n < |connections|
      ensures forall i :: 0 <= i < |connections| && i != n ==> connections[i] != connections[n]
    {
      forall i | 0 <= i < |connections| && i != n ensures connections[i] != connections[n] {
        if i < n {
          assert connections[i].innovation < connections[n].innovation;
        } else {
          assert connections[n].innovation < connections[i].innovation;
        }
      }
    }

    lemma SnapshotLinked()
      requires Valid()
      ensures Linked(Snapshot(), |nodes|)
    {
      forall i | 0 <= i < |connections| ensures connections[i].source < |nodes| && connections[i].destination < |nodes| {
        assert IsRegistered(registered, Pair(connections[i]));
      }
    }

    /** The first loop of `Output`: the graph dictionary from each source node to its
        outgoing connections, in connection order. */
    method BuildGraph() returns (graph: map<nat, seq<Edge>>)
      ensures forall u :: Lookup(graph, u) == OutEdges(Snapshot(), u)
    {
      ghost var gs := Snapshot();
      graph := map[];
      for i := 0 to |connections|
        invariant forall u :: Lookup(graph, u) == OutEdges(gs[..i], u)
      {
        var c := connections[i];
        if c.source !in graph {
          graph := graph[c.source := []];
        }
        graph := graph[c.source := graph[c.source] + [Edge(c.destination, c.weight)]];
        forall u ensures Lookup(graph, u) == OutEdges(gs[..i + 1], u) {
          OutEdgesStep(gs, i, u);
        }
      }
      assert gs[..|connections|] == gs;
    }

    /** `Output(input)`: the forward pass, whose outputs are the `outputSize` node values
        after the input slots. `warned` is the dimension message printed when the input
        vector's length differs from `inputSize`; the pass runs anyway. */
    method Output(input: seq<real>, act: real -> real) returns (output: seq<real>, warned: bool)
      requires Valid() && |input| <= |nodes|
      ensures warned <==> |input| != inputSize
      ensures Linked(Snapshot(), |nodes|)
      ensures output == Evaluation.Output(Snapshot(), |nodes|, inputSize, outputSize, input, act)
    {
      warned := |input| != inputSize;
      SnapshotLinked();
      ghost var gs := Snapshot();
      var graph := BuildGraph();
      output := Forward(graph, gs, |nodes|, inputSize, outputSize, input, act);
      assert Snapshot() == gs;
    }

    /** `Genome(input, output)`: inputs then outputs numbered from 0, then `Init`. */
    constructor (input: nat, output: nat, counter: InnovationCounter)
      requires 0 < input && 0 < output
      modifies counter
      ensures Valid() && inputSize == input && outputSize == output && score == 0.0
      ensures |nodes| == input + output
      ensures 1 <= |connections| <= 19
      ensures Extends([], old(counter.next), counter.next)
      ensures InnovationsBelow(counter.next)
      ensures forall i :: 0 <= i < |connections| ==> fresh(connections[i])
    {
      var ns: seq<GeneNode> := [];
      var k := 0;
      for i := 0 to input
        invariant k == i && |ns| == k
        invariant forall j :: 0 <= j < k ==> ns[j] == GeneNode(j, Input)
      {
        ns := ns + [GeneNode(k, Input)];
        k := k + 1;
      }
      for i := 0 to output
        invariant k == input + i && |ns| == k
        invariant forall j :: 0 <= j < k ==> ns[j] == GeneNode(j, KindAt(j, input, output))
      {
        ns := ns + [GeneNode(k, NodeType.Output)];
        k := k + 1;
      }
      nodes := ns;
      noNodes := k;
      outputSize := output;
      inputSize := input;
      connections := [];
      registered := map[];
      score := 0.0;
      new;
      Init(counter);
    }

    /** `Init`: between 5 and 19 link mutations; the node-mutation branch of the init path
        is switched off, so no hidden node appears. */
    method Init(counter: InnovationCounter)
      requires Valid() && connections == [] && registered == map[]
      modifies this, counter
      ensures Valid() && nodes == old(nodes) && score == old(score)
      ensures 1 <= |connections| <= 19
      ensures Extends([], old(counter.next), counter.next)
      ensures InnovationsBelow(counter.next)
      ensures forall i :: 0 <= i < |connections| ==> fresh(connections[i])
    {
      var count := Draws.NextInRange(5, 20);
      for i := 0 to count
        invariant Valid() && nodes == old(nodes) && score == old(score)
        invariant |connections| <= i && (i > 0 ==> |connections| >= 1)
        invariant connections == [] ==> registered == map[]
        invariant Extends([], old(counter.next), counter.next)
        invariant forall j :: 0 <= j < |connections| ==> fresh(connections[j])
      {
        Mutate(true, true, counter);
      }
    }

    /** `PointMutate`: among ten drawn slots, the first whose connection is enabled gets
        its weight shifted by `step / 1000`; when none is enabled nothing changes. */
    method PointMutate(picks: seq<nat>, step: int)
      requires Valid() && |connections| > 0
      requires |picks| == 10 && -100 <= step < 100
      modifies connections
      ensures Snapshot() == PointMutated(old(Snapshot()), picks, step)
    {
      ghost var gs := Snapshot();
      var chosen := PickEnabled(picks, gs);
      if chosen.Some? {
        PointMutatedAt(gs, picks, step, chosen.value);
        ShiftWeight(chosen.value, Shift(step), gs);
      }
    }

    /** `connections[n].UpdateWeight(delta)`: one weight changes, nothing else. */
    method ShiftWeight(n: nat, delta: real, ghost gs: seq<Gene>)
      requires Valid() && n < |connections| && Snapshot() == gs
      modifies connections[n]
      ensures Snapshot() == gs[n := gs[n].(weight := gs[n].weight + delta)]
    {
      DistinctObjects(n);
      connections[n].UpdateWeight(delta);
      ghost var want := gs[n := gs[n].(weight := gs[n].weight + delta)];
      forall i | 0 <= i < |connections| ensures connections[i].View() == want[i] {
        if i != n {
          assert connections[i].View() == old(connections[i].View());
        }
      }
      SnapshotsAre(connections, want);
    }

    /** The selection loop of `PointMutate`: the slot of the first drawn pick whose
        connection is enabled, if any. */
    method PickEnabled(picks: seq<nat>, ghost gs: seq<Gene>) returns (chosen: Option<nat>)
      requires |connections| > 0 && gs == Snapshot()
      ensures chosen == FirstEnabled(gs, picks)
    {
      var n := 0;
      var flag := false;
      for i := 0 to |picks|
        invariant FirstEnabled(gs, picks) == FirstEnabled(gs, picks[i..])
      {
        n := Slot(picks[i], |connections|);
        assert picks[i..][1..] == picks[i + 1..];
        if connections[n].status {
          flag := true;
          break;
        }
      }
      chosen := if flag then Some(n) else None;
    }

    /** `LinkMutate`: links the first of ten admissible drawn pairs that is not registered
        yet, with weight `10 * draw`, and registers it; when all ten are registered nothing
        changes. */
    method LinkMutate(pairs: seq<(nat, nat)>, draw: real, counter: InnovationCounter)
      requires Valid() && InnovationsBelow(counter.next)
      requires |pairs| == 10 && forall k :: 0 <= k < |pairs| ==> Admissible(nodes, pairs[k])
      requires 0.0 <= draw < 1.0
      modifies this, counter
      ensures Valid() && InnovationsBelow(counter.next)
      ensures nodes == old(nodes) && score == old(score)
      ensures Extends(old(connections), old(counter.next), counter.next)
      ensures match FirstFree(pairs, old(registered))
        case None =>
          connections == old(connections) && registered == old(registered)
        case Some(p) =>
          |connections| == old(|connections|) + 1 && fresh(connections[old(|connections|)]) &&
          connections[old(|connections|)].View() == Gene(old(counter.next), p.0, p.1, Factor * draw, true) &&
          0.0 <= Factor * draw < 10.0 &&
          registered == Register(old(registered), p)
    {
      for i := 0 to 10
        invariant connections == old(connections) && registered == old(registered)
        invariant counter.next == old(counter.next)
        invariant FirstFree(pairs, registered) == FirstFree(pairs[i..], registered)
      {
        var p := pairs[i];
        assert pairs[i..][1..] == pairs[i + 1..];
        if !(p.0 in registered && p.1 in registered[p.0]) {
          var wt := draw * Factor;
          AddLink(p, wt, counter);
          break;
        }
      }
    }

    /** Appends a new connection for the unregistered pair `p` with weight `wt` and
        registers the pair. */
    method AddLink(p: (nat, nat), wt: real, counter: InnovationCounter)
      requires Valid() && InnovationsBelow(counter.next)
      requires Admissible(nodes, p) && !IsRegistered(registered, p)
      modifies this, counter
      ensures Valid() && InnovationsBelow(counter.next) && nodes == old(nodes) && score == old(score)
      ensures |connections| == old(|connections|) + 1 && connections[..old(|connections|)] == old(connections)
      ensures fresh(connections[old(|connections|)])
      ensures connections[old(|connections|)].View() == Gene(old(counter.next), p.0, p.1, wt, true)
      ensures counter.next == old(counter.next) + 1 && registered == Register(old(registered), p)
    {
      var c := new GeneConnection(p.0, p.1, wt, counter);
      connections := connections + [c];
      registered := Register(registered, p);
      LinkKeepsValid(p, old(registered));
    }

    lemma LinkKeepsValid(p: (nat, nat), reg0: map<nat, set<nat>>)
      requires Admissible(nodes, p) && 0 < |connections|
      requires Pair(connections[|connections| - 1]) == p
      requires 0 < inputSize && 0 < outputSize && inputSize + outputSize <= |nodes| && noNodes == |nodes|
      requires forall i :: 0 <= i < |nodes| ==> nodes[i] == GeneNode(i, KindAt(i, inputSize, outputSize))
      requires forall s :: s in registered ==> s < |nodes| && forall d :: d in registered[s] ==> d < |nodes|
      requires forall i :: 0 <= i < |connections| ==> IsRegistered(registered, Pair(connections[i]))
      requires forall i, j :: 0 <= i < j < |connections| ==> connections[i].innovation < connections[j].innovation
      requires forall i, j :: 0 <= i < j < |connections| - 1 ==> Pair(connections[i]) != Pair(connections[j])
      requires registered == Register(reg0, p) && !IsRegistered(reg0, p)
      requires forall i :: 0 <= i < |connections| - 1 ==> IsRegistered(reg0, Pair(connections[i]))
      ensures Valid()
    {
      forall i | 0 <= i < |connections| - 1 ensures Pair(connections[i]) != p {
        assert IsRegistered(reg0, Pair(connections[i]));
      }
    }

    /** `NodeMutate`: splits the connection in slot `pick % k` through a new hidden node
        numbered `noNodes`; the split connection's status is flipped, not cleared, and no
        other connection object changes. With no connection it does nothing. */
    method NodeMutate(pick: nat, counter: InnovationCounter)
      requires Valid() && InnovationsBelow(counter.next)
      modifies this, counter, if connections == [] then {} else {connections[Slot(pick, |connections|)]}
      ensures Valid() && InnovationsBelow(counter.next) && score == old(score)
      ensures Extends(old(connections), old(counter.next), counter.next)
      ensures old(|connections|) == 0 ==>
        nodes == old(nodes) && connections == old(connections) && registered == old(registered)
      ensures old(|connections|) > 0 ==>
        var k, top := old(|connections|), old(|nodes|);
        var c := old(connections[Slot(pick, k)]);
        c.status == !old(c.status) && c.weight == old(c.weight) &&
        nodes == old(nodes) + [GeneNode(top, Hidden)] &&
        |connections| == k + 2 &&
        connections[k].View() == Gene(old(counter.next), c.source, top, 1.0, true) &&
        connections[k + 1].View() == Gene(old(counter.next) + 1, top, c.destination, c.weight, true) &&
        fresh(connections[k]) && fresh(connections[k + 1]) &&
        registered == Register(Register(old(registered), (top, c.destination)), (c.source, top))
    {
      if |connections| == 0 {
        return;
      }
      var n := Slot(pick, |connections|);
      connections[n].FlipStatus();
      Split(n, counter);
    }

    /** The structural half of `NodeMutate`, after the flip. */
    method Split(n: nat, counter: InnovationCounter)
      requires Valid() && InnovationsBelow(counter.next) && n < |connections|
      modifies this, counter
      ensures Valid() && InnovationsBelow(counter.next) && score == old(score)
      ensures Extends(old(connections), old(counter.next), counter.next)
      ensures
        var k, top := old(|connections|), old(|nodes|);
        var c := old(connections[n]);
        nodes == old(nodes) + [GeneNode(top, Hidden)] &&
        |connections| == k + 2 &&
        connections[k].View() == Gene(old(counter.next), c.source, top, 1.0, true) &&
        connections[k + 1].View() == Gene(old(counter.next) + 1, top, c.destination, c.weight, true) &&
        fresh(connections[k]) && fresh(connections[k + 1]) &&
        registered == Register(Register(old(registered), (top, c.destination)), (c.source, top))
    {
      var c := connections[n];
      assert IsRegistered(registered, Pair(c));
      var a, b := NewBypass(c, noNodes, counter);
      Attach(a, b);
    }

    /** Appends the hidden node `noNodes` and the two bypass connections `a` and `b`
        around it, and registers both pairs. */
    method Attach(a: GeneConnection, b: GeneConnection)
      requires Valid()
      requires a.source < noNodes && a.destination == noNodes
      requires b.source == noNodes && b.destination < noNodes
      requires forall i :: 0 <= i < |connections| ==> connections[i].innovation < a.innovation
      requires a.innovation < b.innovation
      modifies this
      ensures Valid() && score == old(score) && noNodes == old(noNodes) + 1
      ensures nodes == old(nodes) + [GeneNode(old(noNodes), Hidden)]
      ensures connections == old(connections) + [a, b] && connections[..old(|connections|)] == old(connections)
      ensures forall i :: 0 <= i < |connections| ==> connections[i].innovation <= b.innovation
      ensures registered == Register(Register(old(registered), (b.source, b.destination)), (a.source, a.destination))
    {
      ghost var reg0 := registered;
      var k, top := |connections|, noNodes;
      assert top !in registered;
      nodes := nodes + [GeneNode(top, Hidden)];
      connections := connections + [a, b];
      registered := Register(Register(registered, (top, b.destination)), (a.source, top));
      noNodes := top + 1;
      SplitKeepsValid(k, reg0);
    }

    lemma SplitKeepsValid(k: nat, reg0: map<nat, set<nat>>)
      requires |connections| == k + 2 && 0 < inputSize && 0 < outputSize
      requires inputSize + outputSize < |nodes| && noNodes == |nodes|
      requires forall i :: 0 <= i < |nodes| ==> nodes[i] == GeneNode(i, KindAt(i, inputSize, outputSize))
      requires forall s :: s in reg0 ==> s < |nodes| - 1 && forall d :: d in reg0[s] ==> d < |nodes| - 1
      requires forall i :: 0 <= i < k ==> IsRegistered(reg0, Pair(connections[i]))
      requires forall i, j :: 0 <= i < j < k ==> connections[i].innovation < connections[j].innovation
      requires forall i :: 0 <= i < k ==> connections[i].innovation < connections[k].innovation
      requires connections[k].innovation < connections[k + 1].innovation
      requires forall i, j :: 0 <= i < j < k ==> Pair(connections[i]) != Pair(connections[j])
      requires connections[k].destination == |nodes| - 1 && connections[k + 1].source == |nodes| - 1
      requires connections[k].source < |nodes| - 1 && connections[k + 1].destination < |nodes| - 1
      requires registered == Register(Register(reg0, Pair(connections[k + 1])), Pair(connections[k]))
      ensures Valid()
    {
      forall i | 0 <= i < k
        ensures Pair(connections[i]) != Pair(connections[k]) && Pair(connections[i]) != Pair(connections[k + 1])
      {
        assert IsRegistered(reg0, Pair(connections[i]));
      }
    }

    /** `connections[n].FlipStatus()`: one status is negated, nothing else changes. */
    method FlipAt(n: nat)
      requires Valid() && n < |connections|
      modifies connections[n]
      ensures Snapshot() == Flipped(old(Snapshot()), n)
    {
      ghost var gs := Snapshot();
      DistinctObjects(n);
      connections[n].FlipStatus();
      ghost var want := Flipped(gs, n);
      forall i | 0 <= i < |connections| ensures connections[i].View() == want[i] {
        if i != n {
          assert connections[i].View() == old(connections[i].View());
        }
      }
      SnapshotsAre(connections, want);
    }

    /** `EnableDisableMutation`: flips the status of the connection in slot `pick % k`; with
        no connection it does nothing. */
    method EnableDisableMutation(pick: nat)
      requires Valid()
      modifies connections
      ensures Snapshot() == if |connections| == 0 then old(Snapshot()) else Flipped(old(Snapshot()), Slot(pick, |connections|))
    {
      if |connections| == 0 {
        return;
      }
      FlipAt(Slot(pick, |connections|));
    }

    /** The ten admissible pairs the `while(true)` search of `LinkMutate` ends with; one
        exists (the first input with the first output), so the search ends. */
    method DrawPairs() returns (pairs: seq<(nat, nat)>)
      requires Valid()
      ensures |pairs| == 10 && forall k :: 0 <= k < |pairs| ==> Admissible(nodes, pairs[k])
    {
      assert nodes[0].kind == Input && nodes[inputSize].kind == NodeType.Output;
      assert Admissible(nodes, (0, inputSize));
      pairs := [];
      for i := 0 to 10
        invariant |pairs| == i && forall k :: 0 <= k < i ==> Admissible(nodes, pairs[k])
      {
        var p: (nat, nat) :| Admissible(nodes, p);
        pairs := pairs + [p];
      }
    }

    /** Ten draws of `random.Next()`. */
    method DrawPicks() returns (picks: seq<nat>)
      ensures |picks| == 10
    {
      picks := [];
      for i := 0 to 10
        invariant |picks| == i
      {
        var p := Draws.Next();
        picks := picks + [p];
      }
    }

    /** `Mutate(flag, initCall)`: with probability 0.05, or always when `force` is set, one
        operator runs. On the init path it is a link mutation (the retry loop only discards
        draws from 0.75 on); otherwise one of the four operators, chosen by one draw. */
    method Mutate(force: bool, initCall: bool, counter: InnovationCounter)
      requires Valid() && InnovationsBelow(counter.next)
      requires !initCall ==> |connections| > 0
      modifies this, counter, connections
      ensures Valid() && InnovationsBelow(counter.next) && score == old(score)
      ensures Extends(old(connections), old(counter.next), counter.next)
      ensures forall i :: old(|connections|) <= i < |connections| ==> fresh(connections[i])
      ensures old(|nodes|) <= |nodes| <= old(|nodes|) + 1 && nodes[..old(|nodes|)] == old(nodes)
      ensures |connections| <= old(|connections|) + 2
      ensures initCall ==> nodes == old(nodes) && |connections| <= old(|connections|) + 1
      ensures initCall && force && old(registered) == map[] ==> |connections| == old(|connections|) + 1
    {
      var flag := force;
      var chance := Draws.NextDouble();
      if chance < 0.05 {
        flag := true;
      }
      if !flag {
        return;
      }
      if initCall {
        RandomLink(counter);
      } else {
        RandomOperator(counter);
      }
    }

    /** The non-init branch of `Mutate`: one draw chooses among the point, link, node and
        status operators. */
    method RandomOperator(counter: InnovationCounter)
      requires Valid() && InnovationsBelow(counter.next) && |connections| > 0
      modifies this, counter, connections
      ensures Valid() && InnovationsBelow(counter.next) && score == old(score)
      ensures Extends(old(connections), old(counter.next), counter.next)
      ensures forall i :: old(|connections|) <= i < |connections| ==> fresh(connections[i])
      ensures old(|nodes|) <= |nodes| <= old(|nodes|) + 1 && nodes[..old(|nodes|)] == old(nodes)
      ensures |connections| <= old(|connections|) + 2
    {
      var t := Draws.NextDouble();
      if t < 0.25 {
        RandomPoint();
        assert unchanged(this) && unchanged(counter);
      } else if t < 0.5 && |connections| > 0 {
        RandomLink(counter);
      } else if t < 0.75 && |connections| > 0 {
        ghost var n := RandomSplit(counter);
      } else {
        ghost var n := RandomFlip();
        assert unchanged(this) && unchanged(counter);
      }
    }

    /** `LinkMutate` with its draws: nothing changes, or one enabled connection with a weight
        in [0, 10) is appended for an admissible pair that was not registered, and that pair
        is registered. */
    method RandomLink(counter: InnovationCounter)
      requires Valid() && InnovationsBelow(counter.next)
      modifies this, counter
      ensures Valid() && InnovationsBelow(counter.next) && score == old(score) && nodes == old(nodes)
      ensures Extends(old(connections), old(counter.next), counter.next)
      ensures forall i :: old(|connections|) <= i < |connections| ==> fresh(connections[i])
      ensures |connections| <= old(|connections|) + 1
      ensures old(registered) == map[] ==> |connections| == old(|connections|) + 1
      ensures |connections| == old(|connections|) ==> registered == old(registered)
      ensures |connections| == old(|connections|) + 1 ==>
        var c := connections[old(|connections|)];
        Admissible(nodes, Pair(c)) && !IsRegistered(old(registered), Pair(c)) &&
        c.status && 0.0 <= c.weight < 10.0 && registered == Register(old(registered), Pair(c))
    {
      var pairs := DrawPairs();
      var w := Draws.NextDouble();
      LinkMutate(pairs, w, counter);
      assert old(registered) == map[] ==> FirstFree(pairs, old(registered)) == Some(pairs[0]);
    }

    /** `PointMutate` with its draws: statuses are kept, and at most one weight moves, that
        of an enabled connection, by a shift in [-0.1, 0.099]. */
    method RandomPoint()
      requires Valid() && |connections| > 0
      modifies connections
      ensures Statuses(connections) == old(Statuses(connections))
      ensures ShiftedOnce(old(Weights(connections)), Weights(connections), old(Statuses(connections)))
    {
      ghost var gs := Snapshot();
      SnapshotFields(connections);
      var picks := DrawPicks();
      var step := Draws.NextInRange(-100, 100);
      PointMutate(picks, step);
      PointMutatedShifts(gs, picks, step);
      ShiftedWeights(gs, Snapshot());
      SnapshotFields(connections);
    }

    /** `EnableDisableMutation` with its draw: an empty list is kept, otherwise exactly the
        status in the drawn slot `n` is negated; no weight changes. */
    method RandomFlip() returns (ghost n: nat)
      requires Valid()
      modifies connections
      ensures Weights(connections) == old(Weights(connections))
      ensures |connections| > 0 ==>
        n < |connections| && Statuses(connections) == old(Statuses(connections))[n := !old(Statuses(connections))[n]]
    {
      ghost var gs := Snapshot();
      SnapshotFields(connections);
      var pick := Draws.Next();
      EnableDisableMutation(pick);
      n := 0;
      if |connections| > 0 {
        n := Slot(pick, |connections|);
        FlippedFields(gs, n);
      }
      SnapshotFields(connections);
    }

    /** `NodeMutate` with its draw; `n` is the slot the draw lands on. */
    method RandomSplit(counter: InnovationCounter) returns (ghost n: nat)
      requires Valid() && InnovationsBelow(counter.next)
      modifies this, counter, connections
      ensures Valid() && InnovationsBelow(counter.next) && score == old(score)
      ensures Extends(old(connections), old(counter.next), counter.next)
      ensures forall i :: old(|connections|) <= i < |connections| ==> fresh(connections[i])
      ensures old(|nodes|) <= |nodes| <= old(|nodes|) + 1 && nodes[..old(|nodes|)] == old(nodes)
      ensures |connections| <= old(|connections|) + 2
      ensures old(|connections|) == 0 ==>
        nodes == old(nodes) && connections == old(connections) && registered == old(registered)
      ensures old(|connections|) > 0 ==>
        var k, top := old(|connections|), old(|nodes|);
        n < k &&
        var c := old(connections[n]);
        c.status == !old(c.status) && c.weight == old(c.weight) &&
        nodes == old(nodes) + [GeneNode(top, Hidden)] && |connections| == k + 2 &&
        connections[k].View() == Gene(old(counter.next), c.source, top, 1.0, true) &&
        connections[k + 1].View() == Gene(old(counter.next) + 1, top, c.destination, c.weight, true) &&
        registered == Register(Register(old(registered), (top, c.destination)), (c.source, top))
    {
      var pick := Draws.Next();
      ghost var k := |connections|;
      n := if k == 0 then 0 else Slot(pick, k);
      NodeMutate(pick, counter);
      if k > 0 {
        assert nodes[..old(|nodes|)] == old(nodes);
        assert |connections| == k + 2 && fresh(connections[k]) && fresh(connections[k + 1]);
      }
    }
  }
}
