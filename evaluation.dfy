/** The forward pass of a genome as pure functions: a FIFO walk from the input nodes that
    marks each discovered node once, activates the node at the head of the queue once per
    outgoing edge, and adds `weight * value` to the destination only when the head is not
    an input slot. */
module Evaluation {
  import opened Genes

  /** One outgoing edge as the walk sees it: the `status` flag plays no part. */
  datatype Edge = Edge(destination: nat, weight: real)

  /** `nodesBuffer`, `key` and `buffer` of the walk. */
  datatype State = State(values: seq<real>, key: seq<bool>, queue: seq<nat>)

  /** The edges leaving node `u`, in connection order (the lists of the source's `map`). */
  function OutEdges(gs: seq<Gene>, u: nat): seq<Edge>
  {
    if gs == [] then []
    else
      var g := gs[|gs| - 1];
      OutEdges(gs[..|gs| - 1], u) + (if g.source == u then [Edge(g.destination, g.weight)] else [])
  }

  lemma OutEdgesStep(gs: seq<Gene>, i: nat, u: nat)
    requires i < |gs|
    ensures OutEdges(gs[..i + 1], u) ==
      OutEdges(gs[..i], u) + (if gs[i].source == u then [Edge(gs[i].destination, gs[i].weight)] else [])
  {
    assert gs[..i + 1][..i] == gs[..i];
  }

  /** The out-edges of each of the `n` nodes. */
  function Adjacency(gs: seq<Gene>, n: nat): seq<seq<Edge>>
  {
    seq(n, u requires 0 <= u => OutEdges(gs, u))
  }

  /** Every edge of the connection list stays inside the `n` nodes. */
  predicate Linked(gs: seq<Gene>, n: nat)
  {
    forall i :: 0 <= i < |gs| ==> gs[i].source < n && gs[i].destination < n
  }

  predicate EdgesBelow(es: seq<Edge>, n: nat)
  {
    forall k :: 0 <= k < |es| ==> es[k].destination < n
  }

  predicate WellFormed(adj: seq<seq<Edge>>, n: nat)
  {
    |adj| == n && forall u :: 0 <= u < n ==> EdgesBelow(adj[u], n)
  }

  predicate Sized(s: State, n: nat)
  {
    |s.values| == n && |s.key| == n && forall k :: 0 <= k < |s.queue| ==> s.queue[k] < n
  }

  /** The number of nodes not yet marked in `key`. */
  function CountFalse(key: seq<bool>): nat
  {
    if key == [] then 0 else CountFalse(key[..|key| - 1]) + (if key[|key| - 1] then 0 else 1)
  }

  function Range(n: nat): (r: seq<nat>)
    ensures |r| == n && forall i :: 0 <= i < n ==> r[i] == i
  {
    if n == 0 then [] else Range(n - 1) + [n - 1]
  }

  lemma {:induction false} CountFalseMark(key: seq<bool>, d: nat)
    requires d < |key| && !key[d]
    ensures CountFalse(key[d := true]) + 1 == CountFalse(key)
  {
    var n := |key|;
    if d == n - 1 {
      assert key[d := true][..n - 1] == key[..n - 1];
    } else {
      assert key[d := true][..n - 1] == key[..n - 1][d := true];
      CountFalseMark(key[..n - 1], d);
    }
  }

  /** The activation function applied to one node value. */
  function Activate(act: real -> real, x: real): real
  {
    act(x)
  }

  /** Adds `w` times the value of `u` to the value of `d`, unless `u` is an input slot. */
  function Spread(values: seq<real>, u: nat, d: nat, w: real, inLen: nat): seq<real>
    requires u < |values| && d < |values|
  {
    if u >= inLen then values[d := values[d] + w * values[u]] else values
  }

  /** The propagating case of `Spread`, with the new value of `d` named. */
  lemma SpreadOnto(values: seq<real>, u: nat, d: nat, w: real, inLen: nat, sum: real)
    requires u < |values| && d < |values| && u >= inLen && sum == values[d] + w * values[u]
    ensures Spread(values, u, d, w, inLen) == values[d := sum]
  {
  }

  /** One iteration of the inner loop: discover the destination, activate the head node,
      then propagate unless the head index is below the length of the input vector. */
  function Relax(e: Edge, u: nat, s: State, inLen: nat, act: real -> real): (t: State)
    requires Sized(s, |s.values|) && u < |s.values| && e.destination < |s.values|
    ensures Sized(t, |s.values|) && |t.queue| >= |s.queue| && t.queue[..|s.queue|] == s.queue
    ensures CountFalse(t.key) + |t.queue| == CountFalse(s.key) + |s.queue|
  {
    var d := e.destination;
    var v1 := s.values[u := Activate(act, s.values[u])];
    var v2 := Spread(v1, u, d, e.weight, inLen);
    if s.key[d] then
      State(v2, s.key, s.queue)
    else
      CountFalseMark(s.key, d);
      assert (s.queue + [d])[..|s.queue|] == s.queue;
      State(v2, s.key[d := true], s.queue + [d])
  }

  /** The whole inner loop over the edges leaving `u`. */
  function RelaxAll(es: seq<Edge>, u: nat, s: State, inLen: nat, act: real -> real): (t: State)
    requires Sized(s, |s.values|) && u < |s.values| && EdgesBelow(es, |s.values|)
    ensures Sized(t, |s.values|) && |t.queue| >= |s.queue| && t.queue[..|s.queue|] == s.queue
    ensures CountFalse(t.key) + |t.queue| == CountFalse(s.key) + |s.queue|
    decreases |es|
  {
    if es == [] then s
    else
      var s1 := Relax(es[0], u, s, inLen, act);
      var t := RelaxAll(es[1..], u, s1, inLen, act);
      assert t.queue[..|s.queue|] == t.queue[..|s1.queue|][..|s.queue|];
      t
  }

  /** The outer loop: process the head of the queue, then drop it. */
  function Drain(adj: seq<seq<Edge>>, s: State, inLen: nat, act: real -> real): (vs: seq<real>)
    requires WellFormed(adj, |s.values|) && Sized(s, |s.values|)
    ensures |vs| == |s.values|
    decreases CountFalse(s.key), |s.queue|
  {
    if s.queue == [] then s.values
    else
      var u := s.queue[0];
      var t := RelaxAll(adj[u], u, s, inLen, act);
      Drain(adj, t.(queue := t.queue[1..]), inLen, act)
  }

  /** The number of times the outer loop runs: each node is queued at most once through
      `key`, on top of the initial queue. */
  function Dequeues(adj: seq<seq<Edge>>, s: State, inLen: nat, act: real -> real): (k: nat)
    requires WellFormed(adj, |s.values|) && Sized(s, |s.values|)
    ensures k <= |s.queue| + CountFalse(s.key)
    decreases CountFalse(s.key), |s.queue|
  {
    if s.queue == [] then 0
    else
      var u := s.queue[0];
      var t := RelaxAll(adj[u], u, s, inLen, act);
      1 + Dequeues(adj, t.(queue := t.queue[1..]), inLen, act)
  }

  /** The walk's starting state: the input values then zeros, nothing marked, the input
      node indices queued. */
  function Start(nodeCount: nat, inputSize: nat, input: seq<real>): (s: State)
    requires inputSize <= nodeCount && |input| <= nodeCount
    ensures Sized(s, nodeCount)
  {
    State(input + seq(nodeCount - |input|, _ => 0.0), seq(nodeCount, _ => false), Range(inputSize))
  }

  lemma AdjacencyWellFormed(gs: seq<Gene>, n: nat)
    requires Linked(gs, n)
    ensures WellFormed(Adjacency(gs, n), n)
  {
    forall u | 0 <= u < n ensures EdgesBelow(OutEdges(gs, u), n) {
      OutEdgesBelow(gs, u, n);
    }
  }

  lemma {:induction false} OutEdgesBelow(gs: seq<Gene>, u: nat, n: nat)
    requires Linked(gs, n)
    ensures EdgesBelow(OutEdges(gs, u), n)
  {
    if gs != [] {
      OutEdgesBelow(gs[..|gs| - 1], u, n);
    }
  }

  /** The value list left by the walk over genes `gs` on `nodeCount` nodes. */
  function FinalValues(gs: seq<Gene>, nodeCount: nat, inputSize: nat, input: seq<real>, act: real -> real): (vs: seq<real>)
    requires Linked(gs, nodeCount) && inputSize <= nodeCount && |input| <= nodeCount
    ensures |vs| == nodeCount
  {
    AdjacencyWellFormed(gs, nodeCount);
    Drain(Adjacency(gs, nodeCount), Start(nodeCount, inputSize, input), |input|, act)
  }

  /** `Genome.Output`: the `outputSize` slots after the input slots, in node order. */
  function Output(gs: seq<Gene>, nodeCount: nat, inputSize: nat, outputSize: nat,
                  input: seq<real>, act: real -> real): (r: seq<real>)
    requires Linked(gs, nodeCount) && inputSize + outputSize <= nodeCount && |input| <= nodeCount
    ensures |r| == outputSize
    ensures forall k :: 0 <= k < outputSize ==>
      r[k] == FinalValues(gs, nodeCount, inputSize, input, act)[inputSize + k]
  {
    FinalValues(gs, nodeCount, inputSize, input, act)[inputSize .. inputSize + outputSize]
  }

  // Properties of the walk.

  predicate AgreeFrom(a: seq<real>, b: seq<real>, lo: nat)
  {
    |a| == |b| && forall k :: lo <= k < |a| ==> a[k] == b[k]
  }

  lemma RelaxAgrees(e: Edge, u: nat, s: State, t: State, inLen: nat, act: real -> real)
    requires Sized(s, |s.values|) && u < |s.values| && e.destination < |s.values|
    requires s.key == t.key && s.queue == t.queue && AgreeFrom(s.values, t.values, inLen)
    ensures Relax(e, u, s, inLen, act).key == Relax(e, u, t, inLen, act).key
    ensures Relax(e, u, s, inLen, act).queue == Relax(e, u, t, inLen, act).queue
    ensures AgreeFrom(Relax(e, u, s, inLen, act).values, Relax(e, u, t, inLen, act).values, inLen)
  {
  }

  lemma {:induction false} RelaxAllAgrees(es: seq<Edge>, u: nat, s: State, t: State, inLen: nat, act: real -> real)
    requires Sized(s, |s.values|) && u < |s.values| && EdgesBelow(es, |s.values|)
    requires s.key == t.key && s.queue == t.queue && AgreeFrom(s.values, t.values, inLen)
    ensures RelaxAll(es, u, s, inLen, act).key == RelaxAll(es, u, t, inLen, act).key
    ensures RelaxAll(es, u, s, inLen, act).queue == RelaxAll(es, u, t, inLen, act).queue
    ensures AgreeFrom(RelaxAll(es, u, s, inLen, act).values, RelaxAll(es, u, t, inLen, act).values, inLen)
    decreases |es|
  {
    if es != [] {
      RelaxAgrees(es[0], u, s, t, inLen, act);
      RelaxAllAgrees(es[1..], u, Relax(es[0], u, s, inLen, act), Relax(es[0], u, t, inLen, act), inLen, act);
    }
  }

  /** Two walks whose value lists differ only below `inLen` end with value lists that
      differ only below `inLen`: input slots never feed anything. */
  lemma {:induction false} DrainAgrees(adj: seq<seq<Edge>>, s: State, t: State, inLen: nat, act: real -> real)
    requires WellFormed(adj, |s.values|) && Sized(s, |s.values|)
    requires s.key == t.key && s.queue == t.queue && AgreeFrom(s.values, t.values, inLen)
    ensures AgreeFrom(Drain(adj, s, inLen, act), Drain(adj, t, inLen, act), inLen)
    decreases CountFalse(s.key), |s.queue|
  {
    if s.queue != [] {
      var u := s.queue[0];
      RelaxAllAgrees(adj[u], u, s, t, inLen, act);
      var s1 := RelaxAll(adj[u], u, s, inLen, act);
      var t1 := RelaxAll(adj[u], u, t, inLen, act);
      DrainAgrees(adj, s1.(queue := s1.queue[1..]), t1.(queue := t1.queue[1..]), inLen, act);
    }
  }

  /** When the input vector is no longer than `inputSize`, the outputs do not depend on the
      input values at all, only on their number. */
  lemma InputIndependence(gs: seq<Gene>, nodeCount: nat, inputSize: nat, outputSize: nat,
                          in1: seq<real>, in2: seq<real>, act: real -> real)
    requires Linked(gs, nodeCount) && inputSize + outputSize <= nodeCount
    requires |in1| == |in2| <= inputSize
    ensures Output(gs, nodeCount, inputSize, outputSize, in1, act)
         == Output(gs, nodeCount, inputSize, outputSize, in2, act)
  {
    AdjacencyWellFormed(gs, nodeCount);
    var s := Start(nodeCount, inputSize, in1);
    var t := Start(nodeCount, inputSize, in2);
    assert AgreeFrom(s.values, t.values, |in1|);
    DrainAgrees(Adjacency(gs, nodeCount), s, t, |in1|, act);
  }

  lemma {:induction false} DrainWithoutEdges(adj: seq<seq<Edge>>, s: State, inLen: nat, act: real -> real)
    requires WellFormed(adj, |s.values|) && Sized(s, |s.values|)
    requires forall u :: 0 <= u < |adj| ==> adj[u] == []
    ensures Drain(adj, s, inLen, act) == s.values
    decreases |s.queue|
  {
    if s.queue != [] {
      DrainWithoutEdges(adj, s.(queue := s.queue[1..]), inLen, act);
    }
  }

  /** A genome without connections outputs zeros (outputs with no outgoing edge are never
      activated), whenever the input vector is no longer than `inputSize`. */
  lemma NoConnectionsOutputsZero(nodeCount: nat, inputSize: nat, outputSize: nat,
                                 input: seq<real>, act: real -> real)
    requires inputSize + outputSize <= nodeCount && |input| <= inputSize
    ensures forall k :: 0 <= k < outputSize ==>
      Output([], nodeCount, inputSize, outputSize, input, act)[k] == 0.0
  {
    AdjacencyWellFormed([], nodeCount);
    DrainWithoutEdges(Adjacency([], nodeCount), Start(nodeCount, inputSize, input), |input|, act);
  }

  /** Two connection lists that differ only in their `enabled` flags. */
  predicate SameWiring(gs1: seq<Gene>, gs2: seq<Gene>)
  {
    |gs1| == |gs2| &&
    forall i :: 0 <= i < |gs1| ==>
      gs1[i].source == gs2[i].source && gs1[i].destination == gs2[i].destination && gs1[i].weight == gs2[i].weight
  }

  lemma {:induction false} OutEdgesSameWiring(gs1: seq<Gene>, gs2: seq<Gene>, u: nat)
    requires SameWiring(gs1, gs2)
    ensures OutEdges(gs1, u) == OutEdges(gs2, u)
  {
    if gs1 != [] {
      OutEdgesSameWiring(gs1[..|gs1| - 1], gs2[..|gs2| - 1], u);
    }
  }

  /** The walk ignores the `status` flag of every connection. */
  lemma StatusIgnored(gs1: seq<Gene>, gs2: seq<Gene>, nodeCount: nat, inputSize: nat, outputSize: nat,
                      input: seq<real>, act: real -> real)
    requires Linked(gs1, nodeCount) && inputSize + outputSize <= nodeCount && |input| <= nodeCount
    requires SameWiring(gs1, gs2)
    ensures Linked(gs2, nodeCount)
    ensures Output(gs1, nodeCount, inputSize, outputSize, input, act)
         == Output(gs2, nodeCount, inputSize, outputSize, input, act)
  {
    forall u | 0 <= u < nodeCount ensures OutEdges(gs1, u) == OutEdges(gs2, u) {
      OutEdgesSameWiring(gs1, gs2, u);
    }
    assert Adjacency(gs1, nodeCount) == Adjacency(gs2, nodeCount);
  }
}
