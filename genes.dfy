/** Gene-level entities: node kinds, nodes, connections and the shared innovation counter. */
module Genes {

  /** `GeneNodeType` of the source; `OUPUT` is spelled out here. */
  datatype NodeType = Input | Output | Hidden

  /** A node never changes after creation, so it is a value. */
  datatype GeneNode = GeneNode(index: nat, kind: NodeType)

  /** A snapshot of one connection: what a connection object holds at one moment. */
  datatype Gene = Gene(innovation: nat, source: nat, destination: nat, weight: real, enabled: bool)

  /** The process-wide `GeneConnection.innovation_Uni`, shared by every genome. */
  class InnovationCounter {
    var next: nat

    constructor ()
      ensures next == 0
    {
      next := 0;
    }
  }

  class GeneConnection {
    const innovation: nat
    const source: nat
    const destination: nat
    var weight: real
    var status: bool

    /** Every connection takes the current counter value: the per-object `innovationHistory`
        dictionary is always empty at construction, so no pair is ever looked up. */
    constructor (source: nat, destination: nat, weight: real, counter: InnovationCounter)
      modifies counter
      ensures this.innovation == old(counter.next) && counter.next == old(counter.next) + 1
      ensures this.source == source && this.destination == destination
      ensures this.weight == weight && status
    {
      this.innovation := counter.next;
      this.source := source;
      this.destination := destination;
      this.weight := weight;
      this.status := true;
      new;
      counter.next := counter.next + 1;
    }

    /** The value this connection holds now. */
    function View(): Gene
      reads this
    {
      Gene(innovation, source, destination, weight, status)
    }

    method UpdateWeight(deltaWeight: real)
      modifies this
      ensures weight == old(weight) + deltaWeight && status == old(status)
    {
      weight := weight + deltaWeight;
    }

    method FlipStatus()
      modifies this
      ensures status == !old(status) && weight == old(weight)
    {
      if status {
        status := false;
      } else {
        status := true;
      }
    }
  }

  /** Flipping a connection's status twice restores it. */
  method FlipStatusTwice(c: GeneConnection)
    modifies c
    ensures c.status == old(c.status) && c.weight == old(c.weight)
  {
    c.FlipStatus();
    c.FlipStatus();
  }

  /** The snapshots of a list of connection objects, in list order. */
  ghost function Snapshots(cs: seq<GeneConnection>): (gs: seq<Gene>)
    reads cs
    ensures |gs| == |cs|
    ensures forall i :: 0 <= i < |cs| ==> gs[i] == cs[i].View()
  {
    if cs == [] then [] else Snapshots(cs[..|cs| - 1]) + [cs[|cs| - 1].View()]
  }

  /** The innovation numbers of a list of connections; they are fixed at creation, so no
      state is read. */
  function InnovationsOf(cs: seq<GeneConnection>): set<nat>
  {
    set c | c in cs :: c.innovation
  }

  lemma SnapshotsAre(cs: seq<GeneConnection>, gs: seq<Gene>)
    requires |cs| == |gs| && forall i :: 0 <= i < |cs| ==> cs[i].View() == gs[i]
    ensures Snapshots(cs) == gs
  {
  }

  /** The weights of a list of connections, in order. */
  ghost function Weights(ds: seq<GeneConnection>): (w: seq<real>)
    reads ds
    ensures |w| == |ds| && forall m {:trigger w[m]} :: 0 <= m < |ds| ==> w[m] == ds[m].weight
  {
    seq(|ds|, m requires 0 <= m < |ds| reads ds => ds[m].weight)
  }

  /** The statuses of a list of connections, in order. */
  ghost function Statuses(ds: seq<GeneConnection>): (e: seq<bool>)
    reads ds
    ensures |e| == |ds| && forall m {:trigger e[m]} :: 0 <= m < |ds| ==> e[m] == ds[m].status
  {
    seq(|ds|, m requires 0 <= m < |ds| reads ds => ds[m].status)
  }

  /** The weights of a list of connection values, in order. */
  function WeightsOf(gs: seq<Gene>): (w: seq<real>)
    ensures |w| == |gs| && forall m {:trigger w[m]} :: 0 <= m < |gs| ==> w[m] == gs[m].weight
  {
    seq(|gs|, m requires 0 <= m < |gs| => gs[m].weight)
  }

  /** The statuses of a list of connection values, in order. */
  function EnabledOf(gs: seq<Gene>): (e: seq<bool>)
    ensures |e| == |gs| && forall m {:trigger e[m]} :: 0 <= m < |gs| ==> e[m] == gs[m].enabled
  {
    seq(|gs|, m requires 0 <= m < |gs| => gs[m].enabled)
  }

  /** A snapshot carries the weights and statuses of the objects it is taken of. */
  lemma SnapshotFields(cs: seq<GeneConnection>)
    ensures Weights(cs) == WeightsOf(Snapshots(cs)) && Statuses(cs) == EnabledOf(Snapshots(cs))
  {
    var gs := Snapshots(cs);
    assert forall m :: 0 <= m < |cs| ==> Weights(cs)[m] == WeightsOf(gs)[m] && Statuses(cs)[m] == EnabledOf(gs)[m];
  }
}
