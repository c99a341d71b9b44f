/** The population: a pool of genomes evaluated one after another, a ranking of their scores,
    and, each time the whole pool has been scored, a generation step that splits the pool into
    species and rebuilds it by crossing inside each species. */
module Population {
  import opened Genes
  import opened Genomes
  import Evaluation
  import Compatibility
  import Speciation
  import Draws

  datatype Message = Reset | Iterate

  /** `30 * 60`: the number of ticks one genome is run before a reset is requested. */
  const EpisodeLength: nat := 1800

  /** `0.00001`: the step by which a score is raised until it is a fresh ranking key. */
  const TieStep: real := 0.00001

  /** A pool genome as the population needs it: well formed, with at least one connection,
      and with innovation numbers the shared counter has already handed out. */
  ghost predicate Sound(g: Genome, bound: nat)
    reads g
  {
    g.Valid() && |g.connections| > 0 && g.InnovationsBelow(bound)
  }

  ghost predicate AllSound(pool: seq<Genome>, bound: nat)
    reads pool
  {
    forall g :: g in pool ==> Sound(g, bound)
  }

  /** Distinct genomes never share an innovation number: every connection is created with a
      fresh number from the shared counter, and no connection is moved between genomes. The
      same genome object may occur in the pool more than once. */
  ghost predicate Separate(pool: seq<Genome>)
    reads pool
  {
    forall g, h :: g in pool && h in pool && g != h ==> g.Innovations() !! h.Innovations()
  }

  predicate Within(pool: seq<Genome>, universe: seq<Genome>)
  {
    forall g :: g in pool ==> g in universe
  }

  /** No genome object sits at two positions of `members`. */
  predicate Distinct(members: seq<Genome>)
  {
    forall p, q :: 0 <= p < q < |members| ==> members[p] != members[q]
  }

  /** The connection objects of the genomes of a pool. */
  ghost function ConnsOf(pool: seq<Genome>): (cs: set<GeneConnection>)
    reads pool
    ensures forall i, m :: 0 <= i < |pool| && 0 <= m < |pool[i].connections| ==> pool[i].connections[m] in cs
  {
    var cs := set g, c | g in pool && c in g.connections :: c;
    assert forall i, m :: 0 <= i < |pool| && 0 <= m < |pool[i].connections| ==>
      pool[i] in pool && pool[i].connections[m] in pool[i].connections;
    cs
  }

  /** `species[j][k]` is the genome at pool position `groups[j][k]`. */
  predicate Lifts(species: seq<seq<Genome>>, groups: seq<seq<nat>>, pool: seq<Genome>)
  {
    |species| == |groups| &&
    forall j :: 0 <= j < |groups| ==>
      |species[j]| == |groups[j]| &&
      forall k :: 0 <= k < |groups[j]| ==> groups[j][k] < |pool| && species[j][k] == pool[groups[j][k]]
  }

  /** The snapshots of the pool genomes, in pool order: what speciation compares. */
  ghost predicate KeysOf(keys: seq<seq<Gene>>, pool: seq<Genome>)
    reads pool, ConnsOf(pool)
  {
    |keys| == |pool| && forall i :: 0 <= i < |pool| ==> keys[i] == pool[i].Snapshot()
  }

  lemma KeyInnovations(g: Genome)
    ensures Compatibility.InnovationSet(g.Snapshot()) == g.Innovations()
  {
  }

  /** Any two genomes of a sound pool match: the same genome matches itself (it has a
      connection), and distinct genomes share no innovation, which puts them at distance 1. */
  lemma PoolCompatible(pool: seq<Genome>, keys: seq<seq<Gene>>, bound: nat)
    requires AllSound(pool, bound) && Separate(pool) && KeysOf(keys, pool)
    ensures forall a, b :: 0 <= a < |keys| && 0 <= b < |keys| ==> Compatibility.Compatible(keys[a], keys[b])
  {
    forall a, b | 0 <= a < |keys| && 0 <= b < |keys| ensures Compatibility.Compatible(keys[a], keys[b]) {
      var g, h := pool[a], pool[b];
      assert g in pool && h in pool;
      PairCompatible(g, h, bound);
    }
  }

  /** The same genome matches itself (it has a connection), and two genomes that share no
      innovation are at distance 1. */
  lemma PairCompatible(g: Genome, h: Genome, bound: nat)
    requires Sound(g, bound) && Sound(h, bound) && (g != h ==> g.Innovations() !! h.Innovations())
    ensures Compatibility.Compatible(g.Snapshot(), h.Snapshot())
  {
    if g == h {
      Compatibility.SelfDistanceZero(g.Snapshot());
    } else {
      KeyInnovations(g);
      KeyInnovations(h);
      Compatibility.DisjointGenomesCompatible(g.Snapshot(), h.Snapshot());
    }
  }

  /** Speciation of a sound, non-empty pool yields one species holding the whole pool in
      order. */
  lemma PoolIsOneSpecies(pool: seq<Genome>, keys: seq<seq<Gene>>, bound: nat)
    requires |pool| > 0 && AllSound(pool, bound) && Separate(pool) && KeysOf(keys, pool)
    ensures Speciation.Speciate(keys, |pool|, Compatibility.Compatible) == [Evaluation.Range(|pool|)]
  {
    PoolCompatible(pool, keys, bound);
    Speciation.AllCompatibleOneSpecies(keys, |pool|, Compatibility.Compatible);
  }

  /** A genome whose innovation numbers all come after those of a sound, separate pool
      joins it and keeps it sound and separate. */
  lemma Join(pool: seq<Genome>, g: Genome, next0: nat, next: nat)
    requires AllSound(pool, next0) && Separate(pool) && next0 <= next
    requires Sound(g, next) && forall k :: k in g.Innovations() ==> next0 <= k
    ensures AllSound(pool + [g], next) && Separate(pool + [g])
  {
    forall h | h in pool ensures g.Innovations() !! h.Innovations() {
      assert Sound(h, next0);
    }
  }

  /** The ranking key tried after `m` raises of `score`. */
  function Bumped(score: real, m: nat): real
  {
    score + m as real * TieStep
  }

  /** The ranking keys at or above `x`. */
  function AtLeast(keys: set<real>, x: real): set<real>
  {
    set k | k in keys && x <= k
  }

  /** Raising a key that is taken leaves fewer keys at or above it, so the tie-break loop
      ends. */
  lemma AtLeastShrinks(keys: set<real>, x: real)
    requires x in keys
    ensures |AtLeast(keys, x + TieStep)| < |AtLeast(keys, x)|
  {
    var above, from := AtLeast(keys, x + TieStep), AtLeast(keys, x);
    assert above <= from && x in from - above;
    assert from == above + (from - above);
  }

  lemma LiftsJoin(species: seq<seq<Genome>>, groups: seq<seq<nat>>, pool: seq<Genome>, j: nat, i: nat)
    requires Lifts(species, groups, pool) && i < |pool| && j <= |groups|
    ensures j < |groups| ==> Lifts(species[j := species[j] + [pool[i]]], groups[j := groups[j] + [i]], pool)
    ensures j == |groups| ==> Lifts(species + [[pool[i]]], groups + [[i]], pool)
  {
  }

  /** The species that speciation forms from a sound, separate, non-empty pool are the
      pool itself. */
  lemma WholePool(species: seq<seq<Genome>>, pool: seq<Genome>, keys: seq<seq<Gene>>, bound: nat)
    requires |pool| > 0 && AllSound(pool, bound) && Separate(pool) && KeysOf(keys, pool)
    requires Lifts(species, Speciation.Speciate(keys, |pool|, Compatibility.Compatible), pool)
    ensures species == [pool]
  {
    PoolIsOneSpecies(pool, keys, bound);
    assert species[0] == pool;
  }

  /** A pool is separate when one genome is apart from all others and the others are
      pairwise apart. */
  lemma SeparateWith(pool: seq<Genome>, g: Genome)
    requires forall h :: h in pool && h != g ==> g.Innovations() !! h.Innovations()
    requires forall h, h' :: h in pool && h' in pool && h != g && h' != g && h != h' ==> h.Innovations() !! h'.Innovations()
    ensures Separate(pool)
  {
  }

  /** A genome that only appended connections numbered from `next0` on has, besides its
      old innovation numbers, only numbers at or above `next0`. */
  lemma GrownInnovations(g: Genome, cs0: seq<GeneConnection>, next0: nat, next: nat)
    requires g.Extends(cs0, next0, next)
    ensures forall k :: k in g.Innovations() ==> k in InnovationsOf(cs0) || next0 <= k
  {
    forall k | k in g.Innovations() ensures k in InnovationsOf(cs0) || next0 <= k {
      var i :| 0 <= i < |g.connections| && g.connections[i].innovation == k;
      if i < |cs0| {
        assert g.connections[i] == cs0[i];
      }
    }
  }

  /** Innovation numbers that rise strictly along a list rise by at least one per step. */
  lemma {:induction false} RiseAtLeast(cs: seq<GeneConnection>, i: nat, j: nat)
    requires i <= j < |cs|
    requires forall a, b :: 0 <= a < b < |cs| ==> cs[a].innovation < cs[b].innovation
    ensures cs[j].innovation >= cs[i].innovation + (j - i)
    decreases j - i
  {
    if i < j {
      RiseAtLeast(cs, i, j - 1);
    }
  }

  /** Strictly rising innovation numbers that are all valid positions of the list are the
      positions themselves. */
  lemma PositionsAreInnovations(cs: seq<GeneConnection>)
    requires forall a, b :: 0 <= a < b < |cs| ==> cs[a].innovation < cs[b].innovation
    requires forall j :: 0 <= j < |cs| ==> cs[j].innovation < |cs|
    ensures forall j :: 0 <= j < |cs| ==> cs[j].innovation == j
  {
    forall j | 0 <= j < |cs| ensures cs[j].innovation == j {
      RiseAtLeast(cs, 0, j);
      RiseAtLeast(cs, j, |cs| - 1);
    }
  }

  /** No connection object occurs in both lists. */
  predicate Apart(cs: seq<GeneConnection>, ds: seq<GeneConnection>)
  {
    forall i, j :: 0 <= i < |cs| && 0 <= j < |ds| ==> cs[i] != ds[j]
  }

  /** The weights `w` that the first `upTo` connections of `ds` offer to position `k`:
      those of the connections whose innovation number is `k`. */
  ghost function Offered(ds: seq<GeneConnection>, w: seq<real>, k: nat, upTo: nat): set<real>
    requires upTo <= |ds| == |w|
  {
    if upTo == 0 then {}
    else Offered(ds, w, k, upTo - 1) + (if ds[upTo - 1].innovation == k then {w[upTo - 1]} else {})
  }

  /** A longer prefix offers at least the weights of a shorter one. */
  lemma {:induction false} OfferedGrows(ds: seq<GeneConnection>, w: seq<real>, k: nat, a: nat, b: nat)
    requires a <= b <= |ds| == |w|
    ensures Offered(ds, w, k, a) <= Offered(ds, w, k, b)
    decreases b - a
  {
    if a < b {
      OfferedGrows(ds, w, k, a, b - 1);
    }
  }

  /** What crossing one species keeps, in order, judged by `scores` (the score of each
      member): a singleton is kept; otherwise the first `EliteCount` members (the elites) are
      kept, and the genome kept for the member at position `t + 1` (for `t` from the elite
      count on) is that member or an elite scoring at least as much. */
  predicate Crossed(members: seq<Genome>, offspring: seq<Genome>, scores: seq<real>)
  {
    |scores| == |members| &&
    (|members| == 1 ==> offspring == members) &&
    (|members| >= 2 ==>
      Speciation.EliteCount(|members|) <= |offspring| <= |members| - 1 &&
      offspring[..Speciation.EliteCount(|members|)] == members[..Speciation.EliteCount(|members|)] &&
      Paired(members, Speciation.EliteCount(|members|), offspring[Speciation.EliteCount(|members|)..], scores))
  }

  /** The genome kept for the member at position `idx + 1 + t` is that member or an elite
      (one of the first `idx` members) whose score in `scores` is at least as high. */
  predicate Paired(members: seq<Genome>, idx: nat, children: seq<Genome>, scores: seq<real>)
  {
    |scores| == |members| && idx + |children| < |members| &&
    forall t :: 0 <= t < |children| ==>
      children[t] == members[idx + 1 + t] ||
      exists p :: 0 <= p < idx && children[t] == members[p] && scores[p] >= scores[idx + 1 + t]
  }

  /** The scores of the genomes, in order. */
  ghost function ScoresOf(pool: seq<Genome>): (s: seq<real>)
    reads pool`score
    ensures |s| == |pool| && forall i :: 0 <= i < |pool| ==> s[i] == pool[i].score
  {
    if pool == [] then [] else ScoresOf(pool[..|pool| - 1]) + [pool[|pool| - 1].score]
  }

  /** The first position of `x` in `s`, or `|s|` when it is absent. */
  function Position<T(==)>(x: T, s: seq<T>): (p: nat)
    ensures p <= |s| && (p < |s| ==> s[p] == x) && (x in s ==> p < |s|)
  {
    if s == [] then 0 else if s[0] == x then 0 else 1 + Position(x, s[1..])
  }

  /** The scores of `members` read off the scores `scores` of the `universe`. */
  function Project(members: seq<Genome>, universe: seq<Genome>, scores: seq<real>): (s: seq<real>)
    requires |scores| == |universe| && Within(members, universe)
    ensures |s| == |members|
  {
    seq(|members|, i requires 0 <= i < |members| => assert members[i] in members; scores[Position(members[i], universe)])
  }

  /** The scores of genomes of the `universe` are read off the scores of the `universe`. */
  lemma ScoresProject(members: seq<Genome>, universe: seq<Genome>)
    requires Within(members, universe)
    ensures ScoresOf(members) == Project(members, universe, ScoresOf(universe))
  {
    forall i | 0 <= i < |members|
      ensures ScoresOf(members)[i] == Project(members, universe, ScoresOf(universe))[i]
    {
      assert members[i] in members;
    }
  }

  /** `children[t]` is the member at position `picks[t]`: the member at `idx + 1 + t` itself
      or an elite whose score in `scores` is at least as high. */
  predicate Picked(members: seq<Genome>, idx: nat, children: seq<Genome>, picks: seq<nat>, scores: seq<real>)
  {
    |scores| == |members| && idx + |children| < |members| && |picks| == |children| &&
    forall t :: 0 <= t < |children| ==>
      (picks[t] == idx + 1 + t || picks[t] < idx) && children[t] == members[picks[t]] &&
      scores[picks[t]] >= scores[idx + 1 + t]
  }

  /** One more kept genome. */
  lemma PickedStep(members: seq<Genome>, idx: nat, children: seq<Genome>, picks: seq<nat>, scores: seq<real>,
                   child: Genome, pick: nat)
    requires Picked(members, idx, children, picks, scores) && idx + 1 + |children| < |members|
    requires (pick == idx + 1 + |children| || pick < idx) && child == members[pick]
    requires scores[pick] >= scores[idx + 1 + |children|]
    ensures Picked(members, idx, children + [child], picks + [pick], scores)
  {
  }

  /** `Paired` from the positions the kept genomes were taken from. */
  lemma PairedByPicks(members: seq<Genome>, idx: nat, children: seq<Genome>, picks: seq<nat>, scores: seq<real>)
    requires Picked(members, idx, children, picks, scores)
    ensures Paired(members, idx, children, scores)
  {
    forall t | 0 <= t < |children| && picks[t] < idx
      ensures exists p :: 0 <= p < idx && children[t] == members[p] && scores[p] >= scores[idx + 1 + t]
    {
      var p := picks[t];
    }
  }

  /** The concatenation of the parts, in order. */
  function Flatten<T>(parts: seq<seq<T>>): seq<T>
  {
    if parts == [] then [] else Flatten(parts[..|parts| - 1]) + parts[|parts| - 1]
  }

  /** The genome of a crossing pair that inherits: the one with the strictly higher score,
      else the later member. */
  function Fitter(elite: Genome, member: Genome): (g: Genome)
    reads elite, member
    ensures g == elite || g == member
    ensures g.score >= elite.score && g.score >= member.score
  {
    if elite.score > member.score then elite else member
  }

  lemma OwnedBy(pool: seq<Genome>)
    ensures forall g, c :: g in pool && c in g.connections ==> c in ConnsOf(pool)
  {
  }

  /** The snapshots of the pool genomes, in pool order. */
  ghost function KeysFor(pool: seq<Genome>): (keys: seq<seq<Gene>>)
    reads pool, ConnsOf(pool)
    ensures KeysOf(keys, pool)
  {
    seq(|pool|, i requires 0 <= i < |pool| reads pool, ConnsOf(pool) => pool[i].Snapshot())
  }

  /** `genomePool[currentGenome].score = score`: the pool stays sound and separate and owns
      the same connections. */
  method ScoreMember(pool: seq<Genome>, g: Genome, score: real, ghost bound: nat)
    requires g in pool && AllSound(pool, bound) && Separate(pool)
    modifies g
    ensures g.score == score && g.nodes == old(g.nodes) && g.connections == old(g.connections)
    ensures AllSound(pool, bound) && Separate(pool) && ConnsOf(pool) == old(ConnsOf(pool))
  {
    g.Rescore(score);
    forall h | h in pool
      ensures Sound(h, bound) && h.Innovations() == old(h.Innovations()) && h.connections == old(h.connections)
    {
      if h != g {
        assert old(Sound(h, bound));
      }
    }
    assert ConnsOf(pool) == old(ConnsOf(pool)) by {
      forall c | c in ConnsOf(pool) ensures c in old(ConnsOf(pool)) {
        var h :| h in pool && c in h.connections;
        assert old(h in pool && c in h.connections);
      }
      OwnedBy(pool);
    }
  }

  /** `new Genome(input, output)` next to a sound, separate pool: its connections take fresh
      innovation numbers, so the pool with it stays sound and separate. */
  method NewMember(pool: seq<Genome>, input: nat, output: nat, counter: InnovationCounter) returns (g: Genome)
    requires 0 < input && 0 < output && AllSound(pool, counter.next) && Separate(pool)
    modifies counter
    ensures AllSound(pool + [g], counter.next) && Separate(pool + [g]) && fresh(g)
    ensures g.inputSize == input && g.outputSize == output && g.score == 0.0
  {
    ghost var next0 := counter.next;
    g := new Genome(input, output, counter);
    assert forall k :: k in g.Innovations() ==> next0 <= k;
    Join(pool, g, next0, counter.next);
  }

  class GeneticNeuralNetwork {
    var genomePool: seq<Genome>
    var rankedGenome: map<real, Genome>
    var species: seq<seq<Genome>>
    var generation: nat
    var currentGenome: nat
    var currentSample: nat
    var msg: Message
    /** `GeneConnection.innovation_Uni`, shared by every genome. */
    const counter: InnovationCounter

    /** Every pool genome is sound, distinct pool genomes share no innovation, and the
        cursor points into a non-empty pool. */
    ghost predicate Valid()
      reads this, genomePool, counter
    {
      AllSound(genomePool, counter.next) && Separate(genomePool) &&
      (|genomePool| > 0 ==> currentGenome < |genomePool|)
    }

    /** `GeneticNeuralNetwork(input, output, no_of_genomes)`: `count` fresh genomes. */
    constructor (input: nat, output: nat, count: nat, counter: InnovationCounter)
      requires 0 < input && 0 < output
      modifies counter
      ensures Valid() && |genomePool| == count && this.counter == counter
      ensures forall i :: 0 <= i < count ==> fresh(genomePool[i])
      ensures Distinct(genomePool)
      ensures forall i :: 0 <= i < count ==>
        genomePool[i].inputSize == input && genomePool[i].outputSize == output && genomePool[i].score == 0.0
      ensures rankedGenome == map[] && species == [] && msg == Message.Reset
      ensures generation == 0 && currentGenome == 0 && currentSample == 0
    {
      this.counter := counter;
      genomePool := [];
      rankedGenome := map[];
      species := [];
      generation := 0;
      currentGenome := 0;
      currentSample := 0;
      msg := Message.Reset;
      new;
      for i := 0 to count
        invariant Valid() && |genomePool| == i && this.counter == counter
        invariant forall j :: 0 <= j < i ==> fresh(genomePool[j])
        invariant Distinct(genomePool)
        invariant forall j :: 0 <= j < i ==>
          genomePool[j].inputSize == input && genomePool[j].outputSize == output && genomePool[j].score == 0.0
        invariant rankedGenome == map[] && species == [] && msg == Message.Reset
        invariant generation == 0 && currentGenome == 0 && currentSample == 0
      {
        var g := AddGenome(input, output);
      }
    }

    /** One round of the constructor's loop: `genomePool.Add(new Genome(input, output))`. */
    method AddGenome(input: nat, output: nat) returns (g: Genome)
      requires Valid() && 0 < input && 0 < output && currentGenome == 0
      modifies this, counter
      ensures Valid() && genomePool == old(genomePool) + [g] && fresh(g)
      ensures g.inputSize == input && g.outputSize == output && g.score == 0.0
      ensures rankedGenome == old(rankedGenome) && species == old(species) && msg == old(msg)
      ensures generation == old(generation) && currentGenome == old(currentGenome) && currentSample == old(currentSample)
    {
      g := NewMember(genomePool, input, output, counter);
      genomePool := genomePool + [g];
    }
  
    /** `Iterate(input)`: one tick of the current genome. The tick counter rises by one and
        the message asks for a reset once it exceeds `EpisodeLength`. */
    method Iterate(input: seq<real>, act: real -> real) returns (output: seq<real>)
      requires Valid() && |genomePool| > 0 && |input| <= |genomePool[currentGenome].nodes|
      modifies this
      ensures currentSample == old(currentSample) + 1
      ensures msg == (if currentSample > EpisodeLength then Message.Reset else Message.Iterate)
      ensures genomePool == old(genomePool) && rankedGenome == old(rankedGenome) && species == old(species)
      ensures generation == old(generation) && currentGenome == old(currentGenome)
      ensures Valid()
      ensures var g := genomePool[currentGenome];
        Sound(g, counter.next) && Evaluation.Linked(g.Snapshot(), |g.nodes|) &&
        output == Evaluation.Output(g.Snapshot(), |g.nodes|, g.inputSize, g.outputSize, input, act)
    {
      Tick();
      var g := genomePool[currentGenome];
      assert Sound(g, counter.next);
      var warned;
      output, warned := g.Output(input, act);
    }

    /** The counter half of `Iterate`. */
    method Tick()
      modifies this
      ensures currentSample == old(currentSample) + 1
      ensures msg == (if currentSample > EpisodeLength then Message.Reset else Message.Iterate)
      ensures genomePool == old(genomePool) && rankedGenome == old(rankedGenome) && species == old(species)
      ensures generation == old(generation) && currentGenome == old(currentGenome)
    {
      currentSample := currentSample + 1;
      if currentSample > EpisodeLength {
        msg := Message.Reset;
      } else {
        msg := Message.Iterate;
      }
    }

    /** The tie-break loop of `UpdatePool`: `score` raised by `TieStep` until it is not a
        ranking key yet; the result is the first such raise. */
    method FreeKey(score: real) returns (key: real)
      ensures key !in rankedGenome && score <= key
      ensures exists m: nat ::
        key == Bumped(score, m) && forall m' :: 0 <= m' < m ==> Bumped(score, m') in rankedGenome
    {
      key := score;
      ghost var m: nat := 0;
      while key in rankedGenome
        invariant key == Bumped(score, m) && score <= key
        invariant forall m' :: 0 <= m' < m ==> Bumped(score, m') in rankedGenome
        decreases |AtLeast(rankedGenome.Keys, key)|
      {
        AtLeastShrinks(rankedGenome.Keys, key);
        key := key + TieStep;
        m := m + 1;
      }
    }

    /** `MatchGenome(A, B)`: the distance computed with hash sets and weight dictionaries,
        compared with the threshold; two genomes without connections give 0/0, which never
        compares below anything. */
    method MatchGenome(a: Genome, b: Genome) returns (matched: bool)
      ensures matched == Compatibility.Compatible(a.Snapshot(), b.Snapshot())
    {
      ghost var ga, gb := a.Snapshot(), b.Snapshot();
      var numerator, denominator := Tally(a, b, ga, gb);
      matched := Verdict(numerator, denominator, ga, gb);
      assert a.Snapshot() == ga && b.Snapshot() == gb;
    }

    /** The last step of `MatchGenome`: `delta < 10.5`, false when `delta` is 0/0. */
    method Verdict(numerator: real, denominator: int, ghost ga: seq<Gene>, ghost gb: seq<Gene>) returns (matched: bool)
      requires Compatibility.Numerator(ga, gb) == numerator && Compatibility.Denominator(ga, gb) == denominator
      ensures matched == Compatibility.Compatible(ga, gb)
    {
      if denominator == 0 {
        matched := false;
      } else {
        var delta := numerator / denominator as real;
        Compatibility.DistanceIs(ga, gb, numerator, denominator);
        matched := delta < Compatibility.Threshold;
      }
    }

    /** The loops of `MatchGenome` and the two sides of its quotient: the innovation counts
        of each genome and of their intersection, and the summed weight gaps over the shared
        innovations. */
    method Tally(a: Genome, b: Genome, ghost ga: seq<Gene>, ghost gb: seq<Gene>)
      returns (numerator: real, denominator: int)
      requires a.Snapshot() == ga && b.Snapshot() == gb
      ensures numerator == Compatibility.Numerator(ga, gb) && denominator == Compatibility.Denominator(ga, gb)
    {
      var h1, d1 := Collect(a, ga);
      var h2, d2 := Collect(b, gb);
      var count1, count2 := |h1|, |h2|;
      var shared := h1 * h2;
      var count3 := |shared|;
      var deltaWeight := SharedGaps(a, ga, shared, d1, d2);
      Compatibility.DistanceFromCounts(ga, gb, count1, count2, count3, deltaWeight);
      numerator := (count1 + count2 - 2 * count3) as real + Compatibility.WeightFactor * deltaWeight;
      denominator := count1 + count2 - count3;
    }

    /** The third loop of `MatchGenome`: the summed weight gaps over the connections of `a`
        whose innovation is shared. */
    method SharedGaps(a: Genome, ghost ga: seq<Gene>, shared: set<nat>, d1: map<nat, real>, d2: map<nat, real>)
      returns (deltaWeight: real)
      requires a.Snapshot() == ga && forall k :: k in shared ==> k in d1 && k in d2
      ensures deltaWeight == Compatibility.SumGaps(ga, shared, d1, d2)
    {
      deltaWeight := 0.0;
      for i := 0 to |a.connections|
        invariant deltaWeight == Compatibility.SumGaps(ga[..i], shared, d1, d2)
      {
        assert ga[..i + 1][..i] == ga[..i];
        var k := a.connections[i].innovation;
        if k in shared {
          deltaWeight := deltaWeight + Compatibility.Abs(d1[k] - d2[k]);
        }
      }
      assert ga[..|a.connections|] == ga;
    }

    /** One of the first two loops of `MatchGenome`: the innovation set and the innovation to
        weight dictionary of a genome. */
    method Collect(g: Genome, ghost gs: seq<Gene>) returns (h: set<nat>, d: map<nat, real>)
      requires g.Snapshot() == gs
      ensures h == Compatibility.InnovationSet(gs) && d == Compatibility.WeightMap(gs)
    {
      h, d := {}, map[];
      for i := 0 to |g.connections|
        invariant h == Compatibility.InnovationSet(gs[..i]) && d == Compatibility.WeightMap(gs[..i])
      {
        assert gs[..i + 1][..i] == gs[..i];
        var k := g.connections[i].innovation;
        h := h + {k};
        d := d[k := g.connections[i].weight];
      }
      assert gs[..|g.connections|] == gs;
    }
  
    /** The speciation loop of `UpdatePool`: each genome of `pool` (whose snapshots are
        `keys`) in turn joins the first species whose first member it matches, or starts a
        new species; each species lists its members in pool order. */
    method SpeciesOf(pool: seq<Genome>, ghost keys: seq<seq<Gene>>) returns (sp: seq<seq<Genome>>)
      requires KeysOf(keys, pool)
      ensures Lifts(sp, Speciation.Speciate(keys, |pool|, Compatibility.Compatible), pool)
    {
      sp := [];
      ghost var groups: seq<seq<nat>> := [];
      for i := 0 to |pool|
        invariant KeysOf(keys, pool)
        invariant groups == Speciation.Speciate(keys, i, Compatibility.Compatible)
        invariant Lifts(sp, groups, pool)
      {
        sp, groups := Assign(pool, sp, i, groups, keys);
      }
    }

    /** One round of the speciation loop, for the genome at pool position `i`. */
    method Assign(pool: seq<Genome>, sp: seq<seq<Genome>>, i: nat, ghost groups: seq<seq<nat>>, ghost keys: seq<seq<Gene>>)
      returns (r: seq<seq<Genome>>, ghost next: seq<seq<nat>>)
      requires i < |pool| && KeysOf(keys, pool)
      requires groups == Speciation.Speciate(keys, i, Compatibility.Compatible) && Lifts(sp, groups, pool)
      ensures next == Speciation.Speciate(keys, i + 1, Compatibility.Compatible) && Lifts(r, next, pool)
    {
      Speciation.BoundedWiden(groups, i, |keys|);
      next := Speciation.Place(groups, i, keys, Compatibility.Compatible);
      var j := FindSpecies(pool, sp, i, groups, keys);
      LiftsJoin(sp, groups, pool, j, i);
      if j < |sp| {
        r := sp[j := sp[j] + [pool[i]]];
      } else {
        r := sp + [[pool[i]]];
      }
    }

    /** The inner loop of the speciation region: the first species whose first member
        matches `pool[i]`, or `|sp|` when there is none. */
    method FindSpecies(pool: seq<Genome>, sp: seq<seq<Genome>>, i: nat, ghost groups: seq<seq<nat>>, ghost keys: seq<seq<Gene>>)
      returns (j: nat)
      requires i < |pool| && KeysOf(keys, pool)
      requires Speciation.Bounded(groups, |keys|) && Lifts(sp, groups, pool)
      ensures j == Speciation.FirstMatch(groups, keys[i], keys, 0, Compatibility.Compatible)
    {
      ghost var first := Speciation.FirstMatch(groups, keys[i], keys, 0, Compatibility.Compatible);
      j := 0;
      while j < |sp|
        invariant j <= |sp| == |groups| && KeysOf(keys, pool)
        invariant first == Speciation.FirstMatch(groups, keys[i], keys, j, Compatibility.Compatible)
      {
        var matched := MatchGenome(pool[i], sp[j][0]);
        assert keys[groups[j][0]] == sp[j][0].Snapshot();
        if matched {
          return;
        }
        j := j + 1;
      }
    }

    /** The dictionary from innovation number to position that `Cross` builds for `g1`. */
    method IndexOf(cs: seq<GeneConnection>) returns (index: map<nat, nat>)
      ensures index.Keys == InnovationsOf(cs)
      ensures forall k :: k in index ==> index[k] < |cs| && cs[index[k]].innovation == k
    {
      index := map[];
      for j := 0 to |cs|
        invariant index.Keys == InnovationsOf(cs[..j])
        invariant forall k :: k in index ==> index[k] < j && cs[index[k]].innovation == k
      {
        assert cs[..j + 1] == cs[..j] + [cs[j]];
        index := index[cs[j].innovation := j];
      }
      assert cs[..|cs|] == cs;
    }

    /** The inheritance step of `Cross` on the connections `cs` of `g1` and `ds` of `g2`: for
        every connection of `ds` whose innovation number `cs` also has, a coin decides whether
        `g1` takes its weight. The write goes to the connection of `cs` at the POSITION equal
        to that innovation number, so `ok` is false (an out-of-range index) as soon as a shared
        number is not a valid position of `cs`. */
    method Inherit(cs: seq<GeneConnection>, ds: seq<GeneConnection>) returns (ok: bool)
      requires forall i, j :: 0 <= i < j < |cs| ==> cs[i].innovation < cs[j].innovation
      modifies cs
      ensures ok <==> forall j :: 0 <= j < |ds| && ds[j].innovation in InnovationsOf(cs) ==> ds[j].innovation < |cs|
      ensures Statuses(cs) == old(Statuses(cs))
      ensures forall k :: 0 <= k < |cs| && k !in InnovationsOf(cs) * InnovationsOf(ds) ==> cs[k].weight == old(Weights(cs))[k]
      ensures InnovationsOf(cs) !! InnovationsOf(ds) ==> ok && Weights(cs) == old(Weights(cs))
      ensures Apart(cs, ds) ==> forall k :: 0 <= k < |cs| ==>
                cs[k].weight == old(Weights(cs))[k] || cs[k].weight in Offered(ds, old(Weights(ds)), k, |ds|)
      ensures cs == ds && ok ==> Weights(cs) == old(Weights(cs))
      ensures forall c :: c in cs ==> c.status == old(c.status)
      ensures (cs == ds && ok) || InnovationsOf(cs) !! InnovationsOf(ds) ==>
                forall c :: c in cs ==> c.weight == old(c.weight)
    {
      var index := IndexOf(cs);
      assert Weights(ds) == old(Weights(ds));
      ok := InheritAll(cs, ds, index);
      if cs == ds && ok {
        forall m | 0 <= m < |cs| ensures cs[m].innovation < |cs| {
          assert cs[m] in cs;
        }
      }
    }

    /** The inheritance loop of `Cross`, with `index` the dictionary of `cs`. */
    method InheritAll(cs: seq<GeneConnection>, ds: seq<GeneConnection>, index: map<nat, nat>) returns (ok: bool)
      requires forall i, j :: 0 <= i < j < |cs| ==> cs[i].innovation < cs[j].innovation
      modifies cs
      ensures ok <==> forall j :: 0 <= j < |ds| && ds[j].innovation in index ==> ds[j].innovation < |cs|
      ensures Statuses(cs) == old(Statuses(cs))
      ensures forall k :: 0 <= k < |cs| && (k !in index || k !in InnovationsOf(ds)) ==> cs[k].weight == old(Weights(cs))[k]
      ensures Apart(cs, ds) ==> forall k :: 0 <= k < |cs| ==>
                cs[k].weight == old(Weights(cs))[k] || cs[k].weight in Offered(ds, old(Weights(ds)), k, |ds|)
      ensures cs == ds && (forall m :: 0 <= m < |cs| ==> cs[m].innovation < |cs|) ==> Weights(cs) == old(Weights(cs))
      ensures forall c :: c in cs ==> c.status == old(c.status)
      ensures Weights(cs) == old(Weights(cs)) ==> forall c :: c in cs ==> c.weight == old(c.weight)
    {
      ghost var selfPositions := cs == ds && forall m :: 0 <= m < |cs| ==> cs[m].innovation < |cs|;
      if selfPositions {
        PositionsAreInnovations(cs);
      }
      ok := InheritRounds(cs, ds, index, Weights(cs), Statuses(cs), Weights(ds), selfPositions);
      forall c | c in cs
        ensures c.status == old(c.status)
        ensures Weights(cs) == old(Weights(cs)) ==> c.weight == old(c.weight)
      {
        var k := Position(c, cs);
        assert Statuses(cs)[k] == old(Statuses(cs))[k];
        assert Weights(cs) == old(Weights(cs)) ==> Weights(cs)[k] == old(Weights(cs))[k];
      }
    }

    /** The loop of `InheritAll`, stated over the weights `w0` and statuses `s0` that `cs`
        holds on entry and the weights `dw` of `ds`. */
    method InheritRounds(cs: seq<GeneConnection>, ds: seq<GeneConnection>, index: map<nat, nat>,
                         ghost w0: seq<real>, ghost s0: seq<bool>, ghost dw: seq<real>, ghost selfPositions: bool)
        returns (ok: bool)
      requires forall i, j :: 0 <= i < j < |cs| ==> cs[i].innovation < cs[j].innovation
      requires w0 == Weights(cs) && s0 == Statuses(cs) && dw == Weights(ds)
      requires selfPositions ==> cs == ds && forall m :: 0 <= m < |cs| ==> cs[m].innovation == m
      modifies cs
      ensures ok <==> forall j :: 0 <= j < |ds| && ds[j].innovation in index ==> ds[j].innovation < |cs|
      ensures Statuses(cs) == s0
      ensures forall k :: 0 <= k < |cs| && (k !in index || k !in InnovationsOf(ds)) ==> cs[k].weight == w0[k]
      ensures Apart(cs, ds) ==> forall k :: 0 <= k < |cs| ==>
                cs[k].weight == w0[k] || cs[k].weight in Offered(ds, dw, k, |ds|)
      ensures selfPositions ==> Weights(cs) == w0
    {
      ghost var written: set<nat> := {};
      ok := true;
      for j := 0 to |ds|
        invariant forall m :: 0 <= m < j && ds[m].innovation in index ==> ds[m].innovation < |cs|
        invariant forall k :: k in written ==> k in index && k in InnovationsOf(ds)
        invariant Statuses(cs) == s0
        invariant forall k :: 0 <= k < |cs| && k !in written ==> cs[k].weight == w0[k]
        invariant Apart(cs, ds) ==> Weights(ds) == dw
        invariant Apart(cs, ds) ==> forall k :: 0 <= k < |cs| ==>
                    cs[k].weight == w0[k] || cs[k].weight in Offered(ds, dw, k, j)
        invariant selfPositions ==> Weights(cs) == w0
      {
        ok, written := InheritStep(cs, ds, index, j, written, w0, s0, dw, selfPositions);
        if !ok {
          return;
        }
      }
    }

    /** One round of `InheritAll`: the connection `ds[j]` offered to `cs`, stated over the
        weights `w0` and statuses `s0` that `cs` held before the first round. */
    method InheritStep(cs: seq<GeneConnection>, ds: seq<GeneConnection>, index: map<nat, nat>, j: nat,
                       ghost written: set<nat>, ghost w0: seq<real>, ghost s0: seq<bool>, ghost dw: seq<real>,
                       ghost selfPositions: bool)
        returns (ok: bool, ghost written': set<nat>)
      requires forall i, k :: 0 <= i < k < |cs| ==> cs[i].innovation < cs[k].innovation
      requires j < |ds| && |w0| == |cs| && |dw| == |ds|
      requires selfPositions ==> cs == ds && forall m :: 0 <= m < |cs| ==> cs[m].innovation == m
      requires forall m :: 0 <= m < j && ds[m].innovation in index ==> ds[m].innovation < |cs|
      requires forall k :: k in written ==> k in index && k in InnovationsOf(ds)
      requires Statuses(cs) == s0
      requires forall k :: 0 <= k < |cs| && k !in written ==> cs[k].weight == w0[k]
      requires Apart(cs, ds) ==> Weights(ds) == dw
      requires Apart(cs, ds) ==> forall k :: 0 <= k < |cs| ==>
                 cs[k].weight == w0[k] || cs[k].weight in Offered(ds, dw, k, j)
      requires selfPositions ==> Weights(cs) == w0
      modifies cs
      ensures ok <==> (ds[j].innovation in index ==> ds[j].innovation < |cs|)
      ensures ok ==> forall m :: 0 <= m < j + 1 && ds[m].innovation in index ==> ds[m].innovation < |cs|
      ensures forall k :: k in written' ==> k in index && k in InnovationsOf(ds)
      ensures Statuses(cs) == s0
      ensures forall k :: 0 <= k < |cs| && k !in written' ==> cs[k].weight == w0[k]
      ensures Apart(cs, ds) ==> Weights(ds) == dw
      ensures Apart(cs, ds) ==> forall k :: 0 <= k < |cs| ==>
                cs[k].weight == w0[k] || cs[k].weight in Offered(ds, dw, k, j + 1)
      ensures !ok && Apart(cs, ds) ==> forall k :: 0 <= k < |cs| ==>
                cs[k].weight == w0[k] || cs[k].weight in Offered(ds, dw, k, |ds|)
      ensures selfPositions ==> Weights(cs) == w0
    {
      var c := ds[j];
      assert c in ds;
      if selfPositions {
        assert cs[c.innovation] == c;
      }
      ok := InheritOne(cs, c, index);
      if !ok {
        forall k | 0 <= k < |cs| ensures Offered(ds, dw, k, j + 1) <= Offered(ds, dw, k, |ds|) {
          OfferedGrows(ds, dw, k, j + 1, |ds|);
        }
      }
      written' := written;
      if ok && c.innovation in index {
        written' := written + {c.innovation};
      }
    }

    method InheritOne(cs: seq<GeneConnection>, c: GeneConnection, index: map<nat, nat>) returns (ok: bool)
      requires forall i, j :: 0 <= i < j < |cs| ==> cs[i].innovation < cs[j].innovation
      modifies cs
      ensures ok <==> c.innovation in index ==> c.innovation < |cs|
      ensures forall k :: 0 <= k < |cs| ==> cs[k].status == old(cs[k].status)
      ensures forall k :: 0 <= k < |cs| && (k != c.innovation || c.innovation !in index) ==> cs[k].weight == old(cs[k].weight)
      ensures c.innovation in index && c.innovation < |cs| ==>
                cs[c.innovation].weight == old(cs[c.innovation].weight) || cs[c.innovation].weight == old(c.weight)
      ensures c.innovation < |cs| && cs[c.innovation] == c ==> forall k :: 0 <= k < |cs| ==> cs[k].weight == old(cs[k].weight)
    {
      ok := true;
      if c.innovation in index {
        var coin := Draws.Next();
        if c.innovation >= |cs| {
          return false;
        }
        // The source's even branch assigns the weight to itself.
        if coin % 2 == 1 {
          assert forall k :: 0 <= k < |cs| && k != c.innovation ==> cs[k].innovation != cs[c.innovation].innovation;
          cs[c.innovation].weight := c.weight;
        }
      }
    }

    /** `Mutate(true)` on a genome of the pool keeps every genome of the `universe` sound and
        keeps distinct genomes apart: the mutated genome's new innovation numbers are fresh
        from the shared counter. */
    method MutateMember(g: Genome, ghost universe: seq<Genome>)
      requires g in universe && AllSound(universe, counter.next) && Separate(universe)
      modifies g, counter, g.connections
      ensures AllSound(universe, counter.next) && Separate(universe)
      ensures g.score == old(g.score) && old(counter.next) <= counter.next
      ensures forall c :: c in g.connections ==> c in old(g.connections) || fresh(c)
      ensures ScoresOf(universe) == old(ScoresOf(universe))
    {
      ghost var next0, cs0 := counter.next, g.connections;
      assert Sound(g, next0);
      assert forall h :: h in universe && h != g ==> Sound(h, next0) && InnovationsOf(cs0) !! h.Innovations();
      g.Mutate(true, false, counter);
      GrownInnovations(g, cs0, next0, counter.next);
      forall h | h in universe && h != g
        ensures h.Innovations() == old(h.Innovations())
        ensures Sound(h, counter.next) && g.Innovations() !! h.Innovations()
      {
        assert h.InnovationsBelow(next0);
      }
      forall h, h' | h in universe && h' in universe && h != g && h' != g && h != h'
        ensures h.Innovations() !! h'.Innovations()
      {
        assert old(h.Innovations() !! h'.Innovations());
      }
      SeparateWith(universe, g);
      forall c | c in g.connections ensures c in cs0 || fresh(c) {
        var i :| 0 <= i < |g.connections| && g.connections[i] == c;
        if i < |cs0| {
          assert g.connections[i] == cs0[i];
        }
      }
    }

    /** `Cross` on one species, returning the genomes it appends to the pool: a singleton is
        mutated and kept; otherwise the first `idx` members (the elites) are kept, and every
        member from position `idx + 1` on is paired with a random elite, the fitter of the
        two inherits from the other, is mutated and kept. The member at position `idx` takes
        no part. */
    method Cross(members: seq<Genome>, ghost universe: seq<Genome>) returns (ok: bool, offspring: seq<Genome>)
      requires |members| > 0 && Within(members, universe)
      requires AllSound(universe, counter.next) && Separate(universe)
      modifies counter, universe, ConnsOf(universe)
      ensures AllSound(universe, counter.next) && Separate(universe) && Within(offspring, universe)
      ensures forall c :: c in ConnsOf(universe) ==> c in old(ConnsOf(universe)) || fresh(c)
      ensures ok ==> |offspring| == Speciation.Offspring(|members|)
      ensures |members| == 1 ==> ok
      ensures Distinct(members) ==> ok
      ensures Crossed(members, offspring, old(ScoresOf(members)))
      ensures ScoresOf(universe) == old(ScoresOf(universe))
    {
      if |members| == 1 {
        OwnedBy(universe);
        assert members[0] in universe;
        MutateMember(members[0], universe);
        return true, members;
      }
      var idx := Speciation.EliteCount(|members|);
      offspring := [];
      for i := 0 to idx
        invariant offspring == members[..i]
      {
        assert members[..i + 1] == members[..i] + [members[i]];
        offspring := offspring + [members[i]];
      }
      var children;
      ok, children := CrossRest(members, idx, universe);
      offspring := offspring + children;
      assert offspring[..idx] == members[..idx];
    }

    /** The crossing loop of `Cross`, over the members from position `idx + 1` on. */
    method CrossRest(members: seq<Genome>, idx: nat, ghost universe: seq<Genome>) returns (ok: bool, children: seq<Genome>)
      requires 0 < idx < |members| && Within(members, universe)
      requires AllSound(universe, counter.next) && Separate(universe)
      modifies counter, universe, ConnsOf(universe)
      ensures AllSound(universe, counter.next) && Separate(universe) && Within(children, universe)
      ensures forall c :: c in ConnsOf(universe) ==> c in old(ConnsOf(universe)) || fresh(c)
      ensures Paired(members, idx, children, old(ScoresOf(members))) && (ok ==> |children| == |members| - idx - 1)
      ensures Distinct(members) ==> ok
      ensures ScoresOf(universe) == old(ScoresOf(universe))
    {
      children := [];
      ok := true;
      ghost var picks: seq<nat> := [];
      ghost var ms := ScoresOf(members);
      for i := idx + 1 to |members|
        invariant AllSound(universe, counter.next) && Separate(universe) && Within(children, universe)
        invariant forall c :: c in ConnsOf(universe) ==> c in old(ConnsOf(universe)) || fresh(c)
        invariant |children| == i - idx - 1 && Picked(members, idx, children, picks, ms)
        invariant ScoresOf(universe) == old(ScoresOf(universe)) && ScoresOf(members) == ms
        invariant Distinct(members) ==> ok
      {
        ok, children, picks := BreedInto(members, i, idx, children, picks, ms, universe);
        if !ok {
          break;
        }
      }
      PairedByPicks(members, idx, children, picks, ms);
    }

    /** One round of `Cross`'s crossing loop with the append of the child. */
    method BreedInto(members: seq<Genome>, i: nat, idx: nat, children: seq<Genome>, ghost picks: seq<nat>,
                     ghost ms: seq<real>, ghost universe: seq<Genome>)
      returns (ok: bool, children': seq<Genome>, ghost picks': seq<nat>)
      requires 0 < idx < i < |members| && Within(members, universe) && Within(children, universe)
      requires AllSound(universe, counter.next) && Separate(universe)
      requires i == idx + 1 + |children| && Picked(members, idx, children, picks, ms) && ScoresOf(members) == ms
      modifies counter, universe, ConnsOf(universe)
      ensures AllSound(universe, counter.next) && Separate(universe) && Within(children', universe)
      ensures forall c :: c in ConnsOf(universe) ==> c in old(ConnsOf(universe)) || fresh(c)
      ensures ScoresOf(universe) == old(ScoresOf(universe)) && ScoresOf(members) == ms
      ensures ok ==> |children'| == i - idx && Picked(members, idx, children', picks', ms)
      ensures !ok ==> children' == children && picks' == picks
      ensures Distinct(members) ==> ok
    {
      var child;
      ghost var r: nat, pick: nat;
      ok, child, r, pick := Breed(members, i, idx, universe);
      if !ok {
        return ok, children, picks;
      }
      PickedStep(members, idx, children, picks, ms, child, pick);
      children' := children + [child];
      picks' := picks + [pick];
    }

    /** One round of `Cross`'s crossing loop, for the member at position `i`: the child is
        the fitter of the member and a random elite, after inheriting from the other one and
        being mutated. */
    method Breed(members: seq<Genome>, i: nat, idx: nat, ghost universe: seq<Genome>) returns (ok: bool, child: Genome, ghost r: nat, ghost pick: nat)
      requires 0 < idx < i < |members| && Within(members, universe)
      requires AllSound(universe, counter.next) && Separate(universe)
      modifies counter, universe, ConnsOf(universe)
      ensures AllSound(universe, counter.next) && Separate(universe) && child in universe
      ensures forall c :: c in ConnsOf(universe) ==> c in old(ConnsOf(universe)) || fresh(c)
      ensures r < idx && child == old(Fitter(members[r], members[i]))
      ensures members[r] != members[i] ==> ok
      ensures (pick == i || pick == r) && child == members[pick]
      ensures ScoresOf(members)[pick] >= ScoresOf(members)[i]
      ensures ScoresOf(universe) == old(ScoresOf(universe)) && ScoresOf(members) == old(ScoresOf(members))
    {
      var draw := Draws.Next();
      var rIdx := draw % idx;
      r := rIdx;
      var g1, g2 := Fitter(members[rIdx], members[i]), members[i];
      if g1 == members[i] {
        g2 := members[rIdx];
      }
      child := g1;
      pick := if g1 == members[i] then i else rIdx;
      ok := InheritMutate(g1, g2, universe);
      forall j | 0 <= j < |members| ensures members[j].score == old(members[j].score) {
        assert members[j] in members;
        var k :| 0 <= k < |universe| && universe[k] == members[j];
        assert ScoresOf(universe)[k] == old(ScoresOf(universe))[k];
      }
    }

    /** `g1` takes over the weights of the connections it shares with `g2`, then is mutated. */
    method InheritMutate(g1: Genome, g2: Genome, ghost universe: seq<Genome>) returns (ok: bool)
      requires g1 in universe && g2 in universe && AllSound(universe, counter.next) && Separate(universe)
      modifies counter, universe, ConnsOf(universe)
      ensures AllSound(universe, counter.next) && Separate(universe)
      ensures forall c :: c in ConnsOf(universe) ==> c in old(ConnsOf(universe)) || fresh(c)
      ensures ScoresOf(universe) == old(ScoresOf(universe))
      ensures g1 != g2 ==> ok
    {
      ok := InheritWithin(g1, g2, universe);
      if ok {
        MutateMember(g1, universe);
      }
    }

    /** The inheritance half of `InheritMutate`: only connection weights change, so the
        genomes themselves are untouched. Two distinct genomes of a separate pool share no
        innovation number, so nothing is inherited; a genome paired with itself can only
        succeed when its innovation numbers are its positions, and then every write puts a
        weight back where it was. */
    method InheritWithin(g1: Genome, g2: Genome, ghost universe: seq<Genome>) returns (ok: bool)
      requires g1 in universe && g2 in universe && AllSound(universe, counter.next) && Separate(universe)
      modifies ConnsOf(universe)
      ensures unchanged(universe)
      ensures AllSound(universe, counter.next) && Separate(universe)
      ensures g1 != g2 ==> ok
      ensures forall c :: c in ConnsOf(universe) ==> c.status == old(c.status)
      ensures ok ==> forall c :: c in ConnsOf(universe) ==> c.weight == old(c.weight)
    {
      OwnedBy(universe);
      assert Sound(g1, counter.next);
      ghost var cs := g1.connections;
      assert g1 != g2 ==> InnovationsOf(cs) !! InnovationsOf(g2.connections);
      ok := Inherit(g1.connections, g2.connections);
    }

    /** `UpdatePool(score)`: the genome just run gets its score and a ranking entry, the
        cursor moves on, and after the last genome of the pool a generation step follows. */
    method UpdatePool(score: real) returns (ok: bool)
      requires Valid() && |genomePool| > 0
      modifies this, genomePool, counter, ConnsOf(genomePool)
      ensures msg == Message.Iterate && currentSample == 0
      ensures exists key :: key !in old(rankedGenome) && score <= key &&
                rankedGenome == old(rankedGenome)[key := old(genomePool[currentGenome])]
      ensures old(genomePool)[old(currentGenome)].score == score
      ensures old(currentGenome) + 1 < old(|genomePool|) ==>
                ok && genomePool == old(genomePool) && currentGenome == old(currentGenome) + 1 &&
                generation == old(generation) && species == old(species) && counter.next == old(counter.next)
      ensures old(currentGenome) + 1 < old(|genomePool|) ==>
                forall i :: 0 <= i < |genomePool| ==>
                  genomePool[i].nodes == old(genomePool[i].nodes) && genomePool[i].connections == old(genomePool[i].connections)
      ensures old(currentGenome) + 1 < old(|genomePool|) ==>
                forall i :: 0 <= i < |genomePool| && genomePool[i] != old(genomePool[currentGenome]) ==>
                  genomePool[i].score == old(genomePool[i].score)
      ensures old(currentGenome) + 1 < old(|genomePool|) ==>
                forall c :: c in ConnsOf(genomePool) ==> c.weight == old(c.weight) && c.status == old(c.status)
      ensures old(currentGenome) + 1 == old(|genomePool|) ==>
                generation == old(generation) + 1 && currentGenome == 0 && species == [old(genomePool)] &&
                (ok ==> |genomePool| == Speciation.Offspring(old(|genomePool|))) &&
                Within(genomePool, old(genomePool)) && Crossed(old(genomePool), genomePool, ScoresOf(old(genomePool)))
      ensures ok ==> Valid()
      ensures Distinct(old(genomePool)) ==> ok
    {
      Record(score);
      ok := true;
      if currentGenome == |genomePool| {
        ok := NextGeneration();
      }
    }

    /** The bookkeeping half of `UpdatePool`: score, ranking key, cursor. */
    method Record(score: real)
      requires Valid() && |genomePool| > 0
      modifies this, genomePool[currentGenome]
      ensures msg == Message.Iterate && currentSample == 0 && currentGenome == old(currentGenome) + 1
      ensures genomePool == old(genomePool) && generation == old(generation) && species == old(species)
      ensures genomePool[old(currentGenome)].score == score
      ensures genomePool[old(currentGenome)].nodes == old(genomePool[currentGenome].nodes)
      ensures genomePool[old(currentGenome)].connections == old(genomePool[currentGenome].connections)
      ensures exists key :: key !in old(rankedGenome) && score <= key &&
                rankedGenome == old(rankedGenome)[key := old(genomePool[currentGenome])]
      ensures AllSound(genomePool, counter.next) && Separate(genomePool) && currentGenome <= |genomePool|
      ensures ConnsOf(genomePool) == old(ConnsOf(genomePool))
    {
      var g := genomePool[currentGenome];
      ScoreMember(genomePool, g, score, counter.next);
      Rank(g, score);
    }

    /** The message, the ranking entry and the cursor step of `UpdatePool`. */
    method Rank(g: Genome, score: real)
      modifies this
      ensures msg == Message.Iterate && currentSample == 0 && currentGenome == old(currentGenome) + 1
      ensures genomePool == old(genomePool) && generation == old(generation) && species == old(species)
      ensures exists key :: key !in old(rankedGenome) && score <= key && rankedGenome == old(rankedGenome)[key := g]
    {
      msg := Message.Iterate;
      var key := FreeKey(score);
      rankedGenome := rankedGenome[key := g];
      currentGenome := currentGenome + 1;
      currentSample := 0;
    }

    /** The generation step of `UpdatePool`: speciation of the scored pool (which always
        gives one species holding the whole pool, in order), then the pool rebuilt by
        crossing each species. */
    method NextGeneration() returns (ok: bool)
      requires AllSound(genomePool, counter.next) && Separate(genomePool) && |genomePool| > 0
      modifies this, genomePool, counter, ConnsOf(genomePool)
      ensures generation == old(generation) + 1 && currentGenome == 0 && species == [old(genomePool)]
      ensures rankedGenome == old(rankedGenome) && msg == old(msg) && currentSample == old(currentSample)
      ensures ok ==> |genomePool| == Speciation.Offspring(old(|genomePool|)) && Valid()
      ensures Within(genomePool, old(genomePool)) && Crossed(old(genomePool), genomePool, old(ScoresOf(genomePool)))
      ensures ScoresOf(old(genomePool)) == old(ScoresOf(genomePool))
      ensures Distinct(old(genomePool)) ==> ok
    {
      OneSpecies();
      ok := Regenerate();
    }

    /** The crossing region of `UpdatePool`: the pool, which is the only species, is
        replaced by its crossed offspring. */
    method Regenerate() returns (ok: bool)
      requires AllSound(genomePool, counter.next) && Separate(genomePool) && |genomePool| > 0
      requires species == [genomePool]
      modifies this`genomePool, genomePool, counter, ConnsOf(genomePool)
      ensures ok ==> |genomePool| == Speciation.Offspring(old(|genomePool|))
      ensures AllSound(genomePool, counter.next) && Separate(genomePool)
      ensures Within(genomePool, old(genomePool)) && Crossed(old(genomePool), genomePool, old(ScoresOf(genomePool)))
      ensures ScoresOf(old(genomePool)) == old(ScoresOf(genomePool))
      ensures Distinct(old(genomePool)) ==> ok
    {
      ghost var universe := genomePool;
      var next;
      ghost var parts;
      ok, next, parts := CrossAll(species, universe);
      assert Speciation.Sizes(species) == [|universe|];
      assert [|universe|][..0] == [];
      assert next == parts[0] by {
        assert parts[..0] == [];
      }
      genomePool := next;
    }

    /** The speciation region of `UpdatePool`, with the generation counter and the cursor
        reset that precede it. */
    method OneSpecies()
      requires AllSound(genomePool, counter.next) && Separate(genomePool) && |genomePool| > 0
      modifies this
      ensures genomePool == old(genomePool) && species == [genomePool]
      ensures generation == old(generation) + 1 && currentGenome == 0
      ensures rankedGenome == old(rankedGenome) && msg == old(msg) && currentSample == old(currentSample)
    {
      var sp := SpeciesOfSound(genomePool, counter.next);
      species := sp;
      generation := generation + 1;
      currentGenome := 0;
    }

    /** The speciation loop run on a sound, separate, non-empty pool: one species, the
        whole pool in order. */
    method SpeciesOfSound(pool: seq<Genome>, ghost bound: nat) returns (sp: seq<seq<Genome>>)
      requires |pool| > 0 && AllSound(pool, bound) && Separate(pool)
      ensures sp == [pool]
    {
      ghost var keys := KeysFor(pool);
      sp := SpeciesOf(pool, keys);
      WholePool(sp, pool, keys, bound);
    }

    /** One round of the crossing region: species `sp[j]` is crossed and what it keeps is
        appended to the pool, also when the crossing fails part-way. */
    method CrossAppend(sp: seq<seq<Genome>>, j: nat, pool: seq<Genome>, ghost parts: seq<seq<Genome>>,
                       ghost universe: seq<Genome>, ghost scores0: seq<real>)
      returns (ok: bool, pool': seq<Genome>, ghost parts': seq<seq<Genome>>)
      requires j < |sp| && forall k :: 0 <= k < |sp| ==> |sp[k]| > 0 && Within(sp[k], universe)
      requires AllSound(universe, counter.next) && Separate(universe) && Within(pool, universe)
      requires pool == Flatten(parts) && |parts| == j && ScoresOf(universe) == scores0
      requires forall k :: 0 <= k < j ==> Crossed(sp[k], parts[k], Project(sp[k], universe, scores0))
      modifies counter, universe, ConnsOf(universe)
      ensures AllSound(universe, counter.next) && Separate(universe) && Within(pool', universe)
      ensures forall c :: c in ConnsOf(universe) ==> c in old(ConnsOf(universe)) || fresh(c)
      ensures pool' == Flatten(parts') && |parts'| == j + 1 && ScoresOf(universe) == scores0
      ensures forall k :: 0 <= k <= j ==> Crossed(sp[k], parts'[k], Project(sp[k], universe, scores0))
      ensures ok ==> |pool'| == |pool| + Speciation.Offspring(|sp[j]|)
      ensures Distinct(sp[j]) ==> ok
    {
      ScoresProject(sp[j], universe);
      var offspring;
      ok, offspring := Cross(sp[j], universe);
      assert Flatten(parts + [offspring]) == Flatten(parts) + offspring by {
        assert (parts + [offspring])[..|parts|] == parts;
      }
      parts' := parts + [offspring];
      pool' := pool + offspring;
    }

    /** The crossing region of `UpdatePool`: the new pool is what crossing each species in
        turn appends to the cleared pool; `parts[j]` is what species `j` appended. A failed
        inheritance ends the region after the genomes already appended. */
    method CrossAll(sp: seq<seq<Genome>>, ghost universe: seq<Genome>) returns (ok: bool, pool: seq<Genome>, ghost parts: seq<seq<Genome>>)
      requires AllSound(universe, counter.next) && Separate(universe)
      requires forall j :: 0 <= j < |sp| ==> |sp[j]| > 0 && Within(sp[j], universe)
      modifies counter, universe, ConnsOf(universe)
      ensures AllSound(pool, counter.next) && Separate(pool) && Within(pool, universe)
      ensures ok ==> |pool| == Speciation.NextPoolSize(Speciation.Sizes(sp))
      ensures pool == Flatten(parts) && |parts| <= |sp| && (ok ==> |parts| == |sp|) && (!ok ==> 0 < |parts|)
      ensures forall j :: 0 <= j < |parts| ==> Crossed(sp[j], parts[j], old(ScoresOf(sp[j])))
      ensures ScoresOf(universe) == old(ScoresOf(universe))
      ensures (forall j :: 0 <= j < |sp| ==> Distinct(sp[j])) ==> ok
    {
      ghost var sizes := Speciation.Sizes(sp);
      ghost var scores0 := ScoresOf(universe);
      forall k | 0 <= k < |sp| ensures ScoresOf(sp[k]) == Project(sp[k], universe, scores0) {
        ScoresProject(sp[k], universe);
      }
      pool := [];
      parts := [];
      ok := true;
      for j := 0 to |sp|
        invariant AllSound(universe, counter.next) && Separate(universe) && Within(pool, universe)
        invariant forall c :: c in ConnsOf(universe) ==> c in old(ConnsOf(universe)) || fresh(c)
        invariant |pool| == Speciation.NextPoolSize(sizes[..j])
        invariant pool == Flatten(parts) && |parts| == j
        invariant forall k :: 0 <= k < j ==> Crossed(sp[k], parts[k], Project(sp[k], universe, scores0))
        invariant ScoresOf(universe) == scores0
      {
        Speciation.NextPoolSizeStep(sizes, j);
        ok, pool, parts := CrossAppend(sp, j, pool, parts, universe, scores0);
        if !ok {
          return;
        }
      }
      assert sizes[..|sp|] == sizes;
    }
  }
}
