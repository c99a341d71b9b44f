/** The genetic distance of `MatchGenome` as pure functions over connection snapshots. */
module Compatibility {
  import opened Genes

  /** The threshold `10.5f` and the weight factor `0.4f` (taken as the exact reals). */
  const Threshold: real := 10.5
  const WeightFactor: real := 0.4

  function Abs(x: real): (r: real)
    ensures r >= 0.0 && (r == x || r == -x)
  {
    if x < 0.0 then -x else x
  }

  /** `h1`/`h2`: the innovation numbers of a connection list. */
  function InnovationSet(gs: seq<Gene>): (h: set<nat>)
    ensures forall i :: 0 <= i < |gs| ==> gs[i].innovation in h
    ensures forall k :: k in h ==> exists i :: 0 <= i < |gs| && gs[i].innovation == k
  {
    if gs == [] then {} else InnovationSet(gs[..|gs| - 1]) + {gs[|gs| - 1].innovation}
  }

  /** `d1`/`d2`: innovation number to weight; a later connection overwrites an earlier one. */
  function WeightMap(gs: seq<Gene>): (d: map<nat, real>)
    ensures d.Keys == InnovationSet(gs)
  {
    if gs == [] then map[] else WeightMap(gs[..|gs| - 1])[gs[|gs| - 1].innovation := gs[|gs| - 1].weight]
  }

  /** Sum, in list order, of `|d1[k] - d2[k]|` over the connections whose innovation `k` is in `shared`. */
  function SumGaps(gs: seq<Gene>, shared: set<nat>, d1: map<nat, real>, d2: map<nat, real>): real
  {
    if gs == [] then 0.0
    else
      var k := gs[|gs| - 1].innovation;
      SumGaps(gs[..|gs| - 1], shared, d1, d2) + Gap(k, shared, d1, d2)
  }

  function Gap(k: nat, shared: set<nat>, d1: map<nat, real>, d2: map<nat, real>): real
  {
    if k in shared && k in d1 && k in d2 then Abs(d1[k] - d2[k]) else 0.0
  }

  /** `count1 + count2 - count3`: the number of innovations in either list. */
  function Denominator(a: seq<Gene>, b: seq<Gene>): (r: int)
    ensures r >= 0
    ensures r == 0 <==> InnovationSet(a) == {} && InnovationSet(b) == {}
  {
    var h1, h2 := InnovationSet(a), InnovationSet(b);
    |h1| + |h2| - |h1 * h2|
  }

  /** The numerator: disjoint count plus `0.4` times the summed weight gaps. */
  function Numerator(a: seq<Gene>, b: seq<Gene>): real
  {
    var h1, h2 := InnovationSet(a), InnovationSet(b);
    (|h1| + |h2| - 2 * |h1 * h2|) as real + WeightFactor * SumGaps(a, h1 * h2, WeightMap(a), WeightMap(b))
  }

  /** `delta` of the source, defined when some innovation exists. */
  function Distance(a: seq<Gene>, b: seq<Gene>): real
    requires Denominator(a, b) > 0
  {
    Numerator(a, b) / Denominator(a, b) as real
  }

  /** `MatchGenome`: `delta < 10.5`. With no connections on either side `delta` is 0/0, which
      is NaN, and every comparison with NaN is false. */
  predicate Compatible(a: seq<Gene>, b: seq<Gene>)
  {
    Denominator(a, b) > 0 && Distance(a, b) < Threshold
  }

  predicate DistinctInnovations(gs: seq<Gene>)
  {
    forall i, j :: 0 <= i < j < |gs| ==> gs[i].innovation != gs[j].innovation
  }

  /** The numerator and denominator of `MatchGenome`'s distance from its three counts and
      its summed weight gaps. */
  lemma DistanceFromCounts(a: seq<Gene>, b: seq<Gene>, count1: nat, count2: nat, count3: nat, deltaWeight: real)
    requires count1 == |InnovationSet(a)| && count2 == |InnovationSet(b)|
    requires count3 == |InnovationSet(a) * InnovationSet(b)|
    requires deltaWeight == SumGaps(a, InnovationSet(a) * InnovationSet(b), WeightMap(a), WeightMap(b))
    ensures Denominator(a, b) == count1 + count2 - count3
    ensures Numerator(a, b) == (count1 + count2 - 2 * count3) as real + WeightFactor * deltaWeight
  {
  }

  lemma DistanceIs(a: seq<Gene>, b: seq<Gene>, num: real, den: int)
    requires Numerator(a, b) == num && Denominator(a, b) == den && den > 0
    ensures Distance(a, b) == num / den as real
  {
  }

  // Lemmas about the distance.

  lemma {:induction false} SumGapsSwap(gs: seq<Gene>, shared: set<nat>, d1: map<nat, real>, d2: map<nat, real>)
    ensures SumGaps(gs, shared, d1, d2) == SumGaps(gs, shared, d2, d1)
  {
    if gs != [] {
      SumGapsSwap(gs[..|gs| - 1], shared, d1, d2);
    }
  }

  lemma {:induction false} SumGapsSame(gs: seq<Gene>, shared: set<nat>, d: map<nat, real>)
    ensures SumGaps(gs, shared, d, d) == 0.0
  {
    if gs != [] {
      SumGapsSame(gs[..|gs| - 1], shared, d);
    }
  }

  lemma {:induction false} SumGapsNoneShared(gs: seq<Gene>, d1: map<nat, real>, d2: map<nat, real>)
    ensures SumGaps(gs, {}, d1, d2) == 0.0
  {
    if gs != [] {
      SumGapsNoneShared(gs[..|gs| - 1], d1, d2);
    }
  }

  /** Taking one connection out of the list takes its gap out of the sum. */
  lemma {:induction false} SumGapsRemove(gs: seq<Gene>, j: nat, shared: set<nat>, d1: map<nat, real>, d2: map<nat, real>)
    requires j < |gs|
    ensures SumGaps(gs, shared, d1, d2)
         == SumGaps(gs[..j] + gs[j + 1..], shared, d1, d2) + Gap(gs[j].innovation, shared, d1, d2)
  {
    var n := |gs|;
    if j == n - 1 {
      assert gs[..j] + gs[j + 1..] == gs[..n - 1];
    } else {
      var rest := gs[..j] + gs[j + 1..];
      assert rest[..|rest| - 1] == gs[..n - 1][..j] + gs[..n - 1][j + 1..];
      assert rest[|rest| - 1] == gs[n - 1];
      SumGapsRemove(gs[..n - 1], j, shared, d1, d2);
    }
  }

  /** Over lists without repeated innovations, the sum depends only on which shared
      innovations occur, not on their order. */
  lemma {:induction false} SumGapsOrderFree(xs: seq<Gene>, ys: seq<Gene>, shared: set<nat>,
                                            d1: map<nat, real>, d2: map<nat, real>)
    requires DistinctInnovations(xs) && DistinctInnovations(ys)
    requires InnovationSet(xs) * shared == InnovationSet(ys) * shared
    ensures SumGaps(xs, shared, d1, d2) == SumGaps(ys, shared, d1, d2)
    decreases |xs| + |ys|
  {
    if xs == [] {
      SumGapsOutside(ys, shared, d1, d2);
    } else {
      var n := |xs|;
      var k := xs[n - 1].innovation;
      var init := xs[..n - 1];
      SplitLast(xs);
      assert SumGaps(xs, shared, d1, d2) == SumGaps(init, shared, d1, d2) + Gap(k, shared, d1, d2);
      if k !in shared {
        assert InnovationSet(init) * shared == InnovationSet(ys) * shared;
        SumGapsOrderFree(init, ys, shared, d1, d2);
        assert Gap(k, shared, d1, d2) == 0.0;
      } else {
        assert k in InnovationSet(xs) * shared;
        assert k in InnovationSet(ys);
        var j :| 0 <= j < |ys| && ys[j].innovation == k;
        var rest := ys[..j] + ys[j + 1..];
        SumGapsRemove(ys, j, shared, d1, d2);
        RemovePreservesDistinct(ys, j);
        RemovedSet(ys, j);
        calc {
          InnovationSet(init) * shared;
          (InnovationSet(xs) - {k}) * shared;
          (InnovationSet(xs) * shared) - {k};
          (InnovationSet(ys) * shared) - {k};
          InnovationSet(rest) * shared;
        }
        SumGapsOrderFree(init, rest, shared, d1, d2);
        assert SumGaps(ys, shared, d1, d2) == SumGaps(rest, shared, d1, d2) + Gap(k, shared, d1, d2);
      }
    }
  }

  /** The last innovation of a list without repeats is not among the earlier ones. */
  lemma SplitLast(xs: seq<Gene>)
    requires xs != [] && DistinctInnovations(xs)
    ensures InnovationSet(xs) == InnovationSet(xs[..|xs| - 1]) + {xs[|xs| - 1].innovation}
    ensures xs[|xs| - 1].innovation !in InnovationSet(xs[..|xs| - 1])
    ensures DistinctInnovations(xs[..|xs| - 1])
  {
    var init, k := xs[..|xs| - 1], xs[|xs| - 1].innovation;
    forall i | 0 <= i < |init| ensures init[i].innovation != k {
      assert init[i] == xs[i];
    }
  }

  lemma {:induction false} SumGapsOutside(gs: seq<Gene>, shared: set<nat>, d1: map<nat, real>, d2: map<nat, real>)
    requires InnovationSet(gs) * shared == {}
    ensures SumGaps(gs, shared, d1, d2) == 0.0
  {
    if gs != [] {
      var init, k := gs[..|gs| - 1], gs[|gs| - 1].innovation;
      assert k in InnovationSet(gs) && k !in InnovationSet(gs) * shared;
      forall x | x in InnovationSet(init) ensures x !in shared {
        var i :| 0 <= i < |init| && init[i].innovation == x;
        assert gs[i] == init[i] && x in InnovationSet(gs);
        assert x !in InnovationSet(gs) * shared;
      }
      assert InnovationSet(init) * shared == {};
      SumGapsOutside(init, shared, d1, d2);
      assert Gap(k, shared, d1, d2) == 0.0;
    }
  }

  lemma RemovePreservesDistinct(gs: seq<Gene>, j: nat)
    requires j < |gs| && DistinctInnovations(gs)
    ensures DistinctInnovations(gs[..j] + gs[j + 1..])
  {
    var rest := gs[..j] + gs[j + 1..];
    forall a, b | 0 <= a < b < |rest| ensures rest[a].innovation != rest[b].innovation {
      var a' := if a < j then a else a + 1;
      var b' := if b < j then b else b + 1;
      assert rest[a] == gs[a'] && rest[b] == gs[b'];
    }
  }

  lemma RemovedSet(gs: seq<Gene>, j: nat)
    requires j < |gs| && DistinctInnovations(gs)
    ensures InnovationSet(gs[..j] + gs[j + 1..]) == InnovationSet(gs) - {gs[j].innovation}
  {
    var rest := gs[..j] + gs[j + 1..];
    RemovedAt(gs, j, rest);
    RemovedFrom(gs, j, rest);
    RemovedOnly(gs, j, rest);
  }

  /** Position `i` of the list without position `j`. */
  lemma RemovedAt(gs: seq<Gene>, j: nat, rest: seq<Gene>)
    requires j < |gs| && rest == gs[..j] + gs[j + 1..]
    ensures |rest| == |gs| - 1
    ensures forall i :: 0 <= i < j ==> rest[i] == gs[i]
    ensures forall i :: j <= i < |rest| ==> rest[i] == gs[i + 1]
  {
  }

  lemma RemovedFrom(gs: seq<Gene>, j: nat, rest: seq<Gene>)
    requires j < |gs| && DistinctInnovations(gs) && |rest| == |gs| - 1
    requires forall i :: 0 <= i < j ==> rest[i] == gs[i]
    requires forall i :: j <= i < |rest| ==> rest[i] == gs[i + 1]
    ensures InnovationSet(rest) <= InnovationSet(gs) - {gs[j].innovation}
  {
    forall k | k in InnovationSet(rest) ensures k in InnovationSet(gs) - {gs[j].innovation} {
      var i :| 0 <= i < |rest| && rest[i].innovation == k;
      var i' := if i < j then i else i + 1;
      assert gs[i'].innovation == k;
    }
  }

  lemma RemovedOnly(gs: seq<Gene>, j: nat, rest: seq<Gene>)
    requires j < |gs| && |rest| == |gs| - 1
    requires forall i :: 0 <= i < j ==> rest[i] == gs[i]
    requires forall i :: j <= i < |rest| ==> rest[i] == gs[i + 1]
    ensures InnovationSet(gs) - {gs[j].innovation} <= InnovationSet(rest)
  {
    forall k | k in InnovationSet(gs) - {gs[j].innovation} ensures k in InnovationSet(rest) {
      var i :| 0 <= i < |gs| && gs[i].innovation == k;
      if i < j {
        assert rest[i] == gs[i];
      } else {
        assert i != j && rest[i - 1] == gs[i];
      }
    }
  }

  /** `MatchGenome(A, B) == MatchGenome(B, A)` when neither genome repeats an innovation. */
  lemma CompatibleSymmetric(a: seq<Gene>, b: seq<Gene>)
    requires DistinctInnovations(a) && DistinctInnovations(b)
    ensures Compatible(a, b) == Compatible(b, a)
  {
    var h1, h2 := InnovationSet(a), InnovationSet(b);
    assert h1 * h2 == h2 * h1;
    SumGapsSwap(b, h1 * h2, WeightMap(b), WeightMap(a));
    SumGapsOrderFree(a, b, h1 * h2, WeightMap(a), WeightMap(b));
    assert Numerator(a, b) == Numerator(b, a);
    assert Denominator(a, b) == Denominator(b, a);
  }

  /** A genome with at least one connection is at distance 0 from itself, so it matches itself. */
  lemma SelfDistanceZero(a: seq<Gene>)
    requires |a| > 0
    ensures Denominator(a, a) > 0 && Numerator(a, a) == 0.0 && Distance(a, a) == 0.0
    ensures Compatible(a, a)
  {
    var h := InnovationSet(a);
    assert a[0].innovation in h;
    assert h * h == h;
    assert |h| > 0;
    SumGapsSame(a, h, WeightMap(a));
    assert Denominator(a, a) == |h|;
    assert Numerator(a, a) == 0.0;
    var d := Denominator(a, a) as real;
    assert 0.0 / d == 0.0;
  }

  /** Two genomes without connections never match: the distance is 0/0. */
  lemma EmptyGenomesIncompatible()
    ensures !Compatible([], [])
  {
  }

  /** Genomes that share no innovation number are at distance exactly 1, below the threshold,
      unless both lack connections. */
  lemma DisjointGenomesCompatible(a: seq<Gene>, b: seq<Gene>)
    requires InnovationSet(a) * InnovationSet(b) == {}
    requires |a| > 0 || |b| > 0
    ensures Denominator(a, b) > 0 && Numerator(a, b) == Denominator(a, b) as real
    ensures Distance(a, b) == 1.0
    ensures Compatible(a, b)
  {
    var h1, h2 := InnovationSet(a), InnovationSet(b);
    if |a| > 0 {
      assert a[0].innovation in h1;
    } else {
      assert b[0].innovation in h2;
    }
    SumGapsNoneShared(a, WeightMap(a), WeightMap(b));
    assert |h1 * h2| == 0;
    var d := Denominator(a, b);
    assert d == |h1| + |h2| && d > 0;
    assert Numerator(a, b) == d as real;
    DivSelf(d as real);
  }

  /** Division of a positive real by itself, kept apart from the counting facts above so
      that the solver meets the non-linear term alone. */
  lemma DivSelf(x: real)
    requires x > 0.0
    ensures x / x == 1.0
  {
  }
}
