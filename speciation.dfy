/** Speciation and the pool sizes of crossing, as pure functions over one snapshot per pool
    genome (`keys`) and the positions of the genomes. A species is the list of pool
    positions of its members, in pool order; its first member is its representative. The
    compatibility test `compat` is a parameter, so these facts hold whatever it computes. */
module Speciation {
  import Evaluation

  /** Every group is non-empty and holds positions below `n`. */
  predicate Bounded(groups: seq<seq<nat>>, n: nat)
  {
    forall j :: 0 <= j < |groups| ==>
      |groups[j]| > 0 && forall k :: 0 <= k < |groups[j]| ==> groups[j][k] < n
  }

  /** The first group at or after `j` whose representative `key` matches; `|groups|` if none. */
  function FirstMatch<K>(groups: seq<seq<nat>>, key: K, keys: seq<K>, j: nat, compat: (K, K) -> bool): (r: nat)
    requires j <= |groups| && Bounded(groups, |keys|)
    ensures j <= r <= |groups|
    ensures forall j' :: j <= j' < r ==> !compat(key, keys[groups[j'][0]])
    ensures r < |groups| ==> compat(key, keys[groups[r][0]])
    decreases |groups| - j
  {
    if j == |groups| then j
    else if compat(key, keys[groups[j][0]]) then j
    else FirstMatch(groups, key, keys, j + 1, compat)
  }

  /** One step of the speciation loop: position `i` joins the first species whose
      representative it matches, or starts a new species. */
  function Place<K>(groups: seq<seq<nat>>, i: nat, keys: seq<K>, compat: (K, K) -> bool): seq<seq<nat>>
    requires i < |keys| && Bounded(groups, |keys|)
  {
    var j := FirstMatch(groups, keys[i], keys, 0, compat);
    if j < |groups| then groups[j := groups[j] + [i]] else groups + [[i]]
  }

  /** The species of the first `n` genomes, whose snapshots are `keys`. */
  function Speciate<K>(keys: seq<K>, n: nat, compat: (K, K) -> bool): (groups: seq<seq<nat>>)
    requires n <= |keys|
    ensures Bounded(groups, n)
  {
    if n == 0 then []
    else
      var g := Speciate(keys, n - 1, compat);
      BoundedWiden(g, n - 1, |keys|);
      var r := Place(g, n - 1, keys, compat);
      PlaceBounded(g, n - 1, keys, compat);
      r
  }

  lemma BoundedWiden(groups: seq<seq<nat>>, n: nat, m: nat)
    requires Bounded(groups, n) && n <= m
    ensures Bounded(groups, m)
  {
  }

  lemma PlaceBounded<K>(groups: seq<seq<nat>>, i: nat, keys: seq<K>, compat: (K, K) -> bool)
    requires i < |keys| && Bounded(groups, i)
    ensures Bounded(groups, |keys|) && Bounded(Place(groups, i, keys, compat), i + 1)
  {
  }

  predicate Occurs(groups: seq<seq<nat>>, i: nat)
  {
    exists j, k :: 0 <= j < |groups| && 0 <= k < |groups[j]| && groups[j][k] == i
  }

  /** Each species lists its members in increasing position order. */
  predicate Increasing(groups: seq<seq<nat>>)
  {
    forall j, k1, k2 :: 0 <= j < |groups| && 0 <= k1 < k2 < |groups[j]| ==> groups[j][k1] < groups[j][k2]
  }

  /** No position occurs twice. */
  predicate Unique(groups: seq<seq<nat>>)
  {
    forall j1, k1, j2, k2 ::
      0 <= j1 < |groups| && 0 <= k1 < |groups[j1]| && 0 <= j2 < |groups| && 0 <= k2 < |groups[j2]| &&
      groups[j1][k1] == groups[j2][k2]
      ==> j1 == j2 && k1 == k2
  }

  /** Each position below `n` occurs exactly once, and each species lists its members in
      increasing position order. */
  predicate Partitions(groups: seq<seq<nat>>, n: nat)
  {
    Bounded(groups, n) && Increasing(groups) && Unique(groups) &&
    forall i :: 0 <= i < n ==> Occurs(groups, i)
  }

  /** Every species is non-empty and lists positions of `keys`, and every member matches
      its species' representative. */
  predicate Joins<K>(groups: seq<seq<nat>>, keys: seq<K>, compat: (K, K) -> bool)
  {
    Bounded(groups, |keys|) &&
    forall j, k :: 0 <= j < |groups| && 0 < k < |groups[j]| ==>
      compat(keys[groups[j][k]], keys[groups[j][0]])
  }

  /** Every species is non-empty and lists positions of `keys`, and no member matches the
      representative of an earlier species. */
  predicate Skips<K>(groups: seq<seq<nat>>, keys: seq<K>, compat: (K, K) -> bool)
  {
    Bounded(groups, |keys|) &&
    forall j, k, j' :: 0 <= j' < j < |groups| && 0 <= k < |groups[j]| ==>
      !compat(keys[groups[j][k]], keys[groups[j'][0]])
  }

  /** Each member joined the first species whose representative it matches. */
  predicate FirstFit<K>(groups: seq<seq<nat>>, keys: seq<K>, compat: (K, K) -> bool)
  {
    Joins(groups, keys, compat) && Skips(groups, keys, compat)
  }

  /** Appending a position above every member, to one species or as a new one, keeps
      the groups increasing and free of repeats. */
  lemma AppendFresh(groups: seq<seq<nat>>, r: seq<seq<nat>>, j: nat, i: nat)
    requires Bounded(groups, i) && Increasing(groups) && Unique(groups)
    requires j <= |groups|
    requires r == if j < |groups| then groups[j := groups[j] + [i]] else groups + [[i]]
    ensures Increasing(r) && Unique(r)
  {
    forall j1, k1, j2, k2 |
      0 <= j1 < |r| && 0 <= k1 < |r[j1]| && 0 <= j2 < |r| && 0 <= k2 < |r[j2]| && r[j1][k1] == r[j2][k2]
      ensures j1 == j2 && k1 == k2
    {
      var old1 := j1 < |groups| && k1 < |groups[j1]|;
      var old2 := j2 < |groups| && k2 < |groups[j2]|;
      if old1 {
        assert r[j1][k1] == groups[j1][k1];
      }
      if old2 {
        assert r[j2][k2] == groups[j2][k2];
      }
    }
    forall j1, k1, k2 | 0 <= j1 < |r| && 0 <= k1 < k2 < |r[j1]|
      ensures r[j1][k1] < r[j1][k2]
    {
      if j1 < |groups| {
        assert r[j1][k1] == groups[j1][k1];
        if k2 < |groups[j1]| {
          assert r[j1][k2] == groups[j1][k2];
        }
      }
    }
  }

  lemma PlaceCovers<K>(groups: seq<seq<nat>>, i: nat, keys: seq<K>, compat: (K, K) -> bool)
    requires i < |keys| && Bounded(groups, i)
    requires forall p :: 0 <= p < i ==> Occurs(groups, p)
    ensures Bounded(groups, |keys|) && forall p :: 0 <= p < i + 1 ==> Occurs(Place(groups, i, keys, compat), p)
  {
    var j := FirstMatch(groups, keys[i], keys, 0, compat);
    var r := Place(groups, i, keys, compat);
    forall p | 0 <= p < i + 1
      ensures Occurs(r, p)
    {
      if p == i {
        if j < |groups| {
          assert r[j][|groups[j]|] == i;
        } else {
          assert r[|groups|][0] == i;
        }
      } else {
        assert Occurs(groups, p);
        var j', k :| 0 <= j' < |groups| && 0 <= k < |groups[j']| && groups[j'][k] == p;
        assert r[j'][k] == p;
      }
    }
  }

  lemma PlaceJoins<K>(groups: seq<seq<nat>>, i: nat, keys: seq<K>, compat: (K, K) -> bool)
    requires i < |keys| && Bounded(groups, i) && Joins(groups, keys, compat)
    ensures Joins(Place(groups, i, keys, compat), keys, compat)
  {
    PlaceBounded(groups, i, keys, compat);
    BoundedWiden(Place(groups, i, keys, compat), i + 1, |keys|);
  }

  lemma PlaceSkips<K>(groups: seq<seq<nat>>, i: nat, keys: seq<K>, compat: (K, K) -> bool)
    requires i < |keys| && Bounded(groups, i) && Skips(groups, keys, compat)
    ensures Skips(Place(groups, i, keys, compat), keys, compat)
  {
    PlaceBounded(groups, i, keys, compat);
    BoundedWiden(Place(groups, i, keys, compat), i + 1, |keys|);
  }

  /** Speciation places every genome, in pool order, into exactly one non-empty species,
      each listing its members in pool order. */
  lemma SpeciatePartitions<K>(keys: seq<K>, n: nat, compat: (K, K) -> bool)
    requires n <= |keys|
    ensures Partitions(Speciate(keys, n, compat), n)
  {
    SpeciateShape(keys, n, compat);
    SpeciateCovers(keys, n, compat);
  }

  lemma {:induction false} SpeciateShape<K>(keys: seq<K>, n: nat, compat: (K, K) -> bool)
    requires n <= |keys|
    ensures Increasing(Speciate(keys, n, compat)) && Unique(Speciate(keys, n, compat))
  {
    if n > 0 {
      var g := Speciate(keys, n - 1, compat);
      var j := FirstMatch(g, keys[n - 1], keys, 0, compat);
      SpeciateShape(keys, n - 1, compat);
      AppendFresh(g, Speciate(keys, n, compat), j, n - 1);
    }
  }

  lemma {:induction false} SpeciateCovers<K>(keys: seq<K>, n: nat, compat: (K, K) -> bool)
    requires n <= |keys|
    ensures forall i :: 0 <= i < n ==> Occurs(Speciate(keys, n, compat), i)
  {
    if n > 0 {
      var g := Speciate(keys, n - 1, compat);
      SpeciateCovers(keys, n - 1, compat);
      PlaceCovers(g, n - 1, keys, compat);
      assert Speciate(keys, n, compat) == Place(g, n - 1, keys, compat);
    }
  }

  /** Each genome joins the first species whose representative it matches, and starts a
      new species only when it matches none. */
  lemma SpeciateFirstFit<K>(keys: seq<K>, n: nat, compat: (K, K) -> bool)
    requires n <= |keys|
    ensures FirstFit(Speciate(keys, n, compat), keys, compat)
  {
    SpeciateJoins(keys, n, compat);
    SpeciateSkips(keys, n, compat);
  }

  lemma {:induction false} SpeciateJoins<K>(keys: seq<K>, n: nat, compat: (K, K) -> bool)
    requires n <= |keys|
    ensures Joins(Speciate(keys, n, compat), keys, compat)
  {
    if n > 0 {
      var g := Speciate(keys, n - 1, compat);
      assert Speciate(keys, n, compat) == Place(g, n - 1, keys, compat);
      SpeciateJoins(keys, n - 1, compat);
      PlaceJoins(g, n - 1, keys, compat);
    }
  }

  lemma {:induction false} SpeciateSkips<K>(keys: seq<K>, n: nat, compat: (K, K) -> bool)
    requires n <= |keys|
    ensures Skips(Speciate(keys, n, compat), keys, compat)
  {
    if n > 0 {
      var g := Speciate(keys, n - 1, compat);
      assert Speciate(keys, n, compat) == Place(g, n - 1, keys, compat);
      SpeciateSkips(keys, n - 1, compat);
      PlaceSkips(g, n - 1, keys, compat);
    }
  }

  /** When every pair of snapshots matches, the whole pool forms one species. */
  lemma {:induction false} AllCompatibleOneSpecies<K>(keys: seq<K>, n: nat, compat: (K, K) -> bool)
    requires 0 < n <= |keys|
    requires forall a, b :: 0 <= a < n && 0 <= b < n ==> compat(keys[a], keys[b])
    ensures Speciate(keys, n, compat) == [Evaluation.Range(n)]
  {
    if n == 1 {
      assert Speciate(keys, 0, compat) == [];
      assert FirstMatch([], keys[0], keys, 0, compat) == 0;
      assert Evaluation.Range(1) == [0];
    } else {
      AllCompatibleOneSpecies(keys, n - 1, compat);
      var g := Speciate(keys, n - 1, compat);
      assert g[0][0] == 0;
      assert compat(keys[n - 1], keys[0]);
      assert FirstMatch(g, keys[n - 1], keys, 0, compat) == 0;
      assert Evaluation.Range(n) == Evaluation.Range(n - 1) + [n - 1];
    }
  }

  /** The total number of members over all species. */
  function TotalSize(groups: seq<seq<nat>>): nat
  {
    if groups == [] then 0 else TotalSize(groups[..|groups| - 1]) + |groups[|groups| - 1]|
  }

  lemma {:induction false} TotalSizeGrow(groups: seq<seq<nat>>, j: nat, i: nat)
    requires j < |groups|
    ensures TotalSize(groups[j := groups[j] + [i]]) == TotalSize(groups) + 1
  {
    var n := |groups|;
    var r := groups[j := groups[j] + [i]];
    if j == n - 1 {
      assert r[..n - 1] == groups[..n - 1];
    } else {
      assert r[..n - 1] == groups[..n - 1][j := groups[j] + [i]];
      TotalSizeGrow(groups[..n - 1], j, i);
    }
  }

  /** The species of `n` genomes hold `n` members in all. */
  lemma {:induction false} SpeciateTotal<K>(keys: seq<K>, n: nat, compat: (K, K) -> bool)
    requires n <= |keys|
    ensures TotalSize(Speciate(keys, n, compat)) == n
  {
    if n > 0 {
      SpeciateTotal(keys, n - 1, compat);
      var g := Speciate(keys, n - 1, compat);
      BoundedWiden(g, n - 1, |keys|);
      var j := FirstMatch(g, keys[n - 1], keys, 0, compat);
      if j < |g| {
        TotalSizeGrow(g, j, n - 1);
      } else {
        assert (g + [[n - 1]])[..|g|] == g;
      }
    }
  }

  // Pool sizes produced by crossing.

  /** `idx = ceil(0.2 * n)`: the number of elites copied from a species of `n` members. */
  function EliteCount(n: nat): nat
  {
    (n + 4) / 5
  }

  /** The number of genomes `Cross` appends for a species of `n` members: the mutated
      genome itself for a singleton; otherwise the elites, then one genome for every
      position from `idx + 1` on, so that the genome at position `idx` is dropped. */
  function Offspring(n: nat): (r: nat)
    ensures n == 1 ==> r == 1
    ensures n >= 2 ==> r == n - 1
    ensures r <= n
  {
    if n == 1 then 1
    else EliteCount(n) + (if EliteCount(n) + 1 <= n then n - (EliteCount(n) + 1) else 0)
  }

  /** The sizes of the species, in order. */
  function Sizes<T>(groups: seq<seq<T>>): (s: seq<nat>)
    ensures |s| == |groups| && forall j :: 0 <= j < |groups| ==> s[j] == |groups[j]|
  {
    seq(|groups|, j requires 0 <= j < |groups| => |groups[j]|)
  }

  function Sum(sizes: seq<nat>): nat
  {
    if sizes == [] then 0 else Sum(sizes[..|sizes| - 1]) + sizes[|sizes| - 1]
  }

  /** The number of species with at least two members. */
  function MultiMember(sizes: seq<nat>): nat
  {
    if sizes == [] then 0 else MultiMember(sizes[..|sizes| - 1]) + (if sizes[|sizes| - 1] >= 2 then 1 else 0)
  }

  /** The size of the pool that crossing every species in turn builds. */
  function NextPoolSize(sizes: seq<nat>): nat
  {
    if sizes == [] then 0 else NextPoolSize(sizes[..|sizes| - 1]) + Offspring(sizes[|sizes| - 1])
  }

  /** The pool after crossing the species up to and including `j`. */
  lemma NextPoolSizeStep(sizes: seq<nat>, j: nat)
    requires j < |sizes|
    ensures NextPoolSize(sizes[..j + 1]) == NextPoolSize(sizes[..j]) + Offspring(sizes[j])
  {
    assert sizes[..j + 1][..j] == sizes[..j];
  }

  /** Crossing loses one genome per multi-member species and keeps the pool non-empty. */
  lemma {:induction false} NextPoolSizeCount(sizes: seq<nat>)
    requires forall j :: 0 <= j < |sizes| ==> sizes[j] >= 1
    ensures NextPoolSize(sizes) + MultiMember(sizes) == Sum(sizes)
    ensures |sizes| > 0 ==> NextPoolSize(sizes) > 0
  {
    if sizes != [] {
      NextPoolSizeCount(sizes[..|sizes| - 1]);
    }
  }

  lemma {:induction false} SizesTotal(groups: seq<seq<nat>>)
    ensures Sum(Sizes(groups)) == TotalSize(groups)
  {
    if groups != [] {
      assert Sizes(groups)[..|groups| - 1] == Sizes(groups[..|groups| - 1]);
      SizesTotal(groups[..|groups| - 1]);
    }
  }

  /** The pool after crossing: the old size minus the number of multi-member species, never
      empty when the old pool was not. */
  lemma NextPoolAfterSpeciation<K>(keys: seq<K>, compat: (K, K) -> bool)
    ensures NextPoolSize(Sizes(Speciate(keys, |keys|, compat))) + MultiMember(Sizes(Speciate(keys, |keys|, compat))) == |keys|
    ensures |keys| > 0 ==> NextPoolSize(Sizes(Speciate(keys, |keys|, compat))) > 0
  {
    var g := Speciate(keys, |keys|, compat);
    SpeciateTotal(keys, |keys|, compat);
    SizesTotal(g);
    NextPoolSizeCount(Sizes(g));
    if |keys| > 0 {
      SpeciatePartitions(keys, |keys|, compat);
      assert Occurs(g, 0);
    }
  }
}
