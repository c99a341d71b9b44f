# NEAT-style genome evolver

This project models the evolver in `XNA_Test_001/XNA_Test_001/GeneticNeuralNetwork.cs`. It is a small
NeuroEvolution-of-Augmenting-Topologies population that learns to drive a physics
simulation. The model has three layers.

- **Genes.** A `GeneNode` is an immutable (index, type) pair, so it is a value.
- **Gene connections.** A `GeneConnection` is an object. It has a fixed source, destination and
  innovation number, plus a mutable weight and enabled status. The process-wide
  counter `GeneConnection.innovation_Uni` becomes an `InnovationCounter` object that every
  genome shares.
- **Genome** (class `Genomes.Genome`). Its state is an ordered node list, a connection list and
  its own registry of linked (source, destination) pairs. Four mutation operators change that
  state in place:
  - point mutation shifts one weight;
  - link mutation adds one connection;
  - node mutation splits a connection through a new hidden node;
  - the enable/disable mutation flips one status.

  `Output` is a queue-based forward pass over a graph that may contain cycles. It is an imperative
  method over `array`s, proved equal to a pure definition in `Evaluation`, and the
  properties of the pass are proved there.
- **Population** (class `Population.GeneticNeuralNetwork`). Its state is the genome pool, the
  ranking dictionary, the species lists, and the `generation`, `currentGenome` and
  `currentSample` counters.
  - `Iterate` counts ticks of the genome that is running.
  - `UpdatePool` scores that genome, enters it in the ranking under a fresh key and moves
    the cursor.
  - After the last genome, `UpdatePool` runs the generation step:
    - speciation, using the compatibility test `MatchGenome`, which is specified in
      `Compatibility` and whose grouping is specified in `Speciation`;
    - then `Cross` on every species: elitism, plus per-connection weight inheritance and a
      forced mutation.

Random draws are nondeterministic choices (module `Draws`) or parameters. Weights, scores and
the activation `1/(1+e^x)` are reals. The activation is a parameter `act: real -> real` of the
forward pass.

Where the design intent and the code differ, the model follows the code:

- **Innovation numbers.** `innovationHistory` is a fresh, empty per-object dictionary, so every
  connection takes a new innovation number from the shared counter. Two distinct genomes
  therefore never share an innovation number.
- **Speciation.** Any two connected genomes with no shared numbers are at distance exactly 1,
  which is below 10.5. Speciation of a real pool therefore always forms one species holding
  the whole pool (`Population.PoolIsOneSpecies`, `Population.GeneticNeuralNetwork.SpeciesOfSound`).
- **Inheritance.** Between two distinct genomes, inheritance in `Cross` changes no weight.
- **Indexing by innovation number.** Inheritance writes `g1.connections[idxGene]`, indexing the
  connection list by innovation number rather than by the position kept in the dictionary. If
  a shared number is not a valid position, the source throws. The model returns `ok == false`
  and stops.
- **Cross drops one member.** For a species of n ≥ 2, `Cross` keeps the `ceil(0.2 n)` elites and
  then crosses the members from position `idx + 1` on. The member at `idx` is dropped, so
  the species yields n − 1 genomes.
- **Node mutation toggles.** `NodeMutate` toggles the status of the split connection rather
  than disabling it.
- **Empty-input pass.** A genome without connections, given no more input values than it has
  input nodes, outputs zeros, not 0.5, because an output
  node with no outgoing edge is never activated. The activation runs once per outgoing edge of
  the head node, and values in input slots never flow onward.
- **Two empty genomes.** `MatchGenome` on two genomes without connections computes 0/0 (NaN),
  so they do not match.
- **Dead init branch.** The node-mutation branch of the init path is disabled by `&& false`, so
  a fresh genome has no hidden nodes.
- **Ranking.** `rankedGenome` is written but never cleared, and its entries are never used: the
  only read is the `ContainsKey` test that picks a fresh key.

## Model

All source cells refer to `XNA_Test_001/XNA_Test_001/GeneticNeuralNetwork.cs`.

| member | source | states |
|---|---|---|
| Genes.InnovationCounter.constructor | XNA_Test_001/XNA_Test_001/GeneticNeuralNetwork.cs:447 | the shared innovation counter starts at 0 |
| Genes.GeneConnection.constructor | XNA_Test_001/XNA_Test_001/GeneticNeuralNetwork.cs:452-469 | a new connection takes the current counter value as its innovation number, the counter rises by exactly one, and the connection starts enabled with the given ends and weight |
| Genes.GeneConnection.UpdateWeight | XNA_Test_001/XNA_Test_001/GeneticNeuralNetwork.cs:471-474 | the weight rises by the delta and the status is kept |
| Genes.GeneConnection.FlipStatus | XNA_Test_001/XNA_Test_001/GeneticNeuralNetwork.cs:476-482 | the status is negated and the weight is kept |
| Genes.FlipStatusTwice | XNA_Test_001/XNA_Test_001/GeneticNeuralNetwork.cs:476-482 | flipping twice restores the status (and the weight) |
| Draws.NextInRange | XNA_Test_001/XNA_Test_001/GeneticNeuralNetwork.cs:227 | `Random.Next(lo, hi)` lies in [lo, hi) |
| Draws.NextDouble | XNA_Test_001/XNA_Test_001/GeneticNeuralNetwork.cs:374 | `Random.NextDouble()` lies in [0, 1) |
| Evaluation.AdjacencyWellFormed | XNA_Test_001/XNA_Test_001/GeneticNeuralNetwork.cs:251-257 | when every connection stays inside the node list, so does every edge of the graph |
| Evaluation.Relax | XNA_Test_001/XNA_Test_001/GeneticNeuralNetwork.cs:272-281 | one inner round only appends to the queue, and queue length plus unmarked nodes is unchanged (a node is queued at most once) |
| Evaluation.RelaxAll | XNA_Test_001/XNA_Test_001/GeneticNeuralNetwork.cs:270-282 | the whole inner loop only appends to the queue and keeps queue length plus unmarked nodes |
| Evaluation.CountFalseMark | XNA_Test_001/XNA_Test_001/GeneticNeuralNetwork.cs:272-276 | marking an unmarked node lowers the unmarked count by exactly one |
| Evaluation.Drain | XNA_Test_001/XNA_Test_001/GeneticNeuralNetwork.cs:266-285 | the outer loop terminates and keeps one value per node |
| Evaluation.Dequeues | XNA_Test_001/XNA_Test_001/GeneticNeuralNetwork.cs:266-285 | the outer loop runs at most (initial queue length + unmarked nodes) times |
| Evaluation.Start | XNA_Test_001/XNA_Test_001/GeneticNeuralNetwork.cs:243-264 | the starting state has one value and one mark per node and queues only existing nodes |
| Evaluation.FinalValues | XNA_Test_001/XNA_Test_001/GeneticNeuralNetwork.cs:242-285 | the walk leaves exactly one value per node |
| Evaluation.Output | XNA_Test_001/XNA_Test_001/GeneticNeuralNetwork.cs:286-289 | the result has exactly `outputSize` values, the k-th being node `inputSize + k`'s final value |
| Evaluation.RelaxAgrees | XNA_Test_001/XNA_Test_001/GeneticNeuralNetwork.cs:280-281 | two states that differ only in input slots stay so after one inner round, with equal queues and marks |
| Evaluation.RelaxAllAgrees | XNA_Test_001/XNA_Test_001/GeneticNeuralNetwork.cs:270-282 | the same for the whole inner loop |
| Evaluation.DrainAgrees | XNA_Test_001/XNA_Test_001/GeneticNeuralNetwork.cs:266-285 | two walks differing only in input slots end with values that agree on every non-input slot |
| Evaluation.InputIndependence | XNA_Test_001/XNA_Test_001/GeneticNeuralNetwork.cs:248-289 | with no more input values than input nodes, the outputs do not depend on the input values |
| Evaluation.DrainWithoutEdges | XNA_Test_001/XNA_Test_001/GeneticNeuralNetwork.cs:266-285 | with no edges the walk leaves every value as it was |
| Evaluation.NoConnectionsOutputsZero | XNA_Test_001/XNA_Test_001/GeneticNeuralNetwork.cs:248-289 | a genome without connections, given at most `inputSize` input values, outputs 0 on every output |
| Evaluation.OutEdgesSameWiring | XNA_Test_001/XNA_Test_001/GeneticNeuralNetwork.cs:251-257 | lists differing only in status flags give the same graph |
| Evaluation.StatusIgnored | XNA_Test_001/XNA_Test_001/GeneticNeuralNetwork.cs:251-282 | the forward pass ignores every connection's status: lists differing only in status give equal outputs |
| Compatibility.Abs | XNA_Test_001/XNA_Test_001/GeneticNeuralNetwork.cs:136 | `Math.Abs`: non-negative and equal to x or -x |
| Compatibility.InnovationSet | XNA_Test_001/XNA_Test_001/GeneticNeuralNetwork.cs:114-125 | `h1`/`h2` hold exactly the innovation numbers of the list |
| Compatibility.WeightMap | XNA_Test_001/XNA_Test_001/GeneticNeuralNetwork.cs:114-125 | `d1`/`d2` are keyed by exactly those innovation numbers |
| Compatibility.Denominator | XNA_Test_001/XNA_Test_001/GeneticNeuralNetwork.cs:127-138 | `count1 + count2 - count3` is non-negative and zero exactly when both genomes have no connections |
| Compatibility.SumGapsSwap | XNA_Test_001/XNA_Test_001/GeneticNeuralNetwork.cs:134-136 | the summed weight gaps do not change when the two weight maps are swapped |
| Compatibility.SumGapsSame | XNA_Test_001/XNA_Test_001/GeneticNeuralNetwork.cs:134-136 | the summed gaps of a weight map against itself are 0 |
| Compatibility.SumGapsNoneShared | XNA_Test_001/XNA_Test_001/GeneticNeuralNetwork.cs:134-136 | with no shared innovation the summed gaps are 0 |
| Compatibility.SumGapsOutside | XNA_Test_001/XNA_Test_001/GeneticNeuralNetwork.cs:134-136 | connections outside the shared set contribute nothing |
| Compatibility.SumGapsRemove | XNA_Test_001/XNA_Test_001/GeneticNeuralNetwork.cs:134-136 | removing one connection removes exactly its gap from the sum |
| Compatibility.SumGapsOrderFree | XNA_Test_001/XNA_Test_001/GeneticNeuralNetwork.cs:134-136 | over lists without repeated innovations, the sum depends only on which shared innovations occur, not on the list or its order |
| Compatibility.CompatibleSymmetric | XNA_Test_001/XNA_Test_001/GeneticNeuralNetwork.cs:105-143 | `MatchGenome(A, B) == MatchGenome(B, A)` when neither genome repeats an innovation number |
| Compatibility.SelfDistanceZero | XNA_Test_001/XNA_Test_001/GeneticNeuralNetwork.cs:138-142 | a genome with a connection is at distance 0 from itself and matches itself |
| Compatibility.EmptyGenomesIncompatible | XNA_Test_001/XNA_Test_001/GeneticNeuralNetwork.cs:138-142 | two genomes without connections do not match (0/0) |
| Compatibility.DisjointGenomesCompatible | XNA_Test_001/XNA_Test_001/GeneticNeuralNetwork.cs:138-142 | genomes sharing no innovation number (not both empty) are at distance exactly 1 and match |
| Speciation.FirstMatch | XNA_Test_001/XNA_Test_001/GeneticNeuralNetwork.cs:78-83 | the inner search returns the first species whose first member matches, or the species count when none does |
| Speciation.Speciate | XNA_Test_001/XNA_Test_001/GeneticNeuralNetwork.cs:73-89 | every species is non-empty and holds pool positions |
| Speciation.AppendFresh | XNA_Test_001/XNA_Test_001/GeneticNeuralNetwork.cs:81-87 | adding a new position to a species or as a new species keeps species ordered and positions unique |
| Speciation.PlaceCovers | XNA_Test_001/XNA_Test_001/GeneticNeuralNetwork.cs:75-89 | one round of the loop places the new genome and keeps every earlier one placed |
| Speciation.PlaceJoins | XNA_Test_001/XNA_Test_001/GeneticNeuralNetwork.cs:78-83 | one round keeps every member matching its species' first member |
| Speciation.PlaceSkips | XNA_Test_001/XNA_Test_001/GeneticNeuralNetwork.cs:78-88 | one round keeps every member not matching the first member of any earlier species |
| Speciation.SpeciatePartitions | XNA_Test_001/XNA_Test_001/GeneticNeuralNetwork.cs:73-89 | every pool genome lands in exactly one non-empty species, and species list members in pool order |
| Speciation.SpeciateShape | XNA_Test_001/XNA_Test_001/GeneticNeuralNetwork.cs:73-89 | species are in pool order and no position occurs twice |
| Speciation.SpeciateCovers | XNA_Test_001/XNA_Test_001/GeneticNeuralNetwork.cs:73-89 | every pool position occurs in some species |
| Speciation.SpeciateFirstFit | XNA_Test_001/XNA_Test_001/GeneticNeuralNetwork.cs:78-88 | each genome joined the first species whose first member it matches, and matches no earlier species' first member |
| Speciation.SpeciateJoins | XNA_Test_001/XNA_Test_001/GeneticNeuralNetwork.cs:78-83 | every member matches its species' first member |
| Speciation.SpeciateSkips | XNA_Test_001/XNA_Test_001/GeneticNeuralNetwork.cs:78-88 | no member matches the first member of an earlier species |
| Speciation.AllCompatibleOneSpecies | XNA_Test_001/XNA_Test_001/GeneticNeuralNetwork.cs:73-89 | when all genomes match each other, speciation forms one species holding the whole pool in order |
| Speciation.SpeciateTotal | XNA_Test_001/XNA_Test_001/GeneticNeuralNetwork.cs:73-89 | the species of n genomes hold n members in all |
| Speciation.Offspring | XNA_Test_001/XNA_Test_001/GeneticNeuralNetwork.cs:145-196 | `Cross` appends 1 genome for a singleton species and n − 1 for a species of n ≥ 2 |
| Speciation.NextPoolSizeStep | XNA_Test_001/XNA_Test_001/GeneticNeuralNetwork.cs:97-98 | crossing one more species adds exactly its offspring count to the pool |
| Speciation.NextPoolSizeCount | XNA_Test_001/XNA_Test_001/GeneticNeuralNetwork.cs:95-98 | the new pool size is the old size minus the number of multi-member species, and is positive when there is a species |
| Speciation.NextPoolAfterSpeciation | XNA_Test_001/XNA_Test_001/GeneticNeuralNetwork.cs:73-98 | after speciation and crossing, the pool shrinks by the number of multi-member species and a non-empty pool stays non-empty |
| Genomes.Register | XNA_Test_001/XNA_Test_001/GeneticNeuralNetwork.cs:335-337 | after registering a pair it is registered, exactly the old pairs plus it are registered, and its source becomes a key |
| Genomes.FirstFree | XNA_Test_001/XNA_Test_001/GeneticNeuralNetwork.cs:314-339 | the linked pair is a drawn pair that is not registered, and nothing is linked exactly when all ten are registered |
| Genomes.Slot | XNA_Test_001/XNA_Test_001/GeneticNeuralNetwork.cs:299 | `Next() % Count` is a valid position |
| Genomes.FirstEnabled | XNA_Test_001/XNA_Test_001/GeneticNeuralNetwork.cs:297-305 | a chosen slot holds an enabled connection |
| Genomes.FirstEnabledNone | XNA_Test_001/XNA_Test_001/GeneticNeuralNetwork.cs:297-307 | no slot is chosen exactly when none of the ten picks lands on an enabled connection; otherwise the slot is one of the picks |
| Genomes.Shift | XNA_Test_001/XNA_Test_001/GeneticNeuralNetwork.cs:308 | the weight delta `Next(-100, 100) / 1000` lies in [-0.1, 0.099] |
| Genomes.PointMutated | XNA_Test_001/XNA_Test_001/GeneticNeuralNetwork.cs:292-310 | a point mutation keeps the number of connections |
| Genomes.PointMutatedSpec | XNA_Test_001/XNA_Test_001/GeneticNeuralNetwork.cs:292-310 | wiring and statuses are kept; a weight changes only at the chosen enabled slot and by the shift; nothing changes exactly when no pick hits an enabled connection or the shift is 0 |
| Genomes.PointMutatedAt | XNA_Test_001/XNA_Test_001/GeneticNeuralNetwork.cs:306-309 | with slot n chosen, exactly connection n's weight moves by the shift |
| Genomes.Flipped | XNA_Test_001/XNA_Test_001/GeneticNeuralNetwork.cs:368 | exactly one status is negated, every other connection is unchanged |
| Genomes.Propagate | XNA_Test_001/XNA_Test_001/GeneticNeuralNetwork.cs:270-282 | the `foreach` over the head's edges on the arrays computes the pure inner loop |
| Genomes.Visit | XNA_Test_001/XNA_Test_001/GeneticNeuralNetwork.cs:272-281 | one `foreach` round on the arrays computes one pure inner round |
| Genomes.Walk | XNA_Test_001/XNA_Test_001/GeneticNeuralNetwork.cs:266-285 | the `while` loop over the buffer leaves the node values of the pure walk |
| Genomes.LoadInput | XNA_Test_001/XNA_Test_001/GeneticNeuralNetwork.cs:244-249 | `nodesBuffer` holds the input values followed by zeros |
| Genomes.QueueInputs | XNA_Test_001/XNA_Test_001/GeneticNeuralNetwork.cs:259-264 | the buffer holds the input nodes in order, and the added empty lists change no lookup |
| Genomes.ReadOutputs | XNA_Test_001/XNA_Test_001/GeneticNeuralNetwork.cs:286-289 | `outputData` is the slice of node values after the input slots |
| Genomes.Forward | XNA_Test_001/XNA_Test_001/GeneticNeuralNetwork.cs:243-289 | the array-based pass returns the pure `Evaluation.Output` |
| Genomes.NewBypass | XNA_Test_001/XNA_Test_001/GeneticNeuralNetwork.cs:355-356 | the two new connections route through the new node: in with weight 1, out with the old weight, both enabled, with the next two innovation numbers |
| Genomes.Genome.Rescore | XNA_Test_001/XNA_Test_001/GeneticNeuralNetwork.cs:55 | setting the score changes nothing structural and keeps the genome well formed |
| Genomes.Genome.BuildGraph | XNA_Test_001/XNA_Test_001/GeneticNeuralNetwork.cs:251-257 | the graph dictionary gives each node its outgoing edges in connection order |
| Genomes.Genome.Output | XNA_Test_001/XNA_Test_001/GeneticNeuralNetwork.cs:237-290 | the warning is raised exactly when the input size is wrong, and the result equals the pure forward pass over the genome's connections |
| Genomes.Genome.constructor | XNA_Test_001/XNA_Test_001/GeneticNeuralNetwork.cs:214-223 | the genome has `input` INPUT nodes then `output` OUPUT nodes numbered from 0, no hidden node, 1 to 19 fresh connections with fresh innovation numbers, and the registration invariant |
| Genomes.Genome.Init | XNA_Test_001/XNA_Test_001/GeneticNeuralNetwork.cs:225-230 | between 1 and 19 connections are added (the first link always succeeds); the node list is unchanged |
| Genomes.Genome.PointMutate | XNA_Test_001/XNA_Test_001/GeneticNeuralNetwork.cs:292-310 | the connection list after the mutation is `PointMutated` of the list before |
| Genomes.Genome.ShiftWeight | XNA_Test_001/XNA_Test_001/GeneticNeuralNetwork.cs:309 | exactly one connection's weight moves by the delta |
| Genomes.Genome.PickEnabled | XNA_Test_001/XNA_Test_001/GeneticNeuralNetwork.cs:295-305 | the selection loop chooses the `FirstEnabled` slot |
| Genomes.Genome.LinkMutate | XNA_Test_001/XNA_Test_001/GeneticNeuralNetwork.cs:312-340 | either nothing changes (all ten pairs registered) or exactly one enabled connection is appended for the first free pair, with weight in [0, 10) and the next innovation number, and that pair is registered; the node numbering and registration invariant are kept |
| Genomes.Genome.AddLink | XNA_Test_001/XNA_Test_001/GeneticNeuralNetwork.cs:333-338 | appends one connection for an unregistered admissible pair and registers it, keeping the invariant |
| Genomes.Genome.LinkKeepsValid | XNA_Test_001/XNA_Test_001/GeneticNeuralNetwork.cs:334-337 | a new registered admissible link keeps the genome well formed |
| Genomes.Genome.NodeMutate | XNA_Test_001/XNA_Test_001/GeneticNeuralNetwork.cs:342-361 | with no connection nothing changes; otherwise the chosen connection's status is negated, a HIDDEN node numbered old `no_nodes` is appended, the two bypass connections are appended with the next two innovation numbers, both pairs are registered, and the genome stays well formed |
| Genomes.Genome.Split | XNA_Test_001/XNA_Test_001/GeneticNeuralNetwork.cs:354-360 | the structural half of the node mutation: new node, two bypass connections, two registrations |
| Genomes.Genome.Attach | XNA_Test_001/XNA_Test_001/GeneticNeuralNetwork.cs:354-360 | appends the node and both connections, registers both pairs and increments `no_nodes` |
| Genomes.Genome.SplitKeepsValid | XNA_Test_001/XNA_Test_001/GeneticNeuralNetwork.cs:354-360 | the split keeps the node numbering, the registration invariant and increasing innovation numbers |
| Genomes.Genome.FlipAt | XNA_Test_001/XNA_Test_001/GeneticNeuralNetwork.cs:368 | exactly one status is negated |
| Genomes.Genome.EnableDisableMutation | XNA_Test_001/XNA_Test_001/GeneticNeuralNetwork.cs:363-369 | no change on an empty genome, otherwise exactly the status in slot `pick % Count` is negated |
| Genomes.Genome.DrawPairs | XNA_Test_001/XNA_Test_001/GeneticNeuralNetwork.cs:314-329 | the search yields ten pairs that are neither both inputs nor both outputs |
| Genomes.Genome.DrawPicks | XNA_Test_001/XNA_Test_001/GeneticNeuralNetwork.cs:297-299 | ten draws |
| Genomes.Genome.Mutate | XNA_Test_001/XNA_Test_001/GeneticNeuralNetwork.cs:371-419 | the genome stays well formed, new connections are fresh and take fresh innovation numbers, at most one node and two connections are added; the init path adds no node and at most one connection, and exactly one on an empty registry when forced |
| Genomes.Genome.RandomOperator | XNA_Test_001/XNA_Test_001/GeneticNeuralNetwork.cs:394-416 | the chosen operator keeps the genome well formed and adds at most one node and two connections |
| Genomes.Genome.RandomPoint | XNA_Test_001/XNA_Test_001/GeneticNeuralNetwork.cs:292-310 | a drawn point mutation keeps every status; at most one weight moves, that of an enabled connection, by a shift in [-0.1, 0.099], and every other weight is kept |
| Genomes.Genome.RandomFlip | XNA_Test_001/XNA_Test_001/GeneticNeuralNetwork.cs:363-369 | a drawn status flip keeps every weight; on a non-empty genome exactly the status in the drawn slot is negated |
| Genomes.Genome.RandomLink | XNA_Test_001/XNA_Test_001/GeneticNeuralNetwork.cs:383-387 | a drawn link mutation adds at most one connection, exactly one on an empty registry; an added connection is enabled, has weight in [0, 10), links an admissible pair that was not registered, and that pair becomes registered; with nothing added the registry is kept |
| Genomes.Genome.RandomSplit | XNA_Test_001/XNA_Test_001/GeneticNeuralNetwork.cs:406-410 | on an empty genome nothing changes; otherwise some connection's status is negated with its weight kept, a HIDDEN node numbered old `no_nodes` is appended, the two bypass connections (in with weight 1, out with the old weight, both enabled) take the next two innovation numbers, and both pairs are registered |
| Population.PoolCompatible | XNA_Test_001/XNA_Test_001/GeneticNeuralNetwork.cs:105-143 | any two genomes of a pool built by this code match |
| Population.PairCompatible | XNA_Test_001/XNA_Test_001/GeneticNeuralNetwork.cs:105-143 | a genome matches itself, and two genomes sharing no innovation number match |
| Population.PoolIsOneSpecies | XNA_Test_001/XNA_Test_001/GeneticNeuralNetwork.cs:73-89 | speciation of such a pool forms one species holding the whole pool in order |
| Population.Join | XNA_Test_001/XNA_Test_001/GeneticNeuralNetwork.cs:29-30 | a genome with newer innovation numbers keeps the pool sound and separate when added |
| Population.AtLeastShrinks | XNA_Test_001/XNA_Test_001/GeneticNeuralNetwork.cs:57-58 | raising a taken key by 0.00001 leaves fewer keys at or above it, so the tie-break loop ends |
| Population.LiftsJoin | XNA_Test_001/XNA_Test_001/GeneticNeuralNetwork.cs:81-87 | adding a genome to a species or as a new species keeps the species lists in step with the positions |
| Population.WholePool | XNA_Test_001/XNA_Test_001/GeneticNeuralNetwork.cs:73-89 | the species lists formed from such a pool are exactly `[pool]` |
| Population.GrownInnovations | XNA_Test_001/XNA_Test_001/GeneticNeuralNetwork.cs:452-464 | the connections a genome gains take numbers from the counter value on |
| Population.Fitter | XNA_Test_001/XNA_Test_001/GeneticNeuralNetwork.cs:163-172 | the inheriting genome is one of the pair and its score is the higher one |
| Population.ScoreMember | XNA_Test_001/XNA_Test_001/GeneticNeuralNetwork.cs:55 | the genome takes the score and keeps its nodes and connections, and the pool stays sound and separate with the same connections |
| Population.NewMember | XNA_Test_001/XNA_Test_001/GeneticNeuralNetwork.cs:30 | a new genome of the given sizes with score 0 keeps the pool sound and separate |
| Population.GeneticNeuralNetwork.constructor | XNA_Test_001/XNA_Test_001/GeneticNeuralNetwork.cs:27-31 | the pool holds `count` fresh, pairwise distinct genomes of the given sizes with score 0; the counters, ranking and species start empty |
| Population.GeneticNeuralNetwork.AddGenome | XNA_Test_001/XNA_Test_001/GeneticNeuralNetwork.cs:30 | exactly one fresh genome is appended to the pool; nothing else changes |
| Population.GeneticNeuralNetwork.Iterate | XNA_Test_001/XNA_Test_001/GeneticNeuralNetwork.cs:41-49 | `currentSample` rises by one, `msg` is RESET exactly when it exceeds 1800, nothing else changes, and the result is the current genome's forward pass |
| Population.GeneticNeuralNetwork.Tick | XNA_Test_001/XNA_Test_001/GeneticNeuralNetwork.cs:43-47 | the tick counter and message, nothing else |
| Population.GeneticNeuralNetwork.FreeKey | XNA_Test_001/XNA_Test_001/GeneticNeuralNetwork.cs:57-58 | the key is not yet in the ranking, is at least the score, and is the first free key among the score raised 0, 1, 2, … times by 0.00001 |
| Population.GeneticNeuralNetwork.MatchGenome | XNA_Test_001/XNA_Test_001/GeneticNeuralNetwork.cs:105-143 | the loop-and-hash-set computation returns exactly `Compatibility.Compatible` of the two connection lists |
| Population.GeneticNeuralNetwork.Verdict | XNA_Test_001/XNA_Test_001/GeneticNeuralNetwork.cs:138-142 | `delta < 10.5`, false on 0/0 |
| Population.GeneticNeuralNetwork.Tally | XNA_Test_001/XNA_Test_001/GeneticNeuralNetwork.cs:107-138 | the counts and loops give the distance's numerator and denominator |
| Population.GeneticNeuralNetwork.SharedGaps | XNA_Test_001/XNA_Test_001/GeneticNeuralNetwork.cs:134-136 | the third loop computes the summed weight gaps over shared innovations |
| Population.GeneticNeuralNetwork.Collect | XNA_Test_001/XNA_Test_001/GeneticNeuralNetwork.cs:114-119 | the first loops build the innovation set and the weight dictionary |
| Population.GeneticNeuralNetwork.SpeciesOf | XNA_Test_001/XNA_Test_001/GeneticNeuralNetwork.cs:73-89 | the speciation loop builds exactly the species of the pure `Speciate`, as genome lists |
| Population.GeneticNeuralNetwork.Assign | XNA_Test_001/XNA_Test_001/GeneticNeuralNetwork.cs:76-88 | one round places genome i as `Speciate` does |
| Population.GeneticNeuralNetwork.FindSpecies | XNA_Test_001/XNA_Test_001/GeneticNeuralNetwork.cs:77-83 | the inner loop finds `FirstMatch` |
| Population.GeneticNeuralNetwork.IndexOf | XNA_Test_001/XNA_Test_001/GeneticNeuralNetwork.cs:174-177 | the dictionary maps each innovation number of `g1` to a position holding it |
| Population.GeneticNeuralNetwork.Inherit | XNA_Test_001/XNA_Test_001/GeneticNeuralNetwork.cs:174-190 | succeeds exactly when every shared number is a valid position; statuses are kept; weights change only at shared numbers; between genomes sharing no number nothing changes; when the two lists share no object, each weight is kept or is the old weight of a connection of `g2` with that innovation number; a genome paired with itself that succeeds keeps every weight |
| Population.GeneticNeuralNetwork.InheritAll | XNA_Test_001/XNA_Test_001/GeneticNeuralNetwork.cs:179-190 | the inheritance loop fails exactly on an out-of-range shared number; statuses are kept; only shared positions are written; with no shared object each weight is kept or comes from a `g2` connection of that number; a list whose numbers are its positions, paired with itself, keeps every weight |
| Population.GeneticNeuralNetwork.InheritRounds | XNA_Test_001/XNA_Test_001/GeneticNeuralNetwork.cs:179-190 | the loop itself, stated over the weights and statuses `g1`'s list held on entry: the same outcomes as `InheritAll` |
| Population.GeneticNeuralNetwork.InheritStep | XNA_Test_001/XNA_Test_001/GeneticNeuralNetwork.cs:180-189 | one round keeps every loop fact: earlier shared numbers in range, statuses kept, writes only at shared numbers, each written weight one offered so far |
| Population.GeneticNeuralNetwork.InheritOne | XNA_Test_001/XNA_Test_001/GeneticNeuralNetwork.cs:181-189 | one round fails exactly when the shared number is out of range; it writes at most the position equal to the shared number, keeping its weight or taking the offered one, and changes nothing when the offered connection already sits at that position |
| Population.PositionsAreInnovations | XNA_Test_001/XNA_Test_001/GeneticNeuralNetwork.cs:174-190 | strictly increasing innovation numbers that are all below the list length are exactly the positions, so indexing by innovation number hits the connection itself |
| Population.GeneticNeuralNetwork.MutateMember | XNA_Test_001/XNA_Test_001/GeneticNeuralNetwork.cs:192 | a forced mutation of a pool genome keeps every genome sound and distinct genomes apart |
| Population.GeneticNeuralNetwork.Cross | XNA_Test_001/XNA_Test_001/GeneticNeuralNetwork.cs:145-196 | a singleton species yields itself (after mutation); otherwise the `ceil(0.2 n)` elites come first, every later genome is its member or a fitter elite, and on success n − 1 genomes are appended; it succeeds whenever no genome object sits at two positions of the species; scores are kept and the pool stays sound and separate |
| Population.GeneticNeuralNetwork.CrossRest | XNA_Test_001/XNA_Test_001/GeneticNeuralNetwork.cs:159-195 | each appended child is either the member at position `idx + 1 + t` or an earlier elite whose score is at least that member's; on success there is one child per member from `idx + 1` on; it succeeds whenever the members are distinct objects; no score changes |
| Population.GeneticNeuralNetwork.Breed | XNA_Test_001/XNA_Test_001/GeneticNeuralNetwork.cs:161-194 | the elite index `rIdx` is below `idx`; the child is the fitter of the member and that elite, so it is one of the two and its score is at least the member's; it succeeds whenever that elite and the member are distinct objects; no score changes |
| Population.GeneticNeuralNetwork.BreedInto | XNA_Test_001/XNA_Test_001/GeneticNeuralNetwork.cs:159-194 | one round of the crossing loop appends one child that is the member or a fitter elite, or on failure leaves the children as they were; with distinct members it succeeds |
| Population.GeneticNeuralNetwork.InheritMutate | XNA_Test_001/XNA_Test_001/GeneticNeuralNetwork.cs:174-192 | inheritance then mutation keep the pool sound and separate, add only fresh connections and change no score; between distinct genomes it succeeds |
| Population.GeneticNeuralNetwork.InheritWithin | XNA_Test_001/XNA_Test_001/GeneticNeuralNetwork.cs:174-190 | inheritance changes no genome; every connection of the pool keeps its status; between distinct genomes it succeeds; whenever it succeeds every weight of the pool is kept |
| Population.GeneticNeuralNetwork.UpdatePool | XNA_Test_001/XNA_Test_001/GeneticNeuralNetwork.cs:51-103 | the genome just run holds the score, the ranking grows by one entry under a fresh key at least the score, `currentSample` is 0; before wrap-around the cursor moves on, the pool, the counter, every genome's nodes and connections, every other genome's score and every weight and status are kept; at wrap-around the generation rises, the cursor is 0, the species are the one whole pool, and the new pool is the old one crossed as one species, of the `Offspring` size on success; it succeeds whenever no genome object sits at two positions of the old pool |
| Population.GeneticNeuralNetwork.Record | XNA_Test_001/XNA_Test_001/GeneticNeuralNetwork.cs:53-63 | the genome takes the score and keeps its nodes and connections; ranking entry and cursor step; the pool stays sound and separate |
| Population.GeneticNeuralNetwork.Rank | XNA_Test_001/XNA_Test_001/GeneticNeuralNetwork.cs:57-63 | the genome is entered under a fresh key and the counters move |
| Population.GeneticNeuralNetwork.NextGeneration | XNA_Test_001/XNA_Test_001/GeneticNeuralNetwork.cs:66-102 | generation + 1, cursor 0, the species list is the one whole pool; the new pool is drawn from the old one and is the old pool crossed as one species under the scores it had; on success it has the `Offspring` size and is well formed; it succeeds whenever the old pool holds distinct objects |
| Population.GeneticNeuralNetwork.Regenerate | XNA_Test_001/XNA_Test_001/GeneticNeuralNetwork.cs:93-100 | the crossing region on the one whole-pool species: the new pool is drawn from the old one and is it crossed under its scores, of the `Offspring` size on success; it succeeds whenever the old pool holds distinct objects |
| Population.GeneticNeuralNetwork.OneSpecies | XNA_Test_001/XNA_Test_001/GeneticNeuralNetwork.cs:68-89 | the speciation region leaves exactly one species, the whole pool |
| Population.GeneticNeuralNetwork.SpeciesOfSound | XNA_Test_001/XNA_Test_001/GeneticNeuralNetwork.cs:73-89 | on a sound pool the speciation loop returns `[pool]` |
| Population.GeneticNeuralNetwork.CrossAll | XNA_Test_001/XNA_Test_001/GeneticNeuralNetwork.cs:95-98 | the new pool is the concatenation of what crossing each species appended, each part related to its species as `Cross` states, of size `NextPoolSize` of the species sizes on success; it succeeds whenever every species holds distinct objects; the new pool is sound and separate and no score changes |
| Population.GeneticNeuralNetwork.CrossAppend | XNA_Test_001/XNA_Test_001/GeneticNeuralNetwork.cs:97-98 | crossing one more species appends its offspring to the pool, related to the species as `Cross` states, and adds its `Offspring` count on success, which is reached whenever the species holds distinct objects |

## Left out

- `UpdateGenomePool` (lines 33-39) is never called and only looks up key 0.0 of a zero-filled array, so it is not modelled.
- `Evaluate` (lines 232-235): the exponential is not modelled. The activation is the parameter `act`, and its second argument (`no_of_inputs`, lines 246 and 256) is computed but unused, so it is left out too.
- Floating point: weights, scores and keys are exact reals. `0.2f`, `0.4f`, `10.5f`, `1f` and `0.00001` are taken as exact values, and rounding is not modelled.
- The probabilities of `System.Random` (0.05, 0.25, 0.5, 0.75) are not modelled. Each draw is a nondeterministic choice within its range, so the contracts hold for every outcome. `Random.Next()` is any non-negative integer; its `int.MaxValue` bound is not modelled.
- Integer width: the 32-bit wrap-around of `innovation_Uni` and of the counters is not modelled.
- The console warning of `Output` (line 240) is the result flag `warned`.
- Game1.cs (rendering, physics, input), FileHandle.cs (file I/O) and Program.cs (entry point) are not part of this model.
- Genomes.Genome.constructor: requires at least one input and one output node. Otherwise the pair search of `LinkMutate` never ends (all pairs rejected) or takes `% 0`.
- Genomes.Genome.LinkMutate: takes its ten pairs already drawn and admissible. The `while(true)` rejection loop (lines 317-329) that produces them is `DrawPairs`, a nondeterministic choice, so its probabilistic termination is not modelled.
- Genomes.Genome.Init: the init-path retry loop (lines 378-393), which discards draws of 0.75 or more, is one link mutation per round. Every retry ends in exactly that, because the node branch is dead.
- Genomes.Genome.PointMutate: requires a non-empty connection list. The source takes `% connections.Count` and throws on an empty one.
- Genomes.Genome.Mutate: requires connections outside the init path, for the same `% 0`. It states bounds (validity, fresh innovation numbers, at most one node and two connections) rather than which operator was chosen, because that is a random draw; each operator's exact effect is stated on the operator.
- Genomes.Genome.Output: requires no more input values than nodes. The source writes past `nodesBuffer` otherwise.
- Population.GeneticNeuralNetwork.Iterate: requires a non-empty pool and no more input values than the current genome's nodes, as `Output` does.
- Population.GeneticNeuralNetwork.UpdatePool: when `Cross` throws (a shared innovation number that is not a valid position), the model returns `ok == false` and stops. The contracts of `InheritMutate` up to `UpdatePool` state that this cannot happen when no genome object sits at two positions (`Distinct`); the constructor's pool is distinct, so the first generation step always succeeds, but a crossed pool can hold an elite twice. It states only the counters for that case, not the partly rebuilt pool.
- Population.GeneticNeuralNetwork.Cross: it states the elites, the count of the appended genomes and, for each later child, that it is its member or an elite of at least that member's score (`Crossed`, carried up to `NextGeneration` and `UpdatePool`). The elite's score is stated as at least the member's, where the source's strict comparison makes it higher; `Breed` states the exact choice through `Fitter`. It does not name which elite was drawn for each child (that is `Breed`'s draw), nor the children's weights after inheritance and mutation, which depend on random draws.
- Genomes.Genome.RandomOperator: states bounds (validity, fresh innovation numbers, at most one node and two connections) rather than the effect of the chosen operator, because the choice is a random draw; `RandomPoint`, `RandomLink`, `RandomSplit` and `RandomFlip` each state their effect.
- Population.GeneticNeuralNetwork.UpdatePool: requires a non-empty pool. The source indexes `genomePool[currentGenome]` at line 55 and throws on an empty pool; that case is not modelled.
- Population.GeneticNeuralNetwork.UpdatePool: before wrap-around, another position holding the same genome object also shows the new score, so the kept scores are stated for the other genome objects, not the other positions.
