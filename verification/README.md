# PheroMQ stigmergy simulation, modelled in Dafny

This project models the core of `prototype1_pheromq_sim.py`. That program is a
demand-response simulation on a small graph: a sparse pheromone field maps
`(node, kind)` to an intensity. Each round, every agent senses the "DR"
intensity at its node and offers part of its sheddable load. The round is
recorded. The loop stops once the total offer meets the target; otherwise the
world takes one step, which evaporates and prunes the field and then
diffuses it to the neighbours.

Modules:

- `Sums` (sums.dfy): finite sums over sets (`SumOver`), and the total
  intensity of a map (`Mass`).
- `Graph` (graph.dfy): the adjacency map (`map<int, seq<int>>`, a missing
  node has no neighbours) and the seven-node honeycomb fixture.
- `SignalField` (field.dfy): the field, and `Stepped`, a declarative
  definition of one step (evaporate, prune, diffuse from the evaporated
  field). It also holds the properties of a step: key sets, pruning,
  non-negativity, kind isolation, and the results `diff = 0` gives.
- `Worlds` (world.dfy): `World.step` as methods that follow its two
  phases: the evaporation loop, then the diffusion loops that collect the
  increments and add them. The iteration order of the dictionary is left
  arbitrary. The methods are proved equal to `Stepped`, together with the
  mass accounting.
- `Agents` (agent.dfy): `perceive_and_offer`, with `tanh` as a parameter.
- `Simulation` (simulation.dfy): the `run_sim` round loop, as a method with
  loop invariants. It is proved against a declarative description of each
  recorded round (`Recorded`, `Evolve`).
- `Scenarios` (scenarios.dfy): worked examples with the default
  parameters (evap 0.82, diff 0.35, a seed of 1.0 at the centre).

Intensities are Dafny `real`s. `tanh` is a parameter `tanh: real -> real`,
and each lemma states which property of it the lemma needs: monotone,
`tanh(0) = 0`, or a value in `[0, 1)`.

Behaviour of the code that the model keeps as it is:

- Pruning deletes entries strictly below `1e-4`, so an entry that lands exactly
  on `1e-4` is kept.
- Entries created by diffusion are not pruned in the step that creates them.
  With `diff = 0`, every neighbour of a survivor that does not itself survive
  gets an entry holding `0.0`, so right after a step a stored intensity can
  lie below the threshold. The next step's evaporation prunes such entries
  like any other.
- Nothing validates `evap`, `diff`, `steps` or the capacities. For
  `steps <= 0` the history is empty. A negative capacity yields offers of 0.
- A source is not debited for what it sends, so diffusion does not conserve
  total intensity: it raises it by `diff` times the intensity of the entries
  that have neighbours.

## Model

| member | source | states |
|---|---|---|
| Agents.Clamp | prototype1_pheromq_sim.py:44-45 | the result of `max(0, min(max_shed_kw, desired))` is never negative; it is at most a non-negative capacity; it is 0 for a non-positive capacity; it is the desired value when that value lies in range and the nearest bound otherwise |
| Agents.PerceiveAndOffer | prototype1_pheromq_sim.py:40-46 | for any intensity, the offer is non-negative and at most a non-negative capacity; it is 0 for a non-positive capacity; the stored `offered_kw` equals the returned offer and nothing else about the agent changes |
| Agents.OfferAtZero | prototype1_pheromq_sim.py:42-45 | if tanh(0) = 0, intensity 0 gives an offer of exactly 0, whatever the capacity |
| Agents.ClampMonotone | prototype1_pheromq_sim.py:45 | the clamp is monotone in the desired value |
| Agents.PerceiveMonotone | prototype1_pheromq_sim.py:42-45 | with a monotone tanh and a non-negative capacity, a higher intensity never gives a lower offer |
| Agents.OfferUnclamped | prototype1_pheromq_sim.py:42-45 | while tanh(1.5 I) lies in [0, 1) and the capacity is positive, the clamp does not fire: the offer is exactly fraction * capacity and strictly below the capacity |
| Agents.OfferIgnoresLastOffer | prototype1_pheromq_sim.py:42-46 | the offer does not depend on the previous `offered_kw` |
| Graph.Honeycomb7 | prototype1_pheromq_sim.py:20-29 | the honeycomb has exactly the nodes 0..6 |
| Graph.Honeycomb7Symmetric | prototype1_pheromq_sim.py:22-28 | every edge is added in both directions, and no node is its own neighbour |
| Graph.Honeycomb7Degrees | prototype1_pheromq_sim.py:23-28 | the centre is joined to all six ring nodes; each ring node has three neighbours: the centre and both ring neighbours |
| SignalField.EvaporatedEntries | prototype1_pheromq_sim.py:57-61 | evaporation adds no key, keeps exactly the entries whose `old * evap` is not below 1e-4 (an entry equal to 1e-4 is kept), and stores `old * evap` |
| SignalField.StepKeys | prototype1_pheromq_sim.py:57-71 | the keys after a step are exactly the survivors of evaporation plus every neighbour of a survivor, under the survivor's kind |
| SignalField.SteppedAt | prototype1_pheromq_sim.py:63-71 | each entry after a step is its evaporated value (0 if absent) plus, on a diffusion target, everything the survivors send it; a key that is neither a survivor nor a target is absent |
| SignalField.InflowOutsideTargets | prototype1_pheromq_sim.py:64-69 | a key that is no neighbour of any source receives nothing |
| SignalField.RepeatShare | prototype1_pheromq_sim.py:67-69 | sending `diff * I / len(neigh)` to every occurrence in the neighbour list sends `diff * I` in total |
| SignalField.StepNonNegative | prototype1_pheromq_sim.py:58-71 | with `diff >= 0`, a step leaves no negative value whatever the input holds; every survivor keeps at least `old * evap >= 1e-4`, because the source is not debited |
| SignalField.StepWithoutDiffusion | prototype1_pheromq_sim.py:63-71 | with `diff = 0`, every survivor holds `old * evap` and every other key present holds 0.0 |
| SignalField.EvaporatedOfKind | prototype1_pheromq_sim.py:57-61 | evaporation commutes with keeping the entries of one kind |
| SignalField.InflowOfKind | prototype1_pheromq_sim.py:64-69 | what a key receives depends only on the entries of its own kind |
| SignalField.StepPerKind | prototype1_pheromq_sim.py:57-71 | stepping and then keeping kind `k` equals stepping only the kind-`k` entries |
| SignalField.KindIsolation | prototype1_pheromq_sim.py:57-71 | two fields that agree on kind `k` still agree on kind `k` after a step |
| SignalField.OutflowTotal | prototype1_pheromq_sim.py:64-69 | the per-source outflows `diff * I` of the sources with neighbours add up to `diff` times their intensity |
| Worlds.Evaporate | prototype1_pheromq_sim.py:57-61 | the in-place evaporation loop, in any key order, yields exactly the declarative evaporated field |
| Worlds.Send | prototype1_pheromq_sim.py:68-69 | the inner loop adds the share once per occurrence of each neighbour, under the source's kind; it adds keys only for the neighbours, and adds `len(neigh)` shares to the total |
| Worlds.Increments | prototype1_pheromq_sim.py:62-69 | the increments, computed in any source order from the evaporated field, have exactly the diffusion targets as keys; each holds everything the survivors send it, and their total is `diff` times the intensity of the entries with neighbours |
| Worlds.ApplyIncrements | prototype1_pheromq_sim.py:70-71 | after the increments are added, every key of either map is present, holding the sum of both values; the totals add up |
| Worlds.Diffuse | prototype1_pheromq_sim.py:62-71 | the diffusion phase gives every survivor and target its evaporated value plus its inflow; the total rises by `diff` times the intensity of the entries with neighbours |
| Worlds.Step | prototype1_pheromq_sim.py:56-71 | one step of the world changes only the field; it equals the declarative step; total intensity after the step is the evaporated total plus `diff` times the evaporated intensity of the entries with neighbours, so it is not conserved |
| Simulation.TotalWithinCapacity | prototype1_pheromq_sim.py:104-107 | offers that each lie in their agent's bounds sum to between 0 and the agents' total capacity |
| Simulation.CollectOffers | prototype1_pheromq_sim.py:103-106 | one offer per agent, in agent order; each is that agent's offer for the intensity at its node (0.0 when there is none); each agent records its offer |
| Simulation.PlayRound | prototype1_pheromq_sim.py:103-114 | one round of an unfinished run: the offers are made on the current field; the round is appended under number `len(history)` with the current field and the offers' sum, and earlier rounds are kept; the round meets the target exactly when its total reaches it; the world steps exactly when the total misses the target; the run state is preserved |
| Simulation.RunStateRound | prototype1_pheromq_sim.py:103-114 | one more round of an unfinished run is recorded under its own number; the world steps exactly when the total misses the target |
| Simulation.TargetOutOfReach | prototype1_pheromq_sim.py:102-113 | a target above the agents' total capacity is never met, so the run takes every round `range(steps)` allows |
| Simulation.RunSim | prototype1_pheromq_sim.py:100-115 | the history has at most `max(steps, 0)` rounds; round `t` sits at index `t` and holds the field at the start of that round, the offers aligned with the agents, and their sum; every round before the last misses the target; a history shorter than `steps` ends with a round that meets it; the world steps once per round except a final round that meets the target; the agents keep their last offers |
| Simulation.EvolveNonNegative | prototype1_pheromq_sim.py:108-114 | with `diff >= 0` and a non-negative start, no recorded snapshot holds a negative intensity |
| Scenarios.IsolatedSeed | prototype1_pheromq_sim.py:56-71 | a seed of 1.0 on a node without neighbours becomes 0.82 and nothing else appears |
| Scenarios.PruneBoundary | prototype1_pheromq_sim.py:60-61 | an evaporated value exactly at 1e-4 is kept; 0.5e-4 is deleted |
| Scenarios.HoneycombFirstStep | prototype1_pheromq_sim.py:56-71 | the first step from a seed of 1.0 at the honeycomb centre leaves 0.82 at the centre and gives each ring node 0.35 * 0.82 / 6 |
| Scenarios.HoneycombMassGrows | prototype1_pheromq_sim.py:63-71 | that step raises the total intensity from 1.0 to 0.82 + 0.35 * 0.82 |

## Left out

- `main`: argument parsing, the `random` seeding of capacities, and the
  process entry are configuration and I/O. The scenarios use its default
  parameters and its seed instead.
- `ascii_snapshot` and the `print` calls in `run_sim` are text output and
  are not modelled.
- Simulation.RunSim: the program fails when there are fewer than seven agents,
  because its text snapshot reads seven offers (`offers[i]` for `i` in
  `range(7)`) in every round; the model accepts any number of agents and
  records the round.
- `maybe_plot` is a wrapper over matplotlib.
- `Agent.name` and `Agent.base_load_kw` are carried data that no computation
  reads. `World.N` is likewise unused by the core.
- Floating point: intensities and offers are exact reals, so IEEE-754
  rounding (and with it the order in which a dict's values are summed) is
  not modelled.
- `math.tanh` is a parameter. The lemmas assume only the property of it that
  each one needs.
- Graph.Honeycomb7: the adjacency lists are written out as the lists the
  construction loops produce, in their append order; the loops themselves
  are not modelled.
- The dictionary's insertion order is not modelled. Every loop over keys
  picks an arbitrary next key, so the contracts hold for every order.
- Shared mutable state: the history keeps a copy of the field
  (`dict(world.field)`) and of the offers. In the model every value is
  immutable, so a snapshot can never alias the live field.
