# A verified model of a genetic algorithm for the Travelling Salesman Problem

The program evolves closed tours through a list of cities. A tour (route) is a
permutation of the city indices 0..n-1. An individual is a route with its
cached fitness, the negated length of the closed tour. A population is a list
of individuals.

One generation works as follows:
- the fittest individual is copied first (elitism);
- pairs of parents are picked by tournament selection;
- each pair may be recombined by Order Crossover (OX), and each child may be
  mutated by swapping two cities;
- children are appended until the new population is as large as the old one.

`run_ga` builds a random population, applies the generation step a fixed
number of times and returns the best individual.

The model consists of six modules:
- `Utils` (utils.dfy): cities and the distance parameter.
- `Routes` (routes.dfy): permutations of 0..n-1, and the swap.
- `CrossoverSpec` (crossover_spec.dfy): what OX computes, as values, and why
  it yields permutations.
- `Populations` (population.dfy): the tour evaluator, individuals,
  populations, and random initialisation.
- `GeneticSpec` (genetic_spec.dfy): what selection, mutation and one
  generation compute, as values; the route at each position of the next
  population; the generations of a whole run.
- `Genetic` (genetic.dfy): the operators as the program runs them.
  - OX rewrites a route buffer (`array<nat>`) in place with a cyclic write
    index and a table of `used` flags.
  - Each loop carries the invariants that tie it to the value-level
    specification.

Every random draw of the program is an explicit parameter:
- `MutationDraw`: whether a mutation fires, and its two positions;
- `PairDraw`: the tournament samples, the crossover decision and cut points,
  and both mutation draws of one pass of the reproduction loop;
- the Fisher-Yates partner indices of each initial shuffle.

Each parameter's predicate constrains it to the range the program draws it
from: `Fits`, `GenerationDraws`, `ShuffleDraws`, `RunDraws`.

The main results:
- `OxChildIsPermutation`, `OrderCrossover`: OX keeps both children
  permutations. The fill loop writes exactly n - (end - start) cells and stops.
- `EvolvePopulation`: every new individual is valid. Valid means its route is
  a permutation and its fitness is that route's fitness. The new population has
  the old size and its routes are exactly `NextGeneration` of the old ones.
- `BestNeverDrops`, `RunGa`: by elitism, the best fitness never drops over a
  run.

## Model

| member | source | states |
|---|---|---|
| `Genetic.FindBestIndividual` | src/genetic.rs:76-86 | the result is the member at `BestIndex` of the fitnesses; its fitness is the maximum and no member is fitter |
| `Genetic.FindBestIsLastFittest` | src/genetic.rs:80-84 | the result is a member and every member after it is strictly less fit (`max_by` keeps the last of equal maxima) |
| `GeneticSpec.BestIndex` | src/genetic.rs:77-85 | the picked position is in range; it holds a fitness no other reaches, and every later position is strictly less fit |
| `GeneticSpec.MaxOfIsMaximum` | src/genetic.rs:77-85 | m is the picked maximum if and only if m occurs in the list and bounds every element |
| `Genetic.TournamentSelection` | src/genetic.rs:89-102 | the winner is the sampled member at the position `Tournament` picks; needs at least one sample, all within the population |
| `GeneticSpec.Tournament` | src/genetic.rs:93-101 | the pick is a sample position whose fitness bounds every sample; every earlier sample is strictly less fit (first sample wins ties) |
| `GeneticSpec.TournamentOfOne` | src/genetic.rs:94-99 | a tournament of one sample picks that sample |
| `GeneticSpec.TournamentTieGoesToFirst` | src/genetic.rs:97-99 | when all samples are equally fit, the first one wins |
| `Genetic.MarkSegment` | src/genetic.rs:118-126 | a fresh table of `size` flags in which flag g is set exactly when g occurs in route[start..end] |
| `Genetic.FillSlots` | src/genetic.rs:128-138 | the in-place fill loop ends. The buffer is the old one with the k-th remaining donor gene written at slot (end + k) mod size, i.e. `Written` |
| `Genetic.FillOutsideSegment` | src/genetic.rs:128-150 | a buffer holding the keeper, rewritten by the fill loop, ends as `OxChild` of keeper and donor |
| `Genetic.OrderCrossover` | src/genetic.rs:106-151 | child 1 becomes `OxChild` of itself and child 2; child 2 becomes `OxChild` of itself and child 1's new route. Both stay permutations and fitnesses are left unchanged |
| `CrossoverSpec.OxChild` | src/genetic.rs:115-150 | the child has the keeper's length and keeps its segment. Slot (end + k) mod size holds the k-th donor gene not in the segment, and there are exactly size - (end - start) of them |
| `CrossoverSpec.RemainingLength` | src/genetic.rs:119-138 | the segment and the remaining donor genes hold every city exactly once, so size - (end - start) genes remain |
| `CrossoverSpec.RemainingPrefix` | src/genetic.rs:130-131 | scanning a prefix of the donor yields a prefix of the remaining genes |
| `CrossoverSpec.FillTurn` | src/genetic.rs:130-137 | one turn of the fill loop keeps the loop's state. The turn that wraps the write index back to `start` is the one that writes the last remaining gene |
| `CrossoverSpec.WrittenIsOxChild` | src/genetic.rs:129-138 | writing all remaining genes from `end` onwards over the keeper gives exactly the OX child |
| `CrossoverSpec.OxChildByPositions` | src/genetic.rs:128-150 | a route that keeps the segment and holds the k-th remaining gene at slot k is the OX child |
| `CrossoverSpec.OxChildIsPermutation` | src/genetic.rs:106-151 | the OX child of two permutations of 0..n-1 is a permutation of 0..n-1 |
| `CrossoverSpec.OxChildEmptySegment` | src/genetic.rs:111-112 | with start == end the child is the donor rotated so that the donor's first gene sits at position end |
| `CrossoverSpec.OxExampleChild1` | src/genetic.rs:128-138 | parents [0,1,2,3,4] and [4,3,2,1,0] with segment [1,3) give [0,1,2,4,3] |
| `CrossoverSpec.OxExampleChild2` | src/genetic.rs:140-150 | the second child, filled from the rewritten first child, is [4,3,2,0,1] |
| `Genetic.Mutate` | src/genetic.rs:154-167 | the result is valid, its route is `Mutated` (the swap when the draw fires), and an unfired draw leaves the individual untouched |
| `GeneticSpec.MutatedIsPermutation` | src/genetic.rs:158-162 | mutation keeps a permutation a permutation; equal positions or an unfired draw change nothing |
| `Routes.Swapped` | src/genetic.rs:162 | positions i and j exchanged, every other position unchanged |
| `Routes.SwappedIsPermutation` | src/genetic.rs:162 | exchanging two positions keeps a permutation a permutation |
| `Routes.SwappedSelf` | src/genetic.rs:160-162 | swapping a position with itself changes nothing |
| `Genetic.CrossoverStage` | src/genetic.rs:52-59 | both children stay valid with recomputed fitness and their routes are `Crossed`; without crossover they are the parents unchanged |
| `GeneticSpec.Crossed` | src/genetic.rs:53-59 | with crossover: child 1 is the OX child of parent 1 filled from parent 2, and child 2 the OX child of parent 2 filled from the new child 1. Both are permutations |
| `GeneticSpec.Offspring` | src/genetic.rs:49-63 | the crossover stage followed by both mutations yields two permutations |
| `GeneticSpec.OffspringWithoutChange` | src/genetic.rs:49-63 | without crossover and mutation the children are copies of the parents |
| `Genetic.Reproduce` | src/genetic.rs:45-63 | the two children are valid and equal `PairChildren`, the offspring of the two tournament winners |
| `GeneticSpec.PairChildren` | src/genetic.rs:46-63 | the children of one pass of the reproduction loop are permutations |
| `GeneticSpec.NextRoute` | src/genetic.rs:36-70 | every route of the next generation is a permutation: the best route at 0, the children of pair p at 1 + 2p and 2 + 2p |
| `GeneticSpec.NextRouteOfPair` | src/genetic.rs:44-69 | pair p's draws exist while position 1 + 2p is open; positions 1 + 2p and 2 + 2p hold its first and second child |
| `GeneticSpec.PairDrawExists` | src/genetic.rs:44-47 | pair p of the loop runs only while position 1 + 2p is open, and then its draws exist and fit |
| `GeneticSpec.NextGeneration` | src/genetic.rs:36-72 | the next generation has the current size and consists of permutations; position k holds `NextRoute` k |
| `Genetic.PairExtendsNext` | src/genetic.rs:65-69 | appending pair p's children after the first 1 + 2p individuals continues the next generation; the second child is appended only while there is room |
| `Genetic.EvolvePopulation` | src/genetic.rs:29-73 | the result has the current size and every member is valid. Its routes are `NextGeneration`, its first member is the current best, and the best fitness does not drop |
| `GeneticSpec.MaxOfKeepsElite` | src/genetic.rs:40-41 | a list whose first element is the maximum of another has a maximum at least as high |
| `GeneticSpec.NextGenerationKeepsBest` | src/genetic.rs:39-41 | the first route of the next generation has the current best fitness, so the best fitness does not drop |
| `GeneticSpec.InitialRoutes` | src/population.rs:37-43 | the initial routes are the shuffles of 0..n-1, one per individual, all permutations |
| `GeneticSpec.GenerationRoutes` | src/genetic.rs:17-22 | every generation of a run has the population size and consists of permutations |
| `GeneticSpec.GenerationKeepsBest` | src/genetic.rs:20-22 | the best fitness of generation g is at least that of generation g - 1 |
| `GeneticSpec.BestNeverDrops` | src/genetic.rs:20-22 | the best fitness of a later generation is at least that of an earlier one |
| `Genetic.InitialGeneration` | src/genetic.rs:17 | the random initial population holds the routes of generation 0 |
| `Genetic.GenerationStep` | src/genetic.rs:20-21 | evolving the population of generation g gives the routes of generation g + 1 |
| `Genetic.BestOfRun` | src/genetic.rs:24-25 | the best individual of generation g holds that generation's fittest route and best fitness, no worse than the initial best |
| `Genetic.RunGa` | src/genetic.rs:8-26 | the result is valid. It holds the fittest route of the last generation (after exactly `generations` steps), and its fitness is no worse than the initial population's best |
| `Populations.ComputeFitness` | src/population.rs:48-62 | the loop's result is the negated sum of the legs route[i] to route[i+1] plus the closing leg from the first city to the last |
| `Populations.FitnessOfOneCity` | src/population.rs:50-58 | a one-city tour has fitness -dist(c, c) |
| `Populations.FitnessOfOneCityIsZero` | src/population.rs:50-58 | a one-city tour has fitness 0 when the distance from a city to itself is 0 |
| `Populations.Shuffle` | src/population.rs:19 | the in-place Fisher-Yates pass leaves the array holding `Shuffled` of its old contents |
| `Populations.ShuffleStepsPermutes` | src/population.rs:19 | every exchange of the shuffle keeps the cities of the route |
| `Populations.ShuffledIsPermutation` | src/population.rs:18-19 | shuffling the route 0..n-1 gives a permutation of 0..n-1 |
| `Populations.Individual.NewRandom` | src/population.rs:16-26 | the new individual is valid: a permutation with its fitness computed. Its route is 0..n-1 shuffled by the draws |
| `Populations.Population.NewRandom` | src/population.rs:37-43 | exactly `popSize` individuals, all valid; individual k holds the route shuffled by draws k |
| `Routes.PermutationBounds` | src/population.rs:50-57 | a permutation of 0..n-1 has length n and indexes only the n cities |
| `Routes.PermutationIsDistinct` | src/population.rs:13-19 | a permutation has length n, entries below n and no duplicates |
| `Routes.DistinctIsPermutation` | src/population.rs:13-19 | n distinct entries below n form a permutation of 0..n-1 |

## Left out

- Reading cities from a file and the numeric parsing in src/utils.rs: I/O, not part of the algorithm. `City` keeps only its shape.
- `distance` in src/utils.rs: Euclidean distance in `f64` with a square root. It is a parameter `dist` of type `(City, City) -> real`, left uninterpreted.
  - No property here depends on its values.
  - Floating point is not modelled: fitness is a real and sums are exact.
- NaN: the program compares fitnesses with `partial_cmp(...).unwrap_or(Equal)`. Fitnesses here are totally ordered reals, so the NaN case does not arise.
- src/main.rs: the fixed hyperparameters, the printing and the early exit on empty input are not part of this model.
- Randomness (`thread_rng`, `gen_range`, `random`, `shuffle`): every draw is a parameter, constrained to the program's range.
  - `prob < crossover_rate` and `prob < mutation_rate` become the booleans `PairDraw.crossover` and `MutationDraw.fires`, so the rates themselves do not appear.
  - The shuffle is the Fisher-Yates pass of the `rand` crate: for i from n-1 down to 1, swap i with a drawn j <= i. The partner indices are the draws. The `rand` crate itself is not part of this model.
- In-place updates through `&mut Individual`: `OrderCrossover`, `CrossoverStage` and `Mutate` take an individual and return the updated one. The program owns each individual exclusively and never shares a borrow, so the value model loses no aliasing.
  - The writes inside OX and the shuffle are modelled in place on `array<nat>` buffers.
  - `clone()` is a value copy.
- Panics become preconditions:
  - an empty population, as for `find_best_individual`;
  - a tournament without samples while the reproduction loop runs (`GenerationDraws` asks for `tournamentSize >= 1` when the population has at least two members);
  - an empty list of cities (`route.len() - 1` underflows);
  - indices out of range.
- `usize` arithmetic: the write index `idx` of OX never exceeds end + size, so it is modelled as an unbounded `nat`.
- Concurrency: the program has none.

### Where the code differs from the usual description of the algorithm

The model follows the code in each of these points.
- The cut points are drawn as `start` in 0..size and `end` in start..size. So `end < size` always holds (`start <= end < size` in every contract), and the last position is never part of the kept segment.
- Both fill loops scan the donor route from its index 0, not from position `end`. Only the writes start at `end` (`Remaining`, `FillSlots`).
- `find_best_individual` uses `max_by`, which returns the last of equally fit individuals, not the first (`BestIndex`, `FindBestIsLastFittest`). The tournament, with its strict `>`, keeps the first (`Tournament`).
- The second child is filled from the first child's already rewritten route. Its own `used` flags are taken before the first child changes (`Crossed`, `OrderCrossover`).
- A one-city tour has fitness `-dist(c, c)`, not a fixed 0. The two agree exactly when the distance from a city to itself is 0 (`FitnessOfOneCity`, `FitnessOfOneCityIsZero`).
- The closing leg is measured from the first city to the last (`dist(first, last)`). With an uninterpreted distance this argument order is kept as written.
