/**
  The evolution engine: tournament selection, Order Crossover, swap
  mutation, one generation step with elitism, and the loop over generations.
  Every random draw of the program is a parameter here; what the operations
  compute is stated with the functions of GeneticSpec and CrossoverSpec.
 */
module Genetic {
  import opened Utils
  import opened Routes
  import opened CrossoverSpec
  import opened Populations
  import opened GeneticSpec

  /** The best individual of a non-empty population: the one at the position
      `BestIndex` picks, which no member beats. */
  function FindBestIndividual(pop: Population): (best: Individual)
    requires |pop.individuals| >= 1
    ensures best == pop.individuals[BestIndex(pop.Fitnesses())]
    ensures best.fitness == MaxOf(pop.Fitnesses())
    ensures forall k | 0 <= k < |pop.individuals| :: pop.individuals[k].fitness <= best.fitness
  {
    pop.individuals[BestIndex(pop.Fitnesses())]
  }

  /** `max_by` keeps the last of equally fit individuals: the best one is a
      member, and every member after it is strictly less fit. */
  lemma FindBestIsLastFittest(pop: Population)
    requires |pop.individuals| >= 1
    ensures exists b | 0 <= b < |pop.individuals| ::
              && pop.individuals[b] == FindBestIndividual(pop)
              && forall k | b < k < |pop.individuals| :: pop.individuals[k].fitness < pop.individuals[b].fitness
  {
    var b := BestIndex(pop.Fitnesses());
    assert forall k | b < k < |pop.individuals| :: pop.individuals[k].fitness < pop.individuals[b].fitness;
  }

  /** Tournament selection: the individual at the sample position `Tournament`
      picks, the first sampled one that no other sample beats. */
  method TournamentSelection(pop: Population, samples: seq<nat>) returns (winner: Individual)
    requires |samples| >= 1
    requires forall t | 0 <= t < |samples| :: samples[t] < |pop.individuals|
    ensures winner == pop.individuals[samples[Tournament(pop.Fitnesses(), samples)]]
  {
    var fits := pop.Fitnesses();
    var best: Option<Individual> := None;
    for t := 0 to |samples|
      invariant best.None? <==> t == 0
      invariant best.Some? ==> best.value == pop.individuals[samples[Tournament(fits, samples[..t])]]
    {
      var idx := samples[t];
      var candidate := pop.individuals[idx];
      assert samples[..t + 1][..t] == samples[..t];
      if best.None? || candidate.fitness > best.value.fitness {
        best := Some(candidate);
      }
    }
    assert samples[..|samples|] == samples;
    winner := best.value;
  }

  /** "Which cities are used in the segment": a fresh table of `size` flags that
      marks the genes of route[start..end]. */
  method MarkSegment(route: seq<nat>, start: nat, end: nat, size: nat) returns (used: array<bool>)
    requires start <= end <= |route|
    requires forall p | start <= p < end :: route[p] < size
    ensures fresh(used) && used.Length == size
    ensures forall g | 0 <= g < size :: used[g] == (g in route[start..end])
  {
    used := new bool[size](_ => false);
    for p := start to end
      invariant forall g | 0 <= g < size :: used[g] == (g in route[start..p])
    {
      assert route[start..p + 1] == route[start..p] + [route[p]];
      used[route[p]] := true;
    }
  }

  /** One fill loop of OX: scan `donor` cyclically from its index 0 and write
      each gene not marked in `used` into `target` at positions end, end+1, ...
      (mod size), stopping when the write position comes back to `start`. The
      loop ends only because exactly size - (end - start) genes are missing
      from the segment, which the caller guarantees. */
  method FillSlots(target: array<nat>, donor: seq<nat>, used: array<bool>, start: nat, end: nat)
    requires |donor| == target.Length && used.Length == target.Length
    requires start <= end < target.Length
    requires InRange(donor, target.Length)
    requires forall g | 0 <= g < used.Length :: used[g] == (g in target[start..end])
    requires |Remaining(donor, target[start..end])| == target.Length - (end - start)
    modifies target
    ensures target[..] == Written(old(target[..]), Remaining(donor, old(target[start..end])), end)
  {
    var size := target.Length;
    ghost var base := target[..];
    ghost var segment := target[start..end];
    ghost var fill := Remaining(donor, segment);
    assert donor[..size] == donor;
    var idx := end;
    var t := 0;
    while true
      invariant FillState(base, donor, segment, end, t, idx, target[..])
      decreases size - t
    {
      FillTurn(base, donor, segment, start, end, t, idx, target[..]);
      var gene := donor[t % size];
      if !used[gene] {
        target[idx % size] := gene;
        idx := idx + 1;
        if idx % size == start {
          break;
        }
      }
      t := t + 1;
    }
  }

  /** The fill loop against its specification: a route buffer holding
      `keeper`, rewritten in place outside the segment, ends as the OX child
      of `keeper` and the donor. */
  method FillOutsideSegment(keeper: seq<nat>, donor: seq<nat>, used: array<bool>, start: nat, end: nat)
    returns (child: seq<nat>)
    requires |donor| == |keeper| && used.Length == |keeper|
    requires start <= end < |keeper|
    requires IsPermutation(keeper, |keeper|) && IsPermutation(donor, |keeper|)
    requires forall g | 0 <= g < used.Length :: used[g] == (g in keeper[start..end])
    ensures child == OxChild(keeper, donor, start, end)
  {
    var size := |keeper|;
    var target := new nat[size](i requires 0 <= i < size => keeper[i]);
    assert target[..] == keeper;
    assert target[start..end] == keeper[start..end];
    PermutationBounds(donor, size);
    WrittenIsOxChild(keeper, donor, start, end);
    FillSlots(target, donor, used, start, end);
    child := target[..];
  }

  /** Order Crossover on two individuals of the same size: outside the segment
      [start, end) the first route is refilled from the second individual's
      route, then the second route from the first one's new route. The
      fitnesses are left as they were. */
  method OrderCrossover(child1: Individual, child2: Individual, start: nat, end: nat)
    returns (crossed1: Individual, crossed2: Individual)
    requires IsPermutation(child1.route, |child1.route|)
    requires IsPermutation(child2.route, |child1.route|)
    requires start <= end < |child1.route|
    ensures crossed1.route == OxChild(child1.route, child2.route, start, end)
    ensures IsPermutation(crossed1.route, |child1.route|)
    ensures crossed2.route == OxChild(child2.route, crossed1.route, start, end)
    ensures IsPermutation(crossed2.route, |child1.route|)
    ensures crossed1.fitness == child1.fitness && crossed2.fitness == child2.fitness
  {
    var size := |child1.route|;
    PermutationBounds(child1.route, size);
    PermutationBounds(child2.route, size);
    var used1 := MarkSegment(child1.route, start, end, size);
    var used2 := MarkSegment(child2.route, start, end, size);
    var route1 := FillOutsideSegment(child1.route, child2.route, used1, start, end);
    OxChildIsPermutation(child1.route, child2.route, start, end);
    var route2 := FillOutsideSegment(child2.route, route1, used2, start, end);
    OxChildIsPermutation(child2.route, route1, start, end);
    crossed1 := child1.(route := route1);
    crossed2 := child2.(route := route2);
  }

  /** Swap mutation: when the draw fires, exchange positions i and j and
      recompute the fitness; otherwise the individual is unchanged. */
  method Mutate(individual: Individual, m: MutationDraw, cities: seq<City>, dist: Distance)
    returns (mutated: Individual)
    requires individual.Valid(cities, dist) && m.Fits(|cities|)
    ensures mutated.Valid(cities, dist)
    ensures mutated.route == Mutated(individual.route, m)
    ensures !m.fires ==> mutated == individual
  {
    mutated := individual;
    if m.fires {
      MutatedIsPermutation(individual.route, |cities|, m);
      var route := Swapped(individual.route, m.i, m.j);
      PermutationBounds(route, |cities|);
      var fitness := ComputeFitness(route, cities, dist);
      mutated := Individual(route, fitness);
    }
  }

  /** The crossover stage of the reproduction loop: when the draw says so,
      Order Crossover on both children, then both fitnesses recomputed. */
  method CrossoverStage(child1: Individual, child2: Individual, d: PairDraw, cities: seq<City>, dist: Distance)
    returns (crossed1: Individual, crossed2: Individual)
    requires child1.Valid(cities, dist) && child2.Valid(cities, dist)
    requires d.crossover ==> d.start <= d.end < |cities|
    ensures crossed1.Valid(cities, dist) && crossed2.Valid(cities, dist)
    ensures (crossed1.route, crossed2.route) == Crossed(child1.route, child2.route, |cities|, d)
    ensures !d.crossover ==> crossed1 == child1 && crossed2 == child2
  {
    crossed1, crossed2 := child1, child2;
    if d.crossover {
      var n := |cities|;
      var ox1, ox2 := OrderCrossover(child1, child2, d.start, d.end);
      ghost var expected := Crossed(child1.route, child2.route, n, d);
      PermutationBounds(expected.0, n);
      PermutationBounds(expected.1, n);
      var fitness1 := ComputeFitness(ox1.route, cities, dist);
      var fitness2 := ComputeFitness(ox2.route, cities, dist);
      crossed1, crossed2 := ox1.(fitness := fitness1), ox2.(fitness := fitness2);
    }
  }

  /** One pass of the reproduction loop: two tournaments, the crossover stage
      on the winners, then mutation of each child. */
  method Reproduce(current: Population, cities: seq<City>, dist: Distance, tournamentSize: nat, d: PairDraw)
    returns (child1: Individual, child2: Individual)
    requires current.Valid(cities, dist)
    requires GenerationShape(current.Routes(), current.Fitnesses(), |cities|)
    requires tournamentSize >= 1 && d.Fits(|current.individuals|, tournamentSize, |cities|)
    ensures child1.Valid(cities, dist) && child2.Valid(cities, dist)
    ensures (child1.route, child2.route)
            == PairChildren(current.Routes(), current.Fitnesses(), |cities|, tournamentSize, d)
  {
    var parent1 := TournamentSelection(current, d.sample1);
    var parent2 := TournamentSelection(current, d.sample2);
    var crossed1, crossed2 := CrossoverStage(parent1, parent2, d, cities, dist);
    child1 := Mutate(crossed1, d.mutation1, cities, dist);
    child2 := Mutate(crossed2, d.mutation2, cities, dist);
  }

  /** The individuals built so far carry, position by position, the first
      routes of `target`. */
  ghost predicate RoutesPrefix(built: seq<Individual>, target: seq<seq<nat>>)
  {
    && |built| <= |target|
    && forall k | 0 <= k < |built| :: built[k].route == target[k]
  }

  /** Appending an individual with the next route of `target` keeps
      `RoutesPrefix`. */
  lemma RoutesPrefixExtend(built: seq<Individual>, child: Individual, target: seq<seq<nat>>)
    requires RoutesPrefix(built, target) && |built| < |target|
    requires child.route == target[|built|]
    ensures RoutesPrefix(built + [child], target)
  {
    var extended := built + [child];
    forall k | 0 <= k < |extended|
      ensures extended[k].route == target[k]
    {
      if k < |built| {
        assert extended[k] == built[k];
      }
    }
  }

  /** Appending a valid individual to valid ones gives a valid population. */
  lemma ValidExtend(built: seq<Individual>, child: Individual, cities: seq<City>, dist: Distance)
    requires Population(built).Valid(cities, dist) && child.Valid(cities, dist)
    ensures Population(built + [child]).Valid(cities, dist)
  {
    var extended := built + [child];
    forall k | 0 <= k < |extended|
      ensures extended[k].Valid(cities, dist)
    {
      if k < |built| {
        assert extended[k] == built[k];
      }
    }
  }

  /** After the 1 + 2p individuals built so far, the two children of pair p
      continue the next generation (the second one only while it fits). */
  lemma PairExtendsNext(routes: seq<seq<nat>>, fits: seq<real>, n: nat, draws: seq<PairDraw>,
                        tournamentSize: nat, p: nat, built: seq<Individual>,
                        child1: Individual, child2: Individual)
    requires GenerationShape(routes, fits, n) && GenerationDraws(draws, |routes|, tournamentSize, n)
    requires |built| == 1 + 2 * p && 1 + 2 * p < |routes| && p < |draws| && tournamentSize >= 1
    requires RoutesPrefix(built, NextGeneration(routes, fits, n, draws, tournamentSize))
    requires (child1.route, child2.route) == PairChildren(routes, fits, n, tournamentSize, draws[p])
    ensures var target := NextGeneration(routes, fits, n, draws, tournamentSize);
            && RoutesPrefix(built + [child1], target)
            && (|built| + 1 < |routes| ==> RoutesPrefix(built + [child1] + [child2], target))
  {
    var target := NextGeneration(routes, fits, n, draws, tournamentSize);
    NextRouteOfPair(routes, fits, n, draws, tournamentSize, p);
    RoutesPrefixExtend(built, child1, target);
    if |built| + 1 < |routes| {
      RoutesPrefixExtend(built + [child1], child2, target);
    }
  }

  /** One generation: the best individual first (elitism), then the children
      of successive pairs until the new population is as large as the current
      one; an odd remainder takes only the first child of the last pair. */
  method EvolvePopulation(current: Population, cities: seq<City>, dist: Distance,
                          tournamentSize: nat, draws: seq<PairDraw>) returns (next: Population)
    requires |current.individuals| >= 1 && current.Valid(cities, dist)
    requires GenerationDraws(draws, |current.individuals|, tournamentSize, |cities|)
    ensures |next.individuals| == |current.individuals|
    ensures next.Valid(cities, dist)
    ensures next.Routes() == NextGeneration(current.Routes(), current.Fitnesses(), |cities|, draws, tournamentSize)
    ensures next.individuals[0] == FindBestIndividual(current)
    ensures MaxOf(current.Fitnesses()) <= MaxOf(next.Fitnesses())
  {
    var popSize := |current.individuals|;
    ghost var n := |cities|;
    ghost var routes, fits := current.Routes(), current.Fitnesses();
    ValidPopulationShape(current, cities, dist);
    ghost var target := NextGeneration(routes, fits, n, draws, tournamentSize);
    var bestInd := FindBestIndividual(current);
    var newPopulation := [bestInd];
    assert bestInd.route == target[0];
    RoutesPrefixExtend([], bestInd, target);
    ValidExtend([], bestInd, cities, dist);
    var p := 0;
    while |newPopulation| < popSize
      invariant 0 <= p <= |draws|
      invariant 1 <= |newPopulation| <= popSize
      invariant |newPopulation| < popSize ==> |newPopulation| == 1 + 2 * p
      invariant newPopulation[0] == bestInd
      invariant Population(newPopulation).Valid(cities, dist)
      invariant RoutesPrefix(newPopulation, target)
      decreases popSize - |newPopulation|
    {
      PairDrawExists(draws, popSize, tournamentSize, n, p);
      var child1, child2 := Reproduce(current, cities, dist, tournamentSize, draws[p]);
      PairExtendsNext(routes, fits, n, draws, tournamentSize, p, newPopulation, child1, child2);
      ValidExtend(newPopulation, child1, cities, dist);
      newPopulation := newPopulation + [child1];
      if |newPopulation| < popSize {
        ValidExtend(newPopulation, child2, cities, dist);
        newPopulation := newPopulation + [child2];
      }
      p := p + 1;
    }
    next := Population(newPopulation);
    assert next.Routes() == target;
    MaxOfKeepsElite(fits, next.Fitnesses());
  }

  /** The routes and fitnesses of a valid non-empty population have the shape
      of a generation. */
  lemma ValidPopulationShape(pop: Population, cities: seq<City>, dist: Distance)
    requires |pop.individuals| >= 1 && pop.Valid(cities, dist)
    ensures GenerationShape(pop.Routes(), pop.Fitnesses(), |cities|)
  {
    forall k | 0 <= k < |pop.individuals|
      ensures IsPermutation(pop.Routes()[k], |cities|)
    {
      assert pop.individuals[k].Valid(cities, dist);
    }
  }

  /** The fitnesses of a valid population are those of its routes. */
  lemma ValidFitnesses(pop: Population, cities: seq<City>, dist: Distance)
    requires |cities| >= 1 && pop.Valid(cities, dist)
    ensures AllPermutations(pop.Routes(), |cities|)
    ensures pop.Fitnesses() == FitnessesOf(pop.Routes(), cities, dist)
  {
    forall k | 0 <= k < |pop.individuals|
      ensures |pop.Routes()[k]| == |cities| && IsPermutation(pop.Routes()[k], |cities|)
      ensures InRange(pop.Routes()[k], |cities|)
    {
      assert pop.individuals[k].Valid(cities, dist);
    }
  }

  /** The random population `Population.NewRandom` draws holds the routes of
      generation 0. */
  lemma InitialGeneration(cities: seq<City>, dist: Distance, tournamentSize: nat, initial: seq<seq<nat>>,
                          perGeneration: seq<seq<PairDraw>>, population: Population)
    requires |cities| >= 1 && |initial| >= 1
    requires RunDraws(|cities|, |initial|, tournamentSize, initial, perGeneration)
    requires |population.individuals| == |initial|
    requires forall k | 0 <= k < |initial| :: population.individuals[k].route == Shuffled(Identity(|cities|), initial[k])
    ensures population.Routes() == GenerationRoutes(cities, dist, tournamentSize, initial, perGeneration, 0)
  {
    assert population.Routes() == InitialRoutes(|cities|, initial);
  }

  /** One pass of the generation loop: when `current` holds the routes of
      generation g, the population `EvolvePopulation` makes of it holds those
      of generation g + 1. */
  lemma GenerationStep(cities: seq<City>, dist: Distance, tournamentSize: nat, initial: seq<seq<nat>>,
                       perGeneration: seq<seq<PairDraw>>, g: nat, current: Population, next: Population)
    requires |cities| >= 1 && |initial| >= 1
    requires RunDraws(|cities|, |initial|, tournamentSize, initial, perGeneration)
    requires g < |perGeneration|
    requires current.Valid(cities, dist)
    requires current.Routes() == GenerationRoutes(cities, dist, tournamentSize, initial, perGeneration, g)
    requires GenerationShape(current.Routes(), current.Fitnesses(), |cities|)
    requires next.Routes()
             == NextGeneration(current.Routes(), current.Fitnesses(), |cities|, perGeneration[g], tournamentSize)
    ensures next.Routes() == GenerationRoutes(cities, dist, tournamentSize, initial, perGeneration, g + 1)
  {
    ValidFitnesses(current, cities, dist);
    var routes, fits := current.Routes(), current.Fitnesses();
    assert next.Routes() == NextGeneration(routes, fits, |cities|, perGeneration[g], tournamentSize);
  }

  /** After the last generation: the best individual of a valid population
      holding the routes of generation g is the fittest route of that
      generation, and no worse than the best initial one. */
  lemma BestOfRun(cities: seq<City>, dist: Distance, tournamentSize: nat, initial: seq<seq<nat>>,
                  perGeneration: seq<seq<PairDraw>>, g: nat, population: Population)
    requires |cities| >= 1 && |initial| >= 1
    requires RunDraws(|cities|, |initial|, tournamentSize, initial, perGeneration)
    requires g <= |perGeneration|
    requires population.Valid(cities, dist)
    requires population.Routes() == GenerationRoutes(cities, dist, tournamentSize, initial, perGeneration, g)
    ensures var routes := GenerationRoutes(cities, dist, tournamentSize, initial, perGeneration, g);
            var fits := FitnessesOf(routes, cities, dist);
            var best := FindBestIndividual(population);
            && best.route == routes[BestIndex(fits)]
            && best.fitness == BestOfGeneration(cities, dist, tournamentSize, initial, perGeneration, g)
            && BestOfGeneration(cities, dist, tournamentSize, initial, perGeneration, 0) <= best.fitness
  {
    ValidFitnesses(population, cities, dist);
    BestNeverDrops(cities, dist, tournamentSize, initial, perGeneration, 0, g);
  }

  /** The genetic algorithm: a random population evolved for exactly
      `generations` steps, then the best individual of the last one. It holds
      the fittest route of the last generation, and no worse a fitness than
      the best of the initial population. */
  method RunGa(cities: seq<City>, dist: Distance, populationSize: nat, generations: nat, tournamentSize: nat,
               initial: seq<seq<nat>>, perGeneration: seq<seq<PairDraw>>)
    returns (best: Individual)
    requires |cities| >= 1 && populationSize >= 1 && |perGeneration| == generations
    requires RunDraws(|cities|, populationSize, tournamentSize, initial, perGeneration)
    ensures best.Valid(cities, dist)
    ensures var routes := GenerationRoutes(cities, dist, tournamentSize, initial, perGeneration, generations);
            var fits := FitnessesOf(routes, cities, dist);
            best.route == routes[BestIndex(fits)]
    ensures best.fitness == BestOfGeneration(cities, dist, tournamentSize, initial, perGeneration, generations)
    ensures BestOfGeneration(cities, dist, tournamentSize, initial, perGeneration, 0) <= best.fitness
  {
    var population := Population.NewRandom(populationSize, cities, dist, initial);
    InitialGeneration(cities, dist, tournamentSize, initial, perGeneration, population);
    for g := 0 to generations
      invariant |population.individuals| == populationSize && population.Valid(cities, dist)
      invariant population.Routes() == GenerationRoutes(cities, dist, tournamentSize, initial, perGeneration, g)
    {
      ValidPopulationShape(population, cities, dist);
      var next := EvolvePopulation(population, cities, dist, tournamentSize, perGeneration[g]);
      GenerationStep(cities, dist, tournamentSize, initial, perGeneration, g, population, next);
      population := next;
    }
    best := FindBestIndividual(population);
    BestOfRun(cities, dist, tournamentSize, initial, perGeneration, generations, population);
  }
}
