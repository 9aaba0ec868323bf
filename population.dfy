/**
  Individuals (a route with its cached fitness), populations, random
  initialisation and the tour evaluator.
 */
module Populations {
  import opened Utils
  import opened Routes

  /** The length of the legs route[0]->route[1], ..., route[k-1]->route[k]. */
  function LegsLength(route: seq<nat>, cities: seq<City>, dist: Distance, k: nat): real
    requires k < |route| && InRange(route, |cities|)
  {
    if k == 0 then 0.0
    else LegsLength(route, cities, dist, k - 1) + dist(cities[route[k - 1]], cities[route[k]])
  }

  /** The fitness of a route: the negated length of the closed tour, whose
      closing leg is measured from the first city to the last. */
  function Fitness(route: seq<nat>, cities: seq<City>, dist: Distance): real
    requires |route| >= 1 && InRange(route, |cities|)
  {
    -(LegsLength(route, cities, dist, |route| - 1) + dist(cities[route[0]], cities[route[|route| - 1]]))
  }

  /** The tour evaluator: sums the legs in a loop, adds the closing leg and
      negates. An empty route or an index outside the cities is a panic in the
      program, so both are excluded. */
  method ComputeFitness(route: seq<nat>, cities: seq<City>, dist: Distance) returns (fitness: real)
    requires |route| >= 1 && InRange(route, |cities|)
    ensures fitness == Fitness(route, cities, dist)
  {
    var total := 0.0;
    for i := 0 to |route| - 1
      invariant total == LegsLength(route, cities, dist, i)
    {
      total := total + dist(cities[route[i]], cities[route[i + 1]]);
    }
    total := total + dist(cities[route[0]], cities[route[|route| - 1]]);
    fitness := -total;
  }

  /** A one-city tour has only its closing leg, from the city to itself. */
  lemma FitnessOfOneCity(c: nat, cities: seq<City>, dist: Distance)
    requires c < |cities|
    ensures Fitness([c], cities, dist) == -dist(cities[c], cities[c])
  {
  }

  /** With a distance that is zero from a city to itself, a one-city tour has
      fitness 0. */
  lemma FitnessOfOneCityIsZero(c: nat, cities: seq<City>, dist: Distance)
    requires c < |cities| && dist(cities[c], cities[c]) == 0.0
    ensures Fitness([c], cities, dist) == 0.0
  {
    FitnessOfOneCity(c, cities, dist);
  }

  /** Draws for one shuffle of n cities: in the Fisher-Yates pass, the t-th
      draw picks the partner of position n-1-t among 0..n-1-t. */
  predicate ShuffleDraws(draws: seq<nat>, n: nat)
  {
    && |draws| == (if n == 0 then 0 else n - 1)
    && forall t | 0 <= t < |draws| :: draws[t] + t < n
  }

  /** The route after the first m exchanges of the Fisher-Yates pass. */
  function ShuffleSteps(route: seq<nat>, draws: seq<nat>, m: nat): (r: seq<nat>)
    requires m <= |draws| && forall t | 0 <= t < |draws| :: draws[t] + t < |route|
    ensures |r| == |route|
  {
    if m == 0 then route
    else
      var t := m - 1;
      assert draws[t] + t < |route|;
      Swapped(ShuffleSteps(route, draws, t), |route| - 1 - t, draws[t])
  }

  /** Every exchange keeps the cities of the route. */
  lemma {:induction false} ShuffleStepsPermutes(route: seq<nat>, draws: seq<nat>, m: nat)
    requires m <= |draws| && forall t | 0 <= t < |draws| :: draws[t] + t < |route|
    ensures multiset(ShuffleSteps(route, draws, m)) == multiset(route)
  {
    if m > 0 {
      var prev := ShuffleSteps(route, draws, m - 1);
      assert draws[m - 1] + (m - 1) < |route|;
      var i: nat, j: nat := |route| - 1 - (m - 1), draws[m - 1];
      assert ShuffleSteps(route, draws, m) == Swapped(prev, i, j);
      SwappedKeepsCities(prev, i, j);
      ShuffleStepsPermutes(route, draws, m - 1);
    }
  }

  /** The route after the whole Fisher-Yates pass. */
  function Shuffled(route: seq<nat>, draws: seq<nat>): (r: seq<nat>)
    requires ShuffleDraws(draws, |route|)
    ensures |r| == |route|
  {
    ShuffleSteps(route, draws, |draws|)
  }

  /** Shuffling the route 0..n-1 gives a permutation of 0..n-1. */
  lemma ShuffledIsPermutation(n: nat, draws: seq<nat>)
    requires ShuffleDraws(draws, n)
    ensures IsPermutation(Shuffled(Identity(n), draws), n)
  {
    ShuffleStepsPermutes(Identity(n), draws, |draws|);
  }

  /** Shuffles a route in place: for i from n-1 down to 1, exchange position i
      with the drawn position j <= i. */
  method Shuffle(route: array<nat>, draws: seq<nat>)
    requires ShuffleDraws(draws, route.Length)
    modifies route
    ensures route[..] == Shuffled(old(route[..]), draws)
  {
    var n := route.Length;
    for t := 0 to |draws|
      invariant route[..] == ShuffleSteps(old(route[..]), draws, t)
    {
      var i, j := n - 1 - t, draws[t];
      ghost var before := route[..];
      route[i], route[j] := route[j], route[i];
      assert route[..] == Swapped(before, i, j);
    }
  }

  /** An individual: a route through all cities and its cached fitness. The
      program owns each individual exclusively (its `&mut` borrows are never
      shared), so it is a value here and an update in place is a new value. */
  datatype Individual = Individual(route: seq<nat>, fitness: real) {

    /** The route visits every city once and the cached fitness is the route's
        (the length and the index bounds follow from the permutation and are
        spelled out for the verifier). */
    ghost predicate Valid(cities: seq<City>, dist: Distance)
    {
      && |cities| >= 1 && |route| == |cities|
      && IsPermutation(route, |cities|) && InRange(route, |cities|)
      && fitness == Fitness(route, cities, dist)
    }

    /** A random individual: the route 0..n-1 shuffled in place by `draws`,
        with its fitness computed. */
    static method NewRandom(cities: seq<City>, dist: Distance, draws: seq<nat>) returns (individual: Individual)
      requires |cities| >= 1 && ShuffleDraws(draws, |cities|)
      ensures individual.Valid(cities, dist)
      ensures individual.route == Shuffled(Identity(|cities|), draws)
    {
      var n := |cities|;
      var route := new nat[n](i => i);
      assert route[..] == Identity(n);
      Shuffle(route, draws);
      ShuffledIsPermutation(n, draws);
      PermutationBounds(route[..], n);
      var fit := ComputeFitness(route[..], cities, dist);
      individual := Individual(route[..], fit);
    }
  }

  /** A population: the individuals of one generation. */
  datatype Population = Population(individuals: seq<Individual>) {

    /** Every individual is valid. */
    ghost predicate Valid(cities: seq<City>, dist: Distance)
    {
      forall k | 0 <= k < |individuals| :: individuals[k].Valid(cities, dist)
    }

    /** The route of each individual, in population order. */
    function Routes(): (routes: seq<seq<nat>>)
      ensures |routes| == |individuals|
      ensures forall k | 0 <= k < |individuals| :: routes[k] == individuals[k].route
    {
      seq(|individuals|, k requires 0 <= k < |individuals| => individuals[k].route)
    }

    /** The fitness of each individual, in population order. */
    function Fitnesses(): (fits: seq<real>)
      ensures |fits| == |individuals|
      ensures forall k | 0 <= k < |individuals| :: fits[k] == individuals[k].fitness
    {
      seq(|individuals|, k requires 0 <= k < |individuals| => individuals[k].fitness)
    }

    /** A population of `popSize` random individuals, drawn one after another. */
    static method NewRandom(popSize: nat, cities: seq<City>, dist: Distance, draws: seq<seq<nat>>)
      returns (pop: Population)
      requires |cities| >= 1
      requires |draws| == popSize && forall k | 0 <= k < popSize :: ShuffleDraws(draws[k], |cities|)
      ensures |pop.individuals| == popSize && pop.Valid(cities, dist)
      ensures forall k | 0 <= k < popSize :: pop.individuals[k].route == Shuffled(Identity(|cities|), draws[k])
    {
      var individuals: seq<Individual> := [];
      for k := 0 to popSize
        invariant |individuals| == k
        invariant forall m | 0 <= m < k :: individuals[m].Valid(cities, dist)
        invariant forall m | 0 <= m < k :: individuals[m].route == Shuffled(Identity(|cities|), draws[m])
      {
        var individual := Individual.NewRandom(cities, dist, draws[k]);
        individuals := individuals + [individual];
      }
      pop := Population(individuals);
    }
  }
}
