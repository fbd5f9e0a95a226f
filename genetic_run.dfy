/** The genetic solver's main loop: evaluate a random initial population, then for each
    generation sort by fitness, record the best, keep the elite and breed the rest by tournament,
    crossover and mutation. */
module GeneticRun {
  import opened Types
  import opened Sums
  import opened Genetic
  import Scoring

  /** `GAParams`. */
  datatype GaParams = GaParams(populationSize: nat, generations: nat, crossoverRate: real, mutationRate: real, elitism: nat)

  /** `DEFAULT_PARAMS`. */
  const DefaultParams := GaParams(120, 160, 0.85, 0.07, 4)

  /** A partial `GAParams`: the fields a caller chose to set. */
  datatype ParamOverrides = ParamOverrides(populationSize: Option<nat>, generations: Option<nat>, crossoverRate: Option<real>,
                                           mutationRate: Option<real>, elitism: Option<nat>)

  function Or<T>(o: Option<T>, default: T): T
  {
    if o.Some? then o.value else default
  }

  /** `{ ...DEFAULT_PARAMS, ...params }` */
  function Configure(params: ParamOverrides): GaParams
  {
    GaParams(Or(params.populationSize, DefaultParams.populationSize), Or(params.generations, DefaultParams.generations),
             Or(params.crossoverRate, DefaultParams.crossoverRate), Or(params.mutationRate, DefaultParams.mutationRate),
             Or(params.elitism, DefaultParams.elitism))
  }

  /** `GAInput`; the global weighted preferences it may carry are not used by the fitness. */
  datatype GaInput = GaInput(courseGroups: seq<CourseGroup>, courses: seq<Course>,
                             preferences: Option<seq<Scoring.UserPreference>>, minUnits: Option<int>, maxUnits: Option<int>)

  /** The draws for one pair of children: the two tournaments' samples, whether and where to
      cross, and the two mutations. */
  datatype PairDraws = PairDraws(select1: nat -> Unit, select2: nat -> Unit, fire: Unit, point: Unit,
                                 mutate1: nat -> MutationDraw, mutate2: nat -> MutationDraw)

  /** Every random draw of a run: `init(p, gi)` for gene `gi` of initial individual `p`, and
      `pair(gen, n)` for the `n`-th pair of children bred in generation `gen`. */
  datatype Oracle = Oracle(init: (nat, nat) -> InitDraw, pair: (nat, nat) -> PairDraws)

  /** One line of the history; the average fitness is not modelled. */
  datatype HistoryEntry = HistoryEntry(gen: nat, best: int)

  /** The fitness `fitness` gives a genome under this input's course index, preferences and
      unit bounds. */
  function FitnessFn(idx: map<string, Course>, input: GaInput): seq<Gene> -> int
  {
    (genome: seq<Gene>) => FitnessOf(genome, idx, input.preferences, input.minUnits, input.maxUnits)
  }

  /** `fit` agrees with the fitness on every genome. The loop's specifications speak of `fit`;
      the link to the fitness is used only where a fitness is computed. */
  ghost predicate IsFitness(fit: seq<Gene> -> int, idx: map<string, Course>, input: GaInput)
  {
    forall genome {:trigger FitnessOf(genome, idx, input.preferences, input.minUnits, input.maxUnits)} ::
      fit(genome) == FitnessOf(genome, idx, input.preferences, input.minUnits, input.maxUnits)
  }

  /** The individual's stored fitness and units are those of its genome, and the genome has one
      fitting gene per group. */
  predicate IsEvaluated(ind: Individual, fit: seq<Gene> -> int, idx: map<string, Course>, input: GaInput)
    reads ind
  {
    ind.fitness == fit(ind.genome)
    && ind.units == Units(ind.genome, idx)
    && GenomeFits(ind.genome, input.courseGroups, idx)
  }

  /** Every individual of the population is evaluated. */
  predicate Evaluated(pop: seq<Individual>, fit: seq<Gene> -> int, idx: map<string, Course>, input: GaInput)
    reads pop
  {
    forall i {:trigger IsEvaluated(pop[i], fit, idx, input)} :: 0 <= i < |pop| ==> IsEvaluated(pop[i], fit, idx, input)
  }

  /** Fitness never increases from one individual to the next. */
  predicate SortedByFitness(pop: seq<Individual>)
    reads pop
  {
    forall i :: 0 < i < |pop| ==> pop[i - 1].fitness >= pop[i].fitness
  }

  /** In a sorted population every individual is at least as fit as every later one. */
  lemma {:induction false} SortedAllPairs(pop: seq<Individual>, i: nat, j: nat)
    requires SortedByFitness(pop) && i <= j < |pop|
    ensures pop[i].fitness >= pop[j].fitness
    decreases j - i
  {
    if i < j {
      SortedAllPairs(pop, i + 1, j);
    }
  }

  /** The individuals of fitness `v`, in their order in `pop`. */
  function WithFitness(pop: seq<Individual>, v: int): seq<Individual>
    reads pop
  {
    if pop == [] then [] else (if pop[0].fitness == v then [pop[0]] else []) + WithFitness(pop[1..], v)
  }

  lemma {:induction false} WithFitnessConcat(a: seq<Individual>, b: seq<Individual>, v: int)
    ensures WithFitness(a + b, v) == WithFitness(a, v) + WithFitness(b, v)
  {
    if a != [] {
      assert (a + b)[1..] == a[1..] + b;
      WithFitnessConcat(a[1..], b, v);
    } else {
      assert a + b == b;
    }
  }

  lemma {:induction false} WithFitnessNone(s: seq<Individual>, v: int)
    requires forall k :: 0 <= k < |s| ==> s[k].fitness < v
    ensures WithFitness(s, v) == []
  {
    if s != [] {
      WithFitnessNone(s[1..], v);
    }
  }

  /** `population.sort((a, b) => b.fitness - a.fitness)`: the same individuals, fittest first.
      The sort is stable: individuals of equal fitness keep their order. */
  method SortByFitness(pop: seq<Individual>) returns (sorted: seq<Individual>)
    ensures |sorted| == |pop| && multiset(sorted) == multiset(pop)
    ensures SortedByFitness(sorted)
    ensures forall v :: WithFitness(sorted, v) == WithFitness(pop, v)
  {
    sorted := [];
    for i := 0 to |pop|
      invariant |sorted| == i && multiset(sorted) == multiset(pop[..i])
      invariant SortedByFitness(sorted)
      invariant forall v :: WithFitness(sorted, v) == WithFitness(pop[..i], v)
    {
      assert pop[..i + 1] == pop[..i] + [pop[i]];
      forall v
        ensures WithFitness(pop[..i + 1], v) == WithFitness(pop[..i], v) + (if pop[i].fitness == v then [pop[i]] else [])
      {
        WithFitnessConcat(pop[..i], [pop[i]], v);
      }
      sorted := InsertByFitness(sorted, pop[i]);
    }
    assert pop[..|pop|] == pop;
  }

  /** Inserts `x` after every individual at least as fit, before every less fit one. */
  method InsertByFitness(sorted: seq<Individual>, x: Individual) returns (r: seq<Individual>)
    requires SortedByFitness(sorted)
    ensures |r| == |sorted| + 1 && multiset(r) == multiset(sorted) + multiset{x}
    ensures SortedByFitness(r)
    ensures forall v :: WithFitness(r, v) == WithFitness(sorted, v) + (if x.fitness == v then [x] else [])
  {
    var j := InsertionPoint(sorted, x);
    assert sorted == sorted[..j] + sorted[j..];
    r := sorted[..j] + [x] + sorted[j..];
    InsertKeepsSorted(sorted, x, j);
    InsertKeepsTies(sorted, x, j);
  }

  /** The position after the last individual at least as fit as `x`, found from the end. */
  method InsertionPoint(sorted: seq<Individual>, x: Individual) returns (j: nat)
    ensures j <= |sorted|
    ensures j > 0 ==> sorted[j - 1].fitness >= x.fitness
    ensures forall k :: j <= k < |sorted| ==> sorted[k].fitness < x.fitness
  {
    j := |sorted|;
    while j > 0 && sorted[j - 1].fitness < x.fitness
      invariant 0 <= j <= |sorted|
      invariant forall k :: j <= k < |sorted| ==> sorted[k].fitness < x.fitness
    {
      j := j - 1;
    }
  }

  /** Inserting `x` before the less fit individuals puts it after every individual of its own
      fitness and keeps everyone else's order. */
  lemma InsertKeepsTies(sorted: seq<Individual>, x: Individual, j: nat)
    requires j <= |sorted| && forall k :: j <= k < |sorted| ==> sorted[k].fitness < x.fitness
    ensures forall v :: WithFitness(sorted[..j] + [x] + sorted[j..], v)
                        == WithFitness(sorted, v) + (if x.fitness == v then [x] else [])
  {
    assert sorted == sorted[..j] + sorted[j..];
    forall v
      ensures WithFitness(sorted[..j] + [x] + sorted[j..], v) == WithFitness(sorted, v) + (if x.fitness == v then [x] else [])
    {
      TiesBetween(sorted[..j], sorted[j..], x, v);
    }
  }

  lemma TiesBetween(a: seq<Individual>, b: seq<Individual>, x: Individual, v: int)
    requires forall k :: 0 <= k < |b| ==> b[k].fitness < x.fitness
    ensures WithFitness(a + [x] + b, v) == WithFitness(a + b, v) + (if x.fitness == v then [x] else [])
  {
    WithFitnessConcat(a + [x], b, v);
    WithFitnessConcat(a, [x], v);
    WithFitnessConcat(a, b, v);
    assert WithFitness([x], v) == (if x.fitness == v then [x] else []) + WithFitness([], v) by {
      assert [x][1..] == [];
    }
    if v == x.fitness {
      WithFitnessNone(b, v);
    }
  }

  lemma InsertKeepsSorted(sorted: seq<Individual>, x: Individual, j: nat)
    requires SortedByFitness(sorted) && j <= |sorted|
    requires j > 0 ==> sorted[j - 1].fitness >= x.fitness
    requires j < |sorted| ==> sorted[j].fitness < x.fitness
    ensures SortedByFitness(sorted[..j] + [x] + sorted[j..])
  {
    var r := sorted[..j] + [x] + sorted[j..];
    forall k | 0 < k < |r|
      ensures r[k - 1].fitness >= r[k].fitness
    {
      if k < j {
        assert r[k - 1] == sorted[k - 1] && r[k] == sorted[k];
      } else if k == j {
        assert r[k - 1] == sorted[j - 1] && r[k] == x;
      } else if k == j + 1 {
        assert r[k - 1] == x && r[k] == sorted[j];
      } else {
        assert r[k - 1] == sorted[k - 2] && r[k] == sorted[k - 1];
      }
    }
  }

  /** Sorting keeps every individual, so an evaluated population stays evaluated and the first
      individual is at least as fit as any other. */
  lemma SortedFirstIsFittest(pop: seq<Individual>, sorted: seq<Individual>, w: Individual)
    requires multiset(sorted) == multiset(pop) && SortedByFitness(sorted)
    requires w in pop
    ensures |sorted| > 0 && sorted[0].fitness >= w.fitness
  {
    assert w in multiset(sorted);
    var j :| 0 <= j < |sorted| && sorted[j] == w;
    SortedAllPairs(sorted, 0, j);
  }

  lemma SortedStaysEvaluated(pop: seq<Individual>, sorted: seq<Individual>, fit: seq<Gene> -> int, idx: map<string, Course>,
                             input: GaInput)
    requires multiset(sorted) == multiset(pop) && Evaluated(pop, fit, idx, input)
    ensures Evaluated(sorted, fit, idx, input)
  {
    forall i | 0 <= i < |sorted|
      ensures sorted[i] in pop
    {
      assert sorted[i] in multiset(pop);
    }
  }

  /** `population.forEach(ind => ind.fitness = fitness(...))` */
  method EvaluateAll(pop: seq<Individual>, ghost fit: seq<Gene> -> int, idx: map<string, Course>, input: GaInput)
    requires IsFitness(fit, idx, input)
    requires forall i :: 0 <= i < |pop| ==> GenomeFits(pop[i].genome, input.courseGroups, idx)
    modifies set i | 0 <= i < |pop| :: pop[i]
    ensures forall i :: 0 <= i < |pop| ==> pop[i].genome == old(pop[i].genome)
    ensures Evaluated(pop, fit, idx, input)
  {
    for i := 0 to |pop|
      invariant forall j :: 0 <= j < |pop| ==> pop[j].genome == old(pop[j].genome)
      invariant forall j {:trigger IsEvaluated(pop[j], fit, idx, input)} :: 0 <= j < i ==> IsEvaluated(pop[j], fit, idx, input)
    {
      var f := Fitness(pop[i], idx, input.preferences, input.minUnits, input.maxUnits);
      pop[i].fitness := f;
      assert IsEvaluated(pop[i], fit, idx, input);
    }
  }

  /** The genome of each individual, in order. */
  function Genomes(pop: seq<Individual>): (genomes: seq<seq<Gene>>)
    reads pop
    ensures |genomes| == |pop| && forall i :: 0 <= i < |pop| ==> genomes[i] == pop[i].genome
  {
    if pop == [] then [] else [pop[0].genome] + Genomes(pop[1..])
  }

  /** The genome breeding makes of the draws `d` for the first child (`first`) or the second,
      from a population with these genomes and fitnesses: the two tournament winners crossed (or
      copied) in that order, then mutated. The winners of an evaluated population always have one
      gene per group; the last branch only makes the function total. */
  function BredGenome(genomes: seq<seq<Gene>>, fits: seq<int>, input: GaInput, idx: map<string, Course>, cfg: GaParams,
                      d: PairDraws, first: bool): seq<Gene>
    requires |genomes| == |fits| > 0
  {
    var w1, w2 := genomes[WinnerIndex(fits, TournamentSize, d.select1)], genomes[WinnerIndex(fits, TournamentSize, d.select2)];
    var a, b := if first then w1 else w2, if first then w2 else w1;
    if |a| == |b| <= |input.courseGroups| then
      MutateGenome(Crossed(a, b, cfg.crossoverRate, d.fire, d.point), input.courseGroups, idx, cfg.mutationRate,
                   if first then d.mutate1 else d.mutate2)
    else a
  }

  /** Breeds two children: two tournaments and a crossover, then mutation and fitness for each
      child. `genomes` and `fits` are the population's genomes and fitnesses. */
  method Breed(population: seq<Individual>, ghost genomes: seq<seq<Gene>>, ghost fits: seq<int>, ghost fit: seq<Gene> -> int,
               idx: map<string, Course>, input: GaInput, cfg: GaParams, d: PairDraws) returns (c1: Individual, c2: Individual)
    requires IsFitness(fit, idx, input)
    requires |population| > 0 && WellKeyed(idx) && Evaluated(population, fit, idx, input)
    requires genomes == Genomes(population) && fits == Fitnesses(population)
    ensures fresh(c1) && fresh(c2) && c1 != c2
    ensures IsEvaluated(c1, fit, idx, input) && IsEvaluated(c2, fit, idx, input)
    ensures c1.genome == BredGenome(genomes, fits, input, idx, cfg, d, true)
    ensures c2.genome == BredGenome(genomes, fits, input, idx, cfg, d, false)
  {
    var p1 := Tournament(population, TournamentSize, d.select1);
    var p2 := Tournament(population, TournamentSize, d.select2);
    assert IsEvaluated(p1, fit, idx, input) && IsEvaluated(p2, fit, idx, input);
    BredFromWinners(genomes, fits, input, idx, cfg, d, p1.genome, p2.genome);
    c1, c2 := Offspring(p1, p2, fit, idx, input, cfg, d);
  }

  /** With `g1` and `g2` the genomes of the two tournament winners, the bred genomes are theirs
      crossed and mutated. */
  lemma BredFromWinners(genomes: seq<seq<Gene>>, fits: seq<int>, input: GaInput, idx: map<string, Course>, cfg: GaParams,
                        d: PairDraws, g1: seq<Gene>, g2: seq<Gene>)
    requires |genomes| == |fits| > 0
    requires g1 == genomes[WinnerIndex(fits, TournamentSize, d.select1)]
    requires g2 == genomes[WinnerIndex(fits, TournamentSize, d.select2)]
    requires |g1| == |g2| <= |input.courseGroups|
    ensures BredGenome(genomes, fits, input, idx, cfg, d, true)
            == MutateGenome(Crossed(g1, g2, cfg.crossoverRate, d.fire, d.point), input.courseGroups, idx, cfg.mutationRate, d.mutate1)
    ensures BredGenome(genomes, fits, input, idx, cfg, d, false)
            == MutateGenome(Crossed(g2, g1, cfg.crossoverRate, d.fire, d.point), input.courseGroups, idx, cfg.mutationRate, d.mutate2)
  {
  }

  /** The two children of `p1` and `p2`: crossover, then mutation and fitness for each. */
  method Offspring(p1: Individual, p2: Individual, ghost fit: seq<Gene> -> int, idx: map<string, Course>, input: GaInput,
                   cfg: GaParams, d: PairDraws) returns (c1: Individual, c2: Individual)
    requires IsFitness(fit, idx, input) && WellKeyed(idx)
    requires IsEvaluated(p1, fit, idx, input) && IsEvaluated(p2, fit, idx, input)
    ensures fresh(c1) && fresh(c2) && c1 != c2
    ensures c1.genome == MutateGenome(Crossed(p1.genome, p2.genome, cfg.crossoverRate, d.fire, d.point), input.courseGroups, idx,
                                      cfg.mutationRate, d.mutate1)
    ensures c2.genome == MutateGenome(Crossed(p2.genome, p1.genome, cfg.crossoverRate, d.fire, d.point), input.courseGroups, idx,
                                      cfg.mutationRate, d.mutate2)
    ensures IsEvaluated(c1, fit, idx, input) && IsEvaluated(c2, fit, idx, input)
  {
    c1, c2 := Crossover(p1, p2, cfg.crossoverRate, d.fire, d.point);
    if !(d.fire > cfg.crossoverRate || |p1.genome| == 0) {
      CrossFits(p1.genome, p2.genome, Pick(d.point, |p1.genome|), input.courseGroups, idx);
      CrossFits(p2.genome, p1.genome, Pick(d.point, |p1.genome|), input.courseGroups, idx);
    }
    MutateAndEvaluate(c1, fit, idx, input, cfg, d.mutate1);
    MutateAndEvaluate(c2, fit, idx, input, cfg, d.mutate2);
  }

  /** `mutate(c, ...)` followed by `c.fitness = fitness(c, ...)`. */
  method MutateAndEvaluate(c: Individual, ghost fit: seq<Gene> -> int, idx: map<string, Course>, input: GaInput, cfg: GaParams,
                           draws: nat -> MutationDraw)
    requires IsFitness(fit, idx, input)
    requires WellKeyed(idx) && GenomeFits(c.genome, input.courseGroups, idx)
    modifies c
    ensures c.genome == MutateGenome(old(c.genome), input.courseGroups, idx, cfg.mutationRate, draws)
    ensures IsEvaluated(c, fit, idx, input)
  {
    MutateGenomeFits(c.genome, input.courseGroups, idx, cfg.mutationRate, draws);
    Mutate(c, input.courseGroups, idx, cfg.mutationRate, draws);
    var f := Fitness(c, idx, input.preferences, input.minUnits, input.maxUnits);
    c.fitness := f;
  }

  /** `runGenetic`. The returned population has `populationSize` evaluated individuals, fittest
      first, `best` is the first of them, the history has one entry per generation, and with at
      least one elite the recorded best never decreases. */
  method RunGenetic(input: GaInput, params: ParamOverrides, oracle: Oracle)
    returns (best: Individual, history: seq<HistoryEntry>, population: seq<Individual>)
    requires Configure(params).populationSize >= 1
    ensures |population| == Configure(params).populationSize
    ensures Evaluated(population, FitnessFn(CourseIndex(input.courses), input), CourseIndex(input.courses), input)
    ensures SortedByFitness(population) && best == population[0]
    ensures |history| == Configure(params).generations
    ensures forall g :: 0 <= g < |history| ==> history[g].gen == g
    ensures Configure(params).elitism >= 1 ==>
      (forall g :: 0 < g < |history| ==> history[g - 1].best <= history[g].best)
      && (|history| > 0 ==> history[|history| - 1].best <= best.fitness)
  {
    var cfg := Configure(params);
    var idx := BuildCourseIndex(input.courses);
    CourseIndexStored(input.courses);
    ghost var fit := FitnessFn(idx, input);
    population := StartPopulation(cfg, fit, idx, input, oracle);
    population, history := Evolve(population, fit, idx, input, cfg, oracle);
    population := Rank(population, fit, idx, input);
    best := population[0];
  }

  /** The evaluated initial population of `runGenetic`. */
  method StartPopulation(cfg: GaParams, ghost fit: seq<Gene> -> int, idx: map<string, Course>, input: GaInput, oracle: Oracle)
    returns (population: seq<Individual>)
    requires IsFitness(fit, idx, input)
    ensures |population| == cfg.populationSize
    ensures forall p :: 0 <= p < |population| ==> population[p].genome == InitGenome(input.courseGroups, idx, p, oracle.init)
    ensures Evaluated(population, fit, idx, input)
  {
    population := InitializePopulation(cfg.populationSize, input.courseGroups, idx, oracle.init);
    forall p | 0 <= p < |population|
      ensures GenomeFits(population[p].genome, input.courseGroups, idx)
    {
      InitGenomeFits(input.courseGroups, idx, p, oracle.init);
    }
    EvaluateAll(population, fit, idx, input);
  }

  /** The generation loop of `runGenetic`. */
  method Evolve(start: seq<Individual>, ghost fit: seq<Gene> -> int, idx: map<string, Course>, input: GaInput, cfg: GaParams,
                oracle: Oracle) returns (population: seq<Individual>, history: seq<HistoryEntry>)
    requires IsFitness(fit, idx, input)
    requires |start| == cfg.populationSize >= 1
    requires WellKeyed(idx) && Evaluated(start, fit, idx, input)
    ensures |population| == cfg.populationSize && Evaluated(population, fit, idx, input)
    ensures |history| == cfg.generations
    ensures forall g :: 0 <= g < |history| ==> history[g].gen == g
    ensures cfg.elitism >= 1 ==>
      (forall g :: 0 < g < |history| ==> history[g - 1].best <= history[g].best)
      && (|history| > 0 ==> history[|history| - 1].best <= population[0].fitness)
  {
    population := start;
    history := [];
    for gen := 0 to cfg.generations
      invariant |population| == cfg.populationSize
      invariant Evaluated(population, fit, idx, input)
      invariant |history| == gen
      invariant forall g :: 0 <= g < gen ==> history[g].gen == g
      invariant cfg.elitism >= 1 ==> forall g :: 0 < g < gen ==> history[g - 1].best <= history[g].best
      invariant cfg.elitism >= 1 && gen > 0 ==> population[0].fitness >= history[gen - 1].best
    {
      var entry;
      population, entry := Generation(population, fit, idx, input, cfg, oracle, gen);
      history := history + [entry];
    }
  }

  /** One pass of the generation loop: rank, record the best fitness, breed the next population. */
  method Generation(population: seq<Individual>, ghost fit: seq<Gene> -> int, idx: map<string, Course>, input: GaInput,
                    cfg: GaParams, oracle: Oracle, gen: nat) returns (next: seq<Individual>, entry: HistoryEntry)
    requires IsFitness(fit, idx, input)
    requires |population| == cfg.populationSize >= 1
    requires WellKeyed(idx) && Evaluated(population, fit, idx, input)
    ensures |next| == cfg.populationSize && Evaluated(next, fit, idx, input)
    ensures entry.gen == gen
    ensures forall i :: 0 <= i < |population| ==> population[i].fitness <= entry.best
    ensures exists i :: 0 <= i < |population| && population[i].fitness == entry.best
    ensures cfg.elitism >= 1 ==> next[0].fitness == entry.best
  {
    var ranked := Rank(population, fit, idx, input);
    entry := HistoryEntry(gen, ranked[0].fitness);
    assert ranked[0] in multiset(population);
    next := NextGeneration(ranked, fit, idx, input, cfg, oracle, gen);
  }

  /** Sorts the population, fittest first. */
  method Rank(population: seq<Individual>, ghost fit: seq<Gene> -> int, idx: map<string, Course>, input: GaInput)
    returns (sorted: seq<Individual>)
    requires |population| > 0 && Evaluated(population, fit, idx, input)
    ensures |sorted| == |population| && multiset(sorted) == multiset(population)
    ensures Evaluated(sorted, fit, idx, input) && SortedByFitness(sorted)
    ensures forall i :: 0 <= i < |population| ==> population[i].fitness <= sorted[0].fitness
    ensures forall v :: WithFitness(sorted, v) == WithFitness(population, v)
  {
    sorted := SortByFitness(population);
    SortedStaysEvaluated(population, sorted, fit, idx, input);
    forall i | 0 <= i < |population|
      ensures population[i].fitness <= sorted[0].fitness
    {
      SortedFirstIsFittest(population, sorted, population[i]);
    }
  }

  /** One generation's breeding: copies of the first `elitism` individuals, then children pair by
      pair until the population is full again. */
  method NextGeneration(population: seq<Individual>, ghost fit: seq<Gene> -> int, idx: map<string, Course>, input: GaInput,
                        cfg: GaParams, oracle: Oracle, gen: nat) returns (next: seq<Individual>)
    requires IsFitness(fit, idx, input)
    requires |population| == cfg.populationSize >= 1
    requires WellKeyed(idx) && Evaluated(population, fit, idx, input)
    ensures |next| == cfg.populationSize
    ensures Evaluated(next, fit, idx, input)
    ensures ElitePrefix(next, population, cfg.elitism)
    ensures cfg.elitism >= 1 ==> next[0].fitness == population[0].fitness
    ensures BredInOrder(next, Genomes(population), Fitnesses(population), input, idx, cfg, oracle, gen)
  {
    ghost var genomes, fits := Genomes(population), Fitnesses(population);
    next := CopyElite(population, cfg.elitism, fit, idx, input);
    var pairNo := 0;
    while |next| < cfg.populationSize
      invariant |next| <= cfg.populationSize
      invariant |next| >= (if cfg.elitism < |population| then cfg.elitism else |population|)
      invariant |next| < cfg.populationSize ==> |next| == cfg.elitism + 2 * pairNo
      invariant Evaluated(population, fit, idx, input) && Evaluated(next, fit, idx, input)
      invariant ElitePrefix(next, population, cfg.elitism)
      invariant BredInOrder(next, genomes, fits, input, idx, cfg, oracle, gen)
      decreases cfg.populationSize - |next|
    {
      next := BreedPair(population, next, genomes, fits, fit, idx, input, cfg, oracle, gen, pairNo);
      pairNo := pairNo + 1;
    }
  }

  /** The first `elitism` individuals of `next` are copies of those of `population`. */
  predicate ElitePrefix(next: seq<Individual>, population: seq<Individual>, elitism: nat)
    reads next, population
  {
    forall k :: 0 <= k < |next| && k < elitism && k < |population| ==> IsCopy(next[k], population[k])
  }

  /** After the first `elitism` individuals, `next` holds the children in breeding order, from a
      population with these genomes and fitnesses: individual `elitism + j` is the first child of
      pair `j / 2` when `j` is even and its second child when `j` is odd. */
  predicate BredInOrder(next: seq<Individual>, genomes: seq<seq<Gene>>, fits: seq<int>, input: GaInput,
                        idx: map<string, Course>, cfg: GaParams, oracle: Oracle, gen: nat)
    reads next
  {
    |genomes| == |fits| > 0
    && forall j :: cfg.elitism <= j < |next| ==>
         next[j].genome == BredGenome(genomes, fits, input, idx, cfg, oracle.pair(gen, (j - cfg.elitism) / 2),
                                      (j - cfg.elitism) % 2 == 0)
  }

  /** One pass of the breeding loop: breeds pair `pairNo`, appends its first child, and its second
      while there is room. */
  method BreedPair(population: seq<Individual>, next: seq<Individual>, ghost genomes: seq<seq<Gene>>, ghost fits: seq<int>,
                   ghost fit: seq<Gene> -> int, idx: map<string, Course>, input: GaInput, cfg: GaParams, oracle: Oracle,
                   gen: nat, pairNo: nat)
    returns (grown: seq<Individual>)
    requires IsFitness(fit, idx, input)
    requires |population| > 0 && WellKeyed(idx) && Evaluated(population, fit, idx, input)
    requires genomes == Genomes(population) && fits == Fitnesses(population)
    requires |next| < cfg.populationSize && |next| == cfg.elitism + 2 * pairNo
    requires Evaluated(next, fit, idx, input) && ElitePrefix(next, population, cfg.elitism)
    requires BredInOrder(next, genomes, fits, input, idx, cfg, oracle, gen)
    ensures |grown| == if |next| + 1 < cfg.populationSize then |next| + 2 else |next| + 1
    ensures grown[..|next|] == next
    ensures Evaluated(grown, fit, idx, input) && ElitePrefix(grown, population, cfg.elitism)
    ensures BredInOrder(grown, genomes, fits, input, idx, cfg, oracle, gen)
  {
    var c1, c2 := Breed(population, genomes, fits, fit, idx, input, cfg, oracle.pair(gen, pairNo));
    AppendChild(population, next, c1, genomes, fits, fit, idx, input, cfg, oracle, gen, pairNo, true);
    grown := next + [c1];
    if |grown| < cfg.populationSize {
      AppendChild(population, grown, c2, genomes, fits, fit, idx, input, cfg, oracle, gen, pairNo, false);
      grown := grown + [c2];
    }
  }

  /** Appending the first (`first`) or second child of pair `pairNo` right after the children of
      the earlier pairs keeps the breeding loop's facts. */
  lemma AppendChild(population: seq<Individual>, next: seq<Individual>, c: Individual, genomes: seq<seq<Gene>>,
                    fits: seq<int>, fit: seq<Gene> -> int, idx: map<string, Course>, input: GaInput, cfg: GaParams,
                    oracle: Oracle, gen: nat, pairNo: nat, first: bool)
    requires |next| == cfg.elitism + 2 * pairNo + (if first then 0 else 1)
    requires Evaluated(next, fit, idx, input) && ElitePrefix(next, population, cfg.elitism)
    requires BredInOrder(next, genomes, fits, input, idx, cfg, oracle, gen)
    requires IsEvaluated(c, fit, idx, input)
    requires c.genome == BredGenome(genomes, fits, input, idx, cfg, oracle.pair(gen, pairNo), first)
    ensures Evaluated(next + [c], fit, idx, input) && ElitePrefix(next + [c], population, cfg.elitism)
    ensures BredInOrder(next + [c], genomes, fits, input, idx, cfg, oracle, gen)
  {
    var grown := next + [c];
    forall k | 0 <= k < |grown|
      ensures IsEvaluated(grown[k], fit, idx, input)
    {
      if k < |next| {
        assert grown[k] == next[k];
      }
    }
    forall k | 0 <= k < |grown| && k < cfg.elitism && k < |population|
      ensures IsCopy(grown[k], population[k])
    {
      assert grown[k] == next[k];
    }
    forall j | cfg.elitism <= j < |grown|
      ensures grown[j].genome == BredGenome(genomes, fits, input, idx, cfg, oracle.pair(gen, (j - cfg.elitism) / 2),
                                            (j - cfg.elitism) % 2 == 0)
    {
      if j < |next| {
        assert grown[j] == next[j];
      } else {
        assert grown[j] == c && (j - cfg.elitism) / 2 == pairNo && ((j - cfg.elitism) % 2 == 0) == first;
      }
    }
  }

  /** `copy` holds the same genome, fitness and units as `original`. */
  predicate IsCopy(copy: Individual, original: Individual)
    reads copy, original
  {
    copy.genome == original.genome && copy.fitness == original.fitness && copy.units == original.units
  }

  /** Copies of the first `elitism` individuals (all of them when there are fewer). */
  method CopyElite(population: seq<Individual>, elitism: nat, ghost fit: seq<Gene> -> int, idx: map<string, Course>,
                   input: GaInput)
    returns (next: seq<Individual>)
    requires Evaluated(population, fit, idx, input)
    ensures |next| == if elitism < |population| then elitism else |population|
    ensures forall k :: 0 <= k < |next| ==> fresh(next[k])
    ensures Evaluated(next, fit, idx, input)
    ensures forall k :: 0 <= k < |next| ==> IsCopy(next[k], population[k])
  {
    next := [];
    var e := 0;
    while e < elitism && e < |population|
      invariant e <= |population| && e <= elitism && |next| == e
      invariant forall k :: 0 <= k < e ==> fresh(next[k])
      invariant Evaluated(next, fit, idx, input)
      invariant forall k :: 0 <= k < e ==> IsCopy(next[k], population[k])
    {
      var elite := new Individual.Copy(population[e]);
      assert IsEvaluated(population[e], fit, idx, input);
      next := next + [elite];
      e := e + 1;
    }
  }

  /** `convertBestToSchedule`: the timetable of the best genome against a fresh course index. */
  method ConvertBestToSchedule(best: Individual, courses: seq<Course>) returns (schedule: seq<ScheduleSection>)
    ensures schedule == Decode(best.genome, CourseIndex(courses))
  {
    var idx := BuildCourseIndex(courses);
    schedule := GenomeToSchedule(best.genome, idx);
  }
}
