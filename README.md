# A verified model of the timetable engine

This project is a Dafny model of the engine behind a university course scheduler. A student names
the courses they want. The engine looks for timetables that take one section of each course
without two classes overlapping, scores them, and ranks them. Course data comes from the
registrar's spreadsheet. The model covers:

- **The exhaustive solver** (`solver.dfy`, from `src/solver.ts`). It has the slot overlap test,
  the conflict scan, the backtracking search over one section per requested course, the legacy
  score, and the ranking of all timetables by that score.
- **The preference-aware score** (`scoring.dfy`, from `src/solver/scoring.ts`). It adds
  per-course priorities and professor and time-slot ratings. On top come an attendance bonus,
  early and late class terms, and a bonus for each weekday left free.
- **The genetic solver** (`genetic.dfy` for its building blocks and `genetic_run.dfy` for the
  run, from `src/solver/genetic.ts`).
  - It keeps genomes with one gene per course group.
  - It decodes genomes into timetables and totals their units.
  - It has a conflict penalty computed on minutes and a fitness.
  - Its search steps are random initialisation, tournament selection, one-point crossover and
    four-way mutation.
  - The generation loop uses elitism.
- **Course groups** (`grouping.dfy`, from `src/grouping.ts`).
  - Group names are normalised.
  - A student's selection is split into buckets: one per group touched and one per ungrouped
    name.
  - The buckets are expanded into every way of taking one name from each bucket.
- **The spreadsheet import core** (`excel_import.dfy`, from `src/excelUtils.ts`).
  - The course-code column is read.
  - Persian weekday names are recognised.
  - The time-and-place text is split at its lesson marker, and each lesson's time range is
    found.
  - Repeated slots are removed.
  - The rows are folded into courses keyed by course code.
- **The catalog merge** (`catalog_merge.dfy`, from the save handler in `src/index.ts`). Each
  imported course replaces the stored course with the same code, or is appended.

### Shared modules

- `types.dfy` holds the catalog entities.
- `time_model.dfy` holds the clock-string comparisons, the minute parse and the free-day count.
- `text.dfy` holds the JavaScript string operations the engine relies on.
- `keyed.dfy` holds records filled under a key, where the last entry wins.
- `enumeration.dfy` holds the depth-first enumeration. `findSchedules` and `expandGroups` both
  instantiate it.
- `sums.dfy` holds sums over sequences.

### How the model is written

Code that loops and updates variables is written as methods with loop invariants. Each such
method's `ensures` ties its result to a specification function. The properties are then proved
about that function as lemmas.

A genetic-solver individual is a class. `mutate` rewrites its genome in place and `fitness`
stores its unit total.

Every `Math.random()` call is an explicit draw in [0, 1) handed in by the caller: an `Oracle` for
a whole run, and a draw record for each step. So every random step is a function of its draws.

Times stay strings, as in the source. The exhaustive solver and both scores compare them
lexicographically. The genetic solver parses `HH:MM` into minutes.

- `TimeModel.LexIsMinuteOrder` proves that string order and minute order agree on zero-padded
  times. `TimeModel.OverlapTestsAgree` proves the same for the two overlap tests.
- The importer's pattern also accepts one-digit hours. `TimeModel.OneDigitHourOverlapMissed`
  exhibits a real overlap that both tests then miss: 9:00-10:30 against 10:00-11:00.

### Behaviour of the code worth knowing

- **Mutation thresholds.** `mutate` clears an occupied gene whenever the operation draw is 0.5 or
  more (src/solver/genetic.ts:157-192). See `Genetic.MutateOccupied`.
- **Extra score arguments.** `fitness` passes five arguments to a `calculateScore` that reads
  only the first two (src/solver/genetic.ts:92). So no group-priority bonus and no preference
  weights enter the fitness.

## Model

| member | source | states |
|---|---|---|
| TimeModel.HalfOpenOverlap | src/solver.ts:14-17 | The overlap test is symmetric, never relates two different days, and treats slots as half-open: a slot ending exactly when another starts does not overlap it. |
| TimeModel.LexIsMinuteOrder | src/solver.ts:16 | On zero-padded `HH:MM` times, JavaScript string order is the order of the times in minutes. |
| TimeModel.TimeOverlapMinutes | src/solver.ts:14-17 | On zero-padded times the string overlap test is exactly the interval-intersection test on minutes. |
| TimeModel.OneDigitHourOverlapMissed | src/solver.ts:16 | With one-digit hours (9:00-10:30 against 10:00-11:00, which share half an hour) both the string test and the minute test report no overlap. |
| TimeModel.MinuteOfZeroPadded | src/solver/genetic.ts:67-70 | The genetic solver's `+s.slice(0,2)*60 + +s.slice(3)` reads a zero-padded time as its minute of the day. |
| TimeModel.OverlapTestsAgree | src/solver/genetic.ts:71 | On zero-padded times the genetic solver's minute-based overlap test and the exhaustive solver's string test give the same answer. |
| TimeModel.LateAndEarlyInMinutes | src/solver.ts:75-76 | On zero-padded times `end > '13:00'` means "ends after 13:00" and `start < '10:00'` means "starts before 10:00". |
| TimeModel.ZeroDayCounts | src/solver.ts:66-68 | The `days` record starts with every weekday present and counting no class. |
| TimeModel.CountFreeDays | src/solver.ts:81-83 | From per-day counters that count a timetable's slots, the loop counts exactly the weekdays on which the timetable has no class. |
| TimeModel.FreeDaysExplicit | src/solver.ts:81-83 | The free-day count is the sum, over the seven weekdays, of 1 for each day without a slot. |
| TimeModel.FreeDaysSameSlots | src/solver/scoring.ts:49 | The free-day count depends only on which slots occur, not on their order or repetition. |
| TimeModel.FreeDaysAddSlot | src/solver/scoring.ts:49 | A slot on a day that had none takes away exactly one free day; a slot on an occupied day changes nothing. |
| Solver.HasConflict | src/solver.ts:20-29 | Returns true exactly when some slot already placed overlaps some slot of the candidate section. |
| Solver.Matched | src/solver.ts:36 | The desired courses are exactly the catalog courses whose name was requested, and never more courses than the catalog has. |
| Solver.AdmissibleAt | src/solver.ts:45 | The search admits entry `i` after the entries before it exactly when it clashes with none of them. |
| Solver.AdmittedIffConflictFree | src/solver.ts:39-57 | A choice passes every conflict check of the search exactly when its timetable has no two overlapping entries. |
| Solver.FoundStep | src/solver.ts:44-56 | Section `k` of the next course contributes the deeper search's timetables when it clashes with nothing chosen, nothing otherwise, ahead of the later sections' timetables. |
| Solver.FoundEnds | src/solver.ts:40-43 | A complete choice records its timetable once; trying past the last section records nothing. |
| Solver.Backtrack | src/solver.ts:39-57 | One level of `backtrack` appends to the results exactly the timetables the search records from its partial choice, in search order. |
| Solver.TrySection | src/solver.ts:45-55 | One pass of the section loop appends the deeper level's timetables when the section clashes with nothing placed, and nothing otherwise. |
| Solver.FindSchedules | src/solver.ts:32-61 | `findSchedules` returns the timetables of the recorded choices of the requested courses. |
| Solver.ChoicesExact | src/solver.ts:32-61 | The recorded choices are exactly the complete, in-range, conflict-free choices of one section per desired course. |
| Solver.TimetablesSound | src/solver.ts:32-61 | Every returned timetable takes one section of each desired course, in catalog order, and has no two overlapping entries. |
| Solver.TimetablesComplete | src/solver.ts:32-61 | Every conflict-free timetable that takes one section of each desired course is returned. |
| Solver.ChoicesOrdered | src/solver.ts:39-57 | Choices are recorded in strictly increasing lexicographic order of section indices, so no choice of sections is recorded twice. Two identical sections of one course still give two equal timetables. |
| Solver.NoMatchedCourse | src/solver.ts:36-43 | When no requested name is in the catalog, the only timetable is the empty one. |
| Solver.CourseWithoutSections | src/solver.ts:44 | A desired course without sections leaves no timetable at all. |
| Solver.ExampleClashes | src/solver.ts:14-17 | In the example catalog, Math section M1 (08:00-10:00) collides with Physics P1 (08:00-10:00), and M2 (10:00-12:00) only touches it. |
| Solver.ExampleSearch | src/solver.ts:39-57 | For two courses with two and one sections, where only the second section of the first admits the second course's section, the search records exactly the choice [1, 0]. |
| Solver.MathPhysicsExample | src/solver.ts:32-61 | Requesting Math and Physics yields exactly one timetable: Math section M2 with Physics section P1. |
| Solver.LegacySlots | src/solver.ts:73-78 | The slot loop subtracts 50 per slot ending after 13:00, adds 20 per slot starting before 10:00, and adds each slot to its day's counter. |
| Solver.CalculateScore | src/solver.ts:64-85 | The legacy score is 100 per section without attendance, -50 per late slot, +20 per early slot and +75 per weekday without a class. |
| Solver.LegacyPointsPermutation | src/solver.ts:64-85 | The legacy score does not depend on the order of the sections. |
| Solver.InsertByScore | src/solver.ts:94 | Inserting into the ranking adds exactly that one item. |
| Solver.SortByScore | src/solver.ts:94 | The ranking is a permutation of its input, ordered by non-increasing score. |
| Solver.SortByScoreStable | src/solver.ts:94 | The sort is stable: for every score, the items with that score appear in the same order as in the input. |
| Solver.InsertByScoreStable | src/solver.ts:94 | Inserting an item into a ranking places it after every item of equal score and keeps the order of the others. |
| Solver.GetRankedSchedules | src/solver.ts:88-95 | The result is every timetable of the search paired with its legacy score, each once, best score first, with timetables of equal score kept in search order. |
| Scoring.MaxPrioritySpec | src/solver/scoring.ts:26 | `maxPriority` bounds every supplied priority and is one of them; it is 0 when no preference is supplied. |
| Scoring.RatingTerm | src/solver/scoring.ts:33-34 | A missing rating, a zero rating (falsy) or the neutral rating 3 contributes nothing. |
| Scoring.BuildPrefMap | src/solver/scoring.ts:24-25 | The `prefMap` loop records each supplied preference under its course code, later ones replacing earlier ones. |
| Scoring.PrefMapKeys | src/solver/scoring.ts:25 | A course has a preference exactly when some supplied preference names its code. |
| Scoring.PrefMapLastWins | src/solver/scoring.ts:25 | When several preferences share a course code, the last one is used. |
| Scoring.PriorityWeightRange | src/solver/scoring.ts:26-32 | A course with a preference earns at least one priority step of 60, and exactly one when its priority is the largest supplied. |
| Scoring.ScoreSlots | src/solver/scoring.ts:37-47 | The slot loop adds each slot's late penalty, early bonus and the course's rating of that slot's key, and adds each slot to its day's counter. |
| Scoring.CalculateScore | src/solver/scoring.ts:19-51 | The score is the sum of each section's points (priority, professor rating, attendance and its slots' points) plus 60 per weekday without a class. |
| Scoring.SumOverSections | src/solver/scoring.ts:28-48 | Summing a slot term section by section equals summing it over all the timetable's slots. |
| Scoring.NoPreferencesScore | src/solver/scoring.ts:19-51 | Without preferences the score is 40 per section without attendance, +10 per early slot, -30 per late slot and +60 per free weekday. |
| Scoring.ScorePermutation | src/solver/scoring.ts:28-49 | The score does not depend on the order of the sections. |
| Scoring.WithSlotDays | src/solver/scoring.ts:40 | Adding a slot to one section adds one class on that slot's day and changes no other day's count. |
| Scoring.AddSlotOnFreeDay | src/solver/scoring.ts:37-49 | Adding one slot on a day that had no class loses that day's 60 and adds exactly the slot's own points. |
| Scoring.SlotKeyInjective | src/solver/scoring.ts:43-44 | On five-character times a rating key names one slot only, so a time-slot rating applies to that day, start and end alone. |
| Keyed.IndexByStored | src/solver/genetic.ts:28 | Every record entry is one of the given elements, stored under its own key. |
| Keyed.IndexByKeys | src/solver/genetic.ts:28 | The record holds exactly the keys of the given elements. |
| Keyed.IndexByLastWins | src/solver/genetic.ts:28 | Of several elements with one key, the record keeps the last. |
| Keyed.StoredIsLast | src/solver/genetic.ts:28 | Every stored element is the last one given for its key. |
| Genetic.Pick | src/solver/genetic.ts:113 | `Math.floor(Math.random() * n)` is an index below `n`. |
| Genetic.Shuffle | src/solver/genetic.ts:108 | The shuffled codes are a permutation of the group's codes. |
| Genetic.Individual.constructor | src/solver/genetic.ts:121 | A new individual has the given genome, fitness 0 and units 0. |
| Genetic.Individual.Copy | src/solver/genetic.ts:138 | A copy is a fresh individual with the same genome, fitness and units. |
| Genetic.BuildCourseIndex | src/solver/genetic.ts:26-30 | The loop stores every course under its code, a later course replacing an earlier one. |
| Genetic.CourseIndexStored | src/solver/genetic.ts:26-30 | Every course in the index is a catalog course stored under its own code. |
| Genetic.CourseIndexContents | src/solver/genetic.ts:26-30 | Every catalog code is in the index, mapped to the last course given with that code. |
| Genetic.FindSection | src/solver/genetic.ts:38 | `find` returns the first section with the code, and nothing exactly when no section has it. |
| Genetic.GenomeToSchedule | src/solver/genetic.ts:32-49 | Decoding walks the genes in order and keeps one entry per gene naming a known course and one of its sections. |
| Genetic.DecodeAppend | src/solver/genetic.ts:32-49 | Decoding keeps gene order: decoding two runs of genes gives the two timetables one after the other. |
| Genetic.DecodeLength | src/solver/genetic.ts:32-49 | There are at most as many entries as occupied genes, and exactly as many when every occupied gene resolves. |
| Genetic.FitGenomeDecodesFully | src/solver/genetic.ts:32-49 | A genome whose genes fit their groups loses no occupied gene when decoded. |
| Genetic.CalcUnits | src/solver/genetic.ts:51-58 | The total adds the units of every occupied gene whose course is known. |
| Genetic.UnitsCountStaleSections | src/solver/genetic.ts:51-58 | The unit total counts every timetable entry's course and also every known course whose section has gone missing, which the timetable leaves out. |
| Genetic.SlotPenalty | src/solver/genetic.ts:66-72 | One slot against a list of slots adds 100000 for each slot it overlaps in minutes. |
| Genetic.PairPenalty | src/solver/genetic.ts:66-72 | Two entries add 100000 for each overlapping pair of their slots. |
| Genetic.RowPenalty | src/solver/genetic.ts:63-73 | Entry `i` adds the penalties of its pairs with every later entry. |
| Genetic.ConflictPenalty | src/solver/genetic.ts:60-76 | The penalty is 100000 times the number of overlapping slot pairs between two different entries. |
| Genetic.PenaltyZeroIffConflictFree | src/solver/genetic.ts:60-76 | The penalty is never negative, and it is zero exactly when no two different entries have overlapping slots. |
| Genetic.PenaltyAgreesWithSolver | src/solver/genetic.ts:60-76 | On zero-padded times the penalty is zero exactly when the exhaustive solver would accept the timetable as conflict-free. |
| Genetic.UnitPenalty | src/solver/genetic.ts:90-91 | The unit penalty is never negative, and it is zero exactly when the units are at least `minUnits` (0 when absent) and at most `maxUnits` (no bound when absent). |
| Genetic.Fitness | src/solver/genetic.ts:78-95 | The fitness is the timetable's score minus the conflict and unit penalties; only the individual's units change, to its genome's unit total. |
| Genetic.FitnessBelowScore | src/solver/genetic.ts:87-94 | The fitness never exceeds the timetable's score, and equals it exactly when the timetable has no overlaps and the units are within bounds. |
| Genetic.FirstOffered | src/solver/genetic.ts:110-117 | The chosen gene names the first code with an offered course and one of that course's sections; it is empty exactly when no code's course is offered. |
| Genetic.ChooseOffered | src/solver/genetic.ts:110-117 | The loop that breaks at the first offered course chooses exactly that course and the drawn section. |
| Genetic.InitGeneFilled | src/solver/genetic.ts:104-119 | An initial gene is filled exactly when the draw is below 0.55 and some course of the group is offered. |
| Genetic.InitGenomeFits | src/solver/genetic.ts:98-124 | Every initial gene fits its group: empty, or a course of the group with one of its own sections. |
| Genetic.InitializePopulation | src/solver/genetic.ts:98-124 | `popSize` fresh, distinct individuals, each with fitness 0, units 0 and the genome its draws select. |
| Genetic.Tournament | src/solver/genetic.ts:127-134 | The winner is the individual that `WinnerIndex` picks from the population's fitnesses and the draws. It is a member of the population, at least as fit as every sampled individual, and the first sample with that fitness. |
| Genetic.WinnerIsFittest | src/solver/genetic.ts:127-134 | The individual `WinnerIndex` picks is at least as fit as every sample and strictly fitter than every sample drawn before it. |
| Genetic.CrossSplit | src/solver/genetic.ts:142-145 | A child is one parent's genes up to and including the point, then the other parent's genes. |
| Genetic.CrossKeepsGenes | src/solver/genetic.ts:142-145 | At every position the two children together hold exactly the two parents' genes. |
| Genetic.CrossRoundTrip | src/solver/genetic.ts:142-145 | Crossing the two children again at the same point gives back the first parent. |
| Genetic.CrossFits | src/solver/genetic.ts:142-145 | Crossing two genomes that fit their groups yields a genome that fits them. |
| Genetic.Crossover | src/solver/genetic.ts:137-147 | The children's genomes are `Crossed` of the parents in both orders. When the draw exceeds the rate or the genomes are empty, the children are copies of the parents. Otherwise they are the two crosses at the drawn point, with fitness and units 0. |
| Genetic.Filter | src/solver/genetic.ts:161 | The filtered list holds exactly the elements that pass the test and is no longer than the input. |
| Genetic.MutatedGene | src/solver/genetic.ts:152-192 | The body of `mutate` for a firing draw leaves the gene the chosen mutation gives. |
| Genetic.Mutate | src/solver/genetic.ts:150-194 | Every gene whose draw fires is replaced by its mutation, and every other gene is kept. Genes of groups without codes never change. Fitness and units stay as they were. |
| Genetic.MutateGeneFits | src/solver/genetic.ts:150-194 | Mutation keeps a gene fitting its group. |
| Genetic.MutateGenomeFits | src/solver/genetic.ts:150-194 | Mutation keeps every gene of a genome fitting its group. |
| Genetic.MutateOccupied | src/solver/genetic.ts:157-192 | On an occupied gene whose draw fires: below 0.25 the course stays and the section changes exactly when the course has another section. From 0.25 to 0.5 the gene stays or moves to another offered course of the group. From 0.5 on it is cleared. |
| GeneticRun.SortedAllPairs | src/solver/genetic.ts:206 | In a sorted population every individual is at least as fit as every later one. |
| GeneticRun.InsertByFitness | src/solver/genetic.ts:206 | Inserting into a sorted population adds exactly that individual and keeps the population sorted. Among the individuals of each fitness, the new one comes last and the others keep their order. |
| GeneticRun.InsertionPoint | src/solver/genetic.ts:206 | The insertion point lies after every individual at least as fit as the new one and before every less fit one. |
| GeneticRun.InsertKeepsTies | src/solver/genetic.ts:206 | Inserting an individual before the less fit ones puts it after every individual of its own fitness and keeps the order of everyone else. |
| GeneticRun.SortByFitness | src/solver/genetic.ts:206 | Sorting yields the same individuals, fittest first. The sort is stable, as JavaScript's is: for every fitness, the individuals with that fitness keep their input order. |
| GeneticRun.SortedFirstIsFittest | src/solver/genetic.ts:206-207 | After sorting, the first individual is at least as fit as any individual of the population. |
| GeneticRun.SortedStaysEvaluated | src/solver/genetic.ts:206 | Sorting an evaluated population keeps every individual evaluated. |
| GeneticRun.Rank | src/solver/genetic.ts:206 | The ranked population is a permutation of the population, sorted, still evaluated, and led by an individual at least as fit as any. Individuals of equal fitness keep their order from the population. |
| GeneticRun.EvaluateAll | src/solver/genetic.ts:202 | Every individual ends with the fitness and unit total of its genome; no genome changes. |
| GeneticRun.StartPopulation | src/solver/genetic.ts:201-202 | The initial population has `populationSize` individuals. Individual `p` has the genome `InitGenome` builds from draw `p`, and every individual is evaluated. |
| GeneticRun.MutateAndEvaluate | src/solver/genetic.ts:218-221 | The child's new genome is `MutateGenome` of its old genome under the draws, and the child is evaluated: its fitness and units are those of the new genome, which still fits its groups. |
| GeneticRun.Breed | src/solver/genetic.ts:215-221 | The two children are fresh, distinct and evaluated. Their genomes are `BredGenome` of the population's genomes and fitnesses under the pair's draws: the two tournament winners crossed in both orders, each cross then mutated. |
| GeneticRun.Offspring | src/solver/genetic.ts:217-221 | The two children of two evaluated parents are fresh, distinct and evaluated. Their genomes are the parents' genomes crossed in both orders, then mutated with each child's own draws. |
| GeneticRun.CopyElite | src/solver/genetic.ts:212 | The elite are fresh copies of the first `elitism` individuals, or of all of them when there are fewer. Each copy has its original's genome, fitness and units. |
| GeneticRun.NextGeneration | src/solver/genetic.ts:211-225 | The next population is full and evaluated. Its first `elitism` individuals are copies of the current ones, so with at least one elite it is led by a copy of the current best. After them come the children in breeding order: individual `elitism + j` is the first or second child (`j` even or odd) bred from the draws of pair `j / 2`. |
| GeneticRun.BreedPair | src/solver/genetic.ts:214-223 | One pass of the breeding loop keeps the individuals already placed and appends the pair's first child, then the second when there is room. The grown population stays evaluated, keeps its elite copies and stays in breeding order. |
| GeneticRun.AppendChild | src/solver/genetic.ts:222-223 | Appending an evaluated child of the next pair in breeding order keeps the population evaluated, its elite copies and its breeding order. |
| GeneticRun.Generation | src/solver/genetic.ts:205-225 | The history entry records the generation number and the best fitness of the population: no individual is fitter and some individual has it. The next population is full and evaluated, and with elitism its first individual keeps that fitness. |
| GeneticRun.Evolve | src/solver/genetic.ts:204-226 | After the loop the population is full and evaluated, the history has one entry per generation, numbered in order, and with elitism the recorded best never decreases. |
| GeneticRun.RunGenetic | src/solver/genetic.ts:197-229 | The result population has `populationSize` evaluated individuals, fittest first, `best` leads it, and the history has one entry per generation. With elitism the recorded best never decreases and never exceeds the final best. |
| GeneticRun.ConvertBestToSchedule | src/solver/genetic.ts:231-234 | The schedule is the best genome decoded against a fresh index of the given courses. |
| Grouping.RemoveSpacesShape | src/grouping.ts:16 | Removing whitespace leaves none, keeps the other characters in order, and changes nothing in a name without whitespace. |
| Grouping.NormalizeShape | src/grouping.ts:15-17 | A normalised name holds no whitespace and no upper-case ASCII letter. |
| Grouping.NormalizeIdempotent | src/grouping.ts:15-17 | Normalising twice is normalising once. |
| Grouping.BuildGroupIndex | src/grouping.ts:20-28 | The nested loop records every member name, normalised, under its group's id. |
| Grouping.GroupIndexKeys | src/grouping.ts:20-28 | The index holds exactly the normalised names of all groups' members. |
| Grouping.GroupIndexLastWins | src/grouping.ts:20-28 | A name listed by several groups maps to the id of the last group listing it. |
| Grouping.FileNames | src/grouping.ts:39-47 | The filing loop records the groups in the order first touched, and each group's bucket. It collects the names without a (truthy) group id in order. |
| Grouping.BucketContents | src/grouping.ts:39-47 | A group is touched exactly when some selected name files under it; its bucket then holds exactly those names, each once. |
| Grouping.GroupOrderDistinct | src/grouping.ts:39-51 | Every group id appears once in the key order. |
| Grouping.SinglesCount | src/grouping.ts:44-46 | The ungrouped list holds every ungrouped name as often as it was selected, and no grouped name. |
| Grouping.DedupeWithinGroups | src/grouping.ts:32-54 | The result is the group buckets in the order first touched, then one singleton per ungrouped name. |
| Grouping.DedupeShape | src/grouping.ts:48-53 | Bucket `i` is the bucket of the `i`-th group touched, and the buckets after them are the ungrouped names, one each. |
| Grouping.DedupeBucketsNonEmpty | src/grouping.ts:32-54 | Every bucket is non-empty, and no group bucket holds a name twice. |
| Grouping.DedupeCovers | src/grouping.ts:32-54 | Every selected name lands in some bucket. |
| Grouping.DedupeSingletons | src/grouping.ts:52 | An ungrouped name selected `c` times yields `c` singleton buckets, all after the group buckets. |
| Grouping.ExpandedStep | src/grouping.ts:61-65 | Option `k` of the next bucket contributes the deeper level's scenarios, ahead of the later options' scenarios. |
| Grouping.ExpandedEnds | src/grouping.ts:60 | A complete choice records its scenario once; trying past the last option records nothing. |
| Grouping.Dfs | src/grouping.ts:59-66 | One level of `dfs` appends to the results exactly the scenarios recorded from its partial choice, in order. |
| Grouping.ExpandGroups | src/grouping.ts:57-69 | `expandGroups` returns the expansion of the buckets. |
| Grouping.ExpansionCount | src/grouping.ts:57-69 | There are as many scenarios as the product of the bucket sizes: one (empty) for no buckets, none when some bucket is empty. |
| Grouping.ExpansionContents | src/grouping.ts:57-69 | Each scenario takes one name from each bucket, in bucket order. Every way of doing so is recorded, in lexicographic order of option indices. |
| Grouping.GenerateSelectionScenarios | src/grouping.ts:72-75 | The scenarios are the expansion of the de-duplicated buckets. |
| Grouping.ExpansionExample | src/grouping.ts:77-80 | The buckets `[[m1, m2], [p]]` expand to `[m1, p]` then `[m2, p]`. |
| Grouping.DedupeExample | src/grouping.ts:77-80 | Selecting both names of a two-name group and an ungrouped name yields the group's bucket, then the name's singleton. |
| Grouping.ScenariosExample | src/grouping.ts:77-80 | The usage example: selecting both names of a two-name group and a third, ungrouped name yields two scenarios, one per group member, each with the third name. |
| Enumeration.EnumerateSound | src/solver.ts:39-57 | Every recorded choice had each of its options, from the current position on, admitted after the options before it. |
| Enumeration.EnumerateComplete | src/solver.ts:39-57 | Every complete, in-range choice that extends the partial choice, with every option admitted, is recorded. |
| Enumeration.EnumerateMembers | src/solver.ts:39-57 | The search records exactly the complete, in-range, fully admitted choices that extend the partial choice. |
| Enumeration.EnumerateSorted | src/solver.ts:39-57 | Choices are recorded in strictly increasing lexicographic order, so none twice. |
| Enumeration.EnumerateCount | src/grouping.ts:59-66 | With every option admitted, the number of choices recorded is the product of the remaining option counts. |
| Enumeration.ProductOfAll | src/grouping.ts:57-69 | With every option admitted, a whole search records the product of all option counts. |
| Enumeration.NoOptionsNoChoices | src/solver.ts:44 | A position with no options at all leaves nothing to record. |
| Text.TrimStartSpec | src/excelUtils.ts:109 | Trimming the start drops exactly the leading whitespace. |
| Text.TrimEndSpec | src/excelUtils.ts:109 | Trimming the end drops exactly the trailing whitespace. |
| Text.TrimSpec | src/excelUtils.ts:109 | A trimmed string is no longer than the original, starts and ends with non-whitespace, and holds only characters of the original. |
| Text.TrimEmpty | src/excelUtils.ts:25 | `s.trim() === ''` holds exactly for strings made of whitespace only. |
| Text.ContainsAt | src/excelUtils.ts:50-57 | `includes` holds exactly when the pattern occurs at some position. |
| Text.IndexOfSpec | src/excelUtils.ts:145 | `indexOf` finds the first occurrence, and nothing exactly when there is no occurrence. |
| Text.SplitJoin | src/excelUtils.ts:99 | Joining the pieces of a split with the separator gives back the original string. |
| Text.ToLowerChars | src/grouping.ts:16 | Lower-casing keeps the length and lower-cases character by character. |
| ExcelImport.UnderscoreSearch | src/excelUtils.ts:145 | The first `_` is found, and none exactly when the cell has no `_`. |
| ExcelImport.ExtractCourseCodeDefault | src/excelUtils.ts:152-155 | A cell without `_` is all course code, in section `01`. |
| ExcelImport.ExtractCourseCodeRoundTrip | src/excelUtils.ts:144-156 | A cell written as code, `_`, section and possibly more `_`-separated text reads back as that code and that section. |
| ExcelImport.FindDayFirst | src/excelUtils.ts:48-60 | A found day is mentioned in the text, and no day checked earlier is. |
| ExcelImport.FindDayNone | src/excelUtils.ts:48-60 | No day is found exactly when the text mentions no weekday at all, that is, when it holds neither `شنبه` nor `جمعه`. |
| ExcelImport.ShanbeInside | src/excelUtils.ts:50-57 | Every weekday spelling except Friday's holds `شنبه`, so the Saturday test must come last. |
| ExcelImport.ClockAt | src/excelUtils.ts:123 | A match of `\d{1,2}:\d{2}` spans four or five characters inside the text. |
| ExcelImport.FirstRangeLeftmost | src/excelUtils.ts:123 | The time pattern search finds the leftmost match, and nothing only when no position matches. |
| ExcelImport.RangeShape | src/excelUtils.ts:123 | Both captured times are clock texts, and the match is their text joined by `-`. |
| ExcelImport.OneDigitHourAccepted | src/excelUtils.ts:123 | `8:00-9:30` matches, capturing the one-digit-hour times `8:00` and `9:30`. |
| ExcelImport.ParseScheduleFromText | src/excelUtils.ts:21-141 | Blank text gives no slots. Text without the marker goes to the alternative parser. Otherwise the result is the slots of the segments after the first. |
| ExcelImport.ScanSegments | src/excelUtils.ts:108-137 | The segment loop collects each segment's slot, in segment order. |
| ExcelImport.ReadSegment | src/excelUtils.ts:109-136 | A trimmed segment yields a slot only when it names a day and holds a time range. |
| ExcelImport.BlankTextNoSlots | src/excelUtils.ts:25-28 | Empty or whitespace-only text yields no slots. |
| ExcelImport.SegmentSlotsSound | src/excelUtils.ts:108-137 | There are no more slots than segments, and every slot is the slot read from one of the segments. |
| ExcelImport.SegmentSlotMeaning | src/excelUtils.ts:113-133 | A slot names a day its segment mentions, with no earlier-checked day mentioned, and a time range matched in the segment. |
| ExcelImport.FindIndexSpec | src/excelUtils.ts:220 | `findIndex` gives the first position holding the slot, and -1 when no position does. |
| ExcelImport.KeepFirstOrder | src/excelUtils.ts:219-221 | The filter over a prefix keeps exactly that prefix's distinct slots, in the order of their first occurrences. |
| ExcelImport.UniqueScheduleSpec | src/excelUtils.ts:219-221 | The de-duplicated schedule holds every slot of the schedule, each once, in the order of their first occurrences. |
| ExcelImport.UniqueScheduleKeepsDistinct | src/excelUtils.ts:219-221 | A schedule without repeated slots is kept as it is. |
| ExcelImport.DigitPrefixLongest | src/excelUtils.ts:184 | The digits read are the longest prefix of digits: they are followed by a non-digit or by nothing. |
| ExcelImport.ParseIntOrZeroSpec | src/excelUtils.ts:184 | A cell of digits reads as its decimal value, and a cell starting with neither whitespace, a sign nor a digit reads as 0. |
| ExcelImport.ParseExcelToCourses | src/excelUtils.ts:170-243 | The row loop folds the rows after the header into the course map, one row at a time. |
| ExcelImport.ReadRow | src/excelUtils.ts:176-242 | A short row changes nothing. A kept row creates its course from its own name and units when the code is new, then appends its section. |
| ExcelImport.BuildSection | src/excelUtils.ts:215-237 | A kept row's section has its section code, the professor with default attendance and quality, and its parsed, de-duplicated slots. |
| ExcelImport.CourseMapLookup | src/excelUtils.ts:175-243 | A code has a course exactly when some kept row carries it. Its name and units come from the first such row, with one section per such row, in row order. |
| ExcelImport.ShortRowSkipped | src/excelUtils.ts:176-179 | A row with fewer than 13 cells changes nothing. |
| ExcelImport.KeptRowAddsOneSection | src/excelUtils.ts:204-242 | Each kept row adds exactly one section, to the course of its code, and no course besides. |
| CatalogMerge.FindCodeSpec | src/index.ts:72 | `findIndex` gives the first position with the code, and -1 exactly when no course has it. |
| CatalogMerge.FindCodeAt | src/index.ts:72 | A position holding the code, with none before it, is the one `findIndex` returns. |
| CatalogMerge.MergeCourses | src/index.ts:70-80 | The loop applies the new courses in order, each replacing the first stored course with its code or being appended. |
| CatalogMerge.UpsertSpec | src/index.ts:72-79 | One pass keeps every course with another code in place. It grows the list by one exactly when the code is new, and leaves the new course as the first with its code (at the old position when present). |
| CatalogMerge.UpsertKeeps | src/index.ts:72-79 | One pass never shrinks the list and keeps every course with another code in place. |
| CatalogMerge.UpsertFinds | src/index.ts:72-79 | After one pass the new course is the first with its code, at the old position when the code was present. |
| CatalogMerge.MergeCodes | src/index.ts:70-80 | The merged list holds the stored codes and the new codes, and no other. |
| CatalogMerge.MergeLength | src/index.ts:70-80 | The list grows by one for each distinct new code that was not stored before. |
| CatalogMerge.MergeKeepsUntouched | src/index.ts:70-80 | A stored course whose code no new course carries stays at its index, unchanged. |
| CatalogMerge.MergeLastWins | src/index.ts:70-80 | Every new code ends up in the list, and the course found under it is the last new course with that code. |

## Left out

- `loadData`, the file reads and writes of the save handler, `saveCoursesToJson` and the reading of the workbook are I/O. The model takes the catalog, the sheet's rows (cells as text) and the stored courses as parameters.
- `Solver.GetRankedSchedules`: the catalog is a parameter rather than the result of `loadData`.
- `parseAlternativeFormat` is not part of this model. `parseScheduleFromText` receives it as a function parameter, used when the lesson marker is missing.
- `console.log` calls are left out.
- The `try`/`catch` around `parseExcelToCourses` is left out. The modelled steps cannot throw on text cells; the error path it rethrows for numeric cells is described on the `ExcelImport.Row` line.
- The `notes` field of an imported section is left out, as are the row fields the code reads but never uses (practical units, capacity, enrolment, waiting list, gender, employment, responsibility).
- `ExcelImport.ParseExcelToCourses`: returns the course map, not `Object.values(courseMap)`. JavaScript lists integer-like keys, such as numeric course codes, in ascending numeric order before the others, and that order is not modelled.
- `Grouping.DedupeWithinGroups`: `for (const gid in grouped)` is modelled as the order in which groups were first touched. JavaScript moves integer-like group ids to the front in numeric order, which is not modelled.
- Keys that collide with `Object.prototype` members (a course code or group name such as `constructor`) behave specially in JavaScript records. Records are modelled as plain maps.
- `Text.ToLower` / `Text.ToLowerChars`: only ASCII letters are lower-cased, one character for one, so the length is always kept. JavaScript's full Unicode case mapping, which can change the length ('İ' becomes two code units), is left out; Persian letters have no case.
- `TimeModel.NumberOf` (JavaScript unary `+`) accepts only optional surrounding whitespace and decimal digits. Signs, decimal points, exponents, hexadecimal and `Infinity` are read as not-a-number. Clock fields from the importer are digits only.
- `ExcelImport.Row` holds the cells up to the last non-empty one. The reader drops trailing empty cells, so a row whose last columns are empty is shorter than 13 cells and is skipped. Cells are text. The reader returns a numeric cell as a number: in column A (course code) the source then throws at `courseCodeGroup.split` (src/excelUtils.ts:145), in column L (time and place) at `.trim()` (src/excelUtils.ts:25), and the `catch` rethrows (src/excelUtils.ts:248-250), so the whole import is rejected; the model reads such a cell as its text and imports the row. A cell holding the number 0, which `row[i] || ''` turns into "", is not modelled either.
- `ExcelImport.ParseIntOrZero` reads the decimal digits after an optional sign. `parseInt`'s hexadecimal `0x` prefix is not modelled.
- Random draws are explicit parameters. Their distribution is not modelled, nor the number and order of `Math.random()` calls.
- `Genetic.Shuffle`: `sort(() => Math.random() - 0.5)` is modelled as some permutation chosen by the draws, not the engine's own sort.
- The `avg` field of the history is left out; it is a floating-point division. Fitness values are integers.
- `JSON.parse(JSON.stringify(...))` is modelled as copying the three fields of an individual.
- `GeneticRun.RunGenetic` requires `populationSize` of at least 1. With an empty population the source throws on `population[0].fitness` in the first generation (src/solver/genetic.ts:207); with no generations it returns an undefined `best` and empty history and population (src/solver/genetic.ts:227-228), which the model does not represent.
- `Genetic.Crossover` requires parents of equal genome length, and `Genetic.Mutate` requires a group for every gene. Every genome the run creates has one gene per group.
- The weighted user preferences of `GAInput` are left out. They reach only arguments that `calculateScore` ignores.
- `Solver.Backtrack` and `Grouping.Dfs` carry the partial timetable by value. The source pushes and pops one shared array; the recorded copies are the same.
- `GeneticRun.Evolve` and the methods it calls state their invariants with a ghost fitness function that equals the fitness on every genome. `GeneticRun.RunGenetic` ties it to `Genetic.FitnessOf`.
