/** The genetic solver's building blocks: genomes with one gene per course group, their decoding
    into a timetable, the unit total, the minute-based conflict penalty, the fitness, and the
    random initialisation, tournament, crossover and mutation steps. Every `Math.random()` call
    is an explicit draw in [0, 1) handed in by the caller. */
module Genetic {
  import opened Types
  import opened Sums
  import opened Keyed
  import opened TimeModel
  import Scoring
  import Solver

  // ----- Draws -----

  /** A value of `Math.random()`. */
  type Unit = r: real | 0.0 <= r < 1.0

  /** `Math.floor(r * n)`: an index below `n`. */
  function Pick(r: Unit, n: nat): (i: nat)
    requires n > 0
    ensures i < n
  {
    PickBounds(r, n);
    (r * n as real).Floor
  }

  lemma PickBounds(r: Unit, n: nat)
    requires n > 0
    ensures 0.0 <= r * n as real < n as real
  {
    assert r * n as real <= 1.0 * n as real - (1.0 - r) * n as real;
  }

  /** A draw from a list that may run short; missing draws read as 0. */
  function DrawAt(draws: seq<Unit>, i: nat): Unit
  {
    if i < |draws| then draws[i] else 0.0
  }

  /** `[...xs].sort(() => Math.random() - 0.5)`: some reordering of `xs`, here the one obtained
      by inserting each element at a drawn position. */
  function Shuffle<T>(xs: seq<T>, draws: seq<Unit>): (r: seq<T>)
    ensures |r| == |xs| && multiset(r) == multiset(xs)
  {
    if xs == [] then []
    else
      var n := |xs| - 1;
      var rest := Shuffle(xs[..n], draws);
      var p := Pick(DrawAt(draws, n), n + 1);
      assert xs == xs[..n] + [xs[n]];
      assert rest == rest[..p] + rest[p..];
      rest[..p] + [xs[n]] + rest[p..]
  }

  // ----- Representation -----

  datatype SelectedSection = SelectedSection(courseCode: string, sectionCode: string)

  /** A gene: the course and section chosen for one group, or nothing. */
  type Gene = Option<SelectedSection>

  datatype CourseGroup = CourseGroup(courseCodes: seq<string>)

  /** A member of the population. `mutate` rewrites genes in place and `fitness` stores the
      unit total, so an individual is an object. */
  class Individual {
    var genome: seq<Gene>
    var fitness: int
    var units: int

    /** `{ genome, fitness: 0, units: 0 }` */
    constructor (genome: seq<Gene>)
      ensures this.genome == genome && fitness == 0 && units == 0
    {
      this.genome := genome;
      fitness := 0;
      units := 0;
    }

    /** `JSON.parse(JSON.stringify(other))`: a fresh individual with the same fields. */
    constructor Copy(other: Individual)
      ensures genome == other.genome && fitness == other.fitness && units == other.units
    {
      genome := other.genome;
      fitness := other.fitness;
      units := other.units;
    }
  }

  // ----- Course index -----

  function CourseCodeFn(): Course -> string
  {
    (c: Course) => c.courseCode
  }

  /** `buildCourseIndex`: every course under its code, a later course replacing an earlier one. */
  function CourseIndex(courses: seq<Course>): map<string, Course>
  {
    IndexBy(courses, CourseCodeFn())
  }

  /** Every course of the index is a catalog course stored under its own code. */
  lemma CourseIndexStored(courses: seq<Course>)
    ensures WellKeyed(CourseIndex(courses))
    ensures forall k :: k in CourseIndex(courses) ==> CourseIndex(courses)[k] in courses
  {
    IndexByStored(courses, CourseCodeFn());
  }

  method BuildCourseIndex(courses: seq<Course>) returns (idx: map<string, Course>)
    ensures idx == CourseIndex(courses)
  {
    idx := map[];
    for i := 0 to |courses|
      invariant idx == IndexBy(courses[..i], CourseCodeFn())
    {
      assert courses[..i + 1][..i] == courses[..i];
      idx := idx[courses[i].courseCode := courses[i]];
    }
    assert courses[..|courses|] == courses;
  }

  /** The index holds every course code of the catalog, each mapped to the last course given
      with that code. */
  lemma CourseIndexContents(courses: seq<Course>, i: nat)
    requires i < |courses|
    ensures courses[i].courseCode in CourseIndex(courses)
    ensures (forall j :: i < j < |courses| ==> courses[j].courseCode != courses[i].courseCode)
            ==> CourseIndex(courses)[courses[i].courseCode] == courses[i]
  {
    IndexByKeys(courses, CourseCodeFn(), courses[i].courseCode);
    if forall j :: i < j < |courses| ==> courses[j].courseCode != courses[i].courseCode {
      IndexByLastWins(courses, CourseCodeFn(), courses[i].courseCode, i);
    }
  }

  /** Every course stored under its own code. */
  predicate WellKeyed(idx: map<string, Course>)
  {
    forall k :: k in idx ==> idx[k].courseCode == k
  }

  // ----- Decoding -----

  /** `sections.find(s => s.sectionCode === code)`: the first section with that code. */
  function FindSection(sections: seq<Section>, code: string): (r: Option<Section>)
    ensures r.None? <==> forall i :: 0 <= i < |sections| ==> sections[i].sectionCode != code
    ensures r.Some? ==> exists i :: 0 <= i < |sections| && sections[i] == r.value && r.value.sectionCode == code
                                    && forall j :: 0 <= j < i ==> sections[j].sectionCode != code
  {
    if sections == [] then None
    else if sections[0].sectionCode == code then Some(sections[0])
    else
      var r := FindSection(sections[1..], code);
      if r.Some? then
        var i :| 0 <= i < |sections[1..]| && sections[1..][i] == r.value && r.value.sectionCode == code
                 && forall j :: 0 <= j < i ==> sections[1..][j].sectionCode != code;
        assert sections[i + 1] == r.value;
        r
      else
        r
  }

  /** What one gene contributes to the timetable: nothing for an empty gene, an unknown course
      code or an unknown section code. */
  function Resolve(gene: Gene, idx: map<string, Course>): Option<ScheduleSection>
  {
    if gene.None? || gene.value.courseCode !in idx then None
    else
      var course := idx[gene.value.courseCode];
      match FindSection(course.sections, gene.value.sectionCode)
      case None => None
      case Some(sec) => Some(EntryOf(course, sec))
  }

  /** `genomeToSchedule` as a value. */
  function Decode(genome: seq<Gene>, idx: map<string, Course>): seq<ScheduleSection>
  {
    if genome == [] then []
    else
      var n := |genome| - 1;
      var r := Resolve(genome[n], idx);
      Decode(genome[..n], idx) + (if r.Some? then [r.value] else [])
  }

  /** `genomeToSchedule`: walks the genes in order and keeps the resolvable ones. */
  method GenomeToSchedule(genome: seq<Gene>, idx: map<string, Course>) returns (schedule: seq<ScheduleSection>)
    ensures schedule == Decode(genome, idx)
  {
    schedule := [];
    for i := 0 to |genome|
      invariant schedule == Decode(genome[..i], idx)
    {
      assert genome[..i + 1][..i] == genome[..i];
      var gene := genome[i];
      if gene.None? {
        continue;
      }
      if gene.value.courseCode !in idx {
        continue;
      }
      var course := idx[gene.value.courseCode];
      var section := FindSection(course.sections, gene.value.sectionCode);
      if section.None? {
        continue;
      }
      schedule := schedule + [EntryOf(course, section.value)];
    }
    assert genome[..|genome|] == genome;
  }

  /** Decoding keeps gene order: the timetable of two runs of genes is the two timetables. */
  lemma {:induction false} DecodeAppend(g1: seq<Gene>, g2: seq<Gene>, idx: map<string, Course>)
    ensures Decode(g1 + g2, idx) == Decode(g1, idx) + Decode(g2, idx)
  {
    if g2 == [] {
      assert g1 + g2 == g1;
    } else {
      var n := |g2| - 1;
      assert (g1 + g2)[..|g1 + g2| - 1] == g1 + g2[..n];
      DecodeAppend(g1, g2[..n], idx);
    }
  }

  /** 1 for an occupied gene. */
  function OccupiedFn(): Gene -> int
  {
    (g: Gene) => if g.Some? then 1 else 0
  }

  /** Each timetable entry is the resolution of one occupied gene, so there are at most as
      many entries as occupied genes, and a genome of resolvable genes loses none. */
  lemma {:induction false} DecodeLength(genome: seq<Gene>, idx: map<string, Course>)
    ensures |Decode(genome, idx)| <= Sum(genome, OccupiedFn())
    ensures (forall i :: 0 <= i < |genome| ==> genome[i].None? || Resolve(genome[i], idx).Some?)
            ==> |Decode(genome, idx)| == Sum(genome, OccupiedFn())
  {
    if genome != [] {
      var n := |genome| - 1;
      DecodeLength(genome[..n], idx);
    }
  }

  // ----- Units -----

  /** `c.units || 0` for an occupied gene whose course is known, else 0. */
  function GeneUnitsFn(idx: map<string, Course>): Gene -> int
  {
    (g: Gene) => if g.Some? && g.value.courseCode in idx then idx[g.value.courseCode].units else 0
  }

  function Units(genome: seq<Gene>, idx: map<string, Course>): int
  {
    Sum(genome, GeneUnitsFn(idx))
  }

  /** `calcUnits` */
  method CalcUnits(genome: seq<Gene>, idx: map<string, Course>) returns (total: int)
    ensures total == Units(genome, idx)
  {
    total := 0;
    for i := 0 to |genome|
      invariant total == Sum(genome[..i], GeneUnitsFn(idx))
    {
      SumSnoc(genome, i, GeneUnitsFn(idx));
      var gene := genome[i];
      if gene.Some? {
        if gene.value.courseCode in idx {
          total := total + idx[gene.value.courseCode].units;
        }
      }
    }
    assert genome[..|genome|] == genome;
  }

  /** The units of an entry's course. */
  function EntryUnitsFn(idx: map<string, Course>): ScheduleSection -> int
  {
    (e: ScheduleSection) => if e.courseCode in idx then idx[e.courseCode].units else 0
  }

  /** Units of a known course whose section code is not among its sections. */
  function StaleUnitsFn(idx: map<string, Course>): Gene -> int
  {
    (g: Gene) => if g.Some? && g.value.courseCode in idx && Resolve(g, idx).None? then idx[g.value.courseCode].units else 0
  }

  /** The unit total counts every course of the timetable and, besides, every known course
      whose section code has gone missing, which the timetable leaves out. */
  lemma {:induction false} UnitsCountStaleSections(genome: seq<Gene>, idx: map<string, Course>)
    requires WellKeyed(idx)
    ensures Units(genome, idx) == Sum(Decode(genome, idx), EntryUnitsFn(idx)) + Sum(genome, StaleUnitsFn(idx))
  {
    if genome != [] {
      var n := |genome| - 1;
      var r := Resolve(genome[n], idx);
      UnitsCountStaleSections(genome[..n], idx);
      SumAppend(Decode(genome[..n], idx), if r.Some? then [r.value] else [], EntryUnitsFn(idx));
      if r.Some? {
        assert [r.value][..0] == [];
        assert r.value.courseCode == genome[n].value.courseCode;
      }
    }
  }

  // ----- Conflict penalty -----

  const ConflictWeight := 100000
  const UnitWeight := 5000

  /** 1 when `sb` overlaps `sa` in the minute test. */
  function ClashFn(sa: TimeSlot): TimeSlot -> int
  {
    (sb: TimeSlot) => if MinuteOverlap(sa, sb) then 1 else 0
  }

  /** How many slots of `bs` overlap `sa`. */
  function SlotRowFn(bs: seq<TimeSlot>): TimeSlot -> int
  {
    (sa: TimeSlot) => Sum(bs, ClashFn(sa))
  }

  /** How many slot pairs of two sections overlap. */
  function PairClashes(a: ScheduleSection, b: ScheduleSection): int
  {
    Sum(a.schedule, SlotRowFn(b.schedule))
  }

  function PairFn(a: ScheduleSection): ScheduleSection -> int
  {
    (b: ScheduleSection) => PairClashes(a, b)
  }

  /** Overlapping slot pairs between entry `i` and the entries after it. */
  function RowClashes(s: seq<ScheduleSection>, i: nat): int
    requires i < |s|
  {
    Sum(s[i + 1..], PairFn(s[i]))
  }

  /** Overlapping slot pairs between the first `n` entries and the entries after each. */
  function Rows(s: seq<ScheduleSection>, n: nat): int
    requires n <= |s|
  {
    if n == 0 then 0 else Rows(s, n - 1) + RowClashes(s, n - 1)
  }

  /** Overlapping slot pairs taken from different entries. */
  function ClashCount(s: seq<ScheduleSection>): int
  {
    Rows(s, |s|)
  }

  /** `conflictPenalty`: 100000 for every overlapping slot pair of two different entries, each
      time string parsed as hours times 60 plus minutes. */
  method ConflictPenalty(schedule: seq<ScheduleSection>) returns (penalty: int)
    ensures penalty == ConflictWeight * ClashCount(schedule)
  {
    penalty := 0;
    for i := 0 to |schedule|
      invariant penalty == ConflictWeight * Rows(schedule, i)
    {
      var row := RowPenalty(schedule, i);
      penalty := penalty + row;
    }
  }

  /** The second loop of `conflictPenalty`: entry `i` against every entry after it. */
  method RowPenalty(schedule: seq<ScheduleSection>, i: nat) returns (penalty: int)
    requires i < |schedule|
    ensures penalty == ConflictWeight * RowClashes(schedule, i)
  {
    penalty := 0;
    assert schedule[i + 1..i + 1] == [];
    for j := i + 1 to |schedule|
      invariant penalty == ConflictWeight * Sum(schedule[i + 1..j], PairFn(schedule[i]))
    {
      var pair := PairPenalty(schedule[i], schedule[j]);
      penalty := penalty + pair;
      RowSnoc(schedule, i, j);
    }
    assert schedule[i + 1..|schedule|] == schedule[i + 1..];
  }

  /** The two inner loops of `conflictPenalty`: every slot of `a` against every slot of `b`. */
  method PairPenalty(a: ScheduleSection, b: ScheduleSection) returns (penalty: int)
    ensures penalty == ConflictWeight * PairClashes(a, b)
  {
    penalty := 0;
    assert a.schedule[..0] == [];
    for x := 0 to |a.schedule|
      invariant penalty == ConflictWeight * Sum(a.schedule[..x], SlotRowFn(b.schedule))
    {
      var sa := a.schedule[x];
      var slot := SlotPenalty(sa, b.schedule);
      penalty := penalty + slot;
      SumSnoc(a.schedule, x, SlotRowFn(b.schedule));
    }
    assert a.schedule[..|a.schedule|] == a.schedule;
  }

  /** The innermost loop: one slot of `a` against every slot of `b`. */
  method SlotPenalty(sa: TimeSlot, bs: seq<TimeSlot>) returns (penalty: int)
    ensures penalty == ConflictWeight * Sum(bs, ClashFn(sa))
  {
    penalty := 0;
    assert bs[..0] == [];
    for y := 0 to |bs|
      invariant penalty == ConflictWeight * Sum(bs[..y], ClashFn(sa))
    {
      var sb := bs[y];
      SumSnoc(bs, y, ClashFn(sa));
      if sa.day == sb.day {
        var aStart, aEnd := MinuteOf(sa.start), MinuteOf(sa.end);
        var bStart, bEnd := MinuteOf(sb.start), MinuteOf(sb.end);
        if aStart.Some? && aEnd.Some? && bStart.Some? && bEnd.Some?
           && aStart.value < bEnd.value && aEnd.value > bStart.value {
          penalty := penalty + ConflictWeight;
        }
      }
    }
    assert bs[..|bs|] == bs;
  }

  lemma RowSnoc(s: seq<ScheduleSection>, i: nat, j: nat)
    requires i < j < |s|
    ensures Sum(s[i + 1..j + 1], PairFn(s[i])) == Sum(s[i + 1..j], PairFn(s[i])) + PairClashes(s[i], s[j])
  {
    assert s[i + 1..j + 1][..j - i - 1] == s[i + 1..j];
  }

  /** No slot of `a` overlaps a slot of `b` in the minute test. */
  predicate NoMinuteClash(a: ScheduleSection, b: ScheduleSection)
  {
    forall x, y :: 0 <= x < |a.schedule| && 0 <= y < |b.schedule| ==> !MinuteOverlap(a.schedule[x], b.schedule[y])
  }

  /** No two different entries have overlapping slots in the minute test. */
  predicate MinuteConflictFree(s: seq<ScheduleSection>)
  {
    forall i, j :: 0 <= i < j < |s| ==> NoMinuteClash(s[i], s[j])
  }

  lemma PairZero(a: ScheduleSection, b: ScheduleSection)
    ensures PairClashes(a, b) >= 0
    ensures PairClashes(a, b) == 0 <==> NoMinuteClash(a, b)
  {
    forall x | 0 <= x < |a.schedule|
      ensures SlotRowFn(b.schedule)(a.schedule[x]) >= 0
      ensures SlotRowFn(b.schedule)(a.schedule[x]) == 0
              <==> forall y :: 0 <= y < |b.schedule| ==> !MinuteOverlap(a.schedule[x], b.schedule[y])
    {
      SumZero(b.schedule, ClashFn(a.schedule[x]));
    }
    SumZero(a.schedule, SlotRowFn(b.schedule));
  }

  lemma RowZero(s: seq<ScheduleSection>, i: nat)
    requires i < |s|
    ensures RowClashes(s, i) >= 0
    ensures RowClashes(s, i) == 0 <==> RowFree(s, i)
  {
    var rest := s[i + 1..];
    forall k | 0 <= k < |rest|
      ensures PairFn(s[i])(rest[k]) >= 0
      ensures PairFn(s[i])(rest[k]) == 0 <==> NoMinuteClash(s[i], s[i + 1 + k])
    {
      PairZero(s[i], rest[k]);
    }
    SumZero(rest, PairFn(s[i]));
    if forall k :: 0 <= k < |rest| ==> PairFn(s[i])(rest[k]) == 0 {
      forall j | i < j < |s|
        ensures NoMinuteClash(s[i], s[j])
      {
        assert PairFn(s[i])(rest[j - i - 1]) == 0;
      }
    }
  }

  /** Entry `i` overlaps none of the entries after it. */
  predicate RowFree(s: seq<ScheduleSection>, i: nat)
    requires i < |s|
  {
    forall j :: i < j < |s| ==> NoMinuteClash(s[i], s[j])
  }

  lemma {:induction false} RowsZero(s: seq<ScheduleSection>, n: nat)
    requires n <= |s|
    ensures Rows(s, n) >= 0
    ensures Rows(s, n) == 0 <==> forall i :: 0 <= i < n ==> RowFree(s, i)
  {
    if n > 0 {
      RowsZero(s, n - 1);
      RowZero(s, n - 1);
      RowsZeroStep(s, n);
      AllRowsSplit(s, n);
    }
  }

  lemma RowsZeroStep(s: seq<ScheduleSection>, n: nat)
    requires 0 < n <= |s|
    requires Rows(s, n - 1) >= 0 && RowClashes(s, n - 1) >= 0
    ensures Rows(s, n) >= 0
    ensures Rows(s, n) == 0 <==> Rows(s, n - 1) == 0 && RowClashes(s, n - 1) == 0
  {
  }

  lemma AllRowsSplit(s: seq<ScheduleSection>, n: nat)
    requires 0 < n <= |s|
    ensures (forall i :: 0 <= i < n ==> RowFree(s, i))
            <==> (forall i :: 0 <= i < n - 1 ==> RowFree(s, i)) && RowFree(s, n - 1)
  {
    if (forall i :: 0 <= i < n - 1 ==> RowFree(s, i)) && RowFree(s, n - 1) {
      forall i | 0 <= i < n
        ensures RowFree(s, i)
      {
        if i < n - 1 {
          assert 0 <= i < n - 1;
        }
      }
    }
  }

  /** The penalty is never negative, and it is zero exactly when no two different entries have
      overlapping slots. */
  lemma PenaltyZeroIffConflictFree(s: seq<ScheduleSection>)
    ensures ClashCount(s) >= 0
    ensures ClashCount(s) == 0 <==> MinuteConflictFree(s)
  {
    RowsZero(s, |s|);
    if MinuteConflictFree(s) {
      forall i | 0 <= i < |s|
        ensures RowFree(s, i)
      {
      }
    }
    if forall i :: 0 <= i < |s| ==> RowFree(s, i) {
      forall i, j | 0 <= i < j < |s|
        ensures NoMinuteClash(s[i], s[j])
      {
        assert RowFree(s, i);
      }
    }
  }

  /** Every slot of the timetable has zero-padded "HH:MM" times. */
  predicate PaddedTimes(s: seq<ScheduleSection>)
  {
    forall i, x :: 0 <= i < |s| && 0 <= x < |s[i].schedule| ==>
      IsHHMM(s[i].schedule[x].start) && IsHHMM(s[i].schedule[x].end)
  }

  /** On zero-padded times the penalty is zero exactly when the exhaustive solver would accept
      the timetable as conflict-free. */
  lemma PenaltyAgreesWithSolver(s: seq<ScheduleSection>)
    requires PaddedTimes(s)
    ensures ClashCount(s) == 0 <==> Solver.ConflictFree(s)
  {
    PenaltyZeroIffConflictFree(s);
    forall i, j | 0 <= i < j < |s|
      ensures NoMinuteClash(s[i], s[j]) <==> !Solver.SlotsClash(s[i].schedule, s[j].schedule)
    {
      PairTestsAgree(s, i, j);
    }
  }

  lemma PairTestsAgree(s: seq<ScheduleSection>, i: nat, j: nat)
    requires PaddedTimes(s) && i < |s| && j < |s|
    ensures NoMinuteClash(s[i], s[j]) <==> !Solver.SlotsClash(s[i].schedule, s[j].schedule)
  {
    var a, b := s[i].schedule, s[j].schedule;
    forall x, y | 0 <= x < |a| && 0 <= y < |b|
      ensures MinuteOverlap(a[x], b[y]) == TimeOverlap(a[x], b[y])
    {
      assert IsHHMM(a[x].start) && IsHHMM(a[x].end);
      assert IsHHMM(b[y].start) && IsHHMM(b[y].end);
      OverlapTestsAgree(a[x], b[y]);
    }
  }

  // ----- Fitness -----

  /** The unit penalties: 5000 per unit below `minUnits` (0 when absent) and 5000 per unit above
      `maxUnits` (no bound when absent). */
  function UnitPenalty(units: int, minUnits: Option<int>, maxUnits: Option<int>): (p: int)
    ensures p >= 0
    ensures p == 0 <==> units >= (if minUnits.Some? then minUnits.value else 0)
                        && (maxUnits.None? || units <= maxUnits.value)
  {
    var lo := if minUnits.Some? then minUnits.value else 0;
    (if units < lo then (lo - units) * UnitWeight else 0)
    + (if maxUnits.Some? && units > maxUnits.value then (units - maxUnits.value) * UnitWeight else 0)
  }

  /** The fitness of a genome: the score of its timetable less the conflict and unit penalties. */
  function FitnessOf(genome: seq<Gene>, idx: map<string, Course>, preferences: Option<seq<Scoring.UserPreference>>,
                     minUnits: Option<int>, maxUnits: Option<int>): int
  {
    var schedule := Decode(genome, idx);
    Scoring.PreferenceScore(schedule, preferences) - ConflictWeight * ClashCount(schedule)
    - UnitPenalty(Units(genome, idx), minUnits, maxUnits)
  }

  /** `fitness`: decodes, totals the units, adds up the penalties, scores the timetable and
      stores the unit total in the individual. */
  method Fitness(ind: Individual, idx: map<string, Course>, preferences: Option<seq<Scoring.UserPreference>>,
                 minUnits: Option<int>, maxUnits: Option<int>) returns (f: int)
    modifies ind
    ensures ind.genome == old(ind.genome) && ind.fitness == old(ind.fitness)
    ensures ind.units == Units(ind.genome, idx)
    ensures f == FitnessOf(ind.genome, idx, preferences, minUnits, maxUnits)
  {
    var schedule := GenomeToSchedule(ind.genome, idx);
    var units := CalcUnits(ind.genome, idx);
    var penalty := ConflictPenalty(schedule);
    var lo := if minUnits.Some? then minUnits.value else 0;
    if units < lo {
      penalty := penalty + (lo - units) * UnitWeight;
    }
    if maxUnits.Some? && units > maxUnits.value {
      penalty := penalty + (units - maxUnits.value) * UnitWeight;
    }
    assert penalty == ConflictWeight * ClashCount(schedule) + UnitPenalty(units, minUnits, maxUnits);
    var raw := Scoring.CalculateScore(schedule, preferences);
    ind.units := units;
    f := raw - penalty;
    assert f == FitnessOf(ind.genome, idx, preferences, minUnits, maxUnits) by {
      assert schedule == Decode(ind.genome, idx) && units == Units(ind.genome, idx);
    }
  }

  /** The fitness never exceeds the timetable's score, and equals it exactly when the timetable
      has no overlaps and the units are within bounds. */
  lemma FitnessBelowScore(genome: seq<Gene>, idx: map<string, Course>, preferences: Option<seq<Scoring.UserPreference>>,
                          minUnits: Option<int>, maxUnits: Option<int>)
    ensures FitnessOf(genome, idx, preferences, minUnits, maxUnits) <= Scoring.PreferenceScore(Decode(genome, idx), preferences)
    ensures FitnessOf(genome, idx, preferences, minUnits, maxUnits) == Scoring.PreferenceScore(Decode(genome, idx), preferences)
            <==> MinuteConflictFree(Decode(genome, idx)) && UnitPenalty(Units(genome, idx), minUnits, maxUnits) == 0
  {
    PenaltyZeroIffConflictFree(Decode(genome, idx));
  }

  // ----- Genes that fit their group -----

  /** A course of the index with at least one section. */
  predicate Offered(idx: map<string, Course>, code: string)
  {
    code in idx && |idx[code].sections| > 0
  }

  /** The course `code` has a section `sectionCode`. */
  predicate HasSection(idx: map<string, Course>, code: string, sectionCode: string)
  {
    code in idx && exists s :: s in idx[code].sections && s.sectionCode == sectionCode
  }

  /** A gene is empty, or names a course of its group together with one of that course's
      sections. */
  predicate GeneFits(gene: Gene, group: CourseGroup, idx: map<string, Course>)
  {
    gene.None?
    || (gene.value.courseCode in group.courseCodes && HasSection(idx, gene.value.courseCode, gene.value.sectionCode))
  }

  /** One gene per group, each fitting its group. */
  predicate GenomeFits(genome: seq<Gene>, groups: seq<CourseGroup>, idx: map<string, Course>)
  {
    |genome| == |groups| && forall i :: 0 <= i < |genome| ==> GeneFits(genome[i], groups[i], idx)
  }

  /** A fitting gene always resolves, so decoding a fitting genome loses no occupied gene. */
  lemma FitGenomeDecodesFully(genome: seq<Gene>, groups: seq<CourseGroup>, idx: map<string, Course>)
    requires GenomeFits(genome, groups, idx)
    ensures |Decode(genome, idx)| == Sum(genome, OccupiedFn())
  {
    forall i | 0 <= i < |genome|
      ensures genome[i].None? || Resolve(genome[i], idx).Some?
    {
      if genome[i].Some? {
        var g := genome[i].value;
        assert GeneFits(genome[i], groups[i], idx);
        var s :| s in idx[g.courseCode].sections && s.sectionCode == g.sectionCode;
      }
    }
    DecodeLength(genome, idx);
  }

  // ----- Initialisation -----

  /** `Math.random() < 0.55` selects a course for a group. */
  const SelectRate: real := 0.55

  /** The draws behind one initial gene: whether to select, the shuffle of the group's codes and
      the section index. */
  datatype InitDraw = InitDraw(select: Unit, shuffle: seq<Unit>, pick: Unit)

  /** The first code of `codes` whose course is offered, with the drawn section of that course. */
  function FirstOffered(codes: seq<string>, idx: map<string, Course>, pick: Unit): (g: Gene)
    ensures g.None? <==> forall i :: 0 <= i < |codes| ==> !Offered(idx, codes[i])
    ensures g.Some? ==> g.value.courseCode in codes && HasSection(idx, g.value.courseCode, g.value.sectionCode)
    ensures g.Some? ==> exists i :: 0 <= i < |codes| && codes[i] == g.value.courseCode
                                    && forall j :: 0 <= j < i ==> !Offered(idx, codes[j])
  {
    if codes == [] then None
    else if Offered(idx, codes[0]) then
      var sections := idx[codes[0]].sections;
      var sec := sections[Pick(pick, |sections|)];
      assert sec in sections;
      Some(SelectedSection(codes[0], sec.sectionCode))
    else
      var g := FirstOffered(codes[1..], idx, pick);
      if g.Some? then
        var i :| 0 <= i < |codes[1..]| && codes[1..][i] == g.value.courseCode
                 && forall j :: 0 <= j < i ==> !Offered(idx, codes[1..][j]);
        assert codes[i + 1] == g.value.courseCode;
        g
      else
        assert forall i :: 1 <= i < |codes| ==> codes[i] == codes[1..][i - 1];
        g
  }

  /** The loop over the shuffled codes that stops at the first offered course. */
  method ChooseOffered(codes: seq<string>, idx: map<string, Course>, pick: Unit) returns (chosen: Gene)
    ensures chosen == FirstOffered(codes, idx, pick)
  {
    chosen := None;
    for i := 0 to |codes|
      invariant FirstOffered(codes[i..], idx, pick) == FirstOffered(codes, idx, pick)
    {
      var code := codes[i];
      if code in idx && |idx[code].sections| > 0 {
        var course := idx[code];
        var section := course.sections[Pick(pick, |course.sections|)];
        chosen := Some(SelectedSection(code, section.sectionCode));
        return;
      }
      assert codes[i..][1..] == codes[i + 1..];
    }
  }

  /** The initial gene of one group: nothing for an empty group, otherwise, when the draw
      selects, the first offered course of the shuffled codes. */
  function InitGene(group: CourseGroup, idx: map<string, Course>, d: InitDraw): Gene
  {
    if |group.courseCodes| == 0 then None
    else if d.select < SelectRate then FirstOffered(Shuffle(group.courseCodes, d.shuffle), idx, d.pick)
    else None
  }

  /** The initial genome of individual `p`. */
  function InitGenome(groups: seq<CourseGroup>, idx: map<string, Course>, p: nat, draws: (nat, nat) -> InitDraw): seq<Gene>
  {
    seq(|groups|, gi requires 0 <= gi < |groups| => InitGene(groups[gi], idx, draws(p, gi)))
  }

  /** Every initial gene fits its group. */
  lemma InitGenomeFits(groups: seq<CourseGroup>, idx: map<string, Course>, p: nat, draws: (nat, nat) -> InitDraw)
    ensures GenomeFits(InitGenome(groups, idx, p, draws), groups, idx)
  {
    forall gi | 0 <= gi < |groups|
      ensures GeneFits(InitGene(groups[gi], idx, draws(p, gi)), groups[gi], idx)
    {
      var group, d := groups[gi], draws(p, gi);
      if |group.courseCodes| > 0 && d.select < SelectRate {
        var shuffled := Shuffle(group.courseCodes, d.shuffle);
        var g := FirstOffered(shuffled, idx, d.pick);
        if g.Some? {
          assert g.value.courseCode in multiset(shuffled);
        }
      }
    }
  }

  /** A group whose courses are all unoffered, or an unselecting draw, starts empty; a selecting
      draw on a group with an offered course always fills the gene. */
  lemma InitGeneFilled(group: CourseGroup, idx: map<string, Course>, d: InitDraw)
    ensures InitGene(group, idx, d).Some?
            <==> d.select < SelectRate && exists c :: c in group.courseCodes && Offered(idx, c)
  {
    if |group.courseCodes| > 0 && d.select < SelectRate {
      var shuffled := Shuffle(group.courseCodes, d.shuffle);
      if exists c :: c in group.courseCodes && Offered(idx, c) {
        var c :| c in group.courseCodes && Offered(idx, c);
        assert c in multiset(shuffled);
        var i :| 0 <= i < |shuffled| && shuffled[i] == c;
      } else {
        forall i | 0 <= i < |shuffled|
          ensures !Offered(idx, shuffled[i])
        {
          assert shuffled[i] in multiset(group.courseCodes);
        }
      }
    }
  }

  /** `initializePopulation`: `popSize` new individuals, individual `p` taking its genes from
      the draws `draws(p, gi)`. */
  method InitializePopulation(popSize: nat, groups: seq<CourseGroup>, idx: map<string, Course>,
                              draws: (nat, nat) -> InitDraw) returns (population: seq<Individual>)
    ensures |population| == popSize
    ensures forall p :: 0 <= p < popSize ==> fresh(population[p])
    ensures forall p, q :: 0 <= p < q < popSize ==> population[p] != population[q]
    ensures forall p :: 0 <= p < popSize ==>
      population[p].genome == InitGenome(groups, idx, p, draws) && population[p].fitness == 0 && population[p].units == 0
  {
    population := [];
    for p := 0 to popSize
      invariant |population| == p
      invariant forall q :: 0 <= q < p ==> fresh(population[q])
      invariant forall q, r :: 0 <= q < r < p ==> population[q] != population[r]
      invariant forall q :: 0 <= q < p ==>
        population[q].genome == InitGenome(groups, idx, q, draws) && population[q].fitness == 0 && population[q].units == 0
    {
      var genome: seq<Gene> := [];
      for gi := 0 to |groups|
        invariant genome == InitGenome(groups, idx, p, draws)[..gi]
        modifies {}
      {
        var group := groups[gi];
        var d := draws(p, gi);
        var gene: Gene;
        if |group.courseCodes| == 0 {
          gene := None;
        } else if d.select < SelectRate {
          var shuffled := Shuffle(group.courseCodes, d.shuffle);
          gene := ChooseOffered(shuffled, idx, d.pick);
        } else {
          gene := None;
        }
        genome := genome + [gene];
      }
      assert genome == InitGenome(groups, idx, p, draws);
      var ind := new Individual(genome);
      population := population + [ind];
    }
  }

  // ----- Selection -----

  /** The default tournament size. */
  const TournamentSize: nat := 3

  /** The individual drawn for the `m`-th sample of a tournament. */
  function Sample(pop: seq<Individual>, draws: nat -> Unit, m: nat): Individual
    requires |pop| > 0
  {
    pop[Pick(draws(m), |pop|)]
  }

  /** The fitness of each individual, in order. */
  function Fitnesses(pop: seq<Individual>): (fits: seq<int>)
    reads pop
    ensures |fits| == |pop| && forall i :: 0 <= i < |pop| ==> fits[i] == pop[i].fitness
  {
    if pop == [] then [] else [pop[0].fitness] + Fitnesses(pop[1..])
  }

  /** The sample a tournament of the first `k` samples keeps, given the population's fitnesses:
      a later sample replaces the kept one only when strictly fitter. */
  function TournamentPick(fits: seq<int>, draws: nat -> Unit, k: nat): (m: nat)
    requires |fits| > 0 && k >= 1
    ensures m < k
  {
    if k == 1 then 0
    else
      var m := TournamentPick(fits, draws, k - 1);
      if fits[Pick(draws(k - 1), |fits|)] > fits[Pick(draws(m), |fits|)] then k - 1 else m
  }

  /** The position of the individual a tournament of `k` samples drawn by `draws` selects. */
  function WinnerIndex(fits: seq<int>, k: nat, draws: nat -> Unit): (w: nat)
    requires |fits| > 0 && k >= 1
    ensures w < |fits|
  {
    Pick(draws(TournamentPick(fits, draws, k)), |fits|)
  }

  /** The winner is at least as fit as every sample and strictly fitter than every earlier one. */
  lemma {:induction false} WinnerIsFittest(fits: seq<int>, k: nat, draws: nat -> Unit)
    requires |fits| > 0 && k >= 1
    ensures forall m :: 0 <= m < k ==> fits[Pick(draws(m), |fits|)] <= fits[WinnerIndex(fits, k, draws)]
    ensures forall m :: 0 <= m < TournamentPick(fits, draws, k) ==> fits[Pick(draws(m), |fits|)] < fits[WinnerIndex(fits, k, draws)]
  {
    if k > 1 {
      WinnerIsFittest(fits, k - 1, draws);
    }
  }

  /** `tournament`: draws `k` individuals and keeps the first of the fittest drawn. */
  method Tournament(pop: seq<Individual>, k: nat, draws: nat -> Unit) returns (best: Individual)
    requires |pop| > 0 && k >= 1
    ensures best == pop[WinnerIndex(Fitnesses(pop), k, draws)]
    ensures best in pop
    ensures forall m :: 0 <= m < k ==> Sample(pop, draws, m).fitness <= best.fitness
    ensures exists m :: 0 <= m < k && best == Sample(pop, draws, m)
                        && forall m' :: 0 <= m' < m ==> Sample(pop, draws, m').fitness < best.fitness
  {
    var winner: Individual? := null;
    ghost var at := 0;
    for i := 0 to k
      invariant i == 0 <==> winner == null
      invariant i > 0 ==> at == TournamentPick(Fitnesses(pop), draws, i) && winner == Sample(pop, draws, at)
      invariant i > 0 ==> forall m :: 0 <= m < i ==> Sample(pop, draws, m).fitness <= winner.fitness
      invariant i > 0 ==> forall m :: 0 <= m < at ==> Sample(pop, draws, m).fitness < winner.fitness
    {
      var cand := pop[Pick(draws(i), |pop|)];
      if winner == null || cand.fitness > winner.fitness {
        winner := cand;
        at := i;
      }
    }
    best := winner;
  }

  // ----- Crossover -----

  /** The one-point cross of `x` and `y`: the genes of `x` up to and including `point`, then the
      genes of `y`. */
  function Cross(x: seq<Gene>, y: seq<Gene>, point: nat): (c: seq<Gene>)
    requires |x| == |y|
    ensures |c| == |x|
  {
    seq(|x|, i requires 0 <= i < |x| => if i <= point then x[i] else y[i])
  }

  /** The cross is a prefix of one parent followed by the suffix of the other. */
  lemma CrossSplit(x: seq<Gene>, y: seq<Gene>, point: nat)
    requires |x| == |y| && point < |x|
    ensures Cross(x, y, point) == x[..point + 1] + y[point + 1..]
  {
  }

  /** Between them the two children keep both parents' genes at every position. */
  lemma CrossKeepsGenes(x: seq<Gene>, y: seq<Gene>, point: nat, i: nat)
    requires |x| == |y| && i < |x|
    ensures multiset{Cross(x, y, point)[i], Cross(y, x, point)[i]} == multiset{x[i], y[i]}
  {
    if i > point {
      assert multiset{y[i], x[i]} == multiset{x[i], y[i]};
    }
  }

  /** Crossing the children again at the same point gives back the parents. */
  lemma CrossRoundTrip(x: seq<Gene>, y: seq<Gene>, point: nat)
    requires |x| == |y|
    ensures Cross(Cross(x, y, point), Cross(y, x, point), point) == x
  {
    var c := Cross(Cross(x, y, point), Cross(y, x, point), point);
    forall i | 0 <= i < |x|
      ensures c[i] == x[i]
    {
    }
  }

  /** Crossing two fitting genomes yields fitting genomes. */
  lemma CrossFits(x: seq<Gene>, y: seq<Gene>, point: nat, groups: seq<CourseGroup>, idx: map<string, Course>)
    requires GenomeFits(x, groups, idx) && GenomeFits(y, groups, idx)
    ensures GenomeFits(Cross(x, y, point), groups, idx)
  {
  }

  /** The genome `crossover` gives its first child from parents `a` and `b` (the second child's
      is `Crossed(b, a, ...)`). */
  function Crossed(a: seq<Gene>, b: seq<Gene>, rate: real, fire: Unit, point: Unit): (c: seq<Gene>)
    requires |a| == |b|
    ensures |c| == |a|
  {
    if fire > rate || |a| == 0 then a else Cross(a, b, Pick(point, |a|))
  }

  /** `crossover`: unless the draw `fire` exceeds `rate` or the genomes are empty, cuts both
      parents after the drawn point and swaps the tails; otherwise copies the parents. */
  method Crossover(a: Individual, b: Individual, rate: real, fire: Unit, point: Unit) returns (c1: Individual, c2: Individual)
    requires |a.genome| == |b.genome|
    ensures fresh(c1) && fresh(c2) && c1 != c2
    ensures c1.genome == Crossed(a.genome, b.genome, rate, fire, point)
    ensures c2.genome == Crossed(b.genome, a.genome, rate, fire, point)
    ensures fire > rate || |a.genome| == 0 ==>
      c1.genome == a.genome && c1.fitness == a.fitness && c1.units == a.units
      && c2.genome == b.genome && c2.fitness == b.fitness && c2.units == b.units
    ensures !(fire > rate || |a.genome| == 0) ==>
      var p := Pick(point, |a.genome|);
      c1.genome == Cross(a.genome, b.genome, p) && c2.genome == Cross(b.genome, a.genome, p)
      && c1.fitness == 0 && c1.units == 0 && c2.fitness == 0 && c2.units == 0
  {
    if fire > rate || |a.genome| == 0 {
      c1 := new Individual.Copy(a);
      c2 := new Individual.Copy(b);
      return;
    }
    var p := Pick(point, |a.genome|);
    var g1: seq<Gene> := [];
    var g2: seq<Gene> := [];
    for i := 0 to |a.genome|
      invariant g1 == Cross(a.genome, b.genome, p)[..i]
      invariant g2 == Cross(b.genome, a.genome, p)[..i]
    {
      if i <= p {
        g1 := g1 + [a.genome[i]];
        g2 := g2 + [b.genome[i]];
      } else {
        g1 := g1 + [b.genome[i]];
        g2 := g2 + [a.genome[i]];
      }
    }
    c1 := new Individual(g1);
    c2 := new Individual(g2);
  }

  // ----- Mutation -----

  /** `op` below this swaps the section of an occupied gene. */
  const SwapSectionBelow: real := 0.25
  /** `op` below this (and not below the previous) switches an occupied gene's course. */
  const SwitchCourseBelow: real := 0.5
  /** `op` below this fills an empty gene. */
  const AddCourseBelow: real := 0.75

  /** The draws behind one gene's mutation: whether it fires, which operation, two indices and
      a shuffle. */
  datatype MutationDraw = MutationDraw(fire: Unit, op: Unit, pick: Unit, pick2: Unit, shuffle: seq<Unit>)

  /** `xs.filter(keep)` */
  function Filter<T(!new)>(xs: seq<T>, keep: T -> bool): (r: seq<T>)
    ensures |r| <= |xs|
    ensures forall x :: x in r <==> x in xs && keep(x)
  {
    if xs == [] then []
    else (if keep(xs[0]) then [xs[0]] else []) + Filter(xs[1..], keep)
  }

  function SectionCodeIsNot(code: string): Section -> bool
  {
    (s: Section) => s.sectionCode != code
  }

  function CodeIsNot(code: string): string -> bool
  {
    (c: string) => c != code
  }

  /** Swap to another section of the same course, if the course has one. */
  function SwapSection(current: SelectedSection, idx: map<string, Course>, pick: Unit): Gene
  {
    if Offered(idx, current.courseCode) then
      var course := idx[current.courseCode];
      var others := Filter(course.sections, SectionCodeIsNot(current.sectionCode));
      if |others| > 0 then Some(SelectedSection(course.courseCode, others[Pick(pick, |others|)].sectionCode))
      else Some(current)
    else Some(current)
  }

  /** Switch to another course of the group, with a drawn section of it, if the drawn course is
      offered. */
  function SwitchCourse(current: SelectedSection, group: CourseGroup, idx: map<string, Course>, pick: Unit, pick2: Unit): Gene
  {
    var alt := Filter(group.courseCodes, CodeIsNot(current.courseCode));
    if |alt| > 0 then
      var code := alt[Pick(pick, |alt|)];
      if Offered(idx, code) then Some(SelectedSection(code, idx[code].sections[Pick(pick2, |idx[code].sections|)].sectionCode))
      else Some(current)
    else Some(current)
  }

  /** What `mutate` leaves in one gene. */
  function MutateGene(current: Gene, group: CourseGroup, idx: map<string, Course>, rate: real, d: MutationDraw): Gene
  {
    if !(d.fire < rate) || |group.courseCodes| == 0 then current
    else if current.Some? && d.op < SwapSectionBelow then SwapSection(current.value, idx, d.pick)
    else if current.Some? && d.op < SwitchCourseBelow then SwitchCourse(current.value, group, idx, d.pick, d.pick2)
    else if current.None? && d.op < AddCourseBelow then FirstOffered(Shuffle(group.courseCodes, d.shuffle), idx, d.pick)
    else None
  }

  /** The genome `mutate` leaves, gene `i` mutated with the draws `draws(i)`. */
  function MutateGenome(genome: seq<Gene>, groups: seq<CourseGroup>, idx: map<string, Course>, rate: real,
                        draws: nat -> MutationDraw): seq<Gene>
    requires |genome| <= |groups|
  {
    seq(|genome|, i requires 0 <= i < |genome| => MutateGene(genome[i], groups[i], idx, rate, draws(i)))
  }

  /** `mutate`: for each gene whose draw fires, applies the operation `op` selects, in place. */
  method Mutate(ind: Individual, groups: seq<CourseGroup>, idx: map<string, Course>, rate: real, draws: nat -> MutationDraw)
    requires |ind.genome| <= |groups|
    modifies ind
    ensures ind.genome == MutateGenome(old(ind.genome), groups, idx, rate, draws)
    ensures forall i :: 0 <= i < |ind.genome| && |groups[i].courseCodes| == 0 ==> ind.genome[i] == old(ind.genome)[i]
    ensures ind.fitness == old(ind.fitness) && ind.units == old(ind.units)
  {
    ghost var original := ind.genome;
    for i := 0 to |ind.genome|
      invariant |ind.genome| == |original|
      invariant forall j :: 0 <= j < i ==> ind.genome[j] == MutateGene(original[j], groups[j], idx, rate, draws(j))
      invariant forall j :: i <= j < |original| ==> ind.genome[j] == original[j]
      invariant ind.fitness == old(ind.fitness) && ind.units == old(ind.units)
    {
      var d := draws(i);
      if d.fire < rate {
        var gene := MutatedGene(ind.genome[i], groups[i], idx, rate, d);
        ind.genome := ind.genome[i := gene];
      }
    }
  }

  /** The body of `mutate` for a gene whose draw fired. */
  method MutatedGene(current: Gene, group: CourseGroup, idx: map<string, Course>, rate: real, d: MutationDraw) returns (gene: Gene)
    requires d.fire < rate
    ensures gene == MutateGene(current, group, idx, rate, d)
  {
    gene := current;
    if |group.courseCodes| == 0 {
      return;
    }
    var op := d.op;
    if current.Some? && op < SwapSectionBelow {
      if current.value.courseCode in idx && |idx[current.value.courseCode].sections| > 0 {
        var course := idx[current.value.courseCode];
        var others := Filter(course.sections, SectionCodeIsNot(current.value.sectionCode));
        if |others| > 0 {
          var sec := others[Pick(d.pick, |others|)];
          gene := Some(SelectedSection(course.courseCode, sec.sectionCode));
        }
      }
    } else if current.Some? && op < SwitchCourseBelow {
      var altCodes := Filter(group.courseCodes, CodeIsNot(current.value.courseCode));
      if |altCodes| > 0 {
        var code := altCodes[Pick(d.pick, |altCodes|)];
        if code in idx && |idx[code].sections| > 0 {
          var course := idx[code];
          var sec := course.sections[Pick(d.pick2, |course.sections|)];
          gene := Some(SelectedSection(code, sec.sectionCode));
        }
      }
    } else if current.None? && op < AddCourseBelow {
      var shuffled := Shuffle(group.courseCodes, d.shuffle);
      var chosen := ChooseOffered(shuffled, idx, d.pick);
      if chosen.Some? {
        gene := chosen;
      }
    } else {
      if current.Some? {
        gene := None;
      }
    }
  }

  /** Mutation keeps every gene fitting its group. */
  lemma MutateGeneFits(current: Gene, group: CourseGroup, idx: map<string, Course>, rate: real, d: MutationDraw)
    requires WellKeyed(idx) && GeneFits(current, group, idx)
    ensures GeneFits(MutateGene(current, group, idx, rate, d), group, idx)
  {
    var g := MutateGene(current, group, idx, rate, d);
    if d.fire < rate && |group.courseCodes| > 0 {
      if current.Some? && d.op < SwapSectionBelow {
        var c := current.value;
        if Offered(idx, c.courseCode) {
          var others := Filter(idx[c.courseCode].sections, SectionCodeIsNot(c.sectionCode));
          if |others| > 0 {
            assert others[Pick(d.pick, |others|)] in idx[c.courseCode].sections;
          }
        }
      } else if current.Some? && d.op < SwitchCourseBelow {
        var alt := Filter(group.courseCodes, CodeIsNot(current.value.courseCode));
        if |alt| > 0 {
          var code := alt[Pick(d.pick, |alt|)];
          if Offered(idx, code) {
            assert idx[code].sections[Pick(d.pick2, |idx[code].sections|)] in idx[code].sections;
          }
        }
      } else if current.None? && d.op < AddCourseBelow {
        var shuffled := Shuffle(group.courseCodes, d.shuffle);
        if g.Some? {
          assert g.value.courseCode in multiset(shuffled);
        }
      }
    }
  }

  /** Mutation keeps the genome's length and every gene fitting its group. */
  lemma MutateGenomeFits(genome: seq<Gene>, groups: seq<CourseGroup>, idx: map<string, Course>, rate: real,
                         draws: nat -> MutationDraw)
    requires WellKeyed(idx) && GenomeFits(genome, groups, idx)
    ensures GenomeFits(MutateGenome(genome, groups, idx, rate, draws), groups, idx)
  {
    forall i | 0 <= i < |genome|
      ensures GeneFits(MutateGene(genome[i], groups[i], idx, rate, draws(i)), groups[i], idx)
    {
      MutateGeneFits(genome[i], groups[i], idx, rate, draws(i));
    }
  }

  /** On an occupied gene whose draw fires: `op` below 0.25 keeps the course and changes the
      section exactly when the course has another section; `op` from 0.25 to 0.5 either keeps
      the gene or moves it to another course of the group; `op` from 0.5 on clears it. */
  lemma MutateOccupied(current: Gene, group: CourseGroup, idx: map<string, Course>, rate: real, d: MutationDraw)
    requires d.fire < rate && |group.courseCodes| > 0 && current.Some?
    ensures var g := MutateGene(current, group, idx, rate, d); var c := current.value;
      d.op < SwapSectionBelow && WellKeyed(idx) ==>
        g.Some? && g.value.courseCode == c.courseCode
        && (g.value.sectionCode != c.sectionCode
            <==> c.courseCode in idx && exists s :: s in idx[c.courseCode].sections && s.sectionCode != c.sectionCode)
    ensures var g := MutateGene(current, group, idx, rate, d); var c := current.value;
      SwapSectionBelow <= d.op < SwitchCourseBelow ==>
        g == current
        || (g.Some? && g.value.courseCode != c.courseCode && g.value.courseCode in group.courseCodes
            && HasSection(idx, g.value.courseCode, g.value.sectionCode))
    ensures SwitchCourseBelow <= d.op ==> MutateGene(current, group, idx, rate, d).None?
  {
    var g := MutateGene(current, group, idx, rate, d);
    var c := current.value;
    if d.op < SwapSectionBelow && c.courseCode in idx {
      var others := Filter(idx[c.courseCode].sections, SectionCodeIsNot(c.sectionCode));
      if exists s :: s in idx[c.courseCode].sections && s.sectionCode != c.sectionCode {
        var s :| s in idx[c.courseCode].sections && s.sectionCode != c.sectionCode;
        assert s in others;
        assert others[Pick(d.pick, |others|)] in others;
      }
    } else if SwapSectionBelow <= d.op < SwitchCourseBelow {
      var alt := Filter(group.courseCodes, CodeIsNot(c.courseCode));
      if |alt| > 0 {
        var code := alt[Pick(d.pick, |alt|)];
        assert code in alt;
        if Offered(idx, code) {
          assert idx[code].sections[Pick(d.pick2, |idx[code].sections|)] in idx[code].sections;
        }
      }
    }
  }
}
