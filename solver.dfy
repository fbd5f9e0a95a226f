/** The exhaustive solver: conflict detection, the backtracking search over one section per
    requested course, the legacy timetable score and the ranking of all timetables by it. */
module Solver {
  import opened Types
  import opened Sums
  import opened TimeModel
  import opened Enumeration

  // ----- Conflicts -----

  /** Some slot of `xs` overlaps some slot of `ys`. */
  predicate SlotsClash(xs: seq<TimeSlot>, ys: seq<TimeSlot>)
  {
    exists a, b :: 0 <= a < |xs| && 0 <= b < |ys| && TimeOverlap(xs[a], ys[b])
  }

  /** Placing `section` next to the entries already in `current` would double-book a slot. */
  predicate Clash(current: seq<ScheduleSection>, section: Section)
  {
    exists i :: 0 <= i < |current| && SlotsClash(current[i].schedule, section.schedule)
  }

  /** No two entries of a timetable have overlapping slots. */
  predicate ConflictFree(s: seq<ScheduleSection>)
  {
    forall i, j :: 0 <= i < j < |s| ==> !SlotsClash(s[i].schedule, s[j].schedule)
  }

  /** Scans every placed slot against every slot of the candidate section and stops at the
      first overlap. */
  method HasConflict(current: seq<ScheduleSection>, section: Section) returns (conflict: bool)
    ensures conflict <==> Clash(current, section)
  {
    for i := 0 to |current|
      invariant forall p :: 0 <= p < i ==> !SlotsClash(current[p].schedule, section.schedule)
    {
      var placed := current[i].schedule;
      for a := 0 to |placed|
        invariant forall a', b :: 0 <= a' < a && 0 <= b < |section.schedule| ==> !TimeOverlap(placed[a'], section.schedule[b])
      {
        for b := 0 to |section.schedule|
          invariant forall b' :: 0 <= b' < b ==> !TimeOverlap(placed[a], section.schedule[b'])
        {
          if TimeOverlap(placed[a], section.schedule[b]) {
            assert SlotsClash(current[i].schedule, section.schedule);
            return true;
          }
        }
      }
    }
    return false;
  }

  // ----- The search -----

  /** The catalog courses whose name was requested, in catalog order. */
  function Matched(courses: seq<Course>, names: seq<string>): (d: seq<Course>)
    ensures |d| <= |courses|
    ensures forall c :: c in d <==> c in courses && c.courseName in names
  {
    if courses == [] then []
    else
      var last := courses[|courses| - 1];
      var rest := Matched(courses[..|courses| - 1], names);
      if last.courseName in names then rest + [last] else rest
  }

  /** How many sections each desired course offers. */
  function Counts(d: seq<Course>): seq<nat>
  {
    seq(|d|, i requires 0 <= i < |d| => |d[i].sections|)
  }

  /** The timetable entries of a choice of section indices, one per course position. */
  function Assemble(d: seq<Course>, v: seq<nat>): seq<ScheduleSection>
    requires InRange(Counts(d), v)
  {
    seq(|v|, i requires 0 <= i < |v| => EntryOf(d[i], d[i].sections[v[i]]))
  }

  lemma AssembleSnoc(d: seq<Course>, cur: seq<nat>, k: nat)
    requires InRange(Counts(d), cur) && |cur| < |d| && k < |d[|cur|].sections|
    ensures InRange(Counts(d), cur + [k])
    ensures Assemble(d, cur + [k]) == Assemble(d, cur) + [EntryOf(d[|cur|], d[|cur|].sections[k])]
  {
    var v := cur + [k];
    assert forall i :: 0 <= i < |cur| ==> v[i] == cur[i];
  }

  /** Section `k` of the next course may join the partial choice `cur`. */
  predicate Admissible(d: seq<Course>, cur: seq<nat>, k: nat)
  {
    InRange(Counts(d), cur) && |cur| < |d| && k < |d[|cur|].sections|
    && !Clash(Assemble(d, cur), d[|cur|].sections[k])
  }

  function AdmissibleFn(d: seq<Course>): (seq<nat>, nat) -> bool
  {
    (cur: seq<nat>, k: nat) => Admissible(d, cur, k)
  }

  /** The section-index choices the search records, in the order it records them. */
  function Choices(d: seq<Course>): seq<seq<nat>>
  {
    Enumerate(Counts(d), AdmissibleFn(d), [], 0)
  }

  function Schedules(d: seq<Course>, vs: seq<seq<nat>>): seq<seq<ScheduleSection>>
    requires forall v :: v in vs ==> InRange(Counts(d), v)
  {
    seq(|vs|, j requires 0 <= j < |vs| => Assemble(d, vs[j]))
  }

  /** The result of the search over the requested courses. */
  function Timetables(courses: seq<Course>, names: seq<string>): seq<seq<ScheduleSection>>
  {
    var d := Matched(courses, names);
    Schedules(d, Choices(d))
  }

  lemma SchedulesAppend(d: seq<Course>, a: seq<seq<nat>>, b: seq<seq<nat>>)
    requires forall v :: v in a ==> InRange(Counts(d), v)
    requires forall v :: v in b ==> InRange(Counts(d), v)
    ensures Schedules(d, a + b) == Schedules(d, a) + Schedules(d, b)
  {
    assert forall v :: v in a + b ==> v in a || v in b;
  }

  /** The timetables the search records from the partial choice `cur`, trying sections `k`,
      `k + 1`, ... of the next course. */
  function Found(d: seq<Course>, cur: seq<nat>, k: nat): seq<seq<ScheduleSection>>
    requires InRange(Counts(d), cur)
  {
    Schedules(d, Enumerate(Counts(d), AdmissibleFn(d), cur, k))
  }

  /** What one section of the next course contributes to the recorded timetables, ahead of
      the later sections. */
  lemma FoundStep(d: seq<Course>, cur: seq<nat>, current: seq<ScheduleSection>, k: nat)
    requires InRange(Counts(d), cur) && current == Assemble(d, cur)
    requires |cur| < |d| && k < |d[|cur|].sections|
    ensures InRange(Counts(d), cur + [k])
    ensures Found(d, cur, k) ==
      (if Clash(current, d[|cur|].sections[k]) then [] else Found(d, cur + [k], 0)) + Found(d, cur, k + 1)
  {
    var sizes, ok := Counts(d), AdmissibleFn(d);
    AssembleSnoc(d, cur, k);
    EnumerateUnfold(sizes, ok, cur, k);
    var here := if ok(cur, k) then Enumerate(sizes, ok, cur + [k], 0) else [];
    SchedulesAppend(d, here, Enumerate(sizes, ok, cur, k + 1));
  }

  /** A complete choice is recorded once; past the last section nothing more is. */
  lemma FoundEnds(d: seq<Course>, cur: seq<nat>, current: seq<ScheduleSection>)
    requires InRange(Counts(d), cur) && current == Assemble(d, cur)
    ensures |current| == |cur|
    ensures |cur| == |d| ==> Found(d, cur, 0) == [current]
    ensures |cur| < |d| ==> Found(d, cur, |d[|cur|].sections|) == []
  {
  }

  /** One level of the search: try every section of course `|cur|` after the partial choice
      `cur` (whose entries are `current`), and append what it records to `results`. */
  method Backtrack(d: seq<Course>, ghost cur: seq<nat>, current: seq<ScheduleSection>, results: seq<seq<ScheduleSection>>)
    returns (out: seq<seq<ScheduleSection>>)
    requires InRange(Counts(d), cur) && current == Assemble(d, cur)
    ensures out == results + Found(d, cur, 0)
    decreases |d| - |cur|, 1
  {
    FoundEnds(d, cur, current);
    var idx := |current|;
    if idx == |d| {
      return results + [current];
    }
    out := results;
    for k := 0 to |d[idx].sections|
      invariant out + Found(d, cur, k) == results + Found(d, cur, 0)
    {
      FoundStep(d, cur, current, k);
      ghost var before := out;
      out := TrySection(d, cur, current, k, out);
      AppendAssociative(before, out[|before|..], Found(d, cur, k + 1));
    }
  }

  /** One pass of the loop in `backtrack`: when section `k` of the next course clashes with
      nothing chosen so far, descend with it and append what the deeper level records. */
  method TrySection(d: seq<Course>, ghost cur: seq<nat>, current: seq<ScheduleSection>, k: nat, results: seq<seq<ScheduleSection>>)
    returns (out: seq<seq<ScheduleSection>>)
    requires InRange(Counts(d), cur) && current == Assemble(d, cur)
    requires |cur| < |d| && k < |d[|cur|].sections|
    ensures InRange(Counts(d), cur + [k])
    ensures out == results + (if Clash(current, d[|cur|].sections[k]) then [] else Found(d, cur + [k], 0))
    decreases |d| - |cur|, 0
  {
    FoundEnds(d, cur, current);
    AssembleSnoc(d, cur, k);
    var idx := |current|;
    var section := d[idx].sections[k];
    var conflict := HasConflict(current, section);
    if conflict {
      out := results;
    } else {
      out := Backtrack(d, cur + [k], current + [EntryOf(d[idx], section)], results);
    }
  }

  /** `findSchedules`: every conflict-free timetable of the requested courses. */
  method FindSchedules(courses: seq<Course>, names: seq<string>) returns (results: seq<seq<ScheduleSection>>)
    ensures results == Timetables(courses, names)
  {
    var desired := Matched(courses, names);
    results := Backtrack(desired, [], [], []);
    assert Found(desired, [], 0) == Timetables(courses, names);
  }

  // ----- What the search returns -----

  /** Entry `i` of a choice is admissible after the entries before it exactly when it clashes
      with none of them. */
  lemma AdmissibleAt(d: seq<Course>, v: seq<nat>, i: nat)
    requires InRange(Counts(d), v) && |v| == |d| && i < |v|
    ensures Admissible(d, v[..i], v[i]) <==>
      forall j :: 0 <= j < i ==> !SlotsClash(Assemble(d, v)[j].schedule, Assemble(d, v)[i].schedule)
  {
    var s := Assemble(d, v);
    assert Assemble(d, v[..i]) == s[..i];
    assert d[i].sections[v[i]].schedule == s[i].schedule;
  }

  /** The search admits every option of a choice exactly when its timetable is conflict-free. */
  lemma AdmittedIffConflictFree(d: seq<Course>, v: seq<nat>)
    requires InRange(Counts(d), v) && |v| == |d|
    ensures AdmittedFrom(AdmissibleFn(d), v, 0) <==> ConflictFree(Assemble(d, v))
  {
    var s := Assemble(d, v);
    forall i | 0 <= i < |v|
      ensures AdmissibleFn(d)(v[..i], v[i]) <==> forall j :: 0 <= j < i ==> !SlotsClash(s[j].schedule, s[i].schedule)
    {
      AdmissibleAt(d, v, i);
    }
  }

  /** The recorded choices are exactly the in-range, conflict-free choices of one section per
      desired course. */
  lemma ChoicesExact(d: seq<Course>, v: seq<nat>)
    ensures v in Choices(d) <==> |v| == |d| && InRange(Counts(d), v) && ConflictFree(Assemble(d, v))
  {
    EnumerateMembers(Counts(d), AdmissibleFn(d), [], 0, v);
    if |v| == |d| && InRange(Counts(d), v) {
      AdmittedIffConflictFree(d, v);
      assert v[..0] == [];
    }
  }

  /** `s` takes, at every position `i`, a section of the `i`-th desired course. */
  predicate OnePerCourse(d: seq<Course>, s: seq<ScheduleSection>)
  {
    |s| == |d| && forall i :: 0 <= i < |s| ==> Offers(d[i], s[i])
  }

  /** `e` is one of the sections of `c`, resolved against `c`. */
  predicate Offers(c: Course, e: ScheduleSection)
  {
    exists sec :: sec in c.sections && e == EntryOf(c, sec)
  }

  /** Soundness: every returned timetable takes one section of each desired course, in the
      catalog's order, and has no overlapping slots. */
  lemma TimetablesSound(courses: seq<Course>, names: seq<string>, s: seq<ScheduleSection>)
    requires s in Timetables(courses, names)
    ensures OnePerCourse(Matched(courses, names), s)
    ensures ConflictFree(s)
  {
    var d := Matched(courses, names);
    var vs := Choices(d);
    var j :| 0 <= j < |vs| && Schedules(d, vs)[j] == s;
    var v := vs[j];
    assert v in vs;
    assert s == Assemble(d, v);
    ChoicesExact(d, v);
    AssembledOnePerCourse(d, v);
  }

  lemma AssembledOnePerCourse(d: seq<Course>, v: seq<nat>)
    requires InRange(Counts(d), v) && |v| == |d|
    ensures OnePerCourse(d, Assemble(d, v))
  {
    var s := Assemble(d, v);
    forall i | 0 <= i < |s|
      ensures Offers(d[i], s[i])
    {
      assert d[i].sections[v[i]] in d[i].sections && s[i] == EntryOf(d[i], d[i].sections[v[i]]);
    }
  }

  ghost function IndexIn(sections: seq<Section>, sec: Section): (k: nat)
    requires sec in sections
    ensures k < |sections| && sections[k] == sec
  {
    var k :| 0 <= k < |sections| && sections[k] == sec; k
  }

  ghost function SectionOf(c: Course, e: ScheduleSection): (sec: Section)
    requires Offers(c, e)
    ensures sec in c.sections && e == EntryOf(c, sec)
  {
    var sec :| sec in c.sections && e == EntryOf(c, sec); sec
  }

  /** Completeness: every conflict-free timetable taking one section of each desired course is
      returned. */
  lemma TimetablesComplete(courses: seq<Course>, names: seq<string>, s: seq<ScheduleSection>)
    requires OnePerCourse(Matched(courses, names), s)
    requires ConflictFree(s)
    ensures s in Timetables(courses, names)
  {
    var d := Matched(courses, names);
    var v := seq(|s|, i requires 0 <= i < |s| =>
      IndexIn(d[i].sections, SectionOf(d[i], s[i])));
    assert InRange(Counts(d), v);
    assert Assemble(d, v) == s;
    ChoicesExact(d, v);
    var vs := Choices(d);
    var j :| 0 <= j < |vs| && vs[j] == v;
    assert Timetables(courses, names)[j] == s;
  }

  /** The search records choices in strictly increasing lexicographic order of section
      indices, and never the same choice twice. */
  lemma ChoicesOrdered(d: seq<Course>)
    ensures StrictlyIncreasing(Choices(d))
    ensures forall i, j :: 0 <= i < j < |Choices(d)| ==> Choices(d)[i] != Choices(d)[j]
  {
    EnumerateSorted(Counts(d), AdmissibleFn(d), [], 0);
  }

  /** With no requested course in the catalog, the only timetable is the empty one. */
  lemma NoMatchedCourse(courses: seq<Course>, names: seq<string>)
    requires Matched(courses, names) == []
    ensures Timetables(courses, names) == [[]]
  {
    var d := Matched(courses, names);
    assert Counts(d) == [];
    assert Choices(d) == [[]];
    assert Assemble(d, []) == [];
  }

  /** A desired course without sections leaves no timetable at all. */
  lemma CourseWithoutSections(courses: seq<Course>, names: seq<string>, i: nat)
    requires i < |Matched(courses, names)| && Matched(courses, names)[i].sections == []
    ensures Timetables(courses, names) == []
  {
    var d := Matched(courses, names);
    NoOptionsNoChoices(Counts(d), AdmissibleFn(d), [], 0, i);
  }

  // Math offers M1 (Saturday 08:00-10:00) and M2 (Saturday 10:00-12:00); Physics offers only
  // P1 (Saturday 08:00-10:00).
  function ExampleMath(prof: Professor): Course
  {
    Course("Math", "MATH", 3, [Section("M1", prof, [TimeSlot(Saturday, "08:00", "10:00")]),
                               Section("M2", prof, [TimeSlot(Saturday, "10:00", "12:00")])])
  }

  function ExamplePhysics(prof: Professor): Course
  {
    Course("Physics", "PHYS", 3, [Section("P1", prof, [TimeSlot(Saturday, "08:00", "10:00")])])
  }

  lemma ExampleMatched(prof: Professor)
    ensures Matched([ExampleMath(prof), ExamplePhysics(prof)], ["Math", "Physics"]) == [ExampleMath(prof), ExamplePhysics(prof)]
  {
    var d := [ExampleMath(prof), ExamplePhysics(prof)];
    assert d[..1] == [ExampleMath(prof)] && [ExampleMath(prof)][..0] == [];
  }

  /** M1 collides with P1; M2 only touches it. */
  lemma ExampleClashes(prof: Professor)
    ensures var d := [ExampleMath(prof), ExamplePhysics(prof)];
      Clash(Assemble(d, [0]), d[1].sections[0]) && !Clash(Assemble(d, [1]), d[1].sections[0])
  {
    var d := [ExampleMath(prof), ExamplePhysics(prof)];
    var m1, m2, p1 := d[0].sections[0], d[0].sections[1], d[1].sections[0];
    assert Assemble(d, [0]) == [EntryOf(d[0], m1)];
    assert Assemble(d, [1]) == [EntryOf(d[0], m2)];
    assert TimeOverlap(m1.schedule[0], p1.schedule[0]);
    assert SlotsClash(Assemble(d, [0])[0].schedule, p1.schedule);
    HalfOpenOverlap(p1.schedule[0], m2.schedule[0]);
    assert !SlotsClash(m2.schedule, p1.schedule);
  }

  /** The search over two courses with two and one sections, when only the second section of
      the first course admits the section of the second. */
  lemma ExampleSearch(sizes: seq<nat>, ok: (seq<nat>, nat) -> bool)
    requires sizes == [2, 1]
    requires ok([], 0) && ok([], 1) && !ok([0], 0) && ok([1], 0)
    ensures Enumerate(sizes, ok, [], 0) == [[1, 0]]
  {
    assert [] + [0] == [0] && [] + [1] == [1];
    EnumerateUnfold(sizes, ok, [], 0);
    EnumerateUnfold(sizes, ok, [0], 0);
    EnumerateUnfold(sizes, ok, [], 1);
    EnumerateUnfold(sizes, ok, [1], 0);
    assert Enumerate(sizes, ok, [0], 1) == [];
    assert [1] + [0] == [1, 0];
    assert Enumerate(sizes, ok, [1, 0], 0) == [[1, 0]];
    assert Enumerate(sizes, ok, [1], 1) == [];
    assert Enumerate(sizes, ok, [], 2) == [];
    assert Enumerate(sizes, ok, [0], 0) == [];
    assert Enumerate(sizes, ok, [1], 0) == [[1, 0]];
    assert Enumerate(sizes, ok, [], 1) == [[1, 0]];
  }

  lemma ExampleChoices(prof: Professor)
    ensures Choices([ExampleMath(prof), ExamplePhysics(prof)]) == [[1, 0]]
  {
    var d := [ExampleMath(prof), ExamplePhysics(prof)];
    ExampleClashes(prof);
    assert Assemble(d, []) == [];
    ExampleSearch(Counts(d), AdmissibleFn(d));
  }

  /** Asking for both courses yields exactly the one timetable {Math/M2, Physics/P1}. */
  lemma MathPhysicsExample(prof: Professor)
    ensures var math, physics := ExampleMath(prof), ExamplePhysics(prof);
      Timetables([math, physics], ["Math", "Physics"]) == [[EntryOf(math, math.sections[1]), EntryOf(physics, physics.sections[0])]]
  {
    var d := [ExampleMath(prof), ExamplePhysics(prof)];
    ExampleMatched(prof);
    ExampleChoices(prof);
    assert Assemble(d, [1, 0]) == [EntryOf(d[0], d[0].sections[1]), EntryOf(d[1], d[1].sections[0])];
  }

  // ----- The legacy score -----

  /** 100 per section whose professor skips attendance, -50 per slot ending after 13:00, +20
      per slot starting before 10:00, +75 per weekday without a slot. */
  function LegacyPoints(s: seq<ScheduleSection>): int
  {
    100 * Sum(s, NoAttendanceFn())
    - 50 * Sum(AllSlots(s), LateCountFn())
    + 20 * Sum(AllSlots(s), EarlyCountFn())
    + 75 * FreeDays(AllSlots(s))
  }

  lemma SnocSlice<T>(xs: seq<T>, j: nat)
    requires j < |xs|
    ensures xs[..j + 1] == xs[..j] + [xs[j]]
  {
  }

  /** The slot totals of two runs of slots add up. */
  lemma SlotsAppend(before: seq<TimeSlot>, xs: seq<TimeSlot>)
    ensures Sum(before + xs, LateCountFn()) == Sum(before, LateCountFn()) + Sum(xs, LateCountFn())
    ensures Sum(before + xs, EarlyCountFn()) == Sum(before, EarlyCountFn()) + Sum(xs, EarlyCountFn())
    ensures forall d :: DayCount(before + xs, d) == DayCount(before, d) + DayCount(xs, d)
  {
    SumAppend(before, xs, LateCountFn());
    SumAppend(before, xs, EarlyCountFn());
    forall d
      ensures DayCount(before + xs, d) == DayCount(before, d) + DayCount(xs, d)
    {
      SumAppend(before, xs, OnDayFn(d));
    }
  }

  /** One more slot adds its own late, early and day terms to the slot totals. */
  lemma SlotStep(seen: seq<TimeSlot>, slot: TimeSlot)
    ensures Sum(seen + [slot], LateCountFn()) == Sum(seen, LateCountFn()) + (if EndsLate(slot) then 1 else 0)
    ensures Sum(seen + [slot], EarlyCountFn()) == Sum(seen, EarlyCountFn()) + (if StartsEarly(slot) then 1 else 0)
    ensures forall d :: DayCount(seen + [slot], d) == DayCount(seen, d) + (if slot.day == d then 1 else 0)
  {
    assert (seen + [slot])[..|seen|] == seen;
  }
  /** One more section adds its attendance term and its slots. */
  lemma SectionStep(schedule: seq<ScheduleSection>, i: nat)
    requires i < |schedule|
    ensures Sum(schedule[..i + 1], NoAttendanceFn()) == Sum(schedule[..i], NoAttendanceFn()) + NoAttendanceFn()(schedule[i])
    ensures AllSlots(schedule[..i + 1]) == AllSlots(schedule[..i]) + schedule[i].schedule
  {
    assert schedule[..i + 1][..i] == schedule[..i];
  }

  /** The legacy score does not depend on the order of the sections. */
  lemma LegacyPointsPermutation(a: seq<ScheduleSection>, b: seq<ScheduleSection>)
    requires multiset(a) == multiset(b)
    ensures LegacyPoints(a) == LegacyPoints(b)
  {
    SumPermutation(a, b, NoAttendanceFn());
    AllSlotsPermutation(a, b);
    var xs, ys := AllSlots(a), AllSlots(b);
    SumPermutation(xs, ys, LateCountFn());
    SumPermutation(xs, ys, EarlyCountFn());
    assert forall t :: t in xs <==> t in ys by {
      forall t ensures t in xs <==> t in ys {
        assert t in xs <==> t in multiset(xs);
        assert t in ys <==> t in multiset(ys);
      }
    }
    FreeDaysSameSlots(xs, ys);
  }

  /** `calculateScore`, section by section and slot by slot, counting slots per day. */
  method CalculateScore(schedule: seq<ScheduleSection>) returns (score: int)
    ensures score == LegacyPoints(schedule)
  {
    score := 0;
    var days := ZeroDayCounts();
    assert schedule[..0] == [] && AllSlots([]) == [];
    for i := 0 to |schedule|
      invariant score == 100 * Sum(schedule[..i], NoAttendanceFn())
        - 50 * Sum(AllSlots(schedule[..i]), LateCountFn()) + 20 * Sum(AllSlots(schedule[..i]), EarlyCountFn())
      invariant forall d :: d in days && days[d] == DayCount(AllSlots(schedule[..i]), d)
    {
      var sec := schedule[i];
      SectionStep(schedule, i);
      if !sec.professor.takesAttendance {
        score := score + 100;
      }
      ghost var before := AllSlots(schedule[..i]);
      score, days := LegacySlots(sec.schedule, score, days);
      SlotsAppend(before, sec.schedule);
    }
    assert schedule[..|schedule|] == schedule;
    var free := CountFreeDays(days, AllSlots(schedule));
    score := score + 75 * free;
  }

  /** The inner loop of `calculateScore` over one section's slots: -50 for a late end, +20 for
      an early start, and one more class on the slot's day. */
  method LegacySlots(slots: seq<TimeSlot>, score0: int, days0: map<Day, int>) returns (score: int, days: map<Day, int>)
    requires forall d :: d in days0
    ensures score == score0 - 50 * Sum(slots, LateCountFn()) + 20 * Sum(slots, EarlyCountFn())
    ensures forall d :: d in days && days[d] == days0[d] + DayCount(slots, d)
  {
    score, days := score0, days0;
    assert slots[..0] == [];
    for j := 0 to |slots|
      invariant score == score0 - 50 * Sum(slots[..j], LateCountFn()) + 20 * Sum(slots[..j], EarlyCountFn())
      invariant forall d :: d in days && days[d] == days0[d] + DayCount(slots[..j], d)
    {
      var slot := slots[j];
      SnocSlice(slots, j);
      SlotStep(slots[..j], slot);
      if EndsLate(slot) {
        score := score - 50;
      }
      if StartsEarly(slot) {
        score := score + 20;
      }
      days := days[slot.day := days[slot.day] + 1];
    }
    assert slots[..|slots|] == slots;
  }

  // ----- Ranking -----

  datatype Schedule = Schedule(sections: seq<ScheduleSection>, score: int)

  /** Every timetable paired with its legacy score, in search order. */
  function Scored(all: seq<seq<ScheduleSection>>): (r: seq<Schedule>)
  {
    seq(|all|, i requires 0 <= i < |all| => Schedule(all[i], LegacyPoints(all[i])))
  }

  predicate ByScoreDescending(r: seq<Schedule>)
  {
    forall i, j :: 0 <= i < j < |r| ==> r[i].score >= r[j].score
  }

  /** Places `x` after every item scoring at least as much, keeping ties in their order. */
  function InsertByScore(x: Schedule, r: seq<Schedule>): (res: seq<Schedule>)
    ensures multiset(res) == multiset(r) + multiset{x}
  {
    if r == [] then [x]
    else if r[0].score < x.score then [x] + r
    else
      assert r == [r[0]] + r[1..];
      [r[0]] + InsertByScore(x, r[1..])
  }

  lemma {:induction false} InsertKeepsOrder(x: Schedule, r: seq<Schedule>)
    requires ByScoreDescending(r)
    ensures ByScoreDescending(InsertByScore(x, r))
  {
    if r != [] && r[0].score >= x.score {
      var tail := InsertByScore(x, r[1..]);
      InsertKeepsOrder(x, r[1..]);
      forall y | y in tail
        ensures r[0].score >= y.score
      {
        assert y in multiset(tail);
        if y != x {
          assert y in r[1..];
        }
      }
    }
  }

  /** A sort on descending score; `SortByScoreStable` shows that it keeps ties in order. */
  function SortByScore(r: seq<Schedule>): (res: seq<Schedule>)
    ensures multiset(res) == multiset(r)
    ensures ByScoreDescending(res)
  {
    if r == [] then []
    else
      assert r == r[..|r| - 1] + [r[|r| - 1]];
      InsertKeepsOrder(r[|r| - 1], SortByScore(r[..|r| - 1]));
      InsertByScore(r[|r| - 1], SortByScore(r[..|r| - 1]))
  }

  /** The items scoring exactly `v`, in their order. */
  function WithScore(r: seq<Schedule>, v: int): seq<Schedule>
  {
    if r == [] then [] else (if r[0].score == v then [r[0]] else []) + WithScore(r[1..], v)
  }

  lemma {:induction false} WithScoreSnoc(r: seq<Schedule>, y: Schedule, v: int)
    ensures WithScore(r + [y], v) == WithScore(r, v) + (if y.score == v then [y] else [])
  {
    if r != [] {
      assert (r + [y])[1..] == r[1..] + [y];
      WithScoreSnoc(r[1..], y, v);
    }
  }

  lemma WithScoreCons(y: Schedule, r: seq<Schedule>, v: int)
    ensures WithScore([y] + r, v) == (if y.score == v then [y] else []) + WithScore(r, v)
  {
    assert ([y] + r)[1..] == r;
  }

  lemma DescendingTail(r: seq<Schedule>)
    requires r != [] && ByScoreDescending(r)
    ensures ByScoreDescending(r[1..])
  {
    forall i, j | 0 <= i < j < |r| - 1
      ensures r[1..][i].score >= r[1..][j].score
    {
      assert r[1..][i] == r[i + 1] && r[1..][j] == r[j + 1];
    }
  }

  /** Inserting into a ranking puts the new item after the items of equal score. */
  lemma {:induction false} InsertByScoreStable(x: Schedule, r: seq<Schedule>, v: int)
    requires ByScoreDescending(r)
    ensures WithScore(InsertByScore(x, r), v) == WithScore(r, v) + (if x.score == v then [x] else [])
  {
    if r == [] {
    } else if r[0].score < x.score {
      NoneScoring(r, x.score);
      WithScoreCons(x, r, v);
    } else {
      var tail := r[1..];
      DescendingTail(r);
      InsertByScoreStable(x, tail, v);
      assert InsertByScore(x, r) == [r[0]] + InsertByScore(x, tail);
      assert r == [r[0]] + tail;
      ConsKeepsGain(r[0], tail, InsertByScore(x, tail), if x.score == v then [x] else [], v);
    }
  }

  /** Putting the same item in front of two sequences keeps what the second gains over the first
      among the items of score `v`. */
  lemma ConsKeepsGain(y: Schedule, r: seq<Schedule>, s: seq<Schedule>, gain: seq<Schedule>, v: int)
    requires WithScore(s, v) == WithScore(r, v) + gain
    ensures WithScore([y] + s, v) == WithScore([y] + r, v) + gain
  {
    WithScoreCons(y, s, v);
    WithScoreCons(y, r, v);
  }

  /** No item of a ranking that starts below `v` scores `v`. */
  lemma {:induction false} NoneScoring(r: seq<Schedule>, v: int)
    requires ByScoreDescending(r) && (r != [] ==> r[0].score < v)
    ensures WithScore(r, v) == []
  {
    if r != [] {
      if |r| > 1 {
        assert r[1].score <= r[0].score;
      }
      NoneScoring(r[1..], v);
    }
  }

  /** The ranking is stable: the items of each score keep their input order. */
  lemma {:induction false} SortByScoreStable(r: seq<Schedule>, v: int)
    ensures WithScore(SortByScore(r), v) == WithScore(r, v)
  {
    if r != [] {
      var n := |r| - 1;
      var init, last := r[..n], r[n];
      var sorted := SortByScore(init);
      assert SortByScore(r) == InsertByScore(last, sorted);
      SortByScoreStable(init, v);
      InsertByScoreStable(last, sorted, v);
      WithScoreSnoc(init, last, v);
      assert init + [last] == r;
    }
  }

  /** `getRankedSchedules` over a given catalog: every timetable with its legacy score, best
      first. */
  method GetRankedSchedules(courses: seq<Course>, names: seq<string>) returns (ranked: seq<Schedule>)
    ensures multiset(ranked) == multiset(Scored(Timetables(courses, names)))
    ensures ByScoreDescending(ranked)
    ensures forall v :: WithScore(ranked, v) == WithScore(Scored(Timetables(courses, names)), v)
  {
    var all := FindSchedules(courses, names);
    var scored: seq<Schedule> := [];
    for i := 0 to |all|
      invariant scored == Scored(all[..i])
    {
      var score := CalculateScore(all[i]);
      scored := scored + [Schedule(all[i], score)];
    }
    assert all[..|all|] == all;
    ranked := SortByScore(scored);
    forall v
      ensures WithScore(ranked, v) == WithScore(scored, v)
    {
      SortByScoreStable(scored, v);
    }
  }
}
