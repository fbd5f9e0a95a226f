/** The preference-aware timetable score: per-course priority, professor and time-slot ratings on
    top of the attendance, time-of-day and free-day terms. */
module Scoring {
  import opened Types
  import opened Sums
  import opened TimeModel
  import opened Keyed

  /** What a user asked of one course; a missing rating key means "no rating". */
  datatype UserPreference = UserPreference(
    courseCode: string,
    courseName: string,
    priority: int,
    professorRatings: map<string, int>,
    timeSlotRatings: map<string, int>)

  const PriorityWeight := 60
  const ProfessorWeight := 25
  const TimeSlotWeight := 8
  const AttendanceBonus := 40
  const EarlyClassBonus := 10
  const LateClassPenalty := 30
  const FreeDayBonus := 60

  /** The preferences supplied, if any. */
  function Supplied(preferences: Option<seq<UserPreference>>): seq<UserPreference>
  {
    if preferences.Some? then preferences.value else []
  }

  function PrefCodeFn(): UserPreference -> string
  {
    (p: UserPreference) => p.courseCode
  }

  /** `prefMap`: each course code mapped to its preference, later ones replacing earlier ones. */
  function PrefIndex(ps: seq<UserPreference>): map<string, UserPreference>
  {
    IndexBy(ps, PrefCodeFn())
  }

  /** The largest priority supplied, 0 when none is. */
  function MaxPriority(ps: seq<UserPreference>): int
  {
    if ps == [] then 0
    else if |ps| == 1 then ps[0].priority
    else
      var m := MaxPriority(ps[..|ps| - 1]);
      var last := ps[|ps| - 1].priority;
      if last > m then last else m
  }

  /** The result bounds every priority and is one of them; 0 when none is supplied. */
  lemma {:induction false} MaxPrioritySpec(ps: seq<UserPreference>)
    ensures ps == [] ==> MaxPriority(ps) == 0
    ensures forall i :: 0 <= i < |ps| ==> ps[i].priority <= MaxPriority(ps)
    ensures ps != [] ==> exists i :: 0 <= i < |ps| && ps[i].priority == MaxPriority(ps)
  {
    if |ps| > 1 {
      var n := |ps| - 1;
      MaxPrioritySpec(ps[..n]);
      assert forall i :: 0 <= i < n ==> ps[..n][i] == ps[i];
      if ps[n].priority <= MaxPriority(ps[..n]) {
        var i :| 0 <= i < n && ps[..n][i].priority == MaxPriority(ps[..n]);
        assert ps[i].priority == MaxPriority(ps);
      } else {
        assert ps[n].priority == MaxPriority(ps);
      }
    } else if |ps| == 1 {
      assert ps[0].priority == MaxPriority(ps);
    }
  }

  /** `(r - 3) * weight` when the rating exists and is non-zero; nothing otherwise. */
  function RatingTerm(ratings: map<string, int>, key: string, weight: int): (t: int)
    ensures key !in ratings || ratings[key] == 0 || ratings[key] == 3 ==> t == 0
  {
    if key in ratings && ratings[key] != 0 then (ratings[key] - 3) * weight else 0
  }

  /** The rating key of a slot: day, start and end joined by dashes. */
  function SlotKey(t: TimeSlot): string
  {
    DayName(t.day) + "-" + t.start + "-" + t.end
  }

  function PrefFor(pm: map<string, UserPreference>, code: string): Option<UserPreference>
  {
    if code in pm then Some(pm[code]) else None
  }

  /** What one slot adds: late penalty, early bonus and the course's rating of the slot. */
  function SlotPoints(pref: Option<UserPreference>, t: TimeSlot): int
  {
    (if EndsLate(t) then -LateClassPenalty else 0)
    + (if StartsEarly(t) then EarlyClassBonus else 0)
    + (if pref.Some? then RatingTerm(pref.value.timeSlotRatings, SlotKey(t), TimeSlotWeight) else 0)
  }

  function SlotPointsFn(pref: Option<UserPreference>): TimeSlot -> int
  {
    (t: TimeSlot) => SlotPoints(pref, t)
  }

  /** What one section adds: the priority and professor terms of its course's preference, the
      attendance bonus and its slots' points. */
  function SectionPoints(pm: map<string, UserPreference>, maxPriority: int, sec: ScheduleSection): int
  {
    var pref := PrefFor(pm, sec.courseCode);
    (if pref.Some? then
       (maxPriority + 1 - pref.value.priority) * PriorityWeight
       + RatingTerm(pref.value.professorRatings, sec.professor.name, ProfessorWeight)
     else 0)
    + (if sec.professor.takesAttendance then 0 else AttendanceBonus)
    + Sum(sec.schedule, SlotPointsFn(pref))
  }

  function SectionPointsFn(pm: map<string, UserPreference>, maxPriority: int): ScheduleSection -> int
  {
    (sec: ScheduleSection) => SectionPoints(pm, maxPriority, sec)
  }

  /** The score of a timetable under the supplied preferences. */
  function PreferenceScore(schedule: seq<ScheduleSection>, preferences: Option<seq<UserPreference>>): int
  {
    var ps := Supplied(preferences);
    Sum(schedule, SectionPointsFn(PrefIndex(ps), MaxPriority(ps)))
    + FreeDayBonus * FreeDays(AllSlots(schedule))
  }

  /** The `prefMap` loop: records each preference under its course code, in order. */
  method BuildPrefMap(preferences: Option<seq<UserPreference>>) returns (prefMap: map<string, UserPreference>)
    ensures prefMap == PrefIndex(Supplied(preferences))
  {
    prefMap := map[];
    if preferences.Some? {
      var ps := preferences.value;
      for i := 0 to |ps|
        invariant prefMap == IndexBy(ps[..i], PrefCodeFn())
      {
        assert ps[..i + 1][..i] == ps[..i];
        prefMap := prefMap[ps[i].courseCode := ps[i]];
      }
      assert ps[..|ps|] == ps;
    }
  }

  /** `calculateScore(schedule, preferences)`: builds `prefMap`, then walks sections and slots
      counting slots per day, then rewards every day left free. */
  method CalculateScore(schedule: seq<ScheduleSection>, preferences: Option<seq<UserPreference>>)
    returns (score: int)
    ensures score == PreferenceScore(schedule, preferences)
  {
    score := 0;
    var days := ZeroDayCounts();
    var prefMap := BuildPrefMap(preferences);
    var maxPriority := if preferences.Some? && |preferences.value| > 0 then MaxPriority(preferences.value) else 0;
    assert maxPriority == MaxPriority(Supplied(preferences));
    ghost var sectionFn := SectionPointsFn(prefMap, maxPriority);
    assert schedule[..0] == [] && AllSlots([]) == [];
    for i := 0 to |schedule|
      invariant score == Sum(schedule[..i], sectionFn)
      invariant forall d :: d in days && days[d] == DayCount(AllSlots(schedule[..i]), d)
    {
      var sec := schedule[i];
      SectionAdvance(schedule, i, sectionFn);
      ghost var before := AllSlots(schedule[..i]);
      var pref := if sec.courseCode in prefMap then Some(prefMap[sec.courseCode]) else None;
      ghost var s0 := score;
      if pref.Some? {
        var inverted := maxPriority + 1 - pref.value.priority;
        score := score + inverted * PriorityWeight;
        var ratings := pref.value.professorRatings;
        if sec.professor.name in ratings && ratings[sec.professor.name] != 0 {
          score := score + (ratings[sec.professor.name] - 3) * ProfessorWeight;
        }
      }
      assert score == s0 + (if pref.Some? then
        (maxPriority + 1 - pref.value.priority) * PriorityWeight
        + RatingTerm(pref.value.professorRatings, sec.professor.name, ProfessorWeight) else 0);
      ghost var s1 := score;
      if !sec.professor.takesAttendance {
        score := score + AttendanceBonus;
      }
      assert score == s1 + (if sec.professor.takesAttendance then 0 else AttendanceBonus);
      ghost var start, counted := score, days;
      score, days := ScoreSlots(sec.schedule, prefMap, sec.courseCode, score, days);
      assert score == s0 + SectionPoints(prefMap, maxPriority, sec);
      SlotsTotal(before, sec.schedule);
    }
    assert schedule[..|schedule|] == schedule;
    var free := CountFreeDays(days, AllSlots(schedule));
    score := score + FreeDayBonus * free;
  }

  /** The inner loop of `calculateScore` over one section's slots: the late penalty, the early
      bonus and the course's slot rating for each slot, and one more class on the slot's day. */
  method ScoreSlots(slots: seq<TimeSlot>, prefMap: map<string, UserPreference>, courseCode: string,
                    score0: int, days0: map<Day, int>)
    returns (score: int, days: map<Day, int>)
    requires forall d :: d in days0
    ensures score == score0 + Sum(slots, SlotPointsFn(PrefFor(prefMap, courseCode)))
    ensures forall d :: d in days && days[d] == days0[d] + DayCount(slots, d)
  {
    score, days := score0, days0;
    ghost var pref := PrefFor(prefMap, courseCode);
    ghost var slotFn := SlotPointsFn(pref);
    assert slots[..0] == [];
    for j := 0 to |slots|
      invariant score == score0 + Sum(slots[..j], slotFn)
      invariant forall d :: d in days && days[d] == days0[d] + DayCount(slots[..j], d)
    {
      var slot := slots[j];
      SlotAdvance(slots, j, pref);
      ghost var t0 := score;
      if EndsLate(slot) {
        score := score - LateClassPenalty;
      }
      if StartsEarly(slot) {
        score := score + EarlyClassBonus;
      }
      assert score == t0 + (if EndsLate(slot) then -LateClassPenalty else 0) + (if StartsEarly(slot) then EarlyClassBonus else 0);
      ghost var t1 := score;
      days := days[slot.day := days[slot.day] + 1];
      var slotPref := if courseCode in prefMap then Some(prefMap[courseCode]) else None;
      if slotPref.Some? {
        var key := SlotKey(slot);
        var ratings := slotPref.value.timeSlotRatings;
        if key in ratings && ratings[key] != 0 {
          score := score + (ratings[key] - 3) * TimeSlotWeight;
        }
      }
      assert score == t1 + (if pref.Some? then RatingTerm(pref.value.timeSlotRatings, SlotKey(slot), TimeSlotWeight) else 0);
    }
    assert slots[..|slots|] == slots;
  }

  lemma SectionAdvance(schedule: seq<ScheduleSection>, i: nat, f: ScheduleSection -> int)
    requires i < |schedule|
    ensures Sum(schedule[..i + 1], f) == Sum(schedule[..i], f) + f(schedule[i])
    ensures AllSlots(schedule[..i + 1]) == AllSlots(schedule[..i]) + schedule[i].schedule
  {
    assert schedule[..i + 1][..i] == schedule[..i];
  }

  lemma SlotAdvance(xs: seq<TimeSlot>, j: nat, pref: Option<UserPreference>)
    requires j < |xs|
    ensures Sum(xs[..j + 1], SlotPointsFn(pref)) == Sum(xs[..j], SlotPointsFn(pref)) + SlotPoints(pref, xs[j])
    ensures forall d :: DayCount(xs[..j + 1], d) == DayCount(xs[..j], d) + (if xs[j].day == d then 1 else 0)
  {
    assert xs[..j + 1][..j] == xs[..j];
  }

  /** The per-day counts of two runs of slots add up. */
  lemma SlotsTotal(before: seq<TimeSlot>, xs: seq<TimeSlot>)
    ensures forall d :: DayCount(before + xs, d) == DayCount(before, d) + DayCount(xs, d)
  {
    forall d
      ensures DayCount(before + xs, d) == DayCount(before, d) + DayCount(xs, d)
    {
      SumAppend(before, xs, OnDayFn(d));
    }
  }

  // ----- Properties -----

  /** If several preferences share a course code, the last one is the one used. */
  lemma PrefMapLastWins(ps: seq<UserPreference>, i: nat)
    requires i < |ps|
    requires forall j :: i < j < |ps| ==> ps[j].courseCode != ps[i].courseCode
    ensures PrefFor(PrefIndex(ps), ps[i].courseCode) == Some(ps[i])
  {
    IndexByLastWins(ps, PrefCodeFn(), ps[i].courseCode, i);
  }

  /** A course has a preference exactly when some supplied preference names its code. */
  lemma PrefMapKeys(ps: seq<UserPreference>, code: string)
    ensures PrefFor(PrefIndex(ps), code).Some? <==> exists i :: 0 <= i < |ps| && ps[i].courseCode == code
  {
    IndexByKeys(ps, PrefCodeFn(), code);
  }

  /** A course with a preference earns at least one priority step, and exactly one when its
      priority is the largest supplied. */
  lemma PriorityWeightRange(ps: seq<UserPreference>, code: string)
    requires code in PrefIndex(ps)
    ensures (MaxPriority(ps) + 1 - PrefIndex(ps)[code].priority) * PriorityWeight >= PriorityWeight
    ensures (MaxPriority(ps) + 1 - PrefIndex(ps)[code].priority) * PriorityWeight == PriorityWeight
        <==> PrefIndex(ps)[code].priority == MaxPriority(ps)
  {
    IndexByStored(ps, PrefCodeFn());
    MaxPrioritySpec(ps);
    assert PrefIndex(ps)[code] in ps;
  }

  /** The total of a per-slot term over each section's own slots. */
  function SlotTotalFn(g: TimeSlot -> int): ScheduleSection -> int
  {
    (sec: ScheduleSection) => Sum(sec.schedule, g)
  }

  /** Summing a slot term section by section is summing it over all slots. */
  lemma {:induction false} SumOverSections(s: seq<ScheduleSection>, g: TimeSlot -> int)
    ensures Sum(s, SlotTotalFn(g)) == Sum(AllSlots(s), g)
  {
    if s != [] {
      var n := |s| - 1;
      SumOverSections(s[..n], g);
      SumAppend(AllSlots(s[..n]), s[n].schedule, g);
    }
  }

  /** Without preferences only the fixed terms remain: 40 per section whose professor does not
      take attendance, 10 per slot starting before 10:00, -30 per slot ending after 13:00 and 60
      per day of the week without classes. */
  lemma NoPreferencesScore(schedule: seq<ScheduleSection>, preferences: Option<seq<UserPreference>>)
    requires Supplied(preferences) == []
    ensures PreferenceScore(schedule, preferences) ==
      AttendanceBonus * Sum(schedule, NoAttendanceFn())
      + EarlyClassBonus * Sum(AllSlots(schedule), EarlyCountFn())
      - LateClassPenalty * Sum(AllSlots(schedule), LateCountFn())
      + FreeDayBonus * FreeDays(AllSlots(schedule))
  {
    var slotFn := SlotPointsFn(None);
    var f := SectionPointsFn(map[], 0);
    assert PrefIndex(Supplied(preferences)) == map[] && MaxPriority(Supplied(preferences)) == 0;
    assert PreferenceScore(schedule, preferences) == Sum(schedule, f) + FreeDayBonus * FreeDays(AllSlots(schedule));
    SectionPointsNoPrefs();
    SumLinear(schedule, f, NoAttendanceFn(), SlotTotalFn(slotFn), AttendanceBonus, 1);
    SumOverSections(schedule, slotFn);
    SlotPointsNoPrefs();
    SumLinear(AllSlots(schedule), slotFn, EarlyCountFn(), LateCountFn(), EarlyClassBonus, -LateClassPenalty);
  }

  lemma SectionPointsNoPrefs()
    ensures forall sec ::
      SectionPointsFn(map[], 0)(sec) == AttendanceBonus * NoAttendanceFn()(sec) + 1 * SlotTotalFn(SlotPointsFn(None))(sec)
  {
  }

  lemma SlotPointsNoPrefs()
    ensures forall t ::
      SlotPointsFn(None)(t) == EarlyClassBonus * EarlyCountFn()(t) + (-LateClassPenalty) * LateCountFn()(t)
  {
  }

  /** The score does not depend on the order of the sections. */
  lemma ScorePermutation(a: seq<ScheduleSection>, b: seq<ScheduleSection>, preferences: Option<seq<UserPreference>>)
    requires multiset(a) == multiset(b)
    ensures PreferenceScore(a, preferences) == PreferenceScore(b, preferences)
  {
    var ps := Supplied(preferences);
    SumPermutation(a, b, SectionPointsFn(PrefIndex(ps), MaxPriority(ps)));
    AllSlotsPermutation(a, b);
    var xs, ys := AllSlots(a), AllSlots(b);
    assert forall t :: t in xs <==> t in ys by {
      forall t ensures t in xs <==> t in ys {
        assert t in xs <==> t in multiset(xs);
        assert t in ys <==> t in multiset(ys);
      }
    }
    FreeDaysSameSlots(xs, ys);
  }

  /** Section `i` with one more slot `t`. */
  function WithSlot(schedule: seq<ScheduleSection>, i: nat, t: TimeSlot): seq<ScheduleSection>
    requires i < |schedule|
  {
    schedule[i := schedule[i].(schedule := schedule[i].schedule + [t])]
  }

  /** Adding a slot to one section adds one class on the slot's day and nowhere else. */
  lemma WithSlotDays(schedule: seq<ScheduleSection>, i: nat, t: TimeSlot)
    requires i < |schedule|
    ensures forall d ::
              DayCount(AllSlots(WithSlot(schedule, i, t)), d) == DayCount(AllSlots(schedule), d) + (if d == t.day then 1 else 0)
  {
    var before, after := AllSlots(schedule[..i]), AllSlots(schedule[i + 1..]);
    var own := schedule[i].schedule;
    WithSlotSlots(schedule, i, t);
    forall d
      ensures DayCount(AllSlots(WithSlot(schedule, i, t)), d) == DayCount(AllSlots(schedule), d) + (if d == t.day then 1 else 0)
    {
      var f := OnDayFn(d);
      SumAppend(before + own, after, f);
      SumAppend(before, own, f);
      SumAppend(before + (own + [t]), after, f);
      SumAppend(before, own + [t], f);
      SumAppend(own, [t], f);
      assert Sum([t], f) == f(t) by { assert [t][..0] == []; }
    }
  }

  /** The timetable with one more slot in section `i` lists the same slots, with the new one
      right after that section's own. */
  lemma WithSlotSlots(schedule: seq<ScheduleSection>, i: nat, t: TimeSlot)
    requires i < |schedule|
    ensures var before, after := AllSlots(schedule[..i]), AllSlots(schedule[i + 1..]);
      AllSlots(schedule) == before + schedule[i].schedule + after
      && AllSlots(WithSlot(schedule, i, t)) == before + (schedule[i].schedule + [t]) + after
  {
    var sec := schedule[i];
    var sec' := sec.(schedule := sec.schedule + [t]);
    var a, b := schedule[..i], schedule[i + 1..];
    SplitAt(schedule, i);
    UpdateAt(schedule, i, sec');
    AllSlotsAppend(a + [sec], b);
    AllSlotsAppend(a, [sec]);
    AllSlotsAppend(a + [sec'], b);
    AllSlotsAppend(a, [sec']);
    assert AllSlots([sec]) == sec.schedule by { assert [sec][..0] == []; }
    assert AllSlots([sec']) == sec'.schedule by { assert [sec'][..0] == []; }
  }

  /** Adding one slot on a day that had no classes, with nothing else changed, loses the 60 of
      that free day and adds the slot's own terms. */
  lemma AddSlotOnFreeDay(schedule: seq<ScheduleSection>, preferences: Option<seq<UserPreference>>, i: nat, t: TimeSlot)
    requires i < |schedule|
    requires DayCount(AllSlots(schedule), t.day) == 0
    ensures PreferenceScore(WithSlot(schedule, i, t), preferences)
      == PreferenceScore(schedule, preferences) - FreeDayBonus
         + SlotPoints(PrefFor(PrefIndex(Supplied(preferences)), schedule[i].courseCode), t)
  {
    var ps := Supplied(preferences);
    var pm, mp := PrefIndex(ps), MaxPriority(ps);
    var sec := schedule[i];
    var sec' := sec.(schedule := sec.schedule + [t]);
    SectionWithSlot(pm, mp, sec, t);
    SumUpdate(schedule, i, sec', SectionPointsFn(pm, mp));
    WithSlotDays(schedule, i, t);
    FreeDaysAddSlot(AllSlots(schedule), AllSlots(WithSlot(schedule, i, t)), t);
  }

  lemma SectionWithSlot(pm: map<string, UserPreference>, mp: int, sec: ScheduleSection, t: TimeSlot)
    ensures SectionPoints(pm, mp, sec.(schedule := sec.schedule + [t]))
      == SectionPoints(pm, mp, sec) + SlotPoints(PrefFor(pm, sec.courseCode), t)
  {
    assert (sec.schedule + [t])[..|sec.schedule|] == sec.schedule;
  }

  lemma DayNameInjective(d: Day, e: Day)
    requires DayName(d) == DayName(e)
    ensures d == e
  {
    assert DayName(d)[0] == DayName(e)[0] && |DayName(d)| == |DayName(e)|;
    if |DayName(d)| > 1 {
      assert DayName(d)[1] == DayName(e)[1];
    }
  }

  /** On five-character times, the rating key names exactly one slot, so a time-slot rating
      applies to that day, start and end only. */
  lemma SlotKeyInjective(a: TimeSlot, b: TimeSlot)
    requires |a.start| == 5 && |a.end| == 5 && |b.start| == 5 && |b.end| == 5
    requires SlotKey(a) == SlotKey(b)
    ensures a == b
  {
    var k := SlotKey(a);
    var n, m := |DayName(a.day)|, |DayName(b.day)|;
    assert |k| == n + 12 && |SlotKey(b)| == m + 12;
    assert k[..n] == DayName(a.day);
    assert SlotKey(b)[..m] == DayName(b.day);
    DayNameInjective(a.day, b.day);
    assert k[n + 1..n + 6] == a.start && SlotKey(b)[n + 1..n + 6] == b.start;
    assert k[n + 7..] == a.end && SlotKey(b)[n + 7..] == b.end;
  }
}
