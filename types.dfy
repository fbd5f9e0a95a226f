/** The catalog's value types: weekdays, time slots, professors, sections, courses and the
    flattened (course, section) entries that a timetable is made of. */
module Types {
  import opened Sums

  datatype Option<+T> = None | Some(value: T)

  /** The seven weekdays of the Iranian academic week, in the order the score counters list them. */
  datatype Day = Saturday | Sunday | Monday | Tuesday | Wednesday | Thursday | Friday

  /** The week as the score functions iterate over it. */
  const Week: seq<Day> := [Saturday, Sunday, Monday, Tuesday, Wednesday, Thursday, Friday]

  /** The day's name as it appears in a time-slot rating key. */
  function DayName(d: Day): string
  {
    match d
    case Saturday => "Saturday"
    case Sunday => "Sunday"
    case Monday => "Monday"
    case Tuesday => "Tuesday"
    case Wednesday => "Wednesday"
    case Thursday => "Thursday"
    case Friday => "Friday"
  }

  /** One weekly meeting; `start` and `end` are "HH:MM" text. */
  datatype TimeSlot = TimeSlot(day: Day, start: string, end: string)

  datatype Quality = Excellent | Good | Average | Poor

  datatype Professor = Professor(name: string, takesAttendance: bool, teachingQuality: Quality)

  datatype Section = Section(sectionCode: string, professor: Professor, schedule: seq<TimeSlot>)

  datatype Course = Course(courseName: string, courseCode: string, units: int, sections: seq<Section>)

  /** A section resolved against its course, as the solvers place it in a timetable. */
  datatype ScheduleSection = ScheduleSection(
    courseName: string,
    courseCode: string,
    sectionCode: string,
    professor: Professor,
    schedule: seq<TimeSlot>)

  function EntryOf(c: Course, s: Section): ScheduleSection
  {
    ScheduleSection(c.courseName, c.courseCode, s.sectionCode, s.professor, s.schedule)
  }

  /** 1 for a section whose professor does not take attendance. */
  function NoAttendanceFn(): ScheduleSection -> int
  {
    (s: ScheduleSection) => if s.professor.takesAttendance then 0 else 1
  }

  /** Every slot of a timetable, section by section. */
  function AllSlots(s: seq<ScheduleSection>): (r: seq<TimeSlot>)
  {
    if s == [] then [] else AllSlots(s[..|s| - 1]) + s[|s| - 1].schedule
  }

  lemma {:induction false} AllSlotsAppend(a: seq<ScheduleSection>, b: seq<ScheduleSection>)
    ensures AllSlots(a + b) == AllSlots(a) + AllSlots(b)
  {
    if b == [] {
      assert a + b == a;
    } else {
      assert (a + b)[..|a + b| - 1] == a + b[..|b| - 1];
      AllSlotsAppend(a, b[..|b| - 1]);
    }
  }

  lemma {:induction false} AllSlotsMember(s: seq<ScheduleSection>, t: TimeSlot)
    ensures t in AllSlots(s) <==> exists i, k :: 0 <= i < |s| && 0 <= k < |s[i].schedule| && s[i].schedule[k] == t
  {
    if s != [] {
      var n := |s| - 1;
      AllSlotsMember(s[..n], t);
      if t in AllSlots(s[..n]) {
        var i, k :| 0 <= i < n && 0 <= k < |s[..n][i].schedule| && s[..n][i].schedule[k] == t;
        assert s[i].schedule[k] == t;
      }
      if t in s[n].schedule {
        var k :| 0 <= k < |s[n].schedule| && s[n].schedule[k] == t;
      }
      if exists i, k :: 0 <= i < |s| && 0 <= k < |s[i].schedule| && s[i].schedule[k] == t {
        var i, k :| 0 <= i < |s| && 0 <= k < |s[i].schedule| && s[i].schedule[k] == t;
        if i < n {
          assert s[..n][i].schedule[k] == t;
        } else {
          assert t in s[n].schedule;
        }
      }
    }
  }

  /** Reordering the sections reorders their slots and nothing more. */
  lemma {:induction false} AllSlotsPermutation(a: seq<ScheduleSection>, b: seq<ScheduleSection>)
    requires multiset(a) == multiset(b)
    ensures multiset(AllSlots(a)) == multiset(AllSlots(b))
    decreases |a|
  {
    if a != [] {
      var n := |a| - 1;
      var x := a[n];
      var j := MatchLast(a, b);
      var rest := b[..j] + b[j + 1..];
      AllSlotsPermutation(a[..n], rest);
      assert AllSlots([x]) == x.schedule by {
        assert [x][..0] == [];
      }
      var left, right := AllSlots(b[..j]), AllSlots(b[j + 1..]);
      assert AllSlots(b) == left + x.schedule + right by {
        AllSlotsAppend(b[..j] + [x], b[j + 1..]);
        AllSlotsAppend(b[..j], [x]);
      }
      assert AllSlots(rest) == left + right by {
        AllSlotsAppend(b[..j], b[j + 1..]);
      }
      assert AllSlots(a) == AllSlots(a[..n]) + x.schedule by {
        AllSlotsAppend(a[..n], [x]);
      }
      calc {
        multiset(AllSlots(a));
        multiset(AllSlots(a[..n])) + multiset(x.schedule);
        multiset(left + right) + multiset(x.schedule);
        multiset(left) + multiset(right) + multiset(x.schedule);
        multiset(left) + multiset(x.schedule) + multiset(right);
        multiset(AllSlots(b));
      }
    }
  }
}
