/** Times of day and the two overlap tests of the engine. Times stay "HH:MM" text, as in the
    catalog: the exhaustive solver and both score functions compare them as strings, the genetic
    solver's conflict penalty parses them into minutes. The lemmas here show that the two agree on
    zero-padded times and what goes wrong on the one-digit hours the importer also accepts. */
module TimeModel {
  import opened Types
  import opened Text
  import opened Sums

  /** A zero-padded "HH:MM" time with a minutes field below 60. */
  predicate IsHHMM(t: string)
  {
    |t| == 5 && IsDigit(t[0]) && IsDigit(t[1]) && t[2] == ':' && '0' <= t[3] <= '5' && IsDigit(t[4])
  }

  /** Minutes since midnight of a zero-padded time. */
  function Minutes(t: string): nat
    requires IsHHMM(t)
  {
    (10 * DigitValue(t[0]) + DigitValue(t[1])) * 60 + 10 * DigitValue(t[3]) + DigitValue(t[4])
  }

  /** On zero-padded times, string order is minute order. */
  lemma LexIsMinuteOrder(a: string, b: string)
    requires IsHHMM(a) && IsHHMM(b)
    ensures StrLess(a, b) <==> Minutes(a) < Minutes(b)
  {
    StrLessStep(a, b);
    StrLessStep(a[1..], b[1..]);
    StrLessStep(a[2..], b[2..]);
    StrLessStep(a[3..], b[3..]);
    StrLessStep(a[4..], b[4..]);
    assert a[1..][1..] == a[2..] && b[1..][1..] == b[2..];
    assert a[2..][1..] == a[3..] && b[2..][1..] == b[3..];
    assert a[3..][1..] == a[4..] && b[3..][1..] == b[4..];
    assert a[4..][1..] == [] && b[4..][1..] == [];
    var ha, hb := 10 * DigitValue(a[0]) + DigitValue(a[1]), 10 * DigitValue(b[0]) + DigitValue(b[1]);
    var ma, mb := 10 * DigitValue(a[3]) + DigitValue(a[4]), 10 * DigitValue(b[3]) + DigitValue(b[4]);
    assert ma < 60 && mb < 60;
    assert Minutes(a) < Minutes(b) <==> ha < hb || (ha == hb && ma < mb);
  }

  /** One step of the string comparison. */
  lemma StrLessStep(a: string, b: string)
    requires a != [] && b != []
    ensures StrLess(a, b) == (a[0] < b[0] || (a[0] == b[0] && StrLess(a[1..], b[1..])))
  {
  }

  /** The exhaustive solver's test: two slots on one day overlap unless one ends no later than
      the other starts, comparing the time strings. */
  predicate TimeOverlap(a: TimeSlot, b: TimeSlot)
  {
    if a.day != b.day then false
    else !(StrLe(a.end, b.start) || StrLe(b.end, a.start))
  }

  /** JavaScript `x <= y` on strings. */
  predicate StrLe(x: string, y: string)
  {
    !StrLess(y, x)
  }

  /** The test is symmetric, never relates different days, and treats slots as half-open:
      one slot ending exactly when the other starts does not overlap it. */
  lemma HalfOpenOverlap(a: TimeSlot, b: TimeSlot)
    ensures TimeOverlap(a, b) == TimeOverlap(b, a)
    ensures a.day != b.day ==> !TimeOverlap(a, b)
    ensures a.end == b.start ==> !TimeOverlap(a, b)
  {
    StrLessIrreflexive(a.end);
  }

  /** On zero-padded times the string test is the interval test on minutes. */
  lemma TimeOverlapMinutes(a: TimeSlot, b: TimeSlot)
    requires IsHHMM(a.start) && IsHHMM(a.end) && IsHHMM(b.start) && IsHHMM(b.end)
    ensures TimeOverlap(a, b) <==>
      a.day == b.day && Minutes(a.start) < Minutes(b.end) && Minutes(b.start) < Minutes(a.end)
  {
    LexIsMinuteOrder(b.start, a.end);
    LexIsMinuteOrder(a.start, b.end);
  }

  /** JavaScript's unary `+` on a string: surrounding whitespace is ignored, the empty string is 0,
      a run of decimal digits is its value, anything else is NaN (`None`). */
  function NumberOf(s: string): Option<int>
  {
    var t := Trim(s);
    if t == [] then Some(0)
    else if forall i :: 0 <= i < |t| ==> IsDigit(t[i]) then Some(Decimal(t))
    else None
  }


  /** `s.slice(0, 2)` and `s.slice(3)`, which clamp to the string's length. */
  function HourField(s: string): string
  {
    if |s| < 2 then s else s[..2]
  }

  function MinuteField(s: string): string
  {
    if |s| < 3 then [] else s[3..]
  }

  /** The genetic solver's parse `+s.slice(0,2)*60 + +s.slice(3)`; NaN is `None`. */
  function MinuteOf(s: string): Option<int>
  {
    match (NumberOf(HourField(s)), NumberOf(MinuteField(s)))
    case (Some(h), Some(m)) => Some(h * 60 + m)
    case _ => None
  }

  /** The genetic solver's test: same day, then `as < be && ae > bs` on parsed minutes. A NaN on
      either side makes both comparisons false. */
  predicate MinuteOverlap(a: TimeSlot, b: TimeSlot)
  {
    a.day == b.day &&
    match (MinuteOf(a.start), MinuteOf(a.end), MinuteOf(b.start), MinuteOf(b.end))
    case (Some(aStart), Some(aEnd), Some(bStart), Some(bEnd)) => aStart < bEnd && aEnd > bStart
    case _ => false
  }

  /** Text without whitespace is its own trim. */
  lemma TrimNoSpace(s: string)
    requires forall i :: 0 <= i < |s| ==> !IsSpace(s[i])
    ensures Trim(s) == s
  {
    assert TrimStart(s) == s;
    assert TrimEnd(s) == s;
  }

  lemma NumberOfTwoDigits(s: string)
    requires |s| == 2 && IsDigit(s[0]) && IsDigit(s[1])
    ensures NumberOf(s) == Some(10 * DigitValue(s[0]) + DigitValue(s[1]))
  {
    assert !IsSpace(s[0]) && !IsSpace(s[1]);
    TrimNoSpace(s);
    assert forall i :: 0 <= i < |s| ==> IsDigit(s[i]);
    assert s[..1] == [s[0]] && [s[0]][..0] == [];
    assert Decimal(s[..1]) == DigitValue(s[0]);
  }

  /** The parse reads a zero-padded time correctly. */
  lemma MinuteOfZeroPadded(t: string)
    requires IsHHMM(t)
    ensures MinuteOf(t) == Some(Minutes(t))
  {
    NumberOfTwoDigits(t[..2]);
    NumberOfTwoDigits(t[3..]);
  }

  /** On zero-padded times the genetic solver's conflict test and the exhaustive solver's agree. */
  lemma OverlapTestsAgree(a: TimeSlot, b: TimeSlot)
    requires IsHHMM(a.start) && IsHHMM(a.end) && IsHHMM(b.start) && IsHHMM(b.end)
    ensures MinuteOverlap(a, b) == TimeOverlap(a, b)
  {
    MinuteOfZeroPadded(a.start);
    MinuteOfZeroPadded(a.end);
    MinuteOfZeroPadded(b.start);
    MinuteOfZeroPadded(b.end);
    TimeOverlapMinutes(a, b);
  }

  /** With the one-digit hours the importer's `\d{1,2}:\d{2}` pattern accepts, both tests miss a
      real overlap: 9:00-10:30 and 10:00-11:00 share half an hour, but "11:00" sorts before
      "9:00" and "9:" is not a number. */
  lemma OneDigitHourOverlapMissed()
    ensures var a := TimeSlot(Saturday, "9:00", "10:30");
            var b := TimeSlot(Saturday, "10:00", "11:00");
            !TimeOverlap(a, b) && !MinuteOverlap(a, b)
  {
    StrLessStep("9:00", "11:00");
    assert !StrLess("9:00", "11:00");
    NotANumber();
    assert MinuteOf("9:00") == None by {
      assert HourField("9:00") == "9:";
    }
  }

  lemma NotANumber()
    ensures NumberOf("9:") == None
  {
    assert !IsSpace('9') && !IsSpace(':');
    TrimNoSpace("9:");
    assert !IsDigit("9:"[1]);
  }

  // ----- Per-slot terms shared by both score functions -----

  /** `slot.end > '13:00'` */
  predicate EndsLate(t: TimeSlot)
  {
    StrLess("13:00", t.end)
  }

  /** `slot.start < '10:00'` */
  predicate StartsEarly(t: TimeSlot)
  {
    StrLess(t.start, "10:00")
  }

  /** On zero-padded times the two string tests mean "ends after 13:00" and "starts before 10:00". */
  lemma LateAndEarlyInMinutes(t: TimeSlot)
    requires IsHHMM(t.start) && IsHHMM(t.end)
    ensures EndsLate(t) <==> Minutes(t.end) > 13 * 60
    ensures StartsEarly(t) <==> Minutes(t.start) < 10 * 60
  {
    LexIsMinuteOrder("13:00", t.end);
    LexIsMinuteOrder(t.start, "10:00");
  }

  function LateCountFn(): TimeSlot -> int
  {
    (t: TimeSlot) => if EndsLate(t) then 1 else 0
  }

  function EarlyCountFn(): TimeSlot -> int
  {
    (t: TimeSlot) => if StartsEarly(t) then 1 else 0
  }

  function OnDayFn(d: Day): TimeSlot -> int
  {
    (t: TimeSlot) => if t.day == d then 1 else 0
  }

  /** How many slots fall on day `d`: the `days[slot.day]++` counter. */
  function DayCount(xs: seq<TimeSlot>, d: Day): int
  {
    Sum(xs, OnDayFn(d))
  }

  lemma DayCountZero(xs: seq<TimeSlot>, d: Day)
    ensures DayCount(xs, d) >= 0
    ensures DayCount(xs, d) == 0 <==> forall i :: 0 <= i < |xs| ==> xs[i].day != d
    ensures DayCount(xs, d) == 0 <==> forall t :: t in xs ==> t.day != d
  {
    SumZero(xs, OnDayFn(d));
  }

  /** 1 when no slot falls on `d`. */
  function FreeOn(xs: seq<TimeSlot>, d: Day): int
  {
    if DayCount(xs, d) == 0 then 1 else 0
  }

  /** How many days of `ws` have no slot: the final loop over the counters. */
  function FreeAmong(ws: seq<Day>, xs: seq<TimeSlot>): int
  {
    if ws == [] then 0 else FreeAmong(ws[..|ws| - 1], xs) + FreeOn(xs, ws[|ws| - 1])
  }

  /** One more day of the week adds 1 when it has no slot. */
  lemma FreeAmongStep(xs: seq<TimeSlot>, w: nat)
    requires w < |Week|
    ensures FreeAmong(Week[..w + 1], xs) == FreeAmong(Week[..w], xs) + (if DayCount(xs, Week[w]) == 0 then 1 else 0)
  {
    assert Week[..w + 1][..w] == Week[..w];
  }

  /** The weekdays with no slot at all. */
  function FreeDays(xs: seq<TimeSlot>): int
  {
    FreeAmong(Week, xs)
  }

  /** The `days` counters both scoring functions start from: every day of the week at zero. */
  method ZeroDayCounts() returns (days: map<Day, int>)
    ensures forall d :: d in days && days[d] == DayCount([], d)
  {
    days := map[Saturday := 0, Sunday := 0, Monday := 0, Tuesday := 0,
                Wednesday := 0, Thursday := 0, Friday := 0];
    forall d
      ensures d in days && days[d] == DayCount([], d)
    {
      match d {
        case Saturday => case Sunday => case Monday => case Tuesday =>
        case Wednesday => case Thursday => case Friday =>
      }
    }
  }

  /** The closing loop of both scoring functions: from the per-day counters of a timetable's
      slots, the number of weekdays on which it has no class. */
  method CountFreeDays(days: map<Day, int>, ghost slots: seq<TimeSlot>) returns (free: int)
    requires forall d :: d in days && days[d] == DayCount(slots, d)
    ensures free == FreeDays(slots)
  {
    free := 0;
    for w := 0 to |Week|
      invariant free == FreeAmong(Week[..w], slots)
    {
      FreeAmongStep(slots, w);
      if days[Week[w]] == 0 {
        free := free + 1;
      }
    }
    assert Week[..|Week|] == Week;
  }

  lemma FreeDaysExplicit(xs: seq<TimeSlot>)
    ensures FreeDays(xs) == FreeOn(xs, Saturday) + FreeOn(xs, Sunday) + FreeOn(xs, Monday)
      + FreeOn(xs, Tuesday) + FreeOn(xs, Wednesday) + FreeOn(xs, Thursday) + FreeOn(xs, Friday)
  {
    var w := Week;
    assert FreeAmong(w[..0], xs) == 0;
    assert FreeAmong(w[..1], xs) == FreeAmong(w[..0], xs) + FreeOn(xs, Saturday) by { assert w[..1][..0] == w[..0]; }
    assert FreeAmong(w[..2], xs) == FreeAmong(w[..1], xs) + FreeOn(xs, Sunday) by { assert w[..2][..1] == w[..1]; }
    assert FreeAmong(w[..3], xs) == FreeAmong(w[..2], xs) + FreeOn(xs, Monday) by { assert w[..3][..2] == w[..2]; }
    assert FreeAmong(w[..4], xs) == FreeAmong(w[..3], xs) + FreeOn(xs, Tuesday) by { assert w[..4][..3] == w[..3]; }
    assert FreeAmong(w[..5], xs) == FreeAmong(w[..4], xs) + FreeOn(xs, Wednesday) by { assert w[..5][..4] == w[..4]; }
    assert FreeAmong(w[..6], xs) == FreeAmong(w[..5], xs) + FreeOn(xs, Thursday) by { assert w[..6][..5] == w[..5]; }
    assert FreeAmong(w, xs) == FreeAmong(w[..6], xs) + FreeOn(xs, Friday) by { assert w[..7] == w; }
  }

  /** Free days depend only on which slots occur, not on their order or repetition. */
  lemma FreeDaysSameSlots(xs: seq<TimeSlot>, ys: seq<TimeSlot>)
    requires forall t :: t in xs <==> t in ys
    ensures FreeDays(xs) == FreeDays(ys)
  {
    forall d: Day
      ensures FreeOn(xs, d) == FreeOn(ys, d)
    {
      DayCountZero(xs, d);
      DayCountZero(ys, d);
    }
    FreeDaysExplicit(xs);
    FreeDaysExplicit(ys);
  }

  /** Adding one slot: on a day that had none it takes exactly one free day away, on a day that
      already had a class it changes nothing. */
  lemma FreeDaysAddSlot(xs: seq<TimeSlot>, ys: seq<TimeSlot>, t: TimeSlot)
    requires forall d :: DayCount(ys, d) == DayCount(xs, d) + (if d == t.day then 1 else 0)
    ensures DayCount(xs, t.day) == 0 ==> FreeDays(ys) == FreeDays(xs) - 1
    ensures DayCount(xs, t.day) > 0 ==> FreeDays(ys) == FreeDays(xs)
  {
    FreeDaysExplicit(xs);
    FreeDaysExplicit(ys);
    forall d | d != t.day
      ensures FreeOn(ys, d) == FreeOn(xs, d)
    {
    }
    DayCountZero(xs, t.day);
    assert FreeOn(ys, t.day) == 0;
    assert FreeOn(xs, t.day) == (if DayCount(xs, t.day) == 0 then 1 else 0);
  }
}
