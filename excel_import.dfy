/** Reading the registrar's course sheet: the course-code column, the Persian weekday names in
    the time-and-place column, the de-duplication of a section's slots and the folding of the
    sheet's rows into courses keyed by course code. */
module ExcelImport {
  import opened Types
  import opened Text

  // ----- Course code column -----

  /** The course code and the section code read from a cell such as `3630014_01`. */
  datatype Codes = Codes(courseCode: string, sectionCode: string)

  /** The section code of a cell without `_`. */
  const DefaultSection: string := "01"

  /** `extractCourseCode`: the text before the first `_` and the text between the first and the
      second `_`; a cell without `_` is all course code, in section `01`. */
  function ExtractCourseCode(cell: string): Codes
  {
    var parts := Split(cell, "_");
    if |parts| >= 2 then Codes(parts[0], parts[1]) else Codes(cell, DefaultSection)
  }

  /** A cell without `_` is all course code, in section `01`. */
  lemma ExtractCourseCodeDefault(cell: string)
    requires '_' !in cell
    ensures ExtractCourseCode(cell) == Codes(cell, DefaultSection)
  {
    UnderscoreSearch(cell);
  }

  /** `indexOf('_')` finds the first `_`, and nothing exactly when there is none. */
  lemma UnderscoreSearch(s: string)
    ensures IndexOf(s, "_").NotFound? <==> '_' !in s
    ensures IndexOf(s, "_").Found? ==> var i := IndexOf(s, "_").value;
      i < |s| && s[i] == '_' && '_' !in s[..i]
  {
    IndexOfSpec(s, "_");
    assert forall j :: OccursAt(s, "_", j) <==> 0 <= j < |s| && s[j] == '_' by {
      forall j | 0 <= j < |s|
        ensures OccursAt(s, "_", j) <==> s[j] == '_'
      {
        assert |s[j..j + 1]| == 1 && s[j..j + 1][0] == s[j];
      }
    }
  }

  /** A cell written as code, `_`, section and possibly more `_`-separated text reads back as
      that code and section. */
  lemma ExtractCourseCodeRoundTrip(code: string, section: string, tail: string)
    requires '_' !in code && '_' !in section
    requires tail == [] || tail[0] == '_'
    ensures ExtractCourseCode(code + "_" + section + tail) == Codes(code, section)
  {
    var cell := code + "_" + section + tail;
    var rest := section + tail;
    FirstUnderscoreAt(cell, |code|);
    assert cell[..|code|] == code;
    assert cell[|code| + 1..] == rest;
    assert Split(cell, "_") == [code] + Split(rest, "_");
    if tail == [] {
      assert rest == section;
      UnderscoreSearch(rest);
    } else {
      FirstUnderscoreAt(rest, |section|);
      assert rest[..|section|] == section;
    }
  }

  lemma FirstUnderscoreAt(s: string, i: nat)
    requires i < |s| && s[i] == '_' && '_' !in s[..i]
    ensures IndexOf(s, "_") == Found(i)
  {
    UnderscoreSearch(s);
    assert s[..i + 1][i] == '_';
  }

  // ----- Weekday names -----

  const Chaharshanbe: string := "چهارشنبه"
  const ChaharShanbe: string := "چهار شنبه"
  const Panjshanbe: string := "پنج\U{200C}شنبه"
  const PanjShanbe: string := "پنج شنبه"
  const Seshanbe: string := "سه\U{200C}شنبه"
  const SeShanbe: string := "سه شنبه"
  /** Written with the Arabic letters yeh and kaf, and a space. */
  const YekShanbe: string := "يك شنبه"
  /** Written with the Arabic yeh and the Persian keheh, without a space. */
  const Yekshanbe: string := "يکشنبه"
  const Doshanbe: string := "دوشنبه"
  const Jomeh: string := "جمعه"
  const Shanbe: string := "شنبه"

  /** The text holds one of the spellings `findDayInText` recognises for `d`. */
  predicate Mentions(text: string, d: Day)
  {
    match d
    case Saturday => Contains(text, Shanbe)
    case Sunday => Contains(text, YekShanbe) || Contains(text, Yekshanbe)
    case Monday => Contains(text, Doshanbe)
    case Tuesday => Contains(text, Seshanbe) || Contains(text, SeShanbe)
    case Wednesday => Contains(text, Chaharshanbe) || Contains(text, ChaharShanbe)
    case Thursday => Contains(text, Panjshanbe) || Contains(text, PanjShanbe)
    case Friday => Contains(text, Jomeh)
  }

  /** The order in which `findDayInText` tries the days: the names that hold `شنبه` inside a
      longer word before `شنبه` itself. */
  function CheckRank(d: Day): nat
  {
    match d
    case Wednesday => 0
    case Thursday => 1
    case Tuesday => 2
    case Sunday => 3
    case Monday => 4
    case Friday => 5
    case Saturday => 6
  }

  /** `findDayInText`: the first day, in check order, that the text mentions. */
  function FindDayInText(text: string): Option<Day>
  {
    if Contains(text, Chaharshanbe) || Contains(text, ChaharShanbe) then Some(Wednesday)
    else if Contains(text, Panjshanbe) || Contains(text, PanjShanbe) then Some(Thursday)
    else if Contains(text, Seshanbe) || Contains(text, SeShanbe) then Some(Tuesday)
    else if Contains(text, YekShanbe) || Contains(text, Yekshanbe) then Some(Sunday)
    else if Contains(text, Doshanbe) then Some(Monday)
    else if Contains(text, Jomeh) then Some(Friday)
    else if Contains(text, Shanbe) && !Contains(text, YekShanbe) && !Contains(text, Yekshanbe) then Some(Saturday)
    else None
  }

  /** A found day is mentioned, and no day ranked ahead of it is. */
  lemma FindDayFirst(text: string)
    ensures var r := FindDayInText(text);
      r.Some? ==> Mentions(text, r.value) && forall d :: CheckRank(d) < CheckRank(r.value) ==> !Mentions(text, d)
  {
  }

  /** No day is found exactly when the text mentions no day at all; since every name but
      `جمعه` holds `شنبه`, that is when neither `شنبه` nor `جمعه` occurs. */
  lemma FindDayNone(text: string)
    ensures FindDayInText(text).None? <==> forall d :: !Mentions(text, d)
    ensures FindDayInText(text).None? <==> !Contains(text, Shanbe) && !Contains(text, Jomeh)
  {
    FindDayFirst(text);
    if !Contains(text, Shanbe) {
      forall d | d != Friday
        ensures !Mentions(text, d)
      {
        if Mentions(text, d) {
          ShanbeInside(text, d);
        }
      }
    }
  }

  /** A text that mentions a day other than Friday holds `شنبه`. */
  lemma ShanbeInside(text: string, d: Day)
    requires d != Friday && Mentions(text, d)
    ensures Contains(text, Shanbe)
  {
    var sp := match d
      case Saturday => Shanbe
      case Sunday => if Contains(text, YekShanbe) then YekShanbe else Yekshanbe
      case Monday => Doshanbe
      case Tuesday => if Contains(text, Seshanbe) then Seshanbe else SeShanbe
      case Wednesday => if Contains(text, Chaharshanbe) then Chaharshanbe else ChaharShanbe
      case Thursday => if Contains(text, Panjshanbe) then Panjshanbe else PanjShanbe
      case Friday => Jomeh;
    assert Contains(text, sp);
    assert sp[|sp| - |Shanbe|..] == Shanbe;
    assert OccursAt(sp, Shanbe, |sp| - |Shanbe|);
    ContainsAt(sp, Shanbe);
    ContainsTransitive(text, sp, Shanbe);
  }

  // ----- The time pattern -----

  /** A start and end time as matched in the text. */
  datatype TimeRange = TimeRange(start: string, end: string)

  /** Where `\d{1,2}:\d{2}` starting at `i` ends. Two hour digits are tried first, then one; the
      two cannot both fit, since the second character is a digit in one and `:` in the other. */
  function ClockAt(s: string, i: nat): (r: Option<nat>)
    ensures r.Some? ==> i + 4 <= r.value <= i + 5 && r.value <= |s|
  {
    if i + 5 <= |s| && IsDigit(s[i]) && IsDigit(s[i + 1]) && s[i + 2] == ':'
       && IsDigit(s[i + 3]) && IsDigit(s[i + 4]) then Some(i + 5)
    else if i + 4 <= |s| && IsDigit(s[i]) && s[i + 1] == ':' && IsDigit(s[i + 2]) && IsDigit(s[i + 3])
    then Some(i + 4)
    else None
  }

  /** The text matched by `(\d{1,2}:\d{2})-(\d{1,2}:\d{2})` starting at `i`, if it matches there. */
  function RangeAt(s: string, i: nat): Option<TimeRange>
  {
    match ClockAt(s, i)
    case None => None
    case Some(j) =>
      if j < |s| && s[j] == '-' then
        match ClockAt(s, j + 1)
        case None => None
        case Some(k) => Some(TimeRange(s[i..j], s[j + 1..k]))
      else None
  }

  /** `part.match(/(\d{1,2}:\d{2})-(\d{1,2}:\d{2})/)` searching from position `from`: the
      leftmost match. */
  function FirstRange(s: string, from: nat): Option<TimeRange>
    decreases |s| - from
  {
    if from >= |s| then None
    else if RangeAt(s, from).Some? then RangeAt(s, from)
    else FirstRange(s, from + 1)
  }

  /** The search finds the leftmost match, and finds nothing only when there is no match. */
  lemma {:induction false} FirstRangeLeftmost(s: string, from: nat)
    ensures var r := FirstRange(s, from);
      (r.None? ==> forall i :: from <= i ==> RangeAt(s, i).None?)
      && (r.Some? ==> exists i :: from <= i < |s| && RangeAt(s, i) == r
                         && forall j :: from <= j < i ==> RangeAt(s, j).None?)
    decreases |s| - from
  {
    if from >= |s| {
      assert forall i :: from <= i ==> ClockAt(s, i).None?;
    } else if RangeAt(s, from).None? {
      FirstRangeLeftmost(s, from + 1);
    }
  }

  /** A clock text as the pattern accepts it: one or two hour digits, `:`, two minute digits. */
  predicate IsClockText(t: string)
  {
    (|t| == 5 && IsDigit(t[0]) && IsDigit(t[1]) && t[2] == ':' && IsDigit(t[3]) && IsDigit(t[4]))
    || (|t| == 4 && IsDigit(t[0]) && t[1] == ':' && IsDigit(t[2]) && IsDigit(t[3]))
  }

  /** Both times of a match are clock texts, and the match is their text joined by `-`. */
  lemma RangeShape(s: string, i: nat)
    requires RangeAt(s, i).Some?
    ensures var tr := RangeAt(s, i).value;
      IsClockText(tr.start) && IsClockText(tr.end)
      && i + |tr.start| + 1 + |tr.end| <= |s|
      && s[i..i + |tr.start| + 1 + |tr.end|] == tr.start + "-" + tr.end
  {
    var tr := RangeAt(s, i).value;
    var j := ClockAt(s, i).value;
    var k := ClockAt(s, j + 1).value;
    assert s[i..k] == s[i..j] + [s[j]] + s[j + 1..k];
  }

  /** A one-digit hour is accepted: `8:00-9:30` gives the times `8:00` and `9:30`, which are
      not the zero-padded times the overlap tests compare correctly. */
  lemma OneDigitHourAccepted()
    ensures FirstRange("8:00-9:30", 0) == Some(TimeRange("8:00", "9:30"))
  {
    var s := "8:00-9:30";
    assert IsDigit(s[0]) && s[1] == ':' && IsDigit(s[2]) && IsDigit(s[3]) && !IsDigit(s[1]);
    assert IsDigit(s[5]) && s[6] == ':' && IsDigit(s[7]) && IsDigit(s[8]) && !IsDigit(s[6]);
    assert ClockAt(s, 0) == Some(4);
    assert ClockAt(s, 5) == Some(9);
    assert s[0..4] == "8:00" && s[5..9] == "9:30";
    assert RangeAt(s, 0) == Some(TimeRange("8:00", "9:30"));
  }

  // ----- Time-and-place text -----

  /** The text that opens each lesson segment of the time-and-place column. */
  const Marker: string := "درس(ت):"

  /** The slot one segment after the marker yields: none without a day, none without a time. */
  function SegmentSlot(segment: string): Option<TimeSlot>
  {
    var part := Trim(segment);
    match FindDayInText(part)
    case None => None
    case Some(d) =>
      match FirstRange(part, 0)
      case None => None
      case Some(tr) => Some(TimeSlot(d, tr.start, tr.end))
  }

  /** The slots of the segments, in segment order. */
  function SegmentSlots(segments: seq<string>): seq<TimeSlot>
  {
    if segments == [] then []
    else
      var n := |segments| - 1;
      var tail := match SegmentSlot(segments[n]) case None => [] case Some(t) => [t];
      SegmentSlots(segments[..n]) + tail
  }

  /** `parseScheduleFromText` as a value. `alternative` stands for the fallback parser used when
      the marker is missing. */
  function ParseSchedule(text: string, alternative: string -> seq<TimeSlot>): seq<TimeSlot>
  {
    if Trim(text) == [] then []
    else
      var parts := Split(text, Marker);
      if |parts| <= 1 then alternative(text) else SegmentSlots(parts[1..])
  }

  /** `parseScheduleFromText` */
  method ParseScheduleFromText(text: string, alternative: string -> seq<TimeSlot>) returns (schedule: seq<TimeSlot>)
    ensures schedule == ParseSchedule(text, alternative)
  {
    schedule := [];
    if Trim(text) == [] {
      return;
    }
    var parts := Split(text, Marker);
    if |parts| <= 1 {
      return alternative(text);
    }
    schedule := ScanSegments(parts);
  }

  /** The loop of `parseScheduleFromText` over the parts after the first. */
  method ScanSegments(parts: seq<string>) returns (schedule: seq<TimeSlot>)
    requires |parts| >= 1
    ensures schedule == SegmentSlots(parts[1..])
  {
    schedule := [];
    var segments := parts[1..];
    for i := 1 to |parts|
      invariant schedule == SegmentSlots(segments[..i - 1])
    {
      assert segments[..i][..i - 1] == segments[..i - 1];
      var slot := ReadSegment(parts[i]);
      if slot.Some? {
        schedule := schedule + [slot.value];
      }
    }
    assert segments[..|parts| - 1] == segments;
  }

  /** One pass of that loop: the day is looked up first, and a segment without one is skipped
      before the time pattern is tried. */
  method ReadSegment(segment: string) returns (slot: Option<TimeSlot>)
    ensures slot == SegmentSlot(segment)
  {
    var part := Trim(segment);
    var dayFound := FindDayInText(part);
    if dayFound.None? {
      return None;
    }
    var timeMatch := FirstRange(part, 0);
    if timeMatch.Some? {
      slot := Some(TimeSlot(dayFound.value, timeMatch.value.start, timeMatch.value.end));
    } else {
      slot := None;
    }
  }

  /** Empty or whitespace-only text yields no slots. */
  lemma BlankTextNoSlots(text: string, alternative: string -> seq<TimeSlot>)
    requires forall i :: 0 <= i < |text| ==> IsSpace(text[i])
    ensures ParseSchedule(text, alternative) == []
  {
    TrimEmpty(text);
  }

  /** Each segment yields at most one slot, and each slot carries the day found in its segment
      and the first time range there. */
  lemma {:induction false} SegmentSlotsSound(segments: seq<string>)
    ensures |SegmentSlots(segments)| <= |segments|
    ensures forall t :: t in SegmentSlots(segments) ==>
      exists j :: 0 <= j < |segments| && SegmentSlot(segments[j]) == Some(t)
  {
    if segments != [] {
      var n := |segments| - 1;
      SegmentSlotsSound(segments[..n]);
      forall t | t in SegmentSlots(segments)
        ensures exists j :: 0 <= j < |segments| && SegmentSlot(segments[j]) == Some(t)
      {
        if t in SegmentSlots(segments[..n]) {
          var j :| 0 <= j < n && SegmentSlot(segments[..n][j]) == Some(t);
          assert segments[..n][j] == segments[j];
        } else {
          assert SegmentSlot(segments[n]) == Some(t);
        }
      }
    }
  }

  /** A slot from a segment names a day the segment mentions, before every day ranked ahead
      of it, and a time range matched in the segment. */
  lemma SegmentSlotMeaning(segment: string)
    requires SegmentSlot(segment).Some?
    ensures var t := SegmentSlot(segment).value; var part := Trim(segment);
      Mentions(part, t.day)
      && (forall d :: CheckRank(d) < CheckRank(t.day) ==> !Mentions(part, d))
      && exists i :: 0 <= i < |part| && RangeAt(part, i) == Some(TimeRange(t.start, t.end))
  {
    FindDayFirst(Trim(segment));
    FirstRangeLeftmost(Trim(segment), 0);
  }

  // ----- Slot de-duplication -----

  /** `self.findIndex(s => s.day === slot.day && s.start === slot.start && s.end === slot.end)`;
      the three fields are the whole slot. */
  function FindIndex(s: seq<TimeSlot>, x: TimeSlot): int
  {
    if s == [] then -1
    else if s[0] == x then 0
    else
      var k := FindIndex(s[1..], x);
      if k < 0 then -1 else k + 1
  }

  /** `findIndex` gives the first position holding the slot, and -1 when no position does. */
  lemma {:induction false} FindIndexSpec(s: seq<TimeSlot>, x: TimeSlot)
    ensures var r := FindIndex(s, x);
      -1 <= r < |s|
      && (r >= 0 ==> s[r] == x && forall j :: 0 <= j < r ==> s[j] != x)
      && (r < 0 ==> forall j :: 0 <= j < |s| ==> s[j] != x)
  {
    if s != [] && s[0] != x {
      FindIndexSpec(s[1..], x);
      assert forall j :: 1 <= j < |s| ==> s[j] == s[1..][j - 1];
    }
  }

  /** The filter over the first `n` slots: slot `i` is kept when `findIndex` finds it at `i`. */
  function KeepFirst(s: seq<TimeSlot>, n: nat): seq<TimeSlot>
    requires n <= |s|
  {
    if n == 0 then []
    else KeepFirst(s, n - 1) + (if FindIndex(s, s[n - 1]) == n - 1 then [s[n - 1]] else [])
  }

  /** `schedule.filter((slot, index, self) => index === self.findIndex(...))` */
  function UniqueSchedule(s: seq<TimeSlot>): seq<TimeSlot>
  {
    KeepFirst(s, |s|)
  }

  lemma {:induction false} KeepFirstOrder(s: seq<TimeSlot>, n: nat)
    requires n <= |s|
    ensures var r := KeepFirst(s, n);
      (forall x :: x in r <==> x in s[..n])
      && (forall i :: 0 <= i < |r| ==> 0 <= FindIndex(s, r[i]) < n)
      && (forall i, j :: 0 <= i < j < |r| ==> FindIndex(s, r[i]) < FindIndex(s, r[j]))
  {
    if n > 0 {
      KeepFirstOrder(s, n - 1);
      var x := s[n - 1];
      var f := FindIndex(s, x);
      FindIndexSpec(s, x);
      assert 0 <= f <= n - 1;
      assert s[..n] == s[..n - 1] + [x];
      if f != n - 1 {
        assert s[..n - 1][f] == x;
        assert KeepFirst(s, n) == KeepFirst(s, n - 1);
      } else {
        assert KeepFirst(s, n) == KeepFirst(s, n - 1) + [x];
      }
    }
  }

  /** The de-duplicated schedule holds every slot of the schedule, each once, in the order of
      their first occurrences. */
  lemma UniqueScheduleSpec(s: seq<TimeSlot>)
    ensures var r := UniqueSchedule(s);
      (forall x :: x in r <==> x in s)
      && (forall i, j :: 0 <= i < j < |r| ==> FindIndex(s, r[i]) < FindIndex(s, r[j]))
      && (forall i, j :: 0 <= i < j < |r| ==> r[i] != r[j])
  {
    KeepFirstOrder(s, |s|);
    assert s[..|s|] == s;
  }

  /** Only exact duplicates are dropped: a schedule without repeats is kept as it is. */
  lemma {:induction false} UniqueScheduleKeepsDistinct(s: seq<TimeSlot>, n: nat)
    requires n <= |s|
    requires forall i, j :: 0 <= i < j < |s| ==> s[i] != s[j]
    ensures KeepFirst(s, n) == s[..n]
  {
    if n > 0 {
      UniqueScheduleKeepsDistinct(s, n - 1);
      FindIndexSpec(s, s[n - 1]);
      assert FindIndex(s, s[n - 1]) == n - 1;
      assert s[..n] == s[..n - 1] + [s[n - 1]];
    }
  }

  // ----- Rows into courses -----

  /** A sheet row as the reader returns it: the text of each cell up to the last non-empty one,
      so trailing empty cells make the row shorter. An empty cell before that reads as "". */
  type Row = seq<string>

  /** Rows with fewer cells are skipped. */
  const RowWidth: nat := 13

  /** `parseInt(cell) || 0`: leading whitespace, an optional sign and the leading decimal
      digits; 0 when there are no digits. */
  function ParseIntOrZero(cell: string): int
  {
    var t := TrimStart(cell);
    var negative := t != [] && t[0] == '-';
    var body := if t != [] && (t[0] == '-' || t[0] == '+') then t[1..] else t;
    var digits := DigitPrefix(body);
    if digits == [] then 0 else if negative then -(Decimal(digits) as int) else Decimal(digits)
  }

  /** The longest prefix made of decimal digits. */
  function DigitPrefix(s: string): (r: string)
    ensures forall i :: 0 <= i < |r| ==> IsDigit(r[i])
  {
    if s != [] && IsDigit(s[0]) then [s[0]] + DigitPrefix(s[1..]) else []
  }

  /** The prefix is the longest one of digits: it is followed by a non-digit or by nothing. */
  lemma {:induction false} DigitPrefixLongest(s: string)
    ensures var r := DigitPrefix(s);
      |r| <= |s| && r == s[..|r|] && (|r| < |s| ==> !IsDigit(s[|r|]))
  {
    if s != [] && IsDigit(s[0]) {
      DigitPrefixLongest(s[1..]);
    }
  }

  /** A cell of digits reads as its decimal value, and a cell that does not start with a sign
      or a digit reads as 0. */
  lemma ParseIntOrZeroSpec(cell: string)
    ensures (forall i :: 0 <= i < |cell| ==> IsDigit(cell[i])) ==> ParseIntOrZero(cell) == Decimal(cell)
    ensures cell != [] && !IsSpace(cell[0]) && !IsDigit(cell[0]) && cell[0] != '-' && cell[0] != '+'
            ==> ParseIntOrZero(cell) == 0
  {
    if forall i :: 0 <= i < |cell| ==> IsDigit(cell[i]) {
      if cell != [] {
        assert !IsSpace(cell[0]);
        DigitPrefixWhole(cell);
      }
    }
  }

  lemma {:induction false} DigitPrefixWhole(s: string)
    requires forall i :: 0 <= i < |s| ==> IsDigit(s[i])
    ensures DigitPrefix(s) == s
  {
    if s != [] {
      DigitPrefixWhole(s[1..]);
    }
  }

  /** The professor of an imported section: attendance and quality take fixed defaults. */
  function ImportedProfessor(name: string): Professor
  {
    Professor(name, true, Good)
  }

  /** The section a kept row contributes. */
  function SectionOf(row: Row, alternative: string -> seq<TimeSlot>): Section
    requires |row| >= RowWidth
  {
    var codes := ExtractCourseCode(row[0]);
    Section(codes.sectionCode, ImportedProfessor(row[8]), UniqueSchedule(ParseSchedule(row[11], alternative)))
  }

  /** The course code of a kept row. */
  function CodeOf(row: Row): string
    requires |row| >= RowWidth
  {
    ExtractCourseCode(row[0]).courseCode
  }

  /** One step of the fold: a short row changes nothing; a kept row creates its course from its
      own name and units if the code is new, then appends its section. */
  function AddRow(courseMap: map<string, Course>, row: Row, alternative: string -> seq<TimeSlot>): map<string, Course>
  {
    if |row| < RowWidth then courseMap
    else
      var code := CodeOf(row);
      var course := if code in courseMap then courseMap[code]
                    else Course(row[1], code, ParseIntOrZero(row[2]), []);
      courseMap[code := course.(sections := course.sections + [SectionOf(row, alternative)])]
  }

  /** The course map after the given rows. */
  function CourseMapOf(rows: seq<Row>, alternative: string -> seq<TimeSlot>): map<string, Course>
  {
    if rows == [] then map[]
    else
      var n := |rows| - 1;
      AddRow(CourseMapOf(rows[..n], alternative), rows[n], alternative)
  }

  /** The data rows: every row after the header. */
  function DataRows(sheet: seq<Row>): seq<Row>
  {
    if sheet == [] then [] else sheet[1..]
  }

  /** `parseExcelToCourses` after the sheet is read: the rows folded into `courseMap`. */
  method ParseExcelToCourses(sheet: seq<Row>, alternative: string -> seq<TimeSlot>)
    returns (courseMap: map<string, Course>)
    ensures courseMap == CourseMapOf(DataRows(sheet), alternative)
  {
    var dataRows := DataRows(sheet);
    courseMap := map[];
    for r := 0 to |dataRows|
      invariant courseMap == CourseMapOf(dataRows[..r], alternative)
    {
      assert dataRows[..r + 1][..r] == dataRows[..r];
      courseMap := ReadRow(courseMap, dataRows[r], alternative);
    }
    assert dataRows[..|dataRows|] == dataRows;
  }

  /** The body of the row loop of `parseExcelToCourses`. */
  method ReadRow(courseMap: map<string, Course>, row: Row, alternative: string -> seq<TimeSlot>)
    returns (next: map<string, Course>)
    ensures next == AddRow(courseMap, row, alternative)
  {
    next := courseMap;
    if |row| < RowWidth {
      return;
    }
    var codes := ExtractCourseCode(row[0]);
    var courseCode := codes.courseCode;
    if courseCode !in next {
      next := next[courseCode := Course(row[1], courseCode, ParseIntOrZero(row[2]), [])];
    }
    var section := BuildSection(row, codes.sectionCode, alternative);
    var course := next[courseCode];
    next := next[courseCode := course.(sections := course.sections + [section])];
  }

  /** The section of a kept row: its slots parsed, then de-duplicated. */
  method BuildSection(row: Row, sectionCode: string, alternative: string -> seq<TimeSlot>) returns (section: Section)
    requires |row| >= RowWidth && sectionCode == ExtractCourseCode(row[0]).sectionCode
    ensures section == SectionOf(row, alternative)
  {
    var schedule := ParseScheduleFromText(row[11], alternative);
    var uniqueSchedule := UniqueSchedule(schedule);
    section := Section(sectionCode, ImportedProfessor(row[8]), uniqueSchedule);
  }

  /** The kept rows of a course code, in row order. */
  function RowsFor(rows: seq<Row>, code: string): (r: seq<Row>)
    ensures forall i :: 0 <= i < |r| ==> |r[i]| >= RowWidth && CodeOf(r[i]) == code
  {
    if rows == [] then []
    else
      var n := |rows| - 1;
      RowsFor(rows[..n], code) + (if |rows[n]| >= RowWidth && CodeOf(rows[n]) == code then [rows[n]] else [])
  }

  /** The sections of the given kept rows, in order. */
  function SectionsOf(rows: seq<Row>, alternative: string -> seq<TimeSlot>): seq<Section>
    requires forall i :: 0 <= i < |rows| ==> |rows[i]| >= RowWidth
  {
    if rows == [] then []
    else SectionsOf(rows[..|rows| - 1], alternative) + [SectionOf(rows[|rows| - 1], alternative)]
  }

  /** A code has a course exactly when some kept row carries it. Its name and units come from
      the first such row, and it holds one section per such row, in row order. */
  lemma {:induction false} CourseMapLookup(rows: seq<Row>, alternative: string -> seq<TimeSlot>, code: string)
    ensures code in CourseMapOf(rows, alternative) <==> |RowsFor(rows, code)| > 0
    ensures code in CourseMapOf(rows, alternative) ==>
      var first := RowsFor(rows, code)[0];
      CourseMapOf(rows, alternative)[code]
        == Course(first[1], code, ParseIntOrZero(first[2]), SectionsOf(RowsFor(rows, code), alternative))
  {
    if rows != [] {
      var n := |rows| - 1;
      var row := rows[n];
      var m0, m := CourseMapOf(rows[..n], alternative), CourseMapOf(rows, alternative);
      CourseMapLookup(rows[..n], alternative, code);
      var before := RowsFor(rows[..n], code);
      assert m == AddRow(m0, row, alternative);
      if |row| >= RowWidth && CodeOf(row) == code {
        var after := before + [row];
        assert RowsFor(rows, code) == after;
        assert SectionsOf(after, alternative) == SectionsOf(before, alternative) + [SectionOf(row, alternative)] by {
          assert after[..|after| - 1] == before;
        }
        if before == [] {
          assert SectionsOf(before, alternative) == [];
        } else {
          assert after[0] == before[0];
        }
      } else {
        assert RowsFor(rows, code) == before;
        assert (code in m <==> code in m0) && (code in m ==> m[code] == m0[code]);
      }
    }
  }

  /** A short row changes nothing. */
  lemma ShortRowSkipped(rows: seq<Row>, row: Row, alternative: string -> seq<TimeSlot>)
    requires |row| < RowWidth
    ensures CourseMapOf(rows + [row], alternative) == CourseMapOf(rows, alternative)
  {
    assert (rows + [row])[..|rows|] == rows;
  }

  /** Each kept row adds exactly one section, to the course of its code, and nothing else. */
  lemma KeptRowAddsOneSection(rows: seq<Row>, row: Row, alternative: string -> seq<TimeSlot>, code: string)
    requires |row| >= RowWidth
    ensures var before, after := CourseMapOf(rows, alternative), CourseMapOf(rows + [row], alternative);
      code in after <==> code in before || code == CodeOf(row)
    ensures var before, after := CourseMapOf(rows, alternative), CourseMapOf(rows + [row], alternative);
      code in after ==>
        |after[code].sections| == (if code in before then |before[code].sections| else 0)
                                  + (if code == CodeOf(row) then 1 else 0)
  {
    assert (rows + [row])[..|rows|] == rows;
  }
}
