/** Saving imported courses into the stored catalog: each new course replaces the stored course
    with the same course code, or is appended when the code is new. */
module CatalogMerge {
  import opened Types

  /** `mergedCourses.findIndex(c => c.courseCode === code)` */
  function FindCode(courses: seq<Course>, code: string): (r: int)
    ensures -1 <= r < |courses|
  {
    if courses == [] then -1
    else if courses[0].courseCode == code then 0
    else
      var k := FindCode(courses[1..], code);
      if k < 0 then -1 else k + 1
  }

  /** `findIndex` gives the first position with the code, and -1 when no position has it. */
  lemma {:induction false} FindCodeSpec(courses: seq<Course>, code: string)
    ensures var r := FindCode(courses, code);
      -1 <= r < |courses|
      && (r >= 0 ==> courses[r].courseCode == code && forall j :: 0 <= j < r ==> courses[j].courseCode != code)
      && (r < 0 ==> forall j :: 0 <= j < |courses| ==> courses[j].courseCode != code)
  {
    if courses != [] && courses[0].courseCode != code {
      FindCodeSpec(courses[1..], code);
      assert forall j :: 1 <= j < |courses| ==> courses[j] == courses[1..][j - 1];
    }
  }

  /** A position holding the code with no earlier one is what `findIndex` finds. */
  lemma FindCodeAt(courses: seq<Course>, code: string, p: nat)
    requires p < |courses| && courses[p].courseCode == code
    requires forall j :: 0 <= j < p ==> courses[j].courseCode != code
    ensures FindCode(courses, code) == p
  {
    FindCodeSpec(courses, code);
  }

  /** The course codes in a list. */
  function CodeSet(courses: seq<Course>): set<string>
  {
    set j | 0 <= j < |courses| :: courses[j].courseCode
  }

  /** One pass of the loop: replace the first course with the new course's code, or append. */
  function Upsert(courses: seq<Course>, c: Course): seq<Course>
  {
    var i := FindCode(courses, c.courseCode);
    if i >= 0 then courses[i := c] else courses + [c]
  }

  /** The merged list after the given new courses. */
  function Merge(existing: seq<Course>, incoming: seq<Course>): seq<Course>
  {
    if incoming == [] then existing
    else
      var n := |incoming| - 1;
      Upsert(Merge(existing, incoming[..n]), incoming[n])
  }

  /** The merge loop of the `save-data` handler. */
  method MergeCourses(existing: seq<Course>, incoming: seq<Course>) returns (mergedCourses: seq<Course>)
    ensures mergedCourses == Merge(existing, incoming)
  {
    mergedCourses := existing;
    for k := 0 to |incoming|
      invariant mergedCourses == Merge(existing, incoming[..k])
    {
      assert incoming[..k + 1][..k] == incoming[..k];
      var newCourse := incoming[k];
      var existingIndex := FindCode(mergedCourses, newCourse.courseCode);
      if existingIndex >= 0 {
        mergedCourses := mergedCourses[existingIndex := newCourse];
      } else {
        mergedCourses := mergedCourses + [newCourse];
      }
    }
    assert incoming[..|incoming|] == incoming;
  }

  /** An upsert keeps every course with another code where it was, grows the list by one
      exactly when the code is new, and leaves the new course as the first with its code. */
  lemma UpsertSpec(courses: seq<Course>, c: Course)
    ensures var r := Upsert(courses, c);
      (c.courseCode in CodeSet(courses) ==> |r| == |courses|)
      && (c.courseCode !in CodeSet(courses) ==> |r| == |courses| + 1)
      && (forall j :: 0 <= j < |courses| && courses[j].courseCode != c.courseCode ==> r[j] == courses[j])
      && FindCode(r, c.courseCode) >= 0 && r[FindCode(r, c.courseCode)] == c
      && (FindCode(courses, c.courseCode) >= 0 ==> FindCode(r, c.courseCode) == FindCode(courses, c.courseCode))
      && CodeSet(r) == CodeSet(courses) + {c.courseCode}
  {
    var code := c.courseCode;
    var i := FindCode(courses, code);
    var r := Upsert(courses, c);
    FindCodeSpec(courses, code);
    UpsertFinds(courses, c);
    if i >= 0 {
      assert code in CodeSet(courses);
      assert CodeSet(r) == CodeSet(courses) + {code} by {
        forall x | x in CodeSet(courses)
          ensures x in CodeSet(r)
        {
          var j :| 0 <= j < |courses| && courses[j].courseCode == x;
          if j == i {
            assert r[i].courseCode == x;
          } else {
            assert r[j] == courses[j];
          }
        }
        forall x | x in CodeSet(r)
          ensures x in CodeSet(courses) + {code}
        {
          var j :| 0 <= j < |r| && r[j].courseCode == x;
          if j != i {
            assert courses[j] == r[j];
          }
        }
      }
    } else {
      assert code !in CodeSet(courses);
      assert CodeSet(r) == CodeSet(courses) + {code} by {
        forall x | x in CodeSet(courses)
          ensures x in CodeSet(r)
        {
          var j :| 0 <= j < |courses| && courses[j].courseCode == x;
          assert r[j] == courses[j];
        }
        forall x | x in CodeSet(r)
          ensures x in CodeSet(courses) + {code}
        {
          var j :| 0 <= j < |r| && r[j].courseCode == x;
          if j < |courses| {
            assert courses[j] == r[j];
          }
        }
      }
    }
  }

  /** An upsert keeps every course with another code where it was. */
  lemma UpsertKeeps(courses: seq<Course>, c: Course)
    ensures var r := Upsert(courses, c);
      |courses| <= |r| && forall j :: 0 <= j < |courses| && courses[j].courseCode != c.courseCode ==> r[j] == courses[j]
  {
    FindCodeSpec(courses, c.courseCode);
  }

  /** After an upsert the new course is the first with its code, at the old position when the
      code was already there. */
  lemma UpsertFinds(courses: seq<Course>, c: Course)
    ensures var r, code := Upsert(courses, c), c.courseCode;
      FindCode(r, code) >= 0 && r[FindCode(r, code)] == c
      && (FindCode(courses, code) >= 0 ==> FindCode(r, code) == FindCode(courses, code))
  {
    var code := c.courseCode;
    var i := FindCode(courses, code);
    var r := Upsert(courses, c);
    FindCodeSpec(courses, code);
    if i >= 0 {
      FindCodeAt(r, code, i);
    } else {
      FindCodeAt(r, code, |courses|);
    }
  }

  /** The merged list holds the stored codes and the new codes, and nothing else. */
  lemma {:induction false} MergeCodes(existing: seq<Course>, incoming: seq<Course>)
    ensures CodeSet(Merge(existing, incoming)) == CodeSet(existing) + CodeSet(incoming)
  {
    if incoming != [] {
      var n := |incoming| - 1;
      MergeCodes(existing, incoming[..n]);
      UpsertSpec(Merge(existing, incoming[..n]), incoming[n]);
      CodeSetSnoc(incoming);
    }
  }

  lemma CodeSetSnoc(courses: seq<Course>)
    requires courses != []
    ensures var n := |courses| - 1;
      CodeSet(courses) == CodeSet(courses[..n]) + {courses[n].courseCode}
  {
    var n := |courses| - 1;
    assert forall j :: 0 <= j < n ==> courses[..n][j] == courses[j];
  }

  /** The list grows by one for each distinct new code that was not stored before. */
  lemma {:induction false} MergeLength(existing: seq<Course>, incoming: seq<Course>)
    ensures |Merge(existing, incoming)| == |existing| + |CodeSet(incoming) - CodeSet(existing)|
  {
    if incoming != [] {
      var n := |incoming| - 1;
      var c := incoming[n];
      var before := Merge(existing, incoming[..n]);
      MergeLength(existing, incoming[..n]);
      MergeCodes(existing, incoming[..n]);
      UpsertSpec(before, c);
      CodeSetSnoc(incoming);
      NewKeyCount(CodeSet(incoming[..n]), CodeSet(existing), c.courseCode);
    }
  }

  /** One more key adds one to the keys outside `stored` exactly when it is in neither set. */
  lemma NewKeyCount<T>(keys: set<T>, stored: set<T>, x: T)
    ensures |(keys + {x}) - stored| == |keys - stored| + (if x in keys || x in stored then 0 else 1)
  {
    if x in keys || x in stored {
      assert (keys + {x}) - stored == keys - stored;
    } else {
      assert (keys + {x}) - stored == (keys - stored) + {x};
    }
  }

  /** A stored course whose code no new course carries stays at its index, unchanged. */
  lemma {:induction false} MergeKeepsUntouched(existing: seq<Course>, incoming: seq<Course>, i: nat)
    requires i < |existing|
    requires forall k :: 0 <= k < |incoming| ==> incoming[k].courseCode != existing[i].courseCode
    ensures i < |Merge(existing, incoming)| && Merge(existing, incoming)[i] == existing[i]
  {
    if incoming != [] {
      var n := |incoming| - 1;
      MergeKeepsUntouched(existing, incoming[..n], i);
      UpsertKeeps(Merge(existing, incoming[..n]), incoming[n]);
    }
  }

  /** Every new code ends up in the list, and its first course there is the last new course
      with that code. */
  lemma {:induction false} MergeLastWins(existing: seq<Course>, incoming: seq<Course>, k: nat)
    requires k < |incoming|
    requires forall l :: k < l < |incoming| ==> incoming[l].courseCode != incoming[k].courseCode
    ensures var merged, code := Merge(existing, incoming), incoming[k].courseCode;
      FindCode(merged, code) >= 0 && merged[FindCode(merged, code)] == incoming[k]
  {
    var n := |incoming| - 1;
    var code := incoming[k].courseCode;
    var before := Merge(existing, incoming[..n]);
    UpsertFinds(before, incoming[n]);
    if k < n {
      MergeLastWins(existing, incoming[..n], k);
      var p := FindCode(before, code);
      var after := Upsert(before, incoming[n]);
      FindCodeSpec(before, code);
      assert incoming[n].courseCode != code;
      UpsertKeeps(before, incoming[n]);
      assert after[p] == incoming[k];
      forall j | 0 <= j < p
        ensures after[j].courseCode != code
      {
        if before[j].courseCode != incoming[n].courseCode {
          assert after[j] == before[j];
        } else {
          FindCodeSpec(after, incoming[n].courseCode);
          FindCodeSpec(before, incoming[n].courseCode);
        }
      }
      FindCodeAt(after, code, p);
    }
  }
}
