/** Course groups: sets of equivalent course names of which a student takes one. The selection a
    student makes is split into buckets (one per group touched, one per ungrouped name) and
    expanded into every way of taking one name from each bucket. */
module Grouping {
  import opened Types
  import opened Text
  import opened Enumeration
  import opened Sums

  /** A group of equivalent course names. */
  datatype GroupDef = GroupDef(id: string, name: string, courseNames: seq<string>)

  // ----- Name normalisation -----

  /** `s.replace(/\s+/g, '')` */
  function RemoveSpaces(s: string): string
  {
    if s == [] then []
    else
      var rest := RemoveSpaces(s[1..]);
      if IsSpace(s[0]) then rest else [s[0]] + rest
  }

  /** Removing whitespace leaves none, keeps the order of the rest and changes nothing in a
      name without whitespace. */
  lemma {:induction false} RemoveSpacesShape(s: string)
    ensures |RemoveSpaces(s)| <= |s|
    ensures forall i :: 0 <= i < |RemoveSpaces(s)| ==> !IsSpace(RemoveSpaces(s)[i])
    ensures (forall i :: 0 <= i < |s| ==> !IsSpace(s[i])) ==> RemoveSpaces(s) == s
  {
    if s != [] {
      RemoveSpacesShape(s[1..]);
    }
  }

  /** Characters `toLowerCase` changes. */
  predicate IsUpper(c: char)
  {
    'A' <= c <= 'Z'
  }

  /** `normalizeName`: whitespace removed, letters lower-cased. */
  function NormalizeName(name: string): string
  {
    ToLower(RemoveSpaces(name))
  }

  /** A normalised name holds no whitespace and no upper-case letter. */
  lemma NormalizeShape(name: string)
    ensures forall i :: 0 <= i < |NormalizeName(name)| ==> !IsSpace(NormalizeName(name)[i]) && !IsUpper(NormalizeName(name)[i])
  {
    var s := RemoveSpaces(name);
    RemoveSpacesShape(name);
    ToLowerChars(s);
  }

  lemma {:induction false} ToLowerKeeps(s: string)
    requires forall i :: 0 <= i < |s| ==> !IsUpper(s[i])
    ensures ToLower(s) == s
  {
    if s != [] {
      ToLowerKeeps(s[1..]);
    }
  }

  /** Normalising twice is normalising once. */
  lemma NormalizeIdempotent(name: string)
    ensures NormalizeName(NormalizeName(name)) == NormalizeName(name)
  {
    var n := NormalizeName(name);
    NormalizeShape(name);
    RemoveSpacesShape(n);
    ToLowerKeeps(n);
  }

  // ----- Group index -----

  /** The index after recording `names` under `id`, one after the other. */
  function AddNames(m: map<string, string>, names: seq<string>, id: string): map<string, string>
  {
    if names == [] then m
    else AddNames(m, names[..|names| - 1], id)[NormalizeName(names[|names| - 1]) := id]
  }

  /** `buildGroupIndex` as a value: every normalised member name to the id of its group. */
  function GroupIndex(groups: seq<GroupDef>): map<string, string>
  {
    if groups == [] then map[]
    else
      var n := |groups| - 1;
      AddNames(GroupIndex(groups[..n]), groups[n].courseNames, groups[n].id)
  }

  /** `buildGroupIndex` */
  method BuildGroupIndex(groups: seq<GroupDef>) returns (index: map<string, string>)
    ensures index == GroupIndex(groups)
  {
    index := map[];
    for gi := 0 to |groups|
      invariant index == GroupIndex(groups[..gi])
    {
      var g := groups[gi];
      ghost var base := index;
      for ni := 0 to |g.courseNames|
        invariant index == AddNames(base, g.courseNames[..ni], g.id)
      {
        assert g.courseNames[..ni + 1][..ni] == g.courseNames[..ni];
        index := index[NormalizeName(g.courseNames[ni]) := g.id];
      }
      assert g.courseNames[..|g.courseNames|] == g.courseNames;
      assert groups[..gi + 1][..gi] == groups[..gi];
    }
    assert groups[..|groups|] == groups;
  }

  /** Group `g` lists a name that normalises to `key`. */
  predicate Lists(g: GroupDef, key: string)
  {
    exists n :: 0 <= n < |g.courseNames| && NormalizeName(g.courseNames[n]) == key
  }

  lemma {:induction false} AddNamesLookup(m: map<string, string>, names: seq<string>, id: string, key: string)
    ensures var g := GroupDef(id, "", names);
      (key in AddNames(m, names, id) <==> key in m || Lists(g, key))
      && (key in AddNames(m, names, id) ==> AddNames(m, names, id)[key] == if Lists(g, key) then id else m[key])
  {
    if names != [] {
      var n := |names| - 1;
      AddNamesLookup(m, names[..n], id, key);
      var g, g0 := GroupDef(id, "", names), GroupDef(id, "", names[..n]);
      if Lists(g0, key) {
        var j :| 0 <= j < n && NormalizeName(names[..n][j]) == key;
        assert NormalizeName(names[j]) == key;
      }
      if Lists(g, key) && NormalizeName(names[n]) != key {
        var j :| 0 <= j < |names| && NormalizeName(names[j]) == key;
        assert names[..n][j] == names[j];
      }
    }
  }

  /** The index holds exactly the normalised names of all groups. */
  lemma {:induction false} GroupIndexKeys(groups: seq<GroupDef>, key: string)
    ensures key in GroupIndex(groups) <==> exists g :: 0 <= g < |groups| && Lists(groups[g], key)
  {
    if groups != [] {
      var n := |groups| - 1;
      var last, prefix := groups[n], groups[..n];
      GroupIndexKeys(prefix, key);
      AddNamesLookup(GroupIndex(prefix), last.courseNames, last.id, key);
      assert Lists(GroupDef(last.id, "", last.courseNames), key) == Lists(last, key);
      if key in GroupIndex(prefix) {
        var g :| 0 <= g < n && Lists(prefix[g], key);
        assert prefix[g] == groups[g];
      }
      if exists g :: 0 <= g < |groups| && Lists(groups[g], key) {
        var g :| 0 <= g < |groups| && Lists(groups[g], key);
        if g < n {
          assert prefix[g] == groups[g];
        }
      }
    }
  }

  /** A name maps to the id of the last group listing it. */
  lemma {:induction false} GroupIndexLastWins(groups: seq<GroupDef>, key: string, g: nat)
    requires g < |groups| && Lists(groups[g], key)
    requires forall h :: g < h < |groups| ==> !Lists(groups[h], key)
    ensures key in GroupIndex(groups) && GroupIndex(groups)[key] == groups[g].id
  {
    var n := |groups| - 1;
    var last, prefix := groups[n], groups[..n];
    AddNamesLookup(GroupIndex(prefix), last.courseNames, last.id, key);
    assert Lists(GroupDef(last.id, "", last.courseNames), key) == Lists(last, key);
    if g < n {
      assert !Lists(last, key);
      assert prefix[g] == groups[g];
      assert forall h :: g < h < n ==> prefix[h] == groups[h];
      GroupIndexLastWins(prefix, key, g);
    }
  }

  // ----- Buckets -----

  /** The group id `dedupeWithinGroups` files a name under; an empty id is falsy, so its names
      count as ungrouped. */
  function GidOf(index: map<string, string>, name: string): Option<string>
  {
    var key := NormalizeName(name);
    if key in index && index[key] != "" then Some(index[key]) else None
  }

  /** The ungrouped names, in input order, repeats kept. */
  function Singles(xs: seq<string>, index: map<string, string>): seq<string>
  {
    if xs == [] then []
    else
      var n := |xs| - 1;
      Singles(xs[..n], index) + (if GidOf(index, xs[n]).None? then [xs[n]] else [])
  }

  /** The ids of the groups touched, in the order first touched (the key order of the
      `grouped` record). */
  function GroupOrder(xs: seq<string>, index: map<string, string>): seq<string>
  {
    if xs == [] then []
    else
      var n := |xs| - 1;
      var order := GroupOrder(xs[..n], index);
      var gid := GidOf(index, xs[n]);
      order + (if gid.Some? && gid.value !in order then [gid.value] else [])
  }

  /** The names filed under `gid`, each once, in the order first selected. */
  function Bucket(xs: seq<string>, index: map<string, string>, gid: string): seq<string>
  {
    if xs == [] then []
    else
      var n := |xs| - 1;
      var b := Bucket(xs[..n], index, gid);
      b + (if GidOf(index, xs[n]) == Some(gid) && xs[n] !in b then [xs[n]] else [])
  }

  /** `dedupeWithinGroups` as a value: the group buckets in key order, then one singleton per
      ungrouped name. */
  function Dedupe(selected: seq<string>, groups: seq<GroupDef>): seq<seq<string>>
  {
    var index := GroupIndex(groups);
    var order := GroupOrder(selected, index);
    var singles := Singles(selected, index);
    seq(|order|, i requires 0 <= i < |order| => Bucket(selected, index, order[i]))
    + seq(|singles|, j requires 0 <= j < |singles| => [singles[j]])
  }

  /** `dedupeWithinGroups`. */
  method DedupeWithinGroups(selected: seq<string>, groups: seq<GroupDef>) returns (result: seq<seq<string>>)
    ensures result == Dedupe(selected, groups)
  {
    var index := BuildGroupIndex(groups);
    var grouped, keys, singles := FileNames(selected, index);
    result := [];
    for k := 0 to |keys|
      invariant result == seq(k, i requires 0 <= i < k => grouped[keys[i]])
    {
      result := result + [grouped[keys[k]]];
    }
    ghost var buckets := result;
    for k := 0 to |singles|
      invariant result == buckets + seq(k, j requires 0 <= j < k => [singles[j]])
    {
      result := result + [[singles[k]]];
    }
  }

  /** The loop of `dedupeWithinGroups` that files each selected name under its group or among
      the singles. The record `grouped` is a map plus `keys`, the order its keys were added. */
  method FileNames(selected: seq<string>, index: map<string, string>)
    returns (grouped: map<string, seq<string>>, keys: seq<string>, singles: seq<string>)
    ensures keys == GroupOrder(selected, index)
    ensures singles == Singles(selected, index)
    ensures forall g :: g in grouped <==> g in keys
    ensures forall g :: g in grouped ==> grouped[g] == Bucket(selected, index, g)
  {
    grouped, keys, singles := map[], [], [];
    for i := 0 to |selected|
      invariant keys == GroupOrder(selected[..i], index)
      invariant singles == Singles(selected[..i], index)
      invariant forall g :: g in grouped <==> g in keys
      invariant forall g :: g in grouped ==> grouped[g] == Bucket(selected[..i], index, g)
    {
      var name := selected[i];
      assert selected[..i + 1][..i] == selected[..i];
      var key := NormalizeName(name);
      if key in index && index[key] != "" {
        var gid := index[key];
        if gid !in grouped {
          grouped := grouped[gid := []];
          keys := keys + [gid];
          BucketUntouched(selected[..i], index, gid);
        }
        if name !in grouped[gid] {
          grouped := grouped[gid := grouped[gid] + [name]];
        }
      } else {
        singles := singles + [name];
      }
    }
    assert selected[..|selected|] == selected;
  }

  /** A group not yet touched has an empty bucket. */
  lemma {:induction false} BucketUntouched(xs: seq<string>, index: map<string, string>, gid: string)
    requires gid !in GroupOrder(xs, index)
    ensures Bucket(xs, index, gid) == []
  {
    if xs != [] {
      var n := |xs| - 1;
      BucketUntouched(xs[..n], index, gid);
    }
  }

  /** A group is touched exactly when some selected name is filed under it, and then its bucket
      holds exactly those names, each once. */
  lemma BucketContents(xs: seq<string>, index: map<string, string>, gid: string)
    ensures gid in GroupOrder(xs, index) <==> exists i :: 0 <= i < |xs| && GidOf(index, xs[i]) == Some(gid)
    ensures forall x :: x in Bucket(xs, index, gid) <==> x in xs && GidOf(index, x) == Some(gid)
    ensures forall a, b :: 0 <= a < b < |Bucket(xs, index, gid)| ==> Bucket(xs, index, gid)[a] != Bucket(xs, index, gid)[b]
  {
    GroupTouched(xs, index, gid);
    forall x | true
      ensures x in Bucket(xs, index, gid) <==> x in xs && GidOf(index, x) == Some(gid)
    {
      BucketMember(xs, index, gid, x);
    }
    BucketDistinct(xs, index, gid);
  }

  lemma {:induction false} GroupTouched(xs: seq<string>, index: map<string, string>, gid: string)
    ensures gid in GroupOrder(xs, index) <==> Filed(xs, index, gid)
  {
    if xs != [] {
      var n := |xs| - 1;
      var prefix := xs[..n];
      GroupTouched(prefix, index, gid);
      var order, g := GroupOrder(prefix, index), GidOf(index, xs[n]);
      assert GroupOrder(xs, index) == order + (if g.Some? && g.value !in order then [g.value] else []);
      if gid in order {
        var i :| 0 <= i < n && GidOf(index, prefix[i]) == Some(gid);
        assert prefix[i] == xs[i];
      }
      if Filed(xs, index, gid) {
        var i :| 0 <= i < |xs| && GidOf(index, xs[i]) == Some(gid);
        if i < n {
          assert prefix[i] == xs[i];
          assert Filed(prefix, index, gid);
        }
      }
    }
  }

  /** Some selected name is filed under `gid`. */
  predicate Filed(xs: seq<string>, index: map<string, string>, gid: string)
  {
    exists i :: 0 <= i < |xs| && GidOf(index, xs[i]) == Some(gid)
  }

  lemma {:induction false} BucketMember(xs: seq<string>, index: map<string, string>, gid: string, x: string)
    ensures x in Bucket(xs, index, gid) <==> x in xs && GidOf(index, x) == Some(gid)
  {
    if xs != [] {
      var n := |xs| - 1;
      BucketMember(xs[..n], index, gid, x);
      assert xs == xs[..n] + [xs[n]];
    }
  }

  lemma {:induction false} BucketDistinct(xs: seq<string>, index: map<string, string>, gid: string)
    ensures forall a, b :: 0 <= a < b < |Bucket(xs, index, gid)| ==> Bucket(xs, index, gid)[a] != Bucket(xs, index, gid)[b]
  {
    if xs != [] {
      BucketDistinct(xs[..|xs| - 1], index, gid);
    }
  }

  /** Every id in the key order is there once. */
  lemma {:induction false} GroupOrderDistinct(xs: seq<string>, index: map<string, string>)
    ensures forall a, b :: 0 <= a < b < |GroupOrder(xs, index)| ==> GroupOrder(xs, index)[a] != GroupOrder(xs, index)[b]
  {
    if xs != [] {
      GroupOrderDistinct(xs[..|xs| - 1], index);
    }
  }

  /** The ungrouped names are the selected names without a group, in selection order. */
  lemma {:induction false} SinglesCount(xs: seq<string>, index: map<string, string>, x: string)
    ensures GidOf(index, x).None? ==> multiset(Singles(xs, index))[x] == multiset(xs)[x]
    ensures GidOf(index, x).Some? ==> x !in Singles(xs, index)
  {
    if xs != [] {
      var n := |xs| - 1;
      var prev := xs[..n];
      var tail := if GidOf(index, xs[n]).None? then [xs[n]] else [];
      SinglesCount(prev, index, x);
      SplitLast(xs);
      assert Singles(xs, index) == Singles(prev, index) + tail;
      assert multiset(Singles(xs, index))[x] == multiset(Singles(prev, index))[x] + multiset(tail)[x];
      assert multiset(xs)[x] == multiset(prev)[x] + multiset([xs[n]])[x];
    }
  }

  /** Bucket `i` of the result is the bucket of the `i`-th group touched, and the buckets after
      the group buckets are the ungrouped names, one each. */
  lemma DedupeShape(selected: seq<string>, groups: seq<GroupDef>)
    ensures var r := Dedupe(selected, groups); var index := GroupIndex(groups);
      var order := GroupOrder(selected, index); var singles := Singles(selected, index);
      |r| == |order| + |singles|
      && (forall i :: 0 <= i < |order| ==> r[i] == Bucket(selected, index, order[i]))
      && r[|order|..] == seq(|singles|, j requires 0 <= j < |singles| => [singles[j]])
  {
  }

  /** Every bucket is non-empty, and group buckets hold no name twice. */
  lemma DedupeBucketsNonEmpty(selected: seq<string>, groups: seq<GroupDef>)
    ensures var r := Dedupe(selected, groups); var order := GroupOrder(selected, GroupIndex(groups));
      (forall b :: b in r ==> |b| > 0)
      && (forall i, a, c :: 0 <= i < |order| && 0 <= a < c < |r[i]| ==> r[i][a] != r[i][c])
  {
    var r := Dedupe(selected, groups);
    var index := GroupIndex(groups);
    var order := GroupOrder(selected, index);
    DedupeShape(selected, groups);
    forall i | 0 <= i < |order|
      ensures |r[i]| > 0 && forall a, c :: 0 <= a < c < |r[i]| ==> r[i][a] != r[i][c]
    {
      BucketContents(selected, index, order[i]);
      var k :| 0 <= k < |selected| && GidOf(index, selected[k]) == Some(order[i]);
      assert selected[k] in Bucket(selected, index, order[i]);
    }
    forall b | b in r
      ensures |b| > 0
    {
      var i :| 0 <= i < |r| && r[i] == b;
      if i >= |order| {
        assert r[i] == r[|order|..][i - |order|];
      }
    }
  }

  /** Every selected name lands in some bucket. */
  lemma DedupeCovers(selected: seq<string>, groups: seq<GroupDef>, x: string)
    requires x in selected
    ensures exists b :: b in Dedupe(selected, groups) && x in b
  {
    var index := GroupIndex(groups);
    DedupeShape(selected, groups);
    if GidOf(index, x).Some? {
      CoveredByGroup(selected, groups, x);
    } else {
      CoveredBySingle(selected, groups, x);
    }
  }

  lemma CoveredByGroup(selected: seq<string>, groups: seq<GroupDef>, x: string)
    requires x in selected && GidOf(GroupIndex(groups), x).Some?
    ensures exists b :: b in Dedupe(selected, groups) && x in b
  {
    var r := Dedupe(selected, groups);
    var index := GroupIndex(groups);
    var order := GroupOrder(selected, index);
    var gid := GidOf(index, x).value;
    DedupeShape(selected, groups);
    var k :| 0 <= k < |selected| && selected[k] == x;
    BucketContents(selected, index, gid);
    var i :| 0 <= i < |order| && order[i] == gid;
    assert r[i] in r && x in r[i];
  }

  lemma CoveredBySingle(selected: seq<string>, groups: seq<GroupDef>, x: string)
    requires x in selected && GidOf(GroupIndex(groups), x).None?
    ensures exists b :: b in Dedupe(selected, groups) && x in b
  {
    var r := Dedupe(selected, groups);
    var index := GroupIndex(groups);
    var order := GroupOrder(selected, index);
    var singles := Singles(selected, index);
    DedupeShape(selected, groups);
    SinglesCount(selected, index, x);
    assert x in multiset(singles);
    var j :| 0 <= j < |singles| && singles[j] == x;
    assert r[|order|..][j] == [x];
    assert r[|order| + j] in r;
  }

  /** An ungrouped name selected `c` times yields `c` singleton buckets, all after the group
      buckets. */
  lemma DedupeSingletons(selected: seq<string>, groups: seq<GroupDef>, x: string)
    requires GidOf(GroupIndex(groups), x).None?
    ensures var order := GroupOrder(selected, GroupIndex(groups));
      multiset(Dedupe(selected, groups)[|order|..])[[x]] == multiset(selected)[x]
  {
    var index := GroupIndex(groups);
    DedupeShape(selected, groups);
    SinglesCount(selected, index, x);
    SingletonCount(Singles(selected, index), x);
  }

  /** Wrapping each name in its own bucket keeps the count of each name. */
  lemma {:induction false} SingletonCount(singles: seq<string>, x: string)
    ensures multiset(seq(|singles|, j requires 0 <= j < |singles| => [singles[j]]))[[x]] == multiset(singles)[x]
  {
    if singles != [] {
      var n := |singles| - 1;
      SingletonCount(singles[..n], x);
      var w := seq(|singles|, j requires 0 <= j < |singles| => [singles[j]]);
      var w0 := seq(n, j requires 0 <= j < n => [singles[..n][j]]);
      assert w == w0 + [[singles[n]]];
      assert singles == singles[..n] + [singles[n]];
    }
  }

  // ----- Scenarios -----

  function Sizes(buckets: seq<seq<string>>): seq<nat>
  {
    seq(|buckets|, i requires 0 <= i < |buckets| => |buckets[i]|)
  }

  /** The names a choice of option indices picks. */
  function Scenario(buckets: seq<seq<string>>, v: seq<nat>): (s: seq<string>)
    requires InRange(Sizes(buckets), v)
    ensures |s| == |v| && forall i :: 0 <= i < |v| ==> s[i] in buckets[i]
  {
    seq(|v|, i requires 0 <= i < |v| => buckets[i][v[i]])
  }

  function ScenariosOf(buckets: seq<seq<string>>, vs: seq<seq<nat>>): seq<seq<string>>
    requires forall v :: v in vs ==> InRange(Sizes(buckets), v)
  {
    seq(|vs|, j requires 0 <= j < |vs| => Scenario(buckets, vs[j]))
  }

  /** The option-index vectors the expansion records: every one, in lexicographic order. */
  function OptionVectors(buckets: seq<seq<string>>): seq<seq<nat>>
  {
    Enumerate(Sizes(buckets), AlwaysOk(), [], 0)
  }

  /** `expandGroups` as a value. */
  function Expansion(buckets: seq<seq<string>>): seq<seq<string>>
  {
    ScenariosOf(buckets, OptionVectors(buckets))
  }

  lemma ScenariosAppend(buckets: seq<seq<string>>, a: seq<seq<nat>>, b: seq<seq<nat>>)
    requires forall v :: v in a ==> InRange(Sizes(buckets), v)
    requires forall v :: v in b ==> InRange(Sizes(buckets), v)
    ensures ScenariosOf(buckets, a + b) == ScenariosOf(buckets, a) + ScenariosOf(buckets, b)
  {
    assert forall v :: v in a + b ==> v in a || v in b;
  }

  lemma ScenarioSnoc(buckets: seq<seq<string>>, cur: seq<nat>, k: nat)
    requires InRange(Sizes(buckets), cur) && |cur| < |buckets| && k < |buckets[|cur|]|
    ensures InRange(Sizes(buckets), cur + [k])
    ensures Scenario(buckets, cur + [k]) == Scenario(buckets, cur) + [buckets[|cur|][k]]
  {
    var v := cur + [k];
    assert forall i :: 0 <= i < |cur| ==> v[i] == cur[i];
  }

  /** The scenarios `dfs` records from the partial choice `cur`, trying options `k`,
      `k + 1`, ... of the next bucket. */
  function Expanded(buckets: seq<seq<string>>, cur: seq<nat>, k: nat): seq<seq<string>>
    requires InRange(Sizes(buckets), cur)
  {
    ScenariosOf(buckets, Enumerate(Sizes(buckets), AlwaysOk(), cur, k))
  }

  /** What one option contributes to the scenarios, ahead of the later options. */
  lemma ExpandedStep(buckets: seq<seq<string>>, cur: seq<nat>, k: nat)
    requires InRange(Sizes(buckets), cur) && |cur| < |buckets| && k < |buckets[|cur|]|
    ensures InRange(Sizes(buckets), cur + [k])
    ensures Expanded(buckets, cur, k) == Expanded(buckets, cur + [k], 0) + Expanded(buckets, cur, k + 1)
  {
    var sizes, ok := Sizes(buckets), AlwaysOk();
    ScenarioSnoc(buckets, cur, k);
    EnumerateUnfold(sizes, ok, cur, k);
    assert ok(cur, k);
    ScenariosAppend(buckets, Enumerate(sizes, ok, cur + [k], 0), Enumerate(sizes, ok, cur, k + 1));
  }

  /** A complete choice is recorded once; past the last option nothing more is. */
  lemma ExpandedEnds(buckets: seq<seq<string>>, cur: seq<nat>)
    requires InRange(Sizes(buckets), cur)
    ensures |cur| == |buckets| ==> Expanded(buckets, cur, 0) == [Scenario(buckets, cur)]
    ensures |cur| < |buckets| ==> Expanded(buckets, cur, |buckets[|cur|]|) == []
  {
  }

  /** One level of `dfs`: try every option of bucket `|cur|` after the partial choice `cur`
      (whose names are `current`), appending what it records to `results`. */
  method Dfs(buckets: seq<seq<string>>, ghost cur: seq<nat>, current: seq<string>, results: seq<seq<string>>)
    returns (out: seq<seq<string>>)
    requires InRange(Sizes(buckets), cur) && current == Scenario(buckets, cur)
    ensures out == results + Expanded(buckets, cur, 0)
    decreases |buckets| - |cur|
  {
    ExpandedEnds(buckets, cur);
    var i := |current|;
    if i == |buckets| {
      return results + [current];
    }
    out := results;
    var options := buckets[i];
    for k := 0 to |options|
      invariant out + Expanded(buckets, cur, k) == results + Expanded(buckets, cur, 0)
    {
      ScenarioSnoc(buckets, cur, k);
      ExpandedStep(buckets, cur, k);
      ghost var before := out;
      out := Dfs(buckets, cur + [k], current + [options[k]], out);
      AppendAssociative(before, Expanded(buckets, cur + [k], 0), Expanded(buckets, cur, k + 1));
    }
  }

  /** `expandGroups` */
  method ExpandGroups(buckets: seq<seq<string>>) returns (results: seq<seq<string>>)
    ensures results == Expansion(buckets)
  {
    results := Dfs(buckets, [], [], []);
    assert Expanded(buckets, [], 0) == Expansion(buckets);
  }

  /** There are as many scenarios as the product of the bucket sizes: one for no buckets, none
      when a bucket is empty. */
  lemma ExpansionCount(buckets: seq<seq<string>>)
    ensures |Expansion(buckets)| == Product(Sizes(buckets))
    ensures buckets == [] ==> Expansion(buckets) == [[]]
    ensures (exists i :: 0 <= i < |buckets| && buckets[i] == []) ==> Expansion(buckets) == []
  {
    ProductOfAll(Sizes(buckets));
    if exists i :: 0 <= i < |buckets| && buckets[i] == [] {
      var i :| 0 <= i < |buckets| && buckets[i] == [];
      NoOptionsNoChoices(Sizes(buckets), AlwaysOk(), [], 0, i);
    }
  }

  /** Each scenario takes one name from each bucket, in bucket order; every way of doing so is
      a scenario; and the scenarios follow the lexicographic order of the option indices. */
  lemma ExpansionContents(buckets: seq<seq<string>>, v: seq<nat>)
    ensures v in OptionVectors(buckets) <==> |v| == |buckets| && InRange(Sizes(buckets), v)
    ensures forall j :: 0 <= j < |Expansion(buckets)| ==>
      |Expansion(buckets)[j]| == |buckets| && forall i :: 0 <= i < |buckets| ==> Expansion(buckets)[j][i] in buckets[i]
    ensures StrictlyIncreasing(OptionVectors(buckets))
  {
    var sizes := Sizes(buckets);
    var vs := OptionVectors(buckets);
    forall j | 0 <= j < |vs|
      ensures |Expansion(buckets)[j]| == |buckets|
      ensures forall i :: 0 <= i < |buckets| ==> Expansion(buckets)[j][i] in buckets[i]
    {
      assert vs[j] in vs;
      assert Expansion(buckets)[j] == Scenario(buckets, vs[j]);
    }
    EnumerateMembers(sizes, AlwaysOk(), [], 0, v);
    if |v| == |buckets| && InRange(sizes, v) {
      assert v[..0] == [];
    }
    EnumerateSorted(sizes, AlwaysOk(), [], 0);
  }

  /** `generateSelectionScenarios` */
  method GenerateSelectionScenarios(selected: seq<string>, groups: seq<GroupDef>) returns (scenarios: seq<seq<string>>)
    ensures scenarios == Expansion(Dedupe(selected, groups))
  {
    var grouped := DedupeWithinGroups(selected, groups);
    scenarios := ExpandGroups(grouped);
  }

  // ----- The usage example -----

  /** The expansion of two buckets, the first with two names and the second with one. */
  lemma ExpansionExample(m1: string, m2: string, p: string)
    ensures Expansion([[m1, m2], [p]]) == [[m1, p], [m2, p]]
  {
    var b := [[m1, m2], [p]];
    assert Sizes(b) == [2, 1];
    TwoByOneExample(Sizes(b));
    assert Scenario(b, [0, 0]) == [m1, p];
    assert Scenario(b, [1, 0]) == [m2, p];
  }

  lemma TwoByOneExample(sizes: seq<nat>)
    requires sizes == [2, 1]
    ensures Enumerate(sizes, AlwaysOk(), [], 0) == [[0, 0], [1, 0]]
  {
    var ok := AlwaysOk();
    assert [] + [0] == [0] && [] + [1] == [1] && [0] + [0] == [0, 0] && [1] + [0] == [1, 0];
    EnumerateUnfold(sizes, ok, [], 0);
    EnumerateUnfold(sizes, ok, [], 1);
    EnumerateUnfold(sizes, ok, [0], 0);
    EnumerateUnfold(sizes, ok, [1], 0);
    assert Enumerate(sizes, ok, [0, 0], 0) == [[0, 0]];
    assert Enumerate(sizes, ok, [1, 0], 0) == [[1, 0]];
    assert Enumerate(sizes, ok, [0], 1) == [];
    assert Enumerate(sizes, ok, [1], 1) == [];
    assert Enumerate(sizes, ok, [], 2) == [];
  }

  /** Two names of one group and an ungrouped name give the group bucket, then the singleton. */
  lemma DedupeExample(m1: string, m2: string, p: string, id: string)
    requires id != "" && m1 != m2
    requires NormalizeName(p) != NormalizeName(m1) && NormalizeName(p) != NormalizeName(m2)
    ensures Dedupe([m1, m2, p], [GroupDef(id, "", [m1, m2])]) == [[m1, m2], [p]]
  {
    var index := GroupIndex([GroupDef(id, "", [m1, m2])]);
    ExampleIndex(m1, m2, id);
    assert GidOf(index, m1) == Some(id) && GidOf(index, m2) == Some(id) && GidOf(index, p) == None;
    ExampleFiling(m1, m2, p, id, index);
  }

  lemma ExampleIndex(m1: string, m2: string, id: string)
    ensures GroupIndex([GroupDef(id, "", [m1, m2])]) == map[NormalizeName(m1) := id][NormalizeName(m2) := id]
  {
    var groups := [GroupDef(id, "", [m1, m2])];
    assert groups[..0] == [] && GroupIndex(groups[..0]) == map[];
    assert [m1, m2][..1] == [m1] && [m1][..0] == [];
    assert AddNames(map[], [m1], id) == map[NormalizeName(m1) := id];
  }

  lemma ExampleFiling(m1: string, m2: string, p: string, id: string, index: map<string, string>)
    requires m1 != m2
    requires GidOf(index, m1) == Some(id) && GidOf(index, m2) == Some(id) && GidOf(index, p) == None
    ensures GroupOrder([m1, m2, p], index) == [id]
    ensures Singles([m1, m2, p], index) == [p]
    ensures Bucket([m1, m2, p], index, id) == [m1, m2]
  {
    var xs := [m1, m2, p];
    assert xs[..2] == [m1, m2] && xs[..2][..1] == [m1] && [m1][..0] == [];
    assert GroupOrder([m1], index) == [id];
    assert GroupOrder([m1, m2], index) == [id];
    assert Singles([m1], index) == [];
    assert Singles([m1, m2], index) == [];
    assert Bucket([m1], index, id) == [m1];
    assert Bucket([m1, m2], index, id) == [m1, m2];
  }

  /** The usage example of the grouping module: selecting both names of a two-name group and a
      third, ungrouped name yields two scenarios, one per group member, each with the third
      name. */
  lemma ScenariosExample(m1: string, m2: string, p: string, id: string)
    requires id != "" && m1 != m2
    requires NormalizeName(p) != NormalizeName(m1) && NormalizeName(p) != NormalizeName(m2)
    ensures Expansion(Dedupe([m1, m2, p], [GroupDef(id, "", [m1, m2])])) == [[m1, p], [m2, p]]
  {
    DedupeExample(m1, m2, p, id);
    ExpansionExample(m1, m2, p);
  }
}
