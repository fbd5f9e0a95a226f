/** The depth-first enumeration behind both `findSchedules` and `expandGroups`: position by
    position, try every option index in increasing order, descend when the option is admitted
    after the options already chosen, and record every complete choice. Choices are vectors of
    option indices; the two callers turn them into sections or course names. */
module Enumeration {

  /** Every position of `v` picks one of the options available there. */
  predicate InRange(sizes: seq<nat>, v: seq<nat>)
  {
    |v| <= |sizes| && forall i :: 0 <= i < |v| ==> v[i] < sizes[i]
  }

  /** `v` is a complete choice that extends the partial choice `cur` with an option of at
      least `k` at the next position. */
  predicate Completes(sizes: seq<nat>, cur: seq<nat>, k: nat, v: seq<nat>)
  {
    |v| == |sizes| && InRange(sizes, v) && |cur| <= |v| && v[..|cur|] == cur
    && (|cur| < |sizes| ==> v[|cur|] >= k)
  }

  /** The complete choices reachable from the partial choice `cur`, trying options `k`, `k + 1`,
      ... at position `|cur|`, in the order the search records them. */
  function Enumerate(sizes: seq<nat>, ok: (seq<nat>, nat) -> bool, cur: seq<nat>, k: nat): (r: seq<seq<nat>>)
    requires InRange(sizes, cur)
    ensures forall v :: v in r ==> Completes(sizes, cur, k, v)
    decreases |sizes| - |cur|, if |cur| < |sizes| then sizes[|cur|] - k else 0
  {
    if |cur| == |sizes| then [cur]
    else if k >= sizes[|cur|] then []
    else
      var here := if ok(cur, k) then Enumerate(sizes, ok, cur + [k], 0) else [];
      here + Enumerate(sizes, ok, cur, k + 1)
  }

  /** Every option chosen at or after position `from` was admitted after the ones before it. */
  predicate AdmittedFrom(ok: (seq<nat>, nat) -> bool, v: seq<nat>, from: nat)
  {
    forall i :: from <= i < |v| ==> ok(v[..i], v[i])
  }

  lemma EnumerateUnfold(sizes: seq<nat>, ok: (seq<nat>, nat) -> bool, cur: seq<nat>, k: nat)
    requires InRange(sizes, cur) && |cur| < |sizes| && k < sizes[|cur|]
    ensures Enumerate(sizes, ok, cur, k) ==
      (if ok(cur, k) then Enumerate(sizes, ok, cur + [k], 0) else []) + Enumerate(sizes, ok, cur, k + 1)
  {
  }

  /** Soundness: every recorded choice had each of its options from position `|cur|` on
      admitted after the options before it. */
  lemma {:induction false} EnumerateSound(sizes: seq<nat>, ok: (seq<nat>, nat) -> bool, cur: seq<nat>, k: nat, v: seq<nat>)
    requires InRange(sizes, cur)
    requires v in Enumerate(sizes, ok, cur, k)
    ensures AdmittedFrom(ok, v, |cur|)
    decreases |sizes| - |cur|, if |cur| < |sizes| then sizes[|cur|] - k else 0
  {
    var n := |cur|;
    if n < |sizes| && k < sizes[n] {
      EnumerateUnfold(sizes, ok, cur, k);
      if ok(cur, k) && v in Enumerate(sizes, ok, cur + [k], 0) {
        EnumerateSound(sizes, ok, cur + [k], 0, v);
        AdmittedStep(ok, v, n, cur, k);
      } else {
        assert v in Enumerate(sizes, ok, cur, k + 1);
        EnumerateSound(sizes, ok, cur, k + 1, v);
      }
    }
  }

  lemma AdmittedStep(ok: (seq<nat>, nat) -> bool, v: seq<nat>, n: nat, cur: seq<nat>, k: nat)
    requires n < |v| && v[..n + 1] == cur + [k] && |cur| == n
    requires ok(cur, k) && AdmittedFrom(ok, v, n + 1)
    ensures AdmittedFrom(ok, v, n)
  {
    assert v[..n] == v[..n + 1][..n] == cur;
    assert v[n] == v[..n + 1][n] == k;
  }

  /** Completeness: every complete in-range choice extending `cur`, with an option of at least
      `k` next and every later option admitted, is recorded. */
  lemma {:induction false} EnumerateComplete(sizes: seq<nat>, ok: (seq<nat>, nat) -> bool, cur: seq<nat>, k: nat, v: seq<nat>)
    requires InRange(sizes, cur)
    requires Completes(sizes, cur, k, v)
    requires AdmittedFrom(ok, v, |cur|)
    ensures v in Enumerate(sizes, ok, cur, k)
    decreases |sizes| - |cur|, if |cur| < |sizes| then sizes[|cur|] - k else 0
  {
    var n := |cur|;
    if n == |sizes| {
      assert v == v[..n];
    } else if v[n] == k {
      var next := cur + [k];
      assert v[..n + 1] == next;
      assert ok(v[..n], v[n]);
      EnumerateComplete(sizes, ok, next, 0, v);
      EnumerateUnfold(sizes, ok, cur, k);
    } else {
      EnumerateUnfold(sizes, ok, cur, k);
      EnumerateComplete(sizes, ok, cur, k + 1, v);
    }
  }

  /** The search records exactly the complete in-range choices extending `cur`, with an option
      of at least `k` next, every option of which was admitted. */
  lemma EnumerateMembers(sizes: seq<nat>, ok: (seq<nat>, nat) -> bool, cur: seq<nat>, k: nat, v: seq<nat>)
    requires InRange(sizes, cur)
    ensures v in Enumerate(sizes, ok, cur, k) <==> Completes(sizes, cur, k, v) && AdmittedFrom(ok, v, |cur|)
  {
    if v in Enumerate(sizes, ok, cur, k) {
      EnumerateSound(sizes, ok, cur, k, v);
    } else if Completes(sizes, cur, k, v) && AdmittedFrom(ok, v, |cur|) {
      EnumerateComplete(sizes, ok, cur, k, v);
    }
  }

  /** `a` precedes `b` in lexicographic order, first differing at position `i`. */
  predicate FirstDiffersAt(a: seq<nat>, b: seq<nat>, i: int)
  {
    0 <= i < |a| && i < |b| && a[..i] == b[..i] && a[i] < b[i]
  }

  ghost predicate LexLess(a: seq<nat>, b: seq<nat>)
  {
    exists i :: FirstDiffersAt(a, b, i)
  }

  ghost predicate StrictlyIncreasing(r: seq<seq<nat>>)
  {
    forall i, j :: 0 <= i < j < |r| ==> LexLess(r[i], r[j])
  }

  /** The search records choices in strictly increasing lexicographic order of option indices,
      so it never records the same choice twice. */
  lemma {:induction false} EnumerateSorted(sizes: seq<nat>, ok: (seq<nat>, nat) -> bool, cur: seq<nat>, k: nat)
    requires InRange(sizes, cur)
    ensures StrictlyIncreasing(Enumerate(sizes, ok, cur, k))
    ensures var r := Enumerate(sizes, ok, cur, k); forall i, j :: 0 <= i < j < |r| ==> r[i] != r[j]
    decreases |sizes| - |cur|, if |cur| < |sizes| then sizes[|cur|] - k else 0
  {
    var r := Enumerate(sizes, ok, cur, k);
    var n := |cur|;
    if n < |sizes| && k < sizes[n] {
      var next := cur + [k];
      var here := if ok(cur, k) then Enumerate(sizes, ok, next, 0) else [];
      var rest := Enumerate(sizes, ok, cur, k + 1);
      EnumerateSorted(sizes, ok, cur, k + 1);
      if ok(cur, k) {
        EnumerateSorted(sizes, ok, next, 0);
      }
      assert r == here + rest;
      forall i, j | 0 <= i < j < |r|
        ensures LexLess(r[i], r[j])
      {
        if i < |here| && j >= |here| {
          var a, b := r[i], r[j];
          assert a in here && b in rest;
          assert a[..n + 1] == next;
          assert a[..n] == cur && a[n] == k;
          assert FirstDiffersAt(a, b, n);
        } else if j < |here| {
          assert LexLess(here[i], here[j]);
        } else if i >= |here| {
          assert LexLess(rest[i - |here|], rest[j - |here|]);
        }
      }
    }
    forall i, j | 0 <= i < j < |r|
      ensures r[i] != r[j]
    {
      assert LexLess(r[i], r[j]);
      var p :| FirstDiffersAt(r[i], r[j], p);
    }
  }

  /** The product of the option counts. */
  function Product(sizes: seq<nat>): nat
  {
    if sizes == [] then 1 else sizes[0] * Product(sizes[1..])
  }

  function AlwaysOk(): (seq<nat>, nat) -> bool
  {
    (v: seq<nat>, k: nat) => true
  }

  /** With every option admitted, the search records one choice per element of the Cartesian
      product of the option ranges. */
  lemma {:induction false} EnumerateCount(sizes: seq<nat>, cur: seq<nat>, k: nat)
    requires InRange(sizes, cur)
    requires |cur| < |sizes| ==> k <= sizes[|cur|]
    ensures |Enumerate(sizes, AlwaysOk(), cur, k)| ==
      if |cur| == |sizes| then 1 else (sizes[|cur|] - k) * Product(sizes[|cur| + 1..])
    decreases |sizes| - |cur|, if |cur| < |sizes| then sizes[|cur|] - k else 0
  {
    var n := |cur|;
    if n < |sizes| && k < sizes[n] {
      var next := cur + [k];
      EnumerateCount(sizes, next, 0);
      EnumerateCount(sizes, cur, k + 1);
      if n + 1 < |sizes| {
        assert sizes[n + 1..][1..] == sizes[n + 2..];
      } else {
        assert sizes[n + 1..] == [];
      }
      CountStep(sizes, cur, k, Product(sizes[n + 1..]));
    }
  }

  lemma CountStep(sizes: seq<nat>, cur: seq<nat>, k: nat, p: nat)
    requires InRange(sizes, cur) && |cur| < |sizes| && k < sizes[|cur|]
    requires |Enumerate(sizes, AlwaysOk(), cur + [k], 0)| == p
    requires |Enumerate(sizes, AlwaysOk(), cur, k + 1)| == (sizes[|cur|] - (k + 1)) * p
    ensures |Enumerate(sizes, AlwaysOk(), cur, k)| == (sizes[|cur|] - k) * p
  {
    EnumerateUnfold(sizes, AlwaysOk(), cur, k);
    assert AlwaysOk()(cur, k);
    MulStep(sizes[|cur|] - (k + 1), p);
  }

  lemma MulStep(x: nat, p: nat)
    ensures (x + 1) * p == x * p + p
  {
  }

  lemma ProductOfAll(sizes: seq<nat>)
    ensures |Enumerate(sizes, AlwaysOk(), [], 0)| == Product(sizes)
  {
    EnumerateCount(sizes, [], 0);
    if sizes != [] {
      assert sizes[1..] == sizes[0 + 1..];
    }
  }

  /** A position with no options at all leaves nothing to record. */
  lemma {:induction false} NoOptionsNoChoices(sizes: seq<nat>, ok: (seq<nat>, nat) -> bool, cur: seq<nat>, k: nat, i: nat)
    requires InRange(sizes, cur)
    requires |cur| <= i < |sizes| && sizes[i] == 0
    ensures Enumerate(sizes, ok, cur, k) == []
    decreases |sizes| - |cur|, if |cur| < |sizes| then sizes[|cur|] - k else 0
  {
    var n := |cur|;
    if k < sizes[n] {
      assert n != i;
      EnumerateUnfold(sizes, ok, cur, k);
      if ok(cur, k) {
        InRangeSnoc(sizes, cur, k);
        NoOptionsNoChoices(sizes, ok, cur + [k], 0, i);
      }
      NoOptionsNoChoices(sizes, ok, cur, k + 1, i);
    }
  }

  /** Choosing an available option at the next position keeps a partial choice in range. */
  lemma InRangeSnoc(sizes: seq<nat>, cur: seq<nat>, k: nat)
    requires InRange(sizes, cur) && |cur| < |sizes| && k < sizes[|cur|]
    ensures InRange(sizes, cur + [k])
  {
    assert forall i :: 0 <= i < |cur| ==> (cur + [k])[i] == cur[i];
  }
}
