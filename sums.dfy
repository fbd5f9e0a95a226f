/** Additive totals over sequences. Every score, unit count and penalty of the engine is a sum
    of one term per section, slot, gene or pair, accumulated left to right. */
module Sums {

  /** The sum of `f` over `s`, accumulated from the left as the engine's loops do. */
  function Sum<T>(s: seq<T>, f: T -> int): int
  {
    if s == [] then 0 else Sum(s[..|s| - 1], f) + f(s[|s| - 1])
  }

  lemma {:induction false} SumAppend<T>(a: seq<T>, b: seq<T>, f: T -> int)
    ensures Sum(a + b, f) == Sum(a, f) + Sum(b, f)
  {
    if b == [] {
      assert a + b == a;
    } else {
      assert (a + b)[..|a + b| - 1] == a + b[..|b| - 1];
      SumAppend(a, b[..|b| - 1], f);
    }
  }

  /** In two orderings of the same elements, the last element of one sits at some index of the
      other, and removing both leaves two orderings of the same elements again. */
  lemma MatchLast<T>(a: seq<T>, b: seq<T>) returns (j: nat)
    requires a != [] && multiset(a) == multiset(b)
    ensures j < |b| && b[j] == a[|a| - 1]
    ensures b == b[..j] + [b[j]] + b[j + 1..]
    ensures multiset(a[..|a| - 1]) == multiset(b[..j] + b[j + 1..])
  {
    var n := |a| - 1;
    var x := a[n];
    assert x in multiset(b);
    j :| 0 <= j < |b| && b[j] == x;
    assert b == b[..j] + [x] + b[j + 1..];
    assert a == a[..n] + [x];
    assert multiset(a[..n]) == multiset(a) - multiset{x};
    assert multiset(b) == multiset(b[..j]) + multiset{x} + multiset(b[j + 1..]);
  }

  /** The total does not depend on the order of the terms. */
  lemma {:induction false} SumPermutation<T>(a: seq<T>, b: seq<T>, f: T -> int)
    requires multiset(a) == multiset(b)
    ensures Sum(a, f) == Sum(b, f)
    decreases |a|
  {
    if a != [] {
      var n := |a| - 1;
      var x := a[n];
      var j := MatchLast(a, b);
      var rest := b[..j] + b[j + 1..];
      SumPermutation(a[..n], rest, f);
      assert a == a[..n] + [x];
      SumAppend(b[..j] + [x], b[j + 1..], f);
      SumAppend(b[..j], [x], f);
      SumAppend(b[..j], b[j + 1..], f);
      assert Sum([x], f) == f(x) by {
        assert [x][..0] == [];
      }
    }
  }

  /** Replacing one term changes the total by exactly the difference of the two terms. */
  lemma SumUpdate<T>(s: seq<T>, i: nat, y: T, f: T -> int)
    requires i < |s|
    ensures Sum(s[i := y], f) == Sum(s, f) - f(s[i]) + f(y)
  {
    assert s == s[..i] + [s[i]] + s[i + 1..];
    assert s[i := y] == s[..i] + [y] + s[i + 1..];
    SumAppend(s[..i] + [s[i]], s[i + 1..], f);
    SumAppend(s[..i] + [y], s[i + 1..], f);
    SumAppend(s[..i], [s[i]], f);
    SumAppend(s[..i], [y], f);
    assert [y][..0] == [] && [s[i]][..0] == [];
  }

  /** A sum of non-negative terms is zero exactly when every term is zero. */
  lemma {:induction false} SumZero<T>(s: seq<T>, f: T -> int)
    requires forall i :: 0 <= i < |s| ==> f(s[i]) >= 0
    ensures Sum(s, f) >= 0
    ensures Sum(s, f) == 0 <==> forall i :: 0 <= i < |s| ==> f(s[i]) == 0
  {
    if s != [] {
      var n := |s| - 1;
      assert forall i :: 0 <= i < n ==> s[..n][i] == s[i];
      SumZero(s[..n], f);
    }
  }

  /** Extending a prefix by one element adds that element's term. */
  lemma SumSnoc<T>(s: seq<T>, j: nat, f: T -> int)
    requires j < |s|
    ensures Sum(s[..j + 1], f) == Sum(s[..j], f) + f(s[j])
  {
    assert s[..j + 1][..j] == s[..j];
  }

  /** Sums are linear in their terms. */
  lemma {:induction false} SumLinear<T>(s: seq<T>, h: T -> int, f: T -> int, g: T -> int, a: int, b: int)
    requires forall x :: h(x) == a * f(x) + b * g(x)
    ensures Sum(s, h) == a * Sum(s, f) + b * Sum(s, g)
  {
    if s != [] {
      var n := |s| - 1;
      SumLinear(s[..n], h, f, g, a, b);
      var x := s[n];
      calc {
        Sum(s, h);
        Sum(s[..n], h) + h(x);
        a * Sum(s[..n], f) + b * Sum(s[..n], g) + a * f(x) + b * g(x);
        { assert a * Sum(s[..n], f) + a * f(x) == a * (Sum(s[..n], f) + f(x));
          assert b * Sum(s[..n], g) + b * g(x) == b * (Sum(s[..n], g) + g(x)); }
        a * (Sum(s[..n], f) + f(x)) + b * (Sum(s[..n], g) + g(x));
      }
    }
  }

  /** A sequence is its part before `i`, element `i` and its part after `i`. */
  lemma SplitAt<T>(s: seq<T>, i: nat)
    requires i < |s|
    ensures s == s[..i] + [s[i]] + s[i + 1..]
    ensures s[i := s[i]] == s
  {
  }

  /** Updating element `i` replaces it between the same two parts. */
  lemma UpdateAt<T>(s: seq<T>, i: nat, x: T)
    requires i < |s|
    ensures s[i := x] == s[..i] + [x] + s[i + 1..]
  {
  }

  lemma AppendAssociative<T>(a: seq<T>, b: seq<T>, c: seq<T>)
    ensures (a + b) + c == a + (b + c)
  {
  }

  /** A non-empty sequence is its front followed by its last element. */
  lemma SplitLast<T>(s: seq<T>)
    requires s != []
    ensures s == s[..|s| - 1] + [s[|s| - 1]]
  {
  }
}
