/** Records filled one element at a time under a key (`idx[key(x)] = x` in a loop): the engine's
    `prefMap`, its course index and the importer's course map. Later elements with the same key
    replace earlier ones. */
module Keyed {

  /** The record after storing every element of `xs`, in order, under its key. */
  function IndexBy<T>(xs: seq<T>, key: T -> string): map<string, T>
  {
    if xs == [] then map[]
    else IndexBy(xs[..|xs| - 1], key)[key(xs[|xs| - 1]) := xs[|xs| - 1]]
  }

  /** Every element is stored under its own key, and only given elements are stored. */
  lemma {:induction false} IndexByStored<T>(xs: seq<T>, key: T -> string)
    ensures forall k :: k in IndexBy(xs, key) ==> key(IndexBy(xs, key)[k]) == k && IndexBy(xs, key)[k] in xs
  {
    if xs != [] {
      var init := xs[..|xs| - 1];
      IndexByStored(init, key);
      assert forall x :: x in init ==> x in xs;
    }
  }

  /** Position `i` holds the last element of `xs` with key `k`. */
  predicate LastFor<T>(xs: seq<T>, key: T -> string, k: string, i: int)
  {
    0 <= i < |xs| && key(xs[i]) == k && forall j :: i < j < |xs| ==> key(xs[j]) != k
  }

  /** The record holds exactly the keys of the elements. */
  lemma {:induction false} IndexByKeys<T>(xs: seq<T>, key: T -> string, k: string)
    ensures k in IndexBy(xs, key) <==> exists i :: 0 <= i < |xs| && key(xs[i]) == k
  {
    if xs != [] {
      var n := |xs| - 1;
      var init := xs[..n];
      IndexByKeys(init, key, k);
      if key(xs[n]) != k {
        if exists i :: 0 <= i < |xs| && key(xs[i]) == k {
          var i :| 0 <= i < |xs| && key(xs[i]) == k;
          assert key(init[i]) == k;
        }
        if exists i :: 0 <= i < |init| && key(init[i]) == k {
          var i :| 0 <= i < |init| && key(init[i]) == k;
          assert key(xs[i]) == k;
        }
      }
    }
  }

  /** Of several elements with one key, the record keeps the last. */
  lemma {:induction false} IndexByLastWins<T>(xs: seq<T>, key: T -> string, k: string, i: int)
    requires LastFor(xs, key, k, i)
    ensures k in IndexBy(xs, key) && IndexBy(xs, key)[k] == xs[i]
  {
    var n := |xs| - 1;
    var init := xs[..n];
    if i < n {
      assert key(xs[n]) != k;
      assert LastFor(init, key, k, i);
      IndexByLastWins(init, key, k, i);
    }
  }

  /** The position of the last element with key `k` among the first `n`. */
  function LastIndexOf<T>(xs: seq<T>, key: T -> string, k: string, n: nat): (i: int)
    requires n <= |xs|
    requires exists j :: 0 <= j < n && key(xs[j]) == k
    ensures LastFor(xs[..n], key, k, i)
  {
    if key(xs[n - 1]) == k then n - 1
    else
      assert exists j :: 0 <= j < n - 1 && key(xs[j]) == k;
      var i := LastIndexOf(xs, key, k, n - 1);
      assert xs[..n][..n - 1] == xs[..n - 1];
      i
  }

  /** Every stored element is the last one given for its key. */
  lemma StoredIsLast<T>(xs: seq<T>, key: T -> string, k: string)
    requires k in IndexBy(xs, key)
    ensures exists i :: LastFor(xs, key, k, i) && IndexBy(xs, key)[k] == xs[i]
  {
    IndexByKeys(xs, key, k);
    var i := LastIndexOf(xs, key, k, |xs|);
    assert xs[..|xs|] == xs;
    IndexByLastWins(xs, key, k, i);
  }
}
