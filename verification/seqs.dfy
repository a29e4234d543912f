/** Order-preserving selection from a sequence: what a query filter returns from a table. */
module Seqs {

  /** No value occurs twice in `xs`. */
  predicate Distinct<T(==)>(xs: seq<T>) {
    forall i, j :: 0 <= i < j < |xs| ==> xs[i] != xs[j]
  }

  /** The elements of `xs` that satisfy `p`, in their original order. */
  function Filter<T(==)>(xs: seq<T>, p: T -> bool): (r: seq<T>)
    ensures |r| <= |xs|
    ensures forall i :: 0 <= i < |r| ==> r[i] in xs && p(r[i])
    ensures forall i :: 0 <= i < |xs| && p(xs[i]) ==> xs[i] in r
    decreases |xs|
  {
    if |xs| == 0 then []
    else Filter(xs[..|xs| - 1], p) + (if p(xs[|xs| - 1]) then [xs[|xs| - 1]] else [])
  }

  /** Each element that passes is kept as often as it occurs, and no other element is kept. */
  lemma {:induction false} FilterCount<T>(xs: seq<T>, p: T -> bool, x: T)
    ensures multiset(Filter(xs, p))[x] == if p(x) then multiset(xs)[x] else 0
    decreases |xs|
  {
    if |xs| > 0 {
      var init := xs[..|xs| - 1];
      FilterCount(init, p, x);
      assert xs == init + [xs[|xs| - 1]];
    }
  }

  /** Filtering a concatenation filters each part. */
  lemma {:induction false} FilterAppend<T>(xs: seq<T>, ys: seq<T>, p: T -> bool)
    ensures Filter(xs + ys, p) == Filter(xs, p) + Filter(ys, p)
    decreases |ys|
  {
    if |ys| == 0 {
      assert xs + ys == xs;
    } else {
      var init := ys[..|ys| - 1];
      assert (xs + ys)[..|xs + ys| - 1] == xs + init;
      FilterAppend(xs, init, p);
    }
  }

  /** When every element passes, filtering changes nothing. */
  lemma {:induction false} FilterAll<T>(xs: seq<T>, p: T -> bool)
    requires forall i :: 0 <= i < |xs| ==> p(xs[i])
    ensures Filter(xs, p) == xs
    decreases |xs|
  {
    if |xs| > 0 {
      FilterAll(xs[..|xs| - 1], p);
    }
  }

  /** When no element passes, the result is empty. */
  lemma {:induction false} FilterNone<T>(xs: seq<T>, p: T -> bool)
    requires forall i :: 0 <= i < |xs| ==> !p(xs[i])
    ensures Filter(xs, p) == []
    decreases |xs|
  {
    if |xs| > 0 {
      FilterNone(xs[..|xs| - 1], p);
    }
  }

  /** Two tests that agree on every element select the same elements. */
  lemma {:induction false} FilterCongruent<T>(xs: seq<T>, p: T -> bool, q: T -> bool)
    requires forall i :: 0 <= i < |xs| ==> p(xs[i]) == q(xs[i])
    ensures Filter(xs, p) == Filter(xs, q)
    decreases |xs|
  {
    if |xs| > 0 {
      FilterCongruent(xs[..|xs| - 1], p, q);
    }
  }

  /** A filter of a duplicate-free sequence is duplicate-free. */
  lemma {:induction false} FilterDistinct<T>(xs: seq<T>, p: T -> bool)
    ensures Distinct(xs) ==> Distinct(Filter(xs, p))
    decreases |xs|
  {
    if |xs| > 0 && Distinct(xs) {
      var init := xs[..|xs| - 1];
      FilterDistinct(init, p);
      var last := xs[|xs| - 1];
      assert last !in init by {
        forall i | 0 <= i < |init| ensures init[i] != last {
          assert init[i] == xs[i];
        }
      }
      var front := Filter(init, p);
      var r := Filter(xs, p);
      assert xs[..|xs| - 1] == init;
      assert r == front + (if p(last) then [last] else []);
      forall i, j | 0 <= i < j < |r| ensures r[i] != r[j] {
        if j >= |front| {
          assert r[j] == last && r[i] == front[i] && front[i] in init;
        } else {
          assert r[i] == front[i] && r[j] == front[j];
          assert front[i] != front[j];
        }
      }
    }
  }

  /** Filtering by a test that implies an earlier one: the earlier filter is redundant. */
  lemma {:induction false} FilterOfFilter<T>(xs: seq<T>, p: T -> bool, q: T -> bool)
    requires forall i :: 0 <= i < |xs| && q(xs[i]) ==> p(xs[i])
    ensures Filter(Filter(xs, p), q) == Filter(xs, q)
    decreases |xs|
  {
    if |xs| > 0 {
      var init := xs[..|xs| - 1];
      var last := xs[|xs| - 1];
      FilterOfFilter(init, p, q);
      FilterAppend(Filter(init, p), if p(last) then [last] else [], q);
      assert Filter([last], q) == (if q(last) then [last] else []) by {
        assert [last][..0] == [];
      }
      assert Filter([], q) == [];
    }
  }

  lemma AppendAssociates<T>(a: seq<T>, b: seq<T>, c: seq<T>)
    ensures a + b + c == a + (b + c)
  {
  }
}
