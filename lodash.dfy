/**
 * The two array operations the core applies to variable and environment
 * lists, on sequences: lodash's `_.differenceWith`, and the built-in
 * `Array.prototype.filter`, which is not a lodash function but sits here
 * beside it as the other list operation.
 */
module Lodash {

  /** Some element of `ys` is equal to `x` under the comparator `eq`, called as `eq(x, y)`. */
  predicate HasMatch<A, B>(x: A, ys: seq<B>, eq: (A, B) -> bool)
  {
    exists i :: 0 <= i < |ys| && eq(x, ys[i])
  }

  /**
   * `_.differenceWith(xs, ys, eq)`: the elements of `xs` that no element of
   * `ys` matches, in their order in `xs`, duplicates kept.
   */
  function DifferenceWith<A(==,!new), B>(xs: seq<A>, ys: seq<B>, eq: (A, B) -> bool): (r: seq<A>)
    ensures |r| <= |xs|
    ensures forall x :: x in r <==> x in xs && !HasMatch(x, ys, eq)
  {
    if |xs| == 0 then []
    else
      var rest := DifferenceWith(xs[1..], ys, eq);
      assert forall x :: x in xs <==> x == xs[0] || x in xs[1..];
      if HasMatch(xs[0], ys, eq) then rest else [xs[0]] + rest
  }

  /** `differenceWith` keeps order: it distributes over concatenation of its first argument. */
  lemma {:induction false} DifferenceWithAppend<A(!new), B>(xs: seq<A>, zs: seq<A>, ys: seq<B>, eq: (A, B) -> bool)
    ensures DifferenceWith(xs + zs, ys, eq) == DifferenceWith(xs, ys, eq) + DifferenceWith(zs, ys, eq)
  {
    if |xs| > 0 {
      assert (xs + zs)[1..] == xs[1..] + zs;
      DifferenceWithAppend(xs[1..], zs, ys, eq);
    } else {
      assert xs + zs == zs;
    }
  }

  /** On one element, `differenceWith` keeps it exactly when nothing matches it. */
  lemma DifferenceWithSingle<A(!new), B>(x: A, ys: seq<B>, eq: (A, B) -> bool)
    ensures DifferenceWith([x], ys, eq) == if HasMatch(x, ys, eq) then [] else [x]
  {
    assert [x][1..] == [];
  }

  /** `xs.filter(p)`: the elements satisfying `p`, in order. */
  function Filter<A(==,!new)>(xs: seq<A>, p: A -> bool): (r: seq<A>)
    ensures |r| <= |xs|
    ensures forall x :: x in r <==> x in xs && p(x)
  {
    if |xs| == 0 then []
    else
      var rest := Filter(xs[1..], p);
      assert forall x :: x in xs <==> x == xs[0] || x in xs[1..];
      if p(xs[0]) then [xs[0]] + rest else rest
  }

  /** The first element `filter` returns is the first element of `xs` that satisfies `p`. */
  lemma {:induction false} FilterHead<A(!new)>(xs: seq<A>, p: A -> bool)
    requires |Filter(xs, p)| > 0
    ensures exists k :: 0 <= k < |xs| && xs[k] == Filter(xs, p)[0] && p(xs[k]) &&
                        forall j :: 0 <= j < k ==> !p(xs[j])
  {
    if !p(xs[0]) {
      FilterHead(xs[1..], p);
      var k :| 0 <= k < |xs[1..]| && xs[1..][k] == Filter(xs[1..], p)[0] && p(xs[1..][k]) &&
               forall j :: 0 <= j < k ==> !p(xs[1..][j]);
      assert xs[k + 1] == Filter(xs, p)[0];
      forall j | 0 <= j < k + 1
        ensures !p(xs[j])
      {
        if j > 0 {
          assert xs[j] == xs[1..][j - 1];
        }
      }
    }
  }

  /** `filter` returns nothing exactly when no element satisfies `p`. */
  lemma FilterEmpty<A(!new)>(xs: seq<A>, p: A -> bool)
    ensures |Filter(xs, p)| == 0 <==> forall k :: 0 <= k < |xs| ==> !p(xs[k])
  {
    if |Filter(xs, p)| > 0 {
      FilterHead(xs, p);
    } else {
      forall k | 0 <= k < |xs|
        ensures !p(xs[k])
      {
        assert xs[k] in xs;
      }
    }
  }
}
