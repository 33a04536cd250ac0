/** The parts of JavaScript's `Array.prototype` that the catalogue logic uses:
    `filter`, `some` and `find`, over immutable sequences. */
module ArrayOps {

  /** A value or nothing: `find`'s `undefined` and a `Game | null` slot. */
  datatype Option<T> = None | Some(value: T)

  /** `idx` lists, in strictly increasing order, positions of `xs` whose
      elements, read in that order, are exactly `r`: `r` is an
      order-preserving subsequence of `xs`. */
  ghost predicate Embeds<T>(r: seq<T>, xs: seq<T>, idx: seq<nat>)
  {
    && |idx| == |r|
    && (forall k :: 0 <= k < |idx| ==> idx[k] < |xs| && r[k] == xs[idx[k]])
    && (forall k, l :: 0 <= k < l < |idx| ==> idx[k] < idx[l])
  }

  /** No element occurs twice. */
  predicate Distinct<T(==)>(xs: seq<T>)
  {
    forall i, j :: 0 <= i < j < |xs| ==> xs[i] != xs[j]
  }

  /** `xs.filter(keep)`: the elements for which `keep` holds. */
  function Filter<T>(xs: seq<T>, keep: T -> bool): (r: seq<T>)
    ensures |r| <= |xs|
    ensures forall k :: 0 <= k < |r| ==> r[k] in xs && keep(r[k])
    ensures forall i :: 0 <= i < |xs| && keep(xs[i]) ==> xs[i] in r
  {
    if xs == [] then []
    else
      var rest := Filter(xs[1..], keep);
      assert xs == [xs[0]] + xs[1..];
      if keep(xs[0]) then [xs[0]] + rest else rest
  }

  /** Every position moved one place to the right. */
  function Shifted(idx: seq<nat>): (r: seq<nat>)
    ensures |r| == |idx|
    ensures forall k :: 0 <= k < |idx| ==> r[k] == idx[k] + 1
  {
    seq(|idx|, k requires 0 <= k < |idx| => idx[k] + 1)
  }

  /** An embedding into the tail of `xs` is one into `xs` once shifted, and
      the head of `xs` can be put in front of it. */
  lemma ShiftEmbeds<T>(r: seq<T>, xs: seq<T>, idx: seq<nat>)
    requires xs != [] && Embeds(r, xs[1..], idx)
    ensures Embeds(r, xs, Shifted(idx))
    ensures Embeds([xs[0]] + r, xs, [0] + Shifted(idx))
  {
  }

  /** `filter` keeps exactly the passing positions, in their original order. */
  lemma {:induction false} FilterKeepsOrder<T>(xs: seq<T>, keep: T -> bool) returns (idx: seq<nat>)
    ensures Embeds(Filter(xs, keep), xs, idx)
    ensures forall i :: 0 <= i < |xs| && keep(xs[i]) ==> i in idx
  {
    if xs == [] {
      idx := [];
    } else {
      var rest := Filter(xs[1..], keep);
      var tail := FilterKeepsOrder(xs[1..], keep);
      ShiftEmbeds(rest, xs, tail);
      var shifted := Shifted(tail);
      idx := if keep(xs[0]) then [0] + shifted else shifted;
      assert Filter(xs, keep) == if keep(xs[0]) then [xs[0]] + rest else rest;
      forall i | 0 <= i < |xs| && keep(xs[i]) ensures i in idx {
        if i > 0 {
          ShiftedHas(xs, keep, tail, i);
        }
      }
    }
  }

  /** Helper for FilterKeepsOrder: a passing position of the tail, shifted. */
  lemma ShiftedHas<T>(xs: seq<T>, keep: T -> bool, tail: seq<nat>, i: nat)
    requires 0 < i < |xs| && keep(xs[i])
    requires forall j :: 0 <= j < |xs[1..]| && keep(xs[1..][j]) ==> j in tail
    ensures i in Shifted(tail)
  {
    assert xs[1..][i - 1] == xs[i];
    var k :| 0 <= k < |tail| && tail[k] == i - 1;
    assert Shifted(tail)[k] == i;
  }

  /** Each value appears in the filtered sequence exactly as often as in the
      input when it passes, and not at all otherwise: nothing is duplicated. */
  lemma {:induction false} FilterCount<T>(xs: seq<T>, keep: T -> bool, x: T)
    ensures multiset(Filter(xs, keep))[x] == if keep(x) then multiset(xs)[x] else 0
  {
    if xs != [] {
      FilterCount(xs[1..], keep, x);
      assert xs == [xs[0]] + xs[1..];
      assert multiset(xs) == multiset([xs[0]]) + multiset(xs[1..]);
      if keep(xs[0]) {
        assert multiset(Filter(xs, keep)) == multiset([xs[0]]) + multiset(Filter(xs[1..], keep));
      }
    }
  }

  /** A filter that every element passes returns its input unchanged. */
  lemma {:induction false} FilterAllPass<T>(xs: seq<T>, keep: T -> bool)
    requires forall i :: 0 <= i < |xs| ==> keep(xs[i])
    ensures Filter(xs, keep) == xs
  {
    if xs != [] {
      FilterAllPass(xs[1..], keep);
      assert xs == [xs[0]] + xs[1..];
    }
  }

  /** A filter that no element passes returns the empty sequence. */
  lemma {:induction false} FilterNonePass<T>(xs: seq<T>, keep: T -> bool)
    requires forall i :: 0 <= i < |xs| ==> !keep(xs[i])
    ensures Filter(xs, keep) == []
  {
    if xs != [] {
      FilterNonePass(xs[1..], keep);
    }
  }

  /** Two tests that agree on every element select the same subsequence. */
  lemma {:induction false} FilterAgree<T>(xs: seq<T>, keep1: T -> bool, keep2: T -> bool)
    requires forall i :: 0 <= i < |xs| ==> keep1(xs[i]) == keep2(xs[i])
    ensures Filter(xs, keep1) == Filter(xs, keep2)
  {
    if xs != [] {
      FilterAgree(xs[1..], keep1, keep2);
    }
  }

  /** Filtering a concatenation filters each part. */
  lemma {:induction false} FilterAppend<T>(xs: seq<T>, ys: seq<T>, keep: T -> bool)
    ensures Filter(xs + ys, keep) == Filter(xs, keep) + Filter(ys, keep)
  {
    if xs == [] {
      assert xs + ys == ys;
    } else {
      var zs := xs + ys;
      assert zs[0] == xs[0] && zs[1..] == xs[1..] + ys;
      FilterAppend(xs[1..], ys, keep);
      FilterHead(zs, keep);
      FilterHead(xs, keep);
      var h := if keep(xs[0]) then [xs[0]] else [];
      assert (h + Filter(xs[1..], keep)) + Filter(ys, keep) == h + (Filter(xs[1..], keep) + Filter(ys, keep));
    }
  }

  /** One step of `filter`: the head, if it passes, then the filtered tail. */
  lemma FilterHead<T>(xs: seq<T>, keep: T -> bool)
    requires xs != []
    ensures Filter(xs, keep) == (if keep(xs[0]) then [xs[0]] else []) + Filter(xs[1..], keep)
  {
  }

  /** Filtering twice with the same test changes nothing more. */
  lemma FilterIdempotent<T>(xs: seq<T>, keep: T -> bool)
    ensures Filter(Filter(xs, keep), keep) == Filter(xs, keep)
  {
    var r := Filter(xs, keep);
    FilterAllPass(r, keep);
  }

  /** A filter of a sequence without repetitions has none either. */
  lemma FilterKeepsDistinct<T>(xs: seq<T>, keep: T -> bool)
    requires Distinct(xs)
    ensures Distinct(Filter(xs, keep))
  {
    var idx := FilterKeepsOrder(xs, keep);
  }

  /** `xs.some(test)`. */
  function AnyOf<T>(xs: seq<T>, test: T -> bool): (b: bool)
    ensures b <==> exists i :: 0 <= i < |xs| && test(xs[i])
  {
    if xs == [] then false
    else if test(xs[0]) then true
    else
      var b := AnyOf(xs[1..], test);
      assert forall i :: 1 <= i < |xs| ==> xs[i] == xs[1..][i - 1];
      b
  }

  /** `xs.find(test)`: the first element that passes, or `None` when none does. */
  function Find<T>(xs: seq<T>, test: T -> bool): (r: Option<T>)
    ensures r.None? <==> forall i :: 0 <= i < |xs| ==> !test(xs[i])
    ensures r.Some? ==> exists i :: 0 <= i < |xs| && xs[i] == r.value && test(xs[i])
                                     && forall j :: 0 <= j < i ==> !test(xs[j])
  {
    if xs == [] then None
    else if test(xs[0]) then Some(xs[0])
    else
      var r := Find(xs[1..], test);
      assert forall i :: 1 <= i < |xs| ==> xs[i] == xs[1..][i - 1];
      r
  }
}
