/** `Array.prototype.filter` with a predicate on the elements, which the CSV
    reader uses to drop blank lines, and the facts about it that the reader's
    properties rest on. */
module Filtering {

  /** `xs.filter(p)`: the elements satisfying `p`, in their original order. */
  function Filter<T>(xs: seq<T>, p: T -> bool): seq<T>
  {
    if xs == [] then []
    else (if p(xs[0]) then [xs[0]] else []) + Filter(xs[1..], p)
  }

  /** Every position moved one place on. */
  function Shift(idx: seq<nat>): (r: seq<nat>)
    ensures |r| == |idx|
    ensures forall k :: 0 <= k < |idx| ==> r[k] == idx[k] + 1
  {
    seq(|idx|, k requires 0 <= k < |idx| => idx[k] + 1)
  }

  /** The positions of the elements that `Filter` keeps. */
  function KeptIndices<T>(xs: seq<T>, p: T -> bool): seq<nat>
  {
    if xs == [] then []
    else (if p(xs[0]) then [0] else []) + Shift(KeptIndices(xs[1..], p))
  }

  /** `xs[idx[0]], xs[idx[1]], ...` is `kept`, the indices go up strictly,
      and a position is chosen exactly when its element satisfies `p`. */
  ghost predicate Selects<T>(xs: seq<T>, p: T -> bool, kept: seq<T>, idx: seq<nat>)
  {
    && |idx| == |kept|
    && (forall k :: 0 <= k < |idx| ==> idx[k] < |xs| && kept[k] == xs[idx[k]])
    && (forall k, l :: 0 <= k < l < |idx| ==> idx[k] < idx[l])
    && (forall j :: 0 <= j < |xs| ==> (j in idx <==> p(xs[j])))
  }

  lemma ShiftMembers(idx: seq<nat>, j: nat)
    ensures j in Shift(idx) <==> j >= 1 && j - 1 in idx
  {
    if j in Shift(idx) {
      var k :| 0 <= k < |idx| && Shift(idx)[k] == j;
      assert idx[k] == j - 1;
    }
    if j >= 1 && j - 1 in idx {
      var k :| 0 <= k < |idx| && idx[k] == j - 1;
      assert Shift(idx)[k] == j;
    }
  }

  lemma {:induction false} KeptIndicesPick<T>(xs: seq<T>, p: T -> bool)
    ensures |KeptIndices(xs, p)| == |Filter(xs, p)|
    ensures forall k :: 0 <= k < |KeptIndices(xs, p)| ==>
              KeptIndices(xs, p)[k] < |xs| && Filter(xs, p)[k] == xs[KeptIndices(xs, p)[k]]
  {
    if xs != [] {
      var tail := xs[1..];
      var rest := KeptIndices(tail, p);
      var n := if p(xs[0]) then 1 else 0;
      KeptIndicesPick(tail, p);
      var idx := KeptIndices(xs, p);
      var kept := Filter(xs, p);
      forall k | n <= k < |idx|
        ensures idx[k] < |xs| && kept[k] == xs[idx[k]]
      {
        assert idx[k] == rest[k - n] + 1;
        assert kept[k] == Filter(tail, p)[k - n];
      }
    }
  }

  lemma {:induction false} KeptIndicesIncrease<T>(xs: seq<T>, p: T -> bool)
    ensures forall k, l :: 0 <= k < l < |KeptIndices(xs, p)| ==> KeptIndices(xs, p)[k] < KeptIndices(xs, p)[l]
  {
    if xs != [] {
      KeptIndicesIncrease(xs[1..], p);
      var rest := KeptIndices(xs[1..], p);
      var n := if p(xs[0]) then 1 else 0;
      var idx := KeptIndices(xs, p);
      forall k, l | 0 <= k < l < |idx|
        ensures idx[k] < idx[l]
      {
        assert idx[l] == rest[l - n] + 1;
        if k >= n {
          assert idx[k] == rest[k - n] + 1;
        }
      }
    }
  }

  lemma {:induction false} KeptIndicesMembers<T>(xs: seq<T>, p: T -> bool)
    ensures forall j :: 0 <= j < |xs| ==> (j in KeptIndices(xs, p) <==> p(xs[j]))
  {
    if xs != [] {
      var tail := xs[1..];
      var rest := KeptIndices(tail, p);
      var head: seq<nat> := if p(xs[0]) then [0] else [];
      KeptIndicesMembers(tail, p);
      var idx := KeptIndices(xs, p);
      assert idx == head + Shift(rest);
      forall j | 0 <= j < |xs|
        ensures j in idx <==> p(xs[j])
      {
        ShiftMembers(rest, j);
        if j >= 1 {
          assert tail[j - 1] == xs[j];
        }
      }
    }
  }

  /** The filter keeps exactly the elements satisfying `p`, in order:
      `KeptIndices` picks out the positions it keeps, and every position it
      leaves out holds an element that fails `p`. */
  lemma FilterSelects<T>(xs: seq<T>, p: T -> bool)
    ensures Selects(xs, p, Filter(xs, p), KeptIndices(xs, p))
    ensures |Filter(xs, p)| <= |xs|
  {
    KeptIndicesPick(xs, p);
    KeptIndicesIncrease(xs, p);
    KeptIndicesMembers(xs, p);
    FilterSatisfies(xs, p);
  }

  /** Every element the filter keeps satisfies `p`, and there are no more of
      them than there were elements. */
  lemma {:induction false} FilterSatisfies<T>(xs: seq<T>, p: T -> bool)
    ensures |Filter(xs, p)| <= |xs|
    ensures forall k :: 0 <= k < |Filter(xs, p)| ==> p(Filter(xs, p)[k])
  {
    if xs != [] {
      FilterSatisfies(xs[1..], p);
    }
  }

  /** Filtering two blocks one after the other is filtering their
      concatenation. */
  lemma {:induction false} FilterConcat<T>(a: seq<T>, b: seq<T>, p: T -> bool)
    ensures Filter(a + b, p) == Filter(a, p) + Filter(b, p)
  {
    if a == [] {
      assert a + b == b;
    } else {
      var x, t := a[0], a[1..];
      assert a == [x] + t;
      assert a + b == [x] + (t + b);
      FilterCons(x, t + b, p);
      FilterCons(x, t, p);
      FilterConcat(t, b, p);
    }
  }

  lemma FilterCons<T>(x: T, t: seq<T>, p: T -> bool)
    ensures Filter([x] + t, p) == (if p(x) then [x] else []) + Filter(t, p)
  {
    assert ([x] + t)[1..] == t;
  }

  /** A single element survives exactly when it satisfies `p`. */
  lemma FilterSingle<T>(x: T, p: T -> bool)
    ensures Filter([x], p) == if p(x) then [x] else []
  {
    assert [x][1..] == [];
  }

  /** The filter changes nothing when every element satisfies `p`. */
  lemma {:induction false} FilterAll<T>(xs: seq<T>, p: T -> bool)
    requires forall k :: 0 <= k < |xs| ==> p(xs[k])
    ensures Filter(xs, p) == xs
  {
    if xs != [] {
      FilterAll(xs[1..], p);
      assert xs == [xs[0]] + xs[1..];
    }
  }
}
