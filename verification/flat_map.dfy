/**
 * `Array.prototype.flatMap` for a callback that returns arrays: each element's
 * array, concatenated in order.
 */
module FlatMaps {

  /** The result is empty exactly when every element's callback returns an empty array. */
  function FlatMap<T, U>(f: T -> seq<U>, xs: seq<T>): (r: seq<U>)
    ensures r == [] <==> forall i :: 0 <= i < |xs| ==> f(xs[i]) == []
    decreases |xs|
  {
    if xs == [] then [] else f(xs[0]) + FlatMap(f, xs[1..])
  }

  /** A callback that emits at most one element per item. */
  ghost predicate AtMostOne<T(!new), U>(f: T -> seq<U>) {
    forall x :: |f(x)| <= 1
  }

  /** With an at-most-one callback, the result is no longer than the input. */
  lemma {:induction false} FlatMapLength<T(!new), U>(f: T -> seq<U>, xs: seq<T>)
    requires AtMostOne(f)
    ensures |FlatMap(f, xs)| <= |xs|
    decreases |xs|
  {
    if xs != [] {
      FlatMapLength(f, xs[1..]);
    }
  }

  /** With an at-most-one callback, `y` is in the result exactly when some element's callback emits `[y]`. */
  lemma {:induction false} FlatMapMembers<T(!new), U>(f: T -> seq<U>, xs: seq<T>, y: U)
    requires AtMostOne(f)
    ensures y in FlatMap(f, xs) <==> exists i :: 0 <= i < |xs| && f(xs[i]) == [y]
    decreases |xs|
  {
    if xs != [] {
      FlatMapMembers(f, xs[1..], y);
      forall i | 1 <= i < |xs| && f(xs[i]) == [y]
        ensures exists j :: 0 <= j < |xs[1..]| && f(xs[1..][j]) == [y]
      {
        assert f(xs[1..][i - 1]) == [y];
      }
      forall j | 0 <= j < |xs[1..]| && f(xs[1..][j]) == [y]
        ensures exists i :: 0 <= i < |xs| && f(xs[i]) == [y]
      {
        assert f(xs[j + 1]) == [y];
      }
      assert |f(xs[0])| <= 1;
      if f(xs[0]) != [] {
        assert f(xs[0]) == [f(xs[0])[0]];
      }
    }
  }

  /**
   * `idx` gives, for each element of `ys`, the position in `xs` of the item
   * that emitted it; the positions strictly increase.
   */
  ghost predicate Origins<T, U>(f: T -> seq<U>, xs: seq<T>, ys: seq<U>, idx: seq<nat>) {
    && |idx| == |ys|
    && (forall k :: 0 <= k < |idx| ==> idx[k] < |xs| && f(xs[idx[k]]) == [ys[k]])
    && (forall k, l :: 0 <= k < l < |idx| ==> idx[k] < idx[l])
  }

  /** Every position whose callback emits something is among `idx`. */
  ghost predicate Covers<T, U>(f: T -> seq<U>, xs: seq<T>, idx: seq<nat>) {
    forall i :: 0 <= i < |xs| && f(xs[i]) != [] ==> i in idx
  }

  /** Origins within the tail `xs[1..]` are origins within `xs`, one position later. */
  lemma ShiftOrigins<T, U>(f: T -> seq<U>, xs: seq<T>, ys: seq<U>, idx: seq<nat>) returns (shifted: seq<nat>)
    requires xs != [] && Origins(f, xs[1..], ys, idx)
    ensures Origins(f, xs, ys, shifted)
    ensures |shifted| == |idx| && forall k :: 0 <= k < |idx| ==> shifted[k] == idx[k] + 1
  {
    shifted := seq(|idx|, k requires 0 <= k < |idx| => idx[k] + 1);
    forall k | 0 <= k < |shifted| ensures shifted[k] < |xs| && f(xs[shifted[k]]) == [ys[k]] {
      assert xs[shifted[k]] == xs[1..][idx[k]];
    }
  }

  /** Coverage of the tail `xs[1..]` carries over, one position later, to every position but 0. */
  lemma ShiftCovers<T, U>(f: T -> seq<U>, xs: seq<T>, idx: seq<nat>, shifted: seq<nat>, first: seq<nat>)
    requires xs != [] && Covers(f, xs[1..], idx)
    requires |shifted| == |idx| && forall k :: 0 <= k < |idx| ==> shifted[k] == idx[k] + 1
    requires f(xs[0]) == [] || 0 in first
    ensures Covers(f, xs, first + shifted)
  {
    forall i | 0 <= i < |xs| && f(xs[i]) != [] ensures i in first + shifted {
      if i > 0 {
        assert f(xs[1..][i - 1]) != [];
        var k :| 0 <= k < |idx| && idx[k] == i - 1;
        assert (first + shifted)[|first| + k] == i;
      }
    }
  }

  /** Putting position 0 in front of later origins accounts for one more leading element. */
  lemma ConsOrigins<T, U>(f: T -> seq<U>, xs: seq<T>, y: U, ys: seq<U>, idx: seq<nat>)
    requires xs != [] && f(xs[0]) == [y] && Origins(f, xs, ys, idx)
    requires forall k :: 0 <= k < |idx| ==> idx[k] > 0
    ensures Origins(f, xs, [y] + ys, [0] + idx)
  {
    var idx', ys' := [0] + idx, [y] + ys;
    forall k | 1 <= k < |idx'| ensures idx'[k] < |xs| && f(xs[idx'[k]]) == [ys'[k]] {
      assert idx'[k] == idx[k - 1] && ys'[k] == ys[k - 1];
    }
  }

  /**
   * With an at-most-one callback, the result's elements come from strictly
   * increasing input positions, each the one element its item emitted, and
   * every position whose callback emits an element is among them: the result
   * is exactly the emitted elements, in input order, none dropped or merged.
   */
  lemma {:induction false} FlatMapOrder<T(!new), U>(f: T -> seq<U>, xs: seq<T>) returns (idx: seq<nat>)
    requires AtMostOne(f)
    ensures Origins(f, xs, FlatMap(f, xs), idx)
    ensures Covers(f, xs, idx)
    decreases |xs|
  {
    if xs == [] {
      idx := [];
    } else {
      var rest := FlatMapOrder(f, xs[1..]);
      idx := OrderStep(f, xs, FlatMap(f, xs[1..]), rest);
    }
  }

  /** One step of `FlatMapOrder`: origins and coverage of the tail extend to the whole input. */
  lemma OrderStep<T, U>(f: T -> seq<U>, xs: seq<T>, ys: seq<U>, rest: seq<nat>) returns (idx: seq<nat>)
    requires xs != [] && |f(xs[0])| <= 1
    requires Origins(f, xs[1..], ys, rest) && Covers(f, xs[1..], rest)
    ensures Origins(f, xs, f(xs[0]) + ys, idx) && Covers(f, xs, idx)
  {
    var shifted := ShiftOrigins(f, xs, ys, rest);
    var head := f(xs[0]);
    if head == [] {
      ShiftCovers(f, xs, rest, shifted, []);
      assert [] + shifted == shifted && head + ys == ys;
      idx := shifted;
    } else {
      assert head == [head[0]];
      ConsOrigins(f, xs, head[0], ys, shifted);
      ShiftCovers(f, xs, rest, shifted, [0]);
      idx := [0] + shifted;
    }
  }

  /** The positions listed by a strictly increasing sequence are as many as its length. */
  lemma {:induction false} IncreasingCard(idx: seq<nat>)
    requires forall k, l :: 0 <= k < l < |idx| ==> idx[k] < idx[l]
    ensures |set k | 0 <= k < |idx| :: idx[k]| == |idx|
    decreases |idx|
  {
    if idx != [] {
      var t := idx[1..];
      IncreasingCard(t);
      var all := set k | 0 <= k < |idx| :: idx[k];
      var rest := set k | 0 <= k < |t| :: t[k];
      assert all == {idx[0]} + rest by {
        forall v | v in all ensures v in {idx[0]} + rest {
          var k :| 0 <= k < |idx| && idx[k] == v;
          if k > 0 {
            assert t[k - 1] == v;
          }
        }
      }
      assert idx[0] !in rest;
    }
  }

  /** The positions of `xs` whose callback emits something. */
  ghost function Emitting<T, U>(f: T -> seq<U>, xs: seq<T>): set<nat> {
    set i: nat | i < |xs| && f(xs[i]) != []
  }

  /** With an at-most-one callback, the result has one element per emitting position. */
  lemma FlatMapCount<T(!new), U>(f: T -> seq<U>, xs: seq<T>)
    requires AtMostOne(f)
    ensures |FlatMap(f, xs)| == |Emitting(f, xs)|
  {
    var idx := FlatMapOrder(f, xs);
    IncreasingCard(idx);
    assert (set k | 0 <= k < |idx| :: idx[k]) == Emitting(f, xs);
  }
}
