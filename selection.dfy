/**
 * Order-keeping selection of the elements of a sequence that satisfy a
 * condition: the shape of pandas' row filtering (dropna) and of taking one
 * group's rows out of a frame (groupby), both of which keep file order.
 */
module Selection {

  /** The elements of xs that satisfy keep, in their original order. */
  function Filter<T>(xs: seq<T>, keep: T -> bool): (r: seq<T>)
    ensures |r| <= |xs|
    ensures forall k :: 0 <= k < |r| ==> keep(r[k]) && r[k] in xs
    decreases |xs|
  {
    if |xs| == 0 then []
    else
      var rest := Filter(xs[..|xs| - 1], keep);
      if keep(xs[|xs| - 1]) then rest + [xs[|xs| - 1]] else rest
  }

  /** The rows selected from a prefix are a prefix of the rows selected from the whole. */
  lemma {:induction false} FilterPrefix<T>(xs: seq<T>, keep: T -> bool, i: nat)
    requires i <= |xs|
    ensures Filter(xs[..i], keep) <= Filter(xs, keep)
    decreases |xs|
  {
    if i < |xs| {
      var init := xs[..|xs| - 1];
      assert init[..i] == xs[..i];
      FilterPrefix(init, keep, i);
    } else {
      assert xs[..i] == xs;
    }
  }

  /**
   * A kept element xs[i] is in the selection, at the position given by the
   * number of kept elements before it (its rank).
   */
  lemma FilterRank<T>(xs: seq<T>, keep: T -> bool, i: nat)
    requires i < |xs| && keep(xs[i])
    ensures Rank(xs, keep, i) < |Filter(xs, keep)|
    ensures Filter(xs, keep)[Rank(xs, keep, i)] == xs[i]
  {
    var upto := xs[..i + 1];
    assert upto[..|upto| - 1] == xs[..i];
    assert Filter(upto, keep) == Filter(xs[..i], keep) + [xs[i]];
    FilterPrefix(xs, keep, i + 1);
  }

  /** Ranks of kept elements grow strictly with their positions: selection keeps order. */
  lemma FilterRankIncreasing<T>(xs: seq<T>, keep: T -> bool, i: nat, j: nat)
    requires i < j <= |xs| && keep(xs[i])
    ensures Rank(xs, keep, i) < Rank(xs, keep, j)
  {
    var upto := xs[..j];
    assert upto[..i] == xs[..i];
    FilterRank(upto, keep, i);
  }

  /** Selecting from a concatenation selects from each part. */
  lemma {:induction false} FilterConcat<T>(a: seq<T>, b: seq<T>, keep: T -> bool)
    ensures Filter(a + b, keep) == Filter(a, keep) + Filter(b, keep)
    decreases |b|
  {
    if |b| == 0 {
      assert a + b == a;
    } else {
      var ab := a + b;
      assert ab[..|ab| - 1] == a + b[..|b| - 1];
      assert ab[|ab| - 1] == b[|b| - 1];
      FilterConcat(a, b[..|b| - 1], keep);
    }
  }

  /** Nothing is selected when no element qualifies; everything when all do. */
  lemma {:induction false} FilterNoneOrAll<T>(xs: seq<T>, keep: T -> bool)
    ensures (forall k :: 0 <= k < |xs| ==> !keep(xs[k])) ==> Filter(xs, keep) == []
    ensures (forall k :: 0 <= k < |xs| ==> keep(xs[k])) ==> Filter(xs, keep) == xs
    decreases |xs|
  {
    if |xs| > 0 {
      FilterNoneOrAll(xs[..|xs| - 1], keep);
      assert xs[..|xs| - 1] + [xs[|xs| - 1]] == xs;
    }
  }

  /** Selection from a non-empty sequence, taken apart at its last element. */
  lemma FilterLast<T>(xs: seq<T>, keep: T -> bool)
    requires |xs| > 0
    ensures Filter(xs, keep) ==
            if keep(xs[|xs| - 1]) then Filter(xs[..|xs| - 1], keep) + [xs[|xs| - 1]]
            else Filter(xs[..|xs| - 1], keep)
  {
  }

  /** A non-empty sequence is its prefix followed by its last element. */
  lemma SplitLast<T>(h: seq<T>)
    requires |h| > 0
    ensures h == h[..|h| - 1] + [h[|h| - 1]]
  {
  }

  /** Every position of the selection comes from a kept element of xs of that rank. */
  lemma {:induction false} FilterOrigin<T>(xs: seq<T>, keep: T -> bool, p: nat) returns (n: nat)
    requires p < |Filter(xs, keep)|
    ensures n < |xs| && keep(xs[n]) && Rank(xs, keep, n) == p
    decreases |xs|
  {
    var init := xs[..|xs| - 1];
    FilterLast(xs, keep);
    if p < |Filter(init, keep)| {
      n := FilterOrigin(init, keep, p);
      assert init[..n] == xs[..n];
    } else {
      n := |xs| - 1;
      assert xs[..n] == init;
    }
  }

  /** The first element of the selection sits at or before any kept position. */
  lemma FilterFirstOrigin<T>(xs: seq<T>, keep: T -> bool, i: nat) returns (a: nat)
    requires i < |xs| && keep(xs[i])
    ensures |Filter(xs, keep)| > 0 && a <= i && xs[a] == Filter(xs, keep)[0]
  {
    FilterRank(xs, keep, i);
    a := FilterOrigin(xs, keep, 0);
    FilterRank(xs, keep, a);
    if i < a {
      FilterRankIncreasing(xs, keep, i, a);
      assert false;
    }
  }

  /** The last element of the selection sits at or after any kept position. */
  lemma FilterLastOrigin<T>(xs: seq<T>, keep: T -> bool, i: nat) returns (e: nat)
    requires i < |xs| && keep(xs[i])
    ensures |Filter(xs, keep)| > 0 && i <= e < |xs| && xs[e] == Filter(xs, keep)[|Filter(xs, keep)| - 1]
  {
    FilterRank(xs, keep, i);
    e := FilterOrigin(xs, keep, |Filter(xs, keep)| - 1);
    FilterRank(xs, keep, e);
    if e < i {
      FilterRankIncreasing(xs, keep, e, i);
      assert false;
    }
  }

  /** The number of elements of xs before position i that satisfy keep. */
  function Rank<T>(xs: seq<T>, keep: T -> bool, i: nat): (n: nat)
    requires i <= |xs|
  {
    |Filter(xs[..i], keep)|
  }

  /** ys is h written back at the ranks of the kept positions of xs. */
  ghost predicate RankedAs<T>(xs: seq<T>, ys: seq<T>, keep: T -> bool, h: seq<T>)
  {
    && |xs| == |ys|
    && (forall i :: 0 <= i < |xs| ==> keep(ys[i]) == keep(xs[i]))
    && |h| == |Filter(xs, keep)|
    && (forall i :: 0 <= i < |xs| && keep(xs[i]) ==> Rank(xs, keep, i) < |h| && ys[i] == h[Rank(xs, keep, i)])
  }

  /** Dropping the last position keeps the write-back relation on the prefixes. */
  lemma RankedAsInit<T>(xs: seq<T>, ys: seq<T>, keep: T -> bool, h: seq<T>)
    requires RankedAs(xs, ys, keep, h) && |xs| > 0
    ensures |Filter(xs[..|xs| - 1], keep)| <= |h|
    ensures RankedAs(xs[..|xs| - 1], ys[..|ys| - 1], keep, h[..|Filter(xs[..|xs| - 1], keep)|])
  {
    var n := |xs|;
    var xs', ys' := xs[..n - 1], ys[..n - 1];
    var h' := h[..|Filter(xs', keep)|];
    forall i | 0 <= i < |xs'| && keep(xs'[i])
      ensures Rank(xs', keep, i) < |h'| && ys'[i] == h'[Rank(xs', keep, i)]
    {
      assert xs'[..i] == xs[..i];
      FilterRank(xs', keep, i);
    }
  }

  /**
   * If ys agrees with xs on which positions are kept, and every kept ys[i]
   * is h at the rank of xs[i], then selecting from ys yields exactly h.
   * This is how a per-group result, written back at each row's rank, is read
   * out again group by group.
   */
  lemma {:induction false} FilterRanked<T>(xs: seq<T>, ys: seq<T>, keep: T -> bool, h: seq<T>)
    requires RankedAs(xs, ys, keep, h)
    ensures Filter(ys, keep) == h
    decreases |xs|
  {
    if |xs| > 0 {
      var n := |xs|;
      var xs', ys' := xs[..n - 1], ys[..n - 1];
      var m := |Filter(xs', keep)|;
      RankedAsInit(xs, ys, keep, h);
      var h' := h[..m];
      FilterRanked(xs', ys', keep, h');
      assert keep(xs[n - 1]) ==> Rank(xs, keep, n - 1) < |h| && ys[n - 1] == h[Rank(xs, keep, n - 1)];
      FilterRankedLast(xs, ys, keep, h);
    }
  }

  /** The inductive step of FilterRanked: the last position is kept in both or in neither. */
  lemma FilterRankedLast<T>(xs: seq<T>, ys: seq<T>, keep: T -> bool, h: seq<T>)
    requires |xs| == |ys| > 0 && keep(ys[|ys| - 1]) == keep(xs[|xs| - 1])
    requires |h| == |Filter(xs, keep)| && |Filter(xs[..|xs| - 1], keep)| <= |h|
    requires keep(xs[|xs| - 1]) ==> |Filter(xs[..|xs| - 1], keep)| < |h| && ys[|ys| - 1] == h[|Filter(xs[..|xs| - 1], keep)|]
    requires Filter(ys[..|ys| - 1], keep) == h[..|Filter(xs[..|xs| - 1], keep)|]
    ensures Filter(ys, keep) == h
  {
    var m := |Filter(xs[..|xs| - 1], keep)|;
    FilterLast(xs, keep);
    FilterLast(ys, keep);
    if keep(xs[|xs| - 1]) {
      SplitLast(h);
    } else {
      assert h[..m] == h;
    }
  }
}
