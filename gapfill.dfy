/**
 * Gap filling of one numeric column, as pandas does it for
 * `interpolate(method="linear")`, `ffill()` and `bfill()`.
 *
 * Linear interpolation here ignores the index: cells are taken to be equally
 * spaced, so a gap is filled by position. With pandas' default forward
 * direction, cells before the first known value stay missing and cells after
 * the last known value take that last value.
 */
module GapFill {
  import opened Cells

  /** Position of the last known cell strictly before position i, if any. */
  function PrevKnown(s: seq<Cell>, i: nat): (r: Option<nat>)
    requires i <= |s|
    ensures r.None? <==> forall m :: 0 <= m < i ==> s[m].None?
    ensures r.Some? ==> r.value < i && s[r.value].Some? && forall m :: r.value < m < i ==> s[m].None?
    decreases i
  {
    if i == 0 then None
    else if s[i - 1].Some? then Some(i - 1)
    else PrevKnown(s, i - 1)
  }

  /** Position of the first known cell at or after position i, if any. */
  function NextKnown(s: seq<Cell>, i: nat): (r: Option<nat>)
    requires i <= |s|
    ensures r.None? <==> forall m :: i <= m < |s| ==> s[m].None?
    ensures r.Some? ==> i <= r.value < |s| && s[r.value].Some? && forall m :: i <= m < r.value ==> s[m].None?
    decreases |s| - i
  {
    if i == |s| then None
    else if s[i].Some? then Some(i)
    else NextKnown(s, i + 1)
  }

  /**
   * A missing cell between two present cells a and e lies in a gap: between
   * the nearest present cells on either side, with only missing cells in
   * between.
   */
  lemma NearestKnown(s: seq<Cell>, a: nat, i: nat, e: nat) returns (j: nat, k: nat)
    requires a <= i <= e < |s| && s[a].Some? && s[e].Some? && s[i].None?
    ensures a <= j < i < k <= e && s[j].Some? && s[k].Some?
    ensures forall m :: j < m < k ==> s[m].None?
  {
    var p := PrevKnown(s, i);
    var q := NextKnown(s, i + 1);
    j, k := p.value, q.value;
  }

  /** The point num/den of the way from a to b. */
  function Lerp(a: real, b: real, num: real, den: real): (x: real)
    requires 0.0 < den
  {
    a + (b - a) * num / den
  }

  /** x lies between a and b, whichever of the two is larger. */
  predicate Between(x: real, a: real, b: real)
  {
    (a <= x <= b) || (b <= x <= a)
  }

  /** A point strictly inside a segment lies between its ends. */
  lemma LerpBetween(a: real, b: real, num: real, den: real)
    requires 0.0 < num < den
    ensures Between(Lerp(a, b, num, den), a, b)
  {
    var d, n, e := b - a, num, den;
    var x := d * n / e;
    assert x * e == d * n;
    if d >= 0.0 {
      assert d * n <= d * e by { assert d * (e - n) >= 0.0; }
      assert 0.0 <= x <= d;
    } else {
      assert (-d) * (e - n) == d * n - d * e;
      assert d * e <= d * n by { assert (-d) * (e - n) >= 0.0; }
      assert (x - d) * e == d * n - d * e;
      assert x - d >= 0.0;
      assert x <= 0.0 by { assert (-d) * n >= 0.0; assert x * e <= 0.0; }
    }
  }

  /** The cell at position i after linear interpolation (forward direction). */
  function InterpolateAt(s: seq<Cell>, i: nat): (v: Cell)
    requires i < |s|
  {
    if s[i].Some? then s[i]
    else match PrevKnown(s, i)
      case None => None
      case Some(j) =>
        match NextKnown(s, i + 1)
        case None => s[j]
        case Some(k) => Some(Lerp(s[j].value, s[k].value, (i - j) as real, (k - j) as real))
  }

  /**
   * `Series.interpolate(method="linear")`: known cells stay, and a cell is
   * known afterwards exactly when some cell at or before it was known.
   */
  function Interpolated(s: seq<Cell>): (r: seq<Cell>)
    ensures |r| == |s|
    ensures forall i :: 0 <= i < |s| && s[i].Some? ==> r[i] == s[i]
    ensures forall i :: 0 <= i < |s| ==> (r[i].Some? <==> exists j :: 0 <= j <= i && s[j].Some?)
  {
    seq(|s|, i requires 0 <= i < |s| => InterpolateAt(s, i))
  }

  /** `Series.ffill()`: a missing cell takes the last known value before it. */
  function ForwardFilled(s: seq<Cell>): (r: seq<Cell>)
    ensures |r| == |s|
    ensures forall i :: 0 <= i < |s| && s[i].Some? ==> r[i] == s[i]
    ensures forall i :: 0 <= i < |s| ==> (r[i].Some? <==> exists j :: 0 <= j <= i && s[j].Some?)
  {
    seq(|s|, i requires 0 <= i < |s| =>
      if s[i].Some? then s[i]
      else match PrevKnown(s, i)
        case None => None
        case Some(j) => s[j])
  }

  /** `Series.bfill()`: a missing cell takes the first known value after it. */
  function BackwardFilled(s: seq<Cell>): (r: seq<Cell>)
    ensures |r| == |s|
    ensures forall i :: 0 <= i < |s| && s[i].Some? ==> r[i] == s[i]
    ensures forall i :: 0 <= i < |s| ==> (r[i].Some? <==> exists j :: i <= j < |s| && s[j].Some?)
  {
    seq(|s|, i requires 0 <= i < |s| =>
      if s[i].Some? then s[i]
      else match NextKnown(s, i)
        case None => None
        case Some(k) => s[k])
  }

  /** The last known cell at or before i is the one forward fill copies. */
  lemma ForwardFilledTakesLast(s: seq<Cell>, j: nat, i: nat)
    requires j <= i < |s| && s[j].Some?
    requires forall m :: j < m <= i ==> s[m].None?
    ensures ForwardFilled(s)[i] == s[j]
  {
    if j < i {
      assert PrevKnown(s, i) == Some(j);
    }
  }

  /** The first known cell at or after i is the one backward fill copies. */
  lemma BackwardFilledTakesNext(s: seq<Cell>, i: nat, k: nat)
    requires i <= k < |s| && s[k].Some?
    requires forall m :: i <= m < k ==> s[m].None?
    ensures BackwardFilled(s)[i] == s[k]
  {
    if i < k {
      assert NextKnown(s, i) == Some(k);
    }
  }

  /** A cell between known cells j and k, with only gaps between them, is interpolated from those two. */
  lemma InterpolateAtBracketed(s: seq<Cell>, j: nat, i: nat, k: nat)
    requires j < i < k < |s|
    requires s[j].Some? && s[k].Some?
    requires forall m :: j < m < k ==> s[m].None?
    ensures InterpolateAt(s, i) == Some(Lerp(s[j].value, s[k].value, (i - j) as real, (k - j) as real))
  {
    assert PrevKnown(s, i) == Some(j);
    assert NextKnown(s, i + 1) == Some(k);
  }

  /**
   * A gap between known cells j and k is filled by the straight line
   * between them, by position, and the result lies between the two values.
   */
  lemma InterpolatedBracketed(s: seq<Cell>, j: nat, i: nat, k: nat)
    requires j < i < k < |s|
    requires s[j].Some? && s[k].Some?
    requires forall m :: j < m < k ==> s[m].None?
    ensures Interpolated(s)[i] == Some(Lerp(s[j].value, s[k].value, (i - j) as real, (k - j) as real))
    ensures Between(Interpolated(s)[i].value, s[j].value, s[k].value)
  {
    InterpolateAtBracketed(s, j, i, k);
    var r := Interpolated(s);
    assert r[i] == InterpolateAt(s, i);
    LerpBetween(s[j].value, s[k].value, (i - j) as real, (k - j) as real);
  }

  /** Cells after the last known one take that last value. */
  lemma InterpolatedTrailing(s: seq<Cell>, j: nat, i: nat)
    requires j < i < |s| && s[j].Some?
    requires forall m :: j < m < |s| ==> s[m].None?
    ensures Interpolated(s)[i] == s[j]
  {
    assert PrevKnown(s, i) == Some(j);
    assert NextKnown(s, i + 1).None?;
  }

  /**
   * After interpolation no missing cell has a known cell before it, so the
   * forward fill that follows it in the gap repair changes nothing.
   */
  lemma ForwardFillIdleAfterInterpolate(s: seq<Cell>)
    ensures ForwardFilled(Interpolated(s)) == Interpolated(s)
  {
    var t := Interpolated(s);
    forall i | 0 <= i < |t|
      ensures ForwardFilled(t)[i] == t[i]
    {
      if t[i].None? {
        assert forall j :: 0 <= j <= i ==> s[j].None?;
        assert forall m :: 0 <= m < i ==> t[m].None?;
      }
    }
  }

  /** The per-user repair of one column: interpolate, then ffill, then bfill. */
  function Filled(s: seq<Cell>): (r: seq<Cell>)
    ensures |r| == |s|
    ensures forall i :: 0 <= i < |s| && s[i].Some? ==> r[i] == s[i]
    ensures (exists j :: 0 <= j < |s| && s[j].Some?) ==> forall i :: 0 <= i < |s| ==> r[i].Some?
    ensures (forall j :: 0 <= j < |s| ==> s[j].None?) ==> r == s
  {
    ForwardFillIdleAfterInterpolate(s);
    var t := Interpolated(s);
    assert (forall j :: 0 <= j < |s| ==> s[j].None?) ==> t == s;
    BackwardFilled(ForwardFilled(t))
  }

  /** Cells before the first known one take the first known value. */
  lemma FilledLeading(s: seq<Cell>, i: nat, k: nat)
    requires i < k < |s| && s[k].Some?
    requires forall m :: 0 <= m < k ==> s[m].None?
    ensures Filled(s)[i] == s[k]
  {
    ForwardFillIdleAfterInterpolate(s);
    var t := Interpolated(s);
    forall m | i <= m < k
      ensures t[m].None?
    {
      assert forall j :: 0 <= j <= m ==> s[j].None?;
    }
    assert t[k] == s[k];
    BackwardFilledTakesNext(t, i, k);
    assert Filled(s) == BackwardFilled(t);
  }

  /** Cells after the last known one take the last known value. */
  lemma FilledTrailing(s: seq<Cell>, j: nat, i: nat)
    requires j < i < |s| && s[j].Some?
    requires forall m :: j < m < |s| ==> s[m].None?
    ensures Filled(s)[i] == s[j]
  {
    ForwardFillIdleAfterInterpolate(s);
    InterpolatedTrailing(s, j, i);
  }

  /** A gap between known cells is filled by positional linear interpolation. */
  lemma FilledBracketed(s: seq<Cell>, j: nat, i: nat, k: nat)
    requires j < i < k < |s|
    requires s[j].Some? && s[k].Some?
    requires forall m :: j < m < k ==> s[m].None?
    ensures Filled(s)[i] == Some(Lerp(s[j].value, s[k].value, (i - j) as real, (k - j) as real))
    ensures Between(Filled(s)[i].value, s[j].value, s[k].value)
  {
    ForwardFillIdleAfterInterpolate(s);
    InterpolatedBracketed(s, j, i, k);
  }
}
