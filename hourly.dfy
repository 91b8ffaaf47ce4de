/**
 * Hourly resampling (main_app.py line 24) and the final gap pass over the
 * resampled table (line 27).
 */
module Hourly {
  import opened Cells
  import opened GapFill
  import opened Selection
  import opened Table

  /** Width of one resampling bucket, in seconds (`resample('H')`). */
  const HourSeconds := 3600

  /**
   * One row of the resampled table: User_ID, the hour (the Date column, the
   * bucket's left edge, in seconds) and the four numeric columns. Every other
   * column of the input is gone.
   */
  datatype HourRow = HourRow(user: int, hour: int, values: seq<Cell>)

  /** The left edge of the hour bucket an instant falls in: buckets are closed on the left. */
  function HourFloor(t: int): (h: int)
    ensures h <= t < h + HourSeconds
    ensures h % HourSeconds == 0
  {
    (t / HourSeconds) * HourSeconds
  }

  /** Position of an earliest reading. */
  function ArgMin(g: seq<Row>): (k: nat)
    requires |g| > 0 && AllStamped(g)
    ensures k < |g| && forall j :: 0 <= j < |g| ==> Time(g[k]) <= Time(g[j])
    decreases |g|
  {
    if |g| == 1 then 0
    else
      var k := ArgMin(g[..|g| - 1]);
      if Time(g[|g| - 1]) < Time(g[k]) then |g| - 1 else k
  }

  /** Position of a latest reading. */
  function ArgMax(g: seq<Row>): (k: nat)
    requires |g| > 0 && AllStamped(g)
    ensures k < |g| && forall j :: 0 <= j < |g| ==> Time(g[j]) <= Time(g[k])
    decreases |g|
  {
    if |g| == 1 then 0
    else
      var k := ArgMax(g[..|g| - 1]);
      if Time(g[k]) < Time(g[|g| - 1]) then |g| - 1 else k
  }

  /** The instant of an earliest reading. */
  function MinTime(g: seq<Row>): (t: int)
    requires |g| > 0 && AllStamped(g)
  {
    Time(g[ArgMin(g)])
  }

  /** The instant of a latest reading. */
  function MaxTime(g: seq<Row>): (t: int)
    requires |g| > 0 && AllStamped(g)
  {
    Time(g[ArgMax(g)])
  }

  /** The test that picks the readings falling in the bucket starting at h. */
  function InHour(h: int): Row -> bool
  {
    (x: Row) => Stamped(x) && HourFloor(Time(x)) == h
  }

  /** How many of the rows have column c present (pandas `count()`). */
  function PresentCount(rows: seq<Row>, c: nat): (n: nat)
    ensures n <= |rows|
    decreases |rows|
  {
    if |rows| == 0 then 0
    else
      var x := rows[|rows| - 1];
      PresentCount(rows[..|rows| - 1], c) + (if c < |x.values| && x.values[c].Some? then 1 else 0)
  }

  /** The sum of the present values of column c over the rows (pandas `sum()`, skipping NaN). */
  function ColumnSum(rows: seq<Row>, c: nat): (total: real)
    decreases |rows|
  {
    if |rows| == 0 then 0.0
    else
      var x := rows[|rows| - 1];
      ColumnSum(rows[..|rows| - 1], c) + (if c < |x.values| && x.values[c].Some? then x.values[c].value else 0.0)
  }

  /** Appending one row adds its present value, if any, to the count and to the sum. */
  lemma PresentLast(rows: seq<Row>, x: Row, c: nat)
    ensures PresentCount(rows + [x], c) == PresentCount(rows, c) + (if c < |x.values| && x.values[c].Some? then 1 else 0)
    ensures ColumnSum(rows + [x], c) == ColumnSum(rows, c) + (if c < |x.values| && x.values[c].Some? then x.values[c].value else 0.0)
  {
    assert (rows + [x])[..|rows|] == rows;
  }

  /**
   * The present values of column c among the readings that fall in the
   * bucket starting at h, in reading order.
   */
  function BucketValues(g: seq<Row>, h: int, c: nat): (r: seq<real>)
    requires AllStamped(g) && WellFormed(g) && c < NumCols
    ensures forall v :: v in r ==>
              exists k :: 0 <= k < |g| && HourFloor(Time(g[k])) == h && g[k].values[c] == Some(v)
    ensures forall k :: 0 <= k < |g| && HourFloor(Time(g[k])) == h && g[k].values[c].Some? ==>
              g[k].values[c].value in r
    decreases |g|
  {
    if |g| == 0 then []
    else
      var rest := BucketValues(g[..|g| - 1], h, c);
      var x := g[|g| - 1];
      if HourFloor(Time(x)) == h && x.values[c].Some? then rest + [x.values[c].value] else rest
  }

  /**
   * Each reading of the bucket counts once: the bucket holds as many values
   * as the bucket's readings with column c present.
   */
  lemma {:induction false} BucketCount(g: seq<Row>, h: int, c: nat)
    requires AllStamped(g) && WellFormed(g) && c < NumCols
    ensures |BucketValues(g, h, c)| == PresentCount(Filter(g, InHour(h)), c)
    decreases |g|
  {
    if |g| > 0 {
      var init, x := g[..|g| - 1], g[|g| - 1];
      assert x in g;
      BucketCount(init, h, c);
      FilterLast(g, InHour(h));
      PresentLast(Filter(init, InHour(h)), x, c);
    }
  }

  /** The bucket's values add up to the sum of column c over the bucket's readings. */
  lemma {:induction false} BucketSum(g: seq<Row>, h: int, c: nat)
    requires AllStamped(g) && WellFormed(g) && c < NumCols
    ensures Sum(BucketValues(g, h, c)) == ColumnSum(Filter(g, InHour(h)), c)
    decreases |g|
  {
    if |g| > 0 {
      var init, x := g[..|g| - 1], g[|g| - 1];
      assert x in g;
      BucketSum(init, h, c);
      FilterLast(g, InHour(h));
      PresentLast(Filter(init, InHour(h)), x, c);
      if HourFloor(Time(x)) == h && x.values[c].Some? {
        SumLast(BucketValues(init, h, c), x.values[c].value);
      }
    }
  }

  /** The sum of a sequence of values. */
  function Sum(xs: seq<real>): (total: real)
    decreases |xs|
  {
    if |xs| == 0 then 0.0 else Sum(xs[..|xs| - 1]) + xs[|xs| - 1]
  }

  /** Appending a value adds it to the sum. */
  lemma SumLast(xs: seq<real>, v: real)
    ensures Sum(xs + [v]) == Sum(xs) + v
  {
    assert (xs + [v])[..|xs|] == xs;
  }

  /** `mean()` of a bucket: NaN (None) when the bucket holds no present value. */
  function Mean(xs: seq<real>): (m: Cell)
    ensures m.Some? <==> |xs| > 0
  {
    if |xs| == 0 then None else Some(Sum(xs) / (|xs| as real))
  }

  /** Bounds on every value bound the sum: n values between lo and hi sum to between n*lo and n*hi. */
  lemma {:induction false} SumBounds(xs: seq<real>, lo: real, hi: real)
    requires forall k :: 0 <= k < |xs| ==> lo <= xs[k] <= hi
    ensures (|xs| as real) * lo <= Sum(xs) <= (|xs| as real) * hi
    decreases |xs|
  {
    if |xs| > 0 {
      var n := |xs| as real;
      var init := xs[..|xs| - 1];
      assert |init| as real == n - 1.0;
      SumBounds(init, lo, hi);
      assert Sum(xs) == Sum(init) + xs[|xs| - 1];
      assert (n - 1.0) * lo + lo == n * lo;
      assert (n - 1.0) * hi + hi == n * hi;
    }
  }

  /** A mean lies within any bounds of the values it averages. */
  lemma MeanBounded(xs: seq<real>, lo: real, hi: real)
    requires |xs| > 0
    requires forall k :: 0 <= k < |xs| ==> lo <= xs[k] <= hi
    ensures lo <= Mean(xs).value <= hi
  {
    SumBounds(xs, lo, hi);
    var n := |xs| as real;
    var m := Sum(xs) / n;
    assert m * n == Sum(xs);
    assert (m - lo) * n == Sum(xs) - n * lo;
    assert (hi - m) * n == n * hi - Sum(xs);
  }

  /**
   * One user's part of `groupby("User_ID")[numeric_cols].resample('H').mean()`:
   * one row per hour from the hour of the earliest reading to the hour of the
   * latest, inclusive, in steps of exactly one hour.
   */
  function ResampleUser(u: int, g: seq<Row>): (r: seq<HourRow>)
    requires |g| > 0 && AllStamped(g) && WellFormed(g)
    ensures |r| == MaxTime(g) / HourSeconds - MinTime(g) / HourSeconds + 1 && |r| > 0
    ensures r[0].hour == HourFloor(MinTime(g)) && r[|r| - 1].hour == HourFloor(MaxTime(g))
    ensures forall m :: 0 < m < |r| ==> r[m].hour == r[m - 1].hour + HourSeconds
    ensures forall m :: 0 <= m < |r| ==> r[m].user == u && |r[m].values| == NumCols
  {
    var lo := MinTime(g) / HourSeconds;
    var n := MaxTime(g) / HourSeconds - lo + 1;
    seq(n, m requires 0 <= m < n =>
      HourRow(u, (lo + m) * HourSeconds,
              seq(NumCols, c requires 0 <= c < NumCols => Mean(BucketValues(g, (lo + m) * HourSeconds, c)))))
  }

  /** The value of column c in the m-th hour of a user: the mean of that hour's bucket. */
  lemma ResampleUserCell(u: int, g: seq<Row>, m: nat, c: nat)
    requires |g| > 0 && AllStamped(g) && WellFormed(g)
    requires m < |ResampleUser(u, g)| && c < NumCols
    ensures ResampleUser(u, g)[m].values[c] == Mean(BucketValues(g, ResampleUser(u, g)[m].hour, c))
    ensures ResampleUser(u, g)[m].hour == HourFloor(MinTime(g)) + m * HourSeconds
  {
  }

  /**
   * Every reading falls in exactly one hour of its user's grid: the one
   * whose left edge is the reading's hour floor.
   */
  lemma ReadingInOneBucket(u: int, g: seq<Row>, k: nat)
    requires |g| > 0 && AllStamped(g) && WellFormed(g) && k < |g|
    ensures var r, t := ResampleUser(u, g), Time(g[k]);
            var m := t / HourSeconds - MinTime(g) / HourSeconds;
            && 0 <= m < |r|
            && r[m].hour == HourFloor(t)
            && forall m' :: 0 <= m' < |r| ==> (r[m'].hour <= t < r[m'].hour + HourSeconds <==> m' == m)
  {
    var r, t := ResampleUser(u, g), Time(g[k]);
    var m := t / HourSeconds - MinTime(g) / HourSeconds;
    assert MinTime(g) <= t <= MaxTime(g);
    forall m' | 0 <= m' < |r|
      ensures r[m'].hour <= t < r[m'].hour + HourSeconds <==> m' == m
    {
      ResampleUserCell(u, g, m', 0);
    }
  }

  /**
   * An hour's value is missing exactly when none of the user's readings in
   * that hour has column c present (in particular when the hour is empty).
   */
  lemma BucketMissingIff(u: int, g: seq<Row>, m: nat, c: nat)
    requires |g| > 0 && AllStamped(g) && WellFormed(g)
    requires m < |ResampleUser(u, g)| && c < NumCols
    ensures var h := ResampleUser(u, g)[m].hour;
            ResampleUser(u, g)[m].values[c].None? <==>
            forall k :: 0 <= k < |g| && HourFloor(Time(g[k])) == h ==> g[k].values[c].None?
  {
    var h := ResampleUser(u, g)[m].hour;
    ResampleUserCell(u, g, m, c);
    var xs := BucketValues(g, h, c);
    if |xs| > 0 {
      assert xs[0] in xs;
    }
  }

  /** When every reading has column c present, the user's first hour has it present too. */
  lemma FirstHourPresent(u: int, g: seq<Row>, c: nat)
    requires |g| > 0 && AllStamped(g) && WellFormed(g) && c < NumCols
    requires forall k :: 0 <= k < |g| ==> g[k].values[c].Some?
    ensures ResampleUser(u, g)[0].values[c].Some?
  {
    var k0 := ArgMin(g);
    ReadingInOneBucket(u, g, k0);
    BucketMissingIff(u, g, 0, c);
  }

  /** When every reading has column c present, the user's last hour has it present too. */
  lemma LastHourPresent(u: int, g: seq<Row>, c: nat)
    requires |g| > 0 && AllStamped(g) && WellFormed(g) && c < NumCols
    requires forall k :: 0 <= k < |g| ==> g[k].values[c].Some?
    ensures ResampleUser(u, g)[|ResampleUser(u, g)| - 1].values[c].Some?
  {
    var k1 := ArgMax(g);
    ReadingInOneBucket(u, g, k1);
    BucketMissingIff(u, g, |ResampleUser(u, g)| - 1, c);
  }

  /**
   * An hour's value lies within any bounds of the present readings in that
   * hour: the mean lies between their minimum and maximum.
   */
  lemma BucketMeanBounded(u: int, g: seq<Row>, m: nat, c: nat, lo: real, hi: real)
    requires |g| > 0 && AllStamped(g) && WellFormed(g)
    requires m < |ResampleUser(u, g)| && c < NumCols
    requires forall k :: 0 <= k < |g| && HourFloor(Time(g[k])) == ResampleUser(u, g)[m].hour && g[k].values[c].Some? ==>
               lo <= g[k].values[c].value <= hi
    ensures ResampleUser(u, g)[m].values[c].Some? ==> lo <= ResampleUser(u, g)[m].values[c].value <= hi
  {
    var h := ResampleUser(u, g)[m].hour;
    ResampleUserCell(u, g, m, c);
    var xs := BucketValues(g, h, c);
    if |xs| > 0 {
      forall i | 0 <= i < |xs| ensures lo <= xs[i] <= hi {
        assert xs[i] in xs;
      }
      MeanBounded(xs, lo, hi);
    }
  }

  /**
   * An hour's value is the plain average of its readings: the sum of column c
   * over the readings in that hour where it is present, divided by how many
   * there are, and missing when there are none.
   */
  lemma HourMeanIsAverage(u: int, g: seq<Row>, m: nat, c: nat)
    requires |g| > 0 && AllStamped(g) && WellFormed(g)
    requires m < |ResampleUser(u, g)| && c < NumCols
    ensures var rs := Filter(g, InHour(ResampleUser(u, g)[m].hour));
            ResampleUser(u, g)[m].values[c] ==
              if PresentCount(rs, c) == 0 then None else Some(ColumnSum(rs, c) / (PresentCount(rs, c) as real))
  {
    var h := ResampleUser(u, g)[m].hour;
    ResampleUserCell(u, g, m, c);
    BucketCount(g, h, c);
    BucketSum(g, h, c);
  }

  /** A user with a single reading gets exactly one row, holding that reading's values. */
  lemma SingleReadingOneRow(u: int, g: seq<Row>)
    requires |g| == 1 && AllStamped(g) && WellFormed(g)
    ensures |ResampleUser(u, g)| == 1
    ensures ResampleUser(u, g)[0] == HourRow(u, HourFloor(Time(g[0])), g[0].values)
  {
    var r := ResampleUser(u, g);
    var h := HourFloor(Time(g[0]));
    assert g[0] in g;
    assert ArgMin(g) == 0 && MinTime(g) == Time(g[0]);
    assert r[0].hour == h;
    forall c | 0 <= c < NumCols
      ensures r[0].values[c] == g[0].values[c]
    {
      ResampleUserCell(u, g, 0, c);
      SingleReadingMean(g, h, c);
    }
    assert r[0].values == g[0].values;
  }

  /** The hour of a lone reading averages that reading alone. */
  lemma SingleReadingMean(g: seq<Row>, h: int, c: nat)
    requires |g| == 1 && AllStamped(g) && WellFormed(g) && c < NumCols
    requires h == HourFloor(Time(g[0]))
    ensures |g[0].values| == NumCols && Mean(BucketValues(g, h, c)) == g[0].values[c]
  {
    assert g[0] in g;
    var xs := BucketValues(g, h, c);
    assert BucketValues(g[..0], h, c) == [] by { assert g[..0] == []; }
    if g[0].values[c].Some? {
      var v := g[0].values[c].value;
      assert xs == [v];
      assert Sum(xs) == v by { assert xs[..0] == []; }
      assert Sum(xs) / (|xs| as real) == v;
      assert Mean(xs) == Some(v);
    } else {
      assert xs == [];
      assert Mean(xs) == None;
    }
  }

  /** The User_ID column. */
  function Users(rows: seq<Row>): (us: seq<int>)
    ensures |us| == |rows| && forall i :: 0 <= i < |rows| ==> us[i] == rows[i].user
  {
    seq(|rows|, i requires 0 <= i < |rows| => rows[i].user)
  }

  /** Ascending with no repeats. */
  predicate StrictlySorted(s: seq<int>)
  {
    forall i, j :: 0 <= i < j < |s| ==> s[i] < s[j]
  }

  /** Inserts x into a strictly sorted sequence, unless it is there already. */
  function Insert(x: int, s: seq<int>): (r: seq<int>)
    requires StrictlySorted(s)
    ensures StrictlySorted(r)
    ensures forall y :: y in r <==> y == x || y in s
    decreases |s|
  {
    if |s| == 0 then [x]
    else if x < s[0] then [x] + s
    else if x == s[0] then s
    else
      var rest := Insert(x, s[1..]);
      assert forall k :: 0 <= k < |rest| ==> s[0] < rest[k] by {
        forall k | 0 <= k < |rest| ensures s[0] < rest[k] {
          assert rest[k] in rest;
          if rest[k] != x {
            var m :| 0 <= m < |s[1..]| && s[1..][m] == rest[k];
            assert s[m + 1] == rest[k];
          }
        }
      }
      [s[0]] + rest
  }

  /** The distinct group keys in ascending order, as `groupby` visits them. */
  function SortedDistinct(xs: seq<int>): (r: seq<int>)
    ensures StrictlySorted(r)
    ensures forall y :: y in r <==> y in xs
    decreases |xs|
  {
    if |xs| == 0 then [] else Insert(xs[|xs| - 1], SortedDistinct(xs[..|xs| - 1]))
  }

  /** A user that occurs in the frame has a non-empty group. */
  lemma UserRowsNonEmpty(rows: seq<Row>, u: int)
    requires u in Users(rows)
    ensures |UserRows(rows, u)| > 0
  {
    var i :| 0 <= i < |rows| && Users(rows)[i] == u;
    FilterRank(rows, BelongsTo(u), i);
  }

  /** Every hour row has the four numeric columns. */
  predicate HourWellFormed(t: seq<HourRow>)
  {
    forall x :: x in t ==> |x.values| == NumCols
  }

  /** The resampled groups of the users in us, one after the other. */
  function ResampleAll(rows: seq<Row>, us: seq<int>): (out: seq<HourRow>)
    requires AllStamped(rows) && WellFormed(rows)
    requires forall u :: u in us ==> u in Users(rows)
    ensures HourWellFormed(out)
    ensures forall k :: 0 <= k < |out| ==> out[k].user in us
    decreases |us|
  {
    if |us| == 0 then []
    else
      UserRowsNonEmpty(rows, us[0]);
      ResampleUser(us[0], UserRows(rows, us[0])) + ResampleAll(rows, us[1..])
  }

  /**
   * Line 24 with `reset_index()`: the users in ascending order, each with its
   * hourly grid; only User_ID, Date and the numeric columns remain.
   */
  function Resampled(rows: seq<Row>): (out: seq<HourRow>)
    requires AllStamped(rows) && WellFormed(rows)
    ensures HourWellFormed(out)
    ensures forall k :: 0 <= k < |out| ==> out[k].user in Users(rows)
  {
    ResampleAll(rows, SortedDistinct(Users(rows)))
  }

  /**
   * Rows are ordered by user, then by hour: the next row either belongs to
   * a larger User_ID or is the same user's next hour.
   */
  predicate GridOrdered(t: seq<HourRow>)
  {
    forall i :: 0 < i < |t| ==>
      t[i - 1].user < t[i].user || (t[i - 1].user == t[i].user && t[i].hour == t[i - 1].hour + HourSeconds)
  }

  /** Two grid-ordered tables stay grid-ordered when joined, provided the second starts with a larger User_ID. */
  lemma GridOrderedConcat(a: seq<HourRow>, b: seq<HourRow>)
    requires GridOrdered(a) && GridOrdered(b)
    requires |a| > 0 && |b| > 0 ==> a[|a| - 1].user < b[0].user
    ensures GridOrdered(a + b)
  {
    var ab := a + b;
    forall i | 0 < i < |ab|
      ensures ab[i - 1].user < ab[i].user || (ab[i - 1].user == ab[i].user && ab[i].hour == ab[i - 1].hour + HourSeconds)
    {
      if i < |a| {
        assert ab[i - 1] == a[i - 1] && ab[i] == a[i];
      } else if i == |a| {
      } else {
        assert ab[i - 1] == b[i - 1 - |a|] && ab[i] == b[i - |a|];
      }
    }
  }

  /** Visiting users in ascending order yields a grid-ordered table. */
  lemma {:induction false} ResampleAllOrdered(rows: seq<Row>, us: seq<int>)
    requires AllStamped(rows) && WellFormed(rows)
    requires forall u :: u in us ==> u in Users(rows)
    requires StrictlySorted(us)
    ensures GridOrdered(ResampleAll(rows, us))
    decreases |us|
  {
    if |us| > 0 {
      ResampleAllOrdered(rows, us[1..]);
      ResampleAllOrderedStep(rows, us);
    }
  }

  /** The first user's grid, placed before the ordered grids of larger users, keeps the order. */
  lemma ResampleAllOrderedStep(rows: seq<Row>, us: seq<int>)
    requires AllStamped(rows) && WellFormed(rows)
    requires forall u :: u in us ==> u in Users(rows)
    requires StrictlySorted(us) && |us| > 0
    requires GridOrdered(ResampleAll(rows, us[1..]))
    ensures GridOrdered(ResampleAll(rows, us))
  {
    UserRowsNonEmpty(rows, us[0]);
    var a := ResampleUser(us[0], UserRows(rows, us[0]));
    var b := ResampleAll(rows, us[1..]);
    assert ResampleAll(rows, us) == a + b;
    assert GridOrdered(a);
    if |b| > 0 {
      assert b[0].user in us[1..];
      assert a[|a| - 1].user == us[0] < b[0].user;
    }
    GridOrderedConcat(a, b);
  }

  /** The resampled table is ordered by user, then hour, with no hour skipped inside a user. */
  lemma ResampledOrdered(rows: seq<Row>)
    requires AllStamped(rows) && WellFormed(rows)
    ensures GridOrdered(Resampled(rows))
  {
    ResampleAllOrdered(rows, SortedDistinct(Users(rows)));
  }

  /** The test that picks one user's rows out of the resampled table. */
  function OfUser(u: int): HourRow -> bool
  {
    (h: HourRow) => h.user == u
  }

  /** Selecting one visited user's rows from the stacked table gives exactly that user's grid. */
  lemma {:induction false} ResampleAllPerUser(rows: seq<Row>, us: seq<int>, u: int)
    requires AllStamped(rows) && WellFormed(rows)
    requires forall v :: v in us ==> v in Users(rows)
    requires StrictlySorted(us) && u in us
    ensures |UserRows(rows, u)| > 0
    ensures Filter(ResampleAll(rows, us), OfUser(u)) == ResampleUser(u, UserRows(rows, u))
    decreases |us|
  {
    UserRowsNonEmpty(rows, u);
    UserRowsNonEmpty(rows, us[0]);
    var a := ResampleUser(us[0], UserRows(rows, us[0]));
    var b := ResampleAll(rows, us[1..]);
    assert ResampleAll(rows, us) == a + b;
    if us[0] == u {
      forall k | 0 <= k < |b| ensures b[k].user != u {
        assert b[k].user in us[1..];
      }
      FilterOwnBlock(a, b, u);
    } else {
      FilterOtherBlock(a, b, u);
      ResampleAllPerUser(rows, us[1..], u);
    }
  }

  /** A block of user u followed by rows of other users: selecting u gives the block. */
  lemma FilterOwnBlock(a: seq<HourRow>, b: seq<HourRow>, u: int)
    requires forall k :: 0 <= k < |a| ==> a[k].user == u
    requires forall k :: 0 <= k < |b| ==> b[k].user != u
    ensures Filter(a + b, OfUser(u)) == a
  {
    FilterConcat(a, b, OfUser(u));
    FilterNoneOrAll(a, OfUser(u));
    FilterNoneOrAll(b, OfUser(u));
  }

  /** A block of another user before b: selecting u skips the block. */
  lemma FilterOtherBlock(a: seq<HourRow>, b: seq<HourRow>, u: int)
    requires forall k :: 0 <= k < |a| ==> a[k].user != u
    ensures Filter(a + b, OfUser(u)) == Filter(b, OfUser(u))
  {
    FilterConcat(a, b, OfUser(u));
    FilterNoneOrAll(a, OfUser(u));
  }

  /**
   * The rows of a user in the resampled table are exactly that user's hourly
   * grid built from that user's readings.
   */
  lemma ResampledPerUser(rows: seq<Row>, u: int)
    requires AllStamped(rows) && WellFormed(rows)
    requires u in Users(rows)
    ensures |UserRows(rows, u)| > 0
    ensures Filter(Resampled(rows), OfUser(u)) == ResampleUser(u, UserRows(rows, u))
  {
    ResampleAllPerUser(rows, SortedDistinct(Users(rows)), u);
  }

  /** Every user of the frame has at least one row in the resampled table. */
  lemma ResampledCoversUser(rows: seq<Row>, u: int)
    requires AllStamped(rows) && WellFormed(rows)
    requires u in Users(rows)
    ensures exists k :: 0 <= k < |Resampled(rows)| && Resampled(rows)[k].user == u
  {
    ResampledPerUser(rows, u);
    var blk := Filter(Resampled(rows), OfUser(u));
    assert blk[0] in Resampled(rows) && blk[0].user == u;
  }

  /** One numeric column of the resampled table, top to bottom. */
  function HourCol(t: seq<HourRow>, c: nat): (s: seq<Cell>)
    requires HourWellFormed(t) && c < NumCols
    ensures |s| == |t| && forall i :: 0 <= i < |t| ==> s[i] == t[i].values[c]
  {
    seq(|t|, i requires 0 <= i < |t| => t[i].values[c])
  }

  /**
   * Line 27: each numeric column of the whole resampled table is
   * interpolated linearly by position, across user boundaries. Known cells
   * stay.
   */
  function FinalPass(t: seq<HourRow>): (r: seq<HourRow>)
    requires HourWellFormed(t)
    ensures |r| == |t| && HourWellFormed(r)
    ensures forall i :: 0 <= i < |t| ==> r[i].user == t[i].user && r[i].hour == t[i].hour
    ensures forall i, c :: 0 <= i < |t| && 0 <= c < NumCols && t[i].values[c].Some? ==>
              r[i].values[c] == t[i].values[c]
  {
    seq(|t|, i requires 0 <= i < |t| =>
      t[i].(values := seq(NumCols, c requires 0 <= c < NumCols => Interpolated(HourCol(t, c))[i])))
  }

  /** The final pass leaves the user and hour of every row as they were. */
  lemma FinalPassKeepsGrid(t: seq<HourRow>)
    requires HourWellFormed(t) && GridOrdered(t)
    ensures GridOrdered(FinalPass(t))
  {
    var r := FinalPass(t);
    forall i | 0 < i < |r|
      ensures r[i - 1].user < r[i].user || (r[i - 1].user == r[i].user && r[i].hour == r[i - 1].hour + HourSeconds)
    {
      assert r[i - 1].user == t[i - 1].user && r[i - 1].hour == t[i - 1].hour;
    }
  }

  /** A cell after the final pass is the interpolation of its column, read at its row. */
  lemma FinalPassCell(t: seq<HourRow>, i: nat, c: nat)
    requires HourWellFormed(t) && i < |t| && c < NumCols
    ensures FinalPass(t)[i].values[c] == Interpolated(HourCol(t, c))[i]
  {
  }

  /**
   * After the final pass a cell is known exactly when some cell at or above
   * it in its column was known: only the cells before a column's first known
   * value stay missing.
   */
  lemma FinalPassKnownIff(t: seq<HourRow>, i: nat, c: nat)
    requires HourWellFormed(t) && i < |t| && c < NumCols
    ensures FinalPass(t)[i].values[c].Some? <==> exists j :: 0 <= j <= i && t[j].values[c].Some?
  {
    FinalPassCell(t, i, c);
    var s := HourCol(t, c);
    assert Interpolated(s)[i].Some? <==> exists j :: 0 <= j <= i && s[j].Some?;
  }

  /**
   * A missing cell between two known cells of the same column is filled by
   * the straight line between them, by row position, whatever users the
   * three rows belong to.
   */
  lemma FinalPassBracketed(t: seq<HourRow>, c: nat, j: nat, i: nat, k: nat)
    requires HourWellFormed(t) && c < NumCols
    requires j < i < k < |t|
    requires t[j].values[c].Some? && t[k].values[c].Some?
    requires forall m :: j < m < k ==> t[m].values[c].None?
    ensures FinalPass(t)[i].values[c]
            == Some(Lerp(t[j].values[c].value, t[k].values[c].value, (i - j) as real, (k - j) as real))
    ensures Between(FinalPass(t)[i].values[c].value, t[j].values[c].value, t[k].values[c].value)
  {
    var s := HourCol(t, c);
    assert s[j].Some? && s[k].Some?;
    assert forall m :: j < m < k ==> s[m].None?;
    InterpolatedBracketed(s, j, i, k);
    FinalPassCell(t, i, c);
  }

  /** Missing cells after the last known cell of a column take that last value. */
  lemma FinalPassTrailing(t: seq<HourRow>, c: nat, j: nat, i: nat)
    requires HourWellFormed(t) && c < NumCols
    requires j < i < |t| && t[j].values[c].Some?
    requires forall m :: j < m < |t| ==> t[m].values[c].None?
    ensures FinalPass(t)[i].values[c] == t[j].values[c]
  {
    var s := HourCol(t, c);
    assert s[j].Some?;
    assert forall m :: j < m < |s| ==> s[m].None?;
    InterpolatedTrailing(s, j, i);
    FinalPassCell(t, i, c);
  }

  /**
   * Hours j < i < k of one user, where j and k have column c present and
   * every row strictly between them has it missing.
   */
  predicate Bracketed(t: seq<HourRow>, c: nat, j: nat, i: nat, k: nat)
    requires HourWellFormed(t) && c < NumCols
  {
    && j < i < k < |t|
    && t[j].user == t[i].user == t[k].user
    && t[j].values[c].Some? && t[k].values[c].Some?
    && forall m :: j < m < k ==> t[m].values[c].None?
  }

  /**
   * For a user whose readings all have column c present, an hour missing
   * after resampling lies between two hours of the same user that hold
   * means, with only missing hours between them.
   */
  lemma ResampledGapBracketed(r: seq<Row>, t: seq<HourRow>, i: nat, c: nat) returns (j: nat, k: nat)
    requires AllStamped(r) && WellFormed(r) && c < NumCols
    requires t == Resampled(r) && i < |t|
    requires forall m :: 0 <= m < |UserRows(r, t[i].user)| ==> UserRows(r, t[i].user)[m].values[c].Some?
    requires t[i].values[c].None?
    ensures Bracketed(t, c, j, i, k)
  {
    var u := t[i].user;
    var g := UserRows(r, u);
    ResampledPerUser(r, u);
    assert OfUser(u)(t[i]);
    var a := FilterFirstOrigin(t, OfUser(u), i);
    var e := FilterLastOrigin(t, OfUser(u), i);
    FirstHourPresent(u, g, c);
    LastHourPresent(u, g, c);
    ResampledOrdered(r);
    j, k := GapBracketed(t, a, i, e, c);
  }

  /**
   * In a grid-ordered table, a missing cell between two present cells of the
   * same user lies between two present cells of that user, with only missing
   * cells between them.
   */
  lemma GapBracketed(t: seq<HourRow>, a: nat, i: nat, e: nat, c: nat) returns (j: nat, k: nat)
    requires HourWellFormed(t) && GridOrdered(t) && c < NumCols
    requires a <= i <= e < |t| && t[a].user == t[e].user
    requires t[a].values[c].Some? && t[e].values[c].Some? && t[i].values[c].None?
    ensures a <= j && k <= e && Bracketed(t, c, j, i, k)
  {
    var s := HourCol(t, c);
    assert s[a].Some? && s[e].Some? && s[i].None?;
    j, k := NearestKnown(s, a, i, e);
    forall m | j < m < k ensures t[m].values[c].None? {
      assert t[m].values[c] == s[m];
    }
    SameUserBetween(t, a, j, e);
    SameUserBetween(t, a, i, e);
    SameUserBetween(t, a, k, e);
  }

  /** In a grid-ordered table, every row between two rows of one user belongs to that user. */
  lemma SameUserBetween(t: seq<HourRow>, a: nat, m: nat, e: nat)
    requires GridOrdered(t) && a <= m <= e < |t| && t[a].user == t[e].user
    ensures t[m].user == t[a].user
  {
    GridUsersAscend(t, a, m);
    GridUsersAscend(t, m, e);
  }

  /** In a grid-ordered table, User_IDs never decrease going down the table. */
  lemma {:induction false} GridUsersAscend(t: seq<HourRow>, j: nat, i: nat)
    requires GridOrdered(t) && j <= i < |t|
    ensures t[j].user <= t[i].user
    decreases i - j
  {
    if j < i {
      GridUsersAscend(t, j + 1, i);
    }
  }

  /**
   * The final pass is not confined to one user. When a user's column is
   * missing in every one of its hours, its hour i is filled exactly when some
   * earlier user (a smaller User_ID) has a present value in that column.
   */
  lemma FinalPassCrossesUsers(t: seq<HourRow>, c: nat, i: nat)
    requires HourWellFormed(t) && GridOrdered(t) && c < NumCols && i < |t|
    requires forall k :: 0 <= k < |t| && t[k].user == t[i].user ==> t[k].values[c].None?
    ensures FinalPass(t)[i].values[c].Some? <==>
            exists j :: 0 <= j < i && t[j].user < t[i].user && t[j].values[c].Some?
  {
    FinalPassKnownIff(t, i, c);
    EarlierKnownIsOtherUser(t, c, i);
  }

  /** A present cell at or above hour i, when i's user has none, belongs to an earlier user. */
  lemma EarlierKnownIsOtherUser(t: seq<HourRow>, c: nat, i: nat)
    requires HourWellFormed(t) && GridOrdered(t) && c < NumCols && i < |t|
    requires forall k :: 0 <= k < |t| && t[k].user == t[i].user ==> t[k].values[c].None?
    ensures (exists j :: 0 <= j <= i && t[j].values[c].Some?) ==>
            exists j :: 0 <= j < i && t[j].user < t[i].user && t[j].values[c].Some?
  {
    if exists j :: 0 <= j <= i && t[j].values[c].Some? {
      var j :| 0 <= j <= i && t[j].values[c].Some?;
      GridUsersAscend(t, j, i);
      assert t[j].user != t[i].user;
    }
  }

  /**
   * For example, a user whose column is missing in its only hour, between
   * two other users' known hours, gets their midpoint.
   */
  lemma FinalPassCrossesUsersExample()
    ensures var known10, known30, missing := [Some(10.0), Some(10.0), Some(10.0), Some(10.0)],
                                             [Some(30.0), Some(30.0), Some(30.0), Some(30.0)],
                                             [None, None, None, None];
            var t := [HourRow(1, 0, known10), HourRow(2, 0, missing), HourRow(3, 0, known30)];
            FinalPass(t)[1].values[0] == Some(20.0)
  {
    var known10, known30, missing := [Some(10.0), Some(10.0), Some(10.0), Some(10.0)],
                                     [Some(30.0), Some(30.0), Some(30.0), Some(30.0)],
                                     [None, None, None, None];
    var t := [HourRow(1, 0, known10), HourRow(2, 0, missing), HourRow(3, 0, known30)];
    assert forall x :: x in t ==> x.values == known10 || x.values == missing || x.values == known30;
    FinalPassBracketed(t, 0, 0, 1, 2);
    assert Lerp(10.0, 30.0, 1.0, 2.0) == 20.0;
  }
}
