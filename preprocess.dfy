/**
 * `preprocess_and_resample` (main_app.py lines 8-29) as a method over frame
 * objects, and what the whole pipeline guarantees.
 */
module Preprocess {
  import opened Cells
  import opened Selection
  import opened GapFill
  import opened Table
  import opened Hourly

  /**
   * The table `preprocess_and_resample` returns for the frame raw, with
   * parse standing for pandas' day-first date parser.
   */
  function Pipeline(raw: seq<Row>, parse: string -> Option<int>): (out: seq<HourRow>)
    requires WellFormed(raw)
    ensures HourWellFormed(out)
    ensures GridOrdered(out)
  {
    var kept := DropUnparsed(Normalized(raw, parse));
    var t := Resampled(GapRepaired(kept));
    ResampledOrdered(GapRepaired(kept));
    FinalPassKeepsGrid(t);
    FinalPass(t)
  }

  /** A pandas DataFrame of readings, held as its rows. */
  class Frame {
    var rows: seq<Row>

    constructor (rows: seq<Row>)
      ensures this.rows == rows
    {
      this.rows := rows;
    }

    /** Line 13: the Date column is overwritten in place with its parsed form. */
    method ParseDates(parse: string -> Option<int>)
      modifies this
      ensures rows == Normalized(old(rows), parse)
    {
      rows := Normalized(rows, parse);
    }

    /** Line 14: `dropna` returns a new frame and leaves this one as it is. */
    method DropNaT() returns (kept: Frame)
      ensures fresh(kept) && kept.rows == DropUnparsed(rows)
    {
      kept := new Frame(DropUnparsed(rows));
    }

    /** Lines 18-20: the numeric columns are overwritten with their per-user repair. */
    method RepairGaps()
      requires WellFormed(rows)
      modifies this
      ensures rows == GapRepaired(old(rows))
    {
      rows := GapRepaired(rows);
    }

    /** Lines 23-24: a new frame with one row per user and hour. */
    method ResampleHourly() returns (out: HourlyFrame)
      requires AllStamped(rows) && WellFormed(rows)
      ensures fresh(out) && out.rows == Resampled(rows)
    {
      out := new HourlyFrame(Resampled(rows));
    }
  }

  /** The resampled DataFrame, held as its rows. */
  class HourlyFrame {
    var rows: seq<HourRow>

    constructor (rows: seq<HourRow>)
      ensures this.rows == rows
    {
      this.rows := rows;
    }

    /** Line 27: the numeric columns are overwritten with their interpolation. */
    method InterpolateGaps()
      requires HourWellFormed(rows)
      modifies this
      ensures rows == FinalPass(old(rows))
    {
      rows := FinalPass(rows);
    }
  }

  /**
   * `preprocess_and_resample(df)`: the caller's frame sees its Date column
   * parsed (line 13 writes into it); every later step works on a copy, and
   * the result is a new frame.
   */
  method PreprocessAndResample(df: Frame, parse: string -> Option<int>) returns (out: HourlyFrame)
    requires WellFormed(df.rows)
    modifies df
    ensures df.rows == Normalized(old(df.rows), parse)
    ensures fresh(out) && out.rows == Pipeline(old(df.rows), parse)
    ensures GridOrdered(out.rows)
  {
    df.ParseDates(parse);
    var kept := df.DropNaT();
    kept.RepairGaps();
    out := kept.ResampleHourly();
    out.InterpolateGaps();
  }

  /**
   * If a user has any present value in column c among the rows kept, every
   * one of that user's output rows has column c present after the final
   * pass: the user's first hour holds a mean, and each later hour is either
   * a mean or filled from the rows above it.
   */
  lemma ResampledNoGapsForUsersWithData(rows: seq<Row>, i: nat, c: nat, x: Row)
    requires AllStamped(rows) && WellFormed(rows) && c < NumCols
    requires i < |Resampled(GapRepaired(rows))|
    requires x in rows && x.values[c].Some? && x.user == Resampled(GapRepaired(rows))[i].user
    ensures FinalPass(Resampled(GapRepaired(rows)))[i].values[c].Some?
  {
    var r := GapRepaired(rows);
    var out := Resampled(r);
    var u := out[i].user;
    var g := UserRows(r, u);
    ResampledPerUser(r, u);
    assert OfUser(u)(out[i]);
    var a := FilterFirstOrigin(out, OfUser(u), i);
    GapRepairedUserComplete(rows, u, c, x);
    FirstHourPresent(u, g, c);
    assert out[a] == ResampleUser(u, g)[0];
    FinalPassKnownIff(out, i, c);
  }

  /**
   * For a user with a present value in column c, an hour left empty by the
   * resampling lies between two hours of the same user that hold means, with
   * only missing hours between them; the final pass fills it by position on
   * the straight line between those two means, never from another user.
   */
  lemma ResampledGapsInterpolatedWithinUser(rows: seq<Row>, t: seq<HourRow>, i: nat, c: nat, x: Row) returns (j: nat, k: nat)
    requires AllStamped(rows) && WellFormed(rows) && c < NumCols
    requires t == Resampled(GapRepaired(rows)) && i < |t|
    requires x in rows && x.values[c].Some? && x.user == t[i].user
    requires t[i].values[c].None?
    ensures Bracketed(t, c, j, i, k) && t[i].user == x.user
    ensures FinalPass(t)[i].values[c] == Some(Lerp(t[j].values[c].value, t[k].values[c].value, (i - j) as real, (k - j) as real))
  {
    GapRepairedUserComplete(rows, x.user, c, x);
    j, k := ResampledGapBracketed(GapRepaired(rows), t, i, c);
    FinalPassBracketed(t, c, j, i, k);
  }

  /**
   * End to end: a user with a parseable row whose column c is present gets
   * column c present in every one of its output rows.
   */
  lemma PipelineNoGaps(raw: seq<Row>, parse: string -> Option<int>, i: nat, c: nat, j: nat)
    requires WellFormed(raw) && c < NumCols
    requires i < |Pipeline(raw, parse)|
    requires j < |raw| && Stamped(Normalized(raw, parse)[j]) && raw[j].values[c].Some?
    requires raw[j].user == Pipeline(raw, parse)[i].user
    ensures Pipeline(raw, parse)[i].values[c].Some?
  {
    var n := Normalized(raw, parse);
    var kept := DropUnparsed(n);
    FilterRank(n, Stamped, j);
    ResampledNoGapsForUsersWithData(kept, i, c, n[j]);
  }

  /** Every user in the output has at least one row whose date parsed. */
  lemma PipelineUsersParsed(raw: seq<Row>, parse: string -> Option<int>, k: nat)
    requires WellFormed(raw) && k < |Pipeline(raw, parse)|
    ensures exists j :: 0 <= j < |raw| && raw[j].user == Pipeline(raw, parse)[k].user && Stamped(Normalized(raw, parse)[j])
  {
    var kept := DropUnparsed(Normalized(raw, parse));
    var r := GapRepaired(kept);
    var t := Resampled(r);
    assert Pipeline(raw, parse) == FinalPass(t);
    var u := t[k].user;
    assert u in Users(r);
    var ir :| 0 <= ir < |r| && Users(r)[ir] == u;
    assert r[ir] == kept[ir].(values := r[ir].values);
    var j := KeptRowOrigin(raw, parse, kept[ir]);
    assert raw[j].user == Pipeline(raw, parse)[k].user;
  }

  /** A row that survives the drop comes from a raw row of the same user whose date parsed. */
  lemma KeptRowOrigin(raw: seq<Row>, parse: string -> Option<int>, x: Row) returns (j: nat)
    requires x in DropUnparsed(Normalized(raw, parse))
    ensures j < |raw| && raw[j].user == x.user && Stamped(Normalized(raw, parse)[j])
  {
    var n := Normalized(raw, parse);
    j :| 0 <= j < |n| && n[j] == x;
    assert raw[j].user == n[j].user;
  }

  /** Every user with a row whose date parsed appears in the output. */
  lemma PipelineUsersPresent(raw: seq<Row>, parse: string -> Option<int>, j: nat)
    requires WellFormed(raw) && j < |raw| && Stamped(Normalized(raw, parse)[j])
    ensures exists k :: 0 <= k < |Pipeline(raw, parse)| && Pipeline(raw, parse)[k].user == raw[j].user
  {
    var n := Normalized(raw, parse);
    var kept := DropUnparsed(n);
    var r := GapRepaired(kept);
    var t := Resampled(r);
    var u := raw[j].user;
    FilterRank(n, Stamped, j);
    var ik := Rank(n, Stamped, j);
    assert r[ik].user == u;
    assert u in Users(r);
    ResampledCoversUser(r, u);
    var k :| 0 <= k < |t| && t[k].user == u;
    assert Pipeline(raw, parse) == FinalPass(t);
    assert FinalPass(t)[k].user == u;
  }
}
