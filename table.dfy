/**
 * The wearable-readings frame before resampling (main_app.py lines 12-20):
 * date normalisation, dropping of rows whose date does not parse, and the
 * per-user repair of the four numeric columns.
 */
module Table {
  import opened Cells
  import opened GapFill
  import opened Selection

  /**
   * Number of numeric columns repaired and resampled: Hours_Slept,
   * Water_Intake (Liters), Active_Minutes and Heart_Rate (bpm), in this order.
   */
  const NumCols := 4

  /**
   * The Date column: free text as read from the file, or an instant (in
   * seconds) once converted; an instant of None is NaT, a date that did not parse.
   */
  datatype DateCell = Text(text: string) | Stamp(instant: Option<int>)

  /**
   * One row of the frame: its User_ID, its Date, the numeric columns in the
   * order above, and every other column (carried along, never inspected).
   */
  datatype Row = Row(user: int, date: DateCell, values: seq<Cell>, other: seq<string>)

  /** Every row has the four numeric columns. */
  predicate WellFormed(rows: seq<Row>)
  {
    forall r :: r in rows ==> |r.values| == NumCols
  }

  /**
   * `pd.to_datetime(..., errors="coerce", dayfirst=True)` on one cell: text is
   * handed to the day-first parser, which yields None where pandas yields NaT;
   * a cell that already holds an instant is left as it is.
   */
  function ParseDate(d: DateCell, parse: string -> Option<int>): (r: DateCell)
  {
    match d
    case Text(s) => Stamp(parse(s))
    case Stamp(_) => d
  }

  /** Line 13: the Date column is replaced by its parsed form; nothing else changes. */
  function Normalized(rows: seq<Row>, parse: string -> Option<int>): (r: seq<Row>)
    ensures |r| == |rows|
    ensures forall i :: 0 <= i < |rows| ==> r[i].date.Stamp? && r[i] == rows[i].(date := r[i].date)
    ensures forall i :: 0 <= i < |rows| && rows[i].date.Text? ==> r[i].date.instant == parse(rows[i].date.text)
    ensures forall i :: 0 <= i < |rows| && rows[i].date.Stamp? ==> r[i].date == rows[i].date
    ensures WellFormed(rows) ==> WellFormed(r)
  {
    seq(|rows|, i requires 0 <= i < |rows| => rows[i].(date := ParseDate(rows[i].date, parse)))
  }

  /** The row carries a date that parsed (not NaT). */
  predicate Stamped(r: Row)
  {
    r.date.Stamp? && r.date.instant.Some?
  }

  /** The instant of a row whose date parsed. */
  function Time(r: Row): (t: int)
    requires Stamped(r)
  {
    r.date.instant.value
  }

  /** Every row's date parsed. */
  predicate AllStamped(rows: seq<Row>)
  {
    forall r :: r in rows ==> Stamped(r)
  }

  /** Line 14, `dropna(subset=["Date"])`: keep the rows whose date parsed, in order. */
  function DropUnparsed(rows: seq<Row>): (r: seq<Row>)
    ensures |r| <= |rows|
    ensures AllStamped(r)
    ensures forall x :: x in r ==> x in rows
    ensures WellFormed(rows) ==> WellFormed(r)
  {
    Filter(rows, Stamped)
  }

  /**
   * Every row whose date parsed survives the drop, and two survivors keep
   * their relative order.
   */
  lemma DropKeepsParsedRowsInOrder(rows: seq<Row>, i: nat, j: nat)
    requires i < j < |rows| && Stamped(rows[i]) && Stamped(rows[j])
    ensures var a, b := Rank(rows, Stamped, i), Rank(rows, Stamped, j);
            a < b < |DropUnparsed(rows)| && DropUnparsed(rows)[a] == rows[i] && DropUnparsed(rows)[b] == rows[j]
  {
    FilterRank(rows, Stamped, i);
    FilterRank(rows, Stamped, j);
    FilterRankIncreasing(rows, Stamped, i, j);
  }

  /** One numeric column of a frame, top to bottom. */
  function Col(rows: seq<Row>, c: nat): (s: seq<Cell>)
    requires WellFormed(rows) && c < NumCols
    ensures |s| == |rows|
    ensures forall i :: 0 <= i < |rows| ==> s[i] == rows[i].values[c]
  {
    seq(|rows|, i requires 0 <= i < |rows| => rows[i].values[c])
  }

  /**
   * The lambda of line 19 applied to one user's rows: each numeric column is
   * interpolated, forward-filled and backward-filled.
   */
  function RepairGroup(g: seq<Row>): (r: seq<Row>)
    requires WellFormed(g)
    ensures |r| == |g| && WellFormed(r)
    ensures forall k :: 0 <= k < |g| ==> r[k] == g[k].(values := r[k].values)
  {
    seq(|g|, k requires 0 <= k < |g| =>
      g[k].(values := seq(NumCols, c requires 0 <= c < NumCols => Filled(Col(g, c))[k])))
  }

  /** The User_ID test that forms a user's group. */
  function BelongsTo(u: int): Row -> bool
  {
    (r: Row) => r.user == u
  }

  /** The rows of user u, in frame order (one group of `groupby("User_ID")`). */
  function UserRows(rows: seq<Row>, u: int): (g: seq<Row>)
    ensures forall k :: 0 <= k < |g| ==> g[k].user == u && g[k] in rows
    ensures WellFormed(rows) ==> WellFormed(g)
    ensures AllStamped(rows) ==> AllStamped(g)
  {
    Filter(rows, BelongsTo(u))
  }

  /** Row i, with its numeric columns taken from its user's repaired group. */
  function RepairedRow(rows: seq<Row>, i: nat): (r: Row)
    requires WellFormed(rows) && i < |rows|
    ensures r == rows[i].(values := r.values) && |r.values| == NumCols
    ensures r.date == rows[i].date
  {
    var u := rows[i].user;
    FilterRank(rows, BelongsTo(u), i);
    rows[i].(values := RepairGroup(UserRows(rows, u))[Rank(rows, BelongsTo(u), i)].values)
  }

  /**
   * Lines 18-20, `groupby("User_ID")[numeric_cols].transform(...)` assigned
   * back: every row keeps its place, user, date and other columns; only the
   * numeric columns change.
   */
  function GapRepaired(rows: seq<Row>): (r: seq<Row>)
    requires WellFormed(rows)
    ensures |r| == |rows| && WellFormed(r)
    ensures forall i :: 0 <= i < |rows| ==> r[i] == rows[i].(values := r[i].values)
    ensures AllStamped(rows) ==> AllStamped(r)
  {
    var r := seq(|rows|, i requires 0 <= i < |rows| => RepairedRow(rows, i));
    assert WellFormed(r) && (AllStamped(rows) ==> AllStamped(r)) by {
      forall x | x in r
        ensures |x.values| == NumCols && (AllStamped(rows) ==> Stamped(x))
      {
        var i :| 0 <= i < |r| && r[i] == x;
        assert x == RepairedRow(rows, i) && rows[i] in rows;
      }
    }
    r
  }

  /**
   * Taking one user's rows out of the repaired frame gives exactly the
   * repair of that user's rows alone: a user's result depends on that user's
   * rows and on nothing else.
   */
  lemma GapRepairedPerUser(rows: seq<Row>, u: int)
    requires WellFormed(rows)
    ensures UserRows(GapRepaired(rows), u) == RepairGroup(UserRows(rows, u))
  {
    var r := GapRepaired(rows);
    var keep := BelongsTo(u);
    var h := RepairGroup(UserRows(rows, u));
    forall i | 0 <= i < |rows| && keep(rows[i])
      ensures Rank(rows, keep, i) < |h| && r[i] == h[Rank(rows, keep, i)]
    {
      FilterRank(rows, keep, i);
    }
    assert RankedAs(rows, r, keep, h);
    FilterRanked(rows, r, keep, h);
  }

  /** Two frames in which user u has the same rows give u the same repaired rows. */
  lemma GapRepairIsolated(rows1: seq<Row>, rows2: seq<Row>, u: int)
    requires WellFormed(rows1) && WellFormed(rows2)
    requires UserRows(rows1, u) == UserRows(rows2, u)
    ensures UserRows(GapRepaired(rows1), u) == UserRows(GapRepaired(rows2), u)
  {
    GapRepairedPerUser(rows1, u);
    GapRepairedPerUser(rows2, u);
  }

  /** The repair never changes a value that was already present. */
  lemma GapRepairKeepsKnown(rows: seq<Row>, i: nat, c: nat)
    requires WellFormed(rows) && i < |rows| && c < NumCols
    requires rows[i].values[c].Some?
    ensures GapRepaired(rows)[i].values[c] == rows[i].values[c]
  {
    var u := rows[i].user;
    var g := UserRows(rows, u);
    var k := Rank(rows, BelongsTo(u), i);
    FilterRank(rows, BelongsTo(u), i);
    assert g[k] == rows[i];
    assert Col(g, c)[k] == rows[i].values[c];
    assert GapRepaired(rows)[i] == RepairedRow(rows, i);
  }

  /**
   * After the repair a cell is present exactly when its user had at least one
   * present value in that column; a column missing throughout a user's rows
   * stays missing.
   */
  lemma GapRepairComplete(rows: seq<Row>, i: nat, c: nat)
    requires WellFormed(rows) && i < |rows| && c < NumCols
    ensures GapRepaired(rows)[i].values[c].Some? <==>
            exists x :: x in rows && x.user == rows[i].user && x.values[c].Some?
  {
    var u := rows[i].user;
    var g := UserRows(rows, u);
    var k := Rank(rows, BelongsTo(u), i);
    FilterRank(rows, BelongsTo(u), i);
    var s := Col(g, c);
    assert GapRepaired(rows)[i] == RepairedRow(rows, i);
    assert GapRepaired(rows)[i].values[c] == Filled(s)[k];
    if x :| x in rows && x.user == u && x.values[c].Some? {
      var ix :| 0 <= ix < |rows| && rows[ix] == x;
      FilterRank(rows, BelongsTo(u), ix);
      assert s[Rank(rows, BelongsTo(u), ix)].Some?;
    } else {
      forall j | 0 <= j < |s| ensures s[j].None? {
        assert g[j] in rows && g[j].user == u;
      }
    }
  }

  /** A user with a present value in column c has column c present in every repaired row. */
  lemma GapRepairedUserComplete(rows: seq<Row>, u: int, c: nat, x: Row)
    requires WellFormed(rows) && c < NumCols
    requires x in rows && x.user == u && x.values[c].Some?
    ensures forall k :: 0 <= k < |UserRows(GapRepaired(rows), u)| ==> UserRows(GapRepaired(rows), u)[k].values[c].Some?
  {
    var g := UserRows(GapRepaired(rows), u);
    forall k | 0 <= k < |g|
      ensures g[k].values[c].Some?
    {
      GapRepairedRowComplete(rows, c, x, g[k]);
    }
  }

  /** A repaired row of a user who has column c present somewhere has column c present. */
  lemma GapRepairedRowComplete(rows: seq<Row>, c: nat, x: Row, y: Row)
    requires WellFormed(rows) && c < NumCols
    requires x in rows && x.values[c].Some?
    requires y in GapRepaired(rows) && y.user == x.user
    ensures |y.values| == NumCols && y.values[c].Some?
  {
    var r := GapRepaired(rows);
    var iy :| 0 <= iy < |r| && r[iy] == y;
    assert rows[iy].user == x.user;
    GapRepairComplete(rows, iy, c);
  }

  /** The k-th repaired row of user u holds the filled column of u's rows at k. */
  lemma RepairedGroupCell(rows: seq<Row>, u: int, c: nat, k: nat)
    requires WellFormed(rows) && c < NumCols && k < |UserRows(rows, u)|
    ensures k < |UserRows(GapRepaired(rows), u)|
    ensures UserRows(GapRepaired(rows), u)[k].values[c] == Filled(Col(UserRows(rows, u), c))[k]
  {
    GapRepairedPerUser(rows, u);
  }

  /**
   * Inside one user's rows a gap is filled by position in file order, not by
   * time: the k-th of the user's rows, between known rows j and l of that
   * user, gets the value the straight line through them takes at k.
   */
  lemma GapRepairInterpolatesByPosition(rows: seq<Row>, u: int, c: nat, j: nat, k: nat, l: nat)
    requires WellFormed(rows) && c < NumCols
    requires j < k < l < |UserRows(rows, u)|
    requires var s := Col(UserRows(rows, u), c);
             s[j].Some? && s[l].Some? && forall m :: j < m < l ==> s[m].None?
    ensures var s := Col(UserRows(rows, u), c);
            k < |UserRows(GapRepaired(rows), u)| &&
            UserRows(GapRepaired(rows), u)[k].values[c]
            == Some(Lerp(s[j].value, s[l].value, (k - j) as real, (l - j) as real))
    ensures var s := Col(UserRows(rows, u), c);
            k < |UserRows(GapRepaired(rows), u)| &&
            Between(UserRows(GapRepaired(rows), u)[k].values[c].value, s[j].value, s[l].value)
  {
    RepairedGroupCell(rows, u, c, k);
    FilledBracketed(Col(UserRows(rows, u), c), j, k, l);
  }
}
