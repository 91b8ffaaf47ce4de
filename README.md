# FitPulse preprocessing: a Dafny model of `preprocess_and_resample`

FitPulse is a dashboard for wearable health logs. Its one piece of real logic is
`preprocess_and_resample` (main_app.py:8-29). It turns irregular, per-user readings of
four numeric columns into one hourly table, in which the users' hours are stacked in ascending
User_ID order (line 24), in four steps:

1. The Date column is parsed day-first, in place. Rows whose date does not parse (NaT) are dropped.
2. Each user's rows, in file order, have each of the four numeric columns repaired:
   linear interpolation by position, then forward fill, then backward fill.
3. The rows are bucketed per user into left-closed hours, from the hour of the user's earliest
   reading to the hour of the latest. Each bucket holds the mean of its present readings.
4. One more positional linear interpolation runs over each numeric column of the whole
   resampled table, across user boundaries.

The model works on exact rationals (`real`). A missing cell (pandas NaN or NaT) is `None`.
A date is an instant in whole seconds. Dates are parsed by a function `parse: string -> Option<int>`
that the caller supplies; it stands for pandas' day-first parser.

Files, one module each:

- `cells.dfy` (`Cells`): `Option` and `Cell = Option<real>`.
- `selection.dfy` (`Selection`): an order-keeping `Filter` and its rank lemmas. Both `dropna` and
  taking one `groupby` group are this selection.
- `gapfill.dfy` (`GapFill`): pandas `interpolate(method="linear")`, `ffill()` and `bfill()` on one
  column, and their properties.
- `table.dfy` (`Table`): the frame's rows, date normalisation (line 13), the drop (line 14), and
  the per-user repair (lines 17-20).
- `hourly.dfy` (`Hourly`): hour buckets and means (line 24), and the final pass (line 27).
- `preprocess.dfy` (`Preprocess`): the frames as classes whose methods overwrite their rows, the
  method `PreprocessAndResample`, and end-to-end lemmas about the whole pipeline.

Notes on how the code behaves, which the model follows:

- Line 13 writes into the caller's frame, so the caller sees its Date column parsed.
  `dropna` on line 14 returns a copy, so lines 18-27 never touch the caller's frame.
  `PreprocessAndResample` states both facts.
- Missing values are filled by row position within a user, in file order. Timestamps play no part.
  Rows are not sorted by date first.
- pandas' linear interpolation uses its default forward limit direction. Interior gaps are
  interpolated; cells after a column's last present value take that value; cells before its
  first present value stay missing. So the `ffill()` after `interpolate` never changes anything
  (`GapFill.ForwardFillIdleAfterInterpolate`).
- After the repair, a user's column is either complete or missing throughout. An hour with no
  readings is missing after resampling. For a user with data in the column, the user's first and
  last hours always hold means (`Hourly.FirstHourPresent`, `Hourly.LastHourPresent`). So the final
  pass fills such an hour by position between the nearest earlier and later hours of the same
  user (`Preprocess.ResampledGapsInterpolatedWithinUser`), and no cell of that user stays missing
  (`Preprocess.PipelineNoGaps`).
- The final pass also runs across users. For a user whose column was missing throughout, an hour
  is filled exactly when a user above it in the table has a value (`Hourly.FinalPassCrossesUsers`).
  The value is interpolated between the nearest present cells above and below, whichever users
  they belong to (`Hourly.FinalPassBracketed`), or copies the last present cell above when none
  follows (`Hourly.FinalPassTrailing`). The code does this; the model does not change it.
- The function keeps no static or categorical columns: line 24 drops them. It fills no
  categorical sentinel, raises no schema errors and reports no count of dropped rows. It
  interpolates by row position, not by time. The resampled table keeps only User_ID, Date and
  the four numeric columns.

## Model

| member | source | states |
|---|---|---|
| `Table.Normalized` | main_app.py:13 | Only the Date column changes; text is replaced by its parse, NaT where parsing fails; a cell already holding an instant is kept; row count is unchanged |
| `Table.DropUnparsed` | main_app.py:14 | Every surviving row has a parsed date, and every survivor is a row of the input |
| `Table.DropKeepsParsedRowsInOrder` | main_app.py:14 | Every row whose date parsed survives, and two survivors keep their relative order |
| `GapFill.Interpolated` | main_app.py:19 | Linear interpolation keeps every present cell; afterwards a cell is present exactly when some cell at or before it was present |
| `GapFill.InterpolatedBracketed` | main_app.py:19 | A missing cell at i between present cells j and k becomes v_j + (v_k - v_j)(i - j)/(k - j), which lies between v_j and v_k |
| `GapFill.NearestKnown` | main_app.py:27 | A missing cell between two present cells has a nearest present cell on each side, with only missing cells between them |
| `GapFill.InterpolatedTrailing` | main_app.py:19 | Cells after the last present cell take the last present value |
| `GapFill.ForwardFilled` | main_app.py:19 | Forward fill keeps present cells; a cell is present afterwards exactly when some cell at or before it was |
| `GapFill.ForwardFilledTakesLast` | main_app.py:19 | Forward fill copies the last present cell at or before the position |
| `GapFill.BackwardFilled` | main_app.py:19 | Backward fill keeps present cells; a cell is present afterwards exactly when some cell at or after it was |
| `GapFill.BackwardFilledTakesNext` | main_app.py:19 | Backward fill copies the first present cell at or after the position |
| `GapFill.ForwardFillIdleAfterInterpolate` | main_app.py:19 | The forward fill that follows the interpolation changes nothing |
| `GapFill.Filled` | main_app.py:19 | Interpolate, ffill, bfill: present cells are kept; the result has no missing cell when the column had a present value, and an all-missing column is returned unchanged |
| `GapFill.FilledLeading` | main_app.py:19 | Leading gaps take the first present value |
| `GapFill.FilledTrailing` | main_app.py:19 | Trailing gaps take the last present value |
| `GapFill.FilledBracketed` | main_app.py:19 | Interior gaps are filled by positional linear interpolation, within the bracketing values |
| `Table.UserRows` | main_app.py:18 | A user's group holds rows of the frame with that User_ID only |
| `Table.RepairGroup` | main_app.py:19 | Repairing a group keeps its size and changes only the numeric columns of each row |
| `Table.GapRepaired` | main_app.py:18-20 | The repair keeps row count, row order, User_ID, Date and the other columns; only the numeric columns change |
| `Table.GapRepairedPerUser` | main_app.py:18-20 | One user's rows in the repaired frame are exactly the repair of that user's rows taken alone |
| `Table.GapRepairIsolated` | main_app.py:18-20 | A user's repaired rows do not depend on any other user's rows |
| `Table.GapRepairKeepsKnown` | main_app.py:18-20 | The repair never changes a value that was present |
| `Table.GapRepairComplete` | main_app.py:19 | After the repair a cell is present exactly when its user had a present value in that column |
| `Table.GapRepairInterpolatesByPosition` | main_app.py:19 | Within a user, a gap is filled by the user's row positions in file order, between the bracketing values |
| `Hourly.HourFloor` | main_app.py:24 | The bucket label is a multiple of 3600 and the instant lies in [label, label + 3600) |
| `Hourly.BucketValues` | main_app.py:24 | Every value in a bucket comes from a reading whose hour floor is the bucket label, and every present value of such a reading is in the bucket |
| `Hourly.BucketCount` | main_app.py:24 | A bucket holds one value per reading of that hour with the column present, so repeated values are counted as often as they occur |
| `Hourly.BucketSum` | main_app.py:24 | A bucket's values add up to the column's sum over that hour's readings where it is present |
| `Hourly.Mean` | main_app.py:24 | The mean is missing exactly when there is no value to average |
| `Hourly.MeanBounded` | main_app.py:24 | A mean lies between any lower and upper bound of its values |
| `Hourly.ResampleUser` | main_app.py:24 | A user's hours run from the floor of the earliest reading to the floor of the latest, inclusive, in steps of exactly 3600 s |
| `Hourly.ReadingInOneBucket` | main_app.py:24 | Every reading falls in exactly one hour of its user's grid, the one labelled by its hour floor |
| `Hourly.BucketMissingIff` | main_app.py:24 | An hour is missing exactly when none of its readings has the column present, for example when the hour is empty |
| `Hourly.HourMeanIsAverage` | main_app.py:24 | An hour's value is the sum of the column over that hour's readings where it is present, divided by their number; missing when there are none |
| `Hourly.FirstHourPresent` | main_app.py:24 | When every reading of a user has the column present, the user's first hour holds a mean |
| `Hourly.LastHourPresent` | main_app.py:24 | When every reading of a user has the column present, the user's last hour holds a mean |
| `Hourly.BucketMeanBounded` | main_app.py:24 | An hour's value lies between the minimum and maximum of the present readings in it |
| `Hourly.SingleReadingOneRow` | main_app.py:24 | A user with one reading gets exactly one row, holding that reading's values |
| `Hourly.SortedDistinct` | main_app.py:24 | Groups are visited once each, in ascending User_ID order |
| `Hourly.Resampled` | main_app.py:23-24 | The resampled table has the four numeric columns, and only users of the input |
| `Hourly.ResampledOrdered` | main_app.py:24 | Rows are ordered by User_ID, then hour, and no hour is skipped within a user |
| `Hourly.ResampledPerUser` | main_app.py:24 | The rows of a user in the resampled table are exactly that user's hourly grid |
| `Hourly.ResampledCoversUser` | main_app.py:24 | Every user of the frame has a row in the resampled table |
| `Hourly.FinalPass` | main_app.py:27 | The final pass keeps every row's user and hour, and every present cell |
| `Hourly.FinalPassKeepsGrid` | main_app.py:27 | The final pass keeps the ordering by user and hour |
| `Hourly.FinalPassKnownIff` | main_app.py:27 | After the final pass a cell is present exactly when some cell at or above it in its column was present; leading cells stay missing |
| `Hourly.FinalPassBracketed` | main_app.py:27 | A gap between present cells is filled by positional interpolation across the whole table |
| `Hourly.FinalPassTrailing` | main_app.py:27 | Trailing missing cells take the last present value of the column |
| `Hourly.ResampledGapBracketed` | main_app.py:24 | For a user whose readings all have the column present, a missing hour lies between two hours of the same user that hold means, with only missing hours between them |
| `Hourly.GapBracketed` | main_app.py:24 | In the resampled ordering, a missing cell between two present cells of one user has a nearest present cell on each side, both of that user |
| `Hourly.SameUserBetween` | main_app.py:24 | In the resampled ordering, every row between two rows of one user belongs to that user |
| `Hourly.GridUsersAscend` | main_app.py:24 | In the resampled ordering, User_IDs never decrease down the table |
| `Hourly.FinalPassCrossesUsers` | main_app.py:27 | For a user whose column is missing in all its hours, an hour is filled by the final pass exactly when some user with a smaller User_ID has a present value in that column |
| `Hourly.EarlierKnownIsOtherUser` | main_app.py:27 | For such a user, any present cell at or above one of its hours belongs to a user with a smaller User_ID |
| `Hourly.FinalPassCrossesUsersExample` | main_app.py:27 | For example, a lone missing hour between two users' known hours gets their midpoint |
| `Preprocess.Pipeline` | main_app.py:8-29 | The returned table has the four numeric columns and is ordered by user and then hour, with no hour skipped |
| `Preprocess.Frame.ParseDates` | main_app.py:13 | The frame's Date column is overwritten with its parsed form |
| `Preprocess.Frame.DropNaT` | main_app.py:14 | A new frame holding the rows whose date parsed; this frame is unchanged |
| `Preprocess.Frame.RepairGaps` | main_app.py:18-20 | The frame's numeric columns are overwritten with the per-user repair |
| `Preprocess.Frame.ResampleHourly` | main_app.py:23-24 | A new frame holding the hourly table |
| `Preprocess.HourlyFrame.InterpolateGaps` | main_app.py:27 | The frame's numeric columns are overwritten with the final pass |
| `Preprocess.PreprocessAndResample` | main_app.py:8-29 | The caller's frame has its dates parsed; the result is a new frame holding the pipeline's table, ordered by user and hour |
| `Preprocess.ResampledNoGapsForUsersWithData` | main_app.py:17-27 | A user with a present value in a column has that column present in every one of its output rows |
| `Preprocess.ResampledGapsInterpolatedWithinUser` | main_app.py:17-27 | For a user with a present value in the column, an hour left empty by resampling lies between two hours of the same user holding means; the final pass gives it the positional interpolation between them |
| `Preprocess.PipelineNoGaps` | main_app.py:8-29 | End to end: a user with a parseable row where the column is present has no missing cell in that column in the output |
| `Preprocess.PipelineUsersParsed` | main_app.py:13-24 | Every output user has a row whose date parsed |
| `Preprocess.PipelineUsersPresent` | main_app.py:13-24 | Every user with a row whose date parsed appears in the output |

## Left out

- The Streamlit UI (`main`, every `st.*` call, page configuration, previews, metrics and the log
  dictionary, main_app.py:6 and 31-91): it is presentation over a framework the model cannot see.
- `pd.read_csv` (main_app.py:46): file I/O. The model starts from the frame's rows.
- pandas' day-first date parser and its format inference (main_app.py:13): this is the parameter
  `parse: string -> Option<int>`, with `None` for NaT. Instants are whole seconds, with no time
  zone, as in the code.
- Floating point: values are exact rationals, so rounding in the interpolation and the means is
  not modelled. A missing value is `None`, not IEEE NaN.
- User_ID is an integer that is always present. pandas drops rows with a missing group key from
  `groupby`; that case is not modelled.
- The frame always has the four numeric columns (`Table.WellFormed`). A missing column raises a
  `KeyError` in pandas; that error path is not modelled.
- Column data types (integer versus float after the mean) are not modelled. Only values are.
- pandas' extra interpolation options (limit, limit_area, limit_direction) are not used by the code
  and are not modelled. Only the defaults are.
