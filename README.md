# Baking dashboard metrics

A model of the metrics calculator of the "Report Baking" page of the `mivt_baking`
Streamlit dashboard (`report_baking` in `test.py`), together with its nested
`format_number` helper.

The dashboard loads a table of scan events, one per row. Each row has:

- a `Date`;
- a `Status` (`"IN"` or `"OUT"` of the baking room);
- an `ID pallete`;
- an `ID box`;
- optionally, a `model`.

For the calendar range picked in the sidebar, the page computes:

- the rows dated in the range;
- the panels entering and leaving, at 20 panels per scan row;
- the distinct pallets in each direction;
- `on_progress`: the box IDs scanned more than once inside the range, at 20 panels each;
- `total_baked`: the same rule over the whole table;
- the model label.

It then renders the numbers with `.` as the thousands separator.

The project has four modules:

- `records.dfy` (`Records`): the row type and the constants. A missing cell is `None`: pandas' NaN, or NaT for an unparsable date. Dates are nanosecond timestamps, as pandas holds them.
- `frames.dfy` (`Frames`): the pandas operations the page relies on, as functions over a sequence of rows:
  - boolean-mask selection;
  - a column;
  - `nunique()`, which drops missing cells;
  - `duplicated(keep=False)`, where missing cells compare equal to each other, as in pandas.

  Each operation has its characterising lemmas.
- `metrics.dfy` (`Metrics`): the date filter, each metric, and the whole snapshot `ReportBaking`. It also holds the lemmas relating the metrics to one another and to the date range, and a worked example.
- `formatting.dfy` (`Formatting`): `format_number` on whole numbers. This covers the decimal rendering, grouping by three from the right, and replacing `,` by `.`, with the shape and round-trip properties of the result.

A picked date becomes `pd.to_datetime(date)`, midnight of that day. The filter compares timestamps literally. So a row stamped later on the end day falls outside the view, exactly as in the code.

## Model

| member | source | states |
|---|---|---|
| Metrics.Midnight | test.py:29-30 | a picked day becomes a timestamp at midnight, a whole number of days that gives the day back |
| Metrics.FilterByDate | test.py:33 | the view holds exactly the rows whose date is present and lies in `[start, end]`, both ends included, and is a sub-sequence of the table (order kept) |
| Metrics.FilterMultiplicity | test.py:33 | each in-range row is kept as many times as the table holds it; out-of-range and NaT rows are dropped |
| Metrics.FilterNarrowing | test.py:33 | filtering the view of a wider range by a narrower one gives the view of the narrower range |
| Metrics.FilterIdempotent | test.py:33 | filtering a view again by the same range changes nothing |
| Metrics.FilterKeepsAll | test.py:33 | the filter returns the whole table exactly when every row has a date and it lies in range, so a NaT date always drops its row |
| Metrics.EmptyRange | test.py:33 | the view is empty exactly when no row of the table is dated in the range |
| Metrics.StatusRowsCount | test.py:54 | the rows selected by `Status == status` are as many as that status occurs in the column; missing statuses never match |
| Metrics.StatusRowsDisjoint | test.py:54-60 | rows selected for two different statuses together number at most the view |
| Metrics.InOutDisjoint | test.py:54-60 | `entering/20 + exiting/20` is at most the number of rows in the view |
| Metrics.PanelCount | test.py:47-60 | the panel count is 20 times the number of view rows with that status: a multiple of 20, and 0 on an empty view |
| Metrics.StatusPallets | test.py:63-66 | the distinct pallets of the status rows are the pallet IDs of view rows with that status; a pallet ID present there makes the count at least 1 |
| Metrics.PalletCount | test.py:62-66 | the pallet count is the number of distinct present pallet IDs among rows with that status, at most the panel count divided by 20, and at least 1 when such a row exists |
| Metrics.PairedBoxCount | test.py:74-83 | `on_progress`/`total_baked` is 20 times the number of distinct box IDs that occur in at least two rows, whatever their status |
| Frames.PairedRowsDistinctBoxes | test.py:76-77 | the distinct box IDs of the rows that `duplicated(keep=False)` marks are exactly the box IDs occurring more than once |
| Frames.RepeatedBoxIdsMember | test.py:76 | a box ID counts as repeated exactly when it occurs more than once in the column |
| Metrics.OneBoxManyScans | test.py:77 | any number (two or more) of rows with the same box ID yields 20 panels, so a box seen three times counts 20, not 60 |
| Metrics.OtherBoxAbsent | test.py:76 | when every row carries box `v`, no other box ID is repeated |
| Metrics.PairedBoxBound | test.py:77 | the paired-box count divided by 20 is at most the number of rows it is counted over |
| Metrics.PairedBoxCountOfSubsequence | test.py:76-83 | dropping rows never raises the paired-box count |
| Metrics.OnProgressAtMostTotal | test.py:76-83 | `on_progress <= total_baked` for every date range |
| Metrics.OnProgressMonotone | test.py:33 | widening the date range never lowers `on_progress` |
| Frames.RepeatedBoxIdsOfSubsequence | test.py:82 | a box repeated in a sub-sequence is repeated in the full table |
| Metrics.ModelLabelNotAvailable | test.py:69 | the label is "N/A" when the table has no model column or no row is dated in the range |
| Metrics.ModelLabelOfFirstInRange | test.py:74-75 | the label is the model of the earliest table row dated in the range |
| Metrics.ReportBaking | test.py:46-83 | the snapshot meets all of these: multiples of 20; IN and OUT disjoint; pallets bounded by rows; paired boxes bounded by the rows they are counted over; `on_progress <= total_baked`; `total_baked` is the repeated boxes of the whole table; with no row in range every view metric is 0 and the model is "N/A" |
| Metrics.TotalBakedIgnoresRange | test.py:79-83 | `total_baked` is the same for every date range |
| Metrics.EmptyDataset | test.py:80-81 | an empty table shows "N/A" and every count as 0 |
| Metrics.ReportBakingFields | test.py:47-77 | each view field of the snapshot through its reference definition: panels are 20 times the occurrences of the status in the view, pallets the number of distinct present pallet IDs of the rows with that status, `on_progress` 20 times the number of box IDs repeated in the view, the model the first view row's `model` when the view is non-empty and the column exists, else "N/A" |
| Metrics.PairedScanScenario | test.py:53-83 | a box scanned IN and OUT on one pallet on the viewed day, plus a box scanned on the next day: 20 in, 20 out, 1 pallet each way, 20 in progress, 20 baked |
| Metrics.PairedScanOnDec12 | test.py:25 | the same example on 2024-12-12, the page's default start date |
| Formatting.Decimal | test.py:90 | the rendering is a non-empty digit string without a leading zero (just "0" for 0) |
| Formatting.DecimalRoundTrip | test.py:90 | parsing the decimal rendering of `n` gives `n` |
| Formatting.ReplaceSeparator | test.py:90 | grouping with `,` and then replacing `,` by `.` equals grouping with `.` |
| Formatting.UngroupThousands | test.py:90 | removing the separators from a grouped digit string gives the digits back |
| Formatting.GroupShape | test.py:90 | after grouping, the first group has 1 to 3 digits, starting with the first digit, and every later group has exactly 3 |
| Formatting.FormatNumberShape | test.py:89-90 | `format_number(n)`: dot-separated groups, the first of 1–3 digits with no leading zero unless `n == 0`, the rest of exactly 3; removing the dots gives the decimal rendering of `n`, which parses back to `n` |
| Formatting.TargetDisplay | test.py:104 | the target of 25000 panels is displayed as "25.000" |

On a range with no rows, the view metrics are 0 and the model is "N/A". `total_baked` comes from the whole table (test.py:80-83), so it need not be 0 then.

- `ReportBaking`'s empty-range clause leaves `totalBaked` out.
- `EmptyDataset` gives 0 for an empty table.
- `TotalBakedIgnoresRange` shows that the range never affects `totalBaked`.

## Left out

- Streamlit rendering is not modelled: titles, metrics, columns, the sidebar, the logo, the page radio and `main` (test.py:13-22, 93-143). It is presentation only.
- The min_value bound of the start-date picker is not modelled. It is a UI constraint; any day can be passed to `ReportBaking`.
- Reading the spreadsheet with `pd.read_excel` (test.py:5) and the download button reading a fixed file (test.py:36-44) are not modelled. Both are file I/O. The table is a parameter instead.
- `pd.to_datetime` parsing of cell strings and of "today" (test.py:8, 25-30) is library behaviour. Only its result is modelled: an optional timestamp per row, and a picked day turned into midnight.
- `total_percentage` and its `:.2f` display (test.py:86, 106) are not modelled. They are floating point, and the `target_baking > 0` guard holds trivially for the constant 25000.
- Formatting.FormatNumber: the model renders the integer exactly. Python's `.0f` first converts the integer to a float, so integers above 2^53 may print rounded. It also rounds non-integer inputs, and none reach it here.
- A NaN value in the `model` cell is not modelled. The model column is a plain string per row, with a table-level flag saying whether the column exists.
- The fixed shipment code "LDCWT" (test.py:97) is display content only.
