/** The metrics calculator of the "Report Baking" page (test.py, `report_baking`):
    the date filter, the IN/OUT panel and pallet counts, the paired-box counts and
    the model label, gathered into one snapshot per date range. */
module Metrics {
  import opened Records
  import opened Frames

  /** `pd.to_datetime` of a calendar date picked in the sidebar: midnight of that day. */
  function Midnight(day: int): (t: Timestamp)
    ensures t % NanosPerDay == 0 && t / NanosPerDay == day
  {
    day * NanosPerDay
  }

  /** The date condition of the filter: on or after `start` and on or before `end`; a NaT
      date fails both comparisons. */
  predicate InRange(d: Option<Timestamp>, start: Timestamp, end: Timestamp)
  {
    d.Some? && start <= d.value && d.value <= end
  }

  /** `filtered_data`: the rows dated within `[start, end]`, both ends included, in table order. */
  function FilterByDate(rows: seq<Record>, start: Timestamp, end: Timestamp): (view: seq<Record>)
    ensures SubsequenceOf(view, rows)
    ensures forall x :: x in view <==> x in rows && x.date.Some? && start <= x.date.value <= end
  {
    SelectSpec(rows, (x: Record) => InRange(x.date, start, end));
    Select(rows, (x: Record) => InRange(x.date, start, end))
  }

  /** The filter keeps every row in the range as many times as the table holds it and drops
      the others; with the order it keeps, this determines the view. */
  lemma FilterMultiplicity(rows: seq<Record>, start: Timestamp, end: Timestamp)
    ensures forall x :: multiset(FilterByDate(rows, start, end))[x]
                     == if InRange(x.date, start, end) then multiset(rows)[x] else 0
  {
    SelectSpec(rows, (x: Record) => InRange(x.date, start, end));
  }

  /** Filtering by a range inside another range is the same as filtering the wider view. */
  lemma {:induction false} FilterNarrowing(rows: seq<Record>, start: Timestamp, end: Timestamp, start': Timestamp, end': Timestamp)
    requires start' <= start && end <= end'
    ensures FilterByDate(FilterByDate(rows, start', end'), start, end) == FilterByDate(rows, start, end)
  {
    if rows != [] {
      FilterNarrowing(rows[1..], start, end, start', end');
    }
  }

  /** Filtering twice by the same range changes nothing. */
  lemma FilterIdempotent(rows: seq<Record>, start: Timestamp, end: Timestamp)
    ensures FilterByDate(FilterByDate(rows, start, end), start, end) == FilterByDate(rows, start, end)
  {
    FilterNarrowing(rows, start, end, start, end);
  }

  /** The filter returns the whole table exactly when every row is dated inside the range;
      in particular a single row with a NaT date makes it drop something. */
  lemma {:induction false} FilterKeepsAll(rows: seq<Record>, start: Timestamp, end: Timestamp)
    ensures FilterByDate(rows, start, end) == rows <==> forall x :: x in rows ==> InRange(x.date, start, end)
  {
    if rows != [] && forall x :: x in rows ==> InRange(x.date, start, end) {
      FilterKeepsAll(rows[1..], start, end);
      assert rows == [rows[0]] + rows[1..];
    }
  }

  /** The view is empty exactly when no row of the table is dated inside the range. */
  lemma EmptyRange(rows: seq<Record>, start: Timestamp, end: Timestamp)
    ensures FilterByDate(rows, start, end) == [] <==> forall x :: x in rows ==> !InRange(x.date, start, end)
  {
    var view := FilterByDate(rows, start, end);
    if view != [] {
      assert view[0] in view;
    }
  }

  /** The rows of the view whose status cell equals `status`, in view order; a missing
      status matches nothing. */
  function StatusRows(view: seq<Record>, status: string): (r: seq<Record>)
  {
    Select(view, (x: Record) => StatusOf(x) == Some(status))
  }

  /** The number of rows with a status is how often it occurs in the `Status` column. */
  lemma {:induction false} StatusRowsCount(view: seq<Record>, status: string)
    ensures |StatusRows(view, status)| == multiset(Column(view, StatusOf))[Some(status)]
  {
    if view != [] {
      StatusRowsCount(view[1..], status);
      assert Column(view, StatusOf) == [StatusOf(view[0])] + Column(view[1..], StatusOf);
    }
  }

  /** No row is counted under two different statuses. */
  lemma {:induction false} StatusRowsDisjoint(view: seq<Record>, s1: string, s2: string)
    requires s1 != s2
    ensures |StatusRows(view, s1)| + |StatusRows(view, s2)| <= |view|
  {
    if view != [] {
      StatusRowsDisjoint(view[1..], s1, s2);
    }
  }

  /** No row counts both as entering and as leaving: together they are at most the view. */
  lemma InOutDisjoint(view: seq<Record>)
    ensures PanelCount(view, StatusIn) / BatchSize + PanelCount(view, StatusOut) / BatchSize <= |view|
  {
    StatusRowsDisjoint(view, StatusIn, StatusOut);
    StatusRowsCount(view, StatusIn);
    StatusRowsCount(view, StatusOut);
    BatchMultiple(|StatusRows(view, StatusIn)|);
    BatchMultiple(|StatusRows(view, StatusOut)|);
  }

  /** `entering_baking_room` / `out_baking_room`: 20 panels per row with the given status,
      0 on an empty view. */
  function PanelCount(view: seq<Record>, status: string): (r: nat)
    ensures r % BatchSize == 0
    ensures r == multiset(Column(view, StatusOf))[Some(status)] * BatchSize
  {
    StatusRowsCount(view, status);
    BatchMultiple(|StatusRows(view, status)|);
    if |view| == 0 then 0 else |StatusRows(view, status)| * BatchSize
  }

  /** The pallets of the status rows are the pallets of the view's rows with that status. */
  lemma StatusPallets(view: seq<Record>, status: string)
    ensures DistinctOf(StatusRows(view, status), PalletOf)
         == set x | x in view && x.status == Some(status) && x.pallet.Some? :: x.pallet.value
    ensures (exists x :: x in view && x.status == Some(status) && x.pallet.Some?) ==>
              |DistinctOf(StatusRows(view, status), PalletOf)| >= 1
  {
    var rows := StatusRows(view, status);
    SelectSpec(view, (x: Record) => StatusOf(x) == Some(status));
    StatusPalletsSubset(view, status);
    StatusPalletsSuperset(view, status);
    if exists x :: x in view && x.status == Some(status) && x.pallet.Some? {
      var x :| x in view && x.status == Some(status) && x.pallet.Some?;
      DistinctOfNonEmpty(rows, PalletOf, x);
    }
  }

  lemma StatusPalletsSubset(view: seq<Record>, status: string)
    ensures DistinctOf(StatusRows(view, status), PalletOf)
         <= set x | x in view && x.status == Some(status) && x.pallet.Some? :: x.pallet.value
  {
    var rows := StatusRows(view, status);
    SelectSpec(view, (x: Record) => StatusOf(x) == Some(status));
    forall v | v in DistinctOf(rows, PalletOf)
      ensures v in set x | x in view && x.status == Some(status) && x.pallet.Some? :: x.pallet.value
    {
      var x :| x in rows && PalletOf(x).Some? && PalletOf(x).value == v;
      assert x in view && x.status == Some(status);
    }
  }

  lemma StatusPalletsSuperset(view: seq<Record>, status: string)
    ensures (set x | x in view && x.status == Some(status) && x.pallet.Some? :: x.pallet.value)
         <= DistinctOf(StatusRows(view, status), PalletOf)
  {
    var rows := StatusRows(view, status);
    SelectSpec(view, (x: Record) => StatusOf(x) == Some(status));
    forall v | v in set x | x in view && x.status == Some(status) && x.pallet.Some? :: x.pallet.value
      ensures v in DistinctOf(rows, PalletOf)
    {
      var x :| x in view && x.status == Some(status) && x.pallet.Some? && x.pallet.value == v;
      assert x in rows;
    }
  }

  /** `in_pallete` / `out_pallete`: the distinct pallet IDs among the rows with the given
      status, 0 on an empty view. */
  function PalletCount(view: seq<Record>, status: string): (r: nat)
    ensures r == |set x | x in view && x.status == Some(status) && x.pallet.Some? :: x.pallet.value|
    ensures r <= PanelCount(view, status) / BatchSize
    ensures (exists x :: x in view && x.status == Some(status) && x.pallet.Some?) ==> r >= 1
  {
    var rows := StatusRows(view, status);
    DistinctOfBound(rows, PalletOf);
    BatchMultiple(|rows|);
    StatusPallets(view, status);
    if |view| == 0 then 0 else |DistinctOf(rows, PalletOf)|
  }

  /** `on_progress` (over the filtered view) and `total_baked` (over the whole table):
      20 per distinct box ID found in more than one row, whatever the rows' status. */
  function PairedBoxCount(rows: seq<Record>): (r: nat)
    ensures r % BatchSize == 0
    ensures r == |RepeatedBoxIds(rows)| * BatchSize
  {
    PairedRowsDistinctBoxes(rows);
    BatchMultiple(|RepeatedBoxIds(rows)|);
    if |rows| == 0 then 0 else |DistinctOf(PairedRows(rows), BoxOf)| * BatchSize
  }

  /** There are never more paired boxes than rows: the count divided by 20 is at most the
      number of rows it is computed over. */
  lemma PairedBoxBound(rows: seq<Record>)
    ensures PairedBoxCount(rows) / BatchSize <= |rows|
  {
    PairedRowsDistinctBoxes(rows);
    DistinctOfBound(PairedRows(rows), BoxOf);
    BatchMultiple(|RepeatedBoxIds(rows)|);
  }

  /** A sub-sequence of the rows never shows more paired boxes than the rows themselves. */
  lemma PairedBoxCountOfSubsequence(a: seq<Record>, b: seq<Record>)
    requires SubsequenceOf(a, b)
    ensures PairedBoxCount(a) <= PairedBoxCount(b)
  {
    RepeatedBoxIdsOfSubsequence(a, b);
  }

  /** `on_progress` never exceeds `total_baked`, whatever the date range. */
  lemma OnProgressAtMostTotal(rows: seq<Record>, start: Timestamp, end: Timestamp)
    ensures PairedBoxCount(FilterByDate(rows, start, end)) <= PairedBoxCount(rows)
  {
    PairedBoxCountOfSubsequence(FilterByDate(rows, start, end), rows);
  }

  /** Widening the date range never lowers `on_progress`. */
  lemma OnProgressMonotone(rows: seq<Record>, start: Timestamp, end: Timestamp, start': Timestamp, end': Timestamp)
    requires start' <= start && end <= end'
    ensures PairedBoxCount(FilterByDate(rows, start, end)) <= PairedBoxCount(FilterByDate(rows, start', end'))
  {
    var wide := FilterByDate(rows, start', end');
    FilterNarrowing(rows, start, end, start', end');
    PairedBoxCountOfSubsequence(FilterByDate(wide, start, end), wide);
  }

  /** `model_value`: the `model` cell of the first row of the view when the view is not
      empty and the column exists, otherwise "N/A". */
  function ModelLabel(view: seq<Record>, hasModel: bool): (r: string)
    ensures view == [] || !hasModel ==> r == NotAvailable
    ensures view != [] && hasModel ==> r == view[0].model
  {
    if |view| == 0 then NotAvailable
    else if hasModel then view[0].model
    else NotAvailable
  }

  /** The label of a filtered view is the model of the earliest row of the table that lies in
      the range: the filter keeps the table's order. */
  lemma ModelLabelOfFirstInRange(t: Table, start: Timestamp, end: Timestamp, i: nat)
    requires t.hasModel && i < |t.rows| && InRange(t.rows[i].date, start, end)
    requires forall j :: 0 <= j < i ==> !InRange(t.rows[j].date, start, end)
    ensures ModelLabel(FilterByDate(t.rows, start, end), t.hasModel) == t.rows[i].model
  {
    SelectFirst(t.rows, (x: Record) => InRange(x.date, start, end), i);
  }

  /** The label is "N/A" when the table has no model column or no row is dated in the range. */
  lemma ModelLabelNotAvailable(t: Table, start: Timestamp, end: Timestamp)
    requires !t.hasModel || forall x :: x in t.rows ==> !InRange(x.date, start, end)
    ensures ModelLabel(FilterByDate(t.rows, start, end), t.hasModel) == NotAvailable
  {
    EmptyRange(t.rows, start, end);
  }

  /** Everything the "Report Baking" page shows that is not a constant or a float. */
  datatype Snapshot = Snapshot(
    model: string,
    entering: nat,
    exiting: nat,
    inPallets: nat,
    outPallets: nat,
    onProgress: nat,
    totalBaked: nat)

  /** `report_baking`'s metric computation for the dates picked as `startDay` and `endDay`
      (days since the epoch).  A row stamped after midnight on `endDay` is not in the view. */
  function ReportBaking(t: Table, startDay: int, endDay: int): (s: Snapshot)
    ensures s.entering % BatchSize == 0 && s.exiting % BatchSize == 0
    ensures s.onProgress % BatchSize == 0 && s.totalBaked % BatchSize == 0
    ensures s.entering / BatchSize + s.exiting / BatchSize
         <= |FilterByDate(t.rows, Midnight(startDay), Midnight(endDay))|
    ensures s.inPallets <= s.entering / BatchSize && s.outPallets <= s.exiting / BatchSize
    ensures s.onProgress <= s.totalBaked
    ensures s.onProgress / BatchSize <= |FilterByDate(t.rows, Midnight(startDay), Midnight(endDay))|
    ensures s.totalBaked / BatchSize <= |t.rows|
    ensures s.totalBaked == |RepeatedBoxIds(t.rows)| * BatchSize
    ensures (forall x :: x in t.rows ==> !InRange(x.date, Midnight(startDay), Midnight(endDay))) ==>
              s.entering == 0 && s.exiting == 0 && s.inPallets == 0 && s.outPallets == 0
              && s.onProgress == 0 && s.model == NotAvailable
  {
    var view := FilterByDate(t.rows, Midnight(startDay), Midnight(endDay));
    InOutDisjoint(view);
    OnProgressAtMostTotal(t.rows, Midnight(startDay), Midnight(endDay));
    EmptyRange(t.rows, Midnight(startDay), Midnight(endDay));
    PairedBoxBound(view);
    PairedBoxBound(t.rows);
    Snapshot(
      ModelLabel(view, t.hasModel),
      PanelCount(view, StatusIn),
      PanelCount(view, StatusOut),
      PalletCount(view, StatusIn),
      PalletCount(view, StatusOut),
      PairedBoxCount(view),
      if |t.rows| == 0 then 0 else PairedBoxCount(t.rows))
  }

  /** `total_baked` depends on the table only, never on the date range. */
  lemma TotalBakedIgnoresRange(t: Table, startDay: int, endDay: int, startDay': int, endDay': int)
    ensures ReportBaking(t, startDay, endDay).totalBaked == ReportBaking(t, startDay', endDay').totalBaked
  {
  }

  /** An empty dataset renders every count as 0 and the model as "N/A". */
  lemma EmptyDataset(hasModel: bool, startDay: int, endDay: int)
    ensures ReportBaking(Table([], hasModel), startDay, endDay)
         == Snapshot(NotAvailable, 0, 0, 0, 0, 0, 0)
  {
  }

  /** Each field of the snapshot through the reference definitions of its metric, over the
      view of the range (`totalBaked` is described by ReportBaking's own contract). */
  lemma ReportBakingFields(t: Table, startDay: int, endDay: int)
    ensures var view := FilterByDate(t.rows, Midnight(startDay), Midnight(endDay));
      var s := ReportBaking(t, startDay, endDay);
      && s.entering == multiset(Column(view, StatusOf))[Some(StatusIn)] * BatchSize
      && s.exiting == multiset(Column(view, StatusOf))[Some(StatusOut)] * BatchSize
      && s.inPallets == |set x | x in view && x.status == Some(StatusIn) && x.pallet.Some? :: x.pallet.value|
      && s.outPallets == |set x | x in view && x.status == Some(StatusOut) && x.pallet.Some? :: x.pallet.value|
      && s.onProgress == |RepeatedBoxIds(view)| * BatchSize
      && s.model == if view != [] && t.hasModel then view[0].model else NotAvailable
  {
  }

  /** The rows of the worked example: a box scanned IN and OUT on one pallet at midnight of
      `day`, and another box scanned IN on the next day. */
  predicate PairedScan(inScan: Record, outScan: Record, later: Record, day: int)
  {
    && inScan.date == Some(Midnight(day)) && outScan.date == inScan.date
    && later.date == Some(Midnight(day + 1))
    && inScan.status == Some(StatusIn) && outScan.status == Some(StatusOut)
    && inScan.pallet.Some? && outScan.pallet == inScan.pallet
    && inScan.box.Some? && outScan.box == inScan.box
    && later.box.Some? && later.box != inScan.box
  }

  lemma PairedScanView(inScan: Record, outScan: Record, later: Record, day: int)
    requires PairedScan(inScan, outScan, later, day)
    ensures FilterByDate([inScan, outScan, later], Midnight(day), Midnight(day)) == [inScan, outScan]
  {
    var inDay := (x: Record) => InRange(x.date, Midnight(day), Midnight(day));
    assert !inDay(later) && inDay(outScan) && inDay(inScan);
    SelectCons(later, [], inDay);
    SelectCons(outScan, [later], inDay);
    SelectCons(inScan, [outScan, later], inDay);
    assert [inScan, outScan, later] == [inScan] + [outScan, later];
  }

  lemma PairedScanStatusRows(inScan: Record, outScan: Record, later: Record, day: int)
    requires PairedScan(inScan, outScan, later, day)
    ensures StatusRows([inScan, outScan], StatusIn) == [inScan]
    ensures StatusRows([inScan, outScan], StatusOut) == [outScan]
  {
    var isIn := (x: Record) => StatusOf(x) == Some(StatusIn);
    var isOut := (x: Record) => StatusOf(x) == Some(StatusOut);
    assert [inScan, outScan] == [inScan] + [outScan];
    SelectCons(outScan, [], isIn);
    SelectCons(inScan, [outScan], isIn);
    SelectCons(outScan, [], isOut);
    SelectCons(inScan, [outScan], isOut);
  }

  lemma PairedScanPanels(inScan: Record, outScan: Record, later: Record, day: int)
    requires PairedScan(inScan, outScan, later, day)
    ensures PanelCount([inScan, outScan], StatusIn) == 20
    ensures PanelCount([inScan, outScan], StatusOut) == 20
    ensures PalletCount([inScan, outScan], StatusIn) == 1
    ensures PalletCount([inScan, outScan], StatusOut) == 1
  {
    PairedScanStatusRows(inScan, outScan, later, day);
    DistinctOfSingle(inScan, PalletOf);
    DistinctOfSingle(outScan, PalletOf);
  }

  lemma PairedScanTotal(inScan: Record, outScan: Record, later: Record, day: int)
    requires PairedScan(inScan, outScan, later, day)
    ensures PairedBoxCount([inScan, outScan, later]) == 20
  {
    var rows := [inScan, outScan, later];
    var v, w := inScan.box.value, later.box.value;
    var col := Column(rows, BoxOf);
    assert col == [Some(v), Some(v), Some(w)];
    assert multiset(col) == multiset{Some(v), Some(v), Some(w)};
    forall u ensures u in RepeatedBoxIds(rows) <==> u == v {
      RepeatedBoxIdsMember(rows, u);
    }
    assert RepeatedBoxIds(rows) == {v};
  }

  /** The worked example, viewed for `day` only: 20 panels in and 20 out on one pallet, one
      box paired in the view, and over the whole table still only that box paired. */
  lemma PairedScanScenario(inScan: Record, outScan: Record, later: Record, day: int)
    requires PairedScan(inScan, outScan, later, day)
    ensures ReportBaking(Table([inScan, outScan, later], true), day, day)
         == Snapshot(inScan.model, 20, 20, 1, 1, 20, 20)
  {
    PairedScanView(inScan, outScan, later, day);
    PairedScanPanels(inScan, outScan, later, day);
    PairedScanTotal(inScan, outScan, later, day);
    OneBoxManyScans([inScan, outScan], inScan.box.value);
    ReportBakingFields(Table([inScan, outScan, later], true), day, day);
  }

  /** The same example with the dates and IDs of the dashboard's first day, 2024-12-12
      (day 20069 since the epoch). */
  lemma PairedScanOnDec12()
    ensures var day := 20069;
      ReportBaking(Table([Record(Some(Midnight(day)), Some("IN"), Some("P1"), Some("B1"), "M"),
                          Record(Some(Midnight(day)), Some("OUT"), Some("P1"), Some("B1"), "M"),
                          Record(Some(Midnight(day + 1)), Some("IN"), Some("P2"), Some("B2"), "M")], true),
                   day, day)
      == Snapshot("M", 20, 20, 1, 1, 20, 20)
  {
    var day := 20069;
    PairedScanScenario(Record(Some(Midnight(day)), Some("IN"), Some("P1"), Some("B1"), "M"),
                       Record(Some(Midnight(day)), Some("OUT"), Some("P1"), Some("B1"), "M"),
                       Record(Some(Midnight(day + 1)), Some("IN"), Some("P2"), Some("B2"), "M"), day);
  }

  lemma OtherBoxAbsent(rows: seq<Record>, v: string, w: string)
    requires forall x :: x in rows ==> x.box == Some(v)
    requires w != v
    ensures w !in RepeatedBoxIds(rows)
  {
    var col := Column(rows, BoxOf);
    forall i | 0 <= i < |col| ensures col[i] != Some(w) {
      assert rows[i] in rows;
    }
    assert Some(w) !in col;
    RepeatedBoxIdsMember(rows, w);
  }

  lemma SameBoxRepeated(rows: seq<Record>, v: string)
    requires |rows| >= 2
    requires forall x :: x in rows ==> x.box == Some(v)
    ensures RepeatedBoxIds(rows) == {v}
  {
    SameBoxCount(rows, v);
    RepeatedBoxIdsMember(rows, v);
    forall w | w in RepeatedBoxIds(rows) ensures w == v {
      if w != v {
        OtherBoxAbsent(rows, v, w);
      }
    }
  }

  /** Rows that all carry the same box ID count as one paired box however many there are:
      a box scanned three times contributes 20 panels, not 60. */
  lemma OneBoxManyScans(rows: seq<Record>, v: string)
    requires |rows| >= 2
    requires forall x :: x in rows ==> x.box == Some(v)
    ensures PairedBoxCount(rows) == BatchSize
  {
    SameBoxRepeated(rows, v);
  }
}
