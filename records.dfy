/** The scan-event table of the baking dashboard and its business constants. */
module Records {

  /** A cell that may be missing: `None` is pandas' NaN (or NaT for a date). */
  datatype Option<+T> = None | Some(value: T)

  /** A parsed `Date` cell: nanoseconds since the epoch, as a pandas Timestamp holds it. */
  type Timestamp = int

  const NanosPerDay: int := 86_400_000_000_000

  /** One scan event, one row of the spreadsheet.
      `date` is `None` where parsing with `errors='coerce'` produced NaT;
      `status`, `pallet` and `box` are `None` where the cell is empty. */
  datatype Record = Record(
    date: Option<Timestamp>,
    status: Option<string>,
    pallet: Option<string>,
    box: Option<string>,
    model: string)

  /** The loaded dataset.  `hasModel` says whether the optional `model` column exists;
      when it does not, the `model` fields of the rows mean nothing. */
  datatype Table = Table(rows: seq<Record>, hasModel: bool)

  /** One scan row stands for this many physical panels. */
  const BatchSize: nat := 20

  /** The fixed baking target shown beside the total. */
  const TargetBaking: nat := 25000

  const StatusIn: string := "IN"
  const StatusOut: string := "OUT"

  /** The label shown when no model is available. */
  const NotAvailable: string := "N/A"

  /** A row count scaled to panels is a whole number of batches. */
  lemma BatchMultiple(n: nat)
    ensures (n * BatchSize) % BatchSize == 0 && (n * BatchSize) / BatchSize == n
  {
  }

  function StatusOf(x: Record): (status: Option<string>) { x.status }
  function PalletOf(x: Record): (pallet: Option<string>) { x.pallet }
  function BoxOf(x: Record): (box: Option<string>) { x.box }
}
