/**
 * The cached IPO table as the lookup sees it: named columns and rows of cells,
 * as `pd.read_csv` produces them.
 */
module DataTable {
  import opened Wrappers

  /** One cell of the table. A number is either equal to an integer (`Whole`)
      or not (`Frac`); `form` is the text `str()` gives for the number as it is
      stored in its column (`"100.0"` in a float column, `"100"` in an integer
      column), which this model does not compute. */
  datatype Cell =
    | Missing
    | Whole(value: int, form: string)
    | Frac(form: string)
    | Text(s: string)

  type Row = seq<Cell>

  datatype Frame = Frame(columns: seq<string>, rows: seq<Row>)

  /** What a parsed CSV always has: distinct column names (duplicates in the
      header get renamed on parsing) and one cell per column in every row. */
  predicate WellFormed(f: Frame) {
    && (forall i, j :: 0 <= i < j < |f.columns| ==> f.columns[i] != f.columns[j])
    && (forall r :: r in f.rows ==> |r| == |f.columns|)
  }

  type Table = f: Frame | WellFormed(f) witness Frame([], [])

  /** The column the symbol endpoint matches against. */
  const SymbolColumn: string := "Symbol"

  /** The string form of a cell (`.astype(str)`): text is itself, a missing
      cell prints as `"nan"`, a number as its `form`. */
  function CellText(c: Cell): (r: string)
    ensures c.Text? ==> r == c.s
    ensures c.Missing? ==> r == "nan"
    ensures c.Whole? || c.Frac? ==> r == c.form
  {
    match c
    case Missing => "nan"
    case Whole(_, form) => form
    case Frac(form) => form
    case Text(s) => s
  }

  /** Position of a column by name (`df[name]`); `None` is the `KeyError`. */
  function IndexOf(columns: seq<string>, name: string): (r: Option<nat>)
    ensures r.Some? ==> r.value < |columns| && columns[r.value] == name
    ensures r.None? <==> name !in columns
  {
    if columns == [] then None
    else if columns[0] == name then Some(0)
    else match IndexOf(columns[1..], name)
      case None => None
      case Some(i) => Some(i + 1)
  }
}
