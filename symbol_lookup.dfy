/**
 * The symbol lookup of the IPO service: normalise the requested key, normalise
 * the `Symbol` column of a copy of the cached table, keep the rows whose
 * symbol equals the key, take the first, and render its cells as text.
 */
module SymbolLookup {
  import opened Wrappers
  import opened Strings
  import opened DataTable

  /** One entry of the returned record: a column name and its rendered value. */
  datatype Field = Field(column: string, value: string)

  /** What a symbol request can come to. `Unavailable` is the "Data not
      available" error (no table cached), `MissingSymbolColumn` the `KeyError`
      a table without a `Symbol` column raises, `NotFound` the "Symbol not
      found" error carrying the normalised key, `Found` the rendered record. */
  datatype Outcome =
    | Unavailable
    | MissingSymbolColumn
    | NotFound(symbol: string)
    | Found(record: seq<Field>)

  /** The placeholder for a missing value. */
  const NotAvailable: string := "N/A"

  /** Every row has a cell in column `c`. */
  predicate HasColumn(rows: seq<Row>, c: nat) {
    forall r :: r in rows ==> c < |r|
  }

  /** The normalised symbol of a row: its symbol cell as text, stripped and
      upper-cased. */
  function SymbolKey(row: Row, c: nat): string
    requires c < |row|
  {
    Normalize(CellText(row[c]))
  }

  /** One row of the copied table after its symbol cell is overwritten by the
      normalised text. */
  function NormalizeSymbol(row: Row, c: nat): (r: Row)
    requires c < |row|
    ensures |r| == |row| && r[c].Text? && IsNormal(r[c].s)
    ensures forall j :: 0 <= j < |row| && j != c ==> r[j] == row[j]
  {
    row[c := Text(SymbolKey(row, c))]
  }

  /** The rows of the copied table after the `Symbol` column is normalised. */
  function NormalizedRows(t: Table, c: nat): (rows: seq<Row>)
    requires c < |t.columns|
    ensures |rows| == |t.rows|
    ensures forall r :: r in rows ==> |r| == |t.columns|
  {
    seq(|t.rows|, i requires 0 <= i < |t.rows| => NormalizeSymbol(t.rows[i], c))
  }

  /** The rows whose cell in column `c` is exactly the text `key`, in table
      order (`df[df['Symbol'] == symbol]`). */
  function Filter(rows: seq<Row>, c: nat, key: string): (hits: seq<Row>)
    requires HasColumn(rows, c)
    ensures |hits| <= |rows|
    ensures forall r :: r in hits ==> r in rows && r[c] == Text(key)
  {
    if rows == [] then []
    else (if rows[0][c] == Text(key) then [rows[0]] else []) + Filter(rows[1..], c, key)
  }

  /** The normalised symbols of the rows, in table order. */
  function SymbolKeys(rows: seq<Row>, c: nat): (keys: seq<string>)
    requires HasColumn(rows, c)
    ensures |keys| == |rows|
  {
    seq(|rows|, i requires 0 <= i < |rows| => SymbolKey(rows[i], c))
  }

  /** The position of the first occurrence of `key`, or the length when there
      is none: the reference for "the first matching record in table order". */
  function FirstIndex(keys: seq<string>, key: string): (i: nat)
    ensures i <= |keys|
    ensures forall j :: 0 <= j < i ==> keys[j] != key
    ensures i < |keys| ==> keys[i] == key
  {
    if keys == [] then 0
    else if keys[0] == key then 0
    else 1 + FirstIndex(keys[1..], key)
  }

  /** The text a cell of the returned record gets. */
  function RenderCell(c: Cell): (r: string)
    ensures c.Missing? ==> r == NotAvailable
    ensures c.Whole? ==> |r| >= 1 && '.' !in r
  {
    match c
    case Missing => NotAvailable
    case Whole(n, _) => IntText(n)
    case Frac(form) => form
    case Text(s) => s
  }

  /** The returned record: every column with its rendered cell. */
  function Render(columns: seq<string>, row: Row): (r: seq<Field>)
    requires |row| == |columns|
    ensures |r| == |columns|
    ensures forall j :: 0 <= j < |r| ==> r[j].column == columns[j] && r[j].value == RenderCell(row[j])
  {
    seq(|columns|, j requires 0 <= j < |columns| => Field(columns[j], RenderCell(row[j])))
  }

  /** The answer to a request for `symbol` when the cache slot holds `slot`. */
  function Resolve(slot: Option<Table>, symbol: string): (r: Outcome)
    ensures slot.None? <==> r.Unavailable?
    ensures r.MissingSymbolColumn? <==> slot.Some? && SymbolColumn !in slot.value.columns
    ensures r.NotFound? ==> r.symbol == Normalize(symbol)
    ensures r.Found? ==> slot.Some? && |r.record| == |slot.value.columns|
  {
    var key := Normalize(symbol);
    match slot
    case None => Unavailable
    case Some(t) =>
      match IndexOf(t.columns, SymbolColumn)
      case None => MissingSymbolColumn
      case Some(c) =>
        var hits := Filter(NormalizedRows(t, c), c, key);
        if hits == [] then NotFound(key) else Found(Render(t.columns, hits[0]))
  }

  // ---------------------------------------------------------------------
  // The two loops of the request handler.

  /** Copies the table's rows and overwrites the symbol cell of each copy
      with its normalised text; no other cell changes. */
  method NormalizeSymbolColumn(t: Table, c: nat) returns (rows: seq<Row>)
    requires c < |t.columns|
    ensures |rows| == |t.rows|
    ensures forall i :: 0 <= i < |rows| ==> |rows[i]| == |t.columns|
    ensures forall i :: 0 <= i < |rows| ==> rows[i][c] == Text(Normalize(CellText(t.rows[i][c])))
    ensures forall i, j :: 0 <= i < |rows| && 0 <= j < |t.columns| && j != c ==> rows[i][j] == t.rows[i][j]
    ensures rows == NormalizedRows(t, c)
  {
    rows := t.rows;
    for i := 0 to |rows|
      invariant |rows| == |t.rows|
      invariant forall k :: 0 <= k < i ==> rows[k] == NormalizeSymbol(t.rows[k], c)
      invariant forall k :: i <= k < |rows| ==> rows[k] == t.rows[k]
    {
      assert t.rows[i] in t.rows;
      rows := rows[i := rows[i][c := Text(Normalize(CellText(rows[i][c])))]];
    }
  }

  /** Renders the matched row: a missing value becomes "N/A", a number equal
      to an integer its integer text, any other number its own text, and text
      stays as it is; columns keep their names and order. */
  method RenderRecord(columns: seq<string>, row: Row) returns (record: seq<Field>)
    requires |row| == |columns|
    ensures |record| == |columns|
    ensures forall j :: 0 <= j < |columns| ==> record[j].column == columns[j]
    ensures forall j :: 0 <= j < |columns| ==> record[j].value == RenderCell(row[j])
    ensures record == Render(columns, row)
  {
    var values := row;
    for j := 0 to |values|
      invariant |values| == |row|
      invariant forall k :: 0 <= k < j ==> values[k] == Text(RenderCell(row[k]))
      invariant forall k :: j <= k < |values| ==> values[k] == row[k]
    {
      var v := values[j];
      if v.Missing? {
        values := values[j := Text(NotAvailable)];
      } else if v.Whole? || v.Frac? {
        values := values[j := Text(if v.Frac? then v.form else IntText(v.value))];
      }
    }
    record := seq(|columns|, j requires 0 <= j < |columns| => Field(columns[j], CellText(values[j])));
  }

  // ---------------------------------------------------------------------
  // Properties of the lookup.

  /** With distinct column names, the position of the symbol column is the
      one `IndexOf` finds. */
  lemma {:induction false} IndexOfDistinct(columns: seq<string>, name: string, c: nat)
    requires c < |columns| && columns[c] == name
    requires forall i, j :: 0 <= i < j < |columns| ==> columns[i] != columns[j]
    ensures IndexOf(columns, name) == Some(c)
  {
    if c > 0 {
      assert columns[0] != columns[c];
      IndexOfDistinct(columns[1..], name, c - 1);
    }
  }

  /** When the cell in column `c` of each row is the text of the matching
      key, the filter is empty exactly when `key` does not occur and
      otherwise starts with the row of its first occurrence. */
  lemma {:induction false} FilterStartsWithFirst(rows: seq<Row>, keys: seq<string>, c: nat, key: string)
    requires HasColumn(rows, c) && |keys| == |rows|
    requires forall k :: 0 <= k < |rows| ==> rows[k][c] == Text(keys[k])
    ensures var i := FirstIndex(keys, key);
            var hits := Filter(rows, c, key);
            (hits == []) == (i == |rows|) && (hits != [] ==> hits[0] == rows[i])
  {
    if rows != [] {
      assert rows[0][c] == Text(keys[0]);
      FilterStartsWithFirst(rows[1..], keys[1..], c, key);
    }
  }

  /** No cached table: every key gets "Data not available". */
  lemma ResolveWithoutTable(symbol: string)
    ensures Resolve(None, symbol) == Unavailable
  {
  }

  /** A cached table without a `Symbol` column fails every lookup with the
      missing-column error. */
  lemma ResolveWithoutSymbolColumn(t: Table, symbol: string)
    requires SymbolColumn !in t.columns
    ensures Resolve(Some(t), symbol) == MissingSymbolColumn
  {
  }

  /** The lookup returns the first row, in table order, whose normalised
      symbol equals the normalised key, with its symbol cell replaced by that
      normalised text; when no row matches it reports the normalised key as
      not found. */
  lemma ResolveIsFirstMatch(t: Table, symbol: string, c: nat)
    requires c < |t.columns| && t.columns[c] == SymbolColumn
    ensures HasColumn(t.rows, c)
    ensures var key := Normalize(symbol);
            var i := FirstIndex(SymbolKeys(t.rows, c), key);
            Resolve(Some(t), symbol) ==
              if i == |t.rows| then NotFound(key)
              else Found(Render(t.columns, NormalizeSymbol(t.rows[i], c)))
  {
    IndexOfDistinct(t.columns, SymbolColumn, c);
    var copy, keys := NormalizedRows(t, c), SymbolKeys(t.rows, c);
    assert forall k :: 0 <= k < |copy| ==> copy[k][c] == Text(keys[k]);
    FilterStartsWithFirst(copy, keys, c, Normalize(symbol));
  }

  /** A found record has exactly the table's columns in order, and its
      `Symbol` field holds the normalised key, not the stored text. */
  lemma FoundRecordFields(t: Table, symbol: string, c: nat)
    requires c < |t.columns| && t.columns[c] == SymbolColumn
    requires Resolve(Some(t), symbol).Found?
    ensures var rec := Resolve(Some(t), symbol).record;
            && |rec| == |t.columns|
            && (forall j :: 0 <= j < |rec| ==> rec[j].column == t.columns[j])
            && rec[c] == Field(SymbolColumn, Normalize(symbol))
  {
    ResolveIsFirstMatch(t, symbol, c);
    var key := Normalize(symbol);
    var keys := SymbolKeys(t.rows, c);
    var i := FirstIndex(keys, key);
    assert t.rows[i] in t.rows;
    assert keys[i] == SymbolKey(t.rows[i], c);
    var row := NormalizeSymbol(t.rows[i], c);
    assert row[c] == Text(key);
    var rec := Render(t.columns, row);
    assert Resolve(Some(t), symbol) == Found(rec);
    RenderTextCell(t.columns, row, c, key);
  }

  /** A text cell renders as its own text under its column's name. */
  lemma RenderTextCell(columns: seq<string>, row: Row, c: nat, s: string)
    requires |row| == |columns| && c < |columns| && row[c] == Text(s)
    ensures Render(columns, row)[c] == Field(columns[c], s)
  {
  }

  /** Every other field of a found record is the rendered cell of the first
      row whose normalised symbol is the normalised key. */
  lemma FoundRecordValues(t: Table, symbol: string, c: nat)
    requires c < |t.columns| && t.columns[c] == SymbolColumn
    requires Resolve(Some(t), symbol).Found?
    ensures HasColumn(t.rows, c)
    ensures var rec := Resolve(Some(t), symbol).record;
            var i := FirstIndex(SymbolKeys(t.rows, c), Normalize(symbol));
            && i < |t.rows| && SymbolKey(t.rows[i], c) == Normalize(symbol)
            && |rec| == |t.columns|
            && (forall j :: 0 <= j < |rec| && j != c ==> rec[j].value == RenderCell(t.rows[i][j]))
  {
    ResolveIsFirstMatch(t, symbol, c);
    var keys := SymbolKeys(t.rows, c);
    var i := FirstIndex(keys, Normalize(symbol));
    assert t.rows[i] in t.rows;
    assert keys[i] == SymbolKey(t.rows[i], c);
  }

  /** Whitespace around the key does not change the answer. */
  lemma ResolveIgnoresPadding(slot: Option<Table>, pre: string, symbol: string, post: string)
    requires AllSpace(pre) && AllSpace(post)
    ensures Resolve(slot, pre + symbol + post) == Resolve(slot, symbol)
  {
    NormalizeIgnoresPadding(pre, symbol, post);
  }

  /** Keys that differ only in letter case get the same answer. */
  lemma ResolveIgnoresCase(slot: Option<Table>, a: string, b: string)
    requires Upper(a) == Upper(b)
    ensures Resolve(slot, a) == Resolve(slot, b)
  {
    NormalizeIgnoresCase(a, b);
  }

  /** Rendering one cell: a missing value is "N/A", an integer-valued number
      is a text without a decimal point that reads back as that integer, any
      other number keeps its own text and text is unchanged. */
  lemma RenderCellMeaning(c: Cell)
    ensures c.Missing? ==> RenderCell(c) == "N/A"
    ensures c.Whole? ==> '.' !in RenderCell(c) && DecimalValue(RenderCell(c)) == Some(c.value)
    ensures c.Frac? ==> RenderCell(c) == c.form
    ensures c.Text? ==> RenderCell(c) == c.s
  {
    if c.Whole? {
      IntTextRoundTrip(c.value);
    }
  }

  /** A missing symbol is stored in the copy as the text "NAN", so when any
      row's symbol is missing the key "nan" finds a record, taken from that row
      or an earlier one, whose `Symbol` field is "NAN". */
  lemma MissingSymbolMatchesNan(t: Table, c: nat, k: nat)
    requires c < |t.columns| && t.columns[c] == SymbolColumn
    requires k < |t.rows| && t.rows[k][c] == Missing
    ensures HasColumn(t.rows, c)
    ensures FirstIndex(SymbolKeys(t.rows, c), "NAN") <= k
    ensures Resolve(Some(t), "nan").Found?
    ensures Resolve(Some(t), "nan").record[c] == Field(SymbolColumn, "NAN")
  {
    assert t.rows[k] in t.rows;
    NormalizeNan();
    ResolveIsFirstMatch(t, "nan", c);
    assert SymbolKeys(t.rows, c)[k] == "NAN";
    FoundRecordFields(t, "nan", c);
  }
}
