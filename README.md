# IPO details lookup: a verified model

The service downloads a CSV file of IPO company records once, at start-up,
and keeps the parsed table in a process-wide slot (`df_cached`). The
`/symbol/<symbol>` endpoint then answers requests from that slot:

1. It strips the key and upper-cases it.
2. It answers "Data not available" when no table is cached.
3. Otherwise it copies the table and normalises the copy's `Symbol` column the same way.
4. It keeps the rows whose symbol equals the key and takes the first.
5. It renders that row's values as text:
   - A missing value becomes `"N/A"`.
   - A number equal to an integer becomes that integer's decimal text.
   - Any other number becomes its own text.
   - Text stays as it is.
6. It answers "Symbol not found", with the normalised key, when no row matches.

The model has six modules:

- `Wrappers`: the `Option` type.
- `Strings`: `str.strip()` and `str.upper()` on ASCII, the key normalisation built from them, and the decimal text of an integer together with a parser that reads it back.
- `DataTable`: cells (`Missing`, `Whole`, `Frac`, `Text`), and tables with distinct column names and one cell per column in every row. It also holds the string form of a cell (`astype(str)`, where a missing cell is `"nan"`) and column lookup by name.
- `SymbolLookup`:
  - `Resolve`, the reference definition of the endpoint's answer.
  - The two loops of the handler as methods: normalising the `Symbol` column of the copy, and rendering the matched row. Each is proved against its reference function.
  - The lemmas about the lookup.
- `IpoService`: the class `SymbolService` holding the cache slot. It has the loader's status-200 decision and the request handler, which is proved equal to `Resolve`.
- `Scenarios`: worked requests against small literal tables.

Outside the model:

- The HTTP fetch and the CSV parser are parameters: a `Response` value with a status code and bytes, and a function `parse` from bytes to a table.
- A number's `str()` text is the abstract `form` field of its cell.

## Model

| member | source | states |
|---|---|---|
| Strings.Upper | app1.py:34 | ASCII upper-casing keeps the length, turns each letter a-z into its own capital (so no a-z remains), and changes no character outside a-z; see also StripUpperCommute |
| Strings.Normalize | app1.py:34 | The normal form `strip().upper()` is no longer than the key, unpadded and upper-case; NormalizeIgnoresPadding and NormalizeIgnoresCase state what it forgets |
| Strings.StripLeft | app1.py:34 | What the left strip keeps is no longer than the input and does not start with whitespace |
| Strings.StripRight | app1.py:34 | What the right strip keeps is no longer than the input, starts where the input starts, and does not end with whitespace |
| Strings.Strip | app1.py:34 | The stripped key neither starts nor ends with whitespace |
| Strings.StripSplit | app1.py:34 | Every string is the whitespace strip removes in front, then what it keeps, then the whitespace it removes behind |
| Strings.StripUnique | app1.py:34 | Any unpadded string surrounded by any whitespace strips back to exactly that string |
| Strings.StripUpperCommute | app1.py:34 | Upper-casing and stripping commute |
| Strings.NormalizeIsNormal | app1.py:34 | A normalised key is unpadded and upper-case, so normalising twice equals normalising once |
| Strings.NormalizeIgnoresPadding | app1.py:34 | Leading and trailing whitespace around a key does not change its normal form |
| Strings.NormalizeIgnoresCase | app1.py:34 | Keys equal up to letter case have the same normal form |
| Strings.NormalizeNan | app1.py:41 | The text `"nan"` that a missing symbol cell gets normalises to `"NAN"` |
| Strings.Digits | app1.py:57 | The digits of a natural number are all decimal digits, with no leading zero unless the number is 0 |
| Strings.IntText | app1.py:57 | The text of an integer is non-empty and has no decimal point |
| Strings.IntTextRoundTrip | app1.py:57 | Reading the integer text back gives the integer, so distinct integers render differently |
| DataTable.CellText | app1.py:41 | The `astype(str)` text of a cell: text is itself and a missing cell is `"nan"`; a number's text is its abstract `form` |
| DataTable.IndexOf | app1.py:41 | Column lookup by name finds a column of that name, and fails (the `KeyError`) exactly when there is none |
| SymbolLookup.Resolve | app1.py:33-59 | The reference answer of the endpoint: "Data not available" exactly when no table is cached; the missing-column error exactly when the cached table has no `Symbol` column; "Symbol not found" carries the normalised key; a found record is as wide as the header. ResolveIsFirstMatch, FoundRecordFields, FoundRecordValues, ResolveIgnoresPadding and ResolveIgnoresCase state the rest |
| SymbolLookup.NormalizeSymbol | app1.py:41 | One row of the copy: same width, the symbol cell becomes a normal-form text, and every other cell is kept |
| SymbolLookup.RenderCell | app1.py:53-57 | A missing value renders as `"N/A"`, and an integer-valued number as a non-empty text without a decimal point; RenderCellMeaning states every case, including the read-back of the integer |
| SymbolLookup.Render | app1.py:50-57 | The record has one field per column, in column order, each holding the rendered cell of that column |
| SymbolLookup.NormalizedRows | app1.py:40-41 | The copy with the normalised symbol column has as many rows as the table, each as wide as the header |
| SymbolLookup.Filter | app1.py:44 | The filter keeps only rows of the input whose symbol cell is the key, and never more rows than the input |
| SymbolLookup.FirstIndex | app1.py:50 | The first position of a key: no earlier position holds it, the position found holds it, and it equals the length only when the key is absent |
| SymbolLookup.NormalizeSymbolColumn | app1.py:40-41 | The loop over the copy's rows puts each row's normalised symbol text in its symbol cell, leaves every other cell as it was, and yields `NormalizedRows` |
| SymbolLookup.RenderRecord | app1.py:50-57 | The rendering loop keeps the columns in order and gives every value the rendering of its cell, yielding `Render` |
| SymbolLookup.IndexOfDistinct | app1.py:41 | With distinct column names, lookup by name finds the one column of that name |
| SymbolLookup.FilterStartsWithFirst | app1.py:44-50 | The filter is empty exactly when the key occurs in no row; otherwise its head is the row of the first occurrence |
| SymbolLookup.ResolveWithoutTable | app1.py:36-37 | With no cached table every key gets "Data not available" |
| SymbolLookup.ResolveWithoutSymbolColumn | app1.py:41 | A table without a `Symbol` column fails every request with the missing-column error |
| SymbolLookup.ResolveIsFirstMatch | app1.py:33-50 | The answer is the first row in table order whose normalised symbol equals the normalised key, with its symbol cell replaced by that text; with no such row it is "Symbol not found" with the normalised key |
| SymbolLookup.FoundRecordFields | app1.py:41-57 | A found record has exactly the table's columns in order, and its `Symbol` field is the normalised key, not the stored text |
| SymbolLookup.FoundRecordValues | app1.py:44-57 | A found record comes from a row whose normalised symbol is the normalised key, and each of its other fields is that row's rendered cell |
| SymbolLookup.ResolveIgnoresPadding | app1.py:34 | Whitespace around the key does not change the answer |
| SymbolLookup.ResolveIgnoresCase | app1.py:34 | Keys equal up to letter case get the same answer |
| SymbolLookup.RenderCellMeaning | app1.py:53-57 | A missing value renders as `"N/A"`; an integer-valued number renders without a decimal point and reads back as its integer; any other number keeps its text; text is unchanged |
| SymbolLookup.MissingSymbolMatchesNan | app1.py:41-50 | When any row's symbol is missing, the key `"nan"` finds a record taken from that row or an earlier one, and its `Symbol` field is `"NAN"` |
| IpoService.SymbolService.constructor | app1.py:13 | The slot starts empty |
| IpoService.SymbolService.DownloadCsv | app1.py:15-26 | A status-200 response fills the slot with the parsed table; any other status empties it |
| IpoService.SymbolService.GetSymbolDetails | app1.py:33-59 | The handler's answer is `Resolve` of the slot and the key; an empty slot gives "Data not available"; "Symbol not found" carries the normalised key; the slot is not modified |
| IpoService.ServeAfterStartup | app1.py:28-30 | After a start-up load with a non-200 status every request gets "Data not available"; after a 200 it gets `Resolve` of the parsed table |
| IpoService.RepeatedLookup | app1.py:40-41 | Two requests for the same key get the same answer, because the handler works on a copy |
| Scenarios.WholePriceRendersWithoutDecimals | app1.py:33-59 | Key `"abc"` against a row with symbol `ABC`, name `Alpha Co` and price 100.0 finds it, and the price renders as `"100"` |
| Scenarios.MissingAndFractionalValues | app1.py:52-57 | A missing price renders as `"N/A"`, and the number 100.5 in the `Issue` column keeps its text `"100.5"` |
| Scenarios.EmptyTableFindsNothing | app1.py:44-47 | Any cached table with a `Symbol` column and no rows answers every key with "Symbol not found" and the normalised key |
| Scenarios.FirstOfTwoMatchesWins | app1.py:41-50 | When `" abc "` and `"ABC"` both match, the first row is returned, with `"ABC"` as its symbol |

## Left out

- Flask routing, `jsonify`, the HTTP status codes 500 and 404, CORS and `app.run` (app1.py:3-7, 32, 62-63) are web transport. The model keeps only the outcome kinds: `Unavailable`, `MissingSymbolColumn`, `NotFound` and `Found`.
- The ordering of keys in the JSON output is not modelled. A `Found` record lists the fields in column order, which is the order of `to_dict()`.
- `requests.get`, writing `IPO_DETAILS.csv` and `pd.read_csv` (app1.py:18-24) are network and file I/O plus a foreign parser. The response is a parameter and the parser is the function parameter `parse`.
- A parse that raises is not modelled: `parse` is total.
- Start-up failures that escape the loader are not modelled. `requests.get` can raise on a connection error or a timeout (app1.py:19), and writing `IPO_DETAILS.csv` can fail (app1.py:22-23). Either exception leaves `download_csv_from_drive` and aborts the start-up load (app1.py:29-30). A `Response` value cannot express them, so the model has no outcome where start-up itself fails.
- Start-up is modelled as a single load. Concurrent request handling by the server is not modelled; the table is only read after the load.
- SymbolLookup.RenderCell: the `str()` text of a number that is not an integer is the cell's abstract `form`, not computed from a float. The same holds for `CellText` of a number in the symbol column, such as `"100.0"` from a float column.
- SymbolLookup.RenderCell: which floats count as whole numbers is given by the cell kind (`Whole` or `Frac`). It is not decided from a binary float.
- SymbolLookup.RenderCell: infinite values are not modelled. `int(inf)` raises in the source.
- SymbolLookup.RenderCell: boolean cells are not modelled. They would pass the `isinstance(value, int)` test and render as `"1"` or `"0"`.
- NaN and NaT detection is the `Missing` cell kind. Missing values of every type render the same way.
- Strings.Strip and Strings.Upper cover ASCII only: whitespace is space, characters 9 to 13 and 28 to 31, and the letters are a to z. Python's Unicode whitespace and case mapping (for example `"ß".upper() == "SS"`) are not modelled.
- The company-name endpoint and the distinct-values listing are not in `app1.py`, so they are not part of this model.
- A table without a `Symbol` column makes the source raise `KeyError` (app1.py:41), which Flask turns into a server error. The model follows the code and returns the outcome `MissingSymbolColumn`. It does not assume that the column is present.
- A cached table with no rows gives "Symbol not found" in the code (app1.py:44-47). Only an empty slot gives "Data not available". The model follows the code.
