/**
 * The IPO details service: one process-wide slot caching the downloaded
 * table, the loader that fills it at start-up, and the `/symbol/<symbol>`
 * request handler that reads it.
 */
module IpoService {
  import opened Wrappers
  import opened Strings
  import opened DataTable
  import opened SymbolLookup

  /** What the HTTP fetch of the CSV file returns. */
  datatype Response = Response(statusCode: int, content: seq<bv8>)

  /** The only status the loader accepts. */
  const StatusOk: int := 200

  /** The service state: the cached table, or `None` when no table was
      loaded. */
  class SymbolService {
    var cached: Option<Table>

    /** Before the loader runs the slot is empty. */
    constructor ()
      ensures cached == None
    {
      cached := None;
    }

    /** The loader's decision: a 200 response is parsed and cached; any
        other status empties the slot. `parse` stands for writing the bytes
        to the local CSV file and reading them back as a table. */
    method DownloadCsv(response: Response, parse: seq<bv8> -> Table)
      modifies this
      ensures response.statusCode == StatusOk ==> cached == Some(parse(response.content))
      ensures response.statusCode != StatusOk ==> cached == None
    {
      if response.statusCode == StatusOk {
        cached := Some(parse(response.content));
      } else {
        cached := None;
      }
    }

    /** The `/symbol/<symbol>` handler. It changes nothing (it has no
        `modifies` clause), so the cached table is the same afterwards and
        asking again gives the same answer. */
    method GetSymbolDetails(symbol: string) returns (outcome: Outcome)
      ensures outcome == Resolve(cached, symbol)
      ensures cached == None ==> outcome == Unavailable
      ensures outcome.NotFound? ==> outcome.symbol == Normalize(symbol)
    {
      var key := Normalize(symbol);
      if cached.None? {
        return Unavailable;
      }
      var t := cached.value;
      var c := IndexOf(t.columns, SymbolColumn);
      if c.None? {
        return MissingSymbolColumn;
      }
      var rows := NormalizeSymbolColumn(t, c.value);
      var hits := Filter(rows, c.value, key);
      if hits == [] {
        return NotFound(key);
      }
      var record := RenderRecord(t.columns, hits[0]);
      return Found(record);
    }
  }

  /** Start-up followed by one request: the loader runs once, then the
      handler answers from whatever it cached. A failed download makes
      every request "Data not available". */
  method ServeAfterStartup(response: Response, parse: seq<bv8> -> Table, symbol: string)
    returns (outcome: Outcome)
    ensures response.statusCode != StatusOk ==> outcome == Unavailable
    ensures response.statusCode == StatusOk ==> outcome == Resolve(Some(parse(response.content)), symbol)
  {
    var service := new SymbolService();
    service.DownloadCsv(response, parse);
    outcome := service.GetSymbolDetails(symbol);
  }

  /** Two requests for the same symbol get the same answer: the handler
      works on a copy and leaves the cached table as it was. */
  method RepeatedLookup(service: SymbolService, symbol: string) returns (first: Outcome, second: Outcome)
    ensures first == second
    ensures first == Resolve(service.cached, symbol)
  {
    first := service.GetSymbolDetails(symbol);
    second := service.GetSymbolDetails(symbol);
  }
}
