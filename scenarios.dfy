/**
 * Worked requests against small tables, one per documented behaviour of the
 * symbol endpoint.
 */
module Scenarios {
  import opened Wrappers
  import opened Strings
  import opened DataTable
  import opened SymbolLookup

  /** Records that agree field by field are equal. */
  lemma SameFields(a: seq<Field>, b: seq<Field>)
    requires |a| == |b| && forall j :: 0 <= j < |a| ==> a[j] == b[j]
    ensures a == b
  {
  }

  const AlphaRow: Row := [Text("ABC"), Text("Alpha Co"), Whole(100, "100.0")]
  const AlphaFrame: Frame := Frame(["Symbol", "Name", "Price"], [AlphaRow])
  const AlphaRecord: seq<Field> := [Field("Symbol", "ABC"), Field("Name", "Alpha Co"), Field("Price", "100")]

  lemma NormalizeAbc()
    ensures Normalize("abc") == "ABC" && Normalize("ABC") == "ABC"
  {
    assert Upper("abc") == "ABC" && Upper("ABC") == "ABC";
    assert StripLeft("abc") == "abc" && StripRight("abc") == "abc";
    assert StripLeft("ABC") == "ABC" && StripRight("ABC") == "ABC";
  }

  lemma AlphaKeys()
    ensures WellFormed(AlphaFrame)
    ensures FirstIndex(SymbolKeys(AlphaFrame.rows, 0), "ABC") == 0
  {
    NormalizeAbc();
    assert SymbolKeys(AlphaFrame.rows, 0) == ["ABC"];
  }

  lemma AlphaRendered()
    ensures Render(AlphaFrame.columns, NormalizeSymbol(AlphaRow, 0)) == AlphaRecord
  {
    AlphaRowNormal();
    AlphaRowRendered();
  }

  lemma AlphaRowNormal()
    ensures NormalizeSymbol(AlphaRow, 0) == AlphaRow
  {
    NormalizeAbc();
    assert SymbolKey(AlphaRow, 0) == "ABC";
  }

  lemma AlphaRowRendered()
    ensures Render(AlphaFrame.columns, AlphaRow) == AlphaRecord
  {
    IntTextHundred();
    var rec := Render(AlphaFrame.columns, AlphaRow);
    assert rec[0] == AlphaRecord[0] && rec[1] == AlphaRecord[1];
    assert rec[2] == Field("Price", IntText(100));
    SameFields(rec, AlphaRecord);
  }

  lemma IntTextHundred()
    ensures IntText(100) == "100"
  {
    assert Digits(10) == "10";
  }

  /** A lower-case key finds an upper-case symbol; 100.0 renders as "100". */
  lemma WholePriceRendersWithoutDecimals()
    ensures WellFormed(AlphaFrame)
    ensures Resolve(Some(AlphaFrame), "abc") == Found(AlphaRecord)
  {
    NormalizeAbc();
    AlphaKeys();
    AlphaRendered();
    ResolveIsFirstMatch(AlphaFrame, "abc", 0);
  }

  const XyzRow: Row := [Text("XYZ"), Missing, Frac("100.5")]
  const XyzFrame: Frame := Frame(["Symbol", "Price", "Issue"], [XyzRow])
  const XyzRecord: seq<Field> := [Field("Symbol", "XYZ"), Field("Price", "N/A"), Field("Issue", "100.5")]

  lemma NormalizeXyz()
    ensures Normalize("XYZ") == "XYZ"
  {
    assert Upper("XYZ") == "XYZ";
    assert StripLeft("XYZ") == "XYZ" && StripRight("XYZ") == "XYZ";
  }

  lemma XyzKeys()
    ensures WellFormed(XyzFrame)
    ensures FirstIndex(SymbolKeys(XyzFrame.rows, 0), "XYZ") == 0
  {
    NormalizeXyz();
    assert SymbolKeys(XyzFrame.rows, 0) == ["XYZ"];
  }

  lemma XyzRowNormal()
    ensures NormalizeSymbol(XyzRow, 0) == XyzRow
  {
    NormalizeXyz();
    assert SymbolKey(XyzRow, 0) == "XYZ";
  }

  lemma XyzRendered()
    ensures Render(XyzFrame.columns, NormalizeSymbol(XyzRow, 0)) == XyzRecord
  {
    XyzRowNormal();
    var rec := Render(XyzFrame.columns, XyzRow);
    assert rec[0] == XyzRecord[0] && rec[1] == XyzRecord[1] && rec[2] == XyzRecord[2];
    SameFields(rec, XyzRecord);
  }

  /** A missing price renders as "N/A"; a fractional number keeps its text. */
  lemma MissingAndFractionalValues()
    ensures WellFormed(XyzFrame)
    ensures Resolve(Some(XyzFrame), "XYZ") == Found(XyzRecord)
  {
    NormalizeXyz();
    XyzKeys();
    XyzRendered();
    ResolveIsFirstMatch(XyzFrame, "XYZ", 0);
  }

  /** A cached table without rows answers every key with "Symbol not found". */
  lemma EmptyTableFindsNothing(t: Table, c: nat, symbol: string)
    requires c < |t.columns| && t.columns[c] == SymbolColumn && t.rows == []
    ensures Resolve(Some(t), symbol) == NotFound(Normalize(symbol))
  {
    ResolveIsFirstMatch(t, symbol, c);
  }

  const PaddedRow: Row := [Text(" abc "), Text("NSE")]
  const PlainRow: Row := [Text("ABC"), Text("BSE")]
  const TwoFrame: Frame := Frame(["Symbol", "Exchange"], [PaddedRow, PlainRow])

  lemma NormalizePadded()
    ensures Normalize(" abc ") == "ABC"
  {
    assert StripLeft(" abc ") == "abc ";
    assert StripRight("abc ") == "abc";
    NormalizeAbc();
  }

  lemma TwoKeys()
    ensures WellFormed(TwoFrame)
    ensures FirstIndex(SymbolKeys(TwoFrame.rows, 0), "ABC") == 0
  {
    NormalizePadded();
    assert SymbolKey(PaddedRow, 0) == "ABC";
    assert SymbolKeys(TwoFrame.rows, 0)[0] == "ABC";
  }

  lemma TwoRendered()
    ensures Render(TwoFrame.columns, NormalizeSymbol(PaddedRow, 0))
         == [Field("Symbol", "ABC"), Field("Exchange", "NSE")]
  {
    NormalizePadded();
  }

  /** Two rows whose symbols normalise alike: the first row is the answer,
      with its symbol shown in normal form. */
  lemma FirstOfTwoMatchesWins()
    ensures WellFormed(TwoFrame)
    ensures Resolve(Some(TwoFrame), "abc")
         == Found([Field("Symbol", "ABC"), Field("Exchange", "NSE")])
  {
    NormalizeAbc();
    TwoKeys();
    TwoRendered();
    ResolveIsFirstMatch(TwoFrame, "abc", 0);
  }
}
