/** The inventory part of the page's start-up: the feed text is parsed,
    converted to records and validated. A structural error stops the load;
    validation only reports. Fetching the feed and rendering the pages are
    not part of this model. */
module Storefront {
  import opened Strings
  import opened Seqs
  import opened Csv
  import opened Inventory
  import opened Validation

  /** The records and what validation reported about them. */
  datatype Loaded = Loaded(items: seq<Item>, warnings: seq<Diagnostic>)

  /** loadItems after the fetch: parseCsv, then csvRowsToItems. */
  function LoadItems(text: string): Result<seq<Item>> {
    match Parse(text)
    case Err(e) => Err(e)
    case Ok(rows) => CsvRowsToItems(rows)
  }

  /** init: load, then validate the records that loaded. */
  function Startup(text: string): Result<Loaded> {
    match LoadItems(text)
    case Err(e) => Err(e)
    case Ok(items) => Ok(Loaded(items, Diagnostics(items)))
  }

  /** The start-up sequence with the tokenizer loop and the validation loop. */
  method LoadAndValidate(text: string) returns (result: Result<Loaded>)
    ensures result == Startup(text)
  {
    var parsed := ParseCsv(text);
    if parsed.Err? {
      return Err(parsed.error);
    }
    var converted := CsvRowsToItems(parsed.value);
    if converted.Err? {
      return Err(converted.error);
    }
    var warnings := ValidateItems(converted.value);
    result := Ok(Loaded(converted.value, warnings));
  }

  /** An unmatched quote fails the load exactly when the text has an odd
      number of double quotes; the later stages never report it. */
  lemma StartupQuoteError(text: string)
    ensures Startup(text) == Err(UnmatchedQuote) <==> Count(text, '"') % 2 == 1
  {
    ParseFailsIffOddQuotes(text);
    var p := Parse(text);
    if p.Ok? {
      var rows := p.value;
      if rows != [] && Map(rows[0], Trim) == RequiredHeader {
        var bad := FirstBadRow(rows[1..]);
      }
    }
  }

  /** Validation never rejects: whatever converts is kept, every record of it,
      duplicates and bad values included, and the warnings are the diagnostics
      of exactly those records. */
  lemma ValidationKeepsEverything(text: string)
    ensures Startup(text).Ok? <==> LoadItems(text).Ok?
    ensures Startup(text).Ok? ==>
      Startup(text).value.items == LoadItems(text).value &&
      Startup(text).value.warnings == Diagnostics(LoadItems(text).value)
    ensures Startup(text).Ok? ==>
      |Startup(text).value.items| == |Parse(text).value| - 1
  {
    if Parse(text).Ok? && LoadItems(text).Ok? {
      CsvRowsToItemsRecords(Parse(text).value);
    }
  }

  /** The header trims to itself. */
  lemma HeaderTrimmed()
    ensures Map(RequiredHeader, Trim) == RequiredHeader
  {
    forall i | 0 <= i < |RequiredHeader|
      ensures IsTrimmed(RequiredHeader[i])
    {
      assert RequiredHeader[i] != "";
    }
    TrimAllTrimmed(RequiredHeader);
  }

  /** A feed written out as the required header followed by data rows of
      13 cells, none of them blank, loads as those rows converted, in order. */
  lemma LoadWritten(data: seq<Row>, eol: string)
    requires IsLineBreak(eol)
    requires forall k :: 0 <= k < |data| ==> |data[k]| == Columns && HasContent(data[k])
    ensures LoadItems(Encode([RequiredHeader] + data, eol)) == Ok(Map(data, ConvertRow))
  {
    var rows := [RequiredHeader] + data;
    ParseWritten(rows, data, eol);
    ConvertWritten(rows, data);
  }

  lemma ParseWritten(rows: seq<Row>, data: seq<Row>, eol: string)
    requires IsLineBreak(eol) && rows == [RequiredHeader] + data
    requires forall k :: 0 <= k < |data| ==> |data[k]| == Columns && HasContent(data[k])
    ensures AllNonEmpty(rows) && Parse(Encode(rows, eol)) == Ok(rows)
  {
    assert Trim(RequiredHeader[0]) != "" by { TrimOfTrimmed("id"); }
    assert HasContent(rows[0]);
    ParseEncodedRoundTrip(rows, eol);
  }

  lemma ConvertWritten(rows: seq<Row>, data: seq<Row>)
    requires rows == [RequiredHeader] + data
    requires forall k :: 0 <= k < |data| ==> |data[k]| == Columns
    ensures CsvRowsToItems(rows) == Ok(Map(data, ConvertRow))
  {
    HeaderTrimmed();
    assert rows[1..] == data;
    assert HeaderOk(rows);
    CsvRowsToItemsErrors(rows);
    CsvRowsToItemsRecords(rows);
  }
}
