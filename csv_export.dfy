/**
 * saveToCSV: the table written to "<symbol>_stock_data.csv", a "Date,Close"
 * header followed by one record per point, and the file-system effect of
 * writing it.
 */
module CsvExport {
  import opened Wrappers
  import opened Calendar
  import opened Formats
  import opened Csv
  import opened Fetch
  import opened Seqs

  const Header: seq<string> := ["Date", "Close"]

  function CsvFilename(symbol: string): string
  {
    symbol + "_stock_data.csv"
  }

  /** The record of one point: its UTC date and its close with six decimals. */
  function Row(d: StockData): seq<string>
  {
    [FormatDate(d.date), FormatClose(d.close)]
  }

  /** The data records, one per point, in the order of data. */
  function Rows(data: seq<StockData>): seq<seq<string>>
  {
    Map(Row, data)
  }

  /** The text the CSV writer has emitted once the header and every row are written. */
  function CsvText(data: seq<StockData>): string
  {
    EncodeRecords([Header] + Rows(data))
  }

  /** Reads one data record back into a date and a close in millionths. */
  function DecodeRow(record: seq<string>): Option<(Date, int)>
  {
    if |record| != 2 then None
    else match (ParseDate(record[0]), ParseClose(record[1]))
      case (Some(d), Some(c)) => Some((d, c))
      case _ => None
  }

  /** Reads a saved table back: the header, then the (date, close) pairs in file order. */
  function ParseTable(text: string): Option<seq<(Date, int)>>
  {
    var records := ParseRecords(text);
    if records == [] || records[0] != Header then None else MapOption(DecodeRow, records[1..])
  }

  /** What a saved point means once read back: its UTC calendar date and its close. */
  function DecodedPoint(d: StockData): (Date, int)
  {
    (CivilFromUnix(d.date), d.close)
  }

  // ---- properties of the table ----

  lemma {:induction false} RowIsPlain(d: StockData)
    ensures PlainRecord(Row(d))
  {
    FieldsArePlain(d.date, d.close);
    NumericFieldIsPlain(FormatDate(d.date));
    NumericFieldIsPlain(FormatClose(d.close));
  }

  lemma {:induction false} HeaderIsPlain()
    ensures PlainRecord(Header)
  {
    assert PlainField("Date") && PlainField("Close");
  }

  lemma {:induction false} RowsArePlain(data: seq<StockData>)
    ensures forall k :: 0 <= k < |data| ==> PlainRecord(Rows(data)[k])
  {
    forall d ensures PlainRecord(Row(d)) {
      RowIsPlain(d);
    }
    MapAll(Row, PlainRecord, data);
  }

  lemma {:induction false} TableIsPlain(data: seq<StockData>)
    ensures forall k :: 0 <= k < |[Header] + Rows(data)| ==> PlainRecord(([Header] + Rows(data))[k])
  {
    var table := [Header] + Rows(data);
    HeaderIsPlain();
    RowsArePlain(data);
    forall k | 1 <= k < |table| ensures PlainRecord(table[k]) {
      assert table[k] == Rows(data)[k - 1];
    }
  }

  /**
   * The table is the header record followed by exactly |data| records in
   * the order of data, each holding the two fields of its point.
   */
  lemma {:induction false} CsvTextRecords(data: seq<StockData>)
    ensures var records := ParseRecords(CsvText(data));
      |records| == |data| + 1 && records[0] == ["Date", "Close"] &&
      forall i :: 0 <= i < |data| ==>
        records[i + 1] == [FormatDate(data[i].date), FormatClose(data[i].close)]
  {
    TableIsPlain(data);
    ParseEncodeRecords([Header] + Rows(data));
    forall i | 0 <= i < |data| ensures Rows(data)[i] == Row(data[i]) {
      MapAt(Row, data, i);
    }
  }

  /** The saved text is the header line "Date,Close" followed by the data records. */
  lemma {:induction false} CsvTextHeader(data: seq<StockData>)
    ensures CsvText(data) == "Date,Close\n" + EncodeRecords(Rows(data))
  {
    assert PlainField("Date") && PlainField("Close");
    PlainRecordEncoding(Header);
    assert EncodeRecord(Header) == "Date,Close\n";
    assert ([Header] + Rows(data))[1..] == Rows(data);
  }

  /** A record of the table decodes to its point's UTC date and exact close. */
  lemma {:induction false} DecodeRowOfRow(d: StockData)
    ensures DecodeRow(Row(d)) == Some(DecodedPoint(d))
  {
    ParseFormatDate(d.date);
    ParseFormatClose(d.close);
  }

  /** Re-reading the saved table recovers every (date, close) pair, in order. */
  lemma {:induction false} CsvRoundTrip(data: seq<StockData>)
    ensures var r := ParseTable(CsvText(data));
      r.Some? && |r.value| == |data| &&
      forall i :: 0 <= i < |data| ==> r.value[i] == (CivilFromUnix(data[i].date), data[i].close)
  {
    TableIsPlain(data);
    ParseEncodeRecords([Header] + Rows(data));
    assert ([Header] + Rows(data))[1..] == Rows(data);
    forall d ensures DecodeRow(Row(d)) == Some(DecodedPoint(d)) {
      DecodeRowOfRow(d);
    }
    MapOptionOfMap(Row, DecodeRow, DecodedPoint, data);
    forall i | 0 <= i < |data| ensures Map(DecodedPoint, data)[i] == DecodedPoint(data[i]) {
      MapAt(DecodedPoint, data, i);
    }
  }

  /** Before any data record is written, the text is the header's line. */
  lemma {:induction false} TablePrefixEmpty(data: seq<StockData>)
    ensures EncodeRecords([Header] + Rows(data[..0])) == EncodeRecord(Header)
  {
    assert [Header] + Rows(data[..0]) == [Header];
  }

  /** Writing the record of point i extends the text by exactly that record's line. */
  lemma {:induction false} TablePrefixStep(data: seq<StockData>, i: nat)
    requires i < |data|
    ensures EncodeRecords([Header] + Rows(data[..i + 1])) ==
            EncodeRecords([Header] + Rows(data[..i])) + EncodeRecord(Rows(data)[i])
  {
    MapSnoc(Row, data, i);
    assert [Header] + Rows(data[..i + 1]) == ([Header] + Rows(data[..i])) + [Rows(data)[i]];
    EncodeRecordsSnoc([Header] + Rows(data[..i]), Rows(data)[i]);
  }

  /** With every record written, the text is the whole file. */
  lemma {:induction false} TablePrefixFull(data: seq<StockData>)
    ensures EncodeRecords([Header] + Rows(data[..|data|])) == CsvText(data)
  {
    assert data[..|data|] == data;
  }

  /** The file system as saveToCSV sees it: file contents, and the names os.Create fails on. */
  class FileSystem {
    var files: map<string, string>
    const createErrors: map<string, Error>

    constructor (files: map<string, string>, createErrors: map<string, Error>)
      ensures this.files == files && this.createErrors == createErrors
    {
      this.files := files;
      this.createErrors := createErrors;
    }

    /** os.Create: creates or truncates the file, unless creation fails. */
    method Create(name: string) returns (err: Option<Error>)
      modifies this
      ensures err == if name in createErrors then Some(createErrors[name]) else None
      ensures files == if err.Some? then old(files) else old(files)[name := []]
    {
      if name in createErrors {
        err := Some(createErrors[name]);
      } else {
        err := None;
        files := files[name := []];
      }
    }

    method Append(name: string, text: string)
      requires name in files
      modifies this
      ensures files == old(files)[name := old(files)[name] + text]
    {
      files := files[name := files[name] + text];
    }
  }

  /** The writes saveToCSV makes through its CSV writer: the header, then one record per point. */
  method WriteTable(writer: Writer, data: seq<StockData>)
    requires writer.output == []
    modifies writer
    ensures writer.output == CsvText(data)
  {
    writer.Write(Header);
    TablePrefixEmpty(data);
    for i := 0 to |data|
      invariant writer.output == EncodeRecords([Header] + Rows(data[..i]))
    {
      TablePrefixStep(data, i);
      writer.Write(Rows(data)[i]);
    }
    TablePrefixFull(data);
  }

  /**
   * saveToCSV: the only error is the one os.Create reports; after a
   * successful create the file holds the whole table, because record
   * write and flush errors are discarded.
   */
  method SaveToCSV(symbol: string, data: seq<StockData>, fs: FileSystem) returns (err: Option<Error>)
    modifies fs
    ensures err == if CsvFilename(symbol) in fs.createErrors then Some(fs.createErrors[CsvFilename(symbol)]) else None
    ensures fs.files == if err.Some? then old(fs.files) else old(fs.files)[CsvFilename(symbol) := CsvText(data)]
  {
    var filename := CsvFilename(symbol);
    err := fs.Create(filename);
    if err.Some? {
      return;
    }
    var writer := new Writer();
    WriteTable(writer, data);
    var text := writer.output;
    // The deferred Flush hands the buffered text to the file before the deferred Close.
    fs.Append(filename, text);
    assert [] + text == text;
    assert fs.files == old(fs.files)[filename := text];
  }
}
