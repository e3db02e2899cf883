/**
 * plotStockData: the line plot of the closing prices, one point per day
 * (X the instant in Unix seconds, Y the close), its title, axis labels,
 * legend, date ticks and the temporary PNG file it is saved to.
 */
module Plot {
  import opened Wrappers
  import opened Seqs
  import opened Fetch
  import opened CsvExport

  /** A point of a line plot. */
  datatype XY = XY(x: int, y: int)

  const XLabel: string := "Date"
  const YLabel: string := "Price (USD)"
  /** The layout of the X ticks, Go's reference date "2006-01-02" (year-month-day). */
  const TickLayout: string := "2006-01-02"
  const WidthInches: nat := 8
  const HeightInches: nat := 4

  function Title(symbol: string): string
  {
    symbol + " Stock Price"
  }

  function Legend(symbol: string): string
  {
    symbol + " Closing Price"
  }

  function PlotFilename(symbol: string): string
  {
    symbol + "_stock_plot.png"
  }

  /** The plotted point of one day: its instant and its close. */
  function PointOf(d: StockData): XY
  {
    XY(d.date, d.close)
  }

  /** The points of the line, in the order of data. */
  function PlotPoints(data: seq<StockData>): seq<XY>
  {
    Map(PointOf, data)
  }

  /** What plotStockData draws before saving it. */
  datatype LinePlot = LinePlot(
    title: string, xLabel: string, yLabel: string,
    legend: string, points: seq<XY>, tickLayout: string,
    widthInches: nat, heightInches: nat)

  function PlotOf(symbol: string, data: seq<StockData>): LinePlot
  {
    LinePlot(Title(symbol), XLabel, YLabel, Legend(symbol), PlotPoints(data), TickLayout, WidthInches, HeightInches)
  }

  /**
   * The pts loop: a zeroed array of |data| points, then each point's X and
   * Y set from the day at the same index.
   */
  method LinePoints(data: seq<StockData>) returns (pts: array<XY>)
    ensures fresh(pts)
    ensures pts[..] == PlotPoints(data)
  {
    pts := new XY[|data|](_ => XY(0, 0));
    for i := 0 to |data|
      invariant forall k :: 0 <= k < i ==> pts[k] == PointOf(data[k])
    {
      pts[i] := pts[i].(x := data[i].date);
      pts[i] := pts[i].(y := data[i].close);
    }
    forall k | 0 <= k < |data| ensures pts[..][k] == PlotPoints(data)[k] {
      MapAt(PointOf, data, k);
    }
  }

  /**
   * plotStockData: the plot is built in memory, the line is added to it,
   * then it is saved to the temporary file, reopened and decoded; the first
   * of these steps to fail decides the error. addErr, saveErr, openErr and
   * decodeErr are what plotutil.AddLinePoints, p.Save, os.Open and
   * png.Decode report; on success the result is the plot that was drawn.
   */
  method PlotStockData(symbol: string, data: seq<StockData>, addErr: Option<Error>,
                       saveErr: Option<Error>, openErr: Option<Error>, decodeErr: Option<Error>)
    returns (r: Result<LinePlot, Error>)
    ensures addErr.Some? ==> r == Failure(addErr.value)
    ensures addErr.None? && saveErr.Some? ==> r == Failure(saveErr.value)
    ensures addErr.None? && saveErr.None? && openErr.Some? ==> r == Failure(openErr.value)
    ensures addErr.None? && saveErr.None? && openErr.None? && decodeErr.Some? ==> r == Failure(decodeErr.value)
    ensures addErr.None? && saveErr.None? && openErr.None? && decodeErr.None? ==> r == Success(PlotOf(symbol, data))
  {
    var pts := LinePoints(data);
    if addErr.Some? {
      return Failure(addErr.value);
    }
    var p := LinePlot(Title(symbol), XLabel, YLabel, Legend(symbol), pts[..], TickLayout, WidthInches, HeightInches);
    if saveErr.Some? {
      return Failure(saveErr.value);
    }
    if openErr.Some? {
      return Failure(openErr.value);
    }
    if decodeErr.Some? {
      return Failure(decodeErr.value);
    }
    r := Success(p);
  }

  // ---- properties ----

  /** One point per day, in order, at the day's instant and close. */
  lemma {:induction false} PlotPointsAt(data: seq<StockData>, i: nat)
    requires i < |data|
    ensures |PlotPoints(data)| == |data|
    ensures PlotPoints(data)[i] == XY(data[i].date, data[i].close)
  {
    MapAt(PointOf, data, i);
  }

  lemma {:induction false} SuffixCancels(a: string, b: string, suffix: string)
    requires a + suffix == b + suffix
    ensures a == b
  {
    assert |a| == |b|;
    forall k | 0 <= k < |a| ensures a[k] == b[k] {
      assert (a + suffix)[k] == (b + suffix)[k];
    }
  }

  /** Title, legend and file name each determine the symbol they were made from. */
  lemma {:induction false} NamesDetermineSymbol(a: string, b: string)
    ensures Title(a) == Title(b) ==> a == b
    ensures Legend(a) == Legend(b) ==> a == b
    ensures PlotFilename(a) == PlotFilename(b) ==> a == b
    ensures CsvFilename(a) == CsvFilename(b) ==> a == b
  {
    if Title(a) == Title(b) { SuffixCancels(a, b, " Stock Price"); }
    if Legend(a) == Legend(b) { SuffixCancels(a, b, " Closing Price"); }
    if PlotFilename(a) == PlotFilename(b) { SuffixCancels(a, b, "_stock_plot.png"); }
    if CsvFilename(a) == CsvFilename(b) { SuffixCancels(a, b, "_stock_data.csv"); }
  }

  /**
   * The temporary plot file is never the CSV file, for any two symbols, so
   * removing it leaves the saved data in place.
   */
  lemma {:induction false} PlotFileIsNotCsvFile(a: string, b: string)
    ensures PlotFilename(a) != CsvFilename(b)
  {
    if |a| == |b| {
      assert PlotFilename(a)[|a| + 7] == 'p' && CsvFilename(b)[|b| + 7] == 'd';
    } else {
      assert |PlotFilename(a)| != |CsvFilename(b)|;
    }
  }
}
