/**
 * fetchStockData: draining the chart iterator into a series of
 * (date, close) points, then deciding between the iterator's error,
 * "no data", and the series.
 *
 * The remote transport is modelled only through what the iterator
 * exposes: the bars it yields, in order, and the terminal error it
 * reports once Next returns false. Dates are Unix seconds (UTC); closes
 * are integer millionths of the currency unit.
 */
module Fetch {
  import opened Wrappers

  datatype RawBar = RawBar(timestamp: int, close: int)

  /** One point of the series: Date as Unix seconds, Close in millionths. */
  datatype StockData = StockData(date: int, close: int)

  datatype Error = Error(message: string)

  /** fmt.Errorf("no data found for %s", symbol) */
  function NoDataError(symbol: string): Error
  {
    Error("no data found for " + symbol)
  }

  /** The point built from one bar; the exactness flag of the decimal conversion is discarded. */
  function ToStockData(bar: RawBar): StockData
  {
    StockData(bar.timestamp, bar.close)
  }

  function Points(bars: seq<RawBar>): seq<StockData>
  {
    seq(|bars|, i requires 0 <= i < |bars| => ToStockData(bars[i]))
  }

  /**
   * What fetchStockData returns for a stream that yields bars and then
   * reports err: the error wins over everything, an empty stream is a
   * "no data" error, and otherwise every bar becomes one point, in order.
   */
  function Normalize(symbol: string, bars: seq<RawBar>, err: Option<Error>): (r: Result<seq<StockData>, Error>)
    ensures err.Some? ==> r == Failure(err.value)
    ensures err.None? && bars == [] ==> r == Failure(NoDataError(symbol))
    ensures r.Success? <==> err.None? && bars != []
    ensures r.Success? ==>
      |r.value| == |bars| &&
      forall i :: 0 <= i < |bars| ==> r.value[i].date == bars[i].timestamp && r.value[i].close == bars[i].close
  {
    if err.Some? then Failure(err.value)
    else if |bars| == 0 then Failure(NoDataError(symbol))
    else Success(Points(bars))
  }

  /** The series of one stream followed by another is the two series one after the other. */
  lemma {:induction false} NormalizeConcat(symbol: string, bars1: seq<RawBar>, bars2: seq<RawBar>)
    requires bars1 != [] && bars2 != []
    ensures Normalize(symbol, bars1 + bars2, None).value
         == Normalize(symbol, bars1, None).value + Normalize(symbol, bars2, None).value
  {
    assert Points(bars1 + bars2) == Points(bars1) + Points(bars2);
  }

  /**
   * The chart iterator: the bars it yields, in order, and the error it
   * reports after its last bar (None when the stream ended normally).
   */
  class BarIter {
    const bars: seq<RawBar>
    const err: Option<Error>
    /** How many bars Next has produced so far. */
    var pos: nat

    ghost predicate Valid()
      reads this
    {
      pos <= |bars|
    }

    constructor (bars: seq<RawBar>, err: Option<Error>)
      ensures Valid() && this.bars == bars && this.err == err && pos == 0
    {
      this.bars := bars;
      this.err := err;
      pos := 0;
    }

    /** Advances to the next bar; false once the stream is exhausted or failed. */
    method Next() returns (more: bool)
      requires Valid()
      modifies this
      ensures Valid()
      ensures more == (old(pos) < |bars|)
      ensures pos == if more then old(pos) + 1 else old(pos)
    {
      more := pos < |bars|;
      if more {
        pos := pos + 1;
      }
    }

    /** The bar the last successful Next moved to. */
    method Bar() returns (b: RawBar)
      requires Valid() && 0 < pos
      ensures b == bars[pos - 1]
    {
      b := bars[pos - 1];
    }

    method Err() returns (e: Option<Error>)
      ensures e == err
    {
      e := err;
    }
  }

  /**
   * fetchStockData with the iterator already opened for the symbol. On
   * failure the data is empty (nil) and the error is set; on success the
   * error is None.
   */
  method FetchStockData(symbol: string, iter: BarIter) returns (data: seq<StockData>, err: Option<Error>)
    requires iter.Valid() && iter.pos == 0
    modifies iter
    ensures iter.Valid() && iter.pos == |iter.bars|
    ensures err.Some? ==> data == [] && Normalize(symbol, iter.bars, iter.err) == Failure(err.value)
    ensures err.None? ==> Normalize(symbol, iter.bars, iter.err) == Success(data)
  {
    var acc: seq<StockData> := [];
    while true
      invariant iter.Valid()
      invariant acc == Points(iter.bars[..iter.pos])
      decreases |iter.bars| - iter.pos
    {
      var more := iter.Next();
      if !more {
        break;
      }
      var bar := iter.Bar();
      assert iter.bars[..iter.pos] == iter.bars[..iter.pos - 1] + [bar];
      acc := acc + [ToStockData(bar)];
    }
    assert iter.bars[..iter.pos] == iter.bars;
    var e := iter.Err();
    if e.Some? {
      return [], e;
    }
    if |acc| == 0 {
      return [], Some(NoDataError(symbol));
    }
    return acc, None;
  }
}
