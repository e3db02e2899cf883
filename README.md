# fetchStock core, modelled in Dafny

fetchStock is a small Go desktop tool. For a ticker symbol it downloads
the daily bars of the stock and keeps a series of (date, close) points.
It saves that series as `<symbol>_stock_data.csv`: a `Date,Close` header,
then one record per day with the date as `YYYY-MM-DD` and the close
printed by `%f`. It also draws a line plot of the closes, titled
`<symbol> Stock Price` with the legend `<symbol> Closing Price`. The plot
goes through a temporary `<symbol>_stock_plot.png`. Before the first plot,
the tool shows a blank 100 x 100 white image.

The model covers the four core functions of `fetchStock.go`:

- `fetchStockData` (module `Fetch`). The chart iterator is a class
  `BarIter` that holds the bars it will yield and the error it reports at
  the end. The drain loop is the method `FetchStockData`, proved against
  the function `Normalize`. For that function the error wins, an empty
  stream gives the "no data found for <symbol>" error, and otherwise
  every bar becomes one point, in order.
- `saveToCSV` (modules `DecimalText`, `Calendar`, `Formats`, `Csv`,
  `CsvExport`).
  - Dates are Unix seconds and are laid out in UTC through a proleptic
    Gregorian calendar. That calendar is proved against an independent
    closed-form day count.
  - Closes are integer millionths, which is exactly what `%f` prints.
  - Go's `encoding/csv` writer is modelled with its quoting rule and its
    `\n` record terminator.
  - The file system is a class holding a map from file names to contents,
    together with the names that `os.Create` fails on. `SaveToCSV` is
    proved to leave the CSV text of the series in that file, or to change
    nothing when creation fails.
  - The table is proved to read back into the same dates and closes.
- `plotStockData` (module `Plot`). The points loop fills a fresh array of
  XY points: X is the instant in Unix seconds and Y is the close. The
  plot's title, axis labels, legend, tick layout and size are recorded,
  and so is the order in which adding the line and the file steps can
  fail.
- `createBlankPNG` (module `BlankImage`). An `image.RGBA` is a class
  over a two-dimensional pixel array. Its `Set` follows Go: a point
  outside the image is ignored, and the color is converted by
  `color.RGBAModel`. The nested loop paints all 100 x 100 pixels white.

`Seqs` holds one map-over-a-sequence function and its lemmas, shared by
the modules above, and `Wrappers` holds `Option` and `Result`.

Two behaviours the code does not have:

- There is no "insufficient data" error for a plot of fewer than two
  points. `plotStockData` itself checks nothing about the number of
  points; whatever `plotutil.AddLinePoints` reports is passed on.
- No bar is ever dropped. The exactness flag that `Close.Float64()`
  returns is discarded.

## Model

| member | source | states |
|---|---|---|
| Fetch.Normalize | fetchStock.go:46-62 | The iterator's error is returned first. An empty stream gives "no data found for " + symbol. The result is a success exactly when there is no error and at least one bar, and then it has one point per bar, in order, with that bar's timestamp and close. |
| Fetch.NormalizeConcat | fetchStock.go:46-55 | Appending points one bar at a time makes the series of two streams in sequence equal to their two series concatenated. |
| Fetch.BarIter.Next | fetchStock.go:46 | Next reports whether a bar is left and advances past it. It stays false once the bars are exhausted. |
| Fetch.BarIter.Bar | fetchStock.go:47 | Bar is the bar that the last successful Next advanced past. |
| Fetch.BarIter.Err | fetchStock.go:56 | Err reports the error the stream ended with, or none. |
| Fetch.FetchStockData | fetchStock.go:38-63 | Draining the iterator visits every bar. It returns empty data with the error when Normalize fails, and the series with no error when Normalize succeeds. |
| Calendar.CivilFromUnix | fetchStock.go:48 | The UTC calendar date of an instant in Unix seconds: the date of its day number, seconds divided by 86400 rounded down. Its properties are carried by CivilFromDaysCorrect and CivilFromUnixWithinDay. |
| Calendar.FindMonth | fetchStock.go:80 | The month found is the one whose day range contains the given day of the year. |
| Calendar.YearOfDaysCorrect | fetchStock.go:80 | The 400/100/4/1-year cycle split yields a year and a day of the year that lies within that year and counts back to the given day. |
| Calendar.CivilFromDaysCorrect | fetchStock.go:80 | Every day number since 1970-01-01 maps to a valid civil date whose closed-form day number is that day number. |
| Calendar.CivilOfDaysFromCivil | fetchStock.go:80 | Every valid date maps back to itself. |
| Calendar.DaysFromCivilInjective | fetchStock.go:80 | Different valid dates have different day numbers. |
| Calendar.CivilFromUnixWithinDay | fetchStock.go:48 | Every second of a UTC day has that day's date. |
| DecimalText.ValueOfDigits | fetchStock.go:81 | The decimal digits of n read back as n. |
| DecimalText.MagnitudeValue | fetchStock.go:80 | A zero-padded magnitude has at least its width in digits and reads back as the magnitude. |
| DecimalText.FormatIntFixedWidth | fetchStock.go:80 | For 0 <= x < 10^w, time's padded field is exactly w digits with no sign, and it reads back as x. |
| Formats.LayoutDate | fetchStock.go:80 | The "2006-01-02" layout of a date: year padded to 4 digits, month and day to 2, with '-' between. Its properties are carried by ParseLayoutDate and LayoutDateShape. |
| Formats.FormatDate | fetchStock.go:80 | The date field of an instant: the layout of its UTC date. Its properties are carried by ParseFormatDate and DateFieldIsPlain. |
| Formats.FormatClose | fetchStock.go:81 | The "%f" text of a close in millionths: sign, integer part, '.', six decimals. Its properties are carried by ParseFormatClose and CloseFieldShape. |
| Formats.ParseLayoutDate | fetchStock.go:80 | The "2006-01-02" layout of any valid date parses back to that date, negative and five-digit years included. |
| Formats.ParseFormatDate | fetchStock.go:80 | The date field of an instant parses back to that instant's UTC calendar date. |
| Formats.LayoutDateShape | fetchStock.go:80 | For years 0 to 9999 the date field has 10 characters: four digits, '-', two digits, '-', two digits. |
| Formats.DateFieldIsPlain | fetchStock.go:80 | The date field is non-empty and holds only digits and '-'. |
| Formats.ParseFormatClose | fetchStock.go:81 | The "%f" field of a close parses back to the same number of millionths. |
| Formats.CloseFieldShape | fetchStock.go:81 | The close field has an optional '-' exactly when the close is negative, at least one integer digit, '.', and exactly six decimals. |
| Formats.FieldsArePlain | fetchStock.go:79-82 | Neither field holds a comma, quote or line break, and each starts with a digit or '-'. So the CSV writer never quotes them. |
| Csv.EncodeRecord | fetchStock.go:77-82 | The writer's line for one record: each field quoted when the writer's rule needs it, joined by ',', then "\n". Its properties are carried by PlainRecordEncoding and ParseEncodeRecords. |
| Csv.PlainRecordEncoding | fetchStock.go:77-82 | A record of plain fields is written as its fields joined by ',' and then "\n". |
| Csv.SplitJoin | fetchStock.go:77-82 | Splitting the joined fields at ',' gives back the fields when none of them holds ','. |
| Csv.ParseEncodeRecords | fetchStock.go:76-83 | Records of plain fields that the writer emits one after another are read back as the same records, in order. |
| Csv.EncodeRecordsSnoc | fetchStock.go:78-83 | Writing one more record appends exactly its encoding to the text so far. |
| Csv.Writer.Write | fetchStock.go:77 | Write appends the record's encoding to the writer's output. |
| CsvExport.CsvFilename | fetchStock.go:67 | The CSV file name "<symbol>_stock_data.csv". Its property is carried by NamesDetermineSymbol and PlotFileIsNotCsvFile. |
| CsvExport.Row | fetchStock.go:79-82 | The record of one point: its date field and its close field. Its properties are carried by DecodeRowOfRow and CsvTextRecords. |
| CsvExport.CsvText | fetchStock.go:76-83 | The whole file: the header record, then one record per point, encoded by the writer. Its properties are carried by CsvTextHeader, CsvTextRecords and CsvRoundTrip. |
| CsvExport.TableIsPlain | fetchStock.go:77-82 | Every record of the table, the header included, consists of plain fields. |
| CsvExport.CsvTextHeader | fetchStock.go:76-77 | The file starts with the line "Date,Close", followed by the data records. |
| CsvExport.CsvTextRecords | fetchStock.go:76-83 | The file holds one record more than there are points. The first is ["Date", "Close"], and record i + 1 is the date and close fields of point i. |
| CsvExport.DecodeRowOfRow | fetchStock.go:79-82 | One data record reads back as its point's UTC date and exact close. |
| CsvExport.CsvRoundTrip | fetchStock.go:76-83 | Reading the file back gives, for every point in order, its UTC date and its exact close. |
| CsvExport.TablePrefixStep | fetchStock.go:78-83 | Writing the record of point i extends the text written so far by exactly that record's line. |
| CsvExport.TablePrefixFull | fetchStock.go:77-83 | Once the header and every record are written, the text is the whole file. |
| CsvExport.FileSystem.Create | fetchStock.go:68-71 | Create fails with the file system's error for that name and changes nothing, or it creates (truncates) the file to empty. |
| CsvExport.FileSystem.Append | fetchStock.go:73-74 | The text the writer flushes is appended to the named file, and no other file changes. |
| CsvExport.WriteTable | fetchStock.go:73-83 | The writer's calls for the header and each point leave exactly the CSV text of the series in its output. |
| CsvExport.SaveToCSV | fetchStock.go:66-85 | The only error is the one reported by creating "<symbol>_stock_data.csv". That error leaves every file unchanged. Otherwise that file holds the CSV text of the series and no other file changes. |
| Plot.LinePoints | fetchStock.go:95-99 | A fresh array with one point per day, in order, with X the day's Unix seconds and Y its close. |
| Plot.PlotPointsAt | fetchStock.go:95-99 | There is one plotted point per day, and point i is (date of day i, close of day i). |
| Plot.Title | fetchStock.go:91 | The plot title "<symbol> Stock Price". Its property is carried by NamesDetermineSymbol. |
| Plot.Legend | fetchStock.go:101 | The legend of the line "<symbol> Closing Price". Its property is carried by NamesDetermineSymbol. |
| Plot.PlotFilename | fetchStock.go:109 | The temporary file name "<symbol>_stock_plot.png". Its properties are carried by NamesDetermineSymbol and PlotFileIsNotCsvFile. |
| Plot.PlotStockData | fetchStock.go:88-127 | Adding the line, saving, opening and decoding the temporary file fail in that order of precedence. With none failing, the result is the plot with title "<symbol> Stock Price", axis labels "Date" and "Price (USD)", legend "<symbol> Closing Price", the day points, "2006-01-02" ticks, and 8 x 4 inches. |
| Plot.NamesDetermineSymbol | fetchStock.go:91-109 | The title, the legend, the plot file name and the CSV file name each determine the symbol they were built from. |
| Plot.PlotFileIsNotCsvFile | fetchStock.go:109-125 | The temporary plot file is never the CSV file of any symbol, so removing it never deletes saved data. |
| BlankImage.ToPixel | fetchStock.go:142 | A 16-bit gray becomes an opaque pixel with three equal channels at its level shifted right by 8. A color.RGBA is kept as it is. |
| BlankImage.WhitePixel | fetchStock.go:142 | color.White is stored as (255, 255, 255, 255). |
| BlankImage.RgbaImage.constructor | fetchStock.go:138 | A new image has the requested size and is transparent black everywhere. |
| BlankImage.RgbaImage.At | fetchStock.go:138-142 | A point outside the image reads as transparent black. |
| BlankImage.RgbaImage.Set | fetchStock.go:142 | Only the pixel at (x, y) changes, and it becomes the converted color. A point outside the image changes nothing. |
| BlankImage.CreateBlankImage | fetchStock.go:136-144 | A fresh 100 x 100 image whose every pixel is white (255, 255, 255, 255). |

## Left out

- The user interface (`main`, lines 150-209): the window, the ticker list, the buttons and the dialogs. The list of ticker symbols is left out as well.
- The network: `chart.Get` and the transport behind the iterator. The iterator is given the bars it yields and the error it reports.
- Fetch.FetchStockData: the close is not a float64. A close is an integer number of millionths, so `Close.Float64()` and the binary rounding of `%f` are not modelled.
- Fetch.FetchStockData: the int64 range of timestamps and dates outside Go's time range are not modelled; integers are unbounded.
- Formats.FormatDate: dates are laid out in UTC. Go formats them in the machine's local time zone, which the model has no access to.
- Formats.LayoutDateShape: the ten-character `YYYY-MM-DD` form holds only for years 0 to 9999. Other years have a sign or more digits, as in Go.
- CsvExport.SaveToCSV: errors from writing records, from the deferred `Flush` and from `Close` are discarded by the code. The model therefore has no such errors, and the buffering inside `bufio` is not modelled.
- Plot.PlotStockData: `plotutil.AddLinePoints`, the rendering of the plot by gonum, `p.Save`, `png.Decode` and `os.Remove` are library code and are left out. The outcomes of the first four are parameters (the four errors), so the model does not say which inputs make `AddLinePoints` fail. On success the result is the plot description rather than pixels.
- Plot.PlotOf: only the tick layout "2006-01-02" is recorded. Where gonum places the date ticks and in which time zone it formats them is not modelled, so the model claims no agreement between the tick labels and the CSV dates.
- Plot.LinePoints: X is an int, not a float64. A float64 holds Unix seconds exactly only up to 2^53.
- `imageToPNG` and the `png.Encode` in `createBlankPNG`: the PNG byte encoding is not modelled. The model stops at the painted image.
- BlankImage.RgbaImage: the image's rectangle always starts at (0, 0), as in every image the code creates. Go's byte layout of `Pix` with a stride is replaced by a two-dimensional pixel array.
- `Downloader.py` is not part of this model.
