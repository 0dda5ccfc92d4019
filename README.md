# CSV shipment reader: row validation and accumulation

This project models `CsvReader.readCsv` from `lib/csv-reader.js` in csvpost, a
command-line tool that reads a CSV file of pharmacy shipment line items and
uploads it. Each data row of the file carries a date, a health-insurance (NH)
code, a quantity and a price. For each row, `readCsv` increments a row counter.
It then pushes the row onto `results` as a line item, or pushes one error
message onto `errors` that names the row's 1-based number. At the end of input
there are two outcomes. If no row was accepted, it rejects with "no valid line
items". Otherwise it resolves with `{data, errors, totalRows}`.

Two modules make up the model:

- `RowValidation` (`row_validation.dfy`) holds the per-row decision as a pure
  function, `Validate`. It uses the row's positional fields, the `|| 0`
  coercion of the two number parses, and the acceptance test
  `nhCode && quantity > 0 && nhPrice > 0`.
- `CsvReader` (`csv_reader.dfy`) holds the accumulation loop as the method
  `ReadCsv`. Its local sequences `results` and `errors` are append-only, and
  `rowCount` is bumped once per row. The reference function `ReadResult` says
  what the outcome must be. The lemmas cover the counts, the order, the row
  numbers and the outcome cases.

Modelling choices:

- A row is `seq<string>`: the values of the object the CSV parser produces for
  the row, in key order. The parser's values are always strings, so the
  source's `data[keys[0]] || ''` and `data[keys[1]] || ''` are the fields
  unchanged.
- `parseInt(s, 10)` and `parseFloat(s)` are function values in `Parsers`. Each
  returns `Option<int>` or `Option<real>`, where `None` stands for NaN. Every
  property is proved for all parsers. `|| 0` maps `None` to 0 and leaves every
  other value as it is.
- Whether the file exists (`fileExists`, lines 24-31) is a boolean input.
- The stream is a `RowStream`. It holds the rows in file order, then either
  the end of input or an error emitted by the parser stream (`fault`).
- An error message is a `RowError` value. It holds the row number and, for a
  malformed row, the code, quantity and price that the message shows.

## Model

| member | source | states |
|---|---|---|
| `RowValidation.Validate` | lib/csv-reader.js:52-74 | A row with fewer than 4 fields gives a column-count error and never an item. A row with 4 or more fields is accepted iff the code is non-empty, the coerced quantity is > 0 and the coerced price is > 0, which settles all 8 combinations of the three conditions. An accepted item's date and code are fields 0 and 1 unchanged, and the item satisfies the line-item invariant. A rejected row's error carries that row's number and the values read from it. An unparsable quantity or price becomes 0, so the row is rejected. |
| `RowValidation.IntOrZero` | lib/csv-reader.js:58 | The fallback to 0 after `parseInt(…, 10)`: a failed parse (NaN) gives 0; any other parse is kept as it is, 0 and negative values included. |
| `RowValidation.RealOrZero` | lib/csv-reader.js:59 | The fallback to 0 after `parseFloat(…)`: a failed parse (NaN) gives 0; any other parse is kept as it is, 0 and negative values included. |
| `RowValidation.Quantity` | lib/csv-reader.js:58 | The quantity is field 2 parsed as an integer, or 0 when the parse fails. It is 0 exactly when the parse fails or yields 0. |
| `RowValidation.Price` | lib/csv-reader.js:59 | The price is field 3 parsed as a decimal, or 0 when the parse fails. It is 0 exactly when the parse fails or yields 0. |
| `CsvReader.Verdicts` | lib/csv-reader.js:50-51 | The i-th row read (0-based) is validated with row number i + 1, the value of the counter right after its increment. |
| `CsvReader.ReadCsv` | lib/csv-reader.js:38-88 | The loop over the rows, with `results`/`errors` appended and `rowCount` bumped, ends in exactly the reference outcome `ReadResult`. That outcome is well formed: on success the data is non-empty, every item is valid, and `|data| + |errors| == totalRows == number of rows`. The error row numbers lie in 1..totalRows and strictly increase. |
| `CsvReader.Items` | lib/csv-reader.js:62-68 | The items pushed onto `results` by lines 63-68, in push order. There is never more than one per row. Its full meaning is stated by `ItemsInOrder`. |
| `CsvReader.Errors` | lib/csv-reader.js:69-74 | The messages pushed onto `errors` by lines 70 and 73, in push order. There is never more than one per row. Its full meaning is stated by `ErrorsInOrder`. |
| `CsvReader.ReadResult` | lib/csv-reader.js:40-92 | The reference outcome. A missing file, and only a missing file, gives `FileMissing`. With the file present, a parser-stream error, and only that, gives `ReadFault`. A success has non-empty data and `totalRows` equal to the number of rows. |
| `CsvReader.CountsAddUp` | lib/csv-reader.js:62-74 | Every row adds exactly one entry to `results` or to `errors`, so the two lengths sum to the number of rows. |
| `CsvReader.PushOne` | lib/csv-reader.js:63-73 | One more row appends its item to `results` or its error to `errors` and leaves the other list unchanged, because both lists are append-only. |
| `CsvReader.ItemsInOrder` | lib/csv-reader.js:62-68 | The k-th entry of `results` is the item of the k-th accepted row, with the accepted positions strictly increasing, so reading order is kept. |
| `CsvReader.ErrorsInOrder` | lib/csv-reader.js:69-74 | The k-th entry of `errors` is the error of the k-th rejected row, with the rejected positions strictly increasing, so reading order is kept. |
| `CsvReader.Positions` | lib/csv-reader.js:62-74 | The accepted positions and the rejected positions are increasing. Each holds exactly the rows of its kind, so every row is in exactly one of them. |
| `CsvReader.AcceptedItemsFromRows` | lib/csv-reader.js:56-68 | Each accepted item is built from its source row: date = field 0, code = field 1, and the coerced quantity and price. It has a non-empty code and positive quantity and price. |
| `CsvReader.RowNumbersStable` | lib/csv-reader.js:51-73 | The k-th error's row number is the 1-based position of the k-th rejected row among all rows read, however many earlier rows were accepted. |
| `CsvReader.ItemsValid` | lib/csv-reader.js:62-68 | If every accepted verdict holds a valid item, every entry of `results` is valid. |
| `CsvReader.ErrorRowsIncreasing` | lib/csv-reader.js:51-73 | When each verdict carries its own 1-based position, the error row numbers lie in 1..rows and strictly increase. |
| `CsvReader.NoItemsIffAllRejected` | lib/csv-reader.js:62-79 | `results` is empty iff every row was rejected. |
| `CsvReader.NoErrorsIffAllAccepted` | lib/csv-reader.js:62-74 | `errors` is empty iff every row was accepted. |
| `CsvReader.OutcomeCases` | lib/csv-reader.js:40-87 | A missing file rejects before any row is read. An error emitted by the parser stream rejects. Otherwise the outcome is "no valid line items" iff every row was rejected, including when there are zero rows. Otherwise it is success with the items, the errors and the row count. |
| `CsvReader.ReadResultWellFormed` | lib/csv-reader.js:79-87 | Every outcome is well formed: a success has non-empty valid data, lengths that add up to `totalRows`, and in-range, increasing error row numbers. |
| `CsvReader.ScenarioMixedRows` | lib/csv-reader.js:50-87 | Take four rows: one valid, then a missing code, a zero quantity and a zero price. The result is one item, errors for rows 2, 3 and 4, and `totalRows` 4. |
| `CsvReader.ScenarioShortRow` | lib/csv-reader.js:72-74 | A row with two fields gives a column-count error for row 2, still counts as a row read, and does not affect the items. |
| `CsvReader.AllRowsValid` | lib/csv-reader.js:79-87 | When there is at least one row and every row is accepted, the outcome is success with no errors and `|data| == totalRows`. |

## Left out

- Streaming and events: `fs.createReadStream` and `csv-parser` are not modelled (lines 48-49). The input is an already parsed sequence of rows.
- Header handling is left out. Duplicate header names merge keys. `Object.keys` also lists integer-like header names first, so a header such as `date,code,2,price` gives the keys `2, date, code, price`: `keys[0]` is then the quantity column and `keys[1]` the date. The model takes the fields in column order.
- Parser-stream errors (lines 89-92): the error is an opaque message. It rejects the promise whatever rows came before it. Its logging is not modelled.
- File-stream errors: the `'error'` listener at line 89 sits on the stream that `.pipe(csvParser())` returns. `pipe` does not pass errors from `fs.createReadStream` on to it. So an error such as EISDIR or EACCES does not reject the promise in the source. It is an unhandled stream error. The model has no outcome for it.
- `fileExists` (lines 24-31): `fs.existsSync` and its try/catch are a foreign call. They become a boolean input, and a probe that throws counts as "missing".
- Number parsing: the exact JavaScript semantics of `parseInt` and `parseFloat` are abstract parameters. This covers prefix parsing, `Infinity`, and IEEE rounding and underflow. The quantity is an unbounded `int` and the price a `real`.
- Message text: the Chinese error strings and the number formatting inside them are not built. A `RowError` holds what the message shows: the row number and, for a malformed row, the code, quantity and price.
- Logger calls (lines 28, 77, 90): presentation only.
- `lib/api-client.js`, `index.js` and `lib/logger.js`: the HTTP upload, command-line wiring and console output are not part of this model.
