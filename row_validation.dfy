/** Validation of one parsed CSV data row: the body of the 'data' handler of
    CsvReader.readCsv. A row either becomes a line item (date, health-insurance
    code, quantity, price) or an error tied to its 1-based row number. */
module RowValidation {

  datatype Option<T> = None | Some(value: T)

  /** One data row as the CSV parser hands it over: the values of the parsed
      row object, in the order of its keys. */
  type Row = seq<string>

  /** The number parsers the row test relies on: JavaScript's parseInt(s, 10)
      and parseFloat(s). None stands for NaN, the result of a failed parse. */
  datatype Parsers = Parsers(parseInt: string -> Option<int>, parseFloat: string -> Option<real>)

  /** A validated shipment line item. */
  datatype LineItem = LineItem(rawDate: string, nhCode: string, quantity: int, nhPrice: real)

  /** The diagnostic pushed for a rejected row; `row` is the row counter at
      the time the row was read. Malformed carries the values the message shows. */
  datatype RowError =
    | WrongColumnCount(row: nat)
    | Malformed(row: nat, nhCode: string, quantity: int, nhPrice: real)

  /** What one row turns into: exactly one item or exactly one error. */
  datatype Verdict = Accept(item: LineItem) | Reject(error: RowError)

  /** A row needs at least the columns date, code, quantity and price. */
  const MinColumns: nat := 4

  /** The invariant of a line item: a non-empty code and positive quantity and price. */
  predicate ValidLineItem(item: LineItem) {
    item.nhCode != "" && item.quantity > 0 && item.nhPrice > 0.0
  }

  /** `parseInt(s, 10) || 0`: NaN (and 0) become 0. */
  function IntOrZero(parsed: Option<int>): (r: int)
    ensures parsed.None? ==> r == 0
    ensures parsed.Some? ==> r == parsed.value
  {
    if parsed.Some? then parsed.value else 0
  }

  /** `parseFloat(s) || 0`: NaN (and 0) become 0. */
  function RealOrZero(parsed: Option<real>): (r: real)
    ensures parsed.None? ==> r == 0.0
    ensures parsed.Some? ==> r == parsed.value
  {
    if parsed.Some? then parsed.value else 0.0
  }

  /** Field 2 read as a quantity. */
  function Quantity(row: Row, p: Parsers): (q: int)
    requires |row| >= MinColumns
    ensures p.parseInt(row[2]).None? ==> q == 0
    ensures p.parseInt(row[2]).Some? ==> q == p.parseInt(row[2]).value
    ensures q == 0 <==> p.parseInt(row[2]).None? || p.parseInt(row[2]) == Some(0)
  {
    IntOrZero(p.parseInt(row[2]))
  }

  /** Field 3 read as a price. */
  function Price(row: Row, p: Parsers): (pr: real)
    requires |row| >= MinColumns
    ensures p.parseFloat(row[3]).None? ==> pr == 0.0
    ensures p.parseFloat(row[3]).Some? ==> pr == p.parseFloat(row[3]).value
    ensures pr == 0.0 <==> p.parseFloat(row[3]).None? || p.parseFloat(row[3]) == Some(0.0)
  {
    RealOrZero(p.parseFloat(row[3]))
  }

  /** The decision made for one row read as row number `rowNumber`. */
  function Validate(row: Row, rowNumber: nat, p: Parsers): (v: Verdict)
    // too few columns: a column-count error, never an item
    ensures |row| < MinColumns ==> v == Reject(WrongColumnCount(rowNumber))
    // enough columns: accepted exactly when all three conditions hold
    ensures |row| >= MinColumns ==>
      (v.Accept? <==> row[1] != "" && Quantity(row, p) > 0 && Price(row, p) > 0.0)
    // an accepted item keeps fields 0 and 1 unchanged and the coerced numbers
    ensures v.Accept? ==>
      |row| >= MinColumns && v.item == LineItem(row[0], row[1], Quantity(row, p), Price(row, p))
    ensures v.Accept? ==> ValidLineItem(v.item)
    // a rejected row with enough columns reports what was read from it
    ensures |row| >= MinColumns && v.Reject? ==>
      v.error == Malformed(rowNumber, row[1], Quantity(row, p), Price(row, p))
    ensures v.Reject? ==> v.error.row == rowNumber
    // a quantity or price that does not parse becomes 0, so the row is rejected
    ensures |row| >= MinColumns && (p.parseInt(row[2]).None? || p.parseFloat(row[3]).None?) ==> v.Reject?
  {
    if |row| >= MinColumns then
      var rawDate := row[0];
      var nhCode := row[1];
      var quantity := Quantity(row, p);
      var nhPrice := Price(row, p);
      if nhCode != "" && quantity > 0 && nhPrice > 0.0 then
        Accept(LineItem(rawDate, nhCode, quantity, nhPrice))
      else
        Reject(Malformed(rowNumber, nhCode, quantity, nhPrice))
    else
      Reject(WrongColumnCount(rowNumber))
  }
}
