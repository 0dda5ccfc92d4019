/** Accumulation of validated rows in CsvReader.readCsv: every row read bumps
    the row counter and lands in `results` or `errors`; at the end of input an
    empty `results` is a failure, anything else is the import result. */
module CsvReader {
  import opened RowValidation

  /** What the parser stream delivers: its data rows in file order (header
      excluded), then either the end of input (fault == None) or an error
      emitted by the parser stream. */
  datatype RowStream = RowStream(rows: seq<Row>, fault: Option<string>)

  /** How readCsv settles its promise. */
  datatype Outcome =
    | Ok(data: seq<LineItem>, errors: seq<RowError>, totalRows: nat)
    | FileMissing(path: string)
    | NoValidItems
    | ReadFault(message: string)

  /** The verdict of each row, numbered as the row counter numbers it. */
  function Verdicts(rows: seq<Row>, p: Parsers): (vs: seq<Verdict>)
    ensures |vs| == |rows|
    ensures forall i :: 0 <= i < |rows| ==> vs[i] == Validate(rows[i], i + 1, p)
  {
    if rows == [] then []
    else Verdicts(rows[..|rows| - 1], p) + [Validate(rows[|rows| - 1], |rows|, p)]
  }

  /** The items pushed onto `results`, in push order. */
  function Items(vs: seq<Verdict>): (r: seq<LineItem>)
    ensures |r| <= |vs|
  {
    if vs == [] then []
    else
      var last := vs[|vs| - 1];
      Items(vs[..|vs| - 1]) + (if last.Accept? then [last.item] else [])
  }

  /** The messages pushed onto `errors`, in push order. */
  function Errors(vs: seq<Verdict>): (r: seq<RowError>)
    ensures |r| <= |vs|
  {
    if vs == [] then []
    else
      var last := vs[|vs| - 1];
      Errors(vs[..|vs| - 1]) + (if last.Reject? then [last.error] else [])
  }

  /** The positions, in increasing order, of the accepted (accepted == true)
      or of the rejected (accepted == false) verdicts. */
  function Positions(vs: seq<Verdict>, accepted: bool): (ps: seq<nat>)
    ensures forall k :: 0 <= k < |ps| ==> ps[k] < |vs| && vs[ps[k]].Accept? == accepted
    ensures forall k, l :: 0 <= k < l < |ps| ==> ps[k] < ps[l]
    ensures forall i :: 0 <= i < |vs| && vs[i].Accept? == accepted ==> i in ps
  {
    if vs == [] then []
    else
      var init := Positions(vs[..|vs| - 1], accepted);
      assert forall i :: 0 <= i < |vs| - 1 ==> vs[..|vs| - 1][i] == vs[i];
      if vs[|vs| - 1].Accept? == accepted then init + [|vs| - 1] else init
  }

  /** The reference outcome of readCsv. */
  function ReadResult(path: string, fileExists: bool, stream: RowStream, p: Parsers): (o: Outcome)
    ensures o.FileMissing? <==> !fileExists
    ensures o.ReadFault? <==> fileExists && stream.fault.Some?
    ensures o.Ok? ==> o.data != [] && o.totalRows == |stream.rows|
  {
    if !fileExists then FileMissing(path)
    else if stream.fault.Some? then ReadFault(stream.fault.value)
    else
      var vs := Verdicts(stream.rows, p);
      if Items(vs) == [] then NoValidItems
      else Ok(Items(vs), Errors(vs), |stream.rows|)
  }

  /** The invariant of a successful import result. */
  predicate WellFormed(o: Outcome) {
    o.Ok? ==>
      && o.data != []
      && |o.data| + |o.errors| == o.totalRows
      && (forall k :: 0 <= k < |o.data| ==> ValidLineItem(o.data[k]))
      && (forall k :: 0 <= k < |o.errors| ==> 1 <= o.errors[k].row <= o.totalRows)
      && (forall k, l :: 0 <= k < l < |o.errors| ==> o.errors[k].row < o.errors[l].row)
  }

  /** readCsv: the file check, every row read, then the outcome. */
  method ReadCsv(path: string, fileExists: bool, stream: RowStream, p: Parsers) returns (outcome: Outcome)
    ensures outcome == ReadResult(path, fileExists, stream, p)
    ensures WellFormed(outcome)
  {
    if !fileExists {
      return FileMissing(path);
    }
    var results: seq<LineItem> := [];
    var errors: seq<RowError> := [];
    var rowCount: nat := 0;
    ghost var vs := Verdicts(stream.rows, p);
    for i := 0 to |stream.rows|
      invariant rowCount == i
      invariant results == Items(vs[..i])
      invariant errors == Errors(vs[..i])
    {
      rowCount := rowCount + 1;
      var row := stream.rows[i];
      assert vs[..i + 1][..i] == vs[..i];
      match Validate(row, rowCount, p)
      case Accept(item) =>
        results := results + [item];
      case Reject(error) =>
        errors := errors + [error];
    }
    assert vs[..|stream.rows|] == vs;
    if stream.fault.Some? {
      return ReadFault(stream.fault.value);
    }
    if |results| == 0 {
      return NoValidItems;
    }
    outcome := Ok(results, errors, rowCount);
    ReadResultWellFormed(path, fileExists, stream, p);
  }

  /** Each verdict adds one entry to exactly one of the two lists. */
  lemma {:induction false} CountsAddUp(vs: seq<Verdict>)
    ensures |Items(vs)| + |Errors(vs)| == |vs|
  {
    if vs != [] {
      CountsAddUp(vs[..|vs| - 1]);
    }
  }

  /** `results` lists the accepted verdicts' items, in reading order. */
  lemma {:induction false} ItemsInOrder(vs: seq<Verdict>)
    ensures |Items(vs)| == |Positions(vs, true)|
    ensures forall k :: 0 <= k < |Items(vs)| ==> vs[Positions(vs, true)[k]] == Accept(Items(vs)[k])
  {
    if vs != [] {
      var init := vs[..|vs| - 1];
      ItemsInOrder(init);
      assert forall i :: 0 <= i < |init| ==> init[i] == vs[i];
    }
  }

  /** `errors` lists the rejected verdicts' errors, in reading order. */
  lemma {:induction false} ErrorsInOrder(vs: seq<Verdict>)
    ensures |Errors(vs)| == |Positions(vs, false)|
    ensures forall k :: 0 <= k < |Errors(vs)| ==> vs[Positions(vs, false)[k]] == Reject(Errors(vs)[k])
  {
    if vs != [] {
      var init := vs[..|vs| - 1];
      ErrorsInOrder(init);
      assert forall i :: 0 <= i < |init| ==> init[i] == vs[i];
    }
  }

  /** Every row was rejected. */
  predicate AllRejected(vs: seq<Verdict>) {
    forall i :: 0 <= i < |vs| ==> vs[i].Reject?
  }

  /** Every row was accepted. */
  predicate AllAccepted(vs: seq<Verdict>) {
    forall i :: 0 <= i < |vs| ==> vs[i].Accept?
  }

  /** No item was pushed exactly when every verdict is a rejection. */
  lemma {:induction false} NoItemsIffAllRejected(vs: seq<Verdict>)
    ensures Items(vs) == [] <==> AllRejected(vs)
  {
    if vs != [] {
      var init := vs[..|vs| - 1];
      NoItemsIffAllRejected(init);
      assert forall i :: 0 <= i < |init| ==> init[i] == vs[i];
    }
  }

  /** No error was pushed exactly when every verdict is an acceptance. */
  lemma {:induction false} NoErrorsIffAllAccepted(vs: seq<Verdict>)
    ensures Errors(vs) == [] <==> AllAccepted(vs)
  {
    if vs != [] {
      var init := vs[..|vs| - 1];
      NoErrorsIffAllAccepted(init);
      assert forall i :: 0 <= i < |init| ==> init[i] == vs[i];
    }
  }

  /** Pushing one more verdict extends the lists by its item or its error. */
  lemma PushOne(vs: seq<Verdict>, v: Verdict)
    ensures Items(vs + [v]) == Items(vs) + (if v.Accept? then [v.item] else [])
    ensures Errors(vs + [v]) == Errors(vs) + (if v.Reject? then [v.error] else [])
  {
    assert (vs + [v])[..|vs|] == vs;
  }

  /** The k-th accepted item is built from the k-th accepted row: its date and
      code are that row's fields 0 and 1 unchanged. */
  lemma AcceptedItemsFromRows(rows: seq<Row>, p: Parsers)
    ensures var items := Items(Verdicts(rows, p));
            var ps := Positions(Verdicts(rows, p), true);
            |items| == |ps| &&
            forall k :: 0 <= k < |items| ==>
              && ps[k] < |rows|
              && |rows[ps[k]]| >= MinColumns
              && items[k] == LineItem(rows[ps[k]][0], rows[ps[k]][1],
                                      Quantity(rows[ps[k]], p), Price(rows[ps[k]], p))
              && ValidLineItem(items[k])
  {
    var vs := Verdicts(rows, p);
    ItemsInOrder(vs);
  }

  /** The k-th error names the 1-based position of the k-th rejected row among
      all rows read, however many rows before it were accepted. */
  lemma RowNumbersStable(rows: seq<Row>, p: Parsers)
    ensures var errs := Errors(Verdicts(rows, p));
            var ps := Positions(Verdicts(rows, p), false);
            |errs| == |ps| &&
            forall k :: 0 <= k < |errs| ==>
              && ps[k] < |rows|
              && errs[k].row == ps[k] + 1
              && Validate(rows[ps[k]], ps[k] + 1, p) == Reject(errs[k])
  {
    var vs := Verdicts(rows, p);
    ErrorsInOrder(vs);
  }

  /** How readCsv settles: a missing file and then an error emitted by the
      parser stream come first; after that, zero accepted rows (also zero
      rows at all) is the "no valid line items" failure and any accepted row
      is success. */
  lemma OutcomeCases(path: string, fileExists: bool, stream: RowStream, p: Parsers)
    ensures !fileExists ==> ReadResult(path, fileExists, stream, p) == FileMissing(path)
    ensures fileExists && stream.fault.Some? ==>
      ReadResult(path, fileExists, stream, p) == ReadFault(stream.fault.value)
    ensures fileExists && stream.fault.None? ==>
      (ReadResult(path, fileExists, stream, p) == NoValidItems <==> AllRejected(Verdicts(stream.rows, p)))
    ensures fileExists && stream.fault.None? && stream.rows == [] ==>
      ReadResult(path, fileExists, stream, p) == NoValidItems
    ensures ReadResult(path, fileExists, stream, p).Ok? ==>
      ReadResult(path, fileExists, stream, p)
        == Ok(Items(Verdicts(stream.rows, p)), Errors(Verdicts(stream.rows, p)), |stream.rows|)
  {
    NoItemsIffAllRejected(Verdicts(stream.rows, p));
  }

  /** Every outcome of readCsv is well formed: on success the data is
      non-empty, all items are valid, the counts add up to the rows read,
      and the error row numbers are in range and increasing. */
  lemma ReadResultWellFormed(path: string, fileExists: bool, stream: RowStream, p: Parsers)
    ensures WellFormed(ReadResult(path, fileExists, stream, p))
  {
    var o := ReadResult(path, fileExists, stream, p);
    if o.Ok? {
      var vs := Verdicts(stream.rows, p);
      assert o.data == Items(vs) && o.errors == Errors(vs) && o.totalRows == |vs|;
      ItemsValid(vs);
      ErrorRowsIncreasing(vs);
      CountsAddUp(vs);
    }
  }

  /** Every item pushed satisfies the line-item invariant. */
  lemma ItemsValid(vs: seq<Verdict>)
    requires forall i :: 0 <= i < |vs| && vs[i].Accept? ==> ValidLineItem(vs[i].item)
    ensures forall k :: 0 <= k < |Items(vs)| ==> ValidLineItem(Items(vs)[k])
  {
    ItemsInOrder(vs);
    var ps := Positions(vs, true);
    forall k | 0 <= k < |Items(vs)| ensures ValidLineItem(Items(vs)[k]) {
      assert vs[ps[k]] == Accept(Items(vs)[k]);
    }
  }

  /** When the i-th verdict carries row number i + 1, the error row numbers
      lie in 1..|vs| and strictly increase. */
  lemma ErrorRowsIncreasing(vs: seq<Verdict>)
    requires forall i :: 0 <= i < |vs| && vs[i].Reject? ==> vs[i].error.row == i + 1
    ensures forall k :: 0 <= k < |Errors(vs)| ==> 1 <= Errors(vs)[k].row <= |vs|
    ensures forall k, l :: 0 <= k < l < |Errors(vs)| ==> Errors(vs)[k].row < Errors(vs)[l].row
  {
    ErrorsInOrder(vs);
    var ps := Positions(vs, false);
    var errs := Errors(vs);
    assert forall k :: 0 <= k < |errs| ==> errs[k].row == ps[k] + 1 by {
      forall k | 0 <= k < |errs| ensures errs[k].row == ps[k] + 1 {
        assert vs[ps[k]] == Reject(errs[k]);
      }
    }
  }

  /** Four rows, one valid, then a missing code, a zero quantity and a zero price. */
  lemma ScenarioMixedRows(p: Parsers)
    requires p.parseInt("10") == Some(10) && p.parseFloat("5.5") == Some(5.5)
    requires p.parseInt("3") == Some(3) && p.parseFloat("2.0") == Some(2.0)
    requires p.parseInt("0") == Some(0) && p.parseFloat("1.0") == Some(1.0)
    requires p.parseInt("5") == Some(5) && p.parseFloat("0") == Some(0.0)
    ensures ReadResult("in.csv", true, RowStream([
              ["2024-01-01", "A001", "10", "5.5"],
              ["2024-01-02", "", "3", "2.0"],
              ["2024-01-03", "B002", "0", "1.0"],
              ["2024-01-04", "C003", "5", "0"]], None), p)
            == Ok([LineItem("2024-01-01", "A001", 10, 5.5)],
                  [Malformed(2, "", 3, 2.0), Malformed(3, "B002", 0, 1.0), Malformed(4, "C003", 5, 0.0)],
                  4)
  {
    var rows: seq<Row> := [
      ["2024-01-01", "A001", "10", "5.5"],
      ["2024-01-02", "", "3", "2.0"],
      ["2024-01-03", "B002", "0", "1.0"],
      ["2024-01-04", "C003", "5", "0"]];
    var v1, v2 := Accept(LineItem("2024-01-01", "A001", 10, 5.5)), Reject(Malformed(2, "", 3, 2.0));
    var v3, v4 := Reject(Malformed(3, "B002", 0, 1.0)), Reject(Malformed(4, "C003", 5, 0.0));
    var s1 := [] + [v1];
    var s2 := s1 + [v2];
    var s3 := s2 + [v3];
    var s4 := s3 + [v4];
    assert Verdicts(rows, p) == s4;
    PushOne([], v1);
    PushOne(s1, v2);
    PushOne(s2, v3);
    PushOne(s3, v4);
  }

  /** A row with only two fields is a column-count error and still counts as
      a row read. */
  lemma ScenarioShortRow(p: Parsers)
    requires p.parseInt("1") == Some(1) && p.parseFloat("9.5") == Some(9.5)
    ensures ReadResult("in.csv", true, RowStream([
              ["2024-01-01", "A001", "1", "9.5"],
              ["2024-01-02", "A002"]], None), p)
            == Ok([LineItem("2024-01-01", "A001", 1, 9.5)], [WrongColumnCount(2)], 2)
  {
    var rows: seq<Row> := [["2024-01-01", "A001", "1", "9.5"], ["2024-01-02", "A002"]];
    var v1, v2 := Accept(LineItem("2024-01-01", "A001", 1, 9.5)), Reject(WrongColumnCount(2));
    assert Validate(rows[0], 1, p) == v1;
    assert Validate(rows[1], 2, p) == v2;
    var s1 := [] + [v1];
    var s2 := s1 + [v2];
    assert rows[..1][..0] == [];
    assert Verdicts(rows[..1], p) == s1;
    assert Verdicts(rows, p) == s2;
    PushOne([], v1);
    PushOne(s1, v2);
    assert Items(s2) == [v1.item] && Errors(s2) == [v2.error];
  }

  /** When every row is valid there are no errors and every row is an item. */
  lemma AllRowsValid(path: string, stream: RowStream, p: Parsers)
    requires stream.fault.None? && stream.rows != []
    requires forall i :: 0 <= i < |stream.rows| ==> Validate(stream.rows[i], i + 1, p).Accept?
    ensures var o := ReadResult(path, true, stream, p);
            o.Ok? && o.errors == [] && |o.data| == o.totalRows == |stream.rows|
  {
    var vs := Verdicts(stream.rows, p);
    CountsAddUp(vs);
    NoItemsIffAllRejected(vs);
    NoErrorsIffAllAccepted(vs);
    assert vs[0].Accept?;
  }
}
