/** The importer's pipeline (`parseTransactionCSV`'s completion step and
    `processTransactions`): validate the detected mapping, then keep the
    records that normalise to transactions. */
module Ingest {
  import opened Wrappers
  import opened Types
  import opened Columns
  import opened Rows
  import Seqs

  /** `ParseResult`: success with transactions, or failure with a message. */
  datatype ParseResult = ParseResult(success: bool, transactions: seq<Transaction>, error: Option<string>)

  const EmptyFileError: string := "CSV file is empty"
  const NoDateError: string :=
    "Could not find a date column (expected: Date, date, Transaction Date, Posted Date, Posting Date)"
  const NoDescriptionError: string :=
    "Could not find a description column (expected: Payee, Description, Merchant, Name, payee, description, merchant, name)"
  const NoAmountError: string :=
    "Could not find an amount column (expected: Amount, Outflow, Debit, amount, outflow, debit)"

  function Failure(message: string): ParseResult {
    ParseResult(false, [], Some(message))
  }

  /** `transformRow` under a fixed mapping. */
  function Transformer(m: ColumnMapping): Row -> Option<Transaction> {
    row => TransformRow(row, m)
  }

  /** `processTransactions`: every record through `transformRow`, the
      rejected ones dropped. */
  function ProcessTransactions(rows: seq<Row>, m: ColumnMapping): (r: seq<Transaction>)
    ensures |r| <= |rows|
    ensures forall t :: t in r ==> ValidTransaction(t)
    ensures forall t :: t in r <==> exists i :: 0 <= i < |rows| && TransformRow(rows[i], m) == Some(t)
  {
    Seqs.FilterMapKeeps(rows, Transformer(m), ValidTransaction);
    Seqs.FilterMap(rows, Transformer(m))
  }

  /** Processing a concatenation processes each part in turn: the kept
      records stay in their original order. */
  lemma ProcessConcat(a: seq<Row>, b: seq<Row>, m: ColumnMapping)
    ensures ProcessTransactions(a + b, m) == ProcessTransactions(a, m) + ProcessTransactions(b, m)
  {
    Seqs.FilterMapConcat(a, b, Transformer(m));
  }

  /** Processing a single record yields exactly the transaction it
      normalises to, if any. */
  lemma ProcessOne(row: Row, m: ColumnMapping)
    ensures ProcessTransactions([row], m) ==
      (match TransformRow(row, m) case Some(t) => [t] case None => [])
  {
    assert [row][1..] == [];
  }

  /** The mapping carries every column the importer requires. */
  predicate Usable(m: ColumnMapping) {
    Mapped(m.date) && Mapped(m.description) && (Mapped(m.amount) || Mapped(m.outflow))
  }

  /** The completion step of `parseTransactionCSV`, given the tokeniser's
      header list and records. */
  function ParseTransactionCSV(headers: seq<string>, rows: seq<Row>): (r: ParseResult)
    ensures r.success <==> |rows| > 0 && Usable(DetectColumnMapping(headers))
    ensures r.success ==> r.error.None?
    ensures !r.success ==> r.error.Some? && r.transactions == []
    ensures r.success ==> r.transactions == ProcessTransactions(rows, DetectColumnMapping(headers))
    ensures forall t :: t in r.transactions ==> ValidTransaction(t)
  {
    if |rows| == 0 then Failure(EmptyFileError)
    else
      var m := DetectColumnMapping(headers);
      if !Mapped(m.date) then Failure(NoDateError)
      else if !Mapped(m.description) then Failure(NoDescriptionError)
      else if !Mapped(m.amount) && !Mapped(m.outflow) then Failure(NoAmountError)
      else ParseResult(true, ProcessTransactions(rows, m), None)
  }

  /** The failures, in the order they are checked. */
  lemma FailureOrder(headers: seq<string>, rows: seq<Row>)
    ensures var m := DetectColumnMapping(headers);
      var r := ParseTransactionCSV(headers, rows);
      && (|rows| == 0 ==> r.error == Some(EmptyFileError))
      && (|rows| > 0 && !Mapped(m.date) ==> r.error == Some(NoDateError))
      && (|rows| > 0 && Mapped(m.date) && !Mapped(m.description) ==> r.error == Some(NoDescriptionError))
      && (|rows| > 0 && Mapped(m.date) && Mapped(m.description) && !Mapped(m.amount) && !Mapped(m.outflow)
          ==> r.error == Some(NoAmountError))
  {
  }

  /** Importing more records after a successful import appends the
      transactions of the new records after the existing ones; no kept
      record is ever lost. */
  lemma SuccessKeepsOrder(headers: seq<string>, rows: seq<Row>, more: seq<Row>)
    requires ParseTransactionCSV(headers, rows).success
    ensures ParseTransactionCSV(headers, rows + more).success
    ensures ParseTransactionCSV(headers, rows + more).transactions ==
      ParseTransactionCSV(headers, rows).transactions
        + ProcessTransactions(more, DetectColumnMapping(headers))
  {
    ProcessConcat(rows, more, DetectColumnMapping(headers));
  }

  /** A usable mapping whose every record is rejected still succeeds, with
      no transactions. */
  lemma AllRejectedStillSucceeds(headers: seq<string>, rows: seq<Row>)
    requires |rows| > 0 && Usable(DetectColumnMapping(headers))
    requires forall i :: 0 <= i < |rows| ==> TransformRow(rows[i], DetectColumnMapping(headers)).None?
    ensures ParseTransactionCSV(headers, rows) == ParseResult(true, [], None)
  {
    RejectedNone(rows, DetectColumnMapping(headers));
  }

  /** Records that all fail to normalise yield no transactions. */
  lemma RejectedNone(rows: seq<Row>, m: ColumnMapping)
    requires forall i :: 0 <= i < |rows| ==> TransformRow(rows[i], m).None?
    ensures ProcessTransactions(rows, m) == []
  {
    Seqs.FilterMapNone(rows, Transformer(m));
  }
}
