/** Row normalisation (`transformRow`): one header-keyed record of cells
    becomes a spending `Transaction`, or is rejected. */
module Rows {
  import opened Wrappers
  import opened Text
  import opened Types
  import opened Amount
  import opened Columns

  /** One record as the CSV tokeniser delivers it with `header: true`:
      header to cell text; a header the record lacks reads as `undefined`. */
  type Row = map<string, string>

  /** `String(row[h] || '')`: the cell's text, or empty when absent. */
  function CellText(row: Row, h: string): string {
    if h in row then row[h] else ""
  }

  /** `row[h]` as `parseAmount` sees it. */
  function CellOf(row: Row, h: string): Cell {
    if h in row then Str(row[h]) else Missing
  }

  /** A mapped column in JavaScript's truthiness sense: present and not
      the empty string. */
  predicate Mapped(o: Option<string>) {
    o.Some? && o.value != ""
  }

  /** `mapping.f ? String(row[mapping.f] || '').trim() : ''`. */
  function FieldText(row: Row, o: Option<string>): (r: string)
    ensures Trimmed(r)
    ensures !Mapped(o) ==> r == ""
  {
    if Mapped(o) then Trim(CellText(row, o.value)) else ""
  }

  /** An optional field: kept only when its trimmed text is not empty. */
  function OptionalField(row: Row, o: Option<string>): (r: Option<string>)
    ensures r.Some? ==> r.value != "" && Trimmed(r.value)
    ensures r.None? <==> FieldText(row, o) == ""
    ensures r.Some? ==> Mapped(o) && r.value == Trim(CellText(row, o.value))
  {
    var t := FieldText(row, o);
    if t == "" then None else Some(t)
  }

  /** A description that names a transfer, whatever its case. */
  predicate IsTransfer(description: string) {
    Contains(Lower(description), "transfer")
  }

  /** The spending amount of a row, or `None` when the row is rejected for
      its amount: with both outflow and inflow mapped it is the outflow
      when positive; otherwise, with an amount column, the absolute value
      when non-zero; otherwise the row is rejected. */
  function RowAmount(row: Row, m: ColumnMapping): (r: Option<real>)
    ensures r.Some? ==> r.value > 0.0
  {
    if Mapped(m.outflow) && Mapped(m.inflow) then
      var outflow := ParseAmount(CellOf(row, m.outflow.value));
      if outflow > 0.0 then Some(outflow) else None
    else if Mapped(m.amount) then
      var a := Abs(ParseAmount(CellOf(row, m.amount.value)));
      if a <= 0.0 then None else Some(a)
    else None
  }

  /** What every emitted transaction satisfies. */
  predicate ValidTransaction(t: Transaction) {
    && t.description != "" && Trimmed(t.description)
    && !IsTransfer(t.description)
    && t.date != "" && Trimmed(t.date)
    && t.amount > 0.0
    && (t.category.Some? ==> t.category.value != "" && Trimmed(t.category.value))
    && (t.account.Some? ==> t.account.value != "" && Trimmed(t.account.value))
    && (t.memo.Some? ==> t.memo.value != "" && Trimmed(t.memo.value))
  }

  /** The decisions of `transformRow` once the fields of a record have
      been read: trimmed description, trimmed date, amount, and the three
      optional fields. */
  function Assemble(description: string, date: string, amount: Option<real>,
                    category: Option<string>, account: Option<string>, memo: Option<string>): (r: Option<Transaction>)
    ensures r.Some? ==> r.value.description == description && r.value.date == date
    ensures r.Some? ==> amount == Some(r.value.amount)
    ensures r.Some? ==> r.value.category == category && r.value.account == account && r.value.memo == memo
    ensures r.None? <==> description == "" || IsTransfer(description) || date == "" || amount.None?
  {
    if description == "" then None
    else if IsTransfer(description) then None
    else if date == "" then None
    else if amount.None? then None
    else Some(Transaction(date, description, amount.value, category, account, memo))
  }

  /** `transformRow`. */
  function TransformRow(row: Row, m: ColumnMapping): (r: Option<Transaction>)
    ensures r.Some? ==> ValidTransaction(r.value)
    ensures r.Some? ==> r.value.description == FieldText(row, m.description)
    ensures r.Some? ==> r.value.date == FieldText(row, m.date)
    ensures r.Some? ==> Some(r.value.amount) == RowAmount(row, m)
    ensures r.Some? ==> r.value.category == OptionalField(row, m.category)
    ensures r.Some? ==> r.value.account == OptionalField(row, m.account)
    ensures r.Some? ==> r.value.memo == OptionalField(row, m.memo)
  {
    Assemble(FieldText(row, m.description), FieldText(row, m.date), RowAmount(row, m),
      OptionalField(row, m.category), OptionalField(row, m.account), OptionalField(row, m.memo))
  }

  /** The rejection rules, in the order they are checked, and nothing
      else rejects a row. */
  lemma RejectedIff(row: Row, m: ColumnMapping)
    ensures FieldText(row, m.description) == "" ==> TransformRow(row, m).None?
    ensures FieldText(row, m.description) != "" && IsTransfer(FieldText(row, m.description))
      ==> TransformRow(row, m).None?
    ensures FieldText(row, m.description) != "" && FieldText(row, m.date) == ""
      ==> TransformRow(row, m).None?
    ensures TransformRow(row, m).None? <==>
      || FieldText(row, m.description) == ""
      || IsTransfer(FieldText(row, m.description))
      || FieldText(row, m.date) == ""
      || RowAmount(row, m).None?
  {
  }

  /** With separate outflow and inflow columns the amount is the outflow
      when it is positive, and the row is rejected otherwise. */
  lemma PairedAmount(row: Row, m: ColumnMapping)
    requires Mapped(m.outflow) && Mapped(m.inflow)
    ensures var outflow := ParseAmount(CellOf(row, m.outflow.value));
      RowAmount(row, m) == (if outflow > 0.0 then Some(outflow) else None)
  {
  }

  /** The inflow cell never becomes the amount: rewriting it leaves the
      amount of the row unchanged. */
  lemma InflowIgnored(row: Row, m: ColumnMapping, s: string)
    requires Mapped(m.inflow)
    requires m.outflow.Some? ==> m.inflow.value != m.outflow.value
    requires m.amount.Some? ==> m.inflow.value != m.amount.value
    ensures RowAmount(row[m.inflow.value := s], m) == RowAmount(row, m)
  {
    var row' := row[m.inflow.value := s];
    if m.outflow.Some? {
      assert CellOf(row', m.outflow.value) == CellOf(row, m.outflow.value);
    }
    if m.amount.Some? {
      assert CellOf(row', m.amount.value) == CellOf(row, m.amount.value);
    }
  }

  /** The inflow header is bound to no other field. */
  predicate InflowApart(m: ColumnMapping)
    requires m.inflow.Some?
  {
    var h := m.inflow.value;
    && (m.date.Some? ==> m.date.value != h)
    && (m.description.Some? ==> m.description.value != h)
    && (m.amount.Some? ==> m.amount.value != h)
    && (m.outflow.Some? ==> m.outflow.value != h)
    && (m.category.Some? ==> m.category.value != h)
    && (m.account.Some? ==> m.account.value != h)
    && (m.memo.Some? ==> m.memo.value != h)
  }

  /** Rewriting the cell under header `h` leaves a field bound elsewhere
      unchanged. */
  lemma FieldUnchanged(row: Row, o: Option<string>, h: string, s: string)
    requires o.Some? ==> o.value != h
    ensures FieldText(row[h := s], o) == FieldText(row, o)
    ensures OptionalField(row[h := s], o) == OptionalField(row, o)
  {
    if o.Some? {
      assert CellText(row[h := s], o.value) == CellText(row, o.value);
    }
  }

  /** When the inflow header is bound to no other field, rewriting the
      inflow cell changes nothing about the transaction a record yields. */
  lemma TransformIgnoresInflow(row: Row, m: ColumnMapping, s: string)
    requires Mapped(m.inflow) && InflowApart(m)
    ensures TransformRow(row[m.inflow.value := s], m) == TransformRow(row, m)
  {
    var h := m.inflow.value;
    InflowIgnored(row, m, s);
    FieldUnchanged(row, m.description, h, s);
    FieldUnchanged(row, m.date, h, s);
    FieldUnchanged(row, m.category, h, s);
    FieldUnchanged(row, m.account, h, s);
    FieldUnchanged(row, m.memo, h, s);
  }

  /** A mapping binding no header twice keeps the inflow header apart. */
  lemma DistinctInflowApart(m: ColumnMapping)
    requires DistinctFields(m) && m.inflow.Some?
    ensures InflowApart(m)
  {
    var r := Assigned(m);
    assert r[0] == m.date && r[1] == m.description && r[2] == m.amount && r[3] == m.outflow;
    assert r[4] == m.inflow;
    assert r[5] == m.category && r[6] == m.account && r[7] == m.memo;
  }

  /** With a detected mapping, rewriting the inflow cell of a record
      changes nothing about the transaction it yields. */
  lemma DetectedInflowIgnored(headers: seq<string>, row: Row, s: string)
    requires Mapped(DetectColumnMapping(headers).inflow)
    ensures var m := DetectColumnMapping(headers);
      TransformRow(row[m.inflow.value := s], m) == TransformRow(row, m)
  {
    DetectedDistinct(headers);
    DistinctInflowApart(DetectColumnMapping(headers));
    TransformIgnoresInflow(row, DetectColumnMapping(headers), s);
  }

  /** Without separate outflow and inflow columns, a single amount column
      yields the absolute value of its cell, and a zero amount rejects the
      row. */
  lemma SingleAmount(row: Row, m: ColumnMapping)
    requires !(Mapped(m.outflow) && Mapped(m.inflow)) && Mapped(m.amount)
    ensures var raw := ParseAmount(CellOf(row, m.amount.value));
      && (raw == 0.0 <==> RowAmount(row, m).None?)
      && (raw != 0.0 ==> RowAmount(row, m) == Some(if raw < 0.0 then -raw else raw))
  {
  }

  /** An outflow column without an inflow or amount column rejects every
      row. */
  lemma OutflowAloneRejects(row: Row, m: ColumnMapping)
    requires Mapped(m.outflow) && !Mapped(m.inflow) && !Mapped(m.amount)
    ensures TransformRow(row, m) == None
  {
  }
}
