/** The `/edycja` overlay of app.py: form fields that, when filled in,
    overwrite the client and the two date columns on every row of the
    processed table. */
module Overlay {
  import opened Wrappers
  import opened Strings
  import opened Tables
  import opened Dates
  import ExcelProcessor

  /** A form field counts when it was sent and is not only whitespace
      (`field is not None and field.strip()`). */
  predicate Given(field: Option<string>) {
    field.Some? && Strip(field.value) != ""
  }

  /** A date field is accepted when it is absent, blank, or parses as
      `%d.%m.%Y` once stripped. */
  predicate DateAccepted(field: Option<string>) {
    !Given(field) || ParseDotted(Strip(field.value)).Some?
  }

  /** The ISO text written for an accepted, given date field. */
  function IsoText(field: Option<string>): string
    requires Given(field) && DateAccepted(field)
  {
    FormatIso(ParseDotted(Strip(field.value)).value)
  }

  /** The cell a date field assigns, nothing for a blank field, or the
      ValueError `strptime` raises. */
  function DateCell(field: Option<string>): (r: Result<Option<Cell>, Error>)
    ensures r.Success? <==> DateAccepted(field)
    ensures r.Success? ==> (r.value.Some? <==> Given(field))
    ensures r.Success? && Given(field) ==> r.value == Some(Str(IsoText(field)))
    ensures r.Failure? ==> r.error.BadDate?
  {
    if !Given(field) then Success(None)
    else
      var text := Strip(field.value);
      match ParseDotted(text)
      case None => Failure(BadDate(text))
      case Some(d) => Success(Some(Str(FormatIso(d))))
  }

  /** `df[name] = cell` when there is a cell to assign. */
  function Overwrite(t: Table, name: string, cell: Option<Cell>): (r: Table)
    requires WellFormed(t)
    ensures WellFormed(r) && |r.rows| == |t.rows|
    ensures |t.columns| <= |r.columns| && r.columns[..|t.columns|] == t.columns
    ensures cell.Some? ==> ColumnHolds(r, name, cell.value)
    ensures forall i, j :: 0 <= i < |t.rows| && 0 <= j < |t.columns| && (cell.None? || t.columns[j] != name)
              ==> r.rows[i][j] == t.rows[i][j]
    ensures forall n, c :: n != name && WellFormed(t) && ColumnHolds(t, n, c) ==> ColumnHolds(r, n, c)
    ensures cell.None? ==> r == t
  {
    match cell
    case None => t
    case Some(c) =>
      var r := Fill(t, name, c);
      assert r.columns[..|t.columns|] == t.columns;
      forall n, v | n != name && ColumnHolds(t, n, v) ensures ColumnHolds(r, n, v) {
        IndexOfExtend(t.columns, r.columns, n);
      }
      r
  }

  /** A label the overlay assigns with the given fields. */
  predicate Assigned(name: string, client: Option<string>, expected: Option<string>, confirmed: Option<string>) {
    (name == ExcelProcessor.ClientColumn && Given(client))
    || (name == ExcelProcessor.ExpectedColumn && Given(expected))
    || (name == ExcelProcessor.ConfirmedColumn && Given(confirmed))
  }

  /** The overlay: a stripped client name and the two dates, each read as
      `%d.%m.%Y` and written as `%Y-%m-%d`, overwrite their columns on every
      row; blank fields change nothing; an unreadable date raises and nothing
      is stored. */
  function ApplyOverlay(t: Table, client: Option<string>, expected: Option<string>, confirmed: Option<string>)
    : (r: Result<Table, Error>)
    requires WellFormed(t)
    ensures r.Success? <==> DateAccepted(expected) && DateAccepted(confirmed)
    ensures r.Failure? ==> r.error.BadDate?
    ensures r.Success? ==> WellFormed(r.value) && |r.value.rows| == |t.rows|
    ensures r.Success? ==> |t.columns| <= |r.value.columns| && r.value.columns[..|t.columns|] == t.columns
    ensures !Given(client) && !Given(expected) && !Given(confirmed) ==> r == Success(t)
  {
    var expectedCell :- DateCell(expected);
    var confirmedCell :- DateCell(confirmed);
    Success(Steps(t, ClientCell(client), expectedCell, confirmedCell))
  }

  /** The cell a client field assigns. */
  function ClientCell(client: Option<string>): (r: Option<Cell>)
    ensures r.Some? <==> Given(client)
    ensures r.Some? ==> r.value == Str(Strip(client.value))
  {
    if Given(client) then Some(Str(Strip(client.value))) else None
  }

  /** The three assignments in the order the route makes them. */
  function Steps(t: Table, clientCell: Option<Cell>, expectedCell: Option<Cell>, confirmedCell: Option<Cell>): (r: Table)
    requires WellFormed(t)
    ensures WellFormed(r) && |r.rows| == |t.rows|
    ensures |t.columns| <= |r.columns| && r.columns[..|t.columns|] == t.columns
  {
    var t1 := Overwrite(t, ExcelProcessor.ClientColumn, clientCell);
    var t2 := Overwrite(t1, ExcelProcessor.ExpectedColumn, expectedCell);
    var t3 := Overwrite(t2, ExcelProcessor.ConfirmedColumn, confirmedCell);
    assert t3.columns[..|t.columns|] == t.columns by {
      assert t3.columns[..|t2.columns|][..|t.columns|] == t2.columns[..|t.columns|];
      assert t2.columns[..|t1.columns|][..|t.columns|] == t1.columns[..|t.columns|];
    }
    t3
  }

  /** Each given field's column holds its value on every row afterwards. */
  lemma OverlayAssigns(t: Table, client: Option<string>, expected: Option<string>, confirmed: Option<string>)
    requires WellFormed(t) && ApplyOverlay(t, client, expected, confirmed).Success?
    ensures var u := ApplyOverlay(t, client, expected, confirmed).value;
            (Given(client) ==> ColumnHolds(u, ExcelProcessor.ClientColumn, Str(Strip(client.value))))
            && (Given(expected) ==> ColumnHolds(u, ExcelProcessor.ExpectedColumn, Str(IsoText(expected))))
            && (Given(confirmed) ==> ColumnHolds(u, ExcelProcessor.ConfirmedColumn, Str(IsoText(confirmed))))
  {
    var e, c := DateCell(expected).value, DateCell(confirmed).value;
    var t1 := Overwrite(t, ExcelProcessor.ClientColumn, ClientCell(client));
    var t2 := Overwrite(t1, ExcelProcessor.ExpectedColumn, e);
    var t3 := Overwrite(t2, ExcelProcessor.ConfirmedColumn, c);
    assert ApplyOverlay(t, client, expected, confirmed).value == t3;
    LabelsDistinct();
  }

  /** The three assigned labels differ. */
  lemma LabelsDistinct()
    ensures ExcelProcessor.ClientColumn != ExcelProcessor.ExpectedColumn
    ensures ExcelProcessor.ClientColumn != ExcelProcessor.ConfirmedColumn
    ensures ExcelProcessor.ExpectedColumn != ExcelProcessor.ConfirmedColumn
  {
    assert |ExcelProcessor.ClientColumn| == 6;
    assert |ExcelProcessor.ExpectedColumn| == 28;
    assert |ExcelProcessor.ConfirmedColumn| == 19;
  }

  /** Every cell of a column the fields do not assign is kept. */
  lemma OverlayKeepsOthers(t: Table, client: Option<string>, expected: Option<string>, confirmed: Option<string>)
    requires WellFormed(t) && ApplyOverlay(t, client, expected, confirmed).Success?
    ensures var u := ApplyOverlay(t, client, expected, confirmed).value;
            forall i, j :: (0 <= i < |t.rows| && 0 <= j < |t.columns|
                            && !Assigned(t.columns[j], client, expected, confirmed)) ==> u.rows[i][j] == t.rows[i][j]
  {
    var e, c := DateCell(expected).value, DateCell(confirmed).value;
    var t1 := Overwrite(t, ExcelProcessor.ClientColumn, ClientCell(client));
    var t2 := Overwrite(t1, ExcelProcessor.ExpectedColumn, e);
    var t3 := Overwrite(t2, ExcelProcessor.ConfirmedColumn, c);
    assert ApplyOverlay(t, client, expected, confirmed).value == t3;
    forall i, j | 0 <= i < |t.rows| && 0 <= j < |t.columns| && !Assigned(t.columns[j], client, expected, confirmed)
      ensures t3.rows[i][j] == t.rows[i][j]
    {
      assert t1.columns[j] == t.columns[j] && t2.columns[j] == t.columns[j];
    }
  }

  /** Submitting the same fields twice gives the same table as once. */
  lemma OverlayIdempotent(t: Table, client: Option<string>, expected: Option<string>, confirmed: Option<string>)
    requires WellFormed(t) && ApplyOverlay(t, client, expected, confirmed).Success?
    ensures ApplyOverlay(ApplyOverlay(t, client, expected, confirmed).value, client, expected, confirmed)
            == ApplyOverlay(t, client, expected, confirmed)
  {
    var u := ApplyOverlay(t, client, expected, confirmed).value;
    OverlayAssigns(t, client, expected, confirmed);
    var e, c := DateCell(expected).value, DateCell(confirmed).value;
    var cc := ClientCell(client);
    if cc.Some? { FillNoop(u, ExcelProcessor.ClientColumn, cc.value); }
    var u1 := Overwrite(u, ExcelProcessor.ClientColumn, cc);
    assert u1 == u;
    if e.Some? { FillNoop(u1, ExcelProcessor.ExpectedColumn, e.value); }
    var u2 := Overwrite(u1, ExcelProcessor.ExpectedColumn, e);
    assert u2 == u;
    if c.Some? { FillNoop(u2, ExcelProcessor.ConfirmedColumn, c.value); }
    assert Steps(u, cc, e, c) == u;
  }
}
