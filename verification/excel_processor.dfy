/** `ExcelProcessor` of app.py: the sibling pipeline that picks a sheet by
    priority or keyword, reads the client name and a date label, cuts the order
    block out of the sheet and turns it into the fixed output schema. */
module ExcelProcessor {
  import opened Wrappers
  import opened Seqs
  import opened Strings
  import opened Tables
  import FrameProcessor

  const ClientKeyword := "Valeo Electric"
  const PickUpKeyword := "Pick-up"
  const ReceivingKeyword := "Receiving"
  const DataMarker := "DB"
  const ExclusionKeyword := "Transportation mode"
  const UnknownDate := "Unknown date"
  const DefaultClient := "Valeo"
  const DefaultPickUpDate := "19.08.2024"

  /** Sheets tried by name before the keyword fallback, in priority order. */
  const PrioritySheets: seq<string> := ["Antalis", "Pick-up order ATK"]

  /** Labels given to the first six columns of the order block. */
  const OrderColumns: seq<string> := ["Planner", ReferenceColumn, "Description", "Location", "Unit", "Details"]

  const ReferenceColumn := "Reference"
  const ClientColumn := "Klient"
  const ExpectedColumn := "Oczekiwany termin realizacji"
  const ConfirmedColumn := "Termin potwierdzony"
  const ProductColumn := "Produkt"

  /** The schema selected before the final relabelling. */
  const ConfigFinalColumns: seq<string> := [
    ClientColumn, ExpectedColumn, ConfirmedColumn, ReferenceColumn, ProductColumn, FrameProcessor.QuantityColumn,
    "Uwagi dla wszystkich", "Uwagi niewidoczne dla produkcji",
    "Atrybut 1 (opcjonalnie)", "Atrybut 2 (opcjonalnie)", "Atrybut 3 (opcjonalnie)"]

  /** A sheet of the workbook as pandas reads it with its first row as header. */
  datatype Sheet = Sheet(name: string, frame: Table)

  // ---------------------------------------------------------------------
  // find_relevant_sheet

  /** Position of the first sheet called `name`. */
  function SheetNamed(workbook: seq<Sheet>, name: string): (r: Option<nat>)
    ensures r.Some? ==> r.value < |workbook| && workbook[r.value].name == name
    ensures r.Some? ==> forall j :: 0 <= j < r.value ==> workbook[j].name != name
    ensures r.None? <==> forall j :: 0 <= j < |workbook| ==> workbook[j].name != name
  {
    FindFirst(workbook, (s: Sheet) => s.name == name)
  }

  /** `find_relevant_sheet`: the "Antalis" sheet, else the "Pick-up order ATK"
      sheet, else the first sheet (in workbook order) whose rendering
      (`to_string()`, given as `render`) contains `keyword`, else nothing. */
  function FindRelevantSheet(workbook: seq<Sheet>, keyword: string, render: Table -> string): (r: Option<Table>)
    ensures r.Some? ==> exists j :: 0 <= j < |workbook| && r.value == workbook[j].frame
    ensures SheetNamed(workbook, PrioritySheets[0]).Some? ==>
              r == Some(workbook[SheetNamed(workbook, PrioritySheets[0]).value].frame)
    ensures SheetNamed(workbook, PrioritySheets[0]).None? && SheetNamed(workbook, PrioritySheets[1]).Some? ==>
              r == Some(workbook[SheetNamed(workbook, PrioritySheets[1]).value].frame)
    ensures SheetNamed(workbook, PrioritySheets[0]).None? && SheetNamed(workbook, PrioritySheets[1]).None? ==>
              && (r.None? <==> forall j :: 0 <= j < |workbook| ==> !Contains(render(workbook[j].frame), keyword))
              && (r.Some? ==> exists j :: 0 <= j < |workbook| && r.value == workbook[j].frame
                                && Contains(render(workbook[j].frame), keyword)
                                && forall j' :: 0 <= j' < j ==> !Contains(render(workbook[j'].frame), keyword))
  {
    match SheetNamed(workbook, PrioritySheets[0])
    case Some(j) => Some(workbook[j].frame)
    case None =>
      match SheetNamed(workbook, PrioritySheets[1])
      case Some(j) => Some(workbook[j].frame)
      case None =>
        match FindFirst(workbook, (s: Sheet) => Contains(render(s.frame), keyword))
        case Some(j) => Some(workbook[j].frame)
        case None => None
  }

  // ---------------------------------------------------------------------
  // extract_client_name

  /** `str.contains(keyword, na=False)` on one cell: only text can match. */
  predicate TextContains(c: Cell, keyword: string) {
    c.Str? && Contains(c.text, keyword)
  }

  /** `extract_client_name`: the fourth cell of the first row whose fourth cell
      contains `keyword`, cut before its first newline and then before its
      first comma; nothing when the frame has fewer than four columns or no
      row matches. */
  function ExtractClientName(data: Table, keyword: string): (r: Option<string>)
    requires WellFormed(data)
    ensures r.Some? ==> '\n' !in r.value && ',' !in r.value
    ensures r.None? <==> |data.columns| < 4
                         || forall i :: 0 <= i < |data.rows| ==> !TextContains(data.rows[i][3], keyword)
    ensures r.Some? ==> exists i :: 0 <= i < |data.rows| && TextContains(data.rows[i][3], keyword)
                          && (forall i' :: 0 <= i' < i ==> !TextContains(data.rows[i'][3], keyword))
                          && |r.value| <= |data.rows[i][3].text|
                          && r.value == data.rows[i][3].text[..|r.value|]
                          && (|r.value| < |data.rows[i][3].text| ==> data.rows[i][3].text[|r.value|] in "\n,")
  {
    if |data.columns| < 4 then None
    else
      match FindFirst(data.rows, (row: Row) => |row| > 3 && TextContains(row[3], keyword))
      case None => None
      case Some(i) =>
        var text := data.rows[i][3].text;
        var line := BeforeFirst(text, '\n');
        var name := BeforeFirst(line, ',');
        assert name == text[..|name|];
        Some(name)
  }

  // ---------------------------------------------------------------------
  // extract_date

  /** First non-missing cell of `row` after position `j`. */
  function NextPresent(row: Row, j: nat): (r: Option<nat>)
    ensures r.Some? ==> j < r.value < |row| && row[r.value] != Missing
    ensures r.Some? ==> forall k :: j < k < r.value ==> row[k] == Missing
    ensures r.None? <==> forall k :: j < k < |row| ==> row[k] == Missing
    decreases |row| - j
  {
    if j + 1 >= |row| then None
    else if row[j + 1] != Missing then Some(j + 1)
    else NextPresent(row, j + 1)
  }

  /** `(i, j)` is the first cell, row by row and left to right, that `matches`. */
  predicate FirstMatch(data: Table, matches: Cell -> bool, i: nat, j: nat) {
    && i < |data.rows| && j < |data.rows[i]| && matches(data.rows[i][j])
    && (forall i' :: 0 <= i' < i ==> forall j' :: 0 <= j' < |data.rows[i']| ==> !matches(data.rows[i'][j']))
    && (forall j' :: 0 <= j' < j ==> !matches(data.rows[i][j']))
  }

  /** `extract_date`: scanning cells row by row, left to right, the first cell
      the keyword pattern matches (`matches`) decides the result: the rendering
      (`show`) of the first non-missing cell to its right, or "Unknown date"
      when there is none; "Unknown date" as well when no cell matches. */
  function ExtractDate(data: Table, matches: Cell -> bool, show: Cell -> string): (r: string)
    ensures (forall i, j :: 0 <= i < |data.rows| && 0 <= j < |data.rows[i]| ==> !matches(data.rows[i][j]))
              ==> r == UnknownDate
    ensures forall i: nat, j: nat :: FirstMatch(data, matches, i, j) ==>
              if NextPresent(data.rows[i], j).Some?
              then r == show(data.rows[i][NextPresent(data.rows[i], j).value])
              else r == UnknownDate
    ensures r != UnknownDate ==>
              exists i, j, k :: 0 <= i < |data.rows| && 0 <= j < k < |data.rows[i]|
                && matches(data.rows[i][j])
                && (forall i' :: 0 <= i' < i ==> forall j' :: 0 <= j' < |data.rows[i']| ==> !matches(data.rows[i'][j']))
                && (forall j' :: 0 <= j' < j ==> !matches(data.rows[i][j']))
                && data.rows[i][k] != Missing
                && (forall k' :: j < k' < k ==> data.rows[i][k'] == Missing)
                && r == show(data.rows[i][k])
  {
    match FindFirst(data.rows, (row: Row) => exists j :: 0 <= j < |row| && matches(row[j]))
    case None => UnknownDate
    case Some(i) =>
      var row := data.rows[i];
      match FindFirst(row, matches)
      case None => assert false; UnknownDate
      case Some(j) =>
        assert FirstMatch(data, matches, i, j);
        assert forall i': nat, j': nat :: FirstMatch(data, matches, i', j') ==> i' == i && j' == j by {
          forall i': nat, j': nat | FirstMatch(data, matches, i', j') ensures i' == i && j' == j {
            assert i' <= i && i <= i';
          }
        }
        match NextPresent(row, j)
        case None => UnknownDate
        case Some(k) => show(row[k])
  }

  // ---------------------------------------------------------------------
  // prepare_order_data

  /** A cell of the first column that marks the start of the order block. */
  predicate IsDataStart(row: Row) {
    |row| > 0 && TextContains(row[0], DataMarker)
  }

  /** Rows kept in the order block: a reference is present and is not the
      repeated section label. */
  predicate IsOrderRow(row: Row) {
    |row| > 1 && row[1] != Missing && row[1] != Str(ExclusionKeyword)
  }

  /** `iloc[:, :6]` on one row. */
  function FirstSix(row: Row): (r: Row)
    ensures |r| == if |row| < 6 then |row| else 6
    ensures r == row[..|r|]
  {
    row[..if |row| < 6 then |row| else 6]
  }

  /** `s` is the first row whose first cell contains "DB". */
  predicate FirstDataStart(data: Table, s: nat) {
    s < |data.rows| && IsDataStart(data.rows[s]) && forall i :: 0 <= i < s ==> !IsDataStart(data.rows[i])
  }

  /** `prepare_order_data`: from the first row whose first cell contains "DB",
      the first six columns labelled `OrderColumns`, without the rows whose
      reference is missing or is the section label.  Without columns, without
      rows, or without such a row the result is the empty frame (the
      `IndexError` is caught); a first column holding no text has no `.str`
      accessor, and fewer than six columns make relabelling raise. */
  function PrepareOrderData(data: Table): (r: Result<Table, Error>)
    requires WellFormed(data)
    ensures |data.columns| == 0 || |data.rows| == 0 ==> r == Success(EmptyFrame)
    ensures |data.columns| > 0 && |data.rows| > 0 && !HoldsText(data, 0) ==> r == Failure(NoStrAccessor)
    ensures (&& |data.columns| > 0 && HoldsText(data, 0)
             && forall i :: 0 <= i < |data.rows| ==> !IsDataStart(data.rows[i]))
              ==> r == Success(EmptyFrame)
    ensures forall s: nat :: FirstDataStart(data, s) ==>
              if |data.columns| < 6 then r == Failure(LengthMismatch(|data.columns|, 6))
              else r == Success(Table(OrderColumns, Filter(Map(data.rows[s..], FirstSix), IsOrderRow)))
    ensures r.Success? ==> WellFormed(r.value) && (r.value == EmptyFrame || r.value.columns == OrderColumns)
  {
    if |data.columns| == 0 || |data.rows| == 0 then Success(EmptyFrame)
    else if !HoldsText(data, 0) then
      assert forall i :: 0 <= i < |data.rows| ==> !IsDataStart(data.rows[i]);
      Failure(NoStrAccessor)
    else
      match FindFirst(data.rows, IsDataStart)
      case None => Success(EmptyFrame)
      case Some(s) =>
        assert FirstDataStart(data, s);
        assert forall s': nat :: FirstDataStart(data, s') ==> s' == s by {
          forall s': nat | FirstDataStart(data, s') ensures s' == s {
            assert s' <= s && s <= s';
          }
        }
        var block := Map(data.rows[s..], FirstSix);
        var width := if |data.columns| < 6 then |data.columns| else 6;
        assert forall i :: 0 <= i < |block| ==> |block[i]| == width;
        var labelled :- Relabel(Table(data.columns[..width], block), OrderColumns);
        var r := FilterRows(labelled, IsOrderRow);
        assert r != EmptyFrame;
        Success(r)
  }

  // ---------------------------------------------------------------------
  // process_file: deriving Produkt and Sztuk

  /** `Description + ' ' + Location.fillna('')` on one row: a missing
      description stays missing, a missing location leaves a trailing space,
      and a number on either side of `+` with text raises. */
  function ProductCell(description: Cell, location: Cell): (r: Result<Cell, Error>)
    ensures description.Missing? ==> r == Success(Missing)
    ensures description.Num? ==> r.Failure?
    ensures description.Str? && location.Missing? ==> r == Success(Str(description.text + " "))
    ensures description.Str? && location.Str? ==> r == Success(Str(description.text + " " + location.text))
    ensures description.Str? && location.Num? ==> r.Failure?
  {
    match description
    case Missing => Success(Missing)
    case Num(_) => Failure(TypeError)
    case Str(d) =>
      match location
      case Missing => Success(Str(d + " "))
      case Str(l) => Success(Str(d + " " + l))
      case Num(_) => Failure(TypeError)
  }

  /** `Details` unless it is missing or the text "NA", in which case "". */
  function QuantityCell(details: Cell): (r: Cell)
    ensures r == Str("") <==> details == Missing || details == Str("NA") || details == Str("")
    ensures r != Str("") ==> r == details
  {
    if details == Missing || details == Str("NA") then Str("") else details
  }

  /** Every order row of the block names a product `ProductCell` can build. */
  predicate NamesProducts(o: Table)
    requires WellFormed(o) && o.columns == OrderColumns
  {
    forall i :: 0 <= i < |o.rows| ==> ProductCell(o.rows[i][2], o.rows[i][3]).Success?
  }

  /** The Produkt cells of every row, or the error of the first row that raises. */
  function Products(rows: seq<Row>): (r: Result<seq<Cell>, Error>)
    requires forall i :: 0 <= i < |rows| ==> |rows[i]| > 3
    ensures r.Success? <==> forall i :: 0 <= i < |rows| ==> ProductCell(rows[i][2], rows[i][3]).Success?
    ensures r.Success? ==> |r.value| == |rows|
    ensures r.Success? ==> forall i :: 0 <= i < |rows| ==> r.value[i] == ProductCell(rows[i][2], rows[i][3]).value
  {
    if |rows| == 0 then Success([])
    else
      var p :- ProductCell(rows[0][2], rows[0][3]);
      var rest :- Products(rows[1..]);
      Success([p] + rest)
  }

  /** The labels after Klient, the two dates, Produkt and Sztuk have been
      assigned to the order block. */
  const DerivedColumns: seq<string> :=
    DefaultedColumns + [ProductColumn] + [FrameProcessor.QuantityColumn]

  /** The labels after the three scalar assignments. */
  const DefaultedColumns: seq<string> := OrderColumns + [ClientColumn] + [ExpectedColumn] + [ConfirmedColumn]

  /** An order row extended with the five assigned cells. */
  function ExtendRow(row: Row): (e: Row)
    ensures |row| == |OrderColumns| ==> |e| == |DerivedColumns|
  {
    if |row| != |OrderColumns| then []
    else row + [Str(DefaultClient), Str(DefaultPickUpDate), Str("")] + [ProductOf(row)] + [QuantityCell(row[5])]
  }

  /** The derived labels are pairwise distinct. */
  lemma DerivedColumnsDistinct()
    ensures forall j, k :: 0 <= j < k < |DerivedColumns| ==> DerivedColumns[j] != DerivedColumns[k]
  {
    var c := DerivedColumns;
    forall j, k | 0 <= j < k < |c| ensures c[j] != c[k] {
      if |c[j]| == |c[k]| {
        assert c[j][0] != c[k][0] || c[j][1] != c[k][1];
      }
    }
  }

  /** Each assigned label is new when it is assigned. */
  lemma AssignedLabelsAreNew()
    ensures ClientColumn !in OrderColumns
    ensures ExpectedColumn !in OrderColumns + [ClientColumn]
    ensures ConfirmedColumn !in OrderColumns + [ClientColumn] + [ExpectedColumn]
    ensures ProductColumn !in DefaultedColumns
    ensures FrameProcessor.QuantityColumn !in DefaultedColumns + [ProductColumn]
  {
    DerivedColumnsDistinct();
    assert DerivedColumns[6] == ClientColumn && DerivedColumns[..6] == OrderColumns;
    assert DerivedColumns[7] == ExpectedColumn && DerivedColumns[..7] == OrderColumns + [ClientColumn];
    assert DerivedColumns[8] == ConfirmedColumn && DerivedColumns[..8] == OrderColumns + [ClientColumn] + [ExpectedColumn];
    assert DerivedColumns[9] == ProductColumn && DerivedColumns[..9] == DefaultedColumns;
    assert DerivedColumns[10] == FrameProcessor.QuantityColumn && DerivedColumns[..10] == DefaultedColumns + [ProductColumn];
  }

  /** The cell `ProductCell` gives a row, or Missing where it raises. */
  function ProductOf(row: Row): Cell
    requires |row| > 3
  {
    match ProductCell(row[2], row[3])
    case Success(c) => c
    case Failure(_) => Missing
  }

  /** The three scalar assignments of `process_file`: Klient, the expected
      pick-up date and an empty confirmed date, appended in that order. */
  function AssignDefaults(o: Table): (r: Table)
    requires WellFormed(o) && o.columns == OrderColumns
    ensures WellFormed(r) && r.columns == DefaultedColumns && |r.rows| == |o.rows|
    ensures forall i :: 0 <= i < |o.rows| ==>
              r.rows[i] == o.rows[i] + [Str(DefaultClient), Str(DefaultPickUpDate), Str("")]
  {
    AssignedLabelsAreNew();
    AppendThree(o, ClientColumn, ExpectedColumn, ConfirmedColumn, Str(DefaultClient), Str(DefaultPickUpDate), Str(""));
    var t1 := AppendConstant(o, ClientColumn, Str(DefaultClient));
    var t2 := AppendConstant(t1, ExpectedColumn, Str(DefaultPickUpDate));
    AppendConstant(t2, ConfirmedColumn, Str(""))
  }

  /** The assignments of `process_file` on a non-empty order block: the
      defaults, then Produkt and Sztuk; raises where `ProductCell` does.
      Every label is new when it is assigned, so each assignment appends a
      column. */
  function DeriveColumns(o: Table): (r: Result<Table, Error>)
    requires WellFormed(o) && o.columns == OrderColumns
    ensures r.Success? <==> forall i :: 0 <= i < |o.rows| ==> ProductCell(o.rows[i][2], o.rows[i][3]).Success?
    ensures r.Success? ==> WellFormed(r.value) && r.value.columns == DerivedColumns
    ensures r.Success? ==> |r.value.rows| == |o.rows|
  {
    var t3 := AssignDefaults(o);
    // The assignments leave Description, Location and Details as they are.
    var products :- Products(o.rows);
    AssignedLabelsAreNew();
    var t4 := AppendColumn(t3, ProductColumn, products);
    var t5 := AppendColumn(t4, FrameProcessor.QuantityColumn, QuantityColumnOf(o.rows));
    Success(t5)
  }

  /** One derived row: the order row followed by the client, the two dates,
      the product text and the quantity. */
  lemma DerivedRow(o: Table, i: nat)
    requires WellFormed(o) && o.columns == OrderColumns && NamesProducts(o) && i < |o.rows|
    ensures DeriveColumns(o).value.rows[i] == ExtendRow(o.rows[i])
  {
    var t3 := AssignDefaults(o);
    var products := Products(o.rows).value;
    AssignedLabelsAreNew();
    var t4 := AppendColumn(t3, ProductColumn, products);
    var t5 := AppendColumn(t4, FrameProcessor.QuantityColumn, QuantityColumnOf(o.rows));
    assert DeriveColumns(o).value == t5;
    var row := o.rows[i];
    assert t3.rows[i] == row + [Str(DefaultClient), Str(DefaultPickUpDate), Str("")];
    assert t5.rows[i] == row + [Str(DefaultClient), Str(DefaultPickUpDate), Str("")] + [ProductOf(row)] + [QuantityCell(row[5])];
  }

  /** Every derived row is its order row extended by `ExtendRow`. */
  lemma DeriveColumnsRows(o: Table)
    requires WellFormed(o) && o.columns == OrderColumns && NamesProducts(o)
    ensures DeriveColumns(o).value.rows == Map(o.rows, ExtendRow)
  {
    var d := DeriveColumns(o).value;
    forall i | 0 <= i < |o.rows| ensures d.rows[i] == ExtendRow(o.rows[i]) {
      DerivedRow(o, i);
    }
  }

  /** `df['Details'].apply(extract_quantity)` as a column. */
  function QuantityColumnOf(rows: seq<Row>): (r: seq<Cell>)
    requires forall i :: 0 <= i < |rows| ==> |rows[i]| > 5
    ensures |r| == |rows| && forall i :: 0 <= i < |rows| ==> r[i] == QuantityCell(rows[i][5])
  {
    seq(|rows|, i requires 0 <= i < |rows| => QuantityCell(rows[i][5]))
  }

  /** Where each of the first six names of the selected schema sits among
      the derived labels. */
  const SchemaSource: seq<nat> := [6, 7, 8, 1, 9, 10]

  /** The first six names of the selected schema are derived labels, found
      at `SchemaSource`. */
  lemma SchemaPresent()
    ensures forall n :: 0 <= n < |SchemaSource| ==> IndexOf(DerivedColumns, ConfigFinalColumns[n]) == Some(SchemaSource[n])
  {
    var d := DerivedColumns;
    assert d[1] == ReferenceColumn && d[6] == ClientColumn && d[7] == ExpectedColumn;
    assert d[8] == ConfirmedColumn && d[9] == ProductColumn && d[10] == FrameProcessor.QuantityColumn;
    DerivedColumnsDistinct();
    forall n | 0 <= n < |SchemaSource| ensures IndexOf(d, ConfigFinalColumns[n]) == Some(SchemaSource[n]) {
      assert ConfigFinalColumns[n] == d[SchemaSource[n]];
      IndexOfAt(d, SchemaSource[n]);
    }
  }

  /** The last five names of the selected schema are not derived labels. */
  lemma SchemaExtrasAbsent()
    ensures forall k :: 6 <= k < |ConfigFinalColumns| ==> ConfigFinalColumns[k] !in DerivedColumns
  {
    forall k, j | 6 <= k < |ConfigFinalColumns| && 0 <= j < |DerivedColumns|
      ensures ConfigFinalColumns[k] != DerivedColumns[j]
    {
      assert |ConfigFinalColumns[k]| != |DerivedColumns[j]|;
    }
  }

  /** An order row with a quantity: `Sztuk` is not "". */
  predicate HasQuantity(row: Row) {
    |row| == |OrderColumns| && QuantityCell(row[5]) != Str("")
  }

  /** The derived table keeps the rows with a quantity. */
  predicate KeepDerived(e: Row) {
    |e| == |DerivedColumns| && e[10] != Str("")
  }

  /** A derived row as the selected schema sees it: Klient, the two dates,
      Reference, Produkt, Sztuk, then the five columns added as "". */
  function SchemaRow(e: Row): Row {
    if |e| != |DerivedColumns| then []
    else seq(|ConfigFinalColumns|, n requires 0 <= n < |ConfigFinalColumns| =>
               if n < |SchemaSource| then e[SchemaSource[n]] else Str(""))
  }

  /** The output row produced from one order row. */
  function OutputRow(row: Row): Row {
    if |row| != |OrderColumns| then []
    else [Str(DefaultClient), Str(DefaultPickUpDate), Str(""), row[1],
          ProductOf(row), QuantityCell(row[5]), Str(""), Str(""), Str(""), Str(""), Str("")]
  }

  /** The rest of `process_file` on a non-empty order block: derive the
      columns, drop the rows whose Sztuk is "", add every schema column that
      does not exist yet as "", select the schema and rename Reference to
      "Zewn. nr zamówienia". */
  function Finish(o: Table): (r: Result<Table, Error>)
    requires WellFormed(o) && o.columns == OrderColumns
    ensures r.Success? <==> forall i :: 0 <= i < |o.rows| ==> ProductCell(o.rows[i][2], o.rows[i][3]).Success?
    ensures r.Success? ==> WellFormed(r.value) && r.value.columns == FrameProcessor.FinalColumns
  {
    var t5 :- DeriveColumns(o);
    var t6 := FilterRows(t5, KeepDerived);
    var t7 := AddMissing(t6, ConfigFinalColumns, Str(""));
    var t8 := Project(t7, ConfigFinalColumns).value;
    Relabel(t8, FrameProcessor.FinalColumns)
  }

  /** The kept derived rows are the extended order rows with a quantity. */
  lemma KeptRows(o: Table)
    requires WellFormed(o) && o.columns == OrderColumns && NamesProducts(o)
    ensures FilterRows(DeriveColumns(o).value, KeepDerived).rows == Map(Filter(o.rows, HasQuantity), ExtendRow)
  {
    DeriveColumnsRows(o);
    forall x: Row ensures KeepDerived(ExtendRow(x)) == HasQuantity(x) {
      if |x| == |OrderColumns| {
        assert ExtendRow(x)[10] == QuantityCell(x[5]);
      }
    }
    FilterMap(o.rows, ExtendRow, KeepDerived, HasQuantity);
  }

  /** Reselecting the schema from a derived row reads the six derived
      columns the schema names and "" for the five it adds. */
  lemma SchemaIsReselection(e: Row)
    requires |e| == |DerivedColumns|
    ensures Reselect(DerivedColumns, ConfigFinalColumns, Str(""), e) == SchemaRow(e)
  {
    SchemaPresent();
    SchemaExtrasAbsent();
  }

  /** Selecting the schema from every derived row, in order. */
  lemma SelectedRows(t6: Table)
    requires WellFormed(t6) && t6.columns == DerivedColumns
    ensures Project(AddMissing(t6, ConfigFinalColumns, Str("")), ConfigFinalColumns).Success?
    ensures Project(AddMissing(t6, ConfigFinalColumns, Str("")), ConfigFinalColumns).value.rows == Map(t6.rows, SchemaRow)
  {
    SelectRowsAfterAddMissing(t6, ConfigFinalColumns, Str(""));
    var t8 := Project(AddMissing(t6, ConfigFinalColumns, Str("")), ConfigFinalColumns).value;
    forall i | 0 <= i < |t6.rows| ensures t8.rows[i] == SchemaRow(t6.rows[i]) {
      SchemaIsReselection(t6.rows[i]);
    }
  }

  /** The selected schema of an extended row is the output row. */
  lemma OutputRowIsSelection(row: Row)
    requires |row| == |OrderColumns|
    ensures SchemaRow(ExtendRow(row)) == OutputRow(row)
  {
    var e := ExtendRow(row);
    assert e[1] == row[1] && e[6] == Str(DefaultClient) && e[7] == Str(DefaultPickUpDate);
    assert e[8] == Str("") && e[9] == ProductOf(row) && e[10] == QuantityCell(row[5]);
  }

  /** The output holds, in order, one row per order row with a quantity:
      client "Valeo", expected date 19.08.2024, empty confirmed date, the
      reference, the product text, the quantity and five empty columns. */
  lemma FinishRows(o: Table)
    requires WellFormed(o) && o.columns == OrderColumns && NamesProducts(o)
    ensures Finish(o).value.rows == Map(Filter(o.rows, HasQuantity), OutputRow)
  {
    var t5 := DeriveColumns(o).value;
    var t6 := FilterRows(t5, KeepDerived);
    var t8 := Project(AddMissing(t6, ConfigFinalColumns, Str("")), ConfigFinalColumns).value;
    assert Finish(o).value.rows == t8.rows;
    KeptRows(o);
    SelectedRows(t6);
    var kept := Filter(o.rows, HasQuantity);
    forall i | 0 <= i < |kept| ensures t8.rows[i] == OutputRow(kept[i]) {
      assert HasQuantity(kept[i]);
      OutputRowIsSelection(kept[i]);
    }
  }

  /** Every sheet frame is rectangular. */
  predicate WellFormedBook(workbook: seq<Sheet>) {
    forall j :: 0 <= j < |workbook| ==> WellFormed(workbook[j].frame)
  }

  /** The Description column of the relevant sheet holds some text.  Without
      any, pandas reads it as a numeric column, and `Description + ' '`
      raises whatever the cells are. */
  predicate TextDescriptions(workbook: seq<Sheet>, render: Table -> string) {
    var s := FindRelevantSheet(workbook, ClientKeyword, render);
    s.Some? && HoldsText(s.value, 2)
  }

  /** `process_file`: the order table of the relevant sheet in the output
      schema, or the empty frame when there is no relevant sheet, no order
      block, no order row, or a step raises (every exception is caught). */
  function ProcessFile(workbook: seq<Sheet>, render: Table -> string): (r: Table)
    requires WellFormedBook(workbook)
    ensures r == EmptyFrame || (WellFormed(r) && r.columns == FrameProcessor.FinalColumns)
  {
    match OrderBlock(workbook, render)
    case None => EmptyFrame
    case Some(o) =>
      if !TextDescriptions(workbook, render) then EmptyFrame
      else
        match Finish(o)
        case Failure(_) => EmptyFrame
        case Success(r) => r
  }

  /** The non-empty order block of the relevant sheet, when there is one
      and `prepare_order_data` does not raise. */
  function OrderBlock(workbook: seq<Sheet>, render: Table -> string): (r: Option<Table>)
    requires WellFormedBook(workbook)
    ensures r.Some? ==> WellFormed(r.value) && r.value.columns == OrderColumns && |r.value.rows| > 0
  {
    match FindRelevantSheet(workbook, ClientKeyword, render)
    case None => None
    case Some(data) =>
      assert WellFormed(data);
      match PrepareOrderData(data)
      case Failure(_) => None
      case Success(o) => if |o.rows| == 0 then None else Some(o)
  }

  /** There is an order block exactly when a relevant sheet is found and
      `prepare_order_data` gives it at least one order row; the block is
      that table. */
  lemma OrderBlockOfRelevantSheet(workbook: seq<Sheet>, render: Table -> string)
    requires WellFormedBook(workbook)
    ensures var s := FindRelevantSheet(workbook, ClientKeyword, render);
            OrderBlock(workbook, render).Some?
            <==> s.Some? && PrepareOrderData(s.value).Success? && |PrepareOrderData(s.value).value.rows| > 0
    ensures var s := FindRelevantSheet(workbook, ClientKeyword, render);
            OrderBlock(workbook, render).Some? ==> OrderBlock(workbook, render).value == PrepareOrderData(s.value).value
  {
  }

  /** The order rows `prepare_order_data` keeps from a sheet whose first
      "DB" row is `st`. */
  function OrderRows(data: Table, st: nat): (r: seq<Row>)
    requires WellFormed(data) && st <= |data.rows|
    ensures |data.columns| >= 6 ==> WellFormed(Table(OrderColumns, r))
  {
    var block := Map(data.rows[st..], FirstSix);
    var r := Filter(block, IsOrderRow);
    forall i | 0 <= i < |r| ensures |r[i]| == if |data.columns| < 6 then |data.columns| else 6 {
      FilterMembers(block, IsOrderRow, r[i]);
    }
    r
  }

  /** The processed table is the empty frame when no sheet is relevant, when
      the relevant sheet has fewer than six columns, no rows, no text in its
      first or its Description column, no "DB" row, or no order row after
      the first "DB" row. */
  lemma ProcessFileEmpty(workbook: seq<Sheet>, render: Table -> string)
    requires WellFormedBook(workbook)
    ensures FindRelevantSheet(workbook, ClientKeyword, render).None? ==> ProcessFile(workbook, render) == EmptyFrame
    ensures var s := FindRelevantSheet(workbook, ClientKeyword, render);
            s.Some? && (|| |s.value.columns| < 6 || |s.value.rows| == 0
                        || !HoldsText(s.value, 0) || !HoldsText(s.value, 2)
                        || forall i :: 0 <= i < |s.value.rows| ==> !IsDataStart(s.value.rows[i]))
            ==> ProcessFile(workbook, render) == EmptyFrame
    ensures forall st: nat :: var s := FindRelevantSheet(workbook, ClientKeyword, render);
              s.Some? && FirstDataStart(s.value, st) && |OrderRows(s.value, st)| == 0
              ==> ProcessFile(workbook, render) == EmptyFrame
  {
    var s := FindRelevantSheet(workbook, ClientKeyword, render);
    if s.Some? {
      var data := s.value;
      assert WellFormed(data);
      OrderBlockOfRelevantSheet(workbook, render);
      if || |data.columns| < 6 || |data.rows| == 0 || !HoldsText(data, 0)
         || forall i :: 0 <= i < |data.rows| ==> !IsDataStart(data.rows[i])
      {
        NoOrderBlock(data);
      }
      forall st: nat | FirstDataStart(data, st) && |OrderRows(data, st)| == 0
        ensures ProcessFile(workbook, render) == EmptyFrame
      {
        NoOrderBlock(data);
      }
    }
  }

  /** The sheets `prepare_order_data` turns into an error or into no order row. */
  lemma NoOrderBlock(data: Table)
    requires WellFormed(data)
    ensures (|| |data.columns| < 6 || |data.rows| == 0 || !HoldsText(data, 0)
             || (forall i :: 0 <= i < |data.rows| ==> !IsDataStart(data.rows[i]))
             || exists st: nat :: FirstDataStart(data, st) && |OrderRows(data, st)| == 0)
            ==> PrepareOrderData(data).Failure? || |PrepareOrderData(data).value.rows| == 0
  {
    if |data.columns| >= 6 && |data.rows| > 0 && HoldsText(data, 0) && exists i :: 0 <= i < |data.rows| && IsDataStart(data.rows[i]) {
      var st := FindFirst(data.rows, IsDataStart).value;
      assert FirstDataStart(data, st);
      forall st': nat | FirstDataStart(data, st') ensures st' == st {
        assert st' <= st && st <= st';
      }
    }
  }

  /** With an order block, the processed table is the empty frame exactly
      when the Description column holds no text or some order row names no
      product; otherwise its rows are the order rows that have a quantity,
      each in the output schema. */
  lemma ProcessFileOutput(workbook: seq<Sheet>, render: Table -> string, o: Table)
    requires WellFormedBook(workbook) && OrderBlock(workbook, render) == Some(o)
    ensures ProcessFile(workbook, render) != EmptyFrame <==> TextDescriptions(workbook, render) && NamesProducts(o)
    ensures TextDescriptions(workbook, render) && NamesProducts(o) ==>
              ProcessFile(workbook, render).rows == Map(Filter(o.rows, HasQuantity), OutputRow)
  {
    FinishNotEmpty(o);
    if Finish(o).Success? { FinishRows(o); }
  }

  /** End to end: for a relevant sheet of at least six columns whose first
      "DB" row is `st` and whose Description column holds text, the processed
      table has a row exactly when some order row survives and every order
      row names a product, and its rows are then the surviving order rows
      with a quantity, in the output schema. */
  lemma ProcessFileOfSheet(workbook: seq<Sheet>, render: Table -> string, data: Table, st: nat)
    requires WellFormedBook(workbook) && FindRelevantSheet(workbook, ClientKeyword, render) == Some(data)
    requires FirstDataStart(data, st) && |data.columns| >= 6 && HoldsText(data, 2)
    ensures var o := Table(OrderColumns, OrderRows(data, st));
            ProcessFile(workbook, render) != EmptyFrame <==> |o.rows| > 0 && NamesProducts(o)
    ensures var o := Table(OrderColumns, OrderRows(data, st));
            |o.rows| > 0 && NamesProducts(o) ==>
              ProcessFile(workbook, render).rows == Map(Filter(o.rows, HasQuantity), OutputRow)
  {
    assert WellFormed(data);
    OrderBlockOfRelevantSheet(workbook, render);
    var o := Table(OrderColumns, OrderRows(data, st));
    if |o.rows| > 0 {
      ProcessFileOutput(workbook, render, o);
    } else {
      ProcessFileEmpty(workbook, render);
    }
  }

  /** A finished table is never the empty frame: it has the output columns. */
  lemma FinishNotEmpty(o: Table)
    requires WellFormed(o) && o.columns == OrderColumns
    ensures Finish(o).Success? ==> Finish(o).value != EmptyFrame
  {
    if Finish(o).Success? { assert |Finish(o).value.columns| == |FrameProcessor.FinalColumns|; }
  }
}
