/** The remaining steps of `DataFrameProcessor` in processor.py, applied after
    the columns have been renamed: deriving the piece count, adding the
    placeholder columns, dropping zero-pack, blank and noise rows, and
    projecting onto the final column order. */
module FrameProcessor {
  import opened Wrappers
  import opened Seqs
  import opened Strings
  import opened Tables

  const PackColumn := "Ordered in Std Pack"
  const LoopColumn := "Loop Size"
  const QuantityColumn := "Sztuk"

  /** Columns a human fills in later; created empty. */
  const Placeholders: seq<string> := [
    "Klient", "Oczekiwany termin realizacji", "Termin potwierdzony",
    "Uwagi dla wszystkich", "Uwagi niewidoczne dla produkcji",
    "Atrybut 1 (opcjonalnie)", "Atrybut 2 (opcjonalnie)", "Atrybut 3 (opcjonalnie)"]

  /** Text fragments marking boilerplate and signature rows. */
  const NoiseFragments: seq<string> := [
    "Transportation mode", "Supplier Contact signature", "for the promise", "____________________"]

  /** The output columns, in output order. */
  const FinalColumns: seq<string> := [
    "Klient", "Oczekiwany termin realizacji", "Termin potwierdzony",
    "Zewn. nr zamówienia", "Produkt", "Sztuk",
    "Uwagi dla wszystkich", "Uwagi niewidoczne dla produkcji",
    "Atrybut 1 (opcjonalnie)", "Atrybut 2 (opcjonalnie)", "Atrybut 3 (opcjonalnie)"]

  // ---------------------------------------------------------------------
  // add_additional_columns

  /** The factor and quantity columns are not among the placeholders. */
  lemma DerivedNotPlaceholders()
    ensures QuantityColumn !in Placeholders && PackColumn !in Placeholders && LoopColumn !in Placeholders
  {
    forall k | 0 <= k < |Placeholders|
      ensures Placeholders[k] != QuantityColumn && Placeholders[k] != PackColumn && Placeholders[k] != LoopColumn
    {
      assert Placeholders[k][1] != QuantityColumn[1];
      assert Placeholders[k][1] != PackColumn[1];
      assert Placeholders[k][1] != LoopColumn[1];
    }
  }

  /** `astype(int)` on a float: truncation toward zero. */
  function Trunc(x: real): (n: int)
    ensures x >= 0.0 ==> n as real <= x < n as real + 1.0
    ensures x < 0.0 ==> n as real - 1.0 < x <= n as real
  {
    if x >= 0.0 then x.Floor else -((-x).Floor)
  }

  /** `fillna(0)` on one cell. */
  function FillZero(c: Cell): Cell {
    if c.Missing? then Num(0.0) else c
  }

  /** The float a cell of a numeric column holds, a missing cell counting as 0
      (it has been filled with 0); text is not converted. */
  function NumericValue(c: Cell): (r: Result<real, Error>)
    ensures r.Success? <==> !c.Str?
    ensures c.Missing? ==> r == Success(0.0)
    ensures c.Num? ==> r == Success(c.value)
  {
    match c
    case Missing => Success(0.0)
    case Num(x) => Success(x)
    case Str(_) => Failure(NotNumeric)
  }

  /** The piece count of one row: the product of pack count and loop size,
      truncated toward zero; a missing factor counts as 0. */
  function Quantity(pack: Cell, loop: Cell): (r: Result<Cell, Error>)
    ensures r.Success? <==> !pack.Str? && !loop.Str?
    ensures r.Success? ==> r.value.Num? && r.value.value == r.value.value.Floor as real
    ensures r.Success? ==>
              var x := NumericValue(pack).value * NumericValue(loop).value;
              && (x >= 0.0 ==> r.value.value <= x < r.value.value + 1.0)
              && (x < 0.0 ==> r.value.value - 1.0 < x <= r.value.value)
  {
    if pack.Str? || loop.Str? then Failure(NotNumeric)
    else Success(Num(Trunc(NumericValue(pack).value * NumericValue(loop).value) as real))
  }

  /** The piece counts of all rows, or the error of the first row with text in
      one of the two numeric columns. */
  function Quantities(rows: seq<Row>, p: nat, l: nat): (r: Result<seq<Cell>, Error>)
    requires forall i :: 0 <= i < |rows| ==> p < |rows[i]| && l < |rows[i]|
    ensures r.Success? <==> forall i :: 0 <= i < |rows| ==> !rows[i][p].Str? && !rows[i][l].Str?
    ensures r.Success? ==> |r.value| == |rows|
    ensures r.Success? ==> forall i :: 0 <= i < |rows| ==>
              r.value[i] == Quantity(rows[i][p], rows[i][l]).value
  {
    if |rows| == 0 then Success([])
    else
      var q :- Quantity(rows[0][p], rows[0][l]);
      var rest :- Quantities(rows[1..], p, l);
      Success([q] + rest)
  }

  /** `df[name] = value` for every name in `names`, in order. */
  function FillAll(t: Table, names: seq<string>, value: Cell): (r: Table)
    requires WellFormed(t)
    ensures WellFormed(r) && |r.rows| == |t.rows|
    ensures |t.columns| <= |r.columns| && r.columns[..|t.columns|] == t.columns
    ensures forall k :: 0 <= k < |names| ==> names[k] in r.columns
    decreases |names|
  {
    if |names| == 0 then t
    else
      var n := |names| - 1;
      var prev := FillAll(t, names[..n], value);
      var r := Fill(prev, names[n], value);
      assert forall k :: 0 <= k < n ==> names[..n][k] == names[k];
      assert r.columns[..|t.columns|] == t.columns by {
        assert r.columns[..|prev.columns|] == prev.columns;
        assert r.columns[..|prev.columns|][..|t.columns|] == prev.columns[..|t.columns|];
      }
      r
  }

  /** Every filled column holds `value` on every row. */
  lemma {:induction false} FillAllSets(t: Table, names: seq<string>, value: Cell, k: nat, i: nat)
    requires WellFormed(t) && k < |names| && i < |t.rows|
    ensures var r := FillAll(t, names, value);
            r.rows[i][IndexOf(r.columns, names[k]).value] == value
    decreases |names|
  {
    var n := |names| - 1;
    var prev := FillAll(t, names[..n], value);
    if names[k] != names[n] {
      assert names[..n][k] == names[k];
      FillAllSets(t, names[..n], value, k, i);
      FillKeepsOther(prev, names[n], value, names[k], i);
    }
  }

  /** Filling one column leaves the cells of another named column in place. */
  lemma FillKeepsOther(t: Table, name: string, value: Cell, other: string, i: nat)
    requires WellFormed(t) && other in t.columns && other != name && i < |t.rows|
    ensures var r := Fill(t, name, value);
            r.rows[i][IndexOf(r.columns, other).value] == t.rows[i][IndexOf(t.columns, other).value]
  {
    var r := Fill(t, name, value);
    assert r.columns[..|t.columns|] == t.columns;
    IndexOfExtend(t.columns, r.columns, other);
  }

  /** A cell of a column not in `names` is untouched. */
  lemma {:induction false} FillAllKeeps(t: Table, names: seq<string>, value: Cell, i: nat, j: nat)
    requires WellFormed(t) && i < |t.rows| && j < |t.columns| && t.columns[j] !in names
    ensures FillAll(t, names, value).rows[i][j] == t.rows[i][j]
    decreases |names|
  {
    if |names| > 0 {
      var n := |names| - 1;
      assert t.columns[j] !in names[..n];
      FillAllKeeps(t, names[..n], value, i, j);
      var prev := FillAll(t, names[..n], value);
      assert prev.columns[j] == t.columns[j];
    }
  }

  /** `add_additional_columns` succeeds: both factor columns exist and hold no
      text. */
  predicate Derivable(t: Table)
    requires WellFormed(t)
  {
    && PackColumn in t.columns
    && LoopColumn in t.columns
    && forall i :: 0 <= i < |t.rows| ==>
         && !t.rows[i][IndexOf(t.columns, PackColumn).value].Str?
         && !t.rows[i][IndexOf(t.columns, LoopColumn).value].Str?
  }

  /** The table after `fillna(0)` on both factor columns and the assignment of
      `Sztuk`. */
  function WithQuantity(t: Table, qs: seq<Cell>): (r: Table)
    requires WellFormed(t) && PackColumn in t.columns && LoopColumn in t.columns && |qs| == |t.rows|
    ensures WellFormed(r) && |r.rows| == |t.rows|
    ensures |t.columns| <= |r.columns| && r.columns[..|t.columns|] == t.columns
    ensures IndexOf(r.columns, PackColumn) == IndexOf(t.columns, PackColumn)
    ensures IndexOf(r.columns, LoopColumn) == IndexOf(t.columns, LoopColumn)
    ensures IndexOf(r.columns, QuantityColumn).Some?
  {
    var t2 := FillZeroColumn(FillZeroColumn(t, PackColumn), LoopColumn);
    var r := SetColumn(t2, QuantityColumn, qs);
    assert r.columns[..|t.columns|] == t.columns;
    IndexOfExtend(t.columns, r.columns, PackColumn);
    IndexOfExtend(t.columns, r.columns, LoopColumn);
    r
  }

  /** On every row of `WithQuantity`, `Sztuk` holds the given piece count and
      both factors are filled with 0 when missing. */
  lemma WithQuantityCells(t: Table, qs: seq<Cell>, i: nat)
    requires WellFormed(t) && PackColumn in t.columns && LoopColumn in t.columns && |qs| == |t.rows|
    requires i < |t.rows|
    ensures var r := WithQuantity(t, qs);
            && r.rows[i][IndexOf(r.columns, QuantityColumn).value] == qs[i]
            && r.rows[i][IndexOf(r.columns, PackColumn).value] == FillZero(t.rows[i][IndexOf(t.columns, PackColumn).value])
            && r.rows[i][IndexOf(r.columns, LoopColumn).value] == FillZero(t.rows[i][IndexOf(t.columns, LoopColumn).value])
  {
    var p := IndexOf(t.columns, PackColumn).value;
    var l := IndexOf(t.columns, LoopColumn).value;
    var t1 := FillZeroColumn(t, PackColumn);
    var t2 := FillZeroColumn(t1, LoopColumn);
    assert p != l by { assert t.columns[p] != t.columns[l]; }
    var r := SetColumn(t2, QuantityColumn, qs);
    assert r == WithQuantity(t, qs);
    assert t2.columns[p] != QuantityColumn && t2.columns[l] != QuantityColumn;
    assert t1.rows[i][p] == FillZero(t.rows[i][p]) && t1.rows[i][l] == t.rows[i][l];
    assert t2.rows[i][p] == t1.rows[i][p] && t2.rows[i][l] == FillZero(t1.rows[i][l]);
  }

  /** `df[name] = df[name].fillna(0)` on a column that exists. */
  function FillZeroColumn(t: Table, name: string): (r: Table)
    requires WellFormed(t) && name in t.columns
    ensures WellFormed(r) && r.columns == t.columns && |r.rows| == |t.rows|
    ensures forall i, j :: 0 <= i < |t.rows| && 0 <= j < |t.columns| ==>
              r.rows[i][j] == if j == IndexOf(t.columns, name).value then FillZero(t.rows[i][j]) else t.rows[i][j]
  {
    var k := IndexOf(t.columns, name).value;
    Table(t.columns, seq(|t.rows|, i requires 0 <= i < |t.rows| => t.rows[i][k := FillZero(t.rows[i][k])]))
  }

  /** `add_additional_columns`: missing pack counts and loop sizes become 0,
      `Sztuk` is their truncated product, and the placeholder columns are set
      to "" on every row; the existing columns keep their positions. */
  function AddAdditionalColumns(t: Table): (r: Result<Table, Error>)
    requires WellFormed(t)
    ensures r.Success? <==> Derivable(t)
    ensures r.Success? ==> WellFormed(r.value) && |r.value.rows| == |t.rows|
    ensures r.Success? ==> |t.columns| <= |r.value.columns| && r.value.columns[..|t.columns|] == t.columns
    ensures r.Success? ==> QuantityColumn in r.value.columns
    ensures r.Success? ==> forall k :: 0 <= k < |Placeholders| ==> Placeholders[k] in r.value.columns
  {
    if PackColumn !in t.columns then Failure(KeyError(PackColumn))
    else if LoopColumn !in t.columns then Failure(KeyError(LoopColumn))
    else
      var p := IndexOf(t.columns, PackColumn).value;
      var l := IndexOf(t.columns, LoopColumn).value;
      var qs :- Quantities(t.rows, p, l);
      Success(Extend(t, qs))
  }

  /** The columns `add_additional_columns` assigns, given the piece counts. */
  function Extend(t: Table, qs: seq<Cell>): (r: Table)
    requires WellFormed(t) && PackColumn in t.columns && LoopColumn in t.columns && |qs| == |t.rows|
    ensures WellFormed(r) && |r.rows| == |t.rows|
    ensures |t.columns| <= |r.columns| && r.columns[..|t.columns|] == t.columns
    ensures QuantityColumn in r.columns
    ensures forall k :: 0 <= k < |Placeholders| ==> Placeholders[k] in r.columns
  {
    var t3 := WithQuantity(t, qs);
    var r := FillAll(t3, Placeholders, Str(""));
    PrefixOfPrefix(t.columns, t3.columns, r.columns);
    PrefixMember(t3.columns, r.columns, QuantityColumn);
    r
  }

  /** Every row's `Sztuk` is the truncated product of its pack count and loop
      size (a missing factor counting as 0), and its pack count is filled with 0
      when missing. */
  lemma AddAdditionalColumnsQuantity(t: Table, i: nat)
    requires WellFormed(t) && Derivable(t) && i < |t.rows|
    ensures var r := AddAdditionalColumns(t).value;
            var packCell := t.rows[i][IndexOf(t.columns, PackColumn).value];
            var loopCell := t.rows[i][IndexOf(t.columns, LoopColumn).value];
            && Quantity(packCell, loopCell).Success?
            && r.rows[i][IndexOf(r.columns, QuantityColumn).value] == Quantity(packCell, loopCell).value
            && r.rows[i][IndexOf(r.columns, PackColumn).value] == FillZero(packCell)
            && r.rows[i][IndexOf(r.columns, LoopColumn).value] == FillZero(loopCell)
  {
    var p := IndexOf(t.columns, PackColumn).value;
    var l := IndexOf(t.columns, LoopColumn).value;
    var qs := Quantities(t.rows, p, l).value;
    assert AddAdditionalColumns(t) == Success(Extend(t, qs));
    ExtendCells(t, qs, i);
  }

  /** The piece count and the filled pack count of one row of `Extend`. */
  lemma ExtendCells(t: Table, qs: seq<Cell>, i: nat)
    requires WellFormed(t) && PackColumn in t.columns && LoopColumn in t.columns && |qs| == |t.rows|
    requires i < |t.rows|
    ensures var r := Extend(t, qs);
            && r.rows[i][IndexOf(r.columns, QuantityColumn).value] == qs[i]
            && r.rows[i][IndexOf(r.columns, PackColumn).value] == FillZero(t.rows[i][IndexOf(t.columns, PackColumn).value])
            && r.rows[i][IndexOf(r.columns, LoopColumn).value] == FillZero(t.rows[i][IndexOf(t.columns, LoopColumn).value])
  {
    var t3 := WithQuantity(t, qs);
    var r := FillAll(t3, Placeholders, Str(""));
    var q := IndexOf(t3.columns, QuantityColumn).value;
    var p3 := IndexOf(t3.columns, PackColumn).value;
    var l3 := IndexOf(t3.columns, LoopColumn).value;
    DerivedNotPlaceholders();
    IndexOfExtend(t3.columns, r.columns, QuantityColumn);
    IndexOfExtend(t3.columns, r.columns, PackColumn);
    IndexOfExtend(t3.columns, r.columns, LoopColumn);
    WithQuantityCells(t, qs, i);
    FillAllKeeps(t3, Placeholders, Str(""), i, q);
    FillAllKeeps(t3, Placeholders, Str(""), i, p3);
    FillAllKeeps(t3, Placeholders, Str(""), i, l3);
  }

  /** Every placeholder column holds "" on every row. */
  lemma AddAdditionalColumnsPlaceholders(t: Table, k: nat, i: nat)
    requires WellFormed(t) && Derivable(t)
    requires k < |Placeholders| && i < |t.rows|
    ensures var r := AddAdditionalColumns(t).value;
            r.rows[i][IndexOf(r.columns, Placeholders[k]).value] == Str("")
  {
    var p := IndexOf(t.columns, PackColumn).value;
    var l := IndexOf(t.columns, LoopColumn).value;
    var qs := Quantities(t.rows, p, l).value;
    assert AddAdditionalColumns(t) == Success(Extend(t, qs));
    FillAllSets(WithQuantity(t, qs), Placeholders, Str(""), k, i);
  }

  /** Every other column keeps its cells: only the two factor columns, `Sztuk`
      and the placeholders are written. */
  lemma AddAdditionalColumnsKeeps(t: Table, i: nat, j: nat)
    requires WellFormed(t) && Derivable(t) && i < |t.rows| && j < |t.columns|
    requires t.columns[j] != PackColumn && t.columns[j] != LoopColumn && t.columns[j] != QuantityColumn
    requires t.columns[j] !in Placeholders
    ensures AddAdditionalColumns(t).value.columns[j] == t.columns[j]
    ensures AddAdditionalColumns(t).value.rows[i][j] == t.rows[i][j]
  {
    var p := IndexOf(t.columns, PackColumn).value;
    var l := IndexOf(t.columns, LoopColumn).value;
    var qs := Quantities(t.rows, p, l).value;
    assert AddAdditionalColumns(t) == Success(Extend(t, qs));
    WithQuantityKeeps(t, qs, i, j);
    FillAllKeeps(WithQuantity(t, qs), Placeholders, Str(""), i, j);
  }

  /** `WithQuantity` writes only the two factor columns and `Sztuk`. */
  lemma WithQuantityKeeps(t: Table, qs: seq<Cell>, i: nat, j: nat)
    requires WellFormed(t) && PackColumn in t.columns && LoopColumn in t.columns && |qs| == |t.rows|
    requires i < |t.rows| && j < |t.columns|
    requires t.columns[j] != PackColumn && t.columns[j] != LoopColumn && t.columns[j] != QuantityColumn
    ensures WithQuantity(t, qs).rows[i][j] == t.rows[i][j]
  {
    var t1 := FillZeroColumn(t, PackColumn);
    var t2 := FillZeroColumn(t1, LoopColumn);
    assert t1.rows[i][j] == t.rows[i][j];
    assert t2.rows[i][j] == t.rows[i][j];
    assert SetColumn(t2, QuantityColumn, qs) == WithQuantity(t, qs);
  }

  /** A zero or missing factor gives a zero piece count. */
  lemma ZeroFactorZeroQuantity(pack: Cell, loop: Cell)
    requires pack == Missing || pack == Num(0.0) || loop == Missing || loop == Num(0.0)
    requires !pack.Str? && !loop.Str?
    ensures Quantity(pack, loop) == Success(Num(0.0))
  {
  }

  // ---------------------------------------------------------------------
  // filter_data

  /** `astype(float) != 0`: a missing cell is NaN, which differs from 0. */
  predicate NonZeroPack(c: Cell) {
    match c
    case Missing => true
    case Num(x) => x != 0.0
    case Str(_) => true
  }

  /** `filter_data`: exactly the rows whose pack count is non-zero, in order. */
  function FilterData(t: Table): (r: Result<Table, Error>)
    requires WellFormed(t)
    ensures r.Failure? <==> (PackColumn !in t.columns
              || exists i :: 0 <= i < |t.rows| && t.rows[i][IndexOf(t.columns, PackColumn).value].Str?)
    ensures r.Success? ==> WellFormed(r.value) && r.value.columns == t.columns
    ensures r.Success? ==> r.value.rows == Filter(t.rows, (row: Row) =>
              |row| == |t.columns| && NonZeroPack(row[IndexOf(t.columns, PackColumn).value]))
  {
    if PackColumn !in t.columns then Failure(KeyError(PackColumn))
    else
      var p := IndexOf(t.columns, PackColumn).value;
      if exists i :: 0 <= i < |t.rows| && t.rows[i][p].Str? then Failure(NotNumeric)
      else Success(FilterRows(t, (row: Row) => |row| == |t.columns| && NonZeroPack(row[p])))
  }

  /** After the piece count is derived, filtering cannot fail, and every row
      it keeps has a pack count that is a number other than 0. */
  lemma FilterAfterDerive(t: Table)
    requires WellFormed(t) && Derivable(t)
    ensures FilterData(AddAdditionalColumns(t).value).Success?
    ensures var d := AddAdditionalColumns(t).value;
            var f := FilterData(d).value;
            forall i :: 0 <= i < |f.rows| ==>
              f.rows[i][IndexOf(f.columns, PackColumn).value].Num?
              && f.rows[i][IndexOf(f.columns, PackColumn).value].value != 0.0
  {
    PacksFilled(t);
    FilterNumericPacks(AddAdditionalColumns(t).value);
  }

  /** A row with a non-zero pack count whose loop size is 0 or missing is
      kept by `filter_data`, with a piece count of 0. */
  lemma LoopZeroRowSurvives(t: Table, i: nat)
    requires WellFormed(t) && Derivable(t) && i < |t.rows|
    requires var pack := t.rows[i][IndexOf(t.columns, PackColumn).value];
             pack.Num? && pack.value != 0.0
    requires var loop := t.rows[i][IndexOf(t.columns, LoopColumn).value];
             loop == Missing || loop == Num(0.0)
    ensures var d := AddAdditionalColumns(t).value;
            && FilterData(d).Success?
            && d.rows[i] in FilterData(d).value.rows
            && d.rows[i][IndexOf(d.columns, QuantityColumn).value] == Num(0.0)
  {
    var d := AddAdditionalColumns(t).value;
    var pack := t.rows[i][IndexOf(t.columns, PackColumn).value];
    var loop := t.rows[i][IndexOf(t.columns, LoopColumn).value];
    AddAdditionalColumnsQuantity(t, i);
    ZeroFactorZeroQuantity(pack, loop);
    FilterAfterDerive(t);
    var p := IndexOf(d.columns, PackColumn).value;
    assert d.rows[i][p] == pack;
    var keep := (row: Row) => |row| == |d.columns| && NonZeroPack(row[p]);
    assert FilterData(d).value.rows == Filter(d.rows, keep);
    FilterMembers(d.rows, keep, d.rows[i]);
  }

  /** After `fillna(0)` every pack count is a number. */
  lemma PacksFilled(t: Table)
    requires WellFormed(t) && Derivable(t)
    ensures var d := AddAdditionalColumns(t).value;
            forall i :: 0 <= i < |d.rows| ==> d.rows[i][IndexOf(d.columns, PackColumn).value].Num?
  {
    var d := AddAdditionalColumns(t).value;
    forall i | 0 <= i < |d.rows| ensures d.rows[i][IndexOf(d.columns, PackColumn).value].Num? {
      AddAdditionalColumnsQuantity(t, i);
    }
  }

  /** When every pack count is a number, `filter_data` succeeds and keeps
      only rows whose pack count is a number other than 0. */
  lemma FilterNumericPacks(d: Table)
    requires WellFormed(d) && PackColumn in d.columns
    requires forall i :: 0 <= i < |d.rows| ==> d.rows[i][IndexOf(d.columns, PackColumn).value].Num?
    ensures FilterData(d).Success?
    ensures var f := FilterData(d).value;
            forall i :: 0 <= i < |f.rows| ==>
              f.rows[i][IndexOf(f.columns, PackColumn).value].Num?
              && f.rows[i][IndexOf(f.columns, PackColumn).value].value != 0.0
  {
    var p := IndexOf(d.columns, PackColumn).value;
    var f := FilterData(d).value;
    forall i | 0 <= i < |f.rows|
      ensures f.rows[i][p].Num? && f.rows[i][p].value != 0.0
    {
      FilterMembers(d.rows, (row: Row) => |row| == |d.columns| && NonZeroPack(row[p]), f.rows[i]);
    }
  }

  // ---------------------------------------------------------------------
  // remove_empty_rows

  /** `replace("", NaN)` on one cell. */
  function Blank(c: Cell): (r: Cell)
    ensures r != Str("")
    ensures c != Str("") ==> r == c
  {
    if c == Str("") then Missing else c
  }

  function BlankRow(row: Row): (r: Row)
    ensures |r| == |row|
    ensures forall j :: 0 <= j < |row| ==> r[j] == Blank(row[j])
  {
    seq(|row|, j requires 0 <= j < |row| => Blank(row[j]))
  }

  /** Some cell is neither missing nor empty text. */
  predicate HasContent(row: Row) {
    exists j :: 0 <= j < |row| && row[j] != Missing && row[j] != Str("")
  }

  /** `remove_empty_rows`: empty text becomes a missing value everywhere, then
      the rows that are entirely missing are dropped. */
  function RemoveEmptyRows(t: Table): (r: Table)
    requires WellFormed(t)
    ensures WellFormed(r) && r.columns == t.columns
    ensures r.rows == Filter(Map(t.rows, BlankRow), HasContent)
    ensures forall i, j :: 0 <= i < |r.rows| && 0 <= j < |r.rows[i]| ==> r.rows[i][j] != Str("")
  {
    var blanked := Table(t.columns, Map(t.rows, BlankRow));
    var r := FilterRows(blanked, HasContent);
    forall i | 0 <= i < |r.rows| ensures forall j :: 0 <= j < |r.rows[i]| ==> r.rows[i][j] != Str("") {
      FilterMembers(blanked.rows, HasContent, r.rows[i]);
    }
    r
  }

  /** A row of the input is kept (with its empty texts blanked) exactly when
      some cell is neither missing nor empty text. */
  lemma RemoveEmptyRowsKeeps(t: Table, i: nat)
    requires WellFormed(t) && i < |t.rows|
    ensures BlankRow(t.rows[i]) in RemoveEmptyRows(t).rows <==> HasContent(t.rows[i])
  {
    var row := t.rows[i];
    FilterMembers(Map(t.rows, BlankRow), HasContent, BlankRow(row));
    if HasContent(row) {
      var j :| 0 <= j < |row| && row[j] != Missing && row[j] != Str("");
      assert BlankRow(row)[j] == row[j];
    }
    assert Map(t.rows, BlankRow)[i] == BlankRow(row);
  }

  /** Removing empty rows twice is the same as once. */
  lemma RemoveEmptyRowsIdempotent(t: Table)
    requires WellFormed(t)
    ensures RemoveEmptyRows(RemoveEmptyRows(t)) == RemoveEmptyRows(t)
  {
    var r := RemoveEmptyRows(t);
    forall i | 0 <= i < |r.rows| ensures BlankRow(r.rows[i]) == r.rows[i] {
    }
    assert Map(r.rows, BlankRow) == r.rows;
    FilterIdempotent(Map(t.rows, BlankRow), HasContent);
  }

  // ---------------------------------------------------------------------
  // remove_weird_rows

  /** The rendering of the row contains a noise fragment. */
  predicate IsNoise(render: Row -> string, row: Row) {
    exists k :: 0 <= k < |NoiseFragments| && Contains(render(row), NoiseFragments[k])
  }

  /** The filter `remove_weird_rows` keeps rows by. */
  function NotNoise(render: Row -> string): Row -> bool {
    row => !IsNoise(render, row)
  }

  /** `remove_weird_rows`: exactly the rows whose rendering (`str(row)`, given
      as `render`) contains no noise fragment, each as often as in `t`, in
      order. */
  function RemoveWeirdRows(t: Table, render: Row -> string): (r: Table)
    requires WellFormed(t)
    ensures WellFormed(r) && r.columns == t.columns
    ensures forall i :: 0 <= i < |r.rows| ==> !IsNoise(render, r.rows[i])
    ensures forall row :: row in r.rows <==> row in t.rows && !IsNoise(render, row)
    ensures forall row :: multiset(r.rows)[row] == if IsNoise(render, row) then 0 else multiset(t.rows)[row]
    ensures IsSubseq(r.rows, t.rows)
    ensures r.rows == Filter(t.rows, NotNoise(render))
  {
    var r := FilterRows(t, NotNoise(render));
    forall row ensures row in r.rows <==> row in t.rows && !IsNoise(render, row) {
      FilterMembers(t.rows, NotNoise(render), row);
    }
    r
  }

  /** Removing noise rows twice is the same as once. */
  lemma RemoveWeirdRowsIdempotent(t: Table, render: Row -> string)
    requires WellFormed(t)
    ensures RemoveWeirdRows(RemoveWeirdRows(t, render), render) == RemoveWeirdRows(t, render)
  {
    FilterIdempotent(t.rows, NotNoise(render));
  }

  // ---------------------------------------------------------------------
  // finalize_columns_order

  /** `finalize_columns_order`: exactly the eleven output columns in output
      order, each with the cells of the column of that name; a KeyError when
      one is missing. */
  function FinalizeColumnsOrder(t: Table): (r: Result<Table, Error>)
    requires WellFormed(t)
    ensures r.Success? <==> forall k :: 0 <= k < |FinalColumns| ==> FinalColumns[k] in t.columns
    ensures r.Success? ==> WellFormed(r.value) && r.value.columns == FinalColumns
                           && |r.value.columns| == 11 && |r.value.rows| == |t.rows|
    ensures r.Success? ==> forall i, k :: 0 <= i < |t.rows| && 0 <= k < 11 ==>
              r.value.rows[i][k] == t.rows[i][IndexOf(t.columns, FinalColumns[k]).value]
  {
    Project(t, FinalColumns)
  }
}
