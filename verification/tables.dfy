/** The tabular data the pipeline works on: cells as pandas holds them (text,
    numbers, or NaN for a missing value), rows as sequences of cells and a
    table as column labels plus rows.  Column operations here mirror the
    pandas idioms the source uses: `df[name]`, `df[name] = value`,
    `df[[names]]` and `df.columns = names`. */
module Tables {
  import opened Wrappers
  import opened Seqs

  /** One spreadsheet cell: a missing value (pandas NaN), text, or a number. */
  datatype Cell = Missing | Str(text: string) | Num(value: real)

  type Row = seq<Cell>

  datatype Table = Table(columns: seq<string>, rows: seq<Row>)

  /** The errors the source raises, named after the Python exception. */
  datatype Error =
    | NoValidSheet                       // ValueError: no valid sheet name
    | HeaderNotFound                     // ValueError: header row not found
    | NoMatchingColumns(aliases: seq<string>)  // KeyError from the column mapper
    | KeyError(name: string)             // df[name] on an absent column
    | LengthMismatch(expected: nat, got: nat)  // df.columns = names of the wrong length
    | NotNumeric                         // astype(float) on a text cell
    | TypeError                          // `+` between text and a number
    | NoStrAccessor                      // AttributeError: `.str` on a column without text
    | BadDate(text: string)              // strptime rejects the text

  /** Some row holds text in column `j`.  pandas gives such a column the
      object dtype; a column without any text is numeric, and the `.str`
      accessor or `+ ' '` on it raises. */
  predicate HoldsText(t: Table, j: nat) {
    exists i :: 0 <= i < |t.rows| && j < |t.rows[i]| && t.rows[i][j].Str?
  }

  /** Every row has one cell per column. */
  predicate WellFormed(t: Table) {
    forall i :: 0 <= i < |t.rows| ==> |t.rows[i]| == |t.columns|
  }

  /** The table pandas returns for `pd.DataFrame()`: no columns, no rows. */
  const EmptyFrame := Table([], [])

  /** Position of the first column labelled `name`. */
  function IndexOf(names: seq<string>, name: string): (r: Option<nat>)
    ensures r.Some? ==> r.value < |names| && names[r.value] == name
    ensures r.Some? ==> forall j :: 0 <= j < r.value ==> names[j] != name
    ensures r.None? <==> name !in names
  {
    if |names| == 0 then None
    else if names[0] == name then Some(0)
    else match IndexOf(names[1..], name)
      case None => None
      case Some(k) => Some(k + 1)
  }

  /** Appending labels does not move the first occurrence of a present label. */
  lemma IndexOfExtend(xs: seq<string>, ys: seq<string>, name: string)
    requires |xs| <= |ys| && ys[..|xs|] == xs && name in xs
    ensures IndexOf(ys, name) == IndexOf(xs, name)
  {
    var k := IndexOf(xs, name).value;
    assert forall j :: 0 <= j < |xs| ==> ys[j] == xs[j];
    assert ys[k] == name;
  }

  /** A label preceded only by different labels is found at its position. */
  lemma IndexOfAt(names: seq<string>, k: nat)
    requires k < |names| && forall j :: 0 <= j < k ==> names[j] != names[k]
    ensures IndexOf(names, names[k]) == Some(k)
  {
  }

  /** `df[name] = values`: overwrites the first column labelled `name` in place,
      or appends a new column when there is none; every other cell is kept. */
  function SetColumn(t: Table, name: string, values: seq<Cell>): (r: Table)
    requires WellFormed(t) && |values| == |t.rows|
    ensures WellFormed(r) && |r.rows| == |t.rows|
    ensures name in t.columns ==> r.columns == t.columns
    ensures name !in t.columns ==> r.columns == t.columns + [name]
    ensures IndexOf(r.columns, name).Some?
    ensures forall i :: 0 <= i < |r.rows| ==> r.rows[i][IndexOf(r.columns, name).value] == values[i]
    ensures forall i, j :: 0 <= i < |t.rows| && 0 <= j < |t.columns| && t.columns[j] != name
              ==> r.rows[i][j] == t.rows[i][j]
    ensures name !in t.columns ==> forall i :: 0 <= i < |t.rows| ==> r.rows[i] == t.rows[i] + [values[i]]
  {
    match IndexOf(t.columns, name)
    case Some(k) =>
      Table(t.columns, seq(|t.rows|, i requires 0 <= i < |t.rows| => t.rows[i][k := values[i]]))
    case None =>
      assert IndexOf(t.columns + [name], name) == Some(|t.columns|);
      Table(t.columns + [name], seq(|t.rows|, i requires 0 <= i < |t.rows| => t.rows[i] + [values[i]]))
  }

  /** `df[name] = value` with a scalar: the same cell on every row. */
  function Fill(t: Table, name: string, value: Cell): (r: Table)
    requires WellFormed(t)
    ensures WellFormed(r) && |r.rows| == |t.rows|
    ensures name in t.columns ==> r.columns == t.columns
    ensures name !in t.columns ==> r.columns == t.columns + [name]
    ensures IndexOf(r.columns, name).Some?
    ensures forall i :: 0 <= i < |r.rows| ==> r.rows[i][IndexOf(r.columns, name).value] == value
    ensures forall i, j :: 0 <= i < |t.rows| && 0 <= j < |t.columns| && t.columns[j] != name
              ==> r.rows[i][j] == t.rows[i][j]
    ensures name !in t.columns ==> forall i :: 0 <= i < |t.rows| ==> r.rows[i] == t.rows[i] + [value]
  {
    SetColumn(t, name, seq(|t.rows|, _ => value))
  }

  /** Every row holds `c` in the column labelled `name`. */
  predicate ColumnHolds(t: Table, name: string, c: Cell)
    requires WellFormed(t)
  {
    IndexOf(t.columns, name).Some?
    && forall i :: 0 <= i < |t.rows| ==> t.rows[i][IndexOf(t.columns, name).value] == c
  }

  /** Assigning a column the value it already holds everywhere changes nothing. */
  lemma FillNoop(t: Table, name: string, value: Cell)
    requires WellFormed(t) && ColumnHolds(t, name, value)
    ensures Fill(t, name, value) == t
  {
    var k := IndexOf(t.columns, name).value;
    var r := Fill(t, name, value);
    forall i | 0 <= i < |t.rows| ensures r.rows[i] == t.rows[i] {
      assert t.rows[i][k := value] == t.rows[i];
    }
  }

  /** `df[name] = values` for a label the frame does not have yet: the
      column is appended on the right. */
  function AppendColumn(t: Table, name: string, values: seq<Cell>): (r: Table)
    requires WellFormed(t) && |values| == |t.rows| && name !in t.columns
    ensures WellFormed(r) && r.columns == t.columns + [name] && |r.rows| == |t.rows|
    ensures forall i :: 0 <= i < |t.rows| ==> r.rows[i] == t.rows[i] + [values[i]]
  {
    SetColumn(t, name, values)
  }

  /** `df[name] = value` with a scalar and a new label: a last column holding
      `value` on every row. */
  function AppendConstant(t: Table, name: string, value: Cell): (r: Table)
    requires WellFormed(t) && name !in t.columns
    ensures WellFormed(r) && r.columns == t.columns + [name] && |r.rows| == |t.rows|
    ensures forall i :: 0 <= i < |t.rows| ==> r.rows[i] == t.rows[i] + [value]
  {
    AppendColumn(t, name, seq(|t.rows|, _ => value))
  }

  /** Three constant columns appended one after another. */
  lemma AppendThree(t: Table, a: string, b: string, c: string, va: Cell, vb: Cell, vc: Cell)
    requires WellFormed(t) && a !in t.columns && b !in t.columns + [a] && c !in t.columns + [a] + [b]
    ensures var r := AppendConstant(AppendConstant(AppendConstant(t, a, va), b, vb), c, vc);
            WellFormed(r) && r.columns == t.columns + [a] + [b] + [c] && |r.rows| == |t.rows|
            && forall i :: 0 <= i < |t.rows| ==> r.rows[i] == t.rows[i] + [va, vb, vc]
  {
    var r := AppendConstant(AppendConstant(AppendConstant(t, a, va), b, vb), c, vc);
    forall i | 0 <= i < |t.rows| ensures r.rows[i] == t.rows[i] + [va, vb, vc] {
      assert r.rows[i] == t.rows[i] + [va] + [vb] + [vc];
    }
  }

  /** `r` is `t` with columns appended for names of `names` it lacked, each
      holding `value`, and nothing else changed. */
  predicate AddedMissing(t: Table, names: seq<string>, value: Cell, r: Table) {
    WellFormed(t) && WellFormed(r) && |r.rows| == |t.rows|
    && |t.columns| <= |r.columns| && r.columns[..|t.columns|] == t.columns
    && (forall i, j :: 0 <= i < |t.rows| && 0 <= j < |t.columns| ==> r.rows[i][j] == t.rows[i][j])
    && (forall k :: 0 <= k < |names| ==> names[k] in r.columns)
    && (forall j :: |t.columns| <= j < |r.columns| ==> r.columns[j] in names && r.columns[j] !in t.columns)
    && (forall i, j :: 0 <= i < |t.rows| && |t.columns| <= j < |r.columns| ==> r.rows[i][j] == value)
  }

  /** `df[name] = value` for every name of `names` that is not yet a column;
      existing columns are left alone. */
  function AddMissing(t: Table, names: seq<string>, value: Cell): (r: Table)
    requires WellFormed(t)
    ensures AddedMissing(t, names, value, r)
    decreases |names|
  {
    if |names| == 0 then t
    else
      var n := |names| - 1;
      var prev := AddMissing(t, names[..n], value);
      if names[n] in prev.columns then
        AddMissingPresent(t, names, value, prev);
        prev
      else
        AddMissingAbsent(t, names, value, prev);
        AppendConstant(prev, names[n], value)
  }

  /** The last name is already a column: nothing more to add. */
  lemma AddMissingPresent(t: Table, names: seq<string>, value: Cell, prev: Table)
    requires |names| > 0 && AddedMissing(t, names[..|names| - 1], value, prev)
    requires names[|names| - 1] in prev.columns
    ensures AddedMissing(t, names, value, prev)
  {
    var n := |names| - 1;
    assert forall k :: 0 <= k < n ==> names[..n][k] == names[k];
  }

  /** Labels found in the first `n` names are found at the same place in all
      of them. */
  lemma FirstIndexInPrefix(names: seq<string>, n: nat, labels: seq<string>)
    requires n <= |names| && forall j :: 0 <= j < |labels| ==> labels[j] in names[..n]
    ensures forall j :: 0 <= j < |labels| ==> IndexOf(names, labels[j]) == IndexOf(names[..n], labels[j])
  {
    forall j | 0 <= j < |labels| ensures IndexOf(names, labels[j]) == IndexOf(names[..n], labels[j]) {
      IndexOfExtend(names[..n], names, labels[j]);
    }
  }

  /** The last name is new: it is appended as a column of `value`. */
  lemma AddMissingAbsent(t: Table, names: seq<string>, value: Cell, prev: Table)
    requires |names| > 0 && AddedMissing(t, names[..|names| - 1], value, prev)
    requires names[|names| - 1] !in prev.columns
    ensures AddedMissing(t, names, value, AppendConstant(prev, names[|names| - 1], value))
  {
    var n := |names| - 1;
    var r := AppendConstant(prev, names[n], value);
    assert r.columns[..|t.columns|] == t.columns by {
      assert r.columns[..|prev.columns|] == prev.columns;
      assert r.columns[..|prev.columns|][..|t.columns|] == prev.columns[..|t.columns|];
    }
    forall i, j | 0 <= i < |t.rows| && 0 <= j < |r.columns|
      ensures r.rows[i][j] == if j < |prev.columns| then prev.rows[i][j] else value
    {
      assert r.rows[i] == prev.rows[i] + [value];
    }
    forall k | 0 <= k < |names| ensures names[k] in r.columns {
      if k < n { assert names[..n][k] == names[k]; }
    }
    forall j | |t.columns| <= j < |r.columns| ensures r.columns[j] in names && r.columns[j] !in t.columns {
      if j < |prev.columns| {
        assert r.columns[j] == prev.columns[j] && prev.columns[j] in names[..n];
      } else {
        assert names[n] !in prev.columns[..|t.columns|];
      }
    }
  }

  /** `labels` are names of `names`, in the order of their first occurrence
      there; in particular no label repeats. */
  predicate OrderedByFirst(names: seq<string>, labels: seq<string>) {
    && (forall j :: 0 <= j < |labels| ==> labels[j] in names)
    && forall j, j' :: 0 <= j < j' < |labels| ==>
         IndexOf(names, labels[j]).value < IndexOf(names, labels[j']).value
  }

  /** The labels `AddMissing` appends follow the order of their first
      occurrence in `names`; in particular each is appended once. */
  lemma {:induction false} AddMissingOrder(t: Table, names: seq<string>, value: Cell)
    requires WellFormed(t)
    ensures var r := AddMissing(t, names, value);
            OrderedByFirst(names, r.columns[|t.columns|..])
    decreases |names|
  {
    if |names| == 0 {
      assert AddMissing(t, names, value).columns[|t.columns|..] == [];
    } else {
      var n := |names| - 1;
      var prev := AddMissing(t, names[..n], value);
      AddMissingOrder(t, names[..n], value);
      AddMissingOrderStep(t, names, value, prev);
    }
  }

  /** One step of `AddMissing` keeps the appended labels in order. */
  lemma AddMissingOrderStep(t: Table, names: seq<string>, value: Cell, prev: Table)
    requires |names| > 0 && AddedMissing(t, names[..|names| - 1], value, prev)
    requires OrderedByFirst(names[..|names| - 1], prev.columns[|t.columns|..])
    ensures var n := |names| - 1;
            var r := if names[n] in prev.columns then prev else AppendConstant(prev, names[n], value);
            OrderedByFirst(names, r.columns[|t.columns|..])
  {
    var n := |names| - 1;
    var added := prev.columns[|t.columns|..];
    OrderedInPrefix(names, n, added);
    if names[n] !in prev.columns {
      var r := AppendConstant(prev, names[n], value);
      assert r.columns[|t.columns|..] == added + [names[n]] by {
        assert r.columns == prev.columns + [names[n]];
      }
      forall k | 0 <= k < n ensures names[k] != names[n] {
        assert names[..n][k] == names[k] && names[k] in prev.columns;
      }
      IndexOfAt(names, n);
      forall j | 0 <= j < |added| ensures IndexOf(names, added[j]).value < n {
        assert added[j] in names[..n];
      }
      OrderedAppend(names, n, added);
    }
  }

  /** Ordered among the first `n` names is ordered among all of them. */
  lemma OrderedInPrefix(names: seq<string>, n: nat, labels: seq<string>)
    requires n <= |names| && OrderedByFirst(names[..n], labels)
    ensures OrderedByFirst(names, labels)
  {
    forall j | 0 <= j < |labels| ensures IndexOf(names, labels[j]) == IndexOf(names[..n], labels[j]) {
      IndexOfExtend(names[..n], names, labels[j]);
    }
  }

  /** A name first met at position `n` can follow labels met before it. */
  lemma OrderedAppend(names: seq<string>, n: nat, labels: seq<string>)
    requires n < |names| && OrderedByFirst(names, labels) && IndexOf(names, names[n]) == Some(n)
    requires forall j :: 0 <= j < |labels| ==> IndexOf(names, labels[j]).value < n
    ensures OrderedByFirst(names, labels + [names[n]])
  {
    var ls := labels + [names[n]];
    forall j, j' | 0 <= j < j' < |ls| ensures IndexOf(names, ls[j]).value < IndexOf(names, ls[j']).value {
      assert ls[j] == labels[j];
    }
  }

  /** Selecting `names` after adding the missing ones as `value`: a name the
      table had keeps its cells, a name it lacked reads `value`. */
  lemma SelectAfterAddMissing(t: Table, names: seq<string>, value: Cell, i: nat, n: nat)
    requires WellFormed(t) && i < |t.rows| && n < |names|
    ensures Project(AddMissing(t, names, value), names).Success?
    ensures names[n] in t.columns ==>
              Project(AddMissing(t, names, value), names).value.rows[i][n] == t.rows[i][IndexOf(t.columns, names[n]).value]
    ensures names[n] !in t.columns ==>
              Project(AddMissing(t, names, value), names).value.rows[i][n] == value
  {
    var u := AddMissing(t, names, value);
    var p := Project(u, names);
    assert p.Success?;
    var j := IndexOf(u.columns, names[n]).value;
    assert p.value.rows[i][n] == u.rows[i][j];
    if names[n] in t.columns {
      IndexOfExtend(t.columns, u.columns, names[n]);
    } else {
      assert u.columns[j] == names[n];
      assert j >= |t.columns| by {
        assert forall k :: 0 <= k < |t.columns| ==> u.columns[k] == t.columns[k];
      }
      assert u.rows[i][j] == value;
    }
  }

  /** The cells a row with labels `columns` shows under `names`, reading
      `value` for a name it lacks. */
  function Reselect(columns: seq<string>, names: seq<string>, value: Cell, row: Row): (r: Row)
    requires |row| == |columns|
    ensures |r| == |names|
  {
    seq(|names|, n requires 0 <= n < |names| =>
      if names[n] in columns then row[IndexOf(columns, names[n]).value] else value)
  }

  /** Adding the missing names and then selecting them reselects every row. */
  lemma SelectRowsAfterAddMissing(t: Table, names: seq<string>, value: Cell)
    requires WellFormed(t)
    ensures Project(AddMissing(t, names, value), names).Success?
    ensures var p := Project(AddMissing(t, names, value), names).value;
            |p.rows| == |t.rows| &&
            forall i :: 0 <= i < |t.rows| ==> p.rows[i] == Reselect(t.columns, names, value, t.rows[i])
  {
    var p := Project(AddMissing(t, names, value), names).value;
    forall i | 0 <= i < |t.rows| ensures p.rows[i] == Reselect(t.columns, names, value, t.rows[i]) {
      forall n | 0 <= n < |names| ensures p.rows[i][n] == Reselect(t.columns, names, value, t.rows[i])[n] {
        SelectAfterAddMissing(t, names, value, i, n);
      }
    }
  }

  /** Positions of `names` among `columns`, or a KeyError for the first absent one. */
  function Positions(columns: seq<string>, names: seq<string>): (r: Result<seq<nat>, Error>)
    ensures r.Success? <==> forall k :: 0 <= k < |names| ==> names[k] in columns
    ensures r.Success? ==> |r.value| == |names|
    ensures r.Success? ==> forall k :: 0 <= k < |names| ==>
              r.value[k] < |columns| && IndexOf(columns, names[k]) == Some(r.value[k])
  {
    if |names| == 0 then Success([])
    else match IndexOf(columns, names[0])
      case None => Failure(KeyError(names[0]))
      case Some(j) =>
        match Positions(columns, names[1..])
        case Failure(e) => Failure(e)
        case Success(rest) => Success([j] + rest)
  }

  /** The cells of `row` at positions `idx`, in that order. */
  function Pick(row: Row, idx: seq<nat>): (r: Row)
    requires forall k :: 0 <= k < |idx| ==> idx[k] < |row|
    ensures |r| == |idx|
    ensures forall k :: 0 <= k < |idx| ==> r[k] == row[idx[k]]
  {
    seq(|idx|, k requires 0 <= k < |idx| => row[idx[k]])
  }

  /** `df[names]`: exactly the named columns in the given order, rows and row
      order unchanged; a KeyError when a name is absent. */
  function Project(t: Table, names: seq<string>): (r: Result<Table, Error>)
    requires WellFormed(t)
    ensures r.Success? <==> forall k :: 0 <= k < |names| ==> names[k] in t.columns
    ensures r.Success? ==> WellFormed(r.value) && r.value.columns == names
    ensures r.Success? ==> |r.value.rows| == |t.rows|
    ensures r.Success? ==> forall i, k :: 0 <= i < |t.rows| && 0 <= k < |names| ==>
              IndexOf(t.columns, names[k]).Some? &&
              r.value.rows[i][k] == t.rows[i][IndexOf(t.columns, names[k]).value]
  {
    var idx :- Positions(t.columns, names);
    Success(Table(names, seq(|t.rows|, i requires 0 <= i < |t.rows| => Pick(t.rows[i], idx))))
  }

  /** `df.columns = names`: new labels, same cells; pandas raises when the
      number of labels differs from the number of columns. */
  function Relabel(t: Table, names: seq<string>): (r: Result<Table, Error>)
    ensures r.Success? <==> |names| == |t.columns|
    ensures r.Success? ==> r.value == Table(names, t.rows)
  {
    if |names| == |t.columns| then Success(Table(names, t.rows))
    else Failure(LengthMismatch(|t.columns|, |names|))
  }

  /** The rows of `t` satisfying `keep`, labels and row order unchanged. */
  function FilterRows(t: Table, keep: Row -> bool): (r: Table)
    requires WellFormed(t)
    ensures WellFormed(r) && r.columns == t.columns
    ensures r.rows == Filter(t.rows, keep)
  {
    var rows := Filter(t.rows, keep);
    assert forall i :: 0 <= i < |rows| ==> rows[i] in t.rows by {
      forall i | 0 <= i < |rows| ensures rows[i] in t.rows {
        FilterMembers(t.rows, keep, rows[i]);
      }
    }
    Table(t.columns, rows)
  }
}
