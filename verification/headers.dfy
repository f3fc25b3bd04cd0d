/** The first two steps of `DataFrameProcessor` in processor.py: flattening the
    two-row header into one label per column, and mapping those labels to the
    canonical column names by alias substrings. */
module Headers {
  import opened Wrappers
  import opened Seqs
  import opened Strings
  import opened Tables

  // ---------------------------------------------------------------------
  // normalize_headers

  /** A frame read with a two-row header: each column is labelled by the pair
      (upper header cell, lower header cell). */
  datatype RawFrame = RawFrame(header: seq<(string, string)>, rows: seq<Row>)

  /** One flattened label: the two parts joined by a space, newlines turned into
      spaces, one pass of double-space collapsing, then surrounding whitespace
      stripped. */
  function FlattenHeader(top: string, bottom: string): (r: string)
    ensures '\n' !in r
    ensures |r| > 0 ==> !IsSpace(r[0]) && !IsSpace(r[|r| - 1])
  {
    var joined := ReplaceChar(top + " " + bottom, '\n', ' ');
    var collapsed := CollapseDoubleSpaces(joined);
    CollapseKeepsAbsence(joined, '\n');
    StripKeepsAbsence(collapsed, '\n');
    Strip(collapsed)
  }

  /** Clean parts are joined unchanged by exactly one space. */
  lemma FlattenCleanHeader(top: string, bottom: string)
    requires |top| > 0 && |bottom| > 0
    requires !IsSpace(top[0]) && !IsSpace(bottom[|bottom| - 1])
    requires top[|top| - 1] != ' ' && bottom[0] != ' '
    requires '\n' !in top && '\n' !in bottom
    requires forall i :: 0 <= i < |top| - 1 ==> !(top[i] == ' ' && top[i + 1] == ' ')
    requires forall i :: 0 <= i < |bottom| - 1 ==> !(bottom[i] == ' ' && bottom[i + 1] == ' ')
    ensures FlattenHeader(top, bottom) == top + " " + bottom
  {
    var joined := top + " " + bottom;
    assert ReplaceChar(joined, '\n', ' ') == joined;
    forall i | 0 <= i < |joined| - 1
      ensures !(joined[i] == ' ' && joined[i + 1] == ' ')
    {
      if i < |top| - 1 {
        assert joined[i] == top[i] && joined[i + 1] == top[i + 1];
      } else if i == |top| - 1 {
        assert joined[i] == top[|top| - 1];
      } else if i == |top| {
        assert joined[i + 1] == bottom[0];
      } else {
        assert joined[i] == bottom[i - |top| - 1] && joined[i + 1] == bottom[i - |top|];
      }
    }
    CollapseNoDoubleSpaces(joined);
    assert joined[0] == top[0];
    assert joined[|joined| - 1] == bottom[|bottom| - 1];
    StripStripped(joined);
  }

  /** `normalize_headers`: one flattened label per column; the cells are not
      touched. */
  function NormalizeHeaders(f: RawFrame): (t: Table)
    ensures |t.columns| == |f.header| && t.rows == f.rows
    ensures forall j :: 0 <= j < |t.columns| ==>
              '\n' !in t.columns[j] && t.columns[j] == FlattenHeader(f.header[j].0, f.header[j].1)
  {
    Table(seq(|f.header|, j requires 0 <= j < |f.header| => FlattenHeader(f.header[j].0, f.header[j].1)), f.rows)
  }

  // ---------------------------------------------------------------------
  // rename_and_select_columns

  /** One entry of the column mapping: the aliases tried in order, and the
      canonical name the matched column receives. */
  datatype MappingEntry = MappingEntry(aliases: seq<string>, target: string)

  /** The first alias, in alias order, occurring in some label, and the
      leftmost label containing it, as (alias index, column index). */
  function MatchColumn(aliases: seq<string>, columns: seq<string>): (r: Option<(nat, nat)>)
    ensures r.Some? ==> r.value.0 < |aliases| && r.value.1 < |columns|
                        && Contains(columns[r.value.1], aliases[r.value.0])
    ensures r.Some? ==> forall a, j :: 0 <= a < r.value.0 && 0 <= j < |columns| ==>
                          !Contains(columns[j], aliases[a])
    ensures r.Some? ==> forall j :: 0 <= j < r.value.1 ==> !Contains(columns[j], aliases[r.value.0])
    ensures r.None? <==> forall a, j :: 0 <= a < |aliases| && 0 <= j < |columns| ==>
                           !Contains(columns[j], aliases[a])
  {
    match FindFirst(aliases, alias => exists j :: 0 <= j < |columns| && Contains(columns[j], alias))
    case None => None
    case Some(a) =>
      match FindFirst(columns, col => Contains(col, aliases[a]))
      case Some(j) => Some((a, j))
      case None => assert false; None
  }

  /** The entry selects a column whose label is non-empty (pandas' `if
      matched_col:` treats an empty label as no match). */
  predicate Selects(e: MappingEntry, columns: seq<string>) {
    match MatchColumn(e.aliases, columns)
    case None => false
    case Some(m) => columns[m.1] != ""
  }

  /** The label the entry selects. */
  function Selected(e: MappingEntry, columns: seq<string>): (name: string)
    requires Selects(e, columns)
    ensures name in columns && name != ""
  {
    columns[MatchColumn(e.aliases, columns).value.1]
  }

  /** Entry `k` is the first that selects nothing. */
  predicate FirstUnselected(mapping: seq<MappingEntry>, columns: seq<string>, k: nat) {
    && k < |mapping| && !Selects(mapping[k], columns)
    && forall j :: 0 <= j < k ==> Selects(mapping[j], columns)
  }

  /** Past a first entry that selects, the first failing entry moves up by one. */
  lemma FirstUnselectedShift(mapping: seq<MappingEntry>, columns: seq<string>, k: nat)
    requires |mapping| > 0 && Selects(mapping[0], columns) && FirstUnselected(mapping[1..], columns, k)
    ensures FirstUnselected(mapping, columns, k + 1) && mapping[k + 1] == mapping[1..][k]
  {
    forall j | 0 <= j < k + 1 ensures Selects(mapping[j], columns) {
      if j > 0 { assert mapping[j] == mapping[1..][j - 1]; }
    }
  }

  /** Every entry's selected label, or the error raised for the first entry that
      selects nothing. */
  function SelectedLabels(mapping: seq<MappingEntry>, columns: seq<string>): (r: Result<seq<string>, Error>)
    ensures r.Success? <==> forall k :: 0 <= k < |mapping| ==> Selects(mapping[k], columns)
    ensures r.Success? ==> |r.value| == |mapping|
    ensures r.Success? ==> forall k :: 0 <= k < |mapping| ==> r.value[k] == Selected(mapping[k], columns)
    ensures r.Failure? ==> exists k: nat :: FirstUnselected(mapping, columns, k)
                                       && r.error == NoMatchingColumns(mapping[k].aliases)
  {
    if |mapping| == 0 then Success([])
    else if !Selects(mapping[0], columns) then Failure(NoMatchingColumns(mapping[0].aliases))
    else
      match SelectedLabels(mapping[1..], columns)
      case Failure(e) =>
        var k: nat :| FirstUnselected(mapping[1..], columns, k) && e == NoMatchingColumns(mapping[1..][k].aliases);
        FirstUnselectedShift(mapping, columns, k);
        Failure(e)
      case Success(rest) => Success([Selected(mapping[0], columns)] + rest)
  }

  /** An association list (insertion-ordered dictionary) from labels to names. */
  type Assoc = seq<(string, string)>

  predicate DistinctKeys(d: Assoc) {
    forall i, j :: 0 <= i < j < |d| ==> d[i].0 != d[j].0
  }

  predicate HasKey(d: Assoc, key: string) {
    exists i :: 0 <= i < |d| && d[i].0 == key
  }

  /** Python's `d[key] = value`: an existing key keeps its position and takes
      the new value, a new key is appended. */
  function Put(d: Assoc, key: string, value: string): (r: Assoc)
    requires DistinctKeys(d)
    ensures DistinctKeys(r) && HasKey(r, key)
    ensures HasKey(d, key) ==>
              |r| == |d| && forall i :: 0 <= i < |d| ==>
                r[i] == (if d[i].0 == key then (key, value) else d[i])
    ensures !HasKey(d, key) ==> r == d + [(key, value)]
  {
    if HasKey(d, key) then
      var i :| 0 <= i < |d| && d[i].0 == key;
      var r := seq(|d|, i requires 0 <= i < |d| => if d[i].0 == key then (key, value) else d[i]);
      assert r[i].0 == key;
      r
    else
      var r := d + [(key, value)];
      assert r[|d|].0 == key;
      r
  }

  /** `pairs[k]` is the last pair with its key. */
  predicate LastWithKey(pairs: Assoc, k: int) {
    0 <= k < |pairs| && forall k' :: k < k' < |pairs| ==> pairs[k'].0 != pairs[k].0
  }

  /** The dictionary built by inserting `pairs` in order. */
  function Build(pairs: Assoc): (d: Assoc)
    ensures DistinctKeys(d) && |d| <= |pairs|
  {
    if |pairs| == 0 then []
    else Put(Build(pairs[..|pairs| - 1]), pairs[|pairs| - 1].0, pairs[|pairs| - 1].1)
  }

  /** Every inserted key is present. */
  lemma {:induction false} BuildHasKeys(pairs: Assoc, k: nat)
    requires k < |pairs|
    ensures HasKey(Build(pairs), pairs[k].0)
  {
    var n := |pairs| - 1;
    var prev := Build(pairs[..n]);
    if k < n {
      BuildHasKeys(pairs[..n], k);
      var i :| 0 <= i < |prev| && prev[i].0 == pairs[..n][k].0;
      assert Build(pairs)[i].0 == prev[i].0;
    }
  }

  /** Every entry of the dictionary is the last pair inserted with its key. */
  lemma {:induction false} BuildLastWins(pairs: Assoc, i: nat)
    requires i < |Build(pairs)|
    ensures exists k :: LastWithKey(pairs, k) && Build(pairs)[i] == pairs[k]
  {
    var n := |pairs| - 1;
    var prev := Build(pairs[..n]);
    var d := Build(pairs);
    assert d == Put(prev, pairs[n].0, pairs[n].1);
    if d[i].0 == pairs[n].0 {
      assert d[i] == pairs[n];
      assert LastWithKey(pairs, n);
    } else {
      assert i < |prev| && d[i] == prev[i];
      BuildLastWins(pairs[..n], i);
      var k :| LastWithKey(pairs[..n], k) && prev[i] == pairs[..n][k];
      assert pairs[k] == d[i];
      assert forall k' :: k < k' < n ==> pairs[k'] == pairs[..n][k'];
      assert LastWithKey(pairs, k);
    }
  }

  /** `pairs[k]` is the first pair with key `key`. */
  predicate FirstWithKey(pairs: Assoc, key: string, k: int) {
    0 <= k < |pairs| && pairs[k].0 == key && forall k' :: 0 <= k' < k ==> pairs[k'].0 != key
  }

  /** The dictionary keeps its keys in the order of their first insertion. */
  lemma {:induction false} BuildFirstInsertionOrder(pairs: Assoc, c: nat, c': nat, k: int, k': int)
    requires c < c' < |Build(pairs)|
    requires FirstWithKey(pairs, Build(pairs)[c].0, k) && FirstWithKey(pairs, Build(pairs)[c'].0, k')
    ensures k < k'
  {
    var n := |pairs| - 1;
    var prev := Build(pairs[..n]);
    var d := Build(pairs);
    assert d == Put(prev, pairs[n].0, pairs[n].1);
    if c' < |prev| {
      assert d[c].0 == prev[c].0 && d[c'].0 == prev[c'].0;
      FirstWithKeyInPrefix(pairs, c, k);
      FirstWithKeyInPrefix(pairs, c', k');
      BuildFirstInsertionOrder(pairs[..n], c, c', k, k');
    } else {
      assert !HasKey(prev, pairs[n].0) && d[c'].0 == pairs[n].0;
      assert d[c].0 == prev[c].0;
      FirstWithKeyInPrefix(pairs, c, k);
      if k' < n {
        BuildHasKeys(pairs[..n], k');
        assert false;
      }
    }
  }

  /** A key the dictionary of all but the last pair already holds was first
      inserted among those pairs. */
  lemma FirstWithKeyInPrefix(pairs: Assoc, c: nat, k: int)
    requires |pairs| > 0
    requires c < |Build(pairs[..|pairs| - 1])|
    requires FirstWithKey(pairs, Build(pairs[..|pairs| - 1])[c].0, k)
    ensures k < |pairs| - 1 && FirstWithKey(pairs[..|pairs| - 1], Build(pairs[..|pairs| - 1])[c].0, k)
  {
    var n := |pairs| - 1;
    BuildLastWins(pairs[..n], c);
    var j :| LastWithKey(pairs[..n], j) && Build(pairs[..n])[c] == pairs[..n][j];
    assert pairs[j].0 == pairs[..n][j].0;
  }

  function Keys(d: Assoc): (r: seq<string>)
    ensures |r| == |d| && forall i :: 0 <= i < |d| ==> r[i] == d[i].0
  {
    seq(|d|, i requires 0 <= i < |d| => d[i].0)
  }

  function Values(d: Assoc): (r: seq<string>)
    ensures |r| == |d| && forall i :: 0 <= i < |d| ==> r[i] == d[i].1
  {
    seq(|d|, i requires 0 <= i < |d| => d[i].1)
  }

  /** Column `c` of `r` holds, row by row, the cells of the column of `t`
      labelled `name`. */
  predicate ColumnFrom(r: Table, c: nat, t: Table, name: string)
    requires WellFormed(r) && WellFormed(t) && |r.rows| == |t.rows| && c < |r.columns|
    requires name in t.columns
  {
    forall i :: 0 <= i < |t.rows| ==> r.rows[i][c] == t.rows[i][IndexOf(t.columns, name).value]
  }

  /** No entry after `k` selects the label entry `k` selects. */
  predicate LastSelecting(mapping: seq<MappingEntry>, columns: seq<string>, k: int)
    requires forall k :: 0 <= k < |mapping| ==> Selects(mapping[k], columns)
  {
    0 <= k < |mapping|
    && forall k' :: k < k' < |mapping| ==> Selected(mapping[k'], columns) != Selected(mapping[k], columns)
  }

  /** The (label, target) pairs of the mapping, in mapping order. */
  function SelectionPairs(mapping: seq<MappingEntry>, columns: seq<string>): (pairs: Assoc)
    requires forall k :: 0 <= k < |mapping| ==> Selects(mapping[k], columns)
    ensures |pairs| == |mapping|
    ensures forall k :: 0 <= k < |mapping| ==>
              pairs[k] == (Selected(mapping[k], columns), mapping[k].target)
  {
    seq(|mapping|, k requires 0 <= k < |mapping| => (Selected(mapping[k], columns), mapping[k].target))
  }

  /** Selected labels of the dictionary the source builds are columns of `t`. */
  lemma SelectionKeysAreColumns(t: Table, mapping: seq<MappingEntry>)
    requires forall k :: 0 <= k < |mapping| ==> Selects(mapping[k], t.columns)
    ensures forall c :: 0 <= c < |Build(SelectionPairs(mapping, t.columns))| ==>
              Keys(Build(SelectionPairs(mapping, t.columns)))[c] in t.columns
  {
    var pairs := SelectionPairs(mapping, t.columns);
    forall c | 0 <= c < |Build(pairs)| ensures Keys(Build(pairs))[c] in t.columns {
      BuildLastWins(pairs, c);
    }
  }

  /** `rename_and_select_columns`: the selected label of every mapping entry is
      recorded under the entry's target name, then exactly the selected columns
      are kept, renamed, with rows and row order unchanged; a KeyError naming
      the aliases of the first entry that selects nothing. */
  function RenameAndSelect(t: Table, mapping: seq<MappingEntry>): (r: Result<Table, Error>)
    requires WellFormed(t)
    ensures r.Success? <==> forall k :: 0 <= k < |mapping| ==> Selects(mapping[k], t.columns)
    ensures r.Failure? ==> exists k: nat :: FirstUnselected(mapping, t.columns, k)
                                       && r.error == NoMatchingColumns(mapping[k].aliases)
    ensures r.Success? ==> WellFormed(r.value) && |r.value.rows| == |t.rows| && |r.value.columns| <= |mapping|
  {
    match SelectedLabels(mapping, t.columns)
    case Failure(e) => Failure(e)
    case Success(_) =>
      var d := Build(SelectionPairs(mapping, t.columns));
      SelectionKeysAreColumns(t, mapping);
      var p := Project(t, Keys(d));
      assert p.Success?;
      Success(Table(Values(d), p.value.rows))
  }

  /** The table `RenameAndSelect` returns, spelled out. */
  lemma RenameAndSelectShape(t: Table, mapping: seq<MappingEntry>)
    requires WellFormed(t) && forall k :: 0 <= k < |mapping| ==> Selects(mapping[k], t.columns)
    ensures var d := Build(SelectionPairs(mapping, t.columns));
            && (forall c :: 0 <= c < |d| ==> d[c].0 in t.columns)
            && RenameAndSelect(t, mapping).value.columns == Values(d)
            && forall c, i :: 0 <= c < |d| && 0 <= i < |t.rows| ==>
                 RenameAndSelect(t, mapping).value.rows[i][c] == t.rows[i][IndexOf(t.columns, d[c].0).value]
  {
    var d := Build(SelectionPairs(mapping, t.columns));
    SelectionKeysAreColumns(t, mapping);
    var p := Project(t, Keys(d));
    assert RenameAndSelect(t, mapping) == Success(Table(Values(d), p.value.rows));
  }

  /** Entry `k` is the first entry selecting `name`. */
  predicate FirstSelecting(mapping: seq<MappingEntry>, columns: seq<string>, name: string, k: int)
    requires forall k :: 0 <= k < |mapping| ==> Selects(mapping[k], columns)
  {
    0 <= k < |mapping| && Selected(mapping[k], columns) == name
    && forall k' :: 0 <= k' < k ==> Selected(mapping[k'], columns) != name
  }

  /** `labels` holds every label the mapping selects, each once, in the
      order in which the mapping first selects them. */
  predicate InFirstSelectionOrder(mapping: seq<MappingEntry>, columns: seq<string>, labels: seq<string>)
    requires forall k :: 0 <= k < |mapping| ==> Selects(mapping[k], columns)
  {
    && (forall c, c' :: 0 <= c < c' < |labels| ==> labels[c] != labels[c'])
    && (forall k :: 0 <= k < |mapping| ==> Selected(mapping[k], columns) in labels)
    && (forall c, c', k, k' ::
          (&& 0 <= c < c' < |labels| && 0 <= k < |mapping| && 0 <= k' < |mapping|
           && FirstSelecting(mapping, columns, labels[c], k)
           && FirstSelecting(mapping, columns, labels[c'], k'))
          ==> k < k')
  }

  /** The keys of the dictionary the source builds are the selected labels in
      first-selection order. */
  lemma SelectionKeysOrder(mapping: seq<MappingEntry>, columns: seq<string>)
    requires forall k :: 0 <= k < |mapping| ==> Selects(mapping[k], columns)
    ensures InFirstSelectionOrder(mapping, columns, Keys(Build(SelectionPairs(mapping, columns))))
  {
    var labels := Keys(Build(SelectionPairs(mapping, columns)));
    SelectionKeysCover(mapping, columns, labels);
    SelectionKeysFirstOrder(mapping, columns, labels);
  }

  /** Every selected label is a key of the dictionary. */
  lemma SelectionKeysCover(mapping: seq<MappingEntry>, columns: seq<string>, labels: seq<string>)
    requires forall k :: 0 <= k < |mapping| ==> Selects(mapping[k], columns)
    requires labels == Keys(Build(SelectionPairs(mapping, columns)))
    ensures forall k :: 0 <= k < |mapping| ==> Selected(mapping[k], columns) in labels
  {
    var pairs := SelectionPairs(mapping, columns);
    var d := Build(pairs);
    forall k | 0 <= k < |mapping| ensures Selected(mapping[k], columns) in labels {
      BuildHasKeys(pairs, k);
      var c :| 0 <= c < |d| && d[c].0 == pairs[k].0;
      assert labels[c] == Selected(mapping[k], columns);
    }
  }

  /** The keys of the dictionary stand in first-selection order. */
  lemma SelectionKeysFirstOrder(mapping: seq<MappingEntry>, columns: seq<string>, labels: seq<string>)
    requires forall k :: 0 <= k < |mapping| ==> Selects(mapping[k], columns)
    requires labels == Keys(Build(SelectionPairs(mapping, columns)))
    ensures forall c, c', k, k' ::
              (&& 0 <= c < c' < |labels| && 0 <= k < |mapping| && 0 <= k' < |mapping|
               && FirstSelecting(mapping, columns, labels[c], k)
               && FirstSelecting(mapping, columns, labels[c'], k'))
              ==> k < k'
  {
    var pairs := SelectionPairs(mapping, columns);
    forall c, c', k, k' | (&& 0 <= c < c' < |labels| && 0 <= k < |mapping| && 0 <= k' < |mapping|
                           && FirstSelecting(mapping, columns, labels[c], k)
                           && FirstSelecting(mapping, columns, labels[c'], k'))
      ensures k < k'
    {
      var d := Build(pairs);
      assert labels[c] == d[c].0 && labels[c'] == d[c'].0;
      FirstSelectingIsFirstKey(mapping, columns, pairs, labels[c], k);
      FirstSelectingIsFirstKey(mapping, columns, pairs, labels[c'], k');
      BuildFirstInsertionOrder(pairs, c, c', k, k');
    }
  }

  /** The first entry selecting a label is the first pair with that key. */
  lemma FirstSelectingIsFirstKey(mapping: seq<MappingEntry>, columns: seq<string>, pairs: Assoc, name: string, k: int)
    requires forall k :: 0 <= k < |mapping| ==> Selects(mapping[k], columns)
    requires pairs == SelectionPairs(mapping, columns)
    requires FirstSelecting(mapping, columns, name, k)
    ensures FirstWithKey(pairs, name, k)
  {
  }

  /** The output columns come from distinct selected labels, every selected
      label gives exactly one of them, and they stand in the order in which
      the mapping first selects their labels (the dictionary's insertion
      order). */
  lemma RenameAndSelectSources(t: Table, mapping: seq<MappingEntry>)
    requires WellFormed(t) && forall k :: 0 <= k < |mapping| ==> Selects(mapping[k], t.columns)
    ensures var r := RenameAndSelect(t, mapping).value;
            exists labels: seq<string> ::
              && |labels| == |r.columns|
              && (forall c :: 0 <= c < |labels| ==> labels[c] in t.columns && ColumnFrom(r, c, t, labels[c]))
              && InFirstSelectionOrder(mapping, t.columns, labels)
  {
    var r := RenameAndSelect(t, mapping).value;
    var d := Build(SelectionPairs(mapping, t.columns));
    var labels := Keys(d);
    RenameAndSelectShape(t, mapping);
    SelectionKeysOrder(mapping, t.columns);
    assert |labels| == |r.columns|;
    forall c | 0 <= c < |labels| ensures labels[c] in t.columns && ColumnFrom(r, c, t, labels[c]) {
      assert labels[c] == d[c].0;
    }
  }

  /** Every output column is named by the last entry selecting its label, and
      holds that label's cells. */
  lemma RenamedColumnsComeFromLastEntry(t: Table, mapping: seq<MappingEntry>, c: nat)
    requires WellFormed(t) && forall k :: 0 <= k < |mapping| ==> Selects(mapping[k], t.columns)
    requires c < |RenameAndSelect(t, mapping).value.columns|
    ensures exists k :: LastSelecting(mapping, t.columns, k)
                        && RenameAndSelect(t, mapping).value.columns[c] == mapping[k].target
                        && ColumnFrom(RenameAndSelect(t, mapping).value, c, t, Selected(mapping[k], t.columns))
  {
    var r := RenameAndSelect(t, mapping).value;
    var pairs := SelectionPairs(mapping, t.columns);
    RenameAndSelectShape(t, mapping);
    BuildLastWins(pairs, c);
    var k :| LastWithKey(pairs, k) && Build(pairs)[c] == pairs[k];
    assert LastSelecting(mapping, t.columns, k);
    assert ColumnFrom(r, c, t, Selected(mapping[k], t.columns));
  }

  /** Every selected label survives as one output column. */
  lemma RenameKeepsEverySelection(t: Table, mapping: seq<MappingEntry>, k: nat)
    requires WellFormed(t) && forall k :: 0 <= k < |mapping| ==> Selects(mapping[k], t.columns)
    requires k < |mapping|
    ensures exists c :: 0 <= c < |RenameAndSelect(t, mapping).value.columns|
                        && ColumnFrom(RenameAndSelect(t, mapping).value, c, t, Selected(mapping[k], t.columns))
  {
    var r := RenameAndSelect(t, mapping).value;
    var pairs := SelectionPairs(mapping, t.columns);
    var d := Build(pairs);
    RenameAndSelectShape(t, mapping);
    BuildHasKeys(pairs, k);
    var c :| 0 <= c < |d| && d[c].0 == pairs[k].0;
    assert ColumnFrom(r, c, t, Selected(mapping[k], t.columns));
  }
}
