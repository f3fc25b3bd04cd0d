/** `ExcelDataLoader` of processor.py: choosing the sheet and locating the
    header row in the raw grid of that sheet (read without a header, so every
    physical row is a row here). */
module Loader {
  import opened Wrappers
  import opened Seqs
  import opened Strings
  import opened Tables

  /** The first candidate, in candidate order, that names a sheet of the
      workbook; `NoValidSheet` when none does. */
  function FindValidSheetName(possibleSheets: seq<string>, sheetNames: seq<string>): (r: Result<string, Error>)
    ensures r.Success? ==> exists k :: 0 <= k < |possibleSheets| && possibleSheets[k] == r.value
                                       && r.value in sheetNames
                                       && forall j :: 0 <= j < k ==> possibleSheets[j] !in sheetNames
    ensures r.Failure? <==> forall k :: 0 <= k < |possibleSheets| ==> possibleSheets[k] !in sheetNames
    ensures r.Failure? ==> r.error == NoValidSheet
  {
    match FindFirst(possibleSheets, name => name in sheetNames)
    case Some(k) => Success(possibleSheets[k])
    case None => Failure(NoValidSheet)
  }

  /** The labels whose presence marks the header row. */
  const HeaderTokens: seq<string> :=
    ["Reference", "Referencja", "Description", "Ordered in Std Pack", "Unit", "Loop Size"]

  /** `str(cell)` contains `token`, case-sensitively.  A missing cell renders as
      "nan"; a number renders with digits, a sign, '.', 'e', "inf" or "nan",
      none of which can hold a token (each token starts with an upper-case
      letter), so numbers never match. */
  predicate CellHasToken(c: Cell, token: string) {
    match c
    case Str(s) => Contains(s, token)
    case Missing => Contains("nan", token)
    case Num(_) => false
  }

  /** Some cell of the row contains some header token. */
  predicate IsHeaderRow(row: Row) {
    exists j, k :: 0 <= j < |row| && 0 <= k < |HeaderTokens| && CellHasToken(row[j], HeaderTokens[k])
  }

  /** The least row index whose row contains a header token; `HeaderNotFound`
      when no row does. */
  function FindHeaderRow(grid: seq<Row>): (r: Result<nat, Error>)
    ensures r.Success? ==> r.value < |grid| && IsHeaderRow(grid[r.value])
    ensures r.Success? ==> forall i :: 0 <= i < r.value ==> !IsHeaderRow(grid[i])
    ensures r.Failure? <==> forall i :: 0 <= i < |grid| ==> !IsHeaderRow(grid[i])
    ensures r.Failure? ==> r.error == HeaderNotFound
  {
    match FindFirst(grid, IsHeaderRow)
    case Some(i) => Success(i)
    case None => Failure(HeaderNotFound)
  }

  /** Matching is case-sensitive: a lower-case "reference" does not mark a
      header, while "Unit price" does. */
  lemma HeaderMatchIsCaseSensitive()
    ensures FindHeaderRow([[Str("reference")], [Missing, Str("Unit price")]]) == Success(1)
  {
    var row0: Row := [Str("reference")];
    var row1: Row := [Missing, Str("Unit price")];
    assert OccursAt("Unit price", "Unit", 0);
    assert CellHasToken(row1[1], HeaderTokens[4]);
    assert IsHeaderRow(row1);
    forall k | 0 <= k < |HeaderTokens| ensures !CellHasToken(row0[0], HeaderTokens[k]) {
      if Contains("reference", HeaderTokens[k]) {
        ContainsChar("reference", HeaderTokens[k], 0);
      }
    }
    assert !IsHeaderRow(row0);
  }
}
