# CSV-Normalizer, modelled in Dafny

CSV-Normalizer turns supplier order workbooks (`.xlsx`/`.xls`) into the
semicolon-separated order sheet an ordering system imports. This project
models its core as pure Dafny functions over an immutable table and proves
what each step guarantees. The core has three parts:

- **The CSV normalizer pipeline** of `processor.py`:
  - choosing the sheet and finding the header row (`ExcelDataLoader`);
  - flattening two-level headers;
  - mapping the source columns onto the target names;
  - deriving `Sztuk` (pieces) from `Ordered in Std Pack` × `Loop Size`;
  - adding the empty placeholder columns;
  - dropping zero-pack, empty and "weird" rows;
  - fixing the final column order.
- **The `ExcelProcessor` of `app.py`**:
  - choosing the relevant sheet (priority names first, then the client
    keyword);
  - reading the client name and a date next to a keyword;
  - cutting the order block that starts at the "DB" row;
  - the derivation and final schema of `process_file`.
- **The edges around them**:
  - the `/edycja` overlay, which writes a client name and two dates
    (read as `%d.%m.%Y`, written as `%Y-%m-%d`) onto every row;
  - the upload filter `allowed_file`;
  - `formatDate` of `static/js/main.js`.

A pandas frame is a `Table`: column labels plus rows of `Cell`s. A cell is
`Missing` (NaN/None), `Str(text)` or `Num(value)`. A raised exception is a
`Result` failure, and a value that may be absent is an `Option`. Calls whose
result the model cannot compute are function parameters:

- `str(row)` and `DataFrame.to_string()` (`render`);
- the keyword regular expression of `extract_date` (`matches`);
- `str(cell)` (`show`).

Modules follow the program's structure:

| module | what it models |
|---|---|
| `Loader` | `ExcelDataLoader` |
| `Headers` | `normalize_headers` and `rename_and_select_columns` |
| `FrameProcessor` | the other `DataFrameProcessor` steps |
| `ExcelProcessor` | `app.py`'s processor |
| `Dates` | `strptime`/`strftime` |
| `Overlay` | `/edycja` |
| `Upload` | `allowed_file` |
| `MainScript` | `formatDate` |
| `Tables`, `Seqs`, `Strings`, `Wrappers` | the shared data model |

## Model

| member | source | states |
|---|---|---|
| Loader.FindValidSheetName | processor.py:21-28 | The result is the first candidate, in candidate order, that names a sheet of the workbook. It raises "no valid sheet" exactly when no candidate names a sheet. |
| Loader.FindHeaderRow | processor.py:30-38 | The result is the first row in which some cell, as text, contains one of the six header tokens. It raises "header row not found" exactly when no row does. |
| Loader.HeaderMatchIsCaseSensitive | processor.py:32-36 | The token match is case-sensitive and substring-based: "reference" does not mark a header row, but "Unit price" does. |
| Headers.FlattenHeader | processor.py:53 | A flattened two-level header has no newline and no surrounding whitespace. |
| Headers.FlattenCleanHeader | processor.py:53 | For two clean header parts, flattening gives exactly the parts joined by one space. |
| Headers.NormalizeHeaders | processor.py:51-53 | There is one label per column and the rows are unchanged. Each label is the flattened form of its two header parts. |
| Headers.MatchColumn | processor.py:62 | The match is the first column containing the earliest alias that matches any column. There is no match exactly when no alias occurs in any column. |
| Headers.SelectedLabels | processor.py:61-67 | Every mapping entry yields its matched column. The function fails exactly when some entry matches nothing, and the error carries the aliases of the first such entry. |
| Headers.BuildLastWins | processor.py:64 | Building the selection dict keeps each key once and gives it the value of the last entry with that key, as a Python dict assignment does. |
| Headers.BuildHasKeys | processor.py:64 | Every selected column is a key of the selection dict. |
| Headers.RenameAndSelect | processor.py:56-69 | The function succeeds exactly when every entry matches a column. Otherwise it raises with the aliases of the first entry, in mapping order, that matches nothing. On success the row count is kept and there are at most as many columns as entries. |
| Headers.RenamedColumnsComeFromLastEntry | processor.py:62-69 | Every output column carries the target name of the last entry selecting its source column, and holds that column's cells. |
| Headers.RenameKeepsEverySelection | processor.py:62-69 | Every entry's matched source column appears among the output columns with its cells. |
| Headers.RenameAndSelectSources | processor.py:58-69 | The output columns come from distinct source columns, one for every label the mapping selects, in the order in which the mapping first selects them (the dictionary's insertion order), each holding its source column's cells. |
| FrameProcessor.Quantity | processor.py:75 | Sztuk is the product of the pack and loop numbers truncated toward zero. A missing factor counts as 0. The computation fails when a factor is text. |
| FrameProcessor.Quantities | processor.py:73-75 | The column succeeds exactly when no pack or loop cell is text, every text cell counting as unconvertible. It then holds each row's truncated product. |
| FrameProcessor.AddAdditionalColumns | processor.py:71-80 | The step succeeds exactly when pack and loop columns exist and hold no text. It keeps the rows and the existing column order, and adds Sztuk and all eight placeholder columns. |
| FrameProcessor.AddAdditionalColumnsQuantity | processor.py:72-75 | In every row, Sztuk holds the truncated product of that row's pack and loop cells. The pack and loop cells are each filled with 0 when missing. |
| FrameProcessor.AddAdditionalColumnsKeeps | processor.py:71-80 | Every cell of a column other than the pack, loop, Sztuk and placeholder columns is unchanged. |
| FrameProcessor.AddAdditionalColumnsPlaceholders | processor.py:76-80 | Every placeholder column holds "" in every row. |
| FrameProcessor.ZeroFactorZeroQuantity | processor.py:73-75 | A missing or zero pack or loop number gives Sztuk 0. |
| FrameProcessor.LoopZeroRowSurvives | processor.py:71-84 | A row with a non-zero pack count whose loop size is 0 or missing survives `filter_data`, with Sztuk 0. |
| FrameProcessor.FillZeroColumn | processor.py:73-74 | `fillna(0)` on one column replaces its missing cells by 0 and changes no other cell. |
| FrameProcessor.FilterData | processor.py:82-84 | The result keeps exactly the rows, in order, whose pack value is not 0. A missing value counts as not 0, as NaN != 0 does. The step raises when the column is absent or holds text, every text cell counting as unconvertible. |
| FrameProcessor.FilterAfterDerive | processor.py:73-84 | After the pack column is filled, filtering cannot raise. Every kept row has a numeric, non-zero pack. |
| FrameProcessor.FilterNumericPacks | processor.py:82-84 | On an all-numeric pack column, filtering succeeds and leaves only non-zero packs. |
| FrameProcessor.RemoveEmptyRows | processor.py:86-89 | Empty text becomes missing in every cell. Then exactly the rows that keep some content remain, in order, and no "" is left. |
| FrameProcessor.RemoveEmptyRowsKeeps | processor.py:86-89 | A row survives exactly when it has a cell that is neither missing nor "". |
| FrameProcessor.RemoveEmptyRowsIdempotent | processor.py:86-89 | Removing empty rows twice equals removing them once. |
| FrameProcessor.RemoveWeirdRows | processor.py:91-94 | The kept rows are exactly the rows whose rendering contains none of the four noise fragments, each as often as in the input and in input order. |
| FrameProcessor.RemoveWeirdRowsIdempotent | processor.py:91-94 | Removing weird rows twice equals removing them once. |
| FrameProcessor.FinalizeColumnsOrder | processor.py:96-102 | The step succeeds exactly when all eleven output columns exist. The result has exactly those columns in that order, each holding the source column's cells. |
| ExcelProcessor.ExtractClientName | app.py:56-62 | The result is taken from the first row whose fourth cell is text containing the keyword: the longest prefix without newline or comma. There is no result exactly when the frame has fewer than four columns or no row matches. |
| ExcelProcessor.FindRelevantSheet | app.py:64-76 | "Antalis" wins, then "Pick-up order ATK". Otherwise the result is the first sheet whose rendering contains the keyword, and nothing exactly when none does. |
| ExcelProcessor.ExtractDate | app.py:78-102 | The first keyword match, scanning rows then columns, decides the result. It is the first non-missing cell to its right, or "Unknown date" when there is none. It is also "Unknown date" when nothing matches. |
| ExcelProcessor.PrepareOrderData | app.py:104-112 | Without columns or rows, the result is the empty frame. With rows but no text in the first column, `.str` raises. Without a "DB" row, the result is the empty frame. With fewer than six columns, relabelling raises. Otherwise the result is the six first columns, relabelled, of the rows from the first "DB" row on whose reference is present and not the section label. |
| ExcelProcessor.ProductCell | app.py:128 | For a text Description column, Produkt is the description, a space and the location, with a missing location read as "". A missing description gives a missing product. A number where text is expected raises. |
| ExcelProcessor.QuantityCell | app.py:136 | Sztuk is "" exactly when Details is missing or "NA" (or already ""). Otherwise it is Details. |
| ExcelProcessor.AssignDefaults | app.py:125-127 | Klient "Valeo", pick-up date "19.08.2024" and an empty confirmed date are appended to every row, in that order. |
| ExcelProcessor.DeriveColumns | app.py:125-136 | The step raises exactly when some row's product raises. Otherwise the rows are kept under the eleven derived labels. |
| ExcelProcessor.DeriveColumnsRows | app.py:125-136 | Each derived row is the order row followed by the three defaults, its Produkt and its Sztuk. |
| ExcelProcessor.KeptRows | app.py:136-137 | The rows left after dropping Sztuk == "" are the derived forms of exactly the order rows that have a quantity, in order. |
| ExcelProcessor.SelectedRows | app.py:139-142 | Adding the absent schema columns as "" and selecting the schema maps each row to its schema row. |
| ExcelProcessor.OutputRowIsSelection | app.py:125-143 | The schema row of a derived row has 11 cells: Klient, the two dates, Reference, Produkt, Sztuk and five "". |
| ExcelProcessor.Finish | app.py:124-145 | Finishing raises exactly when some product raises. Otherwise the result carries the eleven output labels. |
| ExcelProcessor.FinishRows | app.py:124-145 | The finished rows are exactly the output rows of the order rows that have a quantity, in order. |
| ExcelProcessor.ProcessFileEmpty | app.py:114-150 | The processed table is the empty frame in these cases: no relevant sheet; fewer than six columns; no rows; no text in the first column or in the Description column; no "DB" row; or no order row after the first "DB" row. |
| ExcelProcessor.ProcessFileOutput | app.py:114-150 | Given an order block, the processed table is the empty frame exactly when the Description column holds no text or some row's product raises. Otherwise its rows are the output rows of the order rows with a quantity. |
| ExcelProcessor.ProcessFileOfSheet | app.py:104-150 | Take a relevant sheet of at least six columns, with text in its Description column and a first "DB" row. The processed table is non-empty exactly when some order row survives and every order row names a product. Its rows are then the output rows of the surviving order rows with a quantity. |
| ExcelProcessor.ProcessFile | app.py:114-150 | The result is the empty frame, or a rectangular table with the eleven output labels. |
| Dates.ParseDotted | app.py:215 | A parsed date is always a real calendar day. |
| Dates.ParseFields | app.py:215 | Three dot-free fields parse exactly when they have the `%d`, `%m` and `%Y` shapes and name a real day, and they give that day. |
| Dates.ParsedFields | app.py:215 | An accepted text is three fields joined by dots, with the matching shapes and values. |
| Dates.ParseFormatDotted | app.py:215 | Reading back a date written as `%d.%m.%Y` gives the date. |
| Dates.FormatParseDotted | app.py:215 | Writing a parsed text with two-digit day and month gives the text back. |
| Dates.FormatIso | app.py:215 | `%Y-%m-%d` is ten characters with dashes at 4 and 7, and digit fields worth the year, month and day. |
| Dates.ParseUnpadded | app.py:215 | "1.2.2024" is accepted as 1 February 2024. |
| Dates.ParseRejectsMissingDay | app.py:215 | "29.02.2023" is rejected. |
| Dates.ParseLeapDay | app.py:215 | "29.02.2024" is accepted. |
| Overlay.DateCell | app.py:214-219 | A blank date field assigns nothing, and an accepted one assigns its ISO text. The field fails with a date error exactly when it is non-blank and not `%d.%m.%Y`. |
| Overlay.ClientCell | app.py:211-212 | A client field assigns its stripped text exactly when it is not blank. |
| Overlay.Overwrite | app.py:212 | An assignment writes one column on every row, keeps every other cell, and never reorders existing columns. |
| Overlay.ApplyOverlay | app.py:202-220 | The overlay succeeds exactly when both date fields are blank or valid. It keeps the rows and columns, and with all fields blank it changes nothing. |
| Overlay.OverlayAssigns | app.py:211-220 | Every given field's column holds its value (stripped client, ISO date) on every row. |
| Overlay.OverlayKeepsOthers | app.py:211-220 | Every cell of a column no given field assigns is unchanged. |
| Overlay.OverlayIdempotent | app.py:202-220 | Submitting the same fields twice gives the same table as once. |
| Upload.Extension | app.py:247 | The extension is the text after the last dot, and there is none exactly when the name has no dot. |
| Upload.AllowedFile | app.py:246-247 | A name is allowed exactly when it has a dot and its lower-cased last extension is in the allowed set. |
| Upload.ExtensionOf | app.py:247 | The extension of `stem.ext` is `ext` for any dot-free `ext`. |
| Upload.AllowedFileIff | app.py:15 | Whatever the stem, the name is allowed exactly when its lower-cased extension is "xlsx" or "xls". |
| Upload.AllowedFileExamples | app.py:246-247 | "a.XLS" is allowed; "xlsx" and "a.xlsx.exe" are not. |
| MainScript.FormatDate | static/js/main.js:74-79 | The text is a two-digit day, "/", a two-digit one-based month, "/", then the year. |
| MainScript.JanuaryIsOne | static/js/main.js:76 | The zero-based month 0 is written "01". |
| MainScript.FourDigitYear | static/js/main.js:74-79 | With a four-digit year the text is exactly ten characters. |
| MainScript.FormatDateNotDotted | static/js/main.js:74-79 | The text contains no dot, so the overlay's `%d.%m.%Y` parse (app.py:215) rejects it. |
| Strings.Strip | app.py:211 | `str.strip()` yields a substring of the input with no whitespace at either end. |
| Strings.StripIdempotent | app.py:211-212 | Stripping twice equals stripping once. |
| Strings.CollapseKeepsText | processor.py:53 | One pass of `replace('  ', ' ')` removes only spaces: the other characters stay, in order. |
| Strings.CollapseKeepsCounts | processor.py:53 | Every character other than a space keeps its count. |
| Strings.CollapseEvenRun | processor.py:53 | At the start of the text, a run of 2k spaces ended by the end of the text or by another character becomes k spaces. |
| Strings.CollapseOddRun | processor.py:53 | At the start of the text, a run of 2k + 1 spaces ended by the end of the text or by another character becomes k + 1 spaces. |
| Strings.CollapseConcat | processor.py:53 | The pass restarts after every non-space: a text split just after a non-space collapses as its two parts collapsed separately. |
| Strings.CollapseRun | processor.py:53 | Anywhere in the text, a run of spaces between non-spaces (or the ends) becomes half its length, rounded up, while the text on either side collapses on its own. |
| Strings.CollapseThreeSpaces | processor.py:53 | A run of three spaces becomes two: a single pass leaves double spaces behind. |
| Tables.AddMissing | app.py:139-141 | Only absent names are appended, as constant columns. Existing columns and cells are unchanged, and every name exists afterwards. |
| Tables.AddMissingOrder | app.py:139-141 | The appended names follow the order of their first occurrence in the name list, so each is appended once. |
| Tables.SelectAfterAddMissing | app.py:139-142 | After the absent columns are added, selecting the names gives each name's original cell, or the constant when the name was absent. |
| Tables.Project | processor.py:102 | Selecting columns succeeds exactly when all names exist. Each selected cell is the cell of the first column with that name. |

## Left out

- Reading workbooks and CSV (`pd.ExcelFile`, `read_excel`, `read_csv`, `to_csv`, `to_html`), Flask routes, the session, file saving and logging are I/O. The model starts from sheets and tables already in memory.
- `load_data` only chains the modelled steps around `read_excel`; the two-row header it reads is the input of `Headers.NormalizeHeaders`.
- `adjust_client_name` repeats the client branch of the overlay (`Overlay.ClientCell`) on a comma-separated session and is not modelled separately.
- The download name built from `datetime.now()` depends on the clock.
- `load_product_mapping` is only called from code that is commented out.
- FrameProcessor.Quantity: text cells are treated as unconvertible. `astype(float)` also accepts numeric strings such as "3", which the model does not parse, because number parsing is out of scope.
- FrameProcessor.Quantities: for the same reason, a column holding a numeric string such as "3" fails in the model, whereas pandas converts it.
- FrameProcessor.AddAdditionalColumns: for the same reason, the step fails on numeric strings in the pack or loop column, whereas pandas converts them.
- FrameProcessor.FilterData: for the same reason, the step fails on a numeric string in the pack column, whereas pandas compares its value with 0.
- FrameProcessor.Quantity: pack and loop values are `real`, not IEEE doubles, and `astype(int)` of NaN or infinity is not modelled.
- Headers.NormalizeHeaders: each header level is assumed to be text already. `' '.join` raises on a numeric level, and that error path is not modelled.
- Headers.RenameAndSelect: duplicate column labels in the input frame are not modelled; labels are assumed distinct, as `actual_columns` makes them.
- Tables.Project: on a table with a repeated label, pandas `df[names]` returns every column carrying that label, while the model returns only the first. Repeated labels arise when two mapping entries share a target name, such as `("Ref",)` and `("Desc",)` both mapped to "Produkt"; that case is not modelled.
- FrameProcessor.FinalizeColumnsOrder: for the same reason, when two mapping entries share a target, pandas yields more than eleven columns and the model yields exactly eleven. The mapping is the caller's argument, so nothing rules this case out; it is simply not modelled.
- ExcelProcessor.ExtractClientName: the `AttributeError` that `.str` raises on a non-text fourth column is not modelled. Only the `IndexError` path of no match or too few columns returns nothing.
- ExcelProcessor.ExtractClientName: the keyword is matched as a literal substring. `str.contains` reads it as a regular expression, and the two agree for "Valeo Electric", which has no metacharacters.
- ExcelProcessor.ProductCell: this is the cell-by-cell result for a text (object) Description column. A Description column without any text is numeric, and `+ ' '` on it raises; `ProcessFile` models that case through `TextDescriptions`.
- ExcelProcessor.ExtractDate: the keyword regular expression and `str(cell)` are parameters, and `process_file` discards the result.
- ExcelProcessor.PrepareOrderData: the frame is assumed to carry a default integer index, so the `index[0]` label and the `iloc` position coincide.
- ExcelProcessor.FindRelevantSheet: `DataFrame.to_string()` is the `render` parameter; its exact text is pandas formatting.
- Dates.ParseDotted: `strptime` also accepts non-ASCII Unicode digits, and this model accepts only ASCII digits.
- Dates.FormatIso: years below 1000 are written with four digits. `strftime('%Y')` leaves them unpadded on glibc (year 42 is written "42"), and other platforms and Python versions differ, so the model fixes one choice.
- MainScript.FormatDate: an invalid JavaScript `Date` (NaN getters) is excluded by `ValidJsDate`, and the year is written as an integer.
- Upload.AllowedFile: lower-casing is ASCII-only. `str.lower` also maps other letters, but none of them to 'x', 'l' or 's', so the decision is the same for these two extensions.
