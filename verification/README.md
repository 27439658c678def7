# Filtering the GEIH ethnic-population annex

Two Streamlit scripts reduce sheets of the GEIH annex workbook (the Colombian
household survey's tables for ethnic groups) to a concept column plus the most
recent "rolling period" columns. Each sheet is read without a header and
addressed by position. One row of it, the period row, holds labels such as
`Dic 23 - Nov 24`.

- **app.py** finds the right-most non-blank label of the period row. It reads
  two month tokens from it with the regular expression
  `([A-Za-z]+)\s*\d+.*-\s*([A-Za-z]+)\s*\d+` (`re.match`, so anchored at the
  start), and collects every column from 1 on whose label holds both tokens.
- **filtrar_anexo_geih.py**, the earlier script, hard-codes the tokens "Dic" and
  "Nov", and scans from column 0.

Both scripts then keep column 0 plus the last `n` matching columns in ascending
order. Their labels go alongside. Both walk the configured views in order and write at most one sheet for each. A view is skipped when its source sheet is missing or its filter returns no table.

## Modules

- `Text`: Python's whitespace, `str.strip()`, `needle in hay`, and maximal
  character runs.
- `LabelRegex`: `re.match` of the label pattern as an explicit recogniser.
  - `Split` is the reference description of every way the pattern can match.
  - `Match` is proved sound and complete against it. Its greedy `.*` picks the
    last hyphen possible.
- `Grid`: the cell, the frame, the label scan shared by both detectors,
  `sorted(keys)[-n:]` and the `iloc` projection.
- `PatternFilter`: app.py's detector and `filtrar_hoja`. The two loops are
  methods proved equal to the functions `LatestBefore` and `TokenColumns`.
- `DicNovFilter`: filtrar_anexo_geih.py's detector and `filtrar_hoja`. It also
  holds lemmas relating it to app.py.
- `Workbook`: the view loop of `crear_excel_filtrado_simple`, shared by both
  scripts. A method with a loop is proved equal to the function `Render`.

## Model

| member | source | states |
|---|---|---|
| `Text.StripMeans` | app.py:58-60 | `str.strip()` is empty exactly when the text is all whitespace. Otherwise it starts and ends with non-whitespace, and it is the piece of the text that begins where the leading whitespace ends and is followed only by whitespace. |
| `Text.ContainsMeans` | app.py:91 | `needle in hay` holds exactly when the needle occurs at some index of the hay. |
| `LabelRegex.MatchTokens` | app.py:77-83 | Group 1 is a non-empty, maximal run of ASCII letters starting at index 0 of the label. Group 2 is a non-empty run of ASCII letters. |
| `LabelRegex.MatchSound` | app.py:77 | Whenever `Match` succeeds, the label splits as the pattern requires: letters, whitespace, digits, any non-newline text, `-`, whitespace, letters, whitespace, digits. The groups are the two letter runs of that split. |
| `LabelRegex.MatchComplete` | app.py:77-80 | Whenever the label splits as the pattern requires, `Match` succeeds with the same group 1. Its hyphen is at or after the split's hyphen, and where the two hyphens coincide group 2 agrees. |
| `LabelRegex.MatchTokensOccur` | app.py:77-91 | Both tokens occur in the label they were read from. |
| `Grid.TokenColumnsMeans` | app.py:86-92 | A column in [lo, hi) is in the dictionary exactly when its cell is present and its stripped text contains both tokens. It is mapped to that stripped text. |
| `Grid.TokenColumnsFromOne` | filtrar_anexo_geih.py:54-61 | Scanning from column 1 gives the scan from column 0 with column 0 removed. |
| `Grid.SelectColumns` | app.py:108 | `sorted(keys)[-n:]` is strictly increasing and made of keys of the dictionary. It holds min(n, \|keys\|) of them, or all of them when n is 0. |
| `Grid.SelectColumnsKeepsLast` | app.py:108 | Every key left out lies left of every key kept. |
| `Grid.SelectColumnsKeepsAll` | app.py:108 | No key is left out when there are at most n keys, or when n is 0. |
| `Grid.Project` | app.py:115-116 | `iloc[:, cols]` with the columns renumbered keeps every row in order. Each row is cut down to its cells at `cols`, so the result is `\|cols\|` wide. |
| `Grid.KeepLastLabels` | app.py:109 | The j-th label is the dictionary's entry for the j-th selected column. |
| `Grid.KeepLastTable` | app.py:112-116 | The reduced frame has the source's rows in order, and is one column wider than the selection. Each row is the source row's column 0 followed by its cells at the selected columns. |
| `Grid.KeepLastRepeatsZero` | filtrar_anexo_geih.py:79-83 | Suppose column 0 is a match and every match is kept. Then the first two output columns are both the source's column 0, and the first label is column 0's. |
| `PatternFilter.LatestColumn` | app.py:56-60 | The result is the largest column c with 1 <= c < width whose cell is present and non-blank after strip. There is none exactly when no such column exists. |
| `PatternFilter.FindLatestPeriod` | app.py:51-62 | The loop returns that latest column together with its stripped label, or nothing. |
| `PatternFilter.DetectMeans` | app.py:64-94 | The result is `({}, None, None)` exactly when there is no latest label or it does not match. Otherwise both tokens are non-empty letter runs. A column is in the mapping exactly when it is not column 0 and its stripped text holds both tokens, and it is mapped to that text. |
| `PatternFilter.FindPatternColumns` | app.py:64-94 | The two loops compute the detector's `(columnas, mes_inicio, mes_fin)`. |
| `PatternFilter.CollectTokenColumns` | app.py:86-92 | The second scan inserts exactly the columns from 1 on whose stripped text holds both tokens. |
| `PatternFilter.DetectIncludesLatest` | app.py:71-92 | A pattern is found exactly when the mapping is non-empty. The latest column is then in the mapping, with its own label. |
| `PatternFilter.FilterDetectedShape` | app.py:102-116 | An empty mapping gives `(None, [], None)`. Otherwise the table has 1 + min(n, matches) columns and the source's rows. Each row is column 0 plus the selected cells, and each label is the mapping's entry for its column. |
| `PatternFilter.FilterSheetEmpty` | app.py:102-105 | `filtrar_hoja` returns `(None, [], None)` exactly when no pattern was detected. |
| `PatternFilter.FilterSheetPattern` | app.py:118-120 | Once a pattern is found, a table is returned and the pattern string is `start-end`, because the start token is never empty. |
| `PatternFilter.FilterSheetShape` | app.py:108-116 | Once a pattern is found, every match lies right of column 0. The output has 1 + min(n, matches) columns and the source's rows. Each row is column 0 plus the cells at the selected columns. |
| `PatternFilter.FilterSheetLabels` | app.py:108-109 | Once a pattern is found, every kept column is right of column 0 and holds both tokens. Its label is its own stripped text. |
| `DicNovFilter.FindDicNovColumns` | filtrar_anexo_geih.py:51-61 | The loop, inner `col < df.shape[1]` guard included, computes the scan of every column from 0. So the guard never skips a column. |
| `DicNovFilter.DicNovColumns` | filtrar_anexo_geih.py:53-61 | Column c, column 0 included, is in the result exactly when its cell is present and its stripped text holds "Dic" and "Nov". It is mapped to that text. |
| `DicNovFilter.FilterSheetEmpty` | filtrar_anexo_geih.py:69-72 | `filtrar_hoja` returns `(None, [])` exactly when no column matches. |
| `DicNovFilter.FilterSheetShape` | filtrar_anexo_geih.py:75-83 | Once a column matches, the output has 1 + min(n, matches) columns and the source's rows. Each row is column 0 plus the cells at the selected columns. |
| `DicNovFilter.FilterSheetLabels` | filtrar_anexo_geih.py:75-76 | Each kept column holds both tokens, and its label is its own stripped text. |
| `DicNovFilter.ColumnZeroRepeated` | filtrar_anexo_geih.py:79-83 | Suppose column 0's label holds both tokens and every match is kept. Then output columns 0 and 1 are both the concept column, and the first label is column 0's. |
| `DicNovFilter.SameColumnsAsPatternDetector` | filtrar_anexo_geih.py:53-61 | When app.py's detector reads the tokens "Dic" and "Nov", it matches the same columns as this scan minus column 0. |
| `DicNovFilter.SameSheetAsPatternFilter` | filtrar_anexo_geih.py:63-85 | When app.py detects Dic-Nov and column 0 does not match, both scripts' `filtrar_hoja` return the same table and labels. app.py reports the pattern `Dic-Nov`. |
| `Workbook.CreateFilteredWorkbook` | app.py:131-182 | The sheets written for the five configured views are the sheets `Render` describes. |
| `Workbook.WriteViews` | filtrar_anexo_geih.py:124-143 | The loop writes, in order, one sheet per view whose source was loaded and whose filter returned a table. |
| `Workbook.Truncate` | app.py:176-179 | `name[:31]` is the name's first 31 characters: a prefix of it, exactly 31 characters long when the name is longer, and the whole name when it fits. |
| `Workbook.ViewSheet` | app.py:174-197 | The sheet title is the view name's first 31 characters: the whole name when it fits, otherwise a 31-character prefix. The row-2 header is "Concepto" followed by the labels, and the body is the filtered table. |
| `Workbook.SheetForMeans` | app.py:161-171 | A view gets a sheet exactly when its data key (`TN_Grupos` for `TN_Grupos_2`) was loaded and the filter returned a table. |
| `Workbook.EmittedIncreasing` | app.py:159-179 | The views that get a sheet are visited in increasing configuration order. |
| `Workbook.EmittedExactly` | app.py:159-171 | A view index is listed exactly when that view gets a sheet. |
| `Workbook.RenderInOrder` | app.py:159-179 | The k-th written sheet is the sheet of the k-th view that gets one. |
| `Workbook.GroupsTableReadsGroups` | app.py:159-167 | `H3_Tabla_2años` gets a sheet exactly when `TN_Grupos` was loaded and filtering it to `periodos_tabla` periods gives a table. That table is its body. |
| `Workbook.GroupsViewsAgree` | app.py:131-167 | With equal chart and table counts, the groups chart and the two-year table are written together or not at all, with the same header and body. |
| `Workbook.TitlesAreNames` | app.py:131-179 | Every configured name fits in 31 characters, so each sheet is titled with its full view name. |
| `Workbook.FilterViewWidth` | app.py:182 | Either script's filtered table has one column per label plus the concept column, and the source's rows. |
| `Workbook.ScriptLabelsSpanTable` | filtrar_anexo_geih.py:146 | For every loaded sheet and count, both scripts' filters give a table exactly `len(periodos) + 1` wide. |
| `Workbook.RenderedHeadersFit` | app.py:182-197 | Every written sheet's header row spans its body exactly. |

## Left out

- The Streamlit interface is not modelled because it is interactive I/O. This covers the upload, the select boxes, the preview and the download.
- Reading the workbook (`pd.ExcelFile`, `pd.read_excel`) is a library call. A loaded sheet is a `Source` in the model: a rectangular frame whose period row exists.
- Cells are given by their `str()` text, because how pandas renders numbers is outside the model.
- The period row must exist (`row < |rows|`, and the `Source` type) in the model. The scripts raise when it is out of range, except on narrow sheets. On a sheet with at most one column, app.py's two scans (app.py:56, app.py:87) never index the row, so they return no period and `({}, None, None)`, and the view is skipped. On a sheet with no columns, the scan at filtrar_anexo_geih.py:54 does the same. The model does not cover this non-raising case of a narrow sheet whose period row is missing.
- openpyxl presentation is not modelled: fonts, fills, borders, merged cells, column widths and saving to `BytesIO`. A sheet keeps its title, banner text, fill colour, header row and body.
- The data cells are written from the filtered table as is. `round(float(valor), 1)` and the numeric type tests are floating point, and are not modelled.
- When no view is written, openpyxl still holds its default empty sheet. The model then writes no sheets. The renaming of the active sheet for the first view and the creation of the others have the same result, an ordered list of sheets.
- `\d` is restricted to ASCII digits; Python's `re` also accepts other Unicode decimal digits. `\s` and `strip()` use Python's whitespace set. `.` is any character but a newline.
- The regular expression requires at least one digit after each month token, and the model follows the code at app.py:77.
- `num_periodos` is a `nat`. When it is 0, Python's `[-0:]` keeps every match, and the model keeps them all too.
- `.copy()` and the renumbering of columns need no model, because frames are values: the filters never change their input.
- `PatternFilter.FilterSheet` is the function `filtrar_hoja` with its else branch `None` for an empty start token included. `PatternFilter.FilterSheetPattern` proves that branch is never taken.
