/**
 * The earlier, hard-coded variant (filtrar_anexo_geih.py): the period columns
 * are those whose label holds both "Dic" and "Nov", scanned from column 0, and
 * the sheet is projected onto column 0 plus the last n of them.
 */
module DicNovFilter {
  import opened Optional
  import opened Text
  import opened Grid
  import LabelRegex
  import PatternFilter

  const Dic: string := "Dic"
  const Nov: string := "Nov"

  /** `(df_filtrado, periodos)`. */
  datatype Filtered = Filtered(table: Option<Frame>, labels: seq<string>)

  /**
   * `encontrar_columnas_dic_nov`: every column from 0, column 0 included, whose
   * cell's stripped text holds "Dic" and "Nov", mapped to that text. The inner
   * `col < df.shape[1]` guard always holds, so no column in range is skipped.
   */
  method FindDicNovColumns(f: Frame, row: nat) returns (columns: map<nat, string>)
    requires Rectangular(f) && row < |f.rows|
    ensures columns == TokenColumns(f.rows[row], Dic, Nov, 0, f.width)
  {
    var cells := f.rows[row];
    columns := map[];
    for col := 0 to f.width
      invariant columns == TokenColumns(cells, Dic, Nov, 0, col)
    {
      if col < f.width {
        var val := cells[col];
        if val.Val? {
          var texto := Strip(val.text);
          if Contains(texto, Dic) && Contains(texto, Nov) {
            columns := columns[col := texto];
          }
        }
      }
    }
  }

  /**
   * The columns `encontrar_columnas_dic_nov` returns: exactly the columns of
   * the sheet, column 0 included, whose cell's stripped text holds both "Dic"
   * and "Nov", each mapped to that text.
   */
  lemma DicNovColumns(f: Frame, row: nat)
    requires Rectangular(f) && row < |f.rows|
    ensures var columns := TokenColumns(f.rows[row], Dic, Nov, 0, f.width);
      && (forall c: nat :: c in columns <==> c < f.width && HasTokens(f.rows[row][c], Dic, Nov))
      && (forall c | c in columns :: c < f.width && columns[c] == Strip(f.rows[row][c].text))
  {
    TokenColumnsMeans(f.rows[row], Dic, Nov, 0, f.width);
  }

  /** `filtrar_hoja`: nothing when no column holds both tokens, otherwise column 0 plus the last n such columns. */
  function FilterSheet(f: Frame, row: nat, n: nat): Filtered
    requires Rectangular(f) && row < |f.rows|
  {
    var columns := TokenColumns(f.rows[row], Dic, Nov, 0, f.width);
    TokenColumnsMeans(f.rows[row], Dic, Nov, 0, f.width);
    if columns == map[] then Filtered(None, [])
    else
      assert 0 < f.width by {
        var c :| c in columns;
      }
      var kept := KeepLast(f, columns, n);
      Filtered(Some(kept.table), kept.labels)
  }

  /** `filtrar_hoja` returns `(None, [])` exactly when no column holds both tokens. */
  lemma FilterSheetEmpty(f: Frame, row: nat, n: nat)
    requires Rectangular(f) && row < |f.rows|
    ensures var r := FilterSheet(f, row, n);
      && (r.table.None? <==> TokenColumns(f.rows[row], Dic, Nov, 0, f.width) == map[])
      && (r.table.None? ==> r.labels == [])
  {
  }

  /**
   * Once a column matched, the output of `filtrar_hoja` has 1 + min(n,
   * matches) columns (all matches when n is 0), and each of its rows is the
   * source row's column 0 followed by its cells at the selected columns.
   */
  lemma FilterSheetShape(f: Frame, row: nat, n: nat)
    requires Rectangular(f) && row < |f.rows|
    requires TokenColumns(f.rows[row], Dic, Nov, 0, f.width) != map[]
    ensures forall c | c in TokenColumns(f.rows[row], Dic, Nov, 0, f.width) :: c < f.width
    ensures var r := FilterSheet(f, row, n);
      var columns := TokenColumns(f.rows[row], Dic, Nov, 0, f.width);
      var sel := SelectColumns(columns, f.width, n);
      && r.table.Some?
      && r.table.value.width == 1 + |r.labels| && |sel| == |r.labels| && |r.table.value.rows| == |f.rows|
      && |r.labels| == (if n == 0 || |columns| <= n then |columns| else n)
      && (forall i | 0 <= i < |f.rows| :: ProjectsRow(r.table.value.rows[i], f.rows[i], sel))
  {
    var columns := TokenColumns(f.rows[row], Dic, Nov, 0, f.width);
    TokenColumnsMeans(f.rows[row], Dic, Nov, 0, f.width);
    assert 0 < f.width by {
      var c :| c in columns;
    }
    var kept := KeepLast(f, columns, n);
    assert FilterSheet(f, row, n) == Filtered(Some(kept.table), kept.labels);
    KeepLastLabels(f, columns, n);
    KeepLastTable(f, columns, n);
  }

  /** Once a column matched, each column `filtrar_hoja` keeps holds both tokens and is labelled with its own stripped text. */
  lemma FilterSheetLabels(f: Frame, row: nat, n: nat)
    requires Rectangular(f) && row < |f.rows|
    requires TokenColumns(f.rows[row], Dic, Nov, 0, f.width) != map[]
    ensures forall c | c in TokenColumns(f.rows[row], Dic, Nov, 0, f.width) :: c < f.width
    ensures var r := FilterSheet(f, row, n);
      var sel := SelectColumns(TokenColumns(f.rows[row], Dic, Nov, 0, f.width), f.width, n);
      |r.labels| == |sel| &&
      forall j | 0 <= j < |sel| ::
        HasTokens(f.rows[row][sel[j]], Dic, Nov) && r.labels[j] == Strip(f.rows[row][sel[j]].text)
  {
    var cells := f.rows[row];
    var columns := TokenColumns(cells, Dic, Nov, 0, f.width);
    assert forall c | c in columns :: c < f.width && HasTokens(cells[c], Dic, Nov) && columns[c] == Strip(cells[c].text) by {
      TokenColumnsMeans(cells, Dic, Nov, 0, f.width);
    }
    var sel := SelectColumns(columns, f.width, n);
    var r := FilterSheet(f, row, n);
    assert |r.labels| == |sel| && forall j | 0 <= j < |sel| :: r.labels[j] == columns[sel[j]] by {
      assert 0 < f.width by {
        var c :| c in columns;
      }
      var kept := KeepLast(f, columns, n);
      assert r == Filtered(Some(kept.table), kept.labels);
      KeepLastLabels(f, columns, n);
    }
    forall j | 0 <= j < |sel|
      ensures HasTokens(cells[sel[j]], Dic, Nov) && r.labels[j] == Strip(cells[sel[j]].text)
    {
      assert sel[j] in columns;
    }
  }

  /**
   * Column 0 is scanned too, so when its own label holds both tokens and every
   * match is kept, `[0] + cols_ordenadas` names column 0 twice: the first two
   * output columns are both copies of the concept column.
   */
  lemma ColumnZeroRepeated(f: Frame, row: nat, n: nat)
    requires Rectangular(f) && row < |f.rows| && 0 < f.width
    requires HasTokens(f.rows[row][0], Dic, Nov)
    requires n == 0 || |TokenColumns(f.rows[row], Dic, Nov, 0, f.width)| <= n
    ensures var r := FilterSheet(f, row, n);
      && r.table.Some? && r.table.value.width >= 2 && |r.table.value.rows| == |f.rows| && r.labels != []
      && r.labels[0] == Strip(f.rows[row][0].text)
      && forall i | 0 <= i < |f.rows| :: r.table.value.rows[i][1] == r.table.value.rows[i][0] == f.rows[i][0]
  {
    var columns := TokenColumns(f.rows[row], Dic, Nov, 0, f.width);
    TokenColumnsMeans(f.rows[row], Dic, Nov, 0, f.width);
    assert 0 in columns;
    var kept := KeepLast(f, columns, n);
    assert FilterSheet(f, row, n) == Filtered(Some(kept.table), kept.labels);
    KeepLastRepeatsZero(f, columns, n);
  }

  /**
   * When the detector of app.py reads exactly the tokens "Dic" and "Nov" from
   * the latest label, the two scripts match the same columns except that only
   * this one may match column 0.
   */
  lemma SameColumnsAsPatternDetector(cells: seq<Cell>)
    requires PatternFilter.Detect(cells).pattern == Some(PatternFilter.Pattern(Dic, Nov))
    ensures PatternFilter.Detect(cells).columns == TokenColumns(cells, Dic, Nov, 0, |cells|) - {0}
  {
    var latest := PatternFilter.LatestBefore(cells, |cells|).value;
    var m := LabelRegex.Match(latest.text).value;
    assert PatternFilter.Detect(cells).columns == TokenColumns(cells, m.first, m.second, 1, |cells|);
    TokenColumnsFromOne(cells, Dic, Nov, |cells|);
  }

  /**
   * If column 0 holds no "Dic"/"Nov" label, the two scripts' `filtrar_hoja`
   * produce the same sheet and labels whenever app.py detects Dic-Nov, and
   * app.py reports the pattern as `Dic-Nov`.
   */
  lemma SameSheetAsPatternFilter(f: Frame, row: nat, n: nat)
    requires Rectangular(f) && row < |f.rows|
    requires PatternFilter.Detect(f.rows[row]).pattern == Some(PatternFilter.Pattern(Dic, Nov))
    requires 0 !in TokenColumns(f.rows[row], Dic, Nov, 0, f.width)
    ensures var a := PatternFilter.FilterSheet(f, row, n);
      var b := FilterSheet(f, row, n);
      a.table == b.table && a.labels == b.labels && a.pattern == Some(Dic + "-" + Nov)
  {
    var cells := f.rows[row];
    var m := TokenColumns(cells, Dic, Nov, 0, f.width);
    var d := PatternFilter.Detect(cells);
    assert d.columns == m by {
      SameColumnsAsPatternDetector(cells);
      assert m - {0} == m;
    }
    assert d.columns != map[] by {
      PatternFilter.DetectIncludesLatest(cells);
    }
    TokenColumnsMeans(cells, Dic, Nov, 0, f.width);
    var kept := KeepLast(f, m, n);
    assert PatternFilter.FilterSheet(f, row, n) == PatternFilter.FilterDetected(f, d, n);
    assert PatternFilter.FilterDetected(f, d, n) == PatternFilter.Filtered(Some(kept.table), kept.labels, Some(Dic + "-" + Nov));
    assert FilterSheet(f, row, n) == Filtered(Some(kept.table), kept.labels);
  }
}
