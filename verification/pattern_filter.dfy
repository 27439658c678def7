/**
 * The generic detector and filter of app.py: find the right-most period
 * label of the designated row, read its two month tokens with the label
 * pattern, collect every column whose label holds both tokens, and project the
 * sheet onto column 0 plus the last n of those columns.
 */
module PatternFilter {
  import opened Optional
  import opened Text
  import opened LabelRegex
  import opened Grid

  /** A column of the period row and its stripped label. */
  datatype Period = Period(col: nat, text: string)

  /** The two month tokens (`mes_inicio`, `mes_fin`). */
  datatype Pattern = Pattern(start: string, end: string)

  /** `(columnas, mes_inicio, mes_fin)`: the tokens are both `None` or both set. */
  datatype Detection = Detection(columns: map<nat, string>, pattern: Option<Pattern>)

  /** `(df_filtrado, nombres_periodos, patron)`. */
  datatype Filtered = Filtered(table: Option<Frame>, labels: seq<string>, pattern: Option<string>)

  /** The right-most column c with 1 <= c < hi whose cell holds non-blank text. */
  function LatestColumn(cells: seq<Cell>, hi: nat): (r: Option<nat>)
    requires hi <= |cells|
    ensures r.Some? ==> 1 <= r.value < hi && NonBlank(cells[r.value])
    ensures r.Some? ==> forall c | r.value < c < hi :: !NonBlank(cells[c])
    ensures r.None? ==> forall c | 1 <= c < hi :: !NonBlank(cells[c])
    decreases hi
  {
    if hi <= 1 then None
    else if NonBlank(cells[hi - 1]) then Some(hi - 1)
    else LatestColumn(cells, hi - 1)
  }

  /** The latest period among columns 1 <= c < hi, with its text stripped. */
  function LatestBefore(cells: seq<Cell>, hi: nat): Option<Period>
    requires hi <= |cells|
  {
    match LatestColumn(cells, hi)
    case None => None
    case Some(c) => Some(Period(c, Strip(cells[c].text)))
  }

  /** `encontrar_ultimo_periodo`: scan columns 1.. left to right, keeping the last non-blank label seen. */
  method FindLatestPeriod(f: Frame, row: nat) returns (latest: Option<Period>)
    requires Rectangular(f) && row < |f.rows|
    ensures latest == LatestBefore(f.rows[row], f.width)
  {
    var cells := f.rows[row];
    latest := None;
    var col := 1;
    while col < f.width
      invariant 1 <= col && (col <= f.width || col == 1)
      invariant latest == LatestBefore(cells, if col <= f.width then col else f.width)
    {
      var val := cells[col];
      if val.Val? && Strip(val.text) != [] {
        latest := Some(Period(col, Strip(val.text)));
      }
      col := col + 1;
    }
  }

  /** `encontrar_columnas_mismo_patron` as a function of the period row. */
  function Detect(cells: seq<Cell>): Detection {
    match LatestBefore(cells, |cells|)
    case None => Detection(map[], None)
    case Some(latest) =>
      match Match(latest.text)
      case None => Detection(map[], None)
      case Some(m) => Detection(TokenColumns(cells, m.first, m.second, 1, |cells|), Some(Pattern(m.first, m.second)))
  }

  /**
   * `({}, None, None)` when there is no latest label or it does not match the
   * pattern; otherwise the tokens are non-empty runs of letters, and a column
   * is in the mapping exactly when it is not column 0 and its cell's stripped
   * text holds both tokens, mapped to that text.
   */
  lemma DetectMeans(cells: seq<Cell>)
    ensures var d := Detect(cells);
      && (d.pattern.None? <==> LatestBefore(cells, |cells|).None? || Match(LatestBefore(cells, |cells|).value.text).None?)
      && (d.pattern.None? ==> d.columns == map[])
      && (d.pattern.Some? ==>
            && d.pattern.value.start != [] && d.pattern.value.end != []
            && (forall k | 0 <= k < |d.pattern.value.start| :: IsLetter(d.pattern.value.start[k]))
            && (forall k | 0 <= k < |d.pattern.value.end| :: IsLetter(d.pattern.value.end[k]))
            && (forall c: nat :: c in d.columns <==> 1 <= c < |cells| && HasTokens(cells[c], d.pattern.value.start, d.pattern.value.end))
            && (forall c | c in d.columns :: c < |cells| && cells[c].Val? && d.columns[c] == Strip(cells[c].text)))
  {
    var d := Detect(cells);
    if d.pattern.Some? {
      var latest := LatestBefore(cells, |cells|).value;
      var m := Match(latest.text).value;
      assert d == Detection(TokenColumns(cells, m.first, m.second, 1, |cells|), Some(Pattern(m.first, m.second)));
      MatchTokens(latest.text);
      TokenColumnsMeans(cells, m.first, m.second, 1, |cells|);
    }
  }

  /**
   * `encontrar_columnas_mismo_patron`: find the latest label, match it, and
   * re-scan columns 1.. inserting every column whose text holds both tokens.
   */
  method FindPatternColumns(f: Frame, row: nat) returns (d: Detection)
    requires Rectangular(f) && row < |f.rows|
    ensures d == Detect(f.rows[row])
  {
    var latest := FindLatestPeriod(f, row);
    if latest.None? {
      return Detection(map[], None);
    }
    var m := Match(latest.value.text);
    if m.None? {
      return Detection(map[], None);
    }
    var columns := CollectTokenColumns(f, row, m.value.first, m.value.second);
    d := Detection(columns, Some(Pattern(m.value.first, m.value.second)));
  }

  /** The second scan of `encontrar_columnas_mismo_patron`: columns 1.. whose stripped text holds both tokens. */
  method CollectTokenColumns(f: Frame, row: nat, start: string, end: string) returns (columns: map<nat, string>)
    requires Rectangular(f) && row < |f.rows|
    ensures columns == TokenColumns(f.rows[row], start, end, 1, f.width)
  {
    var cells := f.rows[row];
    columns := map[];
    var col := 1;
    while col < f.width
      invariant 1 <= col && (col <= f.width || col == 1)
      invariant columns == TokenColumns(cells, start, end, 1, if col <= f.width then col else f.width)
    {
      var val := cells[col];
      if val.Val? {
        var texto := Strip(val.text);
        if Contains(texto, start) && Contains(texto, end) {
          columns := columns[col := texto];
        }
      }
      col := col + 1;
    }
  }

  /**
   * Once tokens are found, the latest column is among the matches with its own
   * label, since both tokens are pieces of that label: a pattern is found
   * exactly when the mapping is non-empty.
   */
  lemma DetectIncludesLatest(cells: seq<Cell>)
    ensures var d := Detect(cells);
      && (d.pattern.Some? <==> d.columns != map[])
      && (d.pattern.Some? ==>
            && LatestBefore(cells, |cells|).Some?
            && LatestBefore(cells, |cells|).value.col in d.columns
            && d.columns[LatestBefore(cells, |cells|).value.col] == LatestBefore(cells, |cells|).value.text)
  {
    var d := Detect(cells);
    DetectMeans(cells);
    if d.pattern.Some? {
      var latest := LatestBefore(cells, |cells|).value;
      MatchTokensOccur(latest.text);
      assert HasTokens(cells[latest.col], d.pattern.value.start, d.pattern.value.end);
    }
  }

  /**
   * `filtrar_hoja` after the detector has run: nothing when no column matched;
   * otherwise column 0 plus the last n matching columns in ascending order,
   * their labels alongside, and the pattern written `start-end` when the start
   * token is non-empty.
   */
  function FilterDetected(f: Frame, d: Detection, n: nat): Filtered
    requires Rectangular(f)
    requires forall c | c in d.columns :: c < f.width
  {
    if d.columns == map[] then Filtered(None, [], None)
    else
      assert 0 < f.width by { var c :| c in d.columns; }
      var kept := KeepLast(f, d.columns, n);
      Filtered(Some(kept.table), kept.labels,
        if d.pattern.Some? && d.pattern.value.start != [] then Some(d.pattern.value.start + "-" + d.pattern.value.end) else None)
  }

  /** `filtrar_hoja`: detect the pattern on the period row, then filter. */
  function FilterSheet(f: Frame, row: nat, n: nat): Filtered
    requires Rectangular(f) && row < |f.rows|
  {
    DetectMeans(f.rows[row]);
    FilterDetected(f, Detect(f.rows[row]), n)
  }

  /**
   * The filter keeps column 0 and the last min(n, matches) matching columns
   * (all of them when n is 0), each labelled with its entry in the mapping,
   * and returns nothing exactly when the mapping is empty.
   */
  lemma FilterDetectedShape(f: Frame, d: Detection, n: nat)
    requires Rectangular(f)
    requires forall c | c in d.columns :: c < f.width
    ensures var r := FilterDetected(f, d, n);
      var sel := SelectColumns(d.columns, f.width, n);
      && (r.table.None? <==> d.columns == map[])
      && (r.table.None? ==> r.labels == [] && r.pattern == None)
      && (r.table.Some? ==>
            && r.table.value.width == 1 + |r.labels| && |sel| == |r.labels| && |r.table.value.rows| == |f.rows|
            && |r.labels| == (if n == 0 || |d.columns| <= n then |d.columns| else n)
            && (forall i | 0 <= i < |f.rows| :: ProjectsRow(r.table.value.rows[i], f.rows[i], sel))
            && (forall j | 0 <= j < |sel| :: r.labels[j] == d.columns[sel[j]]))
  {
    if d.columns != map[] {
      assert 0 < f.width by {
        var c :| c in d.columns;
      }
      KeepLastLabels(f, d.columns, n);
      KeepLastTable(f, d.columns, n);
    }
  }

  /**
   * `filtrar_hoja` returns `(None, [], None)` exactly when no pattern was
   * detected (equivalently, no column matched).
   */
  lemma FilterSheetEmpty(f: Frame, row: nat, n: nat)
    requires Rectangular(f) && row < |f.rows|
    ensures var r := FilterSheet(f, row, n);
      && (r.table.None? <==> Detect(f.rows[row]).pattern.None?)
      && (r.table.None? ==> r.labels == [] && r.pattern == None)
  {
    DetectMeans(f.rows[row]);
    DetectIncludesLatest(f.rows[row]);
    FilterDetectedShape(f, Detect(f.rows[row]), n);
  }

  /** Once a pattern is found, `filtrar_hoja` returns a table and the pattern written `start-end`. */
  lemma FilterSheetPattern(f: Frame, row: nat, n: nat)
    requires Rectangular(f) && row < |f.rows|
    requires Detect(f.rows[row]).pattern.Some?
    ensures var r := FilterSheet(f, row, n);
      var p := Detect(f.rows[row]).pattern.value;
      r.table.Some? && r.pattern == Some(p.start + "-" + p.end)
  {
    var d := Detect(f.rows[row]);
    DetectMeans(f.rows[row]);
    DetectIncludesLatest(f.rows[row]);
    FilterDetectedShape(f, d, n);
  }

  /**
   * Once a pattern is found, the output of `filtrar_hoja` has 1 + min(n,
   * matches) columns (all matches when n is 0), and each of its rows is the
   * source row's column 0 followed by its cells at the selected columns.
   */
  lemma FilterSheetShape(f: Frame, row: nat, n: nat)
    requires Rectangular(f) && row < |f.rows|
    requires Detect(f.rows[row]).pattern.Some?
    ensures forall c | c in Detect(f.rows[row]).columns :: 1 <= c < f.width
    ensures var r := FilterSheet(f, row, n);
      var d := Detect(f.rows[row]);
      var sel := SelectColumns(d.columns, f.width, n);
      && r.table.Some?
      && r.table.value.width == 1 + |r.labels| && |sel| == |r.labels| && |r.table.value.rows| == |f.rows|
      && |r.labels| == (if n == 0 || |d.columns| <= n then |d.columns| else n)
      && (forall i | 0 <= i < |f.rows| :: ProjectsRow(r.table.value.rows[i], f.rows[i], sel))
  {
    var d := Detect(f.rows[row]);
    DetectMeans(f.rows[row]);
    DetectIncludesLatest(f.rows[row]);
    FilterDetectedShape(f, d, n);
  }

  /**
   * Once a pattern is found, each column `filtrar_hoja` keeps lies right of
   * column 0, holds both tokens, and is labelled with its own stripped text.
   */
  lemma FilterSheetLabels(f: Frame, row: nat, n: nat)
    requires Rectangular(f) && row < |f.rows|
    requires Detect(f.rows[row]).pattern.Some?
    ensures forall c | c in Detect(f.rows[row]).columns :: 1 <= c < f.width
    ensures var r := FilterSheet(f, row, n);
      var d := Detect(f.rows[row]);
      var sel := SelectColumns(d.columns, f.width, n);
      |r.labels| == |sel| &&
      forall j | 0 <= j < |sel| ::
        && 1 <= sel[j] && HasTokens(f.rows[row][sel[j]], d.pattern.value.start, d.pattern.value.end)
        && r.labels[j] == Strip(f.rows[row][sel[j]].text)
  {
    var cells := f.rows[row];
    var d := Detect(cells);
    var p := d.pattern.value;
    assert forall c | c in d.columns ::
        1 <= c < f.width && HasTokens(cells[c], p.start, p.end) && d.columns[c] == Strip(cells[c].text) by {
      DetectMeans(cells);
    }
    var sel := SelectColumns(d.columns, f.width, n);
    var r := FilterSheet(f, row, n);
    assert |r.labels| == |sel| && forall j | 0 <= j < |sel| :: r.labels[j] == d.columns[sel[j]] by {
      DetectIncludesLatest(cells);
      FilterDetectedShape(f, d, n);
    }
    forall j | 0 <= j < |sel|
      ensures 1 <= sel[j] && HasTokens(cells[sel[j]], p.start, p.end) && r.labels[j] == Strip(cells[sel[j]].text)
    {
      assert sel[j] in d.columns;
    }
  }
}
