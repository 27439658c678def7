/**
 * The sheet-selection loop of `crear_excel_filtrado_simple`, shared by both
 * scripts: five views in a fixed order, each reading a loaded sheet (the
 * two-year table reads the groups sheet), filtered to its own number of
 * periods, and written under its name cut to 31 characters with a banner, a
 * "Concepto" header row and the filtered body. Fonts, fills, borders, merged
 * cells and number rounding are presentation and are not modelled.
 */
module Workbook {
  import opened Optional
  import opened Text
  import opened Grid
  import PatternFilter
  import DicNovFilter

  /** Which script's `filtrar_hoja` the loop calls: app.py's or filtrar_anexo_geih.py's. */
  datatype Script = PatternScript | DicNovScript

  /** One entry of `config`: its key, `nombre`, `periodos` and `titulo_color`. */
  datatype ViewSpec = ViewSpec(key: string, name: string, count: nat, color: string)

  /**
   * `datos_hojas[k]`: a loaded sheet and its period row, which must exist
   * (otherwise `iloc` raises).
   */
  type Source = s: Loaded | Rectangular(s.frame) && s.row < |s.frame.rows| witness Loaded(Frame(0, [[]]), 0)

  datatype Loaded = Loaded(frame: Frame, row: nat)

  /** A `filtrar_hoja`, reduced to the table and labels the loop reads from its result. */
  type Filter = (Source, nat) -> Option<Kept>

  /** A written sheet: its title, the A1 banner and fill, the row-2 header and the data rows from row 3. */
  datatype Sheet = Sheet(title: string, banner: string, color: string, header: seq<string>, body: Frame)

  const DarkGreen: string := "375623"
  const GroupsKey: string := "TN_Grupos"
  const GroupsTableKey: string := "TN_Grupos_2"

  /** `config`, in its insertion order; `chart` is `periodos_grafico`, `table` is `periodos_tabla`. */
  function Views(chart: nat, table: nat): seq<ViewSpec> {
    [ ViewSpec(GroupsKey, "H1_Grafico_4a\U{F1}os", chart, DarkGreen),
      ViewSpec(GroupsTableKey, "H3_Tabla_2a\U{F1}os", table, DarkGreen),
      ViewSpec("TN_Sexo", "H3_Sexo", table, DarkGreen),
      ViewSpec("TN_Rama", "H4_Rama", table, DarkGreen),
      ViewSpec("TN_Posocu", "H5_Posocu", table, DarkGreen) ]
  }

  /** `hoja_datos`: the two-year table reads the groups sheet, every other view its own key. */
  function DataKey(key: string): string {
    if key == GroupsTableKey then GroupsKey else key
  }

  /** The table and labels of the script's `filtrar_hoja`, or None when it returned no table. */
  function FilterView(script: Script, src: Source, n: nat): Option<Kept> {
    match script
    case PatternScript =>
      var r := PatternFilter.FilterSheet(src.frame, src.row, n);
      if r.table.None? then None else Some(Kept(r.table.value, r.labels))
    case DicNovScript =>
      var r := DicNovFilter.FilterSheet(src.frame, src.row, n);
      if r.table.None? then None else Some(Kept(r.table.value, r.labels))
  }

  /** The script's `filtrar_hoja` as the loop sees it. */
  function FilterOf(script: Script): Filter {
    (src: Source, n: nat) => FilterView(script, src, n)
  }

  /** Python's `s[:k]`. */
  function Truncate(s: string, k: nat): (r: string)
    ensures |r| <= k && r <= s
    ensures |s| <= k ==> r == s
    ensures |s| > k ==> |r| == k
  {
    if |s| <= k then s else s[..k]
  }

  /**
   * The sheet written for a view: titled with its name cut to 31 characters,
   * bannered with the full name and the labels joined by ", ", and headed by
   * "Concepto" followed by the labels, one per output column.
   */
  function ViewSheet(v: ViewSpec, kept: Kept): (s: Sheet)
    ensures |s.title| <= 31 && s.title <= v.name && (|v.name| <= 31 ==> s.title == v.name)
    ensures |v.name| > 31 ==> |s.title| == 31
    ensures |s.header| == |kept.labels| + 1 && s.header[0] == "Concepto" && s.header[1..] == kept.labels
    ensures s.body == kept.table && s.color == v.color
  {
    Sheet(Truncate(v.name, 31), "\U{1F4CA} " + v.name + " - " + Join(kept.labels, ", "), v.color,
      ["Concepto"] + kept.labels, kept.table)
  }

  /** One iteration of the loop: no sheet when the source is missing or the filter returned None. */
  function SheetFor(filter: Filter, v: ViewSpec, data: map<string, Source>): Option<Sheet> {
    var k := DataKey(v.key);
    if k !in data then None
    else
      match filter(data[k], v.count)
      case None => None
      case Some(kept) => Some(ViewSheet(v, kept))
  }

  /** The sheets the loop writes for `views`, in order. */
  function Render(filter: Filter, views: seq<ViewSpec>, data: map<string, Source>): seq<Sheet> {
    if views == [] then []
    else
      match SheetFor(filter, views[0], data)
      case None => Render(filter, views[1..], data)
      case Some(s) => [s] + Render(filter, views[1..], data)
  }

  /**
   * `crear_excel_filtrado_simple` without its styling: write the sheets of the
   * five configured views with the script's own `filtrar_hoja`.
   */
  method CreateFilteredWorkbook(script: Script, data: map<string, Source>, chart: nat, table: nat)
    returns (sheets: seq<Sheet>)
    ensures sheets == Render(FilterOf(script), Views(chart, table), data)
  {
    sheets := WriteViews(FilterOf(script), Views(chart, table), data);
  }

  /**
   * The loop of `crear_excel_filtrado_simple`: walk the views in order, skip
   * those whose source is missing or whose filter returned None, and write one
   * sheet for every other view.
   */
  method WriteViews(filter: Filter, views: seq<ViewSpec>, data: map<string, Source>) returns (sheets: seq<Sheet>)
    ensures sheets == Render(filter, views, data)
  {
    sheets := [];
    assert views[0..] == views;
    for i := 0 to |views|
      invariant sheets + Render(filter, views[i..], data) == Render(filter, views, data)
    {
      ghost var later := Render(filter, views[i + 1..], data);
      assert views[i..][1..] == views[i + 1..];
      var v := views[i];
      var key := DataKey(v.key);
      if key !in data {
        assert Render(filter, views[i..], data) == later;
        continue;
      }
      var r := filter(data[key], v.count);
      if r.None? {
        assert Render(filter, views[i..], data) == later;
        continue;
      }
      assert Render(filter, views[i..], data) == [ViewSheet(v, r.value)] + later;
      sheets := sheets + [ViewSheet(v, r.value)];
    }
    assert views[|views|..] == [];
  }

  /** Every index of `xs`, plus one. */
  function Shift(xs: seq<nat>): (r: seq<nat>)
    ensures |r| == |xs| && forall k | 0 <= k < |xs| :: r[k] == xs[k] + 1
  {
    seq(|xs|, k requires 0 <= k < |xs| => xs[k] + 1)
  }

  /** The indices of the views that get a sheet, in the order they are visited. */
  function Emitted(filter: Filter, views: seq<ViewSpec>, data: map<string, Source>): seq<nat> {
    if views == [] then []
    else if SheetFor(filter, views[0], data).Some? then [0] + Shift(Emitted(filter, views[1..], data))
    else Shift(Emitted(filter, views[1..], data))
  }

  /** The views that get a sheet are visited in increasing order. */
  lemma {:induction false} EmittedIncreasing(filter: Filter, views: seq<ViewSpec>, data: map<string, Source>)
    ensures var idx := Emitted(filter, views, data);
      Increasing(idx) && forall k | 0 <= k < |idx| :: idx[k] < |views|
  {
    if views != [] {
      EmittedIncreasing(filter, views[1..], data);
    }
  }

  /** A view's index is listed exactly when the view gets a sheet. */
  lemma {:induction false} EmittedExactly(filter: Filter, views: seq<ViewSpec>, data: map<string, Source>)
    ensures forall i: nat :: i in Emitted(filter, views, data) <==> i < |views| && SheetFor(filter, views[i], data).Some?
  {
    if views != [] {
      var rest := Emitted(filter, views[1..], data);
      var shifted := Shift(rest);
      EmittedExactly(filter, views[1..], data);
      forall i: nat
        ensures i in Emitted(filter, views, data) <==> i < |views| && SheetFor(filter, views[i], data).Some?
      {
        if i == 0 {
          assert forall k | 0 <= k < |shifted| :: shifted[k] != 0;
        } else {
          assert i in shifted <==> i - 1 in rest by {
            if i in shifted {
              var k :| 0 <= k < |shifted| && shifted[k] == i;
              assert rest[k] == i - 1;
            }
            if i - 1 in rest {
              var k :| 0 <= k < |rest| && rest[k] == i - 1;
              assert shifted[k] == i;
            }
          }
          if i < |views| {
            assert views[1..][i - 1] == views[i];
          }
        }
      }
    }
  }

  /**
   * The written sheets are the sheets of the listed views, in the same order:
   * the k-th sheet belongs to the k-th view that gets one.
   */
  lemma {:induction false} RenderInOrder(filter: Filter, views: seq<ViewSpec>, data: map<string, Source>)
    ensures var idx := Emitted(filter, views, data);
      var sheets := Render(filter, views, data);
      |idx| == |sheets| && forall k | 0 <= k < |idx| :: idx[k] < |views| && SheetFor(filter, views[idx[k]], data) == Some(sheets[k])
  {
    if views != [] {
      var rest := Emitted(filter, views[1..], data);
      var tail := Render(filter, views[1..], data);
      RenderInOrder(filter, views[1..], data);
      var head := SheetFor(filter, views[0], data);
      var idx := Emitted(filter, views, data);
      var sheets := Render(filter, views, data);
      if head.Some? {
        assert sheets == [head.value] + tail;
        forall k | 0 < k < |idx|
          ensures idx[k] < |views| && SheetFor(filter, views[idx[k]], data) == Some(sheets[k])
        {
          assert idx[k] == rest[k - 1] + 1 && sheets[k] == tail[k - 1];
          assert views[idx[k]] == views[1..][rest[k - 1]];
        }
      } else {
        assert sheets == tail;
        forall k | 0 <= k < |idx|
          ensures idx[k] < |views| && SheetFor(filter, views[idx[k]], data) == Some(sheets[k])
        {
          assert idx[k] == rest[k] + 1 && sheets[k] == tail[k];
          assert views[idx[k]] == views[1..][rest[k]];
        }
      }
    }
  }

  /** A view gets a sheet exactly when its source sheet was loaded and the filter returned a table. */
  lemma SheetForMeans(filter: Filter, v: ViewSpec, data: map<string, Source>)
    ensures SheetFor(filter, v, data).Some? <==> DataKey(v.key) in data && filter(data[DataKey(v.key)], v.count).Some?
    ensures SheetFor(filter, v, data).Some? ==>
      SheetFor(filter, v, data).value == ViewSheet(v, filter(data[DataKey(v.key)], v.count).value)
  {
  }

  /**
   * `H3_Tabla_2años` reads the `TN_Grupos` data: it gets a sheet exactly when
   * that sheet was loaded and filtering it to `periodos_tabla` periods gives
   * a table, and its body is that table.
   */
  lemma GroupsTableReadsGroups(filter: Filter, data: map<string, Source>, chart: nat, table: nat)
    ensures var v := Views(chart, table)[1];
      && (SheetFor(filter, v, data).Some? <==> GroupsKey in data && filter(data[GroupsKey], table).Some?)
      && (SheetFor(filter, v, data).Some? ==> SheetFor(filter, v, data).value.body == filter(data[GroupsKey], table).value.table)
  {
    SheetForMeans(filter, Views(chart, table)[1], data);
  }

  /**
   * When the chart and the table ask for the same number of periods, the
   * groups chart and the two-year table are written together or not at all,
   * with the same header and body.
   */
  lemma GroupsViewsAgree(filter: Filter, data: map<string, Source>, n: nat)
    ensures var vs := Views(n, n);
      var a := SheetFor(filter, vs[0], data);
      var b := SheetFor(filter, vs[1], data);
      && (a.Some? <==> b.Some?)
      && (a.Some? ==> a.value.header == b.value.header && a.value.body == b.value.body)
  {
    var vs := Views(n, n);
    SheetForMeans(filter, vs[0], data);
    SheetForMeans(filter, vs[1], data);
  }

  /** Every view name fits in a sheet title, so each sheet is titled with its view's full name. */
  lemma TitlesAreNames(filter: Filter, data: map<string, Source>, chart: nat, table: nat)
    ensures forall v | v in Views(chart, table) :: SheetFor(filter, v, data).Some? ==> SheetFor(filter, v, data).value.title == v.name
  {
  }

  /** A filter whose every table has one column for "Concepto" and one per label. */
  ghost predicate LabelsSpanTable(filter: Filter) {
    forall src: Source, n: nat :: filter(src, n).Some? ==> filter(src, n).value.table.width == |filter(src, n).value.labels| + 1
  }

  /**
   * The filtered table of either script has one column for "Concepto" and
   * one per label, and the source sheet's rows.
   */
  lemma FilterViewWidth(script: Script, src: Source, n: nat)
    ensures var r := FilterView(script, src, n);
      r.Some? ==> r.value.table.width == |r.value.labels| + 1 && |r.value.table.rows| == |src.frame.rows|
  {
    match script
    case PatternScript =>
      PatternFilter.FilterSheetEmpty(src.frame, src.row, n);
      if PatternFilter.Detect(src.frame.rows[src.row]).pattern.Some? {
        PatternFilter.FilterSheetShape(src.frame, src.row, n);
      }
    case DicNovScript =>
      DicNovFilter.FilterSheetEmpty(src.frame, src.row, n);
      if TokenColumns(src.frame.rows[src.row], DicNovFilter.Dic, DicNovFilter.Nov, 0, src.frame.width) != map[] {
        DicNovFilter.FilterSheetShape(src.frame, src.row, n);
      }
  }

  /** Both scripts' filters label every output column but the first. */
  lemma ScriptLabelsSpanTable(script: Script)
    ensures LabelsSpanTable(FilterOf(script))
  {
    forall src: Source, n: nat
      ensures FilterOf(script)(src, n).Some? ==> FilterOf(script)(src, n).value.table.width == |FilterOf(script)(src, n).value.labels| + 1
    {
      FilterViewWidth(script, src, n);
    }
  }

  /**
   * With such a filter, every written sheet's row-2 header (`len(periodos) + 1`
   * cells) spans its body exactly.
   */
  lemma {:induction false} RenderedHeadersFit(filter: Filter, views: seq<ViewSpec>, data: map<string, Source>)
    requires LabelsSpanTable(filter)
    ensures forall s | s in Render(filter, views, data) :: |s.header| == s.body.width
  {
    if views != [] {
      RenderedHeadersFit(filter, views[1..], data);
    }
  }
}
