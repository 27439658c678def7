/**
 * The header-less sheet both scripts work on, addressed by position as
 * `df.iloc[row, col]` addresses it, and the pieces the two `filtrar_hoja`
 * functions share: the column scan that collects labels holding two tokens,
 * `sorted(keys)[-n:]`, and the `iloc` projection onto column 0 plus the chosen
 * columns.
 */
module Grid {
  import opened Text

  /** One cell as pandas reads it: missing (`pd.notna` is false) or a value, given by its `str()` text. */
  datatype Cell = Missing | Val(text: string)

  /** `pd.notna(val) and str(val).strip()`. */
  predicate NonBlank(c: Cell) {
    c.Val? && Strip(c.text) != []
  }

  /** A frame read with `header=None`: `width` is `df.shape[1]`, `rows` the cells row by row. */
  datatype Frame = Frame(width: nat, rows: seq<seq<Cell>>)

  /** Every row has `width` cells, as in any pandas frame. */
  predicate Rectangular(f: Frame) {
    forall i | 0 <= i < |f.rows| :: |f.rows[i]| == f.width
  }

  /** The cells of one row at positions `cols`, in that order. */
  function Pick(cells: seq<Cell>, cols: seq<nat>): (r: seq<Cell>)
    requires forall j | 0 <= j < |cols| :: cols[j] < |cells|
    ensures |r| == |cols|
    ensures forall j | 0 <= j < |cols| :: r[j] == cells[cols[j]]
  {
    if cols == [] then [] else [cells[cols[0]]] + Pick(cells, cols[1..])
  }

  /** Every row cut down to the cells at positions `cols`. */
  function PickRows(rows: seq<seq<Cell>>, width: nat, cols: seq<nat>): (r: seq<seq<Cell>>)
    requires forall i | 0 <= i < |rows| :: |rows[i]| == width
    requires forall j | 0 <= j < |cols| :: cols[j] < width
    ensures |r| == |rows|
    ensures forall i | 0 <= i < |rows| :: r[i] == Pick(rows[i], cols)
  {
    if rows == [] then [] else [Pick(rows[0], cols)] + PickRows(rows[1..], width, cols)
  }

  /**
   * `f.iloc[:, cols]` with the columns renumbered `0..|cols|-1`: every row is
   * kept, in order, cut down to its cells at `cols`.
   */
  function Project(f: Frame, cols: seq<nat>): (r: Frame)
    requires Rectangular(f)
    requires forall j | 0 <= j < |cols| :: cols[j] < f.width
    ensures Rectangular(r) && r.width == |cols| && |r.rows| == |f.rows|
    ensures forall i | 0 <= i < |f.rows| :: r.rows[i] == Pick(f.rows[i], cols)
  {
    Frame(|cols|, PickRows(f.rows, f.width, cols))
  }

  /** The cell is present and its stripped text contains both tokens (`start in texto and end in texto`). */
  predicate HasTokens(c: Cell, start: string, end: string) {
    c.Val? && Contains(Strip(c.text), start) && Contains(Strip(c.text), end)
  }

  /** The dictionary the detector loops fill from columns lo <= c < hi. */
  function TokenColumns(cells: seq<Cell>, start: string, end: string, lo: nat, hi: nat): map<nat, string>
    requires hi <= |cells|
    decreases hi
  {
    if hi <= lo then map[]
    else
      var m := TokenColumns(cells, start, end, lo, hi - 1);
      if HasTokens(cells[hi - 1], start, end) then m[hi - 1 := Strip(cells[hi - 1].text)] else m
  }

  /**
   * The dictionary holds every column in [lo, hi) whose cell holds both
   * tokens, mapped to its stripped text, and no other column.
   */
  lemma {:induction false} TokenColumnsMeans(cells: seq<Cell>, start: string, end: string, lo: nat, hi: nat)
    requires hi <= |cells|
    ensures var m := TokenColumns(cells, start, end, lo, hi);
      && (forall c: nat :: c in m <==> lo <= c < hi && HasTokens(cells[c], start, end))
      && (forall c | c in m :: c < |cells| && cells[c].Val? && m[c] == Strip(cells[c].text))
    decreases hi
  {
    if lo < hi {
      TokenColumnsMeans(cells, start, end, lo, hi - 1);
      var m := TokenColumns(cells, start, end, lo, hi - 1);
      if HasTokens(cells[hi - 1], start, end) {
        assert TokenColumns(cells, start, end, lo, hi) == m[hi - 1 := Strip(cells[hi - 1].text)];
      } else {
        assert TokenColumns(cells, start, end, lo, hi) == m;
      }
    }
  }

  /** Scanning from column 1 finds what scanning from column 0 finds, less column 0. */
  lemma {:induction false} TokenColumnsFromOne(cells: seq<Cell>, start: string, end: string, hi: nat)
    requires hi <= |cells|
    ensures TokenColumns(cells, start, end, 1, hi) == TokenColumns(cells, start, end, 0, hi) - {0}
    decreases hi
  {
    if hi > 1 {
      TokenColumnsFromOne(cells, start, end, hi - 1);
      var m0 := TokenColumns(cells, start, end, 0, hi - 1);
      if HasTokens(cells[hi - 1], start, end) {
        var v := Strip(cells[hi - 1].text);
        assert m0[hi - 1 := v] - {0} == (m0 - {0})[hi - 1 := v];
      }
    } else {
      assert TokenColumns(cells, start, end, 0, hi) - {0} == map[];
    }
  }

  predicate Increasing(xs: seq<nat>) {
    forall i, j | 0 <= i < j < |xs| :: xs[i] < xs[j]
  }

  /** The keys below `hi`, in ascending order: `sorted(keys)` when every key is below `hi`. */
  function Ascending(keys: set<nat>, hi: nat): (r: seq<nat>)
    ensures Increasing(r)
    ensures forall k :: k in r <==> k in keys && k < hi
    decreases hi
  {
    if hi == 0 then []
    else
      var init := Ascending(keys, hi - 1);
      assert forall j | 0 <= j < |init| :: init[j] in init;
      init + (if hi - 1 in keys then [hi - 1] else [])
  }

  /** The keys below `hi`. */
  ghost function Below(keys: set<nat>, hi: nat): set<nat> {
    set k | k in keys && k < hi
  }

  lemma BelowStep(keys: set<nat>, hi: nat)
    requires hi > 0
    ensures |Below(keys, hi)| == |Below(keys, hi - 1)| + (if hi - 1 in keys then 1 else 0)
  {
    if hi - 1 in keys {
      assert Below(keys, hi) == Below(keys, hi - 1) + {hi - 1};
    } else {
      assert Below(keys, hi) == Below(keys, hi - 1);
    }
  }

  /** Listing the keys below `hi` lists as many columns as there are such keys. */
  lemma {:induction false} AscendingCount(keys: set<nat>, hi: nat)
    ensures |Ascending(keys, hi)| == |Below(keys, hi)|
  {
    if hi > 0 {
      AscendingCount(keys, hi - 1);
      BelowStep(keys, hi);
    } else {
      assert Below(keys, hi) == {};
    }
  }

  /** Listing every key of a bounded set lists as many columns as there are keys. */
  lemma AscendingLength(keys: set<nat>, hi: nat)
    requires forall k | k in keys :: k < hi
    ensures |Ascending(keys, hi)| == |keys|
  {
    AscendingCount(keys, hi);
    assert Below(keys, hi) == keys;
  }

  /** Python's `xs[-n:]` for `n >= 0`: the last n items, all of them when there are fewer, and all of them when n is 0. */
  function TakeLast<T>(xs: seq<T>, n: nat): (r: seq<T>)
    ensures |r| == if n == 0 || |xs| <= n then |xs| else n
    ensures r == xs[|xs| - |r|..]
  {
    if n == 0 || |xs| <= n then xs else xs[|xs| - n..]
  }

  /** The last n items of an increasing sequence are increasing, and every item left out is smaller than each one kept. */
  lemma TakeLastOfIncreasing(xs: seq<nat>, n: nat)
    requires Increasing(xs)
    ensures var r := TakeLast(xs, n);
      && Increasing(r)
      && (forall j | 0 <= j < |r| :: r[j] in xs)
      && (forall x, j | x in xs && x !in r && 0 <= j < |r| :: x < r[j])
  {
    var r := TakeLast(xs, n);
    var k := |xs| - |r|;
    assert forall j | 0 <= j < |r| :: r[j] == xs[k + j];
    forall i | k <= i < |xs|
      ensures xs[i] in r
    {
      assert r[i - k] == xs[i];
    }
    forall x, j | x in xs && x !in r && 0 <= j < |r|
      ensures x < r[j]
    {
      var i :| 0 <= i < |xs| && xs[i] == x;
      assert xs[k + j] == r[j];
    }
  }

  /**
   * `sorted(columnas.keys())[-n:]`: columns of the dictionary in ascending
   * order, as many as asked for (all of them when there are fewer, or n is 0).
   */
  function SelectColumns(columns: map<nat, string>, width: nat, n: nat): (sel: seq<nat>)
    requires forall c | c in columns :: c < width
    ensures Increasing(sel)
    ensures forall j | 0 <= j < |sel| :: sel[j] in columns && sel[j] < width
    ensures |sel| == if n == 0 || |columns| <= n then |columns| else n
  {
    var sorted := Ascending(columns.Keys, width);
    AscendingLength(columns.Keys, width);
    TakeLastOfIncreasing(sorted, n);
    TakeLast(sorted, n)
  }

  /** The selected columns are the right-most matches: every match left out lies left of every match kept. */
  lemma SelectColumnsKeepsLast(columns: map<nat, string>, width: nat, n: nat)
    requires forall c | c in columns :: c < width
    ensures var sel := SelectColumns(columns, width, n);
      forall c, j | c in columns && c !in sel && 0 <= j < |sel| :: c < sel[j]
  {
    var sorted := Ascending(columns.Keys, width);
    TakeLastOfIncreasing(sorted, n);
  }

  /** No match is left out when no more than n matched, or n is 0. */
  lemma SelectColumnsKeepsAll(columns: map<nat, string>, width: nat, n: nat)
    requires forall c | c in columns :: c < width
    requires n == 0 || |columns| <= n
    ensures forall c | c in columns :: c in SelectColumns(columns, width, n)
  {
    var sorted := Ascending(columns.Keys, width);
    AscendingLength(columns.Keys, width);
    assert SelectColumns(columns, width, n) == sorted;
  }

  /** When column 0 matched and every match is kept, the first selected column is column 0. */
  lemma SelectColumnsStartsAtZero(columns: map<nat, string>, width: nat, n: nat)
    requires forall c | c in columns :: c < width
    requires 0 in columns && (n == 0 || |columns| <= n)
    ensures var sel := SelectColumns(columns, width, n);
      0 < |sel| && sel[0] == 0
  {
    var sel := SelectColumns(columns, width, n);
    SelectColumnsKeepsAll(columns, width, n);
    assert 0 in sel;
    var k :| 0 <= k < |sel| && sel[k] == 0;
    assert sel[0] <= sel[k] by {
      if k > 0 {
        assert Increasing(sel);
      }
    }
  }

  /** What both `filtrar_hoja`s return once a column has matched: the reduced frame and the kept labels. */
  datatype Kept = Kept(table: Frame, labels: seq<string>)

  /** `[columnas[c] for c in cols]`. */
  function Labels(columns: map<nat, string>, cols: seq<nat>): (r: seq<string>)
    requires forall j | 0 <= j < |cols| :: cols[j] in columns
    ensures |r| == |cols|
    ensures forall j | 0 <= j < |cols| :: r[j] == columns[cols[j]]
  {
    if cols == [] then [] else Labels(columns, cols[..|cols| - 1]) + [columns[cols[|cols| - 1]]]
  }

  /** `out` is the source row `src` cut down to its column 0 followed by its cells at `sel`. */
  predicate ProjectsRow(out: seq<Cell>, src: seq<Cell>, sel: seq<nat>) {
    && 0 < |src| && (forall j | 0 <= j < |sel| :: sel[j] < |src|)
    && out == [src[0]] + Pick(src, sel)
  }

  /** Column 0 and the selected columns are all columns of the frame. */
  lemma PrependZeroBelow(sel: seq<nat>, width: nat)
    requires 0 < width && forall j | 0 <= j < |sel| :: sel[j] < width
    ensures forall j | 0 <= j < |[0] + sel| :: ([0] + sel)[j] < width
  {
    forall j | 0 < j < |[0] + sel|
      ensures ([0] + sel)[j] < width
    {
      assert ([0] + sel)[j] == sel[j - 1];
    }
  }

  /**
   * `cols_a_mantener = [0] + cols_ordenadas`, `df.iloc[:, cols_a_mantener]` and
   * `[columnas[c] for c in cols_ordenadas]`.
   */
  function KeepLast(f: Frame, columns: map<nat, string>, n: nat): Kept
    requires Rectangular(f) && 0 < f.width
    requires forall c | c in columns :: c < f.width
  {
    var sel := SelectColumns(columns, f.width, n);
    PrependZeroBelow(sel, f.width);
    Kept(Project(f, [0] + sel), Labels(columns, sel))
  }

  /** Each kept label is the dictionary's entry for the selected column beside it. */
  lemma KeepLastLabels(f: Frame, columns: map<nat, string>, n: nat)
    requires Rectangular(f) && 0 < f.width
    requires forall c | c in columns :: c < f.width
    ensures var sel := SelectColumns(columns, f.width, n);
      var r := KeepLast(f, columns, n);
      |r.labels| == |sel| && forall j | 0 <= j < |sel| :: r.labels[j] == columns[sel[j]]
  {
  }

  /**
   * The reduced frame keeps every row, in order, each cut down to its column 0
   * followed by its cells at the selected columns, so it is one column wider
   * than the selection.
   */
  lemma KeepLastTable(f: Frame, columns: map<nat, string>, n: nat)
    requires Rectangular(f) && 0 < f.width
    requires forall c | c in columns :: c < f.width
    ensures var sel := SelectColumns(columns, f.width, n);
      var r := KeepLast(f, columns, n);
      && Rectangular(r.table) && r.table.width == |sel| + 1 && |r.table.rows| == |f.rows|
      && forall i | 0 <= i < |f.rows| :: ProjectsRow(r.table.rows[i], f.rows[i], sel)
  {
    var sel := SelectColumns(columns, f.width, n);
    PrependZeroBelow(sel, f.width);
    var t := Project(f, [0] + sel);
    assert KeepLast(f, columns, n).table == t;
    assert ([0] + sel)[1..] == sel;
    forall i | 0 <= i < |f.rows|
      ensures ProjectsRow(t.rows[i], f.rows[i], sel)
    {
      assert t.rows[i] == Pick(f.rows[i], [0] + sel);
    }
  }

  /**
   * When column 0 matched and every match is kept, `[0] + cols_ordenadas` names
   * column 0 twice: the first two output columns are both the concept column.
   */
  lemma KeepLastRepeatsZero(f: Frame, columns: map<nat, string>, n: nat)
    requires Rectangular(f) && 0 < f.width
    requires forall c | c in columns :: c < f.width
    requires 0 in columns && (n == 0 || |columns| <= n)
    ensures var r := KeepLast(f, columns, n);
      && r.table.width >= 2 && Rectangular(r.table) && |r.table.rows| == |f.rows|
      && |r.labels| > 0 && r.labels[0] == columns[0]
      && forall i | 0 <= i < |f.rows| :: r.table.rows[i][1] == r.table.rows[i][0] == f.rows[i][0]
  {
    var sel := SelectColumns(columns, f.width, n);
    var r := KeepLast(f, columns, n);
    assert 0 < |sel| && sel[0] == 0 by {
      SelectColumnsStartsAtZero(columns, f.width, n);
    }
    assert |r.labels| == |sel| && r.labels[0] == columns[sel[0]] by {
      KeepLastLabels(f, columns, n);
    }
    assert Rectangular(r.table) && r.table.width == |sel| + 1 && |r.table.rows| == |f.rows|
        && forall i | 0 <= i < |f.rows| :: ProjectsRow(r.table.rows[i], f.rows[i], sel) by {
      KeepLastTable(f, columns, n);
    }
    forall i | 0 <= i < |f.rows|
      ensures r.table.rows[i][1] == r.table.rows[i][0] == f.rows[i][0]
    {
      assert ProjectsRow(r.table.rows[i], f.rows[i], sel);
      assert Pick(f.rows[i], sel)[0] == f.rows[i][0];
    }
  }
}
