/**
 The pure decisions of one rendered month (`ActivityHeatmapMonth`): reshaping
 the flat cell run into 7-row columns, what pressing a cell does to the tooltip,
 the default tooltip text, and whether the month label shows.
 */
module MonthView {
  import opened Calendar
  import opened Types
  import opened Text

  // ---------------------------------------------------------------------------
  // Column reshape
  // ---------------------------------------------------------------------------

  /** `cells[index] ?? 'invisible'`: positions past the end read as blank. */
  function CellAt(cells: seq<Cell>, index: int): Cell {
    if 0 <= index < |cells| then cells[index] else Invisible
  }

  /** Columns laid out column-major: entry (col, row) is flat position col * 7 + row. */
  predicate IsColumnLayout(columns: seq<seq<Cell>>, cells: seq<Cell>) {
    && (forall col :: 0 <= col < |columns| ==> |columns[col]| == 7)
    && (forall col, row :: 0 <= col < |columns| && 0 <= row < 7 ==>
          columns[col][row] == CellAt(cells, col * 7 + row))
  }

  /**
   The nested loop building `columns`: `columnSizeInCells` columns (none when it
   is not positive), each of exactly 7 entries read column-major from `cells`.
   */
  method BuildColumns(cells: seq<Cell>, columnSizeInCells: int) returns (columns: seq<seq<Cell>>)
    ensures |columns| == if columnSizeInCells > 0 then columnSizeInCells else 0
    ensures forall col :: 0 <= col < |columns| ==> |columns[col]| == 7
    ensures forall col, row :: 0 <= col < |columns| && 0 <= row < 7 ==>
              columns[col][row] == CellAt(cells, col * 7 + row)
  {
    columns := [];
    var col := 0;
    while col < columnSizeInCells
      invariant 0 <= col && |columns| == col
      invariant col <= (if columnSizeInCells > 0 then columnSizeInCells else 0)
      invariant forall c :: 0 <= c < col ==> |columns[c]| == 7
      invariant forall c, r :: 0 <= c < col && 0 <= r < 7 ==> columns[c][r] == CellAt(cells, c * 7 + r)
    {
      var column := [];
      var row := 0;
      while row < 7
        invariant 0 <= row <= 7 && |column| == row
        invariant forall r :: 0 <= r < row ==> column[r] == CellAt(cells, col * 7 + r)
      {
        column := column + [CellAt(cells, col * 7 + row)];
        row := row + 1;
      }
      columns := columns + [column];
      col := col + 1;
    }
  }

  /** `Math.ceil(len / 7)`: the fewest 7-entry columns that hold `len` cells. */
  function ColumnCount(len: nat): (n: nat)
    ensures 7 * n >= len
    ensures n == 0 || 7 * (n - 1) < len
  {
    (len + 6) / 7
  }

  /** Reading the columns back column-major. */
  function Flatten(columns: seq<seq<Cell>>): seq<Cell> {
    if columns == [] then []
    else Flatten(columns[..|columns| - 1]) + columns[|columns| - 1]
  }

  lemma {:induction false} FlattenIndex(columns: seq<seq<Cell>>)
    requires forall col :: 0 <= col < |columns| ==> |columns[col]| == 7
    ensures |Flatten(columns)| == 7 * |columns|
    ensures forall i :: 0 <= i < 7 * |columns| ==> Flatten(columns)[i] == columns[i / 7][i % 7]
  {
    if columns != [] {
      var front := columns[..|columns| - 1];
      var last := columns[|columns| - 1];
      FlattenIndex(front);
      var flat := Flatten(columns);
      assert flat == Flatten(front) + last;
      forall i | 0 <= i < 7 * |columns|
        ensures flat[i] == columns[i / 7][i % 7]
      {
        if i < 7 * |front| {
          assert flat[i] == Flatten(front)[i];
          assert i / 7 < |front|;
          assert front[i / 7] == columns[i / 7];
        } else {
          DivOfShift(i, |front|);
          assert flat[i] == last[i - 7 * |front|];
        }
      }
    }
  }

  lemma DivOfShift(i: int, c: int)
    requires 0 <= c && 7 * c <= i < 7 * c + 7
    ensures i / 7 == c && i % 7 == i - 7 * c
  {
    DivModUnique(i, 7, c, i - 7 * c);
  }

  /**
   Flattening `n` columns built from `cells` gives `cells` back, followed by
   blanks up to `7 * n` entries: no cell is lost, duplicated or reordered.
   */
  lemma ReshapeFlatten(cells: seq<Cell>, columns: seq<seq<Cell>>)
    requires IsColumnLayout(columns, cells) && 7 * |columns| >= |cells|
    ensures Flatten(columns) == cells + Invisibles(7 * |columns| - |cells|)
  {
    FlattenIndex(columns);
    var padded := cells + Invisibles(7 * |columns| - |cells|);
    forall i | 0 <= i < 7 * |columns|
      ensures Flatten(columns)[i] == padded[i]
    {
      LayoutAt(columns, cells, i);
      if i < |cells| {
        assert padded[i] == cells[i];
      } else {
        assert padded[i] == Invisible;
      }
    }
  }

  /** Flat position i of a column layout is column i / 7, row i % 7. */
  lemma LayoutAt(columns: seq<seq<Cell>>, cells: seq<Cell>, i: int)
    requires IsColumnLayout(columns, cells) && 0 <= i < 7 * |columns|
    ensures 0 <= i / 7 < |columns| && 0 <= i % 7 < 7
    ensures columns[i / 7][i % 7] == CellAt(cells, i)
  {
    var col, row := i / 7, i % 7;
    DivOfShift(i, col);
    assert col * 7 + row == i;
  }

  /** A run whose length is a multiple of 7 fills exactly `ceil(len / 7)` columns. */
  lemma ColumnCountExact(len: nat)
    requires len % 7 == 0
    ensures 7 * ColumnCount(len) == len
  {
    DivModUnique(len + 6, 7, len / 7, 6);
  }

  /**
   With `columnSizeInCells = ceil(len / 7)` and a length that is a multiple of 7,
   the columns flatten back to exactly the cell run.
   */
  lemma ReshapeLosesNothing(cells: seq<Cell>, columns: seq<seq<Cell>>)
    requires |cells| % 7 == 0
    requires |columns| == ColumnCount(|cells|) && IsColumnLayout(columns, cells)
    ensures Flatten(columns) == cells
  {
    ColumnCountExact(|cells|);
    ReshapeFlatten(cells, columns);
  }

  // ---------------------------------------------------------------------------
  // Tooltip
  // ---------------------------------------------------------------------------

  /** The tooltip's React state: whether it shows, and what it shows (null at first). */
  datatype TooltipState = TooltipState(visible: bool, content: Option<string>)

  /** Text up to the first space. */
  function LeadingWord(s: string): (w: string)
    ensures |w| <= |s| && w == s[..|w|]
    ensures forall i :: 0 <= i < |w| ==> w[i] != ' '
  {
    if s == [] || s[0] == ' ' then [] else [s[0]] + LeadingWord(s[1..])
  }

  lemma {:induction false} LeadingWordOfJoin(w: string, rest: string)
    requires forall i :: 0 <= i < |w| ==> w[i] != ' '
    ensures LeadingWord(w + " " + rest) == w
  {
    if w != [] {
      assert (w + " " + rest)[1..] == w[1..] + " " + rest;
      LeadingWordOfJoin(w[1..], rest);
    }
  }

  /**
   The default tooltip text: the cell's count, which reads back as that count,
   then " activity on " when the count is 1 and " activities on " otherwise,
   then the cell's date text.
   */
  function DefaultTooltip(a: Activity): (t: string)
    ensures var n := |IntToString(a.count)|;
      && IsIntText(LeadingWord(t)) && ParseInt(LeadingWord(t)) == a.count
      && |t| == n + (if a.count == 1 then 13 else 15) + |a.date|
      && (a.count == 1 ==> t[n..n + 13] == " activity on ")
      && (a.count != 1 ==> t[n..n + 15] == " activities on ")
      && t[|t| - |a.date|..] == a.date
  {
    var num := IntToString(a.count);
    var phrase := if a.count == 1 then " activity on " else " activities on ";
    var t := num + phrase + a.date;
    assert t == num + " " + (phrase[1..] + a.date);
    LeadingWordOfJoin(num, phrase[1..] + a.date);
    IntRoundTrip(a.count);
    assert t[|num|..|num| + |phrase|] == phrase;
    assert t[|t| - |a.date|..] == a.date;
    t
  }

  /**
   `handleCellPress`: a blank cell leaves the tooltip as it was; a real cell
   shows the tooltip with the caller's rendering of the cell, or the default
   text when there is no renderer.
   */
  function HandleCellPress(state: TooltipState, cell: Cell, renderTooltip: Option<Cell -> string>): (r: TooltipState)
    ensures cell == Invisible ==> r == state
    ensures cell != Invisible ==> r.visible && r.content.Some?
    ensures cell != Invisible && renderTooltip.None? ==> r.content == Some(DefaultTooltip(cell.entry))
    ensures cell != Invisible && renderTooltip.Some? ==> r.content == Some(renderTooltip.value(cell))
  {
    if cell == Invisible then state
    else
      var content := match renderTooltip
        case Some(render) => render(cell)
        case None => DefaultTooltip(cell.entry);
      TooltipState(true, Some(content))
  }

  // ---------------------------------------------------------------------------
  // Month label
  // ---------------------------------------------------------------------------

  /**
   The month caption: shown only when the month spans at least three columns,
   and then as the first three characters of the month name (all of it when shorter).
   */
  function MonthLabel(monthName: string, columnSizeInCells: int): (caption: Option<string>)
    ensures caption.Some? <==> columnSizeInCells >= 3
    ensures caption.Some? ==> |caption.value| == (if |monthName| < 3 then |monthName| else 3)
    ensures caption.Some? ==> caption.value == monthName[..|caption.value|]
  {
    if columnSizeInCells >= 3 then
      Some(if |monthName| < 3 then monthName else monthName[..3])
    else None
  }
}
