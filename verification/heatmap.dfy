/**
 How `ActivityHeatmap` drives the engine: split the range into month segments,
 build each segment's cells, and hand each month `ceil(len / 7)` columns.
 These lemmas state that the pieces fit together.
 */
module Heatmap {
  import opened Calendar
  import opened Types
  import opened Format
  import opened MonthRanges
  import opened MonthCells
  import opened MonthView
  import opened Colors

  /** The cells of one segment of a valid split build, in whole columns. */
  lemma SegmentBuilds(acts: seq<Activity>, s: Segment, endDate: Date)
    requires ValidDate(endDate) && WellFormedSegment(s, endDate)
    ensures GetHeatmapMonthCells(acts, s.start, s.end).Ok?
    ensures var len := |GetHeatmapMonthCells(acts, s.start, s.end).value|;
      7 * ColumnCount(len) == len
  {
    DayNumberInMonth(s.start, s.end);
    ColumnCountExact(|GetHeatmapMonthCells(acts, s.start, s.end).value|);
  }

  /**
   Building the cells of any segment of a valid split never fails, and the cell
   run fills a whole number of columns.
   */
  lemma EverySegmentBuilds(acts: seq<Activity>, startDate: Date, endDate: Date)
    requires ValidDate(startDate) && ValidDate(endDate) && NotAfter(startDate, endDate)
    ensures var segs := GetMonthRanges(startDate, endDate).value;
      forall i :: 0 <= i < |segs| ==>
        && ValidDate(segs[i].start) && ValidDate(segs[i].end)
        && GetHeatmapMonthCells(acts, segs[i].start, segs[i].end).Ok?
        && 7 * ColumnCount(|GetHeatmapMonthCells(acts, segs[i].start, segs[i].end).value|)
             == |GetHeatmapMonthCells(acts, segs[i].start, segs[i].end).value|
  {
    var segs := GetMonthRanges(startDate, endDate).value;
    MonthRangesSegments(startDate, endDate);
    forall i | 0 <= i < |segs|
      ensures ValidDate(segs[i].start) && ValidDate(segs[i].end)
      ensures GetHeatmapMonthCells(acts, segs[i].start, segs[i].end).Ok?
      ensures 7 * ColumnCount(|GetHeatmapMonthCells(acts, segs[i].start, segs[i].end).value|)
                == |GetHeatmapMonthCells(acts, segs[i].start, segs[i].end).value|
    {
      assert WellFormedSegment(segs[i], endDate);
      SegmentBuilds(acts, segs[i], endDate);
    }
  }

  /** A segment's month label, when shown, is the short name of its month. */
  lemma SegmentLabel(startDate: Date, endDate: Date, i: int, columnSizeInCells: int)
    requires ValidDate(startDate) && ValidDate(endDate) && NotAfter(startDate, endDate)
    requires 0 <= i < |GetMonthRanges(startDate, endDate).value| && columnSizeInCells >= 3
    ensures var seg := GetMonthRanges(startDate, endDate).value[i];
      1 <= seg.start.month <= 12 && MonthLabel(seg.name, columnSizeInCells) == Some(ShortMonthName(seg.start.month))
  {
    MonthRangesSegments(startDate, endDate);
    var seg := GetMonthRanges(startDate, endDate).value[i];
    assert WellFormedSegment(seg, endDate);
  }

  /**
   Column arithmetic of a run of n days whose first day number is a: the padded
   length is whole weeks, 15 days always need at least three columns, and 8 days
   never more than two.
   */
  lemma RunColumns(a: int, n: int)
    requires n >= 1
    ensures var len := a % 7 + n + 6 - (a + n - 1) % 7;
      && len >= 0 && len % 7 == 0
      && (n >= 15 ==> ColumnCount(len) >= 3)
      && (n <= 8 ==> ColumnCount(len) <= 2)
  {
    ModAdd(a, n - 1, 7);
    var x := a % 7 + n - 1;
    var q := x / 7;
    DivModUnique(x, 7, q, x % 7);
    var len := a % 7 + n + 6 - (a + n - 1) % 7;
    assert len == 7 * (q + 1);
    DivModUnique(len, 7, q + 1, 0);
    DivModUnique(len + 6, 7, q + 1, 6);
  }

  /**
   The label needs at least three columns: a month slice of 15 or more days
   always gets it, one of 8 or fewer days never does.
   */
  lemma LabelVisibility(acts: seq<Activity>, startDate: Date, endDate: Date)
    requires ValidDate(startDate) && ValidDate(endDate) && SameMonth(startDate, endDate) && NotAfter(startDate, endDate)
    ensures var cells := GetHeatmapMonthCells(acts, startDate, endDate).value;
      var days := endDate.day - startDate.day + 1;
      && (days >= 15 ==> MonthLabel(MonthName(startDate.month), ColumnCount(|cells|)).Some?)
      && (days <= 8 ==> MonthLabel(MonthName(startDate.month), ColumnCount(|cells|)).None?)
  {
    var cells := GetHeatmapMonthCells(acts, startDate, endDate).value;
    var n := endDate.day - startDate.day + 1;
    var a := DayNumber(startDate);
    MonthCellsLength(acts, startDate, endDate);
    DayNumberInMonth(startDate, endDate);
    assert DayOfWeek(endDate) == (a + n - 1) % 7;
    RunColumns(a, n);
    assert |cells| == a % 7 + n + 6 - (a + n - 1) % 7;
  }

  /**
   When every activity has a level in 0..4 and a non-negative count, so does
   every real cell, and each real cell is painted from the colour table rather
   than the transparent fallback.
   */
  lemma RealCellsPainted(acts: seq<Activity>, startDate: Date, endDate: Date, colors: CellColors)
    requires ValidDate(startDate) && ValidDate(endDate) && SameMonth(startDate, endDate) && NotAfter(startDate, endDate)
    requires forall j :: 0 <= j < |acts| ==> 0 <= acts[j].level <= 4 && acts[j].count >= 0
    ensures var cells := GetHeatmapMonthCells(acts, startDate, endDate).value;
      forall i :: 0 <= i < |cells| && cells[i] != Invisible ==>
        && 0 <= cells[i].entry.level <= 4
        && cells[i].entry.count >= 0
        && GetColor(cells[i].entry.level, colors) == Palette(colors)[cells[i].entry.level]
  {
    var cells := GetHeatmapMonthCells(acts, startDate, endDate).value;
    var index := IndexActivities(acts);
    var lead := DayOfWeek(startDate);
    CellsPieces(acts, startDate, endDate);
    var r := DayLoop(startDate, endDate);
    var dayCells := DayCells(index, r.0);
    var trail := TrailingPadding(r.1);
    assert cells == Invisibles(lead) + dayCells + Invisibles(trail);
    forall i | 0 <= i < |cells| && cells[i] != Invisible
      ensures 0 <= cells[i].entry.level <= 4 && cells[i].entry.count >= 0
    {
      PiecesAt(lead, dayCells, trail, i);
      if lead <= i < lead + |dayCells| {
        IndexIsLastWins(acts, FormatKey(r.0[i - lead]));
      }
    }
  }
}
