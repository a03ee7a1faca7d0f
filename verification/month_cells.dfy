/**
 `getHeatmapMonthCells`: one month segment and the activity list become a flat,
 weekday-aligned run of cells — blank padding before the first day, one real
 cell per day, blank padding after the last day up to a whole week.
 */
module MonthCells {
  import opened Calendar
  import opened Types
  import opened Format

  // ---------------------------------------------------------------------------
  // Activity lookup
  // ---------------------------------------------------------------------------

  /**
   The activity index, keyed by each activity's date text; activities are
   entered in list order, so a later one with the same date replaces an earlier one.
   */
  function IndexActivities(acts: seq<Activity>): (index: map<string, Activity>)
    ensures index.Keys == set i | 0 <= i < |acts| :: acts[i].date
    ensures forall key :: key in index ==> index[key].date == key && index[key] in acts
  {
    if acts == [] then map[]
    else IndexActivities(acts[..|acts| - 1])[acts[|acts| - 1].date := acts[|acts| - 1]]
  }

  /** Reference definition: the position of the last activity dated `key`, if there is one. */
  function LastMatch(acts: seq<Activity>, key: string): (r: Option<nat>)
    ensures r.None? <==> forall i :: 0 <= i < |acts| ==> acts[i].date != key
    ensures r.Some? ==> r.value < |acts| && acts[r.value].date == key
    ensures r.Some? ==> forall j :: r.value < j < |acts| ==> acts[j].date != key
  {
    if acts == [] then None
    else if acts[|acts| - 1].date == key then Some(|acts| - 1)
    else LastMatch(acts[..|acts| - 1], key)
  }

  /** The index holds a key exactly when some activity carries it, and then holds the last such activity. */
  lemma {:induction false} IndexIsLastWins(acts: seq<Activity>, key: string)
    ensures key in IndexActivities(acts) <==> LastMatch(acts, key).Some?
    ensures key in IndexActivities(acts) ==> IndexActivities(acts)[key] == acts[LastMatch(acts, key).value]
  {
    if acts != [] {
      IndexIsLastWins(acts[..|acts| - 1], key);
    }
  }

  // ---------------------------------------------------------------------------
  // Cells
  // ---------------------------------------------------------------------------

  /**
   The real cell for day d: its text reads back to d, and it carries the count
   and level of the activity indexed under d's key, or 0 and 0 when there is none.
   */
  function DayCell(index: map<string, Activity>, d: Date): (c: Cell)
    requires ValidDate(d)
    ensures c.Day? && ParseDisplay(c.entry.date) == Some(d)
    ensures FormatKey(d) in index ==>
      c.entry.count == index[FormatKey(d)].count && c.entry.level == index[FormatKey(d)].level
    ensures FormatKey(d) !in index ==> c.entry.count == 0 && c.entry.level == 0
  {
    var key := FormatKey(d);
    var displayDate := FormatDisplay(d);
    if key in index then Day(Activity(displayDate, index[key].count, index[key].level))
    else Day(Activity(displayDate, 0, 0))
  }

  /** The day loop: the days `current` visits while `current <= endDate`, and where it stops. */
  function DayLoop(current: Date, endDate: Date): (r: (seq<Date>, Date))
    requires ValidDate(current) && ValidDate(endDate)
    ensures ValidDate(r.1) && forall i :: 0 <= i < |r.0| ==> ValidDate(r.0[i])
    ensures After(current, endDate) ==> r.0 == [] && r.1 == current
    ensures NotAfter(current, endDate) ==>
      && |r.0| == DayNumber(endDate) - DayNumber(current) + 1
      && DayNumber(r.1) == DayNumber(endDate) + 1
      && forall i :: 0 <= i < |r.0| ==> DayNumber(r.0[i]) == DayNumber(current) + i
    decreases DayNumber(endDate) - DayNumber(current)
  {
    if After(current, endDate) then ([], current)
    else
      NextDayNumber(current);
      var (rest, exit) := DayLoop(NextDay(current), endDate);
      ([current] + rest, exit)
  }

  /** One real cell per visited day, in visiting order. */
  function DayCells(index: map<string, Activity>, days: seq<Date>): (cells: seq<Cell>)
    requires forall i :: 0 <= i < |days| ==> ValidDate(days[i])
  {
    seq(|days|, i requires 0 <= i < |days| => DayCell(index, days[i]))
  }

  /**
   The blanks after the last day: enough to carry the day where the loop stopped
   to the next Sunday, and none when it stopped on a Sunday.
   */
  function TrailingPadding(exit: Date): (p: nat)
    requires ValidDate(exit)
    ensures p < 7 && (DayOfWeek(exit) + p) % 7 == 0
    ensures p == 0 <==> DayOfWeek(exit) == 0
  {
    if DayOfWeek(exit) != 0 then 7 - DayOfWeek(exit) else 0
  }

  /** Day k of a run starting at `start`, within the start's month. */
  function DayAt(start: Date, k: int): Date {
    Date(start.year, start.month, start.day + k)
  }

  /**
   `getHeatmapMonthCells(activities, startDate, endDate)`. The same-month check
   runs first, so a reversed range across months reports the same-month error.
   */
  function GetHeatmapMonthCells(acts: seq<Activity>, startDate: Date, endDate: Date): (r: Result<seq<Cell>>)
    requires ValidDate(startDate) && ValidDate(endDate)
    ensures r.Err? && r.error == CrossMonthRange <==> !SameMonth(startDate, endDate)
    ensures r.Err? && r.error == InvalidRange <==> SameMonth(startDate, endDate) && After(startDate, endDate)
    ensures r.Ok? ==> |r.value| % 7 == 0
  {
    if startDate.year != endDate.year || startDate.month != endDate.month then Err(CrossMonthRange)
    else if After(startDate, endDate) then Err(InvalidRange)
    else
      var index := IndexActivities(acts);
      var (days, exit) := DayLoop(startDate, endDate);
      var cells := Invisibles(DayOfWeek(startDate)) + DayCells(index, days) + Invisibles(TrailingPadding(exit));
      PaddingCompletesWeek(startDate, |days|, exit);
      Ok(cells)
  }

  // ---------------------------------------------------------------------------
  // Layout
  // ---------------------------------------------------------------------------

  lemma {:induction false} DayLoopShape(current: Date, endDate: Date)
    requires ValidDate(current) && ValidDate(endDate) && SameMonth(current, endDate)
    requires current.day <= endDate.day
    ensures var (days, exit) := DayLoop(current, endDate);
      && |days| == endDate.day - current.day + 1
      && exit == NextDay(endDate)
      && forall k :: 0 <= k < |days| ==> days[k] == DayAt(current, k)
    decreases endDate.day - current.day
  {
    DayNumberInMonth(current, endDate);
    NextDayNumber(current);
    var next := NextDay(current);
    var (days, exit) := DayLoop(current, endDate);
    var (rest, exit') := DayLoop(next, endDate);
    assert days == [current] + rest && exit == exit';
    if current.day == endDate.day {
      assert current == endDate;
      assert rest == [] && exit' == next;
    } else {
      assert next == DayAt(current, 1);
      DayLoopShape(next, endDate);
      forall k | 0 < k < |days|
        ensures days[k] == DayAt(current, k)
      {
        assert days[k] == rest[k - 1];
      }
    }
  }

  /**
   Week arithmetic behind the padding: for a run of n consecutive day numbers
   starting at a, the padding after the day following the run is 6 minus the
   last day's weekday, and blanks plus days plus padding are whole weeks.
   */
  lemma WeekArithmetic(a: int, n: int)
    requires n >= 1
    ensures var last, after := (a + n - 1) % 7, (a + n) % 7;
      && (if after != 0 then 7 - after else 0) == 6 - last
      && (a % 7 + n + 6 - last) % 7 == 0
  {
    var last := (a + n - 1) % 7;
    ModStep(a + n - 1, 7);
    if last < 6 {
      DivModUnique(last + 1, 7, 0, last + 1);
    } else {
      DivModUnique(last + 1, 7, 1, 0);
    }
    ModAdd(a, n - 1, 7);
    var x := a % 7 + n - 1;
    assert last == x % 7;
    assert a % 7 + n + 6 - last == (x / 7 + 1) * 7;
    DivModUnique(a % 7 + n + 6 - last, 7, x / 7 + 1, 0);
  }

  /** After the last day of the run the loop stops on the next day; the padding it adds is 6 minus the last day's weekday. */
  lemma TrailingAfter(endDate: Date)
    requires ValidDate(endDate)
    ensures TrailingPadding(NextDay(endDate)) == 6 - DayOfWeek(endDate)
  {
    NextDayNumber(endDate);
    WeekArithmetic(DayNumber(endDate), 1);
  }

  /** A run of n days from `start` that stops on `exit`, n days later, is padded to whole weeks. */
  lemma PaddingCompletesWeek(start: Date, n: int, exit: Date)
    requires ValidDate(start) && ValidDate(exit) && n >= 1
    requires DayNumber(exit) == DayNumber(start) + n
    ensures (DayOfWeek(start) + n + TrailingPadding(exit)) % 7 == 0
  {
    WeekArithmetic(DayNumber(start), n);
  }

  /** Leading blanks, the days of the range and the trailing blanks make whole weeks. */
  lemma WholeWeeks(startDate: Date, endDate: Date)
    requires ValidDate(startDate) && ValidDate(endDate) && SameMonth(startDate, endDate) && NotAfter(startDate, endDate)
    ensures (DayOfWeek(startDate) + (endDate.day - startDate.day + 1) + 6 - DayOfWeek(endDate)) % 7 == 0
  {
    DayNumberInMonth(startDate, endDate);
    WeekArithmetic(DayNumber(startDate), endDate.day - startDate.day + 1);
  }

  /** The number of cells: leading blanks, one per day, trailing blanks. */
  lemma MonthCellsLength(acts: seq<Activity>, startDate: Date, endDate: Date)
    requires ValidDate(startDate) && ValidDate(endDate) && SameMonth(startDate, endDate) && NotAfter(startDate, endDate)
    ensures |GetHeatmapMonthCells(acts, startDate, endDate).value|
              == DayOfWeek(startDate) + (endDate.day - startDate.day + 1) + (6 - DayOfWeek(endDate))
  {
    TrailingAfter(endDate);
    CellsPieces(acts, startDate, endDate);
  }

  /**
   The cells are `DayOfWeek(start)` blanks, then one real cell per day of the
   range, then `6 - DayOfWeek(end)` blanks: blanks occur only before the first
   day and after the last.
   */
  lemma MonthCellsLayout(acts: seq<Activity>, startDate: Date, endDate: Date)
    requires ValidDate(startDate) && ValidDate(endDate) && SameMonth(startDate, endDate) && NotAfter(startDate, endDate)
    ensures var cells := GetHeatmapMonthCells(acts, startDate, endDate).value;
      var lead := DayOfWeek(startDate);
      var n := endDate.day - startDate.day + 1;
      && |cells| == lead + n + (6 - DayOfWeek(endDate))
      && (forall i :: 0 <= i < |cells| ==> (cells[i] == Invisible <==> i < lead || lead + n <= i))
  {
    TrailingAfter(endDate);
    CellsPieces(acts, startDate, endDate);
    var r := DayLoop(startDate, endDate);
    var dayCells := DayCells(IndexActivities(acts), r.0);
    var lead := DayOfWeek(startDate);
    var trail := TrailingPadding(r.1);
    var cells := GetHeatmapMonthCells(acts, startDate, endDate).value;
    assert cells == Invisibles(lead) + dayCells + Invisibles(trail);
    forall i | 0 <= i < |cells|
      ensures cells[i] == Invisible <==> i < lead || lead + |dayCells| <= i
    {
      PiecesAt(lead, dayCells, trail, i);
      if lead <= i < lead + |dayCells| {
        assert dayCells[i - lead].Day?;
      }
    }
  }

  /** Position i of blanks, a run and blanks: a run entry in the middle, a blank on either side. */
  lemma PiecesAt(lead: nat, mid: seq<Cell>, trail: nat, i: int)
    requires 0 <= i < lead + |mid| + trail
    ensures var whole := Invisibles(lead) + mid + Invisibles(trail);
      && |whole| == lead + |mid| + trail
      && whole[i] == (if lead <= i < lead + |mid| then mid[i - lead] else Invisible)
  {
    var whole := Invisibles(lead) + mid + Invisibles(trail);
    if i < lead {
      assert whole[i] == Invisibles(lead)[i];
    } else if i < lead + |mid| {
      assert whole[i] == mid[i - lead];
    } else {
      assert whole[i] == Invisibles(trail)[i - lead - |mid|];
    }
  }

  /** The cell run of a valid same-month range, piece by piece. */
  lemma CellsPieces(acts: seq<Activity>, startDate: Date, endDate: Date)
    requires ValidDate(startDate) && ValidDate(endDate) && SameMonth(startDate, endDate) && NotAfter(startDate, endDate)
    ensures var (days, exit) := DayLoop(startDate, endDate);
      && |days| == endDate.day - startDate.day + 1
      && exit == NextDay(endDate)
      && (forall k :: 0 <= k < |days| ==> days[k] == DayAt(startDate, k))
      && GetHeatmapMonthCells(acts, startDate, endDate).value ==
           Invisibles(DayOfWeek(startDate)) + DayCells(IndexActivities(acts), days) + Invisibles(TrailingPadding(exit))
  {
    DayLoopShape(startDate, endDate);
  }

  /**
   Reference definition of the real cell for day d: its display date and the
   count and level of the last activity keyed with the day's `YYYY-MM-DD` text,
   or 0 and 0 when no activity carries that key.
   */
  function ExpectedCell(acts: seq<Activity>, d: Date): Cell
    requires ValidDate(d)
  {
    var m := LastMatch(acts, FormatKey(d));
    if m.Some? then Day(Activity(FormatDisplay(d), acts[m.value].count, acts[m.value].level))
    else Day(Activity(FormatDisplay(d), 0, 0))
  }

  /** Looking a day up in the keyed index gives the reference cell. */
  lemma DayCellIsExpected(acts: seq<Activity>, d: Date)
    requires ValidDate(d)
    ensures DayCell(IndexActivities(acts), d) == ExpectedCell(acts, d)
  {
    IndexIsLastWins(acts, FormatKey(d));
  }

  /** The real cell for the k-th day of the range is the reference cell of that day. */
  lemma MonthCellsContent(acts: seq<Activity>, startDate: Date, endDate: Date, k: int)
    requires ValidDate(startDate) && ValidDate(endDate) && SameMonth(startDate, endDate) && NotAfter(startDate, endDate)
    requires 0 <= k <= endDate.day - startDate.day
    ensures ValidDate(DayAt(startDate, k))
    ensures var cells := GetHeatmapMonthCells(acts, startDate, endDate).value;
      && DayOfWeek(startDate) + k < |cells|
      && cells[DayOfWeek(startDate) + k] == ExpectedCell(acts, DayAt(startDate, k))
  {
    CellsPieces(acts, startDate, endDate);
    var r := DayLoop(startDate, endDate);
    var dayCells := DayCells(IndexActivities(acts), r.0);
    var lead := DayOfWeek(startDate);
    var d := DayAt(startDate, k);
    assert r.0[k] == d;
    PiecesAt(lead, dayCells, TrailingPadding(r.1), lead + k);
    assert dayCells[k] == DayCell(IndexActivities(acts), d);
    DayCellIsExpected(acts, d);
  }

  /**
   Weekday alignment: the cell of the k-th day sits at a position whose remainder
   mod 7 is that day's weekday, so in a 7-row column it lands in its weekday's row.
   */
  lemma MonthCellsWeekday(acts: seq<Activity>, startDate: Date, endDate: Date, k: int)
    requires ValidDate(startDate) && ValidDate(endDate) && SameMonth(startDate, endDate) && NotAfter(startDate, endDate)
    requires 0 <= k <= endDate.day - startDate.day
    ensures ValidDate(DayAt(startDate, k))
    ensures (DayOfWeek(startDate) + k) % 7 == DayOfWeek(DayAt(startDate, k))
  {
    DayNumberInMonth(startDate, DayAt(startDate, k));
    ModAdd(DayNumber(startDate), k, 7);
  }

  /** February 2024 with no activities: Thursday the 1st to Thursday the 29th. */
  lemma ExampleFebruary()
    ensures var cells := GetHeatmapMonthCells([], Date(2024, 2, 1), Date(2024, 2, 29)).value;
      && |cells| == 35
      && (forall i :: 0 <= i < 4 ==> cells[i] == Invisible)
      && (forall i :: 4 <= i < 33 ==> cells[i] != Invisible)
      && (forall i :: 33 <= i < 35 ==> cells[i] == Invisible)
    ensures GetHeatmapMonthCells([], Date(2024, 1, 20), Date(2024, 2, 5)) == Err(CrossMonthRange)
  {
    var s, e := Date(2024, 2, 1), Date(2024, 2, 29);
    DaysBeforeYearIsFormula(2024);
    assert DayNumber(s) == 738917;
    DayNumberInMonth(s, e);
    assert DayOfWeek(s) == 4 && DayOfWeek(e) == 4;
    MonthCellsLayout([], s, e);
  }
}
