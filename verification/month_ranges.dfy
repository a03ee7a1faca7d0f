/**
 `getMonthRanges`: split the displayed date interval into one segment per
 calendar month, the first starting at the interval's start and the last ending
 at its end.
 */
module MonthRanges {
  import opened Calendar
  import opened Types
  import opened Format

  /** What every segment of a split ending at `endDate` looks like. */
  predicate WellFormedSegment(s: Segment, endDate: Date)
    requires ValidDate(endDate)
  {
    && ValidDate(s.start) && ValidDate(s.end)
    && SameMonth(s.start, s.end)
    && s.start.day <= s.end.day
    && s.name == MonthName(s.start.month)
    && s.end == (if SameMonth(s.start, endDate) then endDate
                 else LastDayOfMonth(s.start.year, s.start.month))
  }

  /** Segment i + 1 starts on the day after segment i ends. */
  predicate Adjacent(s: seq<Segment>, i: int)
    requires 0 <= i < |s| - 1
  {
    ValidDate(s[i].end) && s[i + 1].start == NextDay(s[i].end)
  }

  /**
   One month step of the cursor: the first of the next month passes `endDate`
   exactly when the cursor is already in `endDate`'s month.
   */
  lemma CursorStep(current: Date, endDate: Date)
    requires ValidDate(current) && ValidDate(endDate) && NotAfter(current, endDate)
    ensures MonthIndex(current) <= MonthIndex(endDate)
    ensures After(FirstOfNextMonth(current), endDate) <==> MonthIndex(current) == MonthIndex(endDate)
  {
    var next := FirstOfNextMonth(current);
    MonthIndexMonotone(current, endDate);
    if MonthIndex(current) == MonthIndex(endDate) {
      MonthOrder(endDate, next);
    } else if MonthIndex(next) == MonthIndex(endDate) {
      MonthIndexSame(next, endDate);
      DayNumberInMonth(next, endDate);
    } else {
      MonthOrder(next, endDate);
    }
  }

  /**
   The source's loop: `current` starts at `startDate` and moves to the first of
   the next month until it passes `endDate`. `first` stands for
   `result.length === 0`.
   */
  function Walk(startDate: Date, endDate: Date, current: Date, first: bool): (s: seq<Segment>)
    requires ValidDate(startDate) && ValidDate(endDate) && ValidDate(current)
    ensures |s| == if After(current, endDate) then 0 else MonthIndex(endDate) - MonthIndex(current) + 1
    decreases MonthIndex(endDate) - MonthIndex(current)
  {
    if After(current, endDate) then []
    else
      var year := current.year;
      var month := current.month;
      var rangeStart := if first then startDate else Date(year, month, 1);
      var isLastMonth := year == endDate.year && month == endDate.month;
      var rangeEnd := if isLastMonth then endDate else LastDayOfMonth(year, month);
      CursorStep(current, endDate);
      [Segment(MonthName(month), rangeStart, rangeEnd)] + Walk(startDate, endDate, FirstOfNextMonth(current), false)
  }

  /**
   `getMonthRanges(startDate, endDate)`: fails when the start is after the end,
   otherwise yields one segment per calendar month the interval touches, the
   first starting at `startDate` and the last ending at `endDate`.
   */
  function GetMonthRanges(startDate: Date, endDate: Date): (r: Result<seq<Segment>>)
    requires ValidDate(startDate) && ValidDate(endDate)
    ensures r.Err? <==> After(startDate, endDate)
    ensures r.Err? ==> r.error == InvalidRange
    ensures r.Ok? ==> |r.value| == MonthIndex(endDate) - MonthIndex(startDate) + 1
    ensures r.Ok? ==> |r.value| >= 1 && r.value[0].start == startDate && r.value[|r.value| - 1].end == endDate
  {
    if After(startDate, endDate) then Err(InvalidRange)
    else
      WalkBounds(startDate, endDate, startDate, true);
      Ok(Walk(startDate, endDate, startDate, true))
  }

  /** One turn of the loop: the segment it emits, and whether the loop goes on. */
  lemma WalkStep(startDate: Date, endDate: Date, current: Date, first: bool)
    requires ValidDate(startDate) && ValidDate(endDate) && ValidDate(current)
    requires NotAfter(current, endDate)
    requires first ==> current == startDate
    requires !first ==> current.day == 1
    ensures var next := FirstOfNextMonth(current);
      && Walk(startDate, endDate, current, first) ==
           [Segment(MonthName(current.month), current,
                    if SameMonth(current, endDate) then endDate else LastDayOfMonth(current.year, current.month))]
           + Walk(startDate, endDate, next, false)
      && (SameMonth(current, endDate) <==> After(next, endDate))
      && (!SameMonth(current, endDate) ==> NotAfter(current, LastDayOfMonth(current.year, current.month)))
      && MonthIndex(current) <= MonthIndex(endDate)
  {
    var last := LastDayOfMonth(current.year, current.month);
    var next := FirstOfNextMonth(current);
    MonthIndexMonotone(current, endDate);
    FirstOfNextMonthNumber(current);
    DayNumberInMonth(current, last);
    if SameMonth(current, endDate) {
      DayNumberInMonth(endDate, last);
    } else if MonthIndex(next) == MonthIndex(endDate) {
      MonthIndexSame(next, endDate);
      DayNumberInMonth(next, endDate);
    } else {
      if MonthIndex(current) == MonthIndex(endDate) {
        MonthIndexSame(current, endDate);
      }
      MonthOrder(next, endDate);
    }
  }

  lemma {:induction false} WalkBounds(startDate: Date, endDate: Date, current: Date, first: bool)
    requires ValidDate(startDate) && ValidDate(endDate) && ValidDate(current)
    requires NotAfter(current, endDate)
    requires first ==> current == startDate
    requires !first ==> current.day == 1
    ensures var s := Walk(startDate, endDate, current, first);
      && |s| >= 1
      && |s| == MonthIndex(endDate) - MonthIndex(current) + 1
      && s[0].start == current
      && s[|s| - 1].end == endDate
    decreases MonthIndex(endDate) - MonthIndex(current)
  {
    WalkStep(startDate, endDate, current, first);
    if !SameMonth(current, endDate) {
      WalkBounds(startDate, endDate, FirstOfNextMonth(current), false);
    }
  }

  lemma {:induction false} WalkSegments(startDate: Date, endDate: Date, current: Date, first: bool)
    requires ValidDate(startDate) && ValidDate(endDate) && ValidDate(current)
    requires NotAfter(current, endDate)
    requires first ==> current == startDate
    requires !first ==> current.day == 1
    ensures var s := Walk(startDate, endDate, current, first);
      && (forall i :: 0 <= i < |s| ==> WellFormedSegment(s[i], endDate))
      && (forall i :: 0 <= i < |s| ==> MonthIndex(s[i].start) == MonthIndex(current) + i)
      && (forall i :: 0 < i < |s| ==> s[i].start.day == 1)
    decreases MonthIndex(endDate) - MonthIndex(current)
  {
    var s := Walk(startDate, endDate, current, first);
    var next := FirstOfNextMonth(current);
    WalkStep(startDate, endDate, current, first);
    var rest := Walk(startDate, endDate, next, false);
    assert WellFormedSegment(s[0], endDate);
    if !SameMonth(current, endDate) {
      WalkSegments(startDate, endDate, next, false);
      forall i | 0 < i < |s|
        ensures WellFormedSegment(s[i], endDate)
        ensures MonthIndex(s[i].start) == MonthIndex(current) + i
        ensures s[i].start.day == 1
      {
        assert s[i] == rest[i - 1];
      }
    }
  }

  lemma {:induction false} WalkAdjacent(startDate: Date, endDate: Date, current: Date, first: bool)
    requires ValidDate(startDate) && ValidDate(endDate) && ValidDate(current)
    requires NotAfter(current, endDate)
    requires first ==> current == startDate
    requires !first ==> current.day == 1
    ensures var s := Walk(startDate, endDate, current, first);
      forall i :: 0 <= i < |s| - 1 ==> Adjacent(s, i)
    decreases MonthIndex(endDate) - MonthIndex(current)
  {
    var s := Walk(startDate, endDate, current, first);
    var next := FirstOfNextMonth(current);
    WalkStep(startDate, endDate, current, first);
    var rest := Walk(startDate, endDate, next, false);
    if !SameMonth(current, endDate) {
      WalkBounds(startDate, endDate, next, false);
      WalkAdjacent(startDate, endDate, next, false);
      assert Adjacent(s, 0);
      forall i | 0 < i < |s| - 1
        ensures Adjacent(s, i)
      {
        assert s[i] == rest[i - 1] && s[i + 1] == rest[i];
        assert Adjacent(rest, i - 1);
      }
    }
  }

  /**
   Every segment lies within one calendar month; later segments start on day 1;
   the segment of `endDate`'s month ends at `endDate` and every other one on the
   last day of its month; the i-th segment is i months after the start's month.
   */
  lemma MonthRangesSegments(startDate: Date, endDate: Date)
    requires ValidDate(startDate) && ValidDate(endDate) && NotAfter(startDate, endDate)
    ensures var s := GetMonthRanges(startDate, endDate).value;
      && (forall i :: 0 <= i < |s| ==> WellFormedSegment(s[i], endDate))
      && (forall i :: 0 < i < |s| ==> s[i].start.day == 1)
      && (forall i :: 0 <= i < |s| ==> MonthIndex(s[i].start) == MonthIndex(startDate) + i)
  {
    assert GetMonthRanges(startDate, endDate).value == Walk(startDate, endDate, startDate, true);
    WalkSegments(startDate, endDate, startDate, true);
  }

  /** Consecutive segments are adjacent: each starts the day after the previous one ends. */
  lemma MonthRangesContiguous(startDate: Date, endDate: Date)
    requires ValidDate(startDate) && ValidDate(endDate) && NotAfter(startDate, endDate)
    ensures var s := GetMonthRanges(startDate, endDate).value;
      forall i :: 0 <= i < |s| - 1 ==> Adjacent(s, i)
  {
    assert GetMonthRanges(startDate, endDate).value == Walk(startDate, endDate, startDate, true);
    WalkAdjacent(startDate, endDate, startDate, true);
  }

  // ---------------------------------------------------------------------------
  // The segments tile [startDate, endDate]
  // ---------------------------------------------------------------------------

  /** A non-empty run of valid, non-empty, adjacent segments. */
  predicate Chain(s: seq<Segment>) {
    && |s| >= 1
    && (forall i :: 0 <= i < |s| ==> ValidDate(s[i].start) && ValidDate(s[i].end) && NotAfter(s[i].start, s[i].end))
    && (forall i :: 0 <= i < |s| - 1 ==> Step(s, i))
  }

  predicate Step(s: seq<Segment>, i: int)
    requires 0 <= i < |s| - 1
  {
    ValidDate(s[i].end) && ValidDate(s[i + 1].start) && DayNumber(s[i + 1].start) == DayNumber(s[i].end) + 1
  }

  /** Day d falls within segment s. */
  predicate Contains(s: Segment, d: Date) {
    ValidDate(s.start) && ValidDate(s.end) && ValidDate(d) && NotAfter(s.start, d) && NotAfter(d, s.end)
  }

  /** Segment a ends strictly before segment b starts. */
  predicate EndsBefore(a: Segment, b: Segment) {
    ValidDate(a.end) && ValidDate(b.start) && After(b.start, a.end)
  }

  lemma {:induction false} ChainIncreasing(s: seq<Segment>, i: int, j: int)
    requires Chain(s) && 0 <= i < j < |s|
    ensures DayNumber(s[i].end) < DayNumber(s[j].start)
    decreases j - i
  {
    assert Step(s, j - 1);
    if j > i + 1 {
      ChainIncreasing(s, i, j - 1);
    }
  }

  lemma {:induction false} ChainFind(s: seq<Segment>, d: Date, i: int) returns (k: int)
    requires Chain(s) && ValidDate(d) && 0 <= i < |s|
    requires DayNumber(s[i].start) <= DayNumber(d) <= DayNumber(s[|s| - 1].end)
    ensures i <= k < |s| && Contains(s[k], d)
    decreases |s| - i
  {
    if DayNumber(d) <= DayNumber(s[i].end) {
      k := i;
    } else {
      assert Step(s, i);
      k := ChainFind(s, d, i + 1);
    }
  }

  lemma ChainPartition(s: seq<Segment>, d: Date)
    requires Chain(s) && ValidDate(d)
    ensures (DayNumber(s[0].start) <= DayNumber(d) <= DayNumber(s[|s| - 1].end))
        <==> (exists k :: 0 <= k < |s| && Contains(s[k], d))
  {
    if DayNumber(s[0].start) <= DayNumber(d) <= DayNumber(s[|s| - 1].end) {
      var k := ChainFind(s, d, 0);
    }
    forall k | 0 <= k < |s| && Contains(s[k], d)
      ensures DayNumber(s[0].start) <= DayNumber(d) <= DayNumber(s[|s| - 1].end)
    {
      if k > 0 { ChainIncreasing(s, 0, k); }
      if k < |s| - 1 { ChainIncreasing(s, k, |s| - 1); }
    }
  }

  /**
   The segments cover exactly [startDate, endDate]: a day lies in some segment
   if and only if it lies in the interval, and no day lies in two segments.
   */
  lemma MonthRangesPartition(startDate: Date, endDate: Date, d: Date)
    requires ValidDate(startDate) && ValidDate(endDate) && ValidDate(d) && NotAfter(startDate, endDate)
    ensures var s := GetMonthRanges(startDate, endDate).value;
      && (NotAfter(startDate, d) && NotAfter(d, endDate) <==> exists k :: 0 <= k < |s| && Contains(s[k], d))
      && (forall i, j :: 0 <= i < j < |s| ==> EndsBefore(s[i], s[j]))
  {
    var s := GetMonthRanges(startDate, endDate).value;
    assert s == Walk(startDate, endDate, startDate, true);
    WalkBounds(startDate, endDate, startDate, true);
    WalkChain(startDate, endDate);
    ChainPartition(s, d);
    forall i, j | 0 <= i < j < |s|
      ensures EndsBefore(s[i], s[j])
    {
      ChainIncreasing(s, i, j);
    }
  }

  lemma WalkChain(startDate: Date, endDate: Date)
    requires ValidDate(startDate) && ValidDate(endDate) && NotAfter(startDate, endDate)
    ensures Chain(Walk(startDate, endDate, startDate, true))
  {
    var s := Walk(startDate, endDate, startDate, true);
    WalkBounds(startDate, endDate, startDate, true);
    WalkAdjacent(startDate, endDate, startDate, true);
    WalkSegments(startDate, endDate, startDate, true);
    forall i | 0 <= i < |s|
      ensures ValidDate(s[i].start) && ValidDate(s[i].end) && NotAfter(s[i].start, s[i].end)
    {
      assert WellFormedSegment(s[i], endDate);
      DayNumberInMonth(s[i].start, s[i].end);
    }
    forall i | 0 <= i < |s| - 1
      ensures Step(s, i)
    {
      assert Adjacent(s, i);
      NextDayNumber(s[i].end);
    }
  }

  /** The two worked examples: a leap-year February in the middle, and a reversed range. */
  lemma ExampleSplit()
    ensures GetMonthRanges(Date(2024, 1, 15), Date(2024, 3, 10)) ==
      Ok([Segment("January", Date(2024, 1, 15), Date(2024, 1, 31)),
          Segment("February", Date(2024, 2, 1), Date(2024, 2, 29)),
          Segment("March", Date(2024, 3, 1), Date(2024, 3, 10))])
    ensures GetMonthRanges(Date(2024, 5, 10), Date(2024, 5, 1)) == Err(InvalidRange)
  {
    var a, e := Date(2024, 1, 15), Date(2024, 3, 10);
    DaysBeforeYearIsFormula(2024);
    assert DayNumber(e) == 738955;
    assert DayNumber(Date(2024, 4, 1)) == 738977;
    assert Walk(a, e, Date(2024, 4, 1), false) == [];
    assert Walk(a, e, Date(2024, 3, 1), false) == [Segment("March", Date(2024, 3, 1), e)];
    assert Walk(a, e, Date(2024, 2, 1), false) ==
      [Segment("February", Date(2024, 2, 1), Date(2024, 2, 29))] + Walk(a, e, Date(2024, 3, 1), false);
    assert Walk(a, e, a, true) ==
      [Segment("January", a, Date(2024, 1, 31))] + Walk(a, e, Date(2024, 2, 1), false);
    assert !After(a, e);
    assert Walk(a, e, a, true) ==
      [Segment("January", a, Date(2024, 1, 31)),
       Segment("February", Date(2024, 2, 1), Date(2024, 2, 29)),
       Segment("March", Date(2024, 3, 1), e)];
    assert GetMonthRanges(a, e) == Ok(Walk(a, e, a, true));
    assert DayNumber(Date(2024, 5, 10)) > DayNumber(Date(2024, 5, 1));
  }

  // ---------------------------------------------------------------------------
  // The year-constructor quirk, as written
  // ---------------------------------------------------------------------------

  /** `new Date(y, m, d)` reads a year from 0 to 99 as 1900 + y; `setFullYear` does not. */
  function ConstructorYear(y: int): int {
    if 0 <= y <= 99 then 1900 + y else y
  }

  /**
   The loop exactly as written: the segment bounds built with the three-argument
   constructor go through `ConstructorYear`, while the cursor, moved with
   `setFullYear`, keeps its year.
   */
  function WalkAsWritten(startDate: Date, endDate: Date, current: Date, first: bool): (s: seq<Segment>)
    requires ValidDate(startDate) && ValidDate(endDate) && ValidDate(current)
    ensures |s| == if After(current, endDate) then 0 else MonthIndex(endDate) - MonthIndex(current) + 1
    decreases MonthIndex(endDate) - MonthIndex(current)
  {
    if After(current, endDate) then []
    else
      var year := current.year;
      var month := current.month;
      var rangeStart := if first then startDate else Date(ConstructorYear(year), month, 1);
      var isLastMonth := year == endDate.year && month == endDate.month;
      var rangeEnd := if isLastMonth then endDate else LastDayOfMonth(ConstructorYear(year), month);
      CursorStep(current, endDate);
      [Segment(MonthName(month), rangeStart, rangeEnd)] + WalkAsWritten(startDate, endDate, FirstOfNextMonth(current), false)
  }

  /** Outside years 0 to 99 the code as written and the model agree. */
  lemma {:induction false} AsWrittenAgreesOutsideLegacyYears(startDate: Date, endDate: Date, current: Date, first: bool)
    requires ValidDate(startDate) && ValidDate(endDate) && ValidDate(current)
    requires (startDate.year > 99 && current.year >= startDate.year) || endDate.year < 0
    ensures WalkAsWritten(startDate, endDate, current, first) == Walk(startDate, endDate, current, first)
    decreases MonthIndex(endDate) - MonthIndex(current)
  {
    if !After(current, endDate) {
      MonthIndexMonotone(current, endDate);
      AsWrittenAgreesOutsideLegacyYears(startDate, endDate, FirstOfNextMonth(current), false);
    }
  }

  /**
   Counterexample: for January 15 to March 10 of year 50, the code as written
   ends the first segment on January 31, 1950 and starts the second on
   February 1, 1950 — both long after the range's end.
   */
  lemma LegacyYearCounterexample()
    ensures var a, e := Date(50, 1, 15), Date(50, 3, 10);
      var s := WalkAsWritten(a, e, a, true);
      && |s| == 3
      && s[0].end == Date(1950, 1, 31)
      && s[1].start == Date(1950, 2, 1)
      && After(s[1].start, e)
  {
    var a, e := Date(50, 1, 15), Date(50, 3, 10);
    var feb, mar, apr := Date(50, 2, 1), Date(50, 3, 1), Date(50, 4, 1);
    DayNumberInMonth(mar, e);
    MonthOrder(a, e);
    MonthOrder(feb, e);
    MonthOrder(e, apr);
    MonthOrder(e, Date(1950, 2, 1));
    assert WalkAsWritten(a, e, apr, false) == [];
    assert WalkAsWritten(a, e, mar, false) == [Segment("March", Date(1950, 3, 1), e)];
    assert WalkAsWritten(a, e, feb, false) ==
      [Segment("February", Date(1950, 2, 1), Date(1950, 2, 28))] + WalkAsWritten(a, e, mar, false);
    assert WalkAsWritten(a, e, a, true) ==
      [Segment("January", a, Date(1950, 1, 31))] + WalkAsWritten(a, e, feb, false);
  }
}
