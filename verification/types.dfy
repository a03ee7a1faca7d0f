/**
 The heatmap's records: activities supplied by the caller, the cells one month
 renders, the month segments a date range splits into, and the colour table.
 */
module Types {
  import opened Calendar

  datatype Option<T> = None | Some(value: T)

  /** The two conditions the date functions reject by throwing. */
  datatype Error =
    | InvalidRange     // "startDate must be before endDate"
    | CrossMonthRange  // "startDate and endDate must be in the same month"

  datatype Result<T> = Ok(value: T) | Err(error: Error)

  /**
   One day's recorded intensity. `date` is matched as text against the
   `YYYY-MM-DD` key of a calendar day; in a built cell it holds the display text.
   */
  datatype Activity = Activity(date: string, count: int, level: int)

  /** A grid position: padding that renders as blank space, or a real day. */
  datatype Cell = Invisible | Day(entry: Activity)

  /** One month's slice of the displayed range (`HeatmapMonth`). */
  datatype Segment = Segment(name: string, start: Date, end: Date)

  datatype CellColors = CellColors(level0: string, level1: string, level2: string, level3: string, level4: string)

  function Invisibles(n: nat): (s: seq<Cell>)
    ensures |s| == n && forall i :: 0 <= i < n ==> s[i] == Invisible
  {
    seq(n, _ => Invisible)
  }
}
