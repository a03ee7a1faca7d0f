/**
 The text the heatmap derives from a calendar day: the locale-independent
 `YYYY-MM-DD` lookup key, the en-US short display date, and month names.
 */
module Format {
  import opened Calendar
  import opened Text
  import opened Types

  /** Full month name, as `toLocaleString(.., { month: 'long' })` prints it in en-US. */
  function MonthName(m: int): (name: string)
    requires 1 <= m <= 12
    ensures |name| >= 3 && name[..3] == ShortMonthName(m)
  {
    ["January", "February", "March", "April", "May", "June", "July",
     "August", "September", "October", "November", "December"][m - 1]
  }

  /** Abbreviated month name, as en-US `{ month: 'short' }` prints it. */
  function ShortMonthName(m: int): (name: string)
    requires 1 <= m <= 12
    ensures |name| == 3
  {
    ["Jan", "Feb", "Mar", "Apr", "May", "Jun", "Jul",
     "Aug", "Sep", "Oct", "Nov", "Dec"][m - 1]
  }

  /** Reads a short month name back to its month number. */
  function ShortMonthIndex(name: string): (r: Option<int>)
    ensures r.Some? ==> 1 <= r.value <= 12 && ShortMonthName(r.value) == name
  {
    if name == "Jan" then Some(1) else if name == "Feb" then Some(2)
    else if name == "Mar" then Some(3) else if name == "Apr" then Some(4)
    else if name == "May" then Some(5) else if name == "Jun" then Some(6)
    else if name == "Jul" then Some(7) else if name == "Aug" then Some(8)
    else if name == "Sep" then Some(9) else if name == "Oct" then Some(10)
    else if name == "Nov" then Some(11) else if name == "Dec" then Some(12)
    else None
  }

  /** Every short name reads back to its own month, so distinct months have distinct names. */
  lemma ShortMonthIndexOf(m: int)
    requires 1 <= m <= 12
    ensures ShortMonthIndex(ShortMonthName(m)) == Some(m)
  {
  }

  /**
   The activity lookup key: the year unpadded, month and day zero-padded to two
   digits. Printing loses nothing: the day can be read back from its key.
   */
  function FormatKey(d: Date): (key: string)
    requires ValidDate(d)
    ensures ParseKey(key) == Some(d)
  {
    var ys := IntToString(d.year);
    var ms := PadStart2(NatToString(d.month));
    var ds := PadStart2(NatToString(d.day));
    PaddedRoundTrip(d.month);
    PaddedRoundTrip(d.day);
    IntRoundTrip(d.year);
    ParseJoined(ys, ms, ds);
    ys + "-" + ms + "-" + ds
  }

  /** Reads a `YYYY-MM-DD` key back, splitting at the last two dashes. */
  function ParseKey(key: string): (r: Option<Date>)
    ensures r.Some? ==> |key| >= 7
  {
    if |key| >= 7 && key[|key| - 3] == '-' && key[|key| - 6] == '-' then
      var y := key[..|key| - 6];
      var m := key[|key| - 5..|key| - 3];
      var d := key[|key| - 2..];
      if IsIntText(y) && IsDigits(m) && IsDigits(d) then
        Some(Date(ParseInt(y), ParseNat(m), ParseNat(d)))
      else None
    else None
  }

  /** The parser splits a joined key back into its three fields. */
  lemma ParseJoined(ys: string, ms: string, ds: string)
    requires IsIntText(ys) && |ms| == 2 && IsDigits(ms) && |ds| == 2 && IsDigits(ds)
    ensures ParseKey(ys + "-" + ms + "-" + ds) == Some(Date(ParseInt(ys), ParseNat(ms), ParseNat(ds)))
  {
    var key := ys + "-" + ms + "-" + ds;
    var n := |ys|;
    assert |key| == n + 6;
    assert key[n] == '-' && key[n + 3] == '-';
    assert key[..n] == ys;
    assert key[n + 1..n + 3] == ms;
    assert key[n + 4..] == ds;
  }

  /** Distinct days have distinct keys, so an activity never lands on another day. */
  lemma KeyInjective(a: Date, b: Date)
    requires ValidDate(a) && ValidDate(b)
    ensures FormatKey(a) == FormatKey(b) <==> a == b
  {
  }

  /** Reads "D, YYYY" back: the day digits, a comma and a space, then the year. */
  function ParseDayYear(rest: string): Option<(nat, int)>
  {
    var k := DigitRun(rest);
    if k == 0 || |rest| < k + 2 || rest[k..k + 2] != ", " then None
    else
      var ys := rest[k + 2..];
      if IsIntText(ys) then Some((ParseNat(rest[..k]), ParseInt(ys))) else None
  }

  /** Reads a display date "Mon D, YYYY" back: short month, a space, then day and year. */
  function ParseDisplay(text: string): (r: Option<Date>)
  {
    if |text| < 4 || text[3] != ' ' then None
    else
      var m := ShortMonthIndex(text[..3]);
      var dy := ParseDayYear(text[4..]);
      if m.None? || dy.None? then None else Some(Date(dy.value.1, m.value, dy.value.0))
  }

  /** Where the fields of a joined "D, YYYY" lie. */
  lemma DayYearFields(ds: string, ys: string)
    requires |ds| >= 1 && IsDigits(ds)
    ensures var rest := ds + ", " + ys;
      && DigitRun(rest) == |ds| && rest[..|ds|] == ds
      && rest[|ds|..|ds| + 2] == ", " && rest[|ds| + 2..] == ys
  {
    var rest := ds + ", " + ys;
    assert rest == ds + (", " + ys);
    DigitRunOfJoin(ds, ", " + ys);
  }

  lemma ParseDayYearJoined(ds: string, ys: string)
    requires |ds| >= 1 && IsDigits(ds) && IsIntText(ys)
    ensures ParseDayYear(ds + ", " + ys) == Some((ParseNat(ds), ParseInt(ys)))
  {
    DayYearFields(ds, ys);
  }

  /** Where the fields of a joined "Mon ..." lie. */
  lemma DisplayFields(name: string, tail: string)
    requires |name| == 3
    ensures var text := name + " " + tail;
      |text| >= 4 && text[..3] == name && text[3] == ' ' && text[4..] == tail
  {
  }

  /** The display parser splits a joined display date back into its three fields. */
  lemma ParseDisplayParts(name: string, ds: string, ys: string)
    requires |name| == 3 && ShortMonthIndex(name).Some?
    requires |ds| >= 1 && IsDigits(ds) && IsIntText(ys)
    ensures ParseDisplay(name + " " + (ds + ", " + ys)) == Some(Date(ParseInt(ys), ShortMonthIndex(name).value, ParseNat(ds)))
  {
    DisplayFields(name, ds + ", " + ys);
    ParseDayYearJoined(ds, ys);
  }

  lemma ParseDisplayJoined(m: int, ds: string, ys: string)
    requires 1 <= m <= 12 && |ds| >= 1 && IsDigits(ds) && IsIntText(ys)
    ensures ParseDisplay(ShortMonthName(m) + " " + (ds + ", " + ys)) == Some(Date(ParseInt(ys), m, ParseNat(ds)))
  {
    ShortMonthIndexOf(m);
    ParseDisplayParts(ShortMonthName(m), ds, ys);
  }

  /**
   The en-US short display date, "Mon D, YYYY" (for example "Feb 14, 2024"): the
   day can be read back from it.
   */
  function FormatDisplay(d: Date): (text: string)
    requires ValidDate(d)
    ensures ParseDisplay(text) == Some(d)
  {
    var ds := NatToString(d.day);
    var ys := IntToString(d.year);
    NatRoundTrip(d.day);
    IntRoundTrip(d.year);
    ParseDisplayJoined(d.month, ds, ys);
    ShortMonthName(d.month) + " " + (ds + ", " + ys)
  }

  /** Distinct days have distinct display dates. */
  lemma DisplayInjective(a: Date, b: Date)
    requires ValidDate(a) && ValidDate(b)
    ensures FormatDisplay(a) == FormatDisplay(b) <==> a == b
  {
  }
}
