/** The display form of a date, `strftime("%A %d. %B %Y")` with English
    names, and its inverse. */
module DateDisplay {
  import opened Wrappers
  import opened Text
  import opened Calendar

  /** `%A`, indexed by `Weekday` (Monday first). */
  const WeekdayNames: seq<string> :=
    ["Monday", "Tuesday", "Wednesday", "Thursday", "Friday", "Saturday", "Sunday"]

  /** `%B`, indexed by month minus one. */
  const MonthNames: seq<string> :=
    ["January", "February", "March", "April", "May", "June",
     "July", "August", "September", "October", "November", "December"]

  function DigitChar(n: int): (c: char)
    requires 0 <= n <= 9
    ensures IsDigit(c) && c as int - '0' as int == n
  {
    ('0' as int + n) as char
  }

  function DigitValue(c: char): (n: int)
    requires IsDigit(c)
    ensures 0 <= n <= 9 && DigitChar(n) == c
  {
    c as int - '0' as int
  }

  predicate AllDigits(s: string) {
    forall i :: 0 <= i < |s| ==> IsDigit(s[i])
  }

  /** The number two decimal digits denote. */
  function Value2(s: string): (n: int)
    requires |s| == 2 && AllDigits(s)
    ensures 0 <= n <= 99
  {
    10 * DigitValue(s[0]) + DigitValue(s[1])
  }

  /** The number four decimal digits denote. */
  function Value4(s: string): (n: int)
    requires |s| == 4 && AllDigits(s)
    ensures 0 <= n <= 9999
  {
    100 * Value2(s[..2]) + Value2(s[2..])
  }

  /** `%d`: the day zero-padded to two digits. */
  function Pad2(n: int): (r: string)
    requires 0 <= n <= 99
    ensures |r| == 2 && AllDigits(r) && Value2(r) == n
  {
    [DigitChar(n / 10), DigitChar(n % 10)]
  }

  /** `%Y`: the year zero-padded to four digits. */
  function Pad4(n: int): (r: string)
    requires 0 <= n <= 9999
    ensures |r| == 4 && AllDigits(r) && Value4(r) == n
  {
    var r := Pad2(n / 100) + Pad2(n % 100);
    assert r[..2] == Pad2(n / 100) && r[2..] == Pad2(n % 100);
    r
  }

  /** Two digits are the padded form of the number they denote. */
  lemma Pad2OfValue(s: string)
    requires |s| == 2 && AllDigits(s)
    ensures Pad2(Value2(s)) == s
  {
  }

  /** Four digits are the padded form of the number they denote. */
  lemma Pad4OfValue(s: string)
    requires |s| == 4 && AllDigits(s)
    ensures Pad4(Value4(s)) == s
  {
    var hi, lo := Value2(s[..2]), Value2(s[2..]);
    assert (100 * hi + lo) / 100 == hi && (100 * hi + lo) % 100 == lo;
    Pad2OfValue(s[..2]);
    Pad2OfValue(s[2..]);
    assert s == s[..2] + s[2..];
  }

  /** The rendering `<weekday> <dd>. <month> <yyyy>`; reading it back gives
      the date, so the format loses nothing. */
  function FormatDate(d: Date): (r: string)
    ensures ParseDisplay(r) == Some(d)
  {
    var w := WeekdayNames[Weekday(d)];
    var after := DayMonthYear(d);
    NamesHaveNoSpace(Weekday(d), d.month);
    SplitWordAppend(w, after);
    ParseDayMonthYearFormatted(d);
    w + " " + after
  }

  /** `%d. %B %Y`, the part of the rendering after the weekday. */
  function DayMonthYear(d: CalendarDate): string
    requires 1 <= d.month <= 12 && 0 <= d.day <= 99 && 0 <= d.year <= 9999
  {
    Pad2(d.day) + ". " + MonthNames[d.month - 1] + " " + Pad4(d.year)
  }

  /** `convert_date_to_string`: `None` stays `None`; a date gets its display form. */
  function ConvertDateToString(d: Option<Date>): (r: Option<string>)
    ensures r.None? <==> d.None?
    ensures d.Some? ==> ParseDisplay(r.value) == d
  {
    match d
    case None => None
    case Some(date) => Some(FormatDate(date))
  }

  /** Splits at the first space: the word before it and the text after it. */
  function SplitWord(s: string): (r: Option<(string, string)>)
    ensures r.Some? ==> s == r.value.0 + " " + r.value.1 && ' ' !in r.value.0
    ensures r.None? ==> ' ' !in s
  {
    if s == [] then None
    else if s[0] == ' ' then Some(([], s[1..]))
    else
      match SplitWord(s[1..])
      case None => None
      case Some((w, rest)) => Some(([s[0]] + w, rest))
  }

  lemma {:induction false} SplitWordAppend(w: string, rest: string)
    requires ' ' !in w
    ensures SplitWord(w + " " + rest) == Some((w, rest))
  {
    if w != [] {
      assert w[0] == (w + " " + rest)[0] && w[0] in w;
      assert (w + " " + rest)[1..] == w[1..] + " " + rest;
      SplitWordAppend(w[1..], rest);
      assert [w[0]] + w[1..] == w;
    }
  }

  function IndexOf(names: seq<string>, name: string): (r: Option<nat>)
    ensures r.Some? ==> r.value < |names| && names[r.value] == name
    ensures r.Some? ==> forall j :: 0 <= j < r.value ==> names[j] != name
    ensures r.None? ==> name !in names
  {
    if names == [] then None
    else if names[0] == name then Some(0)
    else
      match IndexOf(names[1..], name)
      case None => None
      case Some(i) => Some(i + 1)
  }

  predicate Distinct(names: seq<string>) {
    forall i, j :: 0 <= i < j < |names| ==> names[i] != names[j]
  }

  /** In a list without repetitions, looking a name up finds its position. */
  lemma IndexOfDistinct(names: seq<string>, k: int)
    requires Distinct(names) && 0 <= k < |names|
    ensures IndexOf(names, names[k]) == Some(k)
  {
    assert names[k] in names;
  }

  lemma MonthNamesDistinct()
    ensures Distinct(MonthNames)
  {
  }

  lemma MonthIndex(m: int)
    requires 1 <= m <= 12
    ensures IndexOf(MonthNames, MonthNames[m - 1]) == Some(m - 1)
  {
    MonthNamesDistinct();
    IndexOfDistinct(MonthNames, m - 1);
  }

  lemma NamesHaveNoSpace(w: int, m: int)
    requires 0 <= w < 7 && 1 <= m <= 12
    ensures ' ' !in WeekdayNames[w] && ' ' !in MonthNames[m - 1]
  {
  }

  /** Reads `<dd>. <month> <yyyy>` into a year, month and day. */
  function ParseDayMonthYear(t: string): Option<CalendarDate> {
    if |t| < 4 || !AllDigits(t[..2]) || t[2] != '.' || t[3] != ' ' then None
    else
      match SplitWord(t[4..])
      case None => None
      case Some((monthName, yearText)) =>
        if |yearText| != 4 || !AllDigits(yearText) then None
        else
          match IndexOf(MonthNames, monthName)
          case None => None
          case Some(m) => Some(CalendarDate(Value4(yearText), m + 1, Value2(t[..2])))
  }

  /** Reads a display string back into the date it shows. The weekday
      name must agree with the date. */
  function ParseDisplay(s: string): Option<Date> {
    match SplitWord(s)
    case None => None
    case Some((weekday, rest)) =>
      match ParseDayMonthYear(rest)
      case None => None
      case Some(d) => if Valid(d) && WeekdayNames[Weekday(d)] == weekday then Some(d) else None
  }

  lemma ParseDayMonthYearFormatted(d: Date)
    ensures ParseDayMonthYear(DayMonthYear(d)) == Some(d)
  {
    var dd, mn, yyyy := Pad2(d.day), MonthNames[d.month - 1], Pad4(d.year);
    NamesHaveNoSpace(0, d.month);
    MonthIndex(d.month);
    ParseParts(dd, mn, yyyy, d.month - 1);
    Regroup(dd, ". ", mn, " ", yyyy);
  }

  /** Concatenation regrouped. */
  lemma Regroup(a: string, b: string, c: string, d: string, e: string)
    ensures a + b + c + d + e == a + b + (c + d + e)
  {
  }

  /** `<dd>. <month> <yyyy>` reads back as its parts. */
  lemma ParseParts(dd: string, mn: string, yyyy: string, m: nat)
    requires |dd| == 2 && AllDigits(dd) && ' ' !in mn && |yyyy| == 4 && AllDigits(yyyy)
    requires IndexOf(MonthNames, mn) == Some(m)
    ensures ParseDayMonthYear(dd + ". " + (mn + " " + yyyy)) == Some(CalendarDate(Value4(yyyy), m + 1, Value2(dd)))
  {
    var rest := mn + " " + yyyy;
    HeadParts(dd, rest);
    SplitWordAppend(mn, yyyy);
    ParseWith(dd + ". " + rest, mn, yyyy, m);
  }

  /** The parser's steps on a text whose pieces are known. */
  lemma ParseWith(t: string, mn: string, yyyy: string, m: nat)
    requires |t| >= 4 && AllDigits(t[..2]) && t[2] == '.' && t[3] == ' '
    requires SplitWord(t[4..]) == Some((mn, yyyy)) && |yyyy| == 4 && AllDigits(yyyy)
    requires IndexOf(MonthNames, mn) == Some(m)
    ensures ParseDayMonthYear(t) == Some(CalendarDate(Value4(yyyy), m + 1, Value2(t[..2])))
  {
  }

  lemma HeadParts(dd: string, rest: string)
    requires |dd| == 2
    ensures var t := dd + ". " + rest; |t| >= 4 && t[..2] == dd && t[2] == '.' && t[3] == ' ' && t[4..] == rest
  {
  }

  lemma ParsedDayMonthYear(t: string, d: CalendarDate)
    requires ParseDayMonthYear(t) == Some(d)
    ensures 1 <= d.month <= 12 && 0 <= d.day <= 99 && 0 <= d.year <= 9999
    ensures t == DayMonthYear(d)
  {
    var monthName, yearText := SplitWord(t[4..]).value.0, SplitWord(t[4..]).value.1;
    var m := IndexOf(MonthNames, monthName).value;
    assert d == CalendarDate(Value4(yearText), m + 1, Value2(t[..2]));
    assert MonthNames[d.month - 1] == monthName && t[4..] == monthName + " " + yearText;
    Pad2OfValue(t[..2]);
    Pad4OfValue(yearText);
    assert t == t[..2] + ". " + t[4..];
  }

  /** Only display forms parse: a parsed string is exactly the rendering
      of the date read from it. */
  lemma ParsedIsFormatted(s: string, d: Date)
    requires ParseDisplay(s) == Some(d)
    ensures FormatDate(d) == s
  {
    var weekday, rest := SplitWord(s).value.0, SplitWord(s).value.1;
    assert s == weekday + " " + rest;
    assert ParseDayMonthYear(rest) == Some(CalendarDate(d.year, d.month, d.day));
    assert weekday == WeekdayNames[Weekday(d)];
    ParsedDayMonthYear(rest, d);
  }

  /** The date is passed as a parameter fixed by `requires`, here and in the
      two lemmas below, so that only the fact at hand is unfolded on it. */
  lemma MoonLandingWeekday(d: Date)
    requires d == CalendarDate(1969, 7, 20)
    ensures WeekdayNames[Weekday(d)] == "Sunday"
  {
    assert Ordinal(CalendarDate(1969, 7, 20)) == 718998;
  }

  lemma MoonLandingDayMonthYear(d: Date)
    requires d == CalendarDate(1969, 7, 20)
    ensures DayMonthYear(d) == "20. July 1969"
  {
    assert Pad2(20) == "20" && Pad2(19) == "19" && Pad2(69) == "69";
    assert Pad4(1969) == "1969";
  }

  /** The moon landing, as rendered in the repository's test. */
  lemma MoonLanding()
    ensures ConvertDateToString(Some(CalendarDate(1969, 7, 20))) == Some("Sunday 20. July 1969")
  {
    MoonLandingFormat(CalendarDate(1969, 7, 20));
  }

  lemma MoonLandingFormat(d: Date)
    requires d == CalendarDate(1969, 7, 20)
    ensures FormatDate(d) == "Sunday 20. July 1969"
  {
    MoonLandingWeekday(d);
    MoonLandingDayMonthYear(d);
    FormatDateAs(d, "Sunday", "20. July 1969", "Sunday 20. July 1969");
  }

  /** The rendering is the weekday name, a space, and day, month and year. */
  lemma FormatDateAs(d: Date, w: string, after: string, r: string)
    requires WeekdayNames[Weekday(d)] == w && DayMonthYear(d) == after && r == w + " " + after
    ensures FormatDate(d) == r
  {
  }
}
