/**
 * Dates as (year, month, day) triples: `parseFecha` of the main feed, which reads ISO
 * `yyyy-mm-dd` or day-first `dd/mm/yyyy`, and the sort key of the metrics feed's date
 * list, which reads `day/month/year` parts with `Number` and orders newest first.
 */
module Dates {
  import opened Wrappers
  import opened Text
  import opened Numbers

  /** What `parseFecha` returns: `null`, an Invalid Date, or a calendar day. */
  datatype DateValue = NoDate | InvalidDate | Date(year: int, month: int, day: int)

  predicate IsLeapYear(y: int)
  {
    y % 4 == 0 && (y % 100 != 0 || y % 400 == 0)
  }

  function DaysInMonth(y: int, m: int): int
    requires 1 <= m <= 12
  {
    if m == 2 then (if IsLeapYear(y) then 29 else 28)
    else if m == 4 || m == 6 || m == 9 || m == 11 then 30
    else 31
  }

  /** A day that exists in the proleptic Gregorian calendar. */
  predicate ValidDay(y: int, m: int, d: int)
  {
    1 <= m <= 12 && 1 <= d <= DaysInMonth(y, m)
  }

  /** `/^\d{4}-\d{2}-\d{2}$/`. */
  predicate IsoShape(t: string)
  {
    |t| == 10 && t[4] == '-' && t[7] == '-' &&
    AllDigits(t[..4]) && AllDigits(t[5..7]) && AllDigits(t[8..])
  }

  /** `new Date(y, ...)` reads a year from 0 to 99 as 1900 to 1999. */
  function FullYear(y: int): (r: int)
    ensures 0 <= y <= 99 ==> r == 1900 + y
    ensures !(0 <= y <= 99) ==> r == y
  {
    if 0 <= y <= 99 then 1900 + y else y
  }

  /** `parseFecha`: `null` for a missing or empty value and for a non-ISO value that does not
      split into exactly three `/` parts; an ISO value gives its day when that day exists;
      otherwise the parts are read with `parseInt` as day, month, year. */
  function ParseFecha(v: Option<string>): (r: DateValue)
    ensures r.NoDate? <==>
      v.None? || v.value == "" || (!IsoShape(Trim(v.value)) && |Split(Trim(v.value), '/')| != 3)
    ensures v.Some? && v.value != "" && IsoShape(Trim(v.value)) && r.Date? ==> ValidDay(r.year, r.month, r.day)
  {
    if v.None? || v.value == "" then NoDate
    else
      var t := Trim(v.value);
      if IsoShape(t) then
        var y, m, d := DigitsValue(t[..4]), DigitsValue(t[5..7]), DigitsValue(t[8..]);
        if ValidDay(y, m, d) then Date(y, m, d) else InvalidDate
      else
        var parts := Split(t, '/');
        if |parts| != 3 then NoDate
        else
          match (ParseInt(parts[2]), ParseInt(parts[1]), ParseInt(parts[0]))
          case (Some(y), Some(m), Some(d)) => Date(FullYear(y), m, d)
          case _ => InvalidDate
  }

  /** `parseInt` reads a digit string as its value. */
  lemma ParseIntDigits(s: string)
    requires s != [] && AllDigits(s)
    ensures ParseInt(s) == Some(DigitsValue(s) as int)
  {
    assert IsDigit(s[0]);
    assert SkipSpaces(s, 0) == 0;
    assert TrimStart(s) == s;
    assert SplitSign(s) == (false, s);
    LeadingDigitsAppend(s, "");
    assert s + "" == s;
    assert LeadingDigits(s) == |s| && s[..|s|] == s;
  }

  /** Every character of an ISO-shaped value is a digit or `-`. */
  lemma IsoChars(t: string)
    requires IsoShape(t)
    ensures forall i :: 0 <= i < |t| ==> IsDigit(t[i]) || t[i] == '-'
  {
    forall i | 0 <= i < |t| ensures IsDigit(t[i]) || t[i] == '-' {
      if i < 4 { assert t[i] == t[..4][i]; }
      else if 4 < i < 7 { assert t[i] == t[5..7][i - 5]; }
      else if i > 7 { assert t[i] == t[8..][i - 8]; }
    }
  }

  /** `d/m/y` with digit parts is trimmed, not ISO-shaped, and splits into its three parts. */
  lemma DayFirstText(d: string, m: string, y: string)
    requires d != [] && m != [] && y != [] && AllDigits(d) && AllDigits(m) && AllDigits(y)
    ensures var t := d + "/" + m + "/" + y;
      Trim(t) == t && !IsoShape(t) && Split(t, '/') == [d, m, y]
  {
    var t := d + "/" + m + "/" + y;
    assert t[0] == d[0] && t[|t| - 1] == y[|y| - 1];
    TrimOfTrimmed(t);
    assert t[|d|] == '/';
    if IsoShape(t) {
      IsoChars(t);
      assert false;
    }
    DigitsHaveNo(d, '/');
    DigitsHaveNo(m, '/');
    DigitsHaveNo(y, '/');
    assert t == d + ['/'] + (m + ['/'] + y);
    SplitThree(d, m, y, '/');
  }

  /** `parseFecha` is day-first: `d/m/y` with digit parts is day `d` of month `m` of year `y`. */
  lemma DayFirst(d: string, m: string, y: string)
    requires d != [] && m != [] && y != [] && AllDigits(d) && AllDigits(m) && AllDigits(y)
    ensures ParseFecha(Some(d + "/" + m + "/" + y))
         == Date(FullYear(DigitsValue(y)), DigitsValue(m), DigitsValue(d))
  {
    var t := d + "/" + m + "/" + y;
    DayFirstText(d, m, y);
    ParseIntDigits(d);
    ParseIntDigits(m);
    ParseIntDigits(y);
    ParseFechaSlashes(t, [d, m, y]);
  }

  /** A trimmed, non-ISO value of three `/` parts is read part by part with `parseInt`. */
  lemma ParseFechaSlashes(t: string, parts: seq<string>)
    requires t != "" && Trim(t) == t && !IsoShape(t) && parts == Split(t, '/') && |parts| == 3
    requires ParseInt(parts[0]).Some? && ParseInt(parts[1]).Some? && ParseInt(parts[2]).Some?
    ensures ParseFecha(Some(t)) ==
      Date(FullYear(ParseInt(parts[2]).value), ParseInt(parts[1]).value, ParseInt(parts[0]).value)
  {
  }

  /** The ISO form and the day-first form of the same existing day, with a year of at least
      100, give the same date. */
  lemma IsoAgreesWithDayFirst(y: string, m: string, d: string)
    requires |y| == 4 && |m| == 2 && |d| == 2 && AllDigits(y) && AllDigits(m) && AllDigits(d)
    requires DigitsValue(y) >= 100 && ValidDay(DigitsValue(y), DigitsValue(m), DigitsValue(d))
    ensures ParseFecha(Some(y + "-" + m + "-" + d)) == ParseFecha(Some(d + "/" + m + "/" + y))
    ensures ParseFecha(Some(y + "-" + m + "-" + d)) == Date(DigitsValue(y), DigitsValue(m), DigitsValue(d))
  {
    IsoText(y, m, d);
    ParseFechaIso(y + "-" + m + "-" + d);
    DayFirst(d, m, y);
  }

  /** `y-m-d` with four, two and two digits is trimmed, ISO-shaped and cut back into its parts. */
  lemma IsoText(y: string, m: string, d: string)
    requires |y| == 4 && |m| == 2 && |d| == 2 && AllDigits(y) && AllDigits(m) && AllDigits(d)
    ensures var t := y + "-" + m + "-" + d;
      Trim(t) == t && IsoShape(t) && t[..4] == y && t[5..7] == m && t[8..] == d
  {
    var t := y + "-" + m + "-" + d;
    assert t[0] == y[0] && t[|t| - 1] == d[1];
    TrimOfTrimmed(t);
    assert t[..4] == y && t[5..7] == m && t[8..] == d;
  }

  /** A trimmed ISO-shaped value naming an existing day is that day. */
  lemma ParseFechaIso(t: string)
    requires Trim(t) == t && IsoShape(t)
    requires ValidDay(DigitsValue(t[..4]), DigitsValue(t[5..7]), DigitsValue(t[8..]))
    ensures ParseFecha(Some(t)) == Date(DigitsValue(t[..4]), DigitsValue(t[5..7]), DigitsValue(t[8..]))
  {
  }

  /* ---------- the metrics feed's date order ---------- */

  /** A sort key: year, month, day. */
  type Key = (int, int, int)

  /** `ToIntegerOrInfinity` on a finite value: truncation toward zero. */
  function Trunc(x: real): (r: int)
    ensures x >= 0.0 ==> r == x.Floor
    ensures x < 0.0 ==> r == -((-x).Floor)
  {
    if x >= 0.0 then x.Floor else -((-x).Floor)
  }

  /** The key of one date-list entry: `a.split("/").map(Number)` read as day, month, year,
      as `new Date(y, m - 1, d)` would take them; None when a part is missing or not a
      number, where the comparator sees `NaN`. */
  function SortKey(f: string): (r: Option<Key>)
    ensures var p := Split(f, '/');
      r.Some? <==> |p| >= 3 && ParseNumber(p[0]).Some? && ParseNumber(p[1]).Some? && ParseNumber(p[2]).Some?
    ensures r.Some? ==> var p := Split(f, '/');
      r.value.1 == Trunc(ParseNumber(p[1]).value) && r.value.2 == Trunc(ParseNumber(p[0]).value)
    ensures r.Some? ==> var p := Split(f, '/'); r.value.0 == FullYear(Trunc(ParseNumber(p[2]).value))
  {
    var parts := Split(f, '/');
    if |parts| < 3 then None
    else
      match (ParseNumber(parts[0]), ParseNumber(parts[1]), ParseNumber(parts[2]))
      case (Some(d), Some(m), Some(y)) => Some((FullYear(Trunc(y)), Trunc(m), Trunc(d)))
      case _ => None
  }

  /** Key `a` is the same day as `b` or a later one. */
  predicate KeyAtLeast(a: Key, b: Key)
  {
    a.0 > b.0 || (a.0 == b.0 && (a.1 > b.1 || (a.1 == b.1 && a.2 >= b.2)))
  }

  /** `f` may be listed before `g` when sorting newest first; a value without a key goes last. */
  predicate Before(f: string, g: string)
  {
    var a, b := SortKey(f), SortKey(g);
    if a.None? then b.None?
    else b.None? || KeyAtLeast(a.value, b.value)
  }

  /** Any two entries are ordered one way or the other. */
  lemma BeforeTotal(f: string, g: string)
    ensures Before(f, g) || Before(g, f)
  {
  }

  /** The order is transitive, so a list sorted pair by pair is sorted throughout. */
  lemma BeforeTransitive(f: string, g: string, h: string)
    requires Before(f, g) && Before(g, h)
    ensures Before(f, h)
  {
  }

  /** Every readable date comes before every unreadable one, and not after it. */
  lemma UnreadableLast(f: string, g: string)
    requires SortKey(f).Some? && SortKey(g).None?
    ensures Before(f, g) && !Before(g, f)
  {
  }

  /** Of two readable dates, the one in a later year comes first and the other does not. */
  lemma LaterYearFirst(f: string, g: string)
    requires SortKey(f).Some? && SortKey(g).Some? && SortKey(f).value.0 > SortKey(g).value.0
    ensures Before(f, g) && !Before(g, f)
  {
  }

  /** `Number` reads a digit string as its value. */
  lemma ParseNumberDigits(s: string)
    requires s != [] && AllDigits(s)
    ensures ParseNumber(s) == Some(DigitsValue(s) as real)
  {
    WholeNumeralDigits(s);
    assert IsDigit(s[0]) && IsDigit(s[|s| - 1]);
    ParseSigned(false, s);
    assert "" + s == s;
  }

  /** The date list reads `d/m/y` day-first too: its key is the day `DayFirst` gives
      `parseFecha`. */
  lemma SortKeyDayFirst(d: string, m: string, y: string)
    requires d != [] && m != [] && y != [] && AllDigits(d) && AllDigits(m) && AllDigits(y)
    ensures SortKey(d + "/" + m + "/" + y) == Some((FullYear(DigitsValue(y)), DigitsValue(m) as int, DigitsValue(d) as int))
  {
    DayFirstText(d, m, y);
    ParseNumberDigits(d);
    ParseNumberDigits(m);
    ParseNumberDigits(y);
  }
}
