/**
 * The value coercers that turn a cell into display text: `fmt` in its two modes,
 * `formatPercent` and `formatHoras`.
 */
module Coercers {
  import opened Wrappers
  import opened Text
  import opened Numbers

  /** The text `fmt` reads in its default mode: a missing field (or the literal 0 the main
      feed passes for a missing alias) and the empty cell are falsy and read as `"0"`, and
      the first comma becomes a decimal point. */
  function FmtText(v: Option<string>): (r: string)
    ensures v.None? || v.value == "" ==> r == "0"
    ensures v.Some? && v.value != "" && ',' !in v.value ==> r == v.value
    ensures v.Some? && v.value != "" && ',' in v.value ==>
              |r| == |v.value| && r[IndexOf(v.value, ',')] == '.' && ',' !in v.value[..IndexOf(v.value, ',')]
    ensures v.Some? && v.value != "" && ',' in v.value ==>
              var i := IndexOf(v.value, ','); r == v.value[..i] + "." + v.value[i + 1..]
  {
    var s := if v.None? || v.value == "" then "0" else v.value;
    ReplaceFirst(s, ',', ".")
  }

  /** `fmt(value)`: two decimals, or `"0.00"` when the text is not a number. */
  function Fmt(v: Option<string>): (r: string)
    ensures IsFixed2(r)
    ensures ParseNumber(FmtText(v)).None? ==> r == "0.00"
    ensures ParseNumber(FmtText(v)).Some? ==> ParseNumber(r) == Some(Rounded2(ParseNumber(FmtText(v)).value))
  {
    match ParseNumber(FmtText(v))
    case None => "0.00"
    case Some(x) =>
      ParseToFixed2(x);
      ToFixed2(x)
  }

  /** A missing or empty value shows as zero. */
  lemma FmtMissing(v: Option<string>)
    requires v.None? || v.value == ""
    ensures Fmt(v) == "0.00"
  {
    assert FmtText(v) == "0";
    ParseZero();
    ToFixed2Zero();
  }

  lemma ParseZero()
    ensures ParseNumber("0") == Some(0.0)
  {
    ParseIntToString(0);
    assert IntToString(0) == "0";
  }

  lemma ToFixed2Zero()
    ensures ToFixed2(0.0) == "0.00"
  {
    assert Hundredths(0.0) == 0;
    assert NatToString(0) == "0";
    assert TwoDigits(0) == ['0', '0'];
  }

  /** A decimal comma reads as a decimal point. */
  lemma FmtDecimalComma(whole: string, frac: string)
    requires whole != [] && AllDigits(whole) && AllDigits(frac)
    ensures Fmt(Some(whole + "," + frac)) == Fmt(Some(whole + "." + frac))
  {
    var s := whole + "," + frac;
    var t := whole + "." + frac;
    assert ',' !in whole by {
      forall i | 0 <= i < |whole| ensures whole[i] != ',' { assert IsDigit(whole[i]); }
    }
    assert ',' !in frac by {
      forall i | 0 <= i < |frac| ensures frac[i] != ',' { assert IsDigit(frac[i]); }
    }
    IndexAfterAbsent(whole, ',', frac);
    assert IndexOf(s, ',') == |whole|;
    assert s[..|whole|] == whole && s[|whole| + 1..] == frac;
    assert FmtText(Some(s)) == t;
    assert ',' !in t;
    assert FmtText(Some(t)) == t;
  }

  lemma {:induction false} IndexAfterAbsent(a: string, c: char, b: string)
    requires c !in a
    ensures IndexOf(a + [c] + b, c) == |a|
  {
    if a != [] {
      assert (a + [c] + b)[1..] == a[1..] + [c] + b;
      IndexAfterAbsent(a[1..], c, b);
    }
  }

  /** `fmt(value, true)` of the drier counts: `""` for a missing field, the rounded integer
      for a number, otherwise the trimmed text. */
  function FmtSecadoras(v: Option<string>): (r: string)
    ensures v.None? ==> r == ""
    ensures v.Some? && ParseNumber(v.value).None? ==> r == Trim(v.value)
    ensures v.Some? && ParseNumber(v.value).Some? ==>
              '.' !in r && ParseNumber(r) == Some(Round(ParseNumber(v.value).value) as real)
  {
    match v
    case None => ""
    case Some(s) =>
      match ParseNumber(s)
      case None => Trim(s)
      case Some(x) =>
        var r := IntToString(Round(x));
        ParseIntToString(Round(x));
        NoPointInInt(Round(x));
        r
  }

  lemma NoPointInInt(i: int)
    ensures '.' !in IntToString(i)
  {
    var r := IntToString(i);
    forall k | 0 <= k < |r| ensures r[k] != '.' {
      if i < 0 && k > 0 {
        assert r[k] == r[1..][k - 1];
      }
    }
  }

  /** `formatPercent`'s scaling: ratios in (0, 1] become percentages, and anything above 100
      is capped at 100. */
  function PercentOf(x: real): (r: real)
    ensures r <= 100.0
    ensures 0.0 < x <= 1.0 ==> r == x * 100.0
    ensures (x <= 0.0 || 1.0 < x <= 100.0) ==> r == x
    ensures x > 100.0 ==> r == 100.0
  {
    var scaled := if x <= 1.0 && x > 0.0 then x * 100.0 else x;
    if scaled > 100.0 then 100.0 else scaled
  }

  /** The number `formatPercent` reads: the first `%` deleted, the first comma made a point,
      the text trimmed, then `parseFloat`. */
  function PercentValue(v: string): Option<real>
  {
    ParseFloat(Trim(ReplaceFirst(ReplaceFirst(v, '%', ""), ',', ".")))
  }

  /** A percentage with a decimal comma, such as `85,5%`, reads as its decimal value. */
  lemma PercentValueDecimal(w: string, f: string)
    requires w != [] && AllDigits(w) && AllDigits(f)
    ensures PercentValue(w + "," + f + "%") == Some(DecimalValue(w, f))
  {
    var c := w + "," + f;
    DigitsHaveNo(w, '%');
    DigitsHaveNo(f, '%');
    assert '%' !in c;
    DropTrailing(c, '%');
    CommaToPoint(w, f);
    DecimalTrimmed(w, f);
    ParseFloatDecimal(w, f);
  }

  lemma DropTrailing(c: string, x: char)
    requires x !in c
    ensures ReplaceFirst(c + [x], x, "") == c
  {
    IndexAfterAbsent(c, x, "");
    assert c + [x] == c + [x] + "";
    assert (c + [x])[..|c|] == c;
  }

  /** Replacing the first comma of `whole,frac` gives `whole.frac`. */
  lemma CommaToPoint(w: string, f: string)
    requires AllDigits(w)
    ensures ReplaceFirst(w + "," + f, ',', ".") == w + "." + f
  {
    var c := w + "," + f;
    DigitsHaveNo(w, ',');
    IndexAfterAbsent(w, ',', f);
    assert c == w + [','] + f;
    assert c[..|w|] == w && c[|w| + 1..] == f;
  }

  lemma DecimalTrimmed(w: string, f: string)
    requires w != [] && AllDigits(w) && AllDigits(f)
    ensures Trim(w + "." + f) == w + "." + f
  {
    var t := w + "." + f;
    assert t[0] == w[0] && (t[|t| - 1] == '.' || IsDigit(t[|t| - 1]));
    TrimOfTrimmed(t);
  }

  /** `formatPercent`: `"--%"` for an empty or unreadable value; otherwise the scaled value
      with two decimals and a `%`, and the number shown is never above 100. */
  function FormatPercent(v: string): (r: string)
    ensures v == "" || PercentValue(v).None? ==> r == "--%"
    ensures v != "" && PercentValue(v).Some? ==>
              |r| >= 1 && r[|r| - 1] == '%' && IsFixed2(r[..|r| - 1]) &&
              ParseNumber(r[..|r| - 1]) == Some(Rounded2(PercentOf(PercentValue(v).value))) &&
              Rounded2(PercentOf(PercentValue(v).value)) <= 100.0
  {
    if v == "" then "--%"
    else
      match PercentValue(v)
      case None => "--%"
      case Some(x) =>
        var t := ToFixed2(PercentOf(x));
        ParseToFixed2(PercentOf(x));
        assert (t + "%")[..|t|] == t;
        t + "%"
  }

  /* ---------- formatHoras ---------- */

  /** `/^\d{1,2}:\d{2}:\d{2}$/`: split at the colons, three digit groups of widths 1-2, 2, 2. */
  predicate HmsShape(t: string)
  {
    var p := Split(t, ':');
    |p| == 3 && 1 <= |p[0]| <= 2 && |p[1]| == 2 && |p[2]| == 2 &&
    AllDigits(p[0]) && AllDigits(p[1]) && AllDigits(p[2])
  }

  /** `/^\d{1,2}:\d{1,2}$/`. */
  predicate HmShape(t: string)
  {
    var p := Split(t, ':');
    |p| == 2 && 1 <= |p[0]| <= 2 && 1 <= |p[1]| <= 2 && AllDigits(p[0]) && AllDigits(p[1])
  }

  /** `/^\d+\.\d+$/`: a fraction of a day such as `0.95`. */
  predicate DayFractionShape(t: string)
  {
    var p := Split(t, '.');
    |p| == 2 && |p[0]| >= 1 && |p[1]| >= 1 && AllDigits(p[0]) && AllDigits(p[1])
  }

  /** Digit groups of widths 1-2, 2 and 2 joined by colons have the `H:MM:SS` shape. */
  lemma HmsShapeOf(a: string, b: string, c: string)
    requires AllDigits(a) && AllDigits(b) && AllDigits(c)
    requires 1 <= |a| <= 2 && |b| == 2 && |c| == 2
    ensures HmsShape(a + ":" + b + ":" + c) && Split(a + ":" + b + ":" + c, ':') == [a, b, c]
  {
    DigitsHaveNo(a, ':');
    DigitsHaveNo(b, ':');
    DigitsHaveNo(c, ':');
    assert a + ":" + b + ":" + c == a + [':'] + (b + [':'] + c);
    SplitThree(a, b, c, ':');
  }

  /** A value of the `H:MM:SS` shape is its three digit groups joined by colons. */
  lemma HmsShapeParts(t: string)
    requires HmsShape(t)
    ensures var p := Split(t, ':'); t == p[0] + ":" + p[1] + ":" + p[2]
  {
    var p := Split(t, ':');
    JoinSplit(t, ':');
    assert Join(p, ':') == Join(p[..2], ':') + [':'] + p[2];
    assert p[..2][..1] == [p[0]];
    assert Join(p[..2], ':') == p[0] + [':'] + p[1];
  }

  /** Digit groups of widths 1-2 joined by a colon have the `H:M` shape. */
  lemma HmShapeOf(a: string, b: string)
    requires AllDigits(a) && AllDigits(b) && 1 <= |a| <= 2 && 1 <= |b| <= 2
    ensures HmShape(a + ":" + b) && Split(a + ":" + b, ':') == [a, b]
  {
    DigitsHaveNo(a, ':');
    DigitsHaveNo(b, ':');
    assert a + ":" + b == a + [':'] + b;
    SplitAround(a, ':', b);
    SplitNoSep(a, ':');
    SplitNoSep(b, ':');
  }

  /** A value of the `H:M` shape is its two digit groups joined by a colon. */
  lemma HmShapeParts(t: string)
    requires HmShape(t)
    ensures var p := Split(t, ':'); t == p[0] + ":" + p[1]
  {
    var p := Split(t, ':');
    JoinSplit(t, ':');
    assert p[..1] == [p[0]];
  }

  /** `String(h).padStart(2,"0") + ":" + String(m).padStart(2,"0") + ":00"`. */
  function Clock(h: int, m: int): string
  {
    PadStart2(IntToString(h)) + ":" + PadStart2(IntToString(m)) + ":00"
  }

  /** `x` read as hours: whole hours and the rest rounded to minutes (`Math.floor`, `Math.round`). */
  function HoursMinutes(x: real): (r: (int, int))
    ensures r.0 == x.Floor
    ensures 0 <= r.1 <= 60
    ensures 60 * r.0 + r.1 == Round(x * 60.0)
  {
    var h := x.Floor;
    var m := Round((x - h as real) * 60.0);
    RoundShift((x - h as real) * 60.0, 60 * h);
    assert (x - h as real) * 60.0 + (60 * h) as real == x * 60.0;
    (h, m)
  }

  lemma RoundShift(a: real, k: int)
    ensures Round(a + k as real) == Round(a) + k
  {
  }

  /** The hours and minutes `formatHoras` computes for a trimmed value that is not already
      `H:MM:SS`, as written: `H:M` is read as it stands, a day fraction is scaled by 24, and
      any other number is hours; None when the text is not a number. */
  function RawHoras(t: string): (r: Option<(int, int)>)
    ensures r.None? <==> !HmShape(t) && ParseFloat(t).None?
    ensures HmShape(t) ==> r == Some((DigitsValue(Split(t, ':')[0]), DigitsValue(Split(t, ':')[1])))
    ensures !HmShape(t) && DayFractionShape(t) && ParseFloat(t).Some? ==>
              r.Some? && r.value.0 == (ParseFloat(t).value * 24.0).Floor
    ensures !HmShape(t) && !DayFractionShape(t) && ParseFloat(t).Some? ==>
              r.Some? && r.value.0 == ParseFloat(t).value.Floor
    ensures !HmShape(t) && DayFractionShape(t) && ParseFloat(t).Some? ==>
              r.Some? && 0 <= r.value.1 <= 60 && 60 * r.value.0 + r.value.1 == Round(ParseFloat(t).value * 1440.0)
    ensures !HmShape(t) && !DayFractionShape(t) && ParseFloat(t).Some? ==>
              r.Some? && 0 <= r.value.1 <= 60 && 60 * r.value.0 + r.value.1 == Round(ParseFloat(t).value * 60.0)
  {
    var p := Split(t, ':');
    if HmShape(t) then Some((DigitsValue(p[0]), DigitsValue(p[1])))
    else if DayFractionShape(t) && ParseFloat(t).Some? then
      var x := ParseFloat(t).value;
      assert x * 24.0 * 60.0 == x * 1440.0;
      Some(HoursMinutes(x * 24.0))
    else
      match ParseFloat(t)
      case None => None
      case Some(x) => Some(HoursMinutes(x))
  }

  /** `formatHoras` exactly as written: the minutes can round up to 60. */
  function FormatHorasAsWritten(v: string): string
  {
    if v == "" then "00:00:00"
    else
      var t := Trim(v);
      if HmsShape(t) then t
      else
        match RawHoras(t)
        case None => "00:00:00"
        case Some((h, m)) => Clock(h, m)
  }

  /** Sixty rounded minutes are one more hour. */
  function Carry(hm: (int, int)): (r: (int, int))
    requires 0 <= hm.1 <= 60
    ensures 0 <= r.1 < 60 && 60 * r.0 + r.1 == 60 * hm.0 + hm.1
  {
    if hm.1 == 60 then (hm.0 + 1, 0) else hm
  }

  /** The hours and minutes of `formatHoras` with the minute carry: the numeric branches read
      the value to the nearest minute. */
  function Horas(t: string): (r: Option<(int, int)>)
    ensures r.None? <==> !HmShape(t) && ParseFloat(t).None?
    ensures HmShape(t) ==> r == RawHoras(t)
    ensures !HmShape(t) && r.Some? ==> 0 <= r.value.1 < 60
    ensures !HmShape(t) && DayFractionShape(t) && ParseFloat(t).Some? ==>
              r.Some? && 60 * r.value.0 + r.value.1 == Round(ParseFloat(t).value * 1440.0)
    ensures !HmShape(t) && !DayFractionShape(t) && ParseFloat(t).Some? ==>
              r.Some? && 60 * r.value.0 + r.value.1 == Round(ParseFloat(t).value * 60.0)
  {
    match RawHoras(t)
    case None => None
    case Some(hm) => if HmShape(t) then Some(hm) else Some(Carry(hm))
  }

  /** `formatHoras`: `"00:00:00"` for an empty or unreadable value, an `H:MM:SS` value
      trimmed and otherwise unchanged, and every other branch ends in `:00`. */
  function FormatHoras(v: string): (r: string)
    ensures v == "" ==> r == "00:00:00"
    ensures v != "" && HmsShape(Trim(v)) ==> r == Trim(v)
    ensures !(v != "" && HmsShape(Trim(v))) ==> |r| >= 3 && r[|r| - 3..] == ":00"
    ensures v != "" && HmShape(Trim(v)) ==>
              var p := Split(Trim(v), ':'); r == Clock(DigitsValue(p[0]), DigitsValue(p[1]))
    ensures v != "" && !HmsShape(Trim(v)) && !HmShape(Trim(v)) && ParseFloat(Trim(v)).None? ==>
              r == "00:00:00"
  {
    if v == "" then "00:00:00"
    else
      var t := Trim(v);
      if HmsShape(t) then t
      else
        match Horas(t)
        case None => "00:00:00"
        case Some((h, m)) => Clock(h, m)
  }

  /** `parseFloat` reads a plain `digits.digits` numeral exactly. */
  lemma ParseFloatDecimal(w: string, f: string)
    requires w != [] && AllDigits(w) && AllDigits(f)
    ensures ParseFloat(w + "." + f) == Some(DecimalValue(w, f))
  {
    var t := w + "." + f;
    assert t[0] == w[0];
    assert TrimStart(t) == t by { assert SkipSpaces(t, 0) == 0; }
    assert SplitSign(t) == (false, t);
    PrefixNumeralDecimal(w, f);
  }

  /** The numeral prefix of `digits.digits` is all of it. */
  lemma PrefixNumeralDecimal(w: string, f: string)
    requires w != [] && AllDigits(w) && AllDigits(f)
    ensures PrefixNumeral(w + "." + f) == Some(DecimalValue(w, f))
  {
    var t := w + "." + f;
    assert t == w + ("." + f);
    LeadingDigitsAppend(w, "." + f);
    assert LeadingDigits("." + f) == 0;
    assert t[|w|] == '.' && t[..|w|] == w && t[|w| + 1..] == f;
    LeadingDigitsAppend(f, "");
    assert f + "" == f && f[..|f|] == f;
  }

  /** A day-fraction value is its two digit groups around the point. */
  lemma DayFractionParts(t: string)
    requires DayFractionShape(t)
    ensures var p := Split(t, '.');
      t == p[0] + "." + p[1] && ParseFloat(t) == Some(DecimalValue(p[0], p[1]))
  {
    var p := Split(t, '.');
    JoinSplit(t, '.');
    assert p[..1] == [p[0]];
    ParseFloatDecimal(p[0], p[1]);
  }

  /** A day fraction is shown as the number of minutes in that fraction of a day, to the
      nearest minute, with fewer than 60 minutes past the hour. */
  lemma DayFractionToNearestMinute(v: string)
    requires v != "" && DayFractionShape(Trim(v))
    ensures var x := ParseFloat(Trim(v)); var hm := Horas(Trim(v));
      && x.Some? && hm.Some? && FormatHoras(v) == Clock(hm.value.0, hm.value.1)
      && 0 <= hm.value.1 < 60 && 60 * hm.value.0 + hm.value.1 == Round(x.value * 1440.0)
  {
    var t := Trim(v);
    DayFractionParts(t);
    SplitNoSep(t, ':');
    assert !HmsShape(t) && !HmShape(t);
    var hm := Horas(t).value;
    assert FormatHoras(v) == Clock(hm.0, hm.1);
  }

  lemma ClockExample()
    ensures Clock(23, 60) == "23:60:00" && Clock(24, 0) == "24:00:00"
  {
    ClockLate();
    ClockMidnight();
  }

  lemma ClockLate()
    ensures Clock(23, 60) == "23:60:00"
  {
    assert NatToString(23) == [DigitChar(2), DigitChar(3)];
    assert NatToString(60) == [DigitChar(6), DigitChar(0)];
    assert IntToString(23) == "23" && IntToString(60) == "60";
  }

  lemma ClockMidnight()
    ensures Clock(24, 0) == "24:00:00"
  {
    assert NatToString(24) == [DigitChar(2), DigitChar(4)];
    assert NatToString(0) == [DigitChar(0)];
    assert IntToString(24) == "24" && IntToString(0) == "0";
  }

  lemma SampleDigits(f: string)
    requires f == "9999"
    ensures AllDigits(f) && DigitsValue(f) == 9999
  {
    assert f[..1][..0] == [] && f[..2][..1] == f[..1] && f[..3][..2] == f[..2] && f[..4][..3] == f[..3] && f[..4] == f;
    assert DigitsValue(f[..1]) == 9;
    assert DigitsValue(f[..2]) == 99;
    assert DigitsValue(f[..3]) == 999;
  }

  /** The sample value `0.9999` reads as 0.9999. */
  lemma SampleValue(t: string)
    requires t == "0.9999"
    ensures Trim(t) == t && ParseFloat(t) == Some(0.9999)
  {
    SampleTrimmed(t);
    SampleParsed(t[..1], t[2..]);
    assert t == t[..1] + "." + t[2..];
  }

  lemma SampleTrimmed(t: string)
    requires t == "0.9999"
    ensures Trim(t) == t
  {
    TrimOfTrimmed(t);
  }

  lemma SampleParsed(w: string, f: string)
    requires w == "0" && f == "9999"
    ensures ParseFloat(w + "." + f) == Some(0.9999)
  {
    SampleDigits(f);
    assert DigitsValue(w) == 0;
    ParseFloatDecimal(w, f);
    assert |f| == 4 && Pow10(4) == 10000;
    calc {
      DecimalValue(w, f);
      DigitsValue(w) as real + DigitsValue(f) as real / Pow10(|f|) as real;
      0.0 + 9999.0 / 10000.0;
      0.9999;
    }
  }

  /** A value without a colon is neither `H:MM:SS` nor `H:M`. */
  lemma NoColonNoClock(t: string)
    requires ':' !in t
    ensures !HmsShape(t) && !HmShape(t)
  {
    SplitNoSep(t, ':');
  }

  /** Two digit groups around a point make a day fraction. */
  lemma DayFractionOf(w: string, f: string)
    requires w != [] && f != [] && AllDigits(w) && AllDigits(f)
    ensures DayFractionShape(w + "." + f)
  {
    assert '.' !in w by { assert forall i :: 0 <= i < |w| ==> IsDigit(w[i]); }
    assert '.' !in f by { assert forall i :: 0 <= i < |f| ==> IsDigit(f[i]); }
    assert w + "." + f == w + ['.'] + f;
    SplitAround(w, '.', f);
    SplitNoSep(w, '.');
    SplitNoSep(f, '.');
  }

  /** The sample value `0.9999` is a day fraction and not a clock time. */
  lemma SampleShape(t: string)
    requires t == "0.9999"
    ensures !HmsShape(t) && !HmShape(t) && DayFractionShape(t)
  {
    var w, f := t[..1], t[2..];
    assert w == "0" && f == "9999" && t == w + "." + f;
    assert ':' !in t;
    NoColonNoClock(t);
    DayFractionOf(w, f);
  }

  /** 0.9999 days are 23.9976 hours: 23 hours and 59.856 minutes. */
  lemma SampleHoursMinutes()
    ensures HoursMinutes(0.9999 * 24.0) == (23, 60)
  {
    var y := 0.9999 * 24.0;
    assert y == 23.9976;
    assert y.Floor == 23;
    assert (y - 23.0) * 60.0 == 59.856;
    assert Round(59.856) == 60 by { assert (59.856 + 0.5).Floor == 60; }
  }

  /** `0.9999` of a day is 23 h 59.856 min: as written the minutes round to 60. */
  lemma MinuteSixtyAsWritten(t: string)
    requires t == "0.9999"
    ensures FormatHorasAsWritten(t) == "23:60:00"
    ensures FormatHoras(t) == "24:00:00"
  {
    SampleValue(t);
    SampleShape(t);
    SampleHoursMinutes();
    assert RawHoras(t) == Some((23, 60));
    assert Horas(t) == Some((24, 0));
    ClockExample();
  }

  /** As written, a day fraction whose leftover minutes round up to 60 prints `60` as its
      minute group. */
  lemma MinuteSixtyAsWrittenAny(v: string)
    requires v != "" && DayFractionShape(Trim(v)) && ParseFloat(Trim(v)).Some?
    requires HoursMinutes(ParseFloat(Trim(v)).value * 24.0).1 == 60
    ensures var h := HoursMinutes(ParseFloat(Trim(v)).value * 24.0).0;
      && FormatHorasAsWritten(v) == Clock(h, 60)
      && Split(FormatHorasAsWritten(v), ':') == [PadStart2(IntToString(h)), "60", "00"]
  {
    var h := MinuteSixtyRaw(v);
    AsWrittenClock(v, (h, 60));
    MinuteGroup(h);
  }

  /** The corrected `formatHoras` carries those 60 minutes into the next hour. */
  lemma MinuteSixtyCarried(v: string)
    requires v != "" && DayFractionShape(Trim(v)) && ParseFloat(Trim(v)).Some?
    requires HoursMinutes(ParseFloat(Trim(v)).value * 24.0).1 == 60
    ensures FormatHoras(v) == Clock(HoursMinutes(ParseFloat(Trim(v)).value * 24.0).0 + 1, 0)
  {
    var h := MinuteSixtyRaw(v);
    CarriedHoras(Trim(v), h);
    CorrectedClock(v, (h + 1, 0));
  }

  /** The raw hours of such a value: its whole hours and 60 minutes. */
  lemma MinuteSixtyRaw(v: string) returns (h: int)
    requires v != "" && DayFractionShape(Trim(v)) && ParseFloat(Trim(v)).Some?
    requires HoursMinutes(ParseFloat(Trim(v)).value * 24.0).1 == 60
    ensures h == HoursMinutes(ParseFloat(Trim(v)).value * 24.0).0
    ensures !HmsShape(Trim(v)) && !HmShape(Trim(v)) && RawHoras(Trim(v)) == Some((h, 60))
  {
    var t := Trim(v);
    DayFractionNotClock(t);
    RawHorasDayFraction(t);
    h := HoursMinutes(ParseFloat(t).value * 24.0).0;
  }

  /** Sixty raw minutes become the next hour in the corrected reading. */
  lemma CarriedHoras(t: string, h: int)
    requires !HmShape(t) && RawHoras(t) == Some((h, 60))
    ensures Horas(t) == Some((h + 1, 0))
  {
  }

  /** As written, a readable value without the `H:MM:SS` shape prints its raw hours and minutes. */
  lemma AsWrittenClock(v: string, hm: (int, int))
    requires v != "" && !HmsShape(Trim(v)) && RawHoras(Trim(v)) == Some(hm)
    ensures FormatHorasAsWritten(v) == Clock(hm.0, hm.1)
  {
  }

  /** Corrected, a readable value without the `H:MM:SS` shape prints its carried hours and minutes. */
  lemma CorrectedClock(v: string, hm: (int, int))
    requires v != "" && !HmsShape(Trim(v)) && Horas(Trim(v)) == Some(hm)
    ensures FormatHoras(v) == Clock(hm.0, hm.1)
  {
  }

  /** A day fraction has neither clock shape. */
  lemma DayFractionNotClock(t: string)
    requires DayFractionShape(t)
    ensures !HmsShape(t) && !HmShape(t)
  {
    DayFractionParts(t);
    SplitNoSep(t, ':');
  }

  /** As written, a day fraction is read as that many days of hours. */
  lemma RawHorasDayFraction(t: string)
    requires !HmShape(t) && DayFractionShape(t) && ParseFloat(t).Some?
    ensures RawHoras(t) == Some(HoursMinutes(ParseFloat(t).value * 24.0))
  {
  }

  /** The groups of `Clock(h, 60)`: the padded hour, `60` and `00`, whatever the hour. */
  lemma MinuteGroup(h: int)
    ensures Split(Clock(h, 60), ':') == [PadStart2(IntToString(h)), "60", "00"]
  {
    var a := PadStart2(IntToString(h));
    var i := IntToString(h);
    if h >= 0 {
      DigitsHaveNo(i, ':');
    } else {
      DigitsHaveNo(i[1..], ':');
      assert i == [i[0]] + i[1..];
    }
    assert ':' !in a;
    assert IntToString(60) == "60" by { ClockLate(); }
    assert Clock(h, 60) == a + [':'] + ("60" + [':'] + "00");
    SplitThree(a, "60", "00", ':');
  }

  /** A number below 100 padded to two places is two digits. */
  lemma PaddedTwo(n: nat)
    requires n < 100
    ensures var a := PadStart2(IntToString(n)); |a| == 2 && AllDigits(a) && ':' !in a && DigitsValue(a) == n
  {
    var s := NatToString(n);
    if n >= 10 {
      assert s == NatToString(n / 10) + [DigitChar(n % 10)];
    }
    var a := PadStart2(s);
    assert a == s || a == "0" + s;
    assert forall i :: 0 <= i < |a| ==> IsDigit(a[i]);
    DigitsOfNat(n);
    if a != s {
      DigitsValueLeadingZero(s);
    }
  }

  /** Hours and minutes below 100 print as an `H:MM:SS` value without surrounding whitespace. */
  lemma ClockIsHms(h: nat, m: nat)
    requires h < 100 && m < 100
    ensures HmsShape(Clock(h, m)) && IsTrimmed(Clock(h, m))
  {
    var a := PadStart2(IntToString(h));
    var b := PadStart2(IntToString(m));
    PaddedTwo(h);
    PaddedTwo(m);
    HmsShapeOf(a, b, "00");
    assert Clock(h, m) == a + ":" + b + ":" + "00";
    DigitsAround(a, ":" + b + ":", "00");
  }

  lemma DigitsAround(a: string, b: string, c: string)
    requires a != [] && c != [] && AllDigits(a) && AllDigits(c)
    ensures IsTrimmed(a + b + c)
  {
    var t := a + b + c;
    assert t[0] == a[0] && t[|t| - 1] == c[|c| - 1];
  }

  /** Reading a printed clock back: its three colon-separated groups are the hours, the
      minutes and `00`. */
  lemma ClockReadBack(h: nat, m: nat)
    requires h < 100 && m < 100
    ensures var p := Split(Clock(h, m), ':');
      |p| == 3 && AllDigits(p[0]) && AllDigits(p[1]) &&
      DigitsValue(p[0]) == h && DigitsValue(p[1]) == m && p[2] == "00"
  {
    var a := PadStart2(IntToString(h));
    var b := PadStart2(IntToString(m));
    PaddedTwo(h);
    PaddedTwo(m);
    assert Clock(h, m) == a + [':'] + (b + [':'] + "00");
    SplitThree(a, b, "00", ':');
  }

  /** An `H:M` value is normalised to `HH:MM:00`, which `formatHoras` then keeps as it is. */
  lemma HmNormalised(v: string)
    requires v != "" && HmShape(Trim(v))
    ensures HmsShape(FormatHoras(v))
    ensures var p := Split(Trim(v), ':'); var q := Split(FormatHoras(v), ':');
      DigitsValue(q[0]) == DigitsValue(p[0]) && DigitsValue(q[1]) == DigitsValue(p[1]) && q[2] == "00"
    ensures FormatHoras(FormatHoras(v)) == FormatHoras(v)
  {
    var t := Trim(v);
    var p := Split(t, ':');
    DigitsValueBound(p[0]);
    DigitsValueBound(p[1]);
    assert Pow10(2) == 100 && Pow10(1) == 10;
    var h, m := DigitsValue(p[0]), DigitsValue(p[1]);
    assert Horas(t) == Some((h, m));
    var r := Clock(h, m);
    assert FormatHoras(v) == r;
    ClockIsHms(h, m);
    ClockReadBack(h, m);
    TrimOfTrimmed(r);
  }
}
