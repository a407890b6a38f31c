/**
 * The slice of JavaScript's number handling the dashboard script relies on, over exact
 * decimal values (`real`): `Number(s)` (the whole string must be a numeral), `parseFloat`
 * (the longest numeral prefix), `parseInt(s, 10)`, `Math.round` and `toFixed(2)`.
 * Numerals are decimal: an optional sign, digits, an optional fraction.
 */
module Numbers {
  import opened Wrappers
  import opened Text

  function Pow10(n: nat): (r: nat)
    ensures r >= 1
  {
    if n == 0 then 1 else 10 * Pow10(n - 1)
  }

  /** How many decimal digits `s` starts with. */
  function LeadingDigits(s: string): (n: nat)
    ensures n <= |s| && AllDigits(s[..n])
    ensures n == |s| || !IsDigit(s[n])
  {
    if s != [] && IsDigit(s[0]) then
      var k := LeadingDigits(s[1..]);
      assert s[..k + 1] == [s[0]] + s[1..][..k];
      1 + k
    else 0
  }

  lemma {:induction false} LeadingDigitsAppend(a: string, b: string)
    requires AllDigits(a)
    ensures LeadingDigits(a + b) == |a| + LeadingDigits(b)
  {
    if a != [] {
      assert (a + b)[1..] == a[1..] + b;
      LeadingDigitsAppend(a[1..], b);
    } else {
      assert a + b == b;
    }
  }

  /** The exact value of the numeral `whole.frac`. */
  function DecimalValue(whole: string, frac: string): real
    requires AllDigits(whole) && AllDigits(frac)
  {
    DigitsValue(whole) as real + DigitsValue(frac) as real / Pow10(|frac|) as real
  }

  /** Splits off one leading `-` or `+`. */
  function SplitSign(t: string): (r: (bool, string))
    ensures |r.1| <= |t|
  {
    if |t| > 0 && t[0] == '-' then (true, t[1..])
    else if |t| > 0 && t[0] == '+' then (false, t[1..])
    else (false, t)
  }

  /** An unsigned numeral filling all of `b`: digits, or digits, a point and optional digits,
      or a point and digits. */
  function WholeNumeral(b: string): Option<real>
  {
    var i := LeadingDigits(b);
    if i == |b| then
      if i > 0 then Some(DigitsValue(b) as real) else None
    else if b[i] != '.' then None
    else
      var f := b[i + 1..];
      if AllDigits(f) && (i > 0 || |f| > 0) then Some(DecimalValue(b[..i], f)) else None
  }

  /** The longest unsigned numeral that `b` starts with. */
  function PrefixNumeral(b: string): Option<real>
  {
    var i := LeadingDigits(b);
    if i < |b| && b[i] == '.' then
      var j := LeadingDigits(b[i + 1..]);
      if i > 0 || j > 0 then Some(DecimalValue(b[..i], b[i + 1..][..j])) else None
    else if i > 0 then Some(DigitsValue(b[..i]) as real)
    else None
  }

  function Negate(neg: bool, x: real): real { if neg then -x else x }

  /** `Number(s)` on a string: surrounding whitespace is ignored, a blank string is 0, and
      otherwise the whole string must be a signed numeral; None stands for `NaN`. */
  function ParseNumber(s: string): Option<real>
  {
    var t := Trim(s);
    if t == [] then Some(0.0)
    else
      var (neg, body) := SplitSign(t);
      match WholeNumeral(body)
      case None => None
      case Some(x) => Some(Negate(neg, x))
  }

  /** `parseFloat(s)`: leading whitespace is skipped, then the longest signed numeral prefix
      is read; None stands for `NaN`. */
  function ParseFloat(s: string): Option<real>
  {
    var (neg, body) := SplitSign(TrimStart(s));
    match PrefixNumeral(body)
    case None => None
    case Some(x) => Some(Negate(neg, x))
  }

  /** `parseInt(s, 10)`: leading whitespace, an optional sign, then at least one digit. */
  function ParseInt(s: string): (r: Option<int>)
  {
    var (neg, body) := SplitSign(TrimStart(s));
    var i := LeadingDigits(body);
    if i == 0 then None
    else
      var v: int := DigitsValue(body[..i]);
      Some(if neg then -v else v)
  }

  /** `Math.round(x)`: the nearest integer, halves going up. */
  function Round(x: real): (r: int)
    ensures x - 0.5 < r as real <= x + 0.5
  {
    (x + 0.5).Floor
  }

  function Abs(x: real): real { if x < 0.0 then -x else x }

  /** The integer `toFixed(2)` prints for `|x|`: hundredths, halves rounded away from zero. */
  function Hundredths(x: real): (n: nat)
    ensures Abs(x) * 100.0 - 0.5 < n as real <= Abs(x) * 100.0 + 0.5
  {
    Round(Abs(x) * 100.0)
  }

  /** The value `toFixed(2)` prints for `x`, read exactly. */
  function Rounded2(x: real): (r: real)
    ensures Abs(r - x) <= 0.005
    ensures x <= 100.0 ==> r <= 100.0
  {
    var v := Hundredths(x) as real / 100.0;
    if x < 0.0 then -v else v
  }

  /** A fixed-point numeral with two decimals: optional `-`, at least one digit, `.`, two digits. */
  predicate IsFixed2(r: string)
  {
    var body := if |r| > 0 && r[0] == '-' then r[1..] else r;
    |body| >= 4 && AllDigits(body[..|body| - 3]) && body[|body| - 3] == '.' && AllDigits(body[|body| - 2..])
  }

  function TwoDigits(k: nat): (r: string)
    requires k < 100
    ensures |r| == 2 && AllDigits(r) && DigitsValue(r) == k
  {
    var r := [DigitChar(k / 10), DigitChar(k % 10)];
    assert r[..1] == [DigitChar(k / 10)];
    assert r[..1][..0] == [];
    assert DigitsValue(r[..1]) == k / 10;
    r
  }

  /** `x.toFixed(2)`: a minus sign for negative `x`, then `|x|` rounded to hundredths. */
  function ToFixed2(x: real): (r: string)
    ensures IsFixed2(r)
  {
    var n := Hundredths(x);
    var body := NatToString(n / 100) + "." + TwoDigits(n % 100);
    assert body[..|body| - 3] == NatToString(n / 100);
    assert body[|body| - 2..] == TwoDigits(n % 100);
    if x < 0.0 then "-" + body else body
  }

  /** The numeral a digit string followed by a point and two digits denotes. */
  lemma WholeNumeralFixed(q: nat, k: nat)
    requires k < 100
    ensures WholeNumeral(NatToString(q) + "." + TwoDigits(k)) == Some((q * 100 + k) as real / 100.0)
  {
    var w := NatToString(q);
    var b := w + "." + TwoDigits(k);
    assert b == w + ("." + TwoDigits(k));
    LeadingDigitsAppend(w, "." + TwoDigits(k));
    assert LeadingDigits(b) == |w|;
    assert b[..|w|] == w;
    assert b[|w| + 1..] == TwoDigits(k);
    DigitsOfNat(q);
  }

  /** `Number` on a signed numeral without surrounding whitespace reads the sign and the numeral. */
  lemma ParseSigned(neg: bool, body: string)
    requires |body| > 0 && IsDigit(body[0]) && IsDigit(body[|body| - 1])
    ensures ParseNumber((if neg then "-" else "") + body)
      == match WholeNumeral(body) case None => None case Some(x) => Some(Negate(neg, x))
  {
    var r := (if neg then "-" else "") + body;
    assert r[|r| - 1] == body[|body| - 1];
    assert !IsSpace(r[0]) && !IsSpace(r[|r| - 1]);
    TrimOfTrimmed(r);
    assert Trim(r) == r;
    var split := SplitSign(r);
    if neg {
      assert r[1..] == body;
      assert split == (true, body);
    } else {
      assert r == body;
      assert split == (false, body);
    }
  }

  /** Reading back what `toFixed(2)` prints gives `x` rounded to hundredths. */
  lemma ParseToFixed2(x: real)
    ensures ParseNumber(ToFixed2(x)) == Some(Rounded2(x))
  {
    var n := Hundredths(x);
    var body := NatToString(n / 100) + "." + TwoDigits(n % 100);
    Fixed2Body(n);
    ParseSigned(x < 0.0, body);
    assert ToFixed2(x) == (if x < 0.0 then "-" else "") + body;
  }

  /** The unsigned part of what `toFixed(2)` prints for `n` hundredths reads as `n / 100`. */
  lemma Fixed2Body(n: nat)
    ensures var body := NatToString(n / 100) + "." + TwoDigits(n % 100);
      |body| > 0 && IsDigit(body[0]) && IsDigit(body[|body| - 1]) &&
      WholeNumeral(body) == Some(n as real / 100.0)
  {
    var q, k := n / 100, n % 100;
    var w := NatToString(q);
    var body := w + "." + TwoDigits(k);
    WholeNumeralFixed(q, k);
    assert q * 100 + k == n;
    assert body[0] == w[0];
    assert body[|body| - 1] == TwoDigits(k)[1];
  }

  /** A plain digit string is a whole numeral worth its digit value. */
  lemma WholeNumeralDigits(s: string)
    requires s != [] && AllDigits(s)
    ensures WholeNumeral(s) == Some(DigitsValue(s) as real)
  {
    LeadingDigitsAppend(s, "");
    assert s + "" == s;
  }

  /** Reading back the decimal string of an integer gives the integer. */
  lemma ParseIntToString(i: int)
    ensures ParseNumber(IntToString(i)) == Some(i as real)
  {
    var m: nat := if i < 0 then -i else i;
    var digits := NatToString(m);
    DigitsOfNat(m);
    WholeNumeralDigits(digits);
    assert IsDigit(digits[0]) && IsDigit(digits[|digits| - 1]);
    ParseSigned(i < 0, digits);
    assert IntToString(i) == (if i < 0 then "-" else "") + digits;
    assert Negate(i < 0, m as real) == i as real;
  }

  /** `Number` of a blank text is 0. */
  lemma ParseNumberBlank(s: string)
    requires AllSpace(s)
    ensures ParseNumber(s) == Some(0.0)
  {
    TrimEmptyIffBlank(s);
  }

  /** `Number` needs all of the text to be a numeral: text ending in anything other than a
      digit or a point is `NaN`, as for `12 kg`. */
  lemma ParseNumberTrailing(s: string)
    requires var t := Trim(s); t != [] && !IsDigit(t[|t| - 1]) && t[|t| - 1] != '.'
    ensures ParseNumber(s).None?
  {
    var t := Trim(s);
    var b := SplitSign(t).1;
    assert b == [] || b[|b| - 1] == t[|t| - 1];
    if b != [] {
      WholeNumeralTrailing(b);
    }
  }

  lemma WholeNumeralTrailing(b: string)
    requires b != [] && !IsDigit(b[|b| - 1]) && b[|b| - 1] != '.'
    ensures WholeNumeral(b).None?
  {
    var i := LeadingDigits(b);
    assert i < |b|;
    if b[i] == '.' {
      var f := b[i + 1..];
      assert f != [] && f[|f| - 1] == b[|b| - 1];
    }
  }

  /** `parseFloat` of a blank text is `NaN`, unlike `Number`. */
  lemma ParseFloatBlank(s: string)
    requires AllSpace(s)
    ensures ParseFloat(s).None?
  {
    assert TrimStart(s) == [];
  }

  /** `parseFloat` reads the longest numeral prefix: digits followed by something other than
      a digit or a point read as those digits, as `12 kg` reads as 12. */
  lemma ParseFloatPrefix(w: string, rest: string)
    requires w != [] && AllDigits(w)
    requires rest == [] || (!IsDigit(rest[0]) && rest[0] != '.')
    ensures ParseFloat(w + rest) == Some(DigitsValue(w) as real)
  {
    var t := w + rest;
    assert t[0] == w[0] && IsDigit(t[0]);
    assert TrimStart(t) == t by { assert SkipSpaces(t, 0) == 0; }
    assert SplitSign(t) == (false, t);
    LeadingDigitsAppend(w, rest);
    assert t[..|w|] == w;
  }

  lemma {:induction false} DigitsValueBound(s: string)
    requires AllDigits(s)
    ensures DigitsValue(s) < Pow10(|s|)
  {
    if s != [] {
      DigitsValueBound(s[..|s| - 1]);
    }
  }

  /** The whole part of `whole.frac` is `whole`. */
  lemma DecimalFloor(whole: string, frac: string)
    requires AllDigits(whole) && AllDigits(frac)
    ensures DecimalValue(whole, frac).Floor == DigitsValue(whole)
  {
    DigitsValueBound(frac);
    FractionBelowOne(DigitsValue(frac) as real, Pow10(|frac|) as real);
  }

  lemma FractionBelowOne(n: real, d: real)
    requires 0.0 <= n < d
    ensures 0.0 <= n / d < 1.0
  {
  }

  /** `parseInt` reads the integer part of the numeral `parseFloat` reads: it truncates the
      same value toward zero. */
  lemma ParseIntTruncatesParseFloat(s: string)
    requires ParseInt(s).Some?
    ensures ParseFloat(s).Some?
    ensures var x := ParseFloat(s).value;
      ParseInt(s).value == if x >= 0.0 then x.Floor else -((-x).Floor)
  {
    var (neg, b) := SplitSign(TrimStart(s));
    var i := LeadingDigits(b);
    var w := b[..i];
    var v := DigitsValue(w);
    var val: real;
    if i < |b| && b[i] == '.' {
      var f := b[i + 1..][..LeadingDigits(b[i + 1..])];
      DecimalFloor(w, f);
      val := DecimalValue(w, f);
    } else {
      val := v as real;
    }
    assert PrefixNumeral(b) == Some(val) && val >= 0.0 && val.Floor == v;
  }
}
