/**
 * String primitives with the meaning JavaScript gives them in the dashboard script:
 * `trim`, the `\s` class, `split` on one character, `join`, `indexOf`-style search,
 * ASCII lower-casing and decimal digit strings.
 */
module Text {

  /** The code points JavaScript's `trim` removes and the regular-expression class `\s`
      matches: WhiteSpace (tab, vertical tab, form feed, space, no-break space, the byte
      order mark and the other Zs separators) and LineTerminator (LF, CR, LS, PS). */
  predicate IsSpace(c: char) {
    var n := c as int;
    n == 0x09 || n == 0x0A || n == 0x0B || n == 0x0C || n == 0x0D || n == 0x20 || n == 0xA0
    || n == 0x1680 || (0x2000 <= n <= 0x200A) || n == 0x2028 || n == 0x2029 || n == 0x202F
    || n == 0x205F || n == 0x3000 || n == 0xFEFF
  }

  predicate IsDigit(c: char) { '0' <= c <= '9' }

  predicate AllDigits(s: string) { forall i :: 0 <= i < |s| ==> IsDigit(s[i]) }

  predicate AllSpace(s: string) { forall i :: 0 <= i < |s| ==> IsSpace(s[i]) }

  /** No whitespace at either end: what `trim` leaves behind. */
  predicate IsTrimmed(s: string) {
    s == [] || (!IsSpace(s[0]) && !IsSpace(s[|s| - 1]))
  }

  /** The first position at or after `i` that does not hold whitespace (or `|s|`). */
  function SkipSpaces(s: string, i: nat): (k: nat)
    requires i <= |s|
    ensures i <= k <= |s|
    ensures k == |s| || !IsSpace(s[k])
    decreases |s| - i
  {
    if i < |s| && IsSpace(s[i]) then SkipSpaces(s, i + 1) else i
  }

  /** The end of `s[lo..j]` once its trailing whitespace is dropped. */
  function BackSpaces(s: string, lo: nat, j: nat): (k: nat)
    requires lo <= j <= |s|
    ensures lo <= k <= j
    ensures k == lo || !IsSpace(s[k - 1])
  {
    if j > lo && IsSpace(s[j - 1]) then BackSpaces(s, lo, j - 1) else j
  }

  /** `SkipSpaces` passes over whitespace only. */
  lemma {:induction false} SkipSpacesSkipsSpace(s: string, i: nat)
    requires i <= |s|
    ensures forall p :: i <= p < SkipSpaces(s, i) ==> IsSpace(s[p])
    decreases |s| - i
  {
    if i < |s| && IsSpace(s[i]) {
      SkipSpacesSkipsSpace(s, i + 1);
    }
  }

  /** `BackSpaces` passes over whitespace only. */
  lemma {:induction false} BackSpacesSkipsSpace(s: string, lo: nat, j: nat)
    requires lo <= j <= |s|
    ensures forall p :: BackSpaces(s, lo, j) <= p < j ==> IsSpace(s[p])
  {
    if j > lo && IsSpace(s[j - 1]) {
      BackSpacesSkipsSpace(s, lo, j - 1);
    }
  }

  /** `BackSpaces` stops before the last non-space of `s[lo..j]` when `s[lo]` is not a space. */
  lemma {:induction false} BackSpacesKeepsFirst(s: string, lo: nat, j: nat)
    requires lo < j <= |s| && !IsSpace(s[lo])
    ensures BackSpaces(s, lo, j) > lo
  {
    if j - 1 > lo && IsSpace(s[j - 1]) {
      BackSpacesKeepsFirst(s, lo, j - 1);
    }
  }

  /** Drops leading whitespace (what `parseFloat` and `parseInt` skip). */
  function TrimStart(s: string): (r: string)
    ensures |r| <= |s|
  {
    s[SkipSpaces(s, 0)..]
  }

  /** JavaScript's `String.prototype.trim`. */
  function Trim(s: string): (r: string)
    ensures IsTrimmed(r)
    ensures |r| <= |s|
    ensures exists a, b :: 0 <= a <= b <= |s| && r == s[a..b] && AllSpace(s[..a]) && AllSpace(s[b..])
  {
    var a := SkipSpaces(s, 0);
    var b := BackSpaces(s, a, |s|);
    SkipSpacesSkipsSpace(s, 0);
    BackSpacesSkipsSpace(s, a, |s|);
    assert AllSpace(s[..a]) && AllSpace(s[b..]);
    s[a..b]
  }

  /** A string without whitespace at its ends is its own trim. */
  lemma TrimOfTrimmed(s: string)
    requires IsTrimmed(s)
    ensures Trim(s) == s
  {
    if s != [] {
      assert SkipSpaces(s, 0) == 0;
      assert BackSpaces(s, 0, |s|) == |s|;
    }
  }

  /** Trimming keeps a contiguous piece of the string, so it adds no character. */
  lemma TrimFrom(s: string)
    ensures forall i :: 0 <= i < |Trim(s)| ==> Trim(s)[i] in s
  {
    var a := SkipSpaces(s, 0);
    var b := BackSpaces(s, a, |s|);
    forall i | 0 <= i < |Trim(s)| ensures Trim(s)[i] in s {
      assert Trim(s)[i] == s[a + i];
    }
  }

  /** Trimming twice is trimming once. */
  lemma TrimIdempotent(s: string)
    ensures Trim(Trim(s)) == Trim(s)
  {
    TrimOfTrimmed(Trim(s));
  }

  /** A string trims to nothing exactly when every character in it is whitespace. */
  lemma TrimEmptyIffBlank(s: string)
    ensures Trim(s) == [] <==> AllSpace(s)
  {
    var a := SkipSpaces(s, 0);
    SkipSpacesSkipsSpace(s, 0);
    if a < |s| {
      BackSpacesKeepsFirst(s, a, |s|);
    }
  }

  /** Number of occurrences of `c` in `s`. */
  function Count(s: string, c: char): nat
  {
    if s == [] then 0
    else Count(s[..|s| - 1], c) + (if s[|s| - 1] == c then 1 else 0)
  }

  /** `s` with every occurrence of `c` deleted (`replace(/c/g, "")`). */
  function RemoveAll(s: string, c: char): (r: string)
    ensures c !in r
    ensures |r| == |s| - Count(s, c)
    ensures c !in s ==> r == s
  {
    if s == [] then []
    else
      var prev := RemoveAll(s[..|s| - 1], c);
      assert c !in s ==> c !in s[..|s| - 1];
      assert s == s[..|s| - 1] + [s[|s| - 1]];
      if s[|s| - 1] == c then prev else prev + [s[|s| - 1]]
  }

  /** Deleting a character keeps every other character absent that was absent. */
  lemma RemoveAllKeepsAbsent(s: string, c: char, d: char)
    requires d !in s
    ensures d !in RemoveAll(s, c)
  {
    RemoveAllFrom(s, c);
  }

  /** Every character left after a deletion was in the original string. */
  lemma {:induction false} RemoveAllFrom(s: string, c: char)
    ensures forall i :: 0 <= i < |RemoveAll(s, c)| ==> RemoveAll(s, c)[i] in s
  {
    if s != [] {
      var p := s[..|s| - 1];
      RemoveAllFrom(p, c);
      assert forall x :: x in p ==> x in s;
    }
  }

  /** Deleting a character distributes over concatenation. */
  lemma {:induction false} RemoveAllAppend(a: string, b: string, c: char)
    ensures RemoveAll(a + b, c) == RemoveAll(a, c) + RemoveAll(b, c)
  {
    if b == [] {
      assert a + b == a;
    } else {
      var p := b[..|b| - 1];
      assert (a + b)[..|a + b| - 1] == a + p;
      RemoveAllAppend(a, p, c);
    }
  }

  /** `s` with every character of `cs` deleted and the others kept in order. */
  function Without(s: string, cs: set<char>): (r: string)
    ensures forall i :: 0 <= i < |r| ==> r[i] in s && r[i] !in cs
    ensures (forall i :: 0 <= i < |s| ==> s[i] !in cs) ==> r == s
  {
    if s == [] then []
    else
      var p := s[..|s| - 1];
      var prev := Without(p, cs);
      assert forall x :: x in p ==> x in s;
      assert s == p + [s[|s| - 1]];
      if s[|s| - 1] in cs then prev else prev + [s[|s| - 1]]
  }

  /** Deleting a set of characters distributes over concatenation. */
  lemma {:induction false} WithoutAppend(a: string, b: string, cs: set<char>)
    ensures Without(a + b, cs) == Without(a, cs) + Without(b, cs)
  {
    if b == [] {
      assert a + b == a;
    } else {
      var p := b[..|b| - 1];
      assert (a + b)[..|a + b| - 1] == a + p;
      WithoutAppend(a, p, cs);
    }
  }

  /** Deleting one character is deleting the set holding it. */
  lemma {:induction false} RemoveAllIsWithout(s: string, c: char)
    ensures RemoveAll(s, c) == Without(s, {c})
  {
    if s != [] {
      RemoveAllIsWithout(s[..|s| - 1], c);
    }
  }

  /** Deleting the characters of `xs` and then those of `ys` deletes those of `xs + ys`. */
  lemma {:induction false} WithoutWithout(s: string, xs: set<char>, ys: set<char>)
    ensures Without(Without(s, xs), ys) == Without(s, xs + ys)
  {
    if s != [] {
      var p := s[..|s| - 1];
      var c := s[|s| - 1];
      WithoutWithout(p, xs, ys);
      var w := Without(p, xs);
      if c !in xs {
        assert (w + [c])[..|w|] == w;
      }
    }
  }

  /** The characters of `s` that are not whitespace, in order. */
  function Visible(s: string): (r: string)
    ensures forall i :: 0 <= i < |r| ==> !IsSpace(r[i])
  {
    if s == [] then []
    else
      var prev := Visible(s[..|s| - 1]);
      if IsSpace(s[|s| - 1]) then prev else prev + [s[|s| - 1]]
  }

  /** Keeping the non-whitespace distributes over concatenation. */
  lemma {:induction false} VisibleAppend(a: string, b: string)
    ensures Visible(a + b) == Visible(a) + Visible(b)
  {
    if b == [] {
      assert a + b == a;
    } else {
      var p := b[..|b| - 1];
      assert (a + b)[..|a + b| - 1] == a + p;
      VisibleAppend(a, p);
    }
  }

  /** A string of whitespace has nothing visible. */
  lemma {:induction false} VisibleOfSpace(s: string)
    requires AllSpace(s)
    ensures Visible(s) == []
  {
    if s != [] {
      VisibleOfSpace(s[..|s| - 1]);
    }
  }

  /** Trimming deletes whitespace only: the visible characters stay, in order. */
  lemma TrimKeepsVisible(s: string)
    ensures Visible(Trim(s)) == Visible(s)
  {
    var a := SkipSpaces(s, 0);
    var b := BackSpaces(s, a, |s|);
    SkipSpacesSkipsSpace(s, 0);
    BackSpacesSkipsSpace(s, a, |s|);
    var x, y, z := s[..a], s[a..b], s[b..];
    assert s == x + y + z;
    VisibleOfPadded(x, y, z);
  }

  /** Whitespace around a string adds nothing visible. */
  lemma VisibleOfPadded(x: string, y: string, z: string)
    requires AllSpace(x) && AllSpace(z)
    ensures Visible(x + y + z) == Visible(y)
  {
    VisibleAppend(x + y, z);
    VisibleAppend(x, y);
    VisibleOfSpace(x);
    VisibleOfSpace(z);
  }

  /** Deleting whitespace characters does not change what is visible. */
  lemma {:induction false} VisibleWithoutSpaces(s: string, cs: set<char>)
    requires forall c :: c in cs ==> IsSpace(c)
    ensures Visible(Without(s, cs)) == Visible(s)
  {
    if s != [] {
      var p := s[..|s| - 1];
      var c := s[|s| - 1];
      VisibleWithoutSpaces(p, cs);
      var w := Without(p, cs);
      if c !in cs {
        assert (w + [c])[..|w|] == w;
      }
    }
  }

  /** Deleting a set of characters commutes with keeping the visible ones. */
  lemma {:induction false} VisibleWithout(s: string, cs: set<char>)
    ensures Visible(Without(s, cs)) == Without(Visible(s), cs)
  {
    if s != [] {
      var p := s[..|s| - 1];
      var c := s[|s| - 1];
      VisibleWithout(p, cs);
      var w := Without(p, cs);
      var v := Visible(p);
      if c !in cs {
        assert (w + [c])[..|w|] == w;
      }
      if !IsSpace(c) {
        assert (v + [c])[..|v|] == v;
      }
    }
  }

  /** The position of the first `c` in `s`, or `|s|` when there is none (`indexOf`). */
  function IndexOf(s: string, c: char): (i: nat)
    ensures i <= |s| && c !in s[..i]
    ensures i < |s| ==> s[i] == c
    ensures i == |s| <==> c !in s
  {
    if s == [] then 0
    else if s[0] == c then 0
    else
      var k := IndexOf(s[1..], c);
      assert s[..k + 1] == [s[0]] + s[1..][..k];
      1 + k
  }

  /** `s` with its first occurrence of `c` replaced by `d` (`replace` with a one-character string pattern). */
  function ReplaceFirst(s: string, c: char, d: string): (r: string)
    ensures c !in s ==> r == s
    ensures c in s ==> |r| == |s| - 1 + |d|
    ensures c in s ==> var i := IndexOf(s, c);
      c !in r[..i] && r[..i] == s[..i] && r[i..i + |d|] == d && r[i + |d|..] == s[i + 1..]
  {
    var i := IndexOf(s, c);
    if i == |s| then s else s[..i] + d + s[i + 1..]
  }

  /** ASCII-only lower-casing: `A`..`Z` become `a`..`z`, everything else is kept. */
  function LowerAscii(s: string): (r: string)
    ensures |r| == |s|
    ensures forall i :: 0 <= i < |r| ==> !('A' <= r[i] <= 'Z')
    ensures forall i :: 0 <= i < |s| && !('A' <= s[i] <= 'Z') ==> r[i] == s[i]
    ensures forall i :: 0 <= i < |s| && 'A' <= s[i] <= 'Z' ==> 'a' <= r[i] <= 'z' && r[i] as int - s[i] as int == 32
  {
    seq(|s|, i requires 0 <= i < |s| => if 'A' <= s[i] <= 'Z' then (s[i] as int + 32) as char else s[i])
  }

  predicate StartsWith(s: string, prefix: string) {
    |prefix| <= |s| && s[..|prefix|] == prefix
  }

  /** `s.includes(sub)`. */
  predicate Contains(s: string, sub: string)
  {
    StartsWith(s, sub) || (|s| > 0 && Contains(s[1..], sub))
  }

  /** `sub` occurs in `s` at position `k`. */
  predicate OccursAt(s: string, sub: string, k: int)
  {
    0 <= k && k + |sub| <= |s| && s[k..k + |sub|] == sub
  }

  /** `includes` finds `sub` exactly when it occurs at some position of `s`. */
  lemma ContainsIffOccurs(s: string, sub: string)
    ensures Contains(s, sub) <==> exists k :: OccursAt(s, sub, k)
  {
    if Contains(s, sub) {
      var k := ContainsOccurs(s, sub);
    }
    if exists k :: OccursAt(s, sub, k) {
      var k :| OccursAt(s, sub, k);
      OccursContains(s, sub, k);
    }
  }

  lemma {:induction false} ContainsOccurs(s: string, sub: string) returns (k: int)
    requires Contains(s, sub)
    ensures OccursAt(s, sub, k)
  {
    if StartsWith(s, sub) {
      k := 0;
    } else {
      var j := ContainsOccurs(s[1..], sub);
      assert s[1..][j..j + |sub|] == s[j + 1..j + 1 + |sub|];
      k := j + 1;
    }
  }

  lemma {:induction false} OccursContains(s: string, sub: string, k: int)
    requires OccursAt(s, sub, k)
    ensures Contains(s, sub)
    decreases k
  {
    if k > 0 {
      assert s[1..][k - 1..k - 1 + |sub|] == s[k..k + |sub|];
      OccursContains(s[1..], sub, k - 1);
    }
  }

  /** `s.split(sep)` for a one-character separator: the pieces between separators, left to right. */
  function Split(s: string, sep: char): (r: seq<string>)
    ensures |r| == 1 + Count(s, sep)
    ensures forall i :: 0 <= i < |r| ==> sep !in r[i]
  {
    if s == [] then [""]
    else
      var prev := Split(s[..|s| - 1], sep);
      if s[|s| - 1] == sep then prev + [""]
      else prev[..|prev| - 1] + [prev[|prev| - 1] + [s[|s| - 1]]]
  }

  /** `pieces.join(sep)`. */
  function Join(pieces: seq<string>, sep: char): string
  {
    if |pieces| == 0 then ""
    else if |pieces| == 1 then pieces[0]
    else Join(pieces[..|pieces| - 1], sep) + [sep] + pieces[|pieces| - 1]
  }

  /** Extending the last piece extends the joined string. */
  lemma JoinExtendLast(pieces: seq<string>, sep: char, c: char)
    requires |pieces| >= 1
    ensures Join(pieces[..|pieces| - 1] + [pieces[|pieces| - 1] + [c]], sep) == Join(pieces, sep) + [c]
  {
    var q := pieces[..|pieces| - 1] + [pieces[|pieces| - 1] + [c]];
    if |pieces| > 1 {
      assert q[..|q| - 1] == pieces[..|pieces| - 1];
    }
  }

  /** Joining the pieces back with the separator gives the original string. */
  lemma {:induction false} JoinSplit(s: string, sep: char)
    ensures Join(Split(s, sep), sep) == s
  {
    if s != [] {
      var p := s[..|s| - 1];
      JoinSplit(p, sep);
      var prev := Split(p, sep);
      if s[|s| - 1] == sep {
        assert (prev + [""])[..|prev|] == prev;
      } else {
        JoinExtendLast(prev, sep, s[|s| - 1]);
      }
      assert s == p + [s[|s| - 1]];
    }
  }

  /** Appending one character either starts a new piece or extends the last one. */
  lemma SplitSnoc(s: string, sep: char, c: char)
    ensures var p := Split(s, sep);
      Split(s + [c], sep) == if c == sep then p + [""] else p[..|p| - 1] + [p[|p| - 1] + [c]]
  {
    assert (s + [c])[..|s|] == s;
  }

  /** Splitting a string with one separator in the middle splits each side. */
  lemma {:induction false} SplitAround(a: string, sep: char, b: string)
    ensures Split(a + [sep] + b, sep) == Split(a, sep) + Split(b, sep)
  {
    if b == [] {
      SplitSnoc(a, sep, sep);
      assert a + [sep] + b == a + [sep];
    } else {
      var b' := b[..|b| - 1];
      var c := b[|b| - 1];
      var s' := a + [sep] + b';
      assert a + [sep] + b == s' + [c];
      assert b == b' + [c];
      SplitAround(a, sep, b');
      SplitSnoc(s', sep, c);
      SplitSnoc(b', sep, c);
      SplitExtend(Split(a, sep), Split(b', sep), sep, c);
    }
  }

  lemma SplitExtend(left: seq<string>, right: seq<string>, sep: char, c: char)
    requires |right| >= 1
    ensures var p := left + right;
      (if c == sep then p + [""] else p[..|p| - 1] + [p[|p| - 1] + [c]])
      == left + (if c == sep then right + [""] else right[..|right| - 1] + [right[|right| - 1] + [c]])
  {
    var p := left + right;
    if c != sep {
      assert p[..|p| - 1] == left + right[..|right| - 1];
    }
  }

  /** A string without the separator is one piece. */
  lemma {:induction false} SplitNoSep(s: string, sep: char)
    requires sep !in s
    ensures Split(s, sep) == [s]
  {
    if s != [] {
      assert sep !in s[..|s| - 1];
      SplitNoSep(s[..|s| - 1], sep);
      assert s[..|s| - 1] + [s[|s| - 1]] == s;
    }
  }

  /** Three pieces joined by the separator split back into those pieces. */
  lemma SplitThree(a: string, b: string, c: string, sep: char)
    requires sep !in a && sep !in b && sep !in c
    ensures Split(a + [sep] + (b + [sep] + c), sep) == [a, b, c]
  {
    SplitAround(a, sep, b + [sep] + c);
    SplitAround(b, sep, c);
    SplitNoSep(a, sep);
    SplitNoSep(b, sep);
    SplitNoSep(c, sep);
  }

  /** A digit string holds no character other than digits. */
  lemma DigitsHaveNo(s: string, c: char)
    requires AllDigits(s) && !IsDigit(c)
    ensures c !in s
  {
    assert forall i :: 0 <= i < |s| ==> s[i] != c;
  }

  function DigitChar(d: nat): char
    requires d < 10
  {
    ('0' as int + d) as char
  }

  /** The decimal value of a digit string, most significant digit first; `""` reads as 0. */
  function DigitsValue(s: string): nat
    requires AllDigits(s)
  {
    if s == [] then 0
    else DigitsValue(s[..|s| - 1]) * 10 + (s[|s| - 1] as int - '0' as int)
  }

  /** `String(n)` for a non-negative integer: its shortest decimal digit string. */
  function NatToString(n: nat): (r: string)
    ensures |r| >= 1 && AllDigits(r)
    ensures (r[0] == '0') == (n == 0)
  {
    if n < 10 then [DigitChar(n)] else NatToString(n / 10) + [DigitChar(n % 10)]
  }

  /** `String(i)` for an integer: a minus sign for negatives, then the digits. */
  function IntToString(i: int): (r: string)
    ensures |r| >= 1
    ensures i >= 0 ==> AllDigits(r)
    ensures i < 0 ==> r[0] == '-' && AllDigits(r[1..])
    ensures i >= 0 ==> DigitsValue(r) == i
    ensures i < 0 ==> DigitsValue(r[1..]) == -i
  {
    var n: nat := if i < 0 then -i else i;
    DigitsOfNat(n);
    if i < 0 then
      assert ("-" + NatToString(n))[1..] == NatToString(n);
      "-" + NatToString(n)
    else NatToString(n)
  }

  /** Reading back the digits of a number gives the number. */
  lemma {:induction false} DigitsOfNat(n: nat)
    ensures DigitsValue(NatToString(n)) == n
  {
    if n >= 10 {
      DigitsOfNat(n / 10);
      var s := NatToString(n);
      assert s[..|s| - 1] == NatToString(n / 10);
    }
  }

  /** Leading zeros do not change the value of a digit string. */
  lemma {:induction false} DigitsValueLeadingZero(s: string)
    requires AllDigits(s)
    ensures DigitsValue("0" + s) == DigitsValue(s)
  {
    if s != [] {
      var t := "0" + s;
      assert t[..|t| - 1] == "0" + s[..|s| - 1];
      DigitsValueLeadingZero(s[..|s| - 1]);
    }
  }

  /** `str.padStart(2, "0")`. */
  function PadStart2(s: string): (r: string)
    ensures |r| == if |s| >= 2 then |s| else 2
    ensures |s| >= 2 ==> r == s
    ensures |s| < 2 ==> r[..2 - |s|] == (if |s| == 1 then "0" else "00") && r[2 - |s|..] == s
  {
    if |s| >= 2 then s else if |s| == 1 then "0" + s else "00"
  }
}
