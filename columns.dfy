/**
 * Header and column resolution: the header and date-cell cleaners of the metrics feed, the
 * date column lookup, the alias lists of the main feed and `getValue`.
 */
module Columns {
  import opened Wrappers
  import opened Text
  import opened Csv

  /** The characters both cleaners delete outright: the double quote, CR and LF. */
  const HeaderJunk: set<char> := {'"', '\r', '\n'}

  /** `cleanHeader`: quotes, CR and LF deleted, then trimmed; an empty header stays empty. */
  function CleanHeader(h: string): (r: string)
    ensures h == "" ==> r == ""
    ensures r == Trim(Without(h, HeaderJunk))
    ensures '"' !in r && '\r' !in r && '\n' !in r
    ensures IsTrimmed(r)
  {
    if h == "" then ""
    else
      var a := RemoveAll(h, '"');
      var b := RemoveAll(a, '\r');
      var c := RemoveAll(b, '\n');
      StripJunk(h);
      TrimFrom(c);
      Trim(c)
  }

  /** The three deletions of `cleanHeader` together delete the quote, CR and LF. */
  lemma StripJunk(h: string)
    ensures RemoveAll(RemoveAll(RemoveAll(h, '"'), '\r'), '\n') == Without(h, HeaderJunk)
  {
    var a := RemoveAll(h, '"');
    var b := RemoveAll(a, '\r');
    RemoveAllIsWithout(h, '"');
    RemoveAllIsWithout(a, '\r');
    RemoveAllIsWithout(b, '\n');
    WithoutWithout(h, {'"'}, {'\r'});
    WithoutWithout(h, {'"'} + {'\r'}, {'\n'});
    assert {'"'} + {'\r'} + {'\n'} == HeaderJunk;
  }

  /** Cleaning a clean header changes nothing. */
  lemma CleanHeaderIdempotent(h: string)
    ensures CleanHeader(CleanHeader(h)) == CleanHeader(h)
  {
    var r := CleanHeader(h);
    if r != "" {
      TrimOfTrimmed(r);
    }
  }

  /** A header that is already free of quotes and line breaks and trimmed is kept as it is. */
  lemma CleanHeaderOfClean(h: string)
    requires '"' !in h && '\r' !in h && '\n' !in h && IsTrimmed(h)
    ensures CleanHeader(h) == h
  {
    if h != "" {
      TrimOfTrimmed(h);
    }
  }

  /** Every whitespace character of `s` is a plain space. */
  predicate OnlyPlainSpaces(s: string)
  {
    forall i :: 0 <= i < |s| ==> IsSpace(s[i]) ==> s[i] == ' '
  }

  /** `replace(/\s+/g, " ")`: each maximal run of whitespace becomes one space. */
  function CollapseSpaces(s: string): (r: string)
    ensures OnlyPlainSpaces(r)
    ensures forall i :: 0 <= i < |r| ==> r[i] == ' ' || r[i] in s
    ensures s != [] ==> r != [] && (r[|r| - 1] == ' ' <==> IsSpace(s[|s| - 1]))
    ensures forall i :: 0 <= i < |r| - 1 ==> !(r[i] == ' ' && r[i + 1] == ' ')
    ensures Visible(r) == Visible(s)
  {
    if s == [] then []
    else
      var n := |s| - 1;
      var prev := CollapseSpaces(s[..n]);
      assert forall x :: x in s[..n] ==> x in s;
      var r := if !IsSpace(s[n]) then prev + [s[n]]
        else if n > 0 && IsSpace(s[n - 1]) then prev
        else prev + [' '];
      assert r == prev || (r[..|prev|] == prev && |r| == |prev| + 1);
      r
  }

  /** A run of whitespace, however long, becomes one space. */
  lemma {:induction false} CollapseBlank(s: string)
    requires s != [] && AllSpace(s)
    ensures CollapseSpaces(s) == " "
  {
    if |s| > 1 {
      CollapseBlank(s[..|s| - 1]);
    }
  }

  /** A visible character splits the collapse: each side collapses on its own. */
  lemma {:induction false} CollapseAround(a: string, x: char, b: string)
    requires !IsSpace(x)
    ensures CollapseSpaces(a + [x] + b) == CollapseSpaces(a) + [x] + CollapseSpaces(b)
  {
    if b == [] {
      assert a + [x] + b == a + [x];
      CollapseSnoc(a, x);
      assert CollapseSpaces(b) == [];
      ConcatAssoc(CollapseSpaces(a) + [x], [], []);
    } else {
      var p, y := b[..|b| - 1], b[|b| - 1];
      var l := a + [x] + p;
      assert a + [x] + b == l + [y] && b == p + [y];
      CollapseAround(a, x, p);
      assert IsSpace(l[|l| - 1]) == (p != [] && IsSpace(p[|p| - 1])) by {
        if p != [] { assert l[|l| - 1] == p[|p| - 1]; }
      }
      var t: string := if !IsSpace(y) then [y] else if p != [] && IsSpace(p[|p| - 1]) then [] else [' '];
      CollapseSnoc(l, y);
      CollapseSnoc(p, y);
      var ca, cp := CollapseSpaces(a), CollapseSpaces(p);
      calc {
        CollapseSpaces(a + [x] + b);
        CollapseSpaces(l + [y]);
        CollapseSpaces(l) + t;
        ca + [x] + cp + t;
        { ConcatAssoc(ca + [x], cp, t); }
        ca + [x] + (cp + t);
        ca + [x] + CollapseSpaces(b);
      }
    }
  }

  lemma ConcatAssoc(u: string, v: string, w: string)
    ensures u + v + w == u + (v + w)
  {
  }

  /** One more character: a visible one is kept, a space opens a run unless one is open. */
  lemma CollapseSnoc(l: string, y: char)
    ensures CollapseSpaces(l + [y]) == CollapseSpaces(l) +
      (if !IsSpace(y) then [y] else if l != [] && IsSpace(l[|l| - 1]) then [] else [' '])
  {
    var s := l + [y];
    assert s[..|s| - 1] == l;
  }

  /** `cleanDate`: CR and LF deleted, whitespace runs collapsed to one space, quotes
      deleted, then trimmed; an empty cell stays empty. */
  function CleanDate(s: string): (r: string)
    ensures '"' !in r && '\r' !in r && '\n' !in r
    ensures IsTrimmed(r) && OnlyPlainSpaces(r)
  {
    if s == "" then ""
    else
      var a := RemoveAll(RemoveAll(s, '\r'), '\n');
      var b := CollapseSpaces(a);
      var c := RemoveAll(b, '"');
      RemoveAllFrom(c, '"');
      RemoveAllFrom(b, '"');
      TrimFrom(c);
      Trim(c)
  }

  /** A cell without quotes and line breaks is cleaned by collapsing and trimming alone. */
  lemma CleanDateOfUnquoted(s: string)
    requires '"' !in s && '\r' !in s && '\n' !in s
    ensures CleanDate(s) == Trim(CollapseSpaces(s))
  {
    if s != "" {
      var b := CollapseSpaces(s);
      assert '"' !in b;
    }
  }

  /** `cleanDate` keeps every visible character other than the quote, in order. */
  lemma CleanDateKeepsVisible(s: string)
    ensures Visible(CleanDate(s)) == Without(Visible(s), {'"'})
  {
    if s != "" {
      var a := RemoveAll(RemoveAll(s, '\r'), '\n');
      var b := CollapseSpaces(a);
      var c := RemoveAll(b, '"');
      RemoveAllIsWithout(s, '\r');
      RemoveAllIsWithout(RemoveAll(s, '\r'), '\n');
      WithoutWithout(s, {'\r'}, {'\n'});
      VisibleWithoutSpaces(s, {'\r'} + {'\n'});
      RemoveAllIsWithout(b, '"');
      VisibleWithout(b, {'"'});
      TrimKeepsVisible(c);
    }
  }

  /** A cell holding no whitespace and no quote, such as `05/03/2024`, is its own cleaned date. */
  lemma {:induction false} CleanDatePlain(s: string)
    requires forall i :: 0 <= i < |s| ==> !IsSpace(s[i]) && s[i] != '"'
    ensures CleanDate(s) == s
  {
    if s != "" {
      assert '\r' !in s && '\n' !in s;
      CollapsePlain(s);
      assert '"' !in s;
      TrimOfTrimmed(s);
    }
  }

  lemma {:induction false} CollapsePlain(s: string)
    requires forall i :: 0 <= i < |s| ==> !IsSpace(s[i])
    ensures CollapseSpaces(s) == s
  {
    if s != [] {
      CollapsePlain(s[..|s| - 1]);
    }
  }

  /** The header mentions "fecha" in any letter case. Only ASCII letters lower-case to the
      letters of "fecha", so ASCII lower-casing decides it as `toLowerCase` does. */
  predicate MentionsFecha(h: string)
  {
    Contains(LowerAscii(h), "fecha")
  }

  /** The first position at or after `j` whose header mentions "fecha", or `|hs|`. */
  function FindFecha(hs: seq<string>, j: nat): (k: nat)
    requires j <= |hs|
    ensures j <= k <= |hs|
    ensures k < |hs| ==> MentionsFecha(hs[k])
    ensures forall p :: j <= p < k ==> !MentionsFecha(hs[p])
    decreases |hs| - j
  {
    if j == |hs| || MentionsFecha(hs[j]) then j else FindFecha(hs, j + 1)
  }

  /** The date column of the metrics feed: the first header mentioning "fecha", else column 12. */
  function FechaIndex(hs: seq<string>): (k: nat)
    ensures (forall p :: 0 <= p < |hs| ==> !MentionsFecha(hs[p])) ==> k == 12
    ensures (exists p :: 0 <= p < |hs| && MentionsFecha(hs[p])) ==>
              (k < |hs| && MentionsFecha(hs[k]) && forall p :: 0 <= p < k ==> !MentionsFecha(hs[p]))
  {
    var k := FindFecha(hs, 0);
    if k == |hs| then 12 else k
  }

  /** The position of the first alias at or after `j` that is a key of `row`, or `|aliases|`. */
  function FirstKeyIndex(aliases: seq<string>, row: Record, j: nat): (k: nat)
    requires j <= |aliases|
    ensures j <= k <= |aliases|
    ensures k < |aliases| ==> aliases[k] in row
    ensures forall p :: j <= p < k ==> aliases[p] !in row
    decreases |aliases| - j
  {
    if j == |aliases| || aliases[j] in row then j else FirstKeyIndex(aliases, row, j + 1)
  }

  /** The first alias in `aliases` that is a key of `row` (`aliases.find(k => k in row)`). */
  function FirstKey(aliases: seq<string>, row: Record): (r: Option<string>)
    ensures r.None? <==> forall i :: 0 <= i < |aliases| ==> aliases[i] !in row
    ensures r.Some? ==> r.value in row
    ensures r.Some? ==> exists i :: 0 <= i < |aliases| && aliases[i] == r.value && forall p :: 0 <= p < i ==> aliases[p] !in row
  {
    var k := FirstKeyIndex(aliases, row, 0);
    if k == |aliases| then None else Some(aliases[k])
  }

  /** The alias `find` returns is the first of the list that the row has. */
  lemma FirstKeyAt(aliases: seq<string>, row: Record, i: nat)
    requires i < |aliases| && aliases[i] in row
    requires forall p :: 0 <= p < i ==> aliases[p] !in row
    ensures FirstKey(aliases, row) == Some(aliases[i])
  {
    var k := FirstKeyIndex(aliases, row, 0);
    assert k == i;
  }

  const TotalQssAliases: seq<string> := ["Total QQs", "Total Qss", "Total QQ"]
  const QqPresecoAliases: seq<string> := ["qq pre-seco", "QQ Pre-Seco", "QQ Preseco"]
  const QqMojadoAliases: seq<string> := ["QQs Mojado ingresados", "qq mojado", "QQ Mojado", "QQs Mojado"]
  const QqHumedoAliases: seq<string> := ["QQ Humedo", "qq humedo", "QQs Humedo"]

  /** `getValue(index, default)`: the trimmed cell when the row reaches `index`, else the default. */
  function GetValue(row: seq<string>, index: nat, default: string): (r: string)
    ensures index >= |row| ==> r == default
    ensures index < |row| ==> IsTrimmed(r) && (r == "" <==> AllSpace(row[index]))
    ensures index < |row| ==> r == Trim(row[index])
  {
    if index < |row| then
      TrimEmptyIffBlank(row[index]);
      Trim(row[index])
    else default
  }

  /** The cells `parseCSV` produces are already trimmed, so `getValue` returns them as they are. */
  lemma GetValueOfParsedRow(line: string, index: nat, default: string)
    ensures var row := TrimAll(Cells(line));
      index < |row| ==> GetValue(row, index, default) == row[index]
  {
    var row := TrimAll(Cells(line));
    if index < |row| {
      TrimIdempotent(Cells(line)[index]);
    }
  }
}
