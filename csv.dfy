/**
 * The CSV tokenizer of both feeds. A line is scanned character by character: a double
 * quote toggles "inside quotes" and is dropped, a comma outside quotes ends a cell, every
 * other character is kept. The reference definition `Cells` reads the quote state off the
 * text itself: a comma separates cells when an even number of quotes come before it.
 */
module Csv {
  import opened Text

  /** The cells of one line, built left to right. */
  function Cells(s: string): (r: seq<string>)
    ensures |r| >= 1
  {
    if s == [] then [""]
    else
      var p := s[..|s| - 1];
      var c := s[|s| - 1];
      var prev := Cells(p);
      if c == '"' then prev
      else if c == ',' && Count(p, '"') % 2 == 0 then prev + [""]
      else prev[..|prev| - 1] + [prev[|prev| - 1] + [c]]
  }

  /** Commas preceded by an even number of quotes, i.e. commas outside quotes. */
  function UnquotedCommas(s: string): nat
  {
    if s == [] then 0
    else UnquotedCommas(s[..|s| - 1]) + (if s[|s| - 1] == ',' && Count(s[..|s| - 1], '"') % 2 == 0 then 1 else 0)
  }

  /** A line has one cell more than it has commas outside quotes. */
  lemma {:induction false} CellCount(s: string)
    ensures |Cells(s)| == 1 + UnquotedCommas(s)
  {
    if s != [] {
      CellCount(s[..|s| - 1]);
    }
  }

  /** Quotes never reach a cell. */
  lemma {:induction false} CellsHaveNoQuotes(s: string)
    ensures forall i :: 0 <= i < |Cells(s)| ==> '"' !in Cells(s)[i]
  {
    if s != [] {
      CellsHaveNoQuotes(s[..|s| - 1]);
    }
  }

  /** Re-joining the cells with commas gives the line with its quotes deleted; a line without
      quotes therefore comes back unchanged. */
  lemma {:induction false} JoinCells(s: string)
    ensures Join(Cells(s), ',') == RemoveAll(s, '"')
  {
    if s != [] {
      var p := s[..|s| - 1];
      var c := s[|s| - 1];
      JoinCells(p);
      var prev := Cells(p);
      assert RemoveAll(s, '"') == if c == '"' then RemoveAll(p, '"') else RemoveAll(p, '"') + [c];
      if c == '"' {
      } else if c == ',' && Count(p, '"') % 2 == 0 {
        assert (prev + [""])[..|prev|] == prev;
      } else {
        JoinExtendLast(prev, ',', c);
      }
    }
  }

  /** On a line without quotes the tokenizer is `split(",")`. */
  lemma {:induction false} CellsWithoutQuotes(s: string)
    requires '"' !in s
    ensures Cells(s) == Split(s, ',')
  {
    if s != [] {
      var p := s[..|s| - 1];
      assert '"' !in p;
      CellsWithoutQuotes(p);
      CountAbsent(p, '"');
    }
  }

  lemma {:induction false} CountAbsent(s: string, c: char)
    requires c !in s
    ensures Count(s, c) == 0
  {
    if s != [] {
      assert c !in s[..|s| - 1];
      CountAbsent(s[..|s| - 1], c);
    }
  }

  /** One more character either is dropped (a quote), starts a new cell (a comma outside
      quotes) or extends the last cell; the quote count grows by one exactly on a quote. */
  lemma CellsSnoc(s: string, c: char)
    ensures var prev := Cells(s);
      Cells(s + [c]) == if c == '"' then prev
                        else if c == ',' && Count(s, '"') % 2 == 0 then prev + [""]
                        else prev[..|prev| - 1] + [prev[|prev| - 1] + [c]]
    ensures Count(s + [c], '"') == Count(s, '"') + (if c == '"' then 1 else 0)
  {
    assert (s + [c])[..|s|] == s;
  }

  /** One step of the scan over `line[i]`, stated on the cells already finished (`done`)
      and the cell being built (`cur`). */
  lemma ScanStep(done: seq<string>, cur: string, line: string, i: nat)
    requires i < |line| && done + [cur] == Cells(line[..i])
    ensures var c := line[i]; var even := Count(line[..i], '"') % 2 == 0;
      && (c == '"' ==> done + [cur] == Cells(line[..i + 1]))
      && (c != '"' && c == ',' && even ==> (done + [cur]) + [""] == Cells(line[..i + 1]))
      && (c != '"' && !(c == ',' && even) ==> done + [cur + [c]] == Cells(line[..i + 1]))
      && Count(line[..i + 1], '"') == Count(line[..i], '"') + (if c == '"' then 1 else 0)
  {
    assert line[..i + 1] == line[..i] + [line[i]];
    CellsSnoc(line[..i], line[i]);
    var prev := done + [cur];
    assert prev[..|prev| - 1] == done && prev[|prev| - 1] == cur;
  }

  /** `splitCsvLine` of the main feed: the scan with an `inQuotes` toggle. */
  method SplitCsvLine(line: string) returns (result: seq<string>)
    ensures result == Cells(line)
  {
    result := [];
    var cur := "";
    var inQuotes := false;
    for i := 0 to |line|
      invariant result + [cur] == Cells(line[..i])
      invariant inQuotes == (Count(line[..i], '"') % 2 == 1)
    {
      var ch := line[i];
      ScanStep(result, cur, line, i);
      if ch == '"' {
        inQuotes := !inQuotes;
        continue;
      }
      if ch == ',' && !inQuotes {
        result := result + [cur];
        cur := "";
        continue;
      }
      cur := cur + [ch];
    }
    result := result + [cur];
    assert line[..|line|] == line;
  }

  /** Every cell of a row, trimmed. */
  function TrimAll(cells: seq<string>): (r: seq<string>)
    ensures |r| == |cells|
  {
    seq(|cells|, i requires 0 <= i < |cells| => Trim(cells[i]))
  }

  lemma TrimAllSnoc(cells: seq<string>, x: string)
    ensures TrimAll(cells + [x]) == TrimAll(cells) + [Trim(x)]
  {
    var r := TrimAll(cells + [x]);
    forall k | 0 <= k < |r| ensures r[k] == (TrimAll(cells) + [Trim(x)])[k] {
      if k < |cells| { assert (cells + [x])[k] == cells[k]; }
    }
  }

  /** One line of `parseCSV` of the metrics feed: the same scan, with each cell trimmed as it is pushed. */
  method ParseRow(line: string) returns (rowResult: seq<string>)
    ensures rowResult == TrimAll(Cells(line))
  {
    rowResult := [];
    var current := "";
    var inQuotes := false;
    ghost var done: seq<string> := [];
    for i := 0 to |line|
      invariant done + [current] == Cells(line[..i])
      invariant rowResult == TrimAll(done)
      invariant inQuotes == (Count(line[..i], '"') % 2 == 1)
    {
      var ch := line[i];
      ScanStep(done, current, line, i);
      if ch == '"' {
        inQuotes := !inQuotes;
      } else if ch == ',' && !inQuotes {
        TrimAllSnoc(done, current);
        rowResult := rowResult + [Trim(current)];
        done := done + [current];
        current := "";
      } else {
        current := current + [ch];
      }
    }
    TrimAllSnoc(done, current);
    rowResult := rowResult + [Trim(current)];
    assert line[..|line|] == line;
  }

  /** The lines whose trim is not empty, in order (`filter(line => line.trim() !== '')`). */
  function NonBlank(lines: seq<string>): (r: seq<string>)
    ensures |r| <= |lines|
    ensures forall l :: l in r <==> l in lines && Trim(l) != ""
  {
    if lines == [] then []
    else
      var prev := NonBlank(lines[..|lines| - 1]);
      assert lines == lines[..|lines| - 1] + [lines[|lines| - 1]];
      if Trim(lines[|lines| - 1]) != "" then prev + [lines[|lines| - 1]] else prev
  }

  /** Dropping blank lines distributes over concatenation. */
  lemma {:induction false} NonBlankAppend(a: seq<string>, b: seq<string>)
    ensures NonBlank(a + b) == NonBlank(a) + NonBlank(b)
  {
    if b == [] {
      assert a + b == a;
    } else {
      var p := b[..|b| - 1];
      assert (a + b)[..|a + b| - 1] == a + p;
      NonBlankAppend(a, p);
    }
  }

  /** One line is kept exactly when its trim is not empty. */
  lemma NonBlankOne(l: string)
    ensures NonBlank([l]) == if Trim(l) != "" then [l] else []
  {
    assert [l][..0] == [];
  }

  /** The rows `parseCSV` yields for a text: one per non-blank `\n` line, cells trimmed. */
  function ParsedRows(text: string): (rows: seq<seq<string>>)
  {
    var lines := NonBlank(Split(text, '\n'));
    seq(|lines|, i requires 0 <= i < |lines| => TrimAll(Cells(lines[i])))
  }

  /** `parseCSV`: split on `\n`, drop blank lines, tokenize each remaining line. */
  method ParseCsv(text: string) returns (rows: seq<seq<string>>)
    ensures rows == ParsedRows(text)
  {
    var lines := NonBlank(Split(text, '\n'));
    rows := [];
    for i := 0 to |lines|
      invariant |rows| == i
      invariant forall k :: 0 <= k < i ==> rows[k] == TrimAll(Cells(lines[k]))
    {
      var row := ParseRow(lines[i]);
      rows := rows + [row];
    }
  }

  /** Every parsed row has at least one cell and every cell is trimmed. */
  lemma ParsedRowsTrimmed(text: string)
    ensures forall i :: 0 <= i < |ParsedRows(text)| ==> |ParsedRows(text)[i]| >= 1
    ensures forall i, j :: 0 <= i < |ParsedRows(text)| && 0 <= j < |ParsedRows(text)[i]| ==> IsTrimmed(ParsedRows(text)[i][j])
  {
  }

  /** Every character of a piece of `Split` is a character of the split string. */
  lemma {:induction false} SplitPiecesFrom(s: string, sep: char, i: nat, c: char)
    requires i < |Split(s, sep)| && c in Split(s, sep)[i]
    ensures c in s
  {
    if s != [] {
      var p := s[..|s| - 1];
      var prev := Split(p, sep);
      if s[|s| - 1] == sep {
        if i < |prev| { SplitPiecesFrom(p, sep, i, c); }
      } else if i < |prev| - 1 {
        SplitPiecesFrom(p, sep, i, c);
      } else if c != s[|s| - 1] {
        assert c in prev[|prev| - 1];
        SplitPiecesFrom(p, sep, |prev| - 1, c);
      }
    }
  }

  /** Joining all-blank pieces with a line feed gives an all-blank string. */
  lemma {:induction false} JoinBlank(pieces: seq<string>)
    requires forall i :: 0 <= i < |pieces| ==> AllSpace(pieces[i])
    ensures AllSpace(Join(pieces, '\n'))
  {
    if |pieces| > 1 {
      JoinBlank(pieces[..|pieces| - 1]);
    }
  }

  /** A text yields no rows exactly when it is empty or whitespace only. */
  lemma BlankTextNoRows(text: string)
    ensures Trim(text) == "" <==> ParsedRows(text) == []
  {
    var pieces := Split(text, '\n');
    TrimEmptyIffBlank(text);
    if Trim(text) == "" {
      forall l | l in pieces ensures Trim(l) == "" {
        var i :| 0 <= i < |pieces| && pieces[i] == l;
        forall k | 0 <= k < |l| ensures IsSpace(l[k]) {
          SplitPiecesFrom(text, '\n', i, l[k]);
        }
        TrimEmptyIffBlank(l);
      }
      assert NonBlank(pieces) == [] by {
        if NonBlank(pieces) != [] {
          assert NonBlank(pieces)[0] in NonBlank(pieces);
        }
      }
    } else if ParsedRows(text) == [] {
      assert NonBlank(pieces) == [] by {
        assert |ParsedRows(text)| == |NonBlank(pieces)|;
      }
      forall i | 0 <= i < |pieces| ensures AllSpace(pieces[i]) {
        assert pieces[i] in pieces;
        assert pieces[i] !in NonBlank(pieces);
        TrimEmptyIffBlank(pieces[i]);
      }
      JoinBlank(pieces);
      JoinSplit(text, '\n');
    }
  }

  /** The lines `csvToJson` reads: `csv.trim().split(/\r?\n/)`; a carriage return is part of the
      line break only when a line feed follows it. */
  function JsonLines(csv: string): (r: seq<string>)
    ensures |r| == 1 + Count(Trim(csv), '\n')
  {
    var pieces := Split(Trim(csv), '\n');
    seq(|pieces|, i requires 0 <= i < |pieces| => if i < |pieces| - 1 then DropCr(pieces[i]) else pieces[i])
  }

  function DropCr(s: string): string
  {
    if |s| > 0 && s[|s| - 1] == '\r' then s[..|s| - 1] else s
  }

  /** A main-feed record: trimmed header names to trimmed cell values. */
  type Record = map<string, string>

  /** `(cols[i] || "").trim()`. */
  function CellText(cols: seq<string>, i: nat): string
  {
    if i < |cols| then Trim(cols[i]) else ""
  }

  /** Assigns `names[i]` the value `vals[i]`, left to right, later names overwriting. */
  function Assign<K(!new), V>(names: seq<K>, vals: seq<V>): (r: map<K, V>)
    requires |vals| == |names|
    ensures forall k :: k in r <==> k in names
  {
    if names == [] then map[]
    else
      var n := |names| - 1;
      assert names == names[..n] + [names[n]];
      Assign(names[..n], vals[..n])[names[n] := vals[n]]
  }

  /** A name that does not occur again later keeps its own value. */
  lemma {:induction false} AssignValue<K(!new), V>(names: seq<K>, vals: seq<V>, j: nat)
    requires |vals| == |names| && j < |names|
    requires forall k :: j < k < |names| ==> names[k] != names[j]
    ensures names[j] in Assign(names, vals) && Assign(names, vals)[names[j]] == vals[j]
  {
    var n := |names| - 1;
    if j < n {
      assert names[..n][j] == names[j] && vals[..n][j] == vals[j];
      forall k | j < k < n ensures names[..n][k] != names[..n][j] {
        assert names[..n][k] == names[k];
      }
      AssignValue(names[..n], vals[..n], j);
    }
  }

  /** The cells of a line, one per header, `""` where the line is short. */
  function CellTexts(cols: seq<string>, n: nat): (r: seq<string>)
    ensures |r| == n && forall i :: 0 <= i < n ==> r[i] == CellText(cols, i)
  {
    seq(n, i requires 0 <= i < n => CellText(cols, i))
  }

  /** One record of `csvToJson`: `headers.forEach((h, i) => row[h.trim()] = (cols[i] || "").trim())`;
      its keys are exactly the trimmed headers. */
  function BuildRecord(hs: seq<string>, cols: seq<string>): (r: Record)
    ensures forall j :: 0 <= j < |hs| ==> Trim(hs[j]) in r
    ensures forall k :: k in r ==> exists j :: 0 <= j < |hs| && k == Trim(hs[j])
  {
    var names := TrimAll(hs);
    var r := Assign(names, CellTexts(cols, |hs|));
    assert forall j :: 0 <= j < |hs| ==> names[j] == Trim(hs[j]);
    assert forall k :: k in r ==> exists j :: 0 <= j < |hs| && k == names[j];
    r
  }

  /** No later header trims to the same name as header `j`. */
  predicate IsLastHeader(hs: seq<string>, j: nat)
    requires j < |hs|
  {
    forall k :: j < k < |hs| ==> Trim(hs[k]) != Trim(hs[j])
  }

  /** The value stored under a header is the cell below its last occurrence, and `""` when
      the line is too short to have that cell. */
  lemma RecordValue(hs: seq<string>, cols: seq<string>, j: nat)
    requires j < |hs| && IsLastHeader(hs, j)
    ensures Trim(hs[j]) in BuildRecord(hs, cols)
    ensures BuildRecord(hs, cols)[Trim(hs[j])] == CellText(cols, j)
    ensures j >= |cols| ==> BuildRecord(hs, cols)[Trim(hs[j])] == ""
  {
    var names := TrimAll(hs);
    AssignValue(names, CellTexts(cols, |hs|), j);
  }

  /** `csvToJson`: the header line names the keys, every later line becomes one record. */
  function CsvToJson(csv: string): (r: seq<Record>)
    ensures |r| == |JsonLines(csv)| - 1
    ensures |r| == Count(Trim(csv), '\n')
  {
    var lines := JsonLines(csv);
    var headers := Cells(lines[0]);
    seq(|lines| - 1, i requires 0 <= i < |lines| - 1 => BuildRecord(headers, Cells(lines[i + 1])))
  }
}
