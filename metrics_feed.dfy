/**
 * The metrics feed: `loadDataMetrics` validates the downloaded text and replaces the
 * `headers` and `allRows` globals, `fillDateSelector` lists the distinct dates newest first,
 * `loadLatestDate` picks the first of them and `loadByDate` finds the first row of a date
 * and computes the table, KPI and card texts.
 */
module MetricsFeed {
  import opened Wrappers
  import opened Text
  import opened Numbers
  import opened Csv
  import opened Columns
  import opened Coercers
  import opened Dates

  /** Why a load is refused: the text is blank, or it has fewer than two non-blank lines. */
  datatype LoadError = EmptyCsv | TooFewRows

  /** `rows[0].map(cleanHeader)`. */
  function CleanHeaders(hs: seq<string>): (r: seq<string>)
    ensures |r| == |hs|
  {
    seq(|hs|, i requires 0 <= i < |hs| => CleanHeader(hs[i]))
  }

  /** The cleaned date cell of a row, or `""` for a row too short to reach column `idx`. */
  function DateCell(row: seq<string>, idx: nat): (r: string)
    ensures |row| <= idx ==> r == ""
  {
    if |row| > idx then CleanDate(row[idx]) else ""
  }

  /** The date cell of every row, in row order. */
  function DateCells(rows: seq<seq<string>>, idx: nat): (r: seq<string>)
    ensures |r| == |rows|
  {
    seq(|rows|, i requires 0 <= i < |rows| => DateCell(rows[i], idx))
  }

  /** `d` is the non-empty cleaned date cell of some row. */
  predicate ListedDate(rows: seq<seq<string>>, idx: nat, d: string)
  {
    d != "" && d in DateCells(rows, idx)
  }

  /** Every value occurs exactly once. */
  predicate EachOnce(s: seq<string>)
  {
    forall x :: x in s ==> multiset(s)[x] == 1
  }

  /** The keys of a `Map` filled by `set(key, ...)` for each non-empty key in turn, in the
      order `Map` keeps them: the order in which each key was first set. */
  function FirstSeen(keys: seq<string>): (r: seq<string>)
    ensures EachOnce(r)
    ensures forall d :: d in r ==> d != ""
  {
    if keys == [] then []
    else
      var n := |keys| - 1;
      var prev := FirstSeen(keys[..n]);
      if keys[n] != "" && keys[n] !in prev then
        assert multiset(prev)[keys[n]] == 0;
        prev + [keys[n]]
      else prev
  }

  /** The first-seen keys are exactly the non-empty keys. */
  lemma {:induction false} FirstSeenMembers(keys: seq<string>, d: string)
    ensures d in FirstSeen(keys) <==> d != "" && d in keys
  {
    if keys != [] {
      var n := |keys| - 1;
      FirstSeenMembers(keys[..n], d);
      assert keys == keys[..n] + [keys[n]];
    }
  }

  /** The date list before sorting: the distinct non-empty date cells, first seen first. */
  function DistinctDates(rows: seq<seq<string>>, idx: nat): (r: seq<string>)
    ensures EachOnce(r)
    ensures forall d :: d in r <==> ListedDate(rows, idx, d)
  {
    var r := FirstSeen(DateCells(rows, idx));
    forall d ensures d in r <==> ListedDate(rows, idx, d) {
      FirstSeenMembers(DateCells(rows, idx), d);
    }
    r
  }

  /** `s` is ordered by `before` pair by pair. */
  predicate SortedBy<T>(s: seq<T>, before: (T, T) -> bool)
  {
    forall i, j :: 0 <= i < j < |s| ==> before(s[i], s[j])
  }

  /** While the element at `j` moves down: the prefix up to `i` is ordered except at `j`,
      and that element precedes everything after it. */
  predicate Inserting<T>(s: seq<T>, i: nat, j: nat, before: (T, T) -> bool)
  {
    j <= i < |s| &&
    (forall p, q :: 0 <= p < q <= i && p != j && q != j ==> before(s[p], s[q])) &&
    (forall q :: j < q <= i ==> before(s[j], s[q]))
  }

  /** Swapping the moving element with a neighbour it must precede keeps `Inserting`. */
  lemma InsertSwap<T(!new)>(s: seq<T>, i: nat, j: nat, before: (T, T) -> bool)
    requires forall x, y :: before(x, y) || before(y, x)
    requires Inserting(s, i, j, before) && 0 < j && !before(s[j - 1], s[j])
    ensures Inserting(s[j - 1 := s[j]][j := s[j - 1]], i, j - 1, before)
  {
    var t := s[j - 1 := s[j]][j := s[j - 1]];
    assert before(s[j], s[j - 1]);
    forall p, q | 0 <= p < q <= i && p != j - 1 && q != j - 1
      ensures before(t[p], t[q])
    {
      if q == j {
        assert before(s[p], s[j - 1]);
      } else if p == j {
        assert before(s[j - 1], s[q]);
      }
    }
  }

  /** Once the moving element follows an element it may follow, the prefix is ordered. */
  lemma InsertDone<T(!new)>(s: seq<T>, i: nat, j: nat, before: (T, T) -> bool)
    requires forall x, y, z :: before(x, y) && before(y, z) ==> before(x, z)
    requires Inserting(s, i, j, before) && (j == 0 || before(s[j - 1], s[j]))
    ensures forall p, q :: 0 <= p < q <= i ==> before(s[p], s[q])
  {
    forall p, q | 0 <= p < q <= i
      ensures before(s[p], s[q])
    {
      if q == j && p < j - 1 {
        assert before(s[p], s[j - 1]) && before(s[j - 1], s[j]);
      }
    }
  }

  /** One step of the insertion sort: the element at `i` moves down past every element it
      must precede, so that the prefix up to `i` becomes sorted. */
  method InsertLast<T(!new)>(a: array<T>, i: nat, before: (T, T) -> bool)
    requires i < a.Length
    requires forall x, y :: before(x, y) || before(y, x)
    requires forall x, y, z :: before(x, y) && before(y, z) ==> before(x, z)
    requires forall p, q :: 0 <= p < q < i ==> before(a[p], a[q])
    modifies a
    ensures forall p, q :: 0 <= p < q <= i ==> before(a[p], a[q])
    ensures multiset(a[..]) == multiset(old(a[..]))
  {
    var j: nat := i;
    assert Inserting(a[..], i, j, before);
    while j > 0 && !before(a[j - 1], a[j])
      invariant Inserting(a[..], i, j, before)
      invariant multiset(a[..]) == multiset(old(a[..]))
    {
      InsertSwap(a[..], i, j, before);
      a[j - 1], a[j] := a[j], a[j - 1];
      j := j - 1;
    }
    InsertDone(a[..], i, j, before);
  }

  /** `Array.prototype.sort` with a comparator: an insertion sort in place, for an order that
      is total and transitive. */
  method SortBy<T(!new)>(a: array<T>, before: (T, T) -> bool)
    requires forall x, y :: before(x, y) || before(y, x)
    requires forall x, y, z :: before(x, y) && before(y, z) ==> before(x, z)
    modifies a
    ensures SortedBy(a[..], before)
    ensures multiset(a[..]) == multiset(old(a[..]))
  {
    for i := 0 to a.Length
      invariant forall p, q :: 0 <= p < q < i ==> before(a[p], a[q])
      invariant multiset(a[..]) == multiset(old(a[..]))
    {
      InsertLast(a, i, before);
    }
  }

  /** The date list's order, newest first. */
  predicate SortedNewestFirst(s: seq<string>)
  {
    SortedBy(s, Before)
  }

  /** What `loadByDate` and `loadLatestDate` do with a selection. */
  datatype Selection =
    | NoOptions                             // the selector holds no date
    | NoSelection                           // the selected value is empty
    | NotFound                              // no row has the selected date
    | Shown(index: nat, view: MetricsView)  // the row at `index` is displayed

  /** The texts `loadByDate` writes into the metrics table, the KPIs and the card. */
  datatype MetricsView = MetricsView(
    turnos: string, parosProgramados: string, parosNoProgramados: string,
    tiempoTotal: string, tiempoMuerto: string, qqsMojadoProcesados: string,
    procesados: string, rechazados: string,
    disponibilidad: string, desempeno: string, calidad: string, oee: string,
    qqsMojadoCard: string)

  /** The card value: the entered quantity, else the processed one, else `'0'`, read with
      `parseFloat` and printed with two decimals; `"NaN"` when it is not a number. */
  function CardText(entrados: string, ingresados: string): (r: string)
    ensures var valor := if entrados != "" then entrados else if ingresados != "" then ingresados else "0";
      (ParseFloat(valor).None? ==> r == "NaN") &&
      (ParseFloat(valor).Some? ==> IsFixed2(r) && ParseNumber(r) == Some(Rounded2(ParseFloat(valor).value)))
  {
    var valor := if entrados != "" then entrados else if ingresados != "" then ingresados else "0";
    match ParseFloat(valor)
    case None => "NaN"
    case Some(x) =>
      ParseToFixed2(x);
      ToFixed2(x)
  }

  /** The texts of one row, read at the fixed positions 0 to 13 with their defaults. */
  function ViewOfRow(row: seq<string>): (r: MetricsView)
    ensures |row| > 0 ==> r.turnos == Trim(row[0])
    ensures |row| == 0 ==> r.turnos == "24:00:00"
    ensures |row| > 5 ==> r.qqsMojadoProcesados == Trim(row[5])
    ensures |row| <= 5 ==> r.qqsMojadoProcesados == "0"
    ensures |row| > 1 ==> r.parosProgramados == FormatHoras(Trim(row[1]))
    ensures |row| <= 1 ==> r.parosProgramados == "00:00:00"
    ensures |row| > 2 ==> r.parosNoProgramados == FormatHoras(Trim(row[2]))
    ensures |row| <= 2 ==> r.parosNoProgramados == "00:00:00"
    ensures |row| > 3 ==> r.tiempoTotal == FormatHoras(Trim(row[3]))
    ensures |row| <= 3 ==> r.tiempoTotal == "00:00:00"
    ensures |row| > 4 ==> r.tiempoMuerto == FormatHoras(Trim(row[4]))
    ensures |row| <= 4 ==> r.tiempoMuerto == "00:00:00"
    ensures |row| > 6 ==> r.procesados == Trim(row[6])
    ensures |row| <= 6 ==> r.procesados == "N/A"
    ensures |row| > 7 ==> r.rechazados == Trim(row[7])
    ensures |row| <= 7 ==> r.rechazados == "N/A"
    ensures |row| > 8 ==> r.disponibilidad == FormatPercent(Trim(row[8]))
    ensures |row| <= 8 ==> r.disponibilidad == "--%"
    ensures |row| > 9 ==> r.desempeno == FormatPercent(Trim(row[9]))
    ensures |row| <= 9 ==> r.desempeno == "--%"
    ensures |row| > 10 ==> r.calidad == FormatPercent(Trim(row[10]))
    ensures |row| <= 10 ==> r.calidad == "--%"
    ensures |row| > 11 ==> r.oee == FormatPercent(Trim(row[11]))
    ensures |row| <= 11 ==> r.oee == "--%"
    ensures r.qqsMojadoCard ==
              CardText(if |row| > 13 then Trim(row[13]) else "0", if |row| > 5 then Trim(row[5]) else "0")
  {
    MetricsView(
      turnos := GetValue(row, 0, "24:00:00"),
      parosProgramados := FormatHoras(GetValue(row, 1, "")),
      parosNoProgramados := FormatHoras(GetValue(row, 2, "")),
      tiempoTotal := FormatHoras(GetValue(row, 3, "")),
      tiempoMuerto := FormatHoras(GetValue(row, 4, "")),
      qqsMojadoProcesados := GetValue(row, 5, "0"),
      procesados := GetValue(row, 6, "N/A"),
      rechazados := GetValue(row, 7, "N/A"),
      disponibilidad := FormatPercent(GetValue(row, 8, "")),
      desempeno := FormatPercent(GetValue(row, 9, "")),
      calidad := FormatPercent(GetValue(row, 10, "")),
      oee := FormatPercent(GetValue(row, 11, "")),
      qqsMojadoCard := CardText(GetValue(row, 13, "0"), GetValue(row, 5, "0")))
  }

  /** A row holding only its first cell shows the defaults: durations `00:00:00`, counts `0`
      and `N/A`, and KPIs `--%`. */
  lemma ShortRowDefaults(row: seq<string>)
    requires |row| == 1
    ensures ViewOfRow(row).turnos == Trim(row[0])
    ensures ViewOfRow(row).parosProgramados == "00:00:00" && ViewOfRow(row).parosNoProgramados == "00:00:00"
    ensures ViewOfRow(row).tiempoTotal == "00:00:00" && ViewOfRow(row).tiempoMuerto == "00:00:00"
    ensures ViewOfRow(row).qqsMojadoProcesados == "0"
    ensures ViewOfRow(row).procesados == "N/A" && ViewOfRow(row).rechazados == "N/A"
    ensures ViewOfRow(row).disponibilidad == "--%" && ViewOfRow(row).desempeno == "--%"
    ensures ViewOfRow(row).calidad == "--%" && ViewOfRow(row).oee == "--%"
  {
  }

  /** `--%`, or a two-decimal number of at most 100 followed by `%`. */
  predicate PercentText(k: string)
  {
    k == "--%" ||
    (|k| >= 1 && k[|k| - 1] == '%' && IsFixed2(k[..|k| - 1]) &&
     ParseNumber(k[..|k| - 1]).Some? && ParseNumber(k[..|k| - 1]).value <= 100.0)
  }

  lemma FormatPercentText(v: string)
    ensures PercentText(FormatPercent(v))
  {
  }

  /** Every KPI shows `--%` or a percentage of at most 100. */
  lemma KpisAtMostHundred(row: seq<string>)
    ensures PercentText(ViewOfRow(row).disponibilidad) && PercentText(ViewOfRow(row).desempeno)
    ensures PercentText(ViewOfRow(row).calidad) && PercentText(ViewOfRow(row).oee)
  {
    FormatPercentText(GetValue(row, 8, ""));
    FormatPercentText(GetValue(row, 9, ""));
    FormatPercentText(GetValue(row, 10, ""));
    FormatPercentText(GetValue(row, 11, ""));
  }

  lemma MissExtends(rows: seq<seq<string>>, idx: nat, fecha: string, i: nat)
    requires i < |rows| && fecha != ""
    requires forall p :: 0 <= p < i ==> DateCell(rows[p], idx) != fecha
    requires |rows[i]| > idx ==> CleanDate(rows[i][idx]) != fecha
    ensures forall p :: 0 <= p < i + 1 ==> DateCell(rows[p], idx) != fecha
  {
  }

  /** The search loop of `loadByDate`: the first row whose cleaned date cell is `fecha`,
      or -1 when there is none. */
  method FindRow(rows: seq<seq<string>>, idx: nat, fecha: string) returns (rowIndex: int)
    requires fecha != ""
    ensures -1 <= rowIndex < |rows|
    ensures rowIndex == -1 <==> forall i :: 0 <= i < |rows| ==> DateCell(rows[i], idx) != fecha
    ensures rowIndex >= 0 ==> DateCell(rows[rowIndex], idx) == fecha
    ensures rowIndex >= 0 ==> forall p :: 0 <= p < rowIndex ==> DateCell(rows[p], idx) != fecha
  {
    rowIndex := -1;
    var i := 0;
    while i < |rows|
      invariant 0 <= i <= |rows|
      invariant forall p :: 0 <= p < i ==> DateCell(rows[p], idx) != fecha
    {
      var row := rows[i];
      if |row| > idx {
        var fechaEnFila := CleanDate(row[idx]);
        if fechaEnFila == fecha {
          rowIndex := i;
          return;
        }
      }
      MissExtends(rows, idx, fecha, i);
      i := i + 1;
    }
  }

  /** The metrics feed's state: the cleaned headers and the data rows of the last good load. */
  class Dataset {
    var headers: seq<string>
    var allRows: seq<seq<string>>

    constructor()
      ensures headers == [] && allRows == []
    {
      headers := [];
      allRows := [];
    }

    /** The validation and assignment of `loadDataMetrics`, on the downloaded text. A refused
        text leaves both fields as they were. */
    method Load(text: string) returns (err: Option<LoadError>)
      modifies this
      ensures Trim(text) == "" ==> err == Some(EmptyCsv)
      ensures Trim(text) != "" && |ParsedRows(text)| < 2 ==> err == Some(TooFewRows)
      ensures err.None? <==> |ParsedRows(text)| >= 2
      ensures err.Some? ==> headers == old(headers) && allRows == old(allRows)
      ensures err.None? ==> headers == CleanHeaders(ParsedRows(text)[0]) && allRows == ParsedRows(text)[1..]
    {
      BlankTextNoRows(text);
      if Trim(text) == "" {
        return Some(EmptyCsv);
      }
      var rows := ParseCsv(text);
      if |rows| < 2 {
        return Some(TooFewRows);
      }
      headers := CleanHeaders(rows[0]);
      allRows := rows[1..];
      err := None;
    }

    /** The collection loop of `fillDateSelector`: the date keys in first-seen order. */
    method CollectDates() returns (fechas: seq<string>)
      ensures fechas == DistinctDates(allRows, FechaIndex(headers))
    {
      var idx := FechaIndex(headers);
      ghost var cells := DateCells(allRows, idx);
      fechas := [];
      var i := 0;
      while i < |allRows|
        invariant 0 <= i <= |allRows|
        invariant fechas == FirstSeen(cells[..i])
      {
        var row := allRows[i];
        assert cells[..i + 1][..i] == cells[..i];
        assert cells[..i + 1][i] == DateCell(row, idx);
        if |row| > idx {
          var fecha := CleanDate(row[idx]);
          if fecha != "" && fecha !in fechas {
            fechas := fechas + [fecha];
          }
        }
        i := i + 1;
      }
      assert cells[..i] == cells;
    }

    /** `fillDateSelector` without the DOM: the distinct non-empty dates of the date column,
        each once, newest first. */
    method FillDateSelector() returns (fechas: seq<string>)
      ensures multiset(fechas) == multiset(DistinctDates(allRows, FechaIndex(headers)))
      ensures EachOnce(fechas)
      ensures SortedNewestFirst(fechas)
      ensures forall d :: d in fechas <==> ListedDate(allRows, FechaIndex(headers), d)
    {
      var list := CollectDates();
      var a := new string[|list|](i requires 0 <= i < |list| => list[i]);
      assert a[..] == list;
      forall x, y ensures Before(x, y) || Before(y, x) {
        BeforeTotal(x, y);
      }
      forall x, y, z | Before(x, y) && Before(y, z) ensures Before(x, z) {
        BeforeTransitive(x, y, z);
      }
      SortBy(a, Before);
      fechas := a[..];
      assert forall d :: d in fechas <==> d in multiset(list);
    }

    /** `loadByDate`: no row for the empty selection; otherwise the first row whose cleaned
        date cell equals the selected text exactly, and the cards of that row. */
    method LoadByDate(fecha: string) returns (r: Selection)
      ensures fecha == "" <==> r == NoSelection
      ensures r.NotFound? <==>
        fecha != "" && forall i :: 0 <= i < |allRows| ==> DateCell(allRows[i], FechaIndex(headers)) != fecha
      ensures r.Shown? ==> r.index < |allRows| && DateCell(allRows[r.index], FechaIndex(headers)) == fecha
      ensures r.Shown? ==> forall p :: 0 <= p < r.index ==> DateCell(allRows[p], FechaIndex(headers)) != fecha
      ensures r.Shown? ==> r.view == ViewOfRow(allRows[r.index])
      ensures !r.NoOptions?
    {
      if fecha == "" {
        return NoSelection;
      }
      var rowIndex := FindRow(allRows, FechaIndex(headers), fecha);
      if rowIndex == -1 {
        return NotFound;
      }
      r := Shown(rowIndex, ViewOfRow(allRows[rowIndex]));
    }

    /** `loadLatestDate`: the first date of the selector. Every listed date has a row, so one
        is always shown when the list is not empty. */
    method LoadLatestDate(fechas: seq<string>) returns (r: Selection)
      requires forall d :: d in fechas ==> ListedDate(allRows, FechaIndex(headers), d)
      ensures fechas == [] <==> r == NoOptions
      ensures fechas != [] ==> r.Shown?
      ensures r.Shown? ==> r.index < |allRows| && DateCell(allRows[r.index], FechaIndex(headers)) == fechas[0]
      ensures r.Shown? ==> forall p :: 0 <= p < r.index ==> DateCell(allRows[p], FechaIndex(headers)) != fechas[0]
      ensures r.Shown? ==> r.view == ViewOfRow(allRows[r.index])
    {
      if fechas == [] {
        return NoOptions;
      }
      var idx := FechaIndex(headers);
      assert fechas[0] in fechas;
      assert fechas[0] in DateCells(allRows, idx);
      var k :| 0 <= k < |allRows| && DateCells(allRows, idx)[k] == fechas[0];
      assert DateCell(allRows[k], idx) == fechas[0];
      r := LoadByDate(fechas[0]);
    }

    /** `loadDataMetrics` after the download: load, list the dates, show the newest. */
    method LoadDataMetrics(text: string) returns (err: Option<LoadError>, fechas: seq<string>, shown: Selection)
      modifies this
      ensures err.Some? ==> headers == old(headers) && allRows == old(allRows) && fechas == [] && shown == NoOptions
      ensures err.None? <==> |ParsedRows(text)| >= 2
      ensures err.None? ==> headers == CleanHeaders(ParsedRows(text)[0]) && allRows == ParsedRows(text)[1..]
      ensures err.None? ==> EachOnce(fechas) && SortedNewestFirst(fechas)
      ensures err.None? ==> forall d :: d in fechas <==> ListedDate(allRows, FechaIndex(headers), d)
      ensures err.None? && fechas != [] ==> shown.Shown? && shown.index < |allRows|
      ensures err.None? && fechas != [] ==> DateCell(allRows[shown.index], FechaIndex(headers)) == fechas[0]
      ensures err.None? && fechas != [] ==> forall d :: d in fechas ==> Before(fechas[0], d)
      ensures err.None? ==> (fechas == [] <==> shown == NoOptions)
      ensures err.None? && fechas != [] ==>
                forall p :: 0 <= p < shown.index ==> DateCell(allRows[p], FechaIndex(headers)) != fechas[0]
      ensures err.None? && shown.Shown? ==> shown.view == ViewOfRow(allRows[shown.index])
    {
      err := Load(text);
      if err.Some? {
        // A refused load leaves the selector as it was; nothing new is listed or shown.
        return err, [], NoOptions;
      }
      fechas := FillDateSelector();
      shown := LoadLatestDate(fechas);
      if fechas != [] {
        forall d | d in fechas ensures Before(fechas[0], d) {
          var j :| 0 <= j < |fechas| && fechas[j] == d;
          if j == 0 {
            BeforeTotal(d, d);
          }
        }
      }
    }
  }
}
