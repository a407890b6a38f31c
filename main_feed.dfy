/**
 * The main feed: the records `csvToJson` builds, the row `updateDashboard` picks for a
 * date filter, the cards it fills, and `loadData`, which replaces the records wholesale.
 */
module MainFeed {
  import opened Wrappers
  import opened Text
  import opened Numbers
  import opened Csv
  import opened Columns
  import opened Coercers

  /** `row[key]`: the cell, or None where JavaScript reads `undefined`. */
  function Field(row: Record, key: string): (r: Option<string>)
    ensures r.Some? <==> key in row
    ensures r.Some? ==> r.value == row[key]
  {
    if key in row then Some(row[key]) else None
  }

  /** `r.Fecha === f`: a record without a `Fecha` key matches no filter. */
  predicate HasFecha(row: Record, f: string)
  {
    "Fecha" in row && row["Fecha"] == f
  }

  /** The first record at or after `j` whose `Fecha` is `f`. */
  function FindFechaFrom(data: seq<Record>, f: string, j: nat): (r: Option<nat>)
    requires j <= |data|
    ensures r.None? <==> forall i :: j <= i < |data| ==> !HasFecha(data[i], f)
    ensures r.Some? ==> j <= r.value < |data| && HasFecha(data[r.value], f)
    ensures r.Some? ==> forall i :: j <= i < r.value ==> !HasFecha(data[i], f)
    decreases |data| - j
  {
    if j == |data| then None
    else if HasFecha(data[j], f) then Some(j)
    else FindFechaFrom(data, f, j + 1)
  }

  /** The row `updateDashboard` shows: the last record for `"latest"`, otherwise the first
      record whose `Fecha` equals the filter exactly; None when there is none. */
  function SelectRow(data: seq<Record>, filter: string): (r: Option<Record>)
    ensures filter == "latest" ==> (r.None? <==> data == [])
    ensures filter == "latest" && data != [] ==> r == Some(data[|data| - 1])
    ensures filter != "latest" ==> (r.None? <==> forall i :: 0 <= i < |data| ==> !HasFecha(data[i], filter))
    ensures filter != "latest" && r.Some? ==>
              exists i :: 0 <= i < |data| && r.value == data[i] && HasFecha(data[i], filter) &&
                forall p :: 0 <= p < i ==> !HasFecha(data[p], filter)
  {
    if filter == "latest" then
      if data == [] then None else Some(data[|data| - 1])
    else
      match FindFechaFrom(data, filter, 0)
      case None => None
      case Some(i) => Some(data[i])
  }

  /** The key a quantity is read under: its first alias present in the row, or the name
      `"undefined"` that `row[undefined]` looks up when none is. */
  function AliasKey(aliases: seq<string>, row: Record): (k: string)
    ensures (forall i :: 0 <= i < |aliases| ==> aliases[i] !in row) ==> k == "undefined"
    ensures (exists i :: 0 <= i < |aliases| && aliases[i] in row) ==> k in row && k in aliases
    ensures FirstKey(aliases, row).Some? ==> k == FirstKey(aliases, row).value
  {
    match FirstKey(aliases, row)
    case None => "undefined"
    case Some(k) => k
  }

  /** `key ? row[key] : 0`: the wet and humid quantities fall back to the number 0, which
      `fmt` reads as falsy. */
  function AliasOrZero(aliases: seq<string>, row: Record): (r: Option<string>)
    ensures r.None? <==> forall i :: 0 <= i < |aliases| ==> aliases[i] !in row
    ensures r.Some? ==> FirstKey(aliases, row).Some? && r == Some(row[FirstKey(aliases, row).value])
  {
    match FirstKey(aliases, row)
    case None => None
    case Some(k) => Some(row[k])
  }

  /** The cards `updateDashboard` fills, in display text. */
  datatype MainView = MainView(
    totalQss: string, qqPreseco: string, qqMojado: string, qqHumedo: string,
    secProceso: string, qqProceso: string, secPendientes: string, qqPendientes: string,
    secEnviadas: string, qqEnviados: string, vertProceso: string, qqVertProceso: string)

  /** The cards of one record: quantities in two-decimal mode, drier counts in secadoras mode. */
  function ViewOf(row: Record): (v: MainView)
    ensures IsFixed2(v.totalQss) && IsFixed2(v.qqPreseco) && IsFixed2(v.qqMojado) && IsFixed2(v.qqHumedo)
    ensures IsFixed2(v.qqProceso) && IsFixed2(v.qqPendientes) && IsFixed2(v.qqEnviados) && IsFixed2(v.qqVertProceso)
    ensures "Secadoras En proceso" !in row ==> v.secProceso == ""
    ensures "Secadoras Pendientes" !in row ==> v.secPendientes == ""
    ensures "Secadoras Enviadas" !in row ==> v.secEnviadas == ""
    ensures "Verticales en proceso" !in row ==> v.vertProceso == ""
    ensures "Secadoras En proceso" in row ==> v.secProceso == FmtSecadoras(Some(row["Secadoras En proceso"]))
    ensures "Secadoras Pendientes" in row ==> v.secPendientes == FmtSecadoras(Some(row["Secadoras Pendientes"]))
    ensures "Secadoras Enviadas" in row ==> v.secEnviadas == FmtSecadoras(Some(row["Secadoras Enviadas"]))
    ensures "Verticales en proceso" in row ==> v.vertProceso == FmtSecadoras(Some(row["Verticales en proceso"]))
    ensures "QQ Proceso" in row ==> v.qqProceso == Fmt(Some(row["QQ Proceso"]))
    ensures "QQ pendientes" in row ==> v.qqPendientes == Fmt(Some(row["QQ pendientes"]))
    ensures "QQ Enviados" in row ==> v.qqEnviados == Fmt(Some(row["QQ Enviados"]))
    ensures "QQ Verticales" in row ==> v.qqVertProceso == Fmt(Some(row["QQ Verticales"]))
    ensures "QQ Proceso" !in row ==> v.qqProceso == "0.00"
    ensures "QQ pendientes" !in row ==> v.qqPendientes == "0.00"
    ensures "QQ Enviados" !in row ==> v.qqEnviados == "0.00"
    ensures "QQ Verticales" !in row ==> v.qqVertProceso == "0.00"
  {
    MainView(
      totalQss := Fmt(Field(row, AliasKey(TotalQssAliases, row))),
      qqPreseco := Fmt(Field(row, AliasKey(QqPresecoAliases, row))),
      qqMojado := Fmt(AliasOrZero(QqMojadoAliases, row)),
      qqHumedo := Fmt(AliasOrZero(QqHumedoAliases, row)),
      secProceso := DrierCount(row, "Secadoras En proceso"),
      qqProceso := Quantity(row, "QQ Proceso"),
      secPendientes := DrierCount(row, "Secadoras Pendientes"),
      qqPendientes := Quantity(row, "QQ pendientes"),
      secEnviadas := DrierCount(row, "Secadoras Enviadas"),
      qqEnviados := Quantity(row, "QQ Enviados"),
      vertProceso := DrierCount(row, "Verticales en proceso"),
      qqVertProceso := Quantity(row, "QQ Verticales"))
  }

  /** `fmt(row[key])`: a missing column shows zero. */
  function Quantity(row: Record, key: string): (r: string)
    ensures IsFixed2(r)
    ensures key in row ==> r == Fmt(Some(row[key]))
    ensures key !in row ==> r == "0.00"
  {
    FmtMissing(None);
    Fmt(Field(row, key))
  }

  /** `fmt(row[key], true)`: a missing column shows nothing. */
  function DrierCount(row: Record, key: string): (r: string)
    ensures key in row ==> r == FmtSecadoras(Some(row[key]))
    ensures key !in row ==> r == ""
  {
    FmtSecadoras(Field(row, key))
  }

  /** Whatever the alias list, a quantity is read under the first alias the row has. */
  lemma AliasIsFirst(aliases: seq<string>, row: Record, i: nat)
    requires i < |aliases| && aliases[i] in row
    requires forall p :: 0 <= p < i ==> aliases[p] !in row
    ensures AliasKey(aliases, row) == aliases[i]
    ensures AliasOrZero(aliases, row) == Some(row[aliases[i]])
  {
    FirstKeyAt(aliases, row, i);
  }

  /** Each quantity card shows the first of its aliases that the row has. */
  lemma TotalUsesFirstAlias(row: Record, i: nat)
    requires i < |TotalQssAliases| && TotalQssAliases[i] in row
    requires forall p :: 0 <= p < i ==> TotalQssAliases[p] !in row
    ensures ViewOf(row).totalQss == Fmt(Some(row[TotalQssAliases[i]]))
  {
    AliasIsFirst(TotalQssAliases, row, i);
  }

  lemma PresecoUsesFirstAlias(row: Record, i: nat)
    requires i < |QqPresecoAliases| && QqPresecoAliases[i] in row
    requires forall p :: 0 <= p < i ==> QqPresecoAliases[p] !in row
    ensures ViewOf(row).qqPreseco == Fmt(Some(row[QqPresecoAliases[i]]))
  {
    AliasIsFirst(QqPresecoAliases, row, i);
  }

  lemma MojadoUsesFirstAlias(row: Record, i: nat)
    requires i < |QqMojadoAliases| && QqMojadoAliases[i] in row
    requires forall p :: 0 <= p < i ==> QqMojadoAliases[p] !in row
    ensures ViewOf(row).qqMojado == Fmt(Some(row[QqMojadoAliases[i]]))
  {
    AliasIsFirst(QqMojadoAliases, row, i);
  }

  lemma HumedoUsesFirstAlias(row: Record, i: nat)
    requires i < |QqHumedoAliases| && QqHumedoAliases[i] in row
    requires forall p :: 0 <= p < i ==> QqHumedoAliases[p] !in row
    ensures ViewOf(row).qqHumedo == Fmt(Some(row[QqHumedoAliases[i]]))
  {
    AliasIsFirst(QqHumedoAliases, row, i);
  }

  /** A row without any humid-quantity alias shows zero. */
  lemma HumedoMissingIsZero(row: Record)
    requires forall i :: 0 <= i < |QqHumedoAliases| ==> QqHumedoAliases[i] !in row
    ensures ViewOf(row).qqHumedo == "0.00"
  {
    FmtMissing(None);
  }

  /** A row without any wet-quantity alias shows zero. */
  lemma MojadoMissingIsZero(row: Record)
    requires forall i :: 0 <= i < |QqMojadoAliases| ==> QqMojadoAliases[i] !in row
    ensures ViewOf(row).qqMojado == "0.00"
  {
    FmtMissing(None);
  }

  /** Without any total alias the card reads the key `"undefined"`, which a sheet without
      such a column does not have, and shows zero. */
  lemma TotalMissingIsZero(row: Record)
    requires forall i :: 0 <= i < |TotalQssAliases| ==> TotalQssAliases[i] !in row
    requires "undefined" !in row
    ensures ViewOf(row).totalQss == "0.00"
  {
    var k := AliasKey(TotalQssAliases, row);
    assert k == "undefined";
    assert Field(row, k) == None;
    FmtMissing(None);
  }

  /** `updateDashboard`: the cards of the selected row, or no update when no row is selected. */
  function UpdateDashboard(data: seq<Record>, filter: string): (r: Option<MainView>)
    ensures r.None? <==> SelectRow(data, filter).None?
    ensures r.Some? ==> r.value == ViewOf(SelectRow(data, filter).value)
  {
    match SelectRow(data, filter)
    case None => None
    case Some(row) => Some(ViewOf(row))
  }

  /** The initial load shows the last line of the sheet, whatever its date. */
  lemma LatestShowsLastLine(csv: string)
    requires Count(Trim(csv), '\n') > 0
    ensures var data := CsvToJson(csv);
      UpdateDashboard(data, "latest") == Some(ViewOf(data[|data| - 1]))
  {
  }

  /** The main feed's state: the records of the last download (`allData`). */
  class Dashboard {
    var allData: seq<Record>

    constructor()
      ensures allData == []
    {
      allData := [];
    }

    /** `loadData` after the download: the records are replaced, then the latest is shown. */
    method LoadData(csv: string) returns (view: Option<MainView>)
      modifies this
      ensures allData == CsvToJson(csv)
      ensures view == UpdateDashboard(allData, "latest")
      ensures view.None? <==> Count(Trim(csv), '\n') == 0
    {
      allData := CsvToJson(csv);
      view := UpdateDashboard(allData, "latest");
    }

    /** The date selector's change handler: `updateDashboard(allData, value)`. */
    method Select(filter: string) returns (view: Option<MainView>)
      ensures view == UpdateDashboard(allData, filter)
      ensures filter != "latest" ==> (view.None? <==> forall i :: 0 <= i < |allData| ==> !HasFecha(allData[i], filter))
    {
      view := UpdateDashboard(allData, filter);
    }
  }
}
