/**
 * normalizar_datahora_pld: the hourly price table. DIA and HORA become
 * two-digit text, DATAHORA is MES_REFERENCIA, DIA and HORA written one after
 * the other and read as "%Y%m%d%H", and the three source columns are dropped.
 * The row functions have no exception handler: one row that does not convert
 * makes the whole step fail and nothing is written.
 */
module Price {
  import opened Wrappers
  import opened Text
  import opened Tables
  import opened Numbers
  import opened Dates

  /** The columns the step reads and then drops. */
  const Sources: seq<string> := ["MES_REFERENCIA", "DIA", "HORA"]

  /** "%Y%m%d%H" */
  const CompactFormat: Format := [Year, Month, Day, Hour]

  /** f"{int(x):02d}" as a cell; None where int() raises. */
  function PadCell(c: Cell): (r: Option<Cell>)
    ensures r.Some? <==> ToInt(c).Some?
    ensures r.Some? ==> r.value == Str(Pad2(ToInt(c).value))
  {
    match ToInt(c)
    case Some(n) => Some(Str(Pad2(n)))
    case None => None
  }

  /**
   * str(x) as the f-string writes the month reference. None for a float or
   * NaN: their str() always holds ".", "e", "inf" or "nan", which
   * "%Y%m%d%H" never reads, so strptime raises for them.
   */
  function MonthText(c: Cell): (r: Option<string>)
    ensures r.Some? <==> c.Str? || c.Int?
    ensures c.Str? ==> r == Some(c.s)
    ensures c.Int? ==> r == Some(IntToString(c.i))
  {
    match c
    case Str(s) => Some(s)
    case Int(i) => Some(IntToString(i))
    case Float(_) => None
    case Null => None
  }

  /** The text of a padded cell (always text after the padding pass). */
  function TextOf(c: Cell): string {
    if c.Str? then c.s else ""
  }

  /** The timestamp one row gets: its month reference, day and hour read as "%Y%m%d%H". */
  function RowStamp(mes: Cell, dia: Cell, hora: Cell): (r: Option<DateTime>)
    ensures r.Some? ==> Valid(r.value)
  {
    match MonthText(mes)
    case Some(m) => Strptime(m + TextOf(dia) + TextOf(hora), CompactFormat)
    case None => None
  }

  /** The DATAHORA cell of one row, written "%Y-%m-%d %H:%M:%S" as to_csv writes a timestamp. */
  function StampCell(mes: Cell, dia: Cell, hora: Cell): (r: Option<Cell>)
    ensures r.Some? <==> RowStamp(mes, dia, hora).Some?
    ensures r.Some? ==> r.value.Str? && Strptime(r.value.s, IsoFormat) == RowStamp(mes, dia, hora)
  {
    match RowStamp(mes, dia, hora)
    case Some(dt) => IsoIsCanonical(dt); Some(Str(Strftime(dt, IsoFormat)))
    case None => None
  }

  /** DATAHORA for every row of a table whose DIA and HORA are already padded. */
  function StampAll(t: Table): (f: Row -> Option<Cell>)
    requires "MES_REFERENCIA" in t.header && "DIA" in t.header && "HORA" in t.header
  {
    var iM := IndexOf(t.header, "MES_REFERENCIA");
    var iD := IndexOf(t.header, "DIA");
    var iH := IndexOf(t.header, "HORA");
    (row: Row) =>
      if |row| == |t.header| then StampCell(row[iM], row[iD], row[iH]) else None
  }

  predicate NotSource(n: string) {
    n !in Sources
  }

  predicate HasSources(t: Table) {
    "MES_REFERENCIA" in t.header && "DIA" in t.header && "HORA" in t.header
  }

  /**
   * df[name] = df[name].apply(pad): the column rewritten as two-digit text,
   * or None when int() raises on one of its cells.
   */
  function PadColumn(t: Table, name: string): (r: Option<Table>)
    requires WellFormed(t) && name in t.header
    ensures r.Some? <==> forall i :: 0 <= i < |t.rows| ==> ToInt(Column(t, name)[i]).Some?
    ensures r.Some? ==> WellFormed(r.value) && r.value.header == t.header && |r.value.rows| == |t.rows|
    ensures r.Some? ==> forall i :: 0 <= i < |t.rows| ==>
      Column(r.value, name)[i] == Str(Pad2(ToInt(Column(t, name)[i]).value))
    ensures r.Some? ==> forall n :: n in t.header && n != name ==> Column(r.value, n) == Column(t, n)
  {
    match TryAll(Column(t, name), PadCell)
    case None => None
    case Some(cells) => Some(SetColumn(t, name, cells))
  }

  /** The DATAHORA column of a padded table, or None when one row does not read as "%Y%m%d%H". */
  function Stamps(t: Table): (r: Option<seq<Cell>>)
    requires WellFormed(t) && HasSources(t)
    ensures r.Some? <==> forall i :: 0 <= i < |t.rows| ==> StampAt(t, i).Some?
    ensures r.Some? ==> |r.value| == |t.rows| && forall i :: 0 <= i < |t.rows| ==> r.value[i] == StampAt(t, i).value
  {
    StampAllAgrees(t);
    TryAll(t.rows, StampAll(t))
  }

  /** The row function computes each row's stamp. */
  lemma StampAllAgrees(t: Table)
    requires WellFormed(t) && HasSources(t)
    ensures forall i :: 0 <= i < |t.rows| ==> StampAll(t)(t.rows[i]) == StampAt(t, i)
  {
    forall i | 0 <= i < |t.rows| ensures StampAll(t)(t.rows[i]) == StampAt(t, i) {
      StampAllAt(t, i);
    }
  }

  lemma StampAllAt(t: Table, i: nat)
    requires WellFormed(t) && HasSources(t) && i < |t.rows|
    ensures StampAll(t)(t.rows[i]) == StampAt(t, i)
  {
    assert |t.rows[i]| == |t.header|;
  }

  /** The DATAHORA cell of row i. */
  function StampAt(t: Table, i: nat): Option<Cell>
    requires WellFormed(t) && HasSources(t) && i < |t.rows|
  {
    StampCell(Column(t, "MES_REFERENCIA")[i], Column(t, "DIA")[i], Column(t, "HORA")[i])
  }

  /**
   * What the step produces: the normalized table, or the failure that aborts
   * it. A table without rows fails at the DATAHORA assignment: apply(axis=1)
   * probes the lambda on one all-NaN row, strptime raises on "nannannan",
   * apply hands back the frame itself, and assigning a frame of several
   * columns to one column raises.
   */
  function Output(t: Table): (r: Result<Table>)
    requires WellFormed(t)
    ensures r.Ok? ==> WellFormed(r.value) && |r.value.rows| == |t.rows|
  {
    if !HasSources(t) then Fail("missing column")
    else
      match PadColumn(t, "DIA")
      case None => Fail("DIA")
      case Some(t1) =>
        match PadColumn(t1, "HORA")
        case None => Fail("HORA")
        case Some(t2) =>
          if |t2.rows| == 0 then Fail("DATAHORA")
          else
            match Stamps(t2)
            case None => Fail("DATAHORA")
            case Some(stamps) => Ok(KeepColumns(SetColumn(t2, "DATAHORA", stamps), NotSource))
  }

  /** normalizar_datahora_pld, one column assignment after the other. */
  method NormalizePrice(t: Table) returns (r: Result<Table>)
    requires WellFormed(t)
    ensures r == Output(t)
  {
    if !HasSources(t) {
      return Fail("missing column");
    }
    var df := t;
    var dias := TryMap(Column(df, "DIA"), PadCell);
    if dias.None? {
      return Fail("DIA");
    }
    df := SetColumn(df, "DIA", dias.value);
    assert PadColumn(t, "DIA") == Some(df);
    var horas := TryMap(Column(df, "HORA"), PadCell);
    if horas.None? {
      return Fail("HORA");
    }
    df := SetColumn(df, "HORA", horas.value);
    assert PadColumn(PadColumn(t, "DIA").value, "HORA") == Some(df);
    if |df.rows| == 0 {
      return Fail("DATAHORA");
    }
    var stamps := TryMap(df.rows, StampAll(df));
    if stamps.None? {
      return Fail("DATAHORA");
    }
    assert Stamps(df) == stamps;
    df := SetColumn(df, "DATAHORA", stamps.value);
    r := Ok(KeepColumns(df, NotSource));
  }

  // ------------------------------------------------------------ what the step promises

  /** A row converts when DIA and HORA are integers and the three read as "%Y%m%d%H". */
  predicate Converts(mes: Cell, dia: Cell, hora: Cell) {
    Spelled(mes, dia, hora) && Strptime(RowText(mes, dia, hora), CompactFormat).Some?
  }

  /** The month reference has a str() strptime can read, and DIA and HORA are integers. */
  predicate Spelled(mes: Cell, dia: Cell, hora: Cell) {
    ToInt(dia).Some? && ToInt(hora).Some? && MonthText(mes).Some?
  }

  /** The text the step reads a row's timestamp from: month reference, padded day, padded hour. */
  function RowText(mes: Cell, dia: Cell, hora: Cell): string
    requires Spelled(mes, dia, hora)
  {
    MonthText(mes).value + Pad2(ToInt(dia).value) + Pad2(ToInt(hora).value)
  }

  predicate RowConverts(t: Table, i: nat)
    requires WellFormed(t) && HasSources(t) && i < |t.rows|
  {
    Converts(Column(t, "MES_REFERENCIA")[i], Column(t, "DIA")[i], Column(t, "HORA")[i])
  }

  /** The padded row reads as a timestamp exactly when the original row converts. */
  lemma PaddedRow(t: Table, t2: Table, i: nat)
    requires WellFormed(t) && HasSources(t) && PadColumn(t, "DIA").Some?
    requires PadColumn(PadColumn(t, "DIA").value, "HORA") == Some(t2) && i < |t.rows|
    ensures HasSources(t2) && |t2.rows| == |t.rows| && ToInt(Column(t, "DIA")[i]).Some? && ToInt(Column(t, "HORA")[i]).Some?
    ensures Column(t2, "MES_REFERENCIA")[i] == Column(t, "MES_REFERENCIA")[i]
    ensures Column(t2, "DIA")[i] == Str(Pad2(ToInt(Column(t, "DIA")[i]).value))
    ensures Column(t2, "HORA")[i] == Str(Pad2(ToInt(Column(t, "HORA")[i]).value))
    ensures RowStamp(Column(t2, "MES_REFERENCIA")[i], Column(t2, "DIA")[i], Column(t2, "HORA")[i]).Some? <==> RowConverts(t, i)
  {
    var t1 := PadColumn(t, "DIA").value;
    assert Column(t1, "HORA") == Column(t, "HORA");
    assert Column(t1, "MES_REFERENCIA") == Column(t, "MES_REFERENCIA");
    assert Column(t2, "DIA") == Column(t1, "DIA");
    assert Column(t2, "MES_REFERENCIA") == Column(t1, "MES_REFERENCIA");
  }

  /** The step succeeds exactly when the three columns exist, there is a row, and every row converts. */
  lemma OutputOkIff(t: Table)
    requires WellFormed(t)
    ensures Output(t).Ok? <==> HasSources(t) && |t.rows| > 0 && forall i :: 0 <= i < |t.rows| ==> RowConverts(t, i)
  {
    if HasSources(t) {
      if PadColumn(t, "DIA").None? {
        DiaFails(t);
      } else if PadColumn(PadColumn(t, "DIA").value, "HORA").None? {
        HoraFails(t);
      } else {
        StampsIff(t, PadColumn(PadColumn(t, "DIA").value, "HORA").value);
      }
    }
  }

  lemma DiaFails(t: Table)
    requires WellFormed(t) && HasSources(t) && PadColumn(t, "DIA").None?
    ensures exists i :: 0 <= i < |t.rows| && !RowConverts(t, i)
  {
    var i :| 0 <= i < |t.rows| && ToInt(Column(t, "DIA")[i]).None?;
    assert !RowConverts(t, i);
  }

  lemma HoraFails(t: Table)
    requires WellFormed(t) && HasSources(t) && PadColumn(t, "DIA").Some?
    requires PadColumn(PadColumn(t, "DIA").value, "HORA").None?
    ensures exists i :: 0 <= i < |t.rows| && !RowConverts(t, i)
  {
    var t1 := PadColumn(t, "DIA").value;
    var i :| 0 <= i < |t.rows| && ToInt(Column(t1, "HORA")[i]).None?;
    assert Column(t1, "HORA") == Column(t, "HORA");
    assert !RowConverts(t, i);
  }

  lemma StampsIff(t: Table, t2: Table)
    requires WellFormed(t) && HasSources(t) && PadColumn(t, "DIA").Some?
    requires PadColumn(PadColumn(t, "DIA").value, "HORA") == Some(t2)
    ensures HasSources(t2) && (Stamps(t2).Some? <==> forall i :: 0 <= i < |t.rows| ==> RowConverts(t, i))
  {
    forall i | 0 <= i < |t.rows| ensures StampAt(t2, i).Some? <==> RowConverts(t, i) {
      PaddedRow(t, t2, i);
    }
  }

  /**
   * On success the three source columns are gone, every other column is
   * kept, DATAHORA is there, and no row is added or lost.
   */
  lemma OutputColumns(t: Table)
    requires WellFormed(t) && Output(t).Ok?
    ensures var o := Output(t).value;
      |o.rows| == |t.rows| && WellFormed(o) &&
      (forall n :: n in o.header <==> (n in t.header || n == "DATAHORA") && n !in Sources)
  {
    var t1 := PadColumn(t, "DIA").value;
    var t2 := PadColumn(t1, "HORA").value;
    var stamps := Stamps(t2).value;
    var t3 := SetColumn(t2, "DATAHORA", stamps);
    assert t2.header == t.header;
    assert forall n :: n in t3.header <==> n in t.header || n == "DATAHORA";
    assert Output(t).value == KeepColumns(t3, NotSource);
  }

  /** On success every column other than the three sources and DATAHORA keeps each row's cell. */
  lemma OutputKeepsCells(t: Table, n: string, i: nat)
    requires WellFormed(t) && Output(t).Ok? && n in t.header && n !in Sources && n != "DATAHORA" && i < |t.rows|
    ensures n in Output(t).value.header && Column(Output(t).value, n)[i] == Column(t, n)[i]
  {
    var t1 := PadColumn(t, "DIA").value;
    var t2 := PadColumn(t1, "HORA").value;
    var t3 := SetColumn(t2, "DATAHORA", Stamps(t2).value);
    assert n != "DIA" && n != "HORA";
    assert Column(t3, n) == Column(t2, n) == Column(t1, n) == Column(t, n);
    assert Output(t).value == KeepColumns(t3, NotSource);
    KeepColumnsCell(t3, NotSource, n, i);
  }

  /**
   * On success each row's DATAHORA is its month reference, zero-padded day
   * and zero-padded hour read as "%Y%m%d%H" and written "YYYY-MM-DD HH:00:00";
   * strftime writes back exactly the digits read.
   */
  lemma OutputStamps(t: Table, i: nat)
    requires WellFormed(t) && Output(t).Ok? && i < |t.rows|
    ensures HasSources(t) && RowConverts(t, i)
    ensures var o := Output(t).value;
      var mes, dia, hora := Column(t, "MES_REFERENCIA")[i], Column(t, "DIA")[i], Column(t, "HORA")[i];
      var dt := Strptime(RowText(mes, dia, hora), CompactFormat).value;
      "DATAHORA" in o.header &&
      Column(o, "DATAHORA")[i] == Str(Strftime(dt, IsoFormat)) &&
      Strftime(dt, CompactFormat) == RowText(mes, dia, hora)
  {
    OutputOkIff(t);
    var t1 := PadColumn(t, "DIA").value;
    var t2 := PadColumn(t1, "HORA").value;
    var stamps := Stamps(t2).value;
    assert Output(t).value == KeepColumns(SetColumn(t2, "DATAHORA", stamps), NotSource);
    PaddedRow(t, t2, i);
    var text := RowText(Column(t, "MES_REFERENCIA")[i], Column(t, "DIA")[i], Column(t, "HORA")[i]);
    assert RowStamp(Column(t2, "MES_REFERENCIA")[i], Column(t2, "DIA")[i], Column(t2, "HORA")[i])
      == Strptime(text, CompactFormat);
    StampKept(t2, stamps, i);
    CompactRoundTrip(text);
  }

  /** The DATAHORA column survives the final selection with its cells. */
  lemma StampKept(t2: Table, stamps: seq<Cell>, i: nat)
    requires WellFormed(t2) && |stamps| == |t2.rows| && i < |t2.rows|
    ensures var o := KeepColumns(SetColumn(t2, "DATAHORA", stamps), NotSource);
      "DATAHORA" in o.header && Column(o, "DATAHORA")[i] == stamps[i]
  {
    var t3 := SetColumn(t2, "DATAHORA", stamps);
    assert Column(t3, "DATAHORA")[i] == stamps[i];
    KeepColumnsCell(t3, NotSource, "DATAHORA", i);
  }

  /** strftime with "%Y%m%d%H" writes back exactly the text strptime read with it. */
  lemma CompactRoundTrip(text: string)
    requires Strptime(text, CompactFormat).Some?
    ensures Strftime(Strptime(text, CompactFormat).value, CompactFormat) == text
  {
    assert CompactFormat[0] == Year && CompactFormat[1] == Month && CompactFormat[2] == Day && CompactFormat[3] == Hour;
    StrftimeOfStrptime(text, CompactFormat);
  }

  /**
   * Every hourly date-time from year 1000 on converts back from its parts:
   * the month reference yyyymm as an integer, the day and the hour as
   * integers (5 January 2024, 09:00 comes from 202401, 5 and 9).
   */
  lemma StampFromParts(dt: DateTime, yyyymm: int)
    requires Valid(dt) && 1000 <= dt.year && dt.minute == 0 && dt.second == 0
    requires yyyymm == dt.year * 100 + dt.month
    ensures var mes, dia, hora := Int(yyyymm), Int(dt.day), Int(dt.hour);
      Converts(mes, dia, hora) && RowStamp(mes, Str(Pad2(dt.day)), Str(Pad2(dt.hour))) == Some(dt)
  {
    CompactText(dt, yyyymm);
    StampFromText(dt, yyyymm, dt.day, dt.hour);
  }

  /** Integer cells whose joined text strftime writes from an hourly dt convert to dt. */
  lemma StampFromText(dt: DateTime, n: int, d: int, h: int)
    requires Valid(dt) && dt.minute == 0 && dt.second == 0
    requires Strftime(dt, CompactFormat) == IntToString(n) + Pad2(d) + Pad2(h)
    ensures Converts(Int(n), Int(d), Int(h)) && RowStamp(Int(n), Str(Pad2(d)), Str(Pad2(h))) == Some(dt)
  {
    var text := IntToString(n) + Pad2(d) + Pad2(h);
    CompactAgrees(dt);
    ReadBack(dt, CompactFormat, text);
    assert RowText(Int(n), Int(d), Int(h)) == text;
  }

  /** "%Y%m%d%H" writes str(yyyymm), then the day and the hour as f"{n:02d}" writes them. */
  lemma CompactText(dt: DateTime, yyyymm: int)
    requires Valid(dt) && 1000 <= dt.year && yyyymm == dt.year * 100 + dt.month
    ensures Strftime(dt, CompactFormat) == IntToString(yyyymm) + Pad2(dt.day) + Pad2(dt.hour)
  {
    MonthDigits(dt.year, dt.month);
    Pad2Fixed(dt.day);
    Pad2Fixed(dt.hour);
    CompactPieces(dt);
  }

  /** str(yyyymm) is the four digits of the year, then the two of the month. */
  lemma MonthDigits(y: nat, m: nat)
    requires 1000 <= y <= 9999 && m < 100
    ensures IntToString(y * 100 + m) == FixedDigits(y, 4) + FixedDigits(m, 2)
  {
    var n := y * 100 + m;
    SixDigits(n);
    assert n / 100 == y && n % 100 == m;
    LastTwoDigits(n, 4);
  }

  lemma SixDigits(n: nat)
    requires 100000 <= n < 1000000
    ensures IntToString(n) == FixedDigits(n, 6)
  {
    assert Pow10(5) == 100000 && Pow10(6) == 1000000;
    NatToStringFixed(n, 6);
  }

  /** The w + 2 digits of n are the w digits of n / 100, then the two of n % 100. */
  lemma LastTwoDigits(n: nat, w: nat)
    ensures FixedDigits(n, w + 2) == FixedDigits(n / 100, w) + FixedDigits(n % 100, 2)
  {
    var r := n % 100;
    assert n / 10 / 10 == n / 100 && n / 10 % 10 == r / 10 % 10 && n % 10 == r % 10 && r / 10 / 10 == 0;
    assert FixedDigits(n, w + 2) == FixedDigits(n / 10 / 10, w) + [DigitChar(n / 10 % 10)] + [DigitChar(n % 10)];
    assert FixedDigits(r, 2) == FixedDigits(r / 10 / 10, 0) + [DigitChar(r / 10 % 10)] + [DigitChar(r % 10)];
  }

  /** "%Y%m%d%H" writes the four fields one after the other. */
  lemma CompactPieces(dt: DateTime)
    ensures Strftime(dt, CompactFormat)
      == FixedDigits(dt.year, 4) + FixedDigits(dt.month, 2) + FixedDigits(dt.day, 2) + FixedDigits(dt.hour, 2)
  {
    var f := CompactFormat;
    assert f[0] == Year && f[1..][0] == Month && f[2..][0] == Day && f[3..][0] == Hour && f[4..] == [];
    assert f[1..][1..] == f[2..] && f[2..][1..] == f[3..] && f[3..][1..] == f[4..];
  }

  /** "%Y%m%d%H" leaves the minutes and seconds at strptime's zero. */
  lemma CompactAgrees(dt: DateTime)
    requires dt.minute == 0 && dt.second == 0
    ensures AgreesOutside(Defaults, dt, CompactFormat)
  {
    assert CompactFormat[0] == Year && CompactFormat[1] == Month && CompactFormat[2] == Day && CompactFormat[3] == Hour;
  }
}
