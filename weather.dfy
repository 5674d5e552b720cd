/**
 * tratar_csv: the weather station table. Columns named "Unnamed…" are
 * dropped, the remaining seven (and only seven) get their canonical names,
 * every cell goes through tratar_numero, a "DATAHORA" column is derived from
 * DATA and HORA_UTC by _mk_dt, and every row holding a missing cell is dropped.
 */
module Weather {
  import opened Wrappers
  import opened Text
  import opened Tables
  import opened Numbers
  import opened Dates

  /** The names the seven weather columns get, in position order. */
  const CanonicalNames: seq<string> := [
    "DATA", "HORA_UTC", "TEMP_MAX_HORA_ANT_C", "TEMP_MIN_HORA_ANT_C",
    "UMID_REL_AR_PCT", "DIRECAO_VENTO_GRAUS", "VELOC_VENTO_MS"
  ]

  /** The pattern '^Unnamed': the name pandas gives a column whose header cell is empty. */
  predicate IsUnnamed(n: string) {
    |n| >= 7 && n[..7] == "Unnamed"
  }

  predicate IsNamed(n: string) {
    !IsUnnamed(n)
  }

  /** df.columns = CanonicalNames when exactly seven columns are left; the names stay otherwise. */
  function Rename(t: Table): Table {
    if |t.header| == |CanonicalNames| then Table(CanonicalNames, t.rows) else t
  }

  // ------------------------------------------------------------ _mk_dt

  /** str(row['DATA']).strip(); None for a float, whose str() is never a "%Y-" prefix. */
  function DayText(c: Cell): (r: Option<string>)
    ensures r.Some? <==> !c.Float?
    ensures c.Str? ==> r == Some(Strip(c.s))
    ensures c.Int? ==> r == Some(IntToString(c.i))
  {
    match c
    case Str(s) => Some(Strip(s))
    case Int(i) => Some(IntToString(i))
    case Null => Some("nan")
    case Float(_) => None
  }

  /** int(float(row['HORA_UTC'])); None where float() or int() raises. */
  function HourOf(c: Cell): (r: Option<int>)
    ensures c.Null? ==> r.None?
    ensures c.Int? ==> r == Some(c.i)
    ensures c.Float? ==> r == Some(Trunc(c.x))
    ensures c.Str? ==> (r.Some? <==> ParseDecimal(Strip(c.s)).Some?)
    ensures c.Str? && r.Some? ==> r.value == Trunc(Value(ParseDecimal(Strip(c.s)).value))
  {
    match c
    case Int(i) => Some(i)
    case Float(x) => Some(Trunc(x))
    case Null => None
    case Str(s) =>
      (match ParseDecimal(Strip(s))
       case Some(d) => Some(Trunc(Value(d)))
       case None => None)
  }

  /** "%Y-%m-%d %H" */
  const HourFormat: Format := [Year, Lit('-'), Month, Lit('-'), Day, Lit(' '), Hour]
  /** "%Y-%m-%d %H:00:00" */
  const StampFormat: Format := HourFormat + [Lit(':'), Lit('0'), Lit('0'), Lit(':'), Lit('0'), Lit('0')]

  /**
   * _mk_dt: DATAHORA for one row, or None where the row's DATA and HORA_UTC
   * do not make a date and an hour. When it succeeds it is the DATA text
   * itself followed by the two-digit hour, which is 0 to 23, and ":00:00".
   */
  function MkDt(day: Cell, hour: Cell): (r: Option<string>)
    ensures r.Some? ==> DayText(day).Some? && HourOf(hour).Some? && 0 <= HourOf(hour).value < 24
    ensures r.Some? ==> r.value == DayText(day).value + " " + Pad2(HourOf(hour).value) + ":00:00"
  {
    match (DayText(day), HourOf(hour))
    case (Some(d), Some(h)) =>
      (match Strptime(d + " " + Pad2(h), HourFormat)
       case Some(dt) => StampOfHour(d, h, dt); Some(Strftime(dt, StampFormat))
       case None => None)
    case _ => None
  }

  /** What _mk_dt writes into the table: the text, or NaN where it raised. */
  function StampCell(day: Cell, hour: Cell): (r: Cell)
    ensures r.Null? || r.Str?
    ensures r.Str? <==> MkDt(day, hour).Some?
    ensures r.Str? ==> r.s == DayText(day).value + " " + Pad2(HourOf(hour).value) + ":00:00"
  {
    match MkDt(day, hour)
    case Some(s) => Str(s)
    case None => Null
  }

  /**
   * The converse of MkDt's contract: a row whose DATA is a date as
   * "%Y-%m-%d" writes it and whose HORA_UTC is an hour 0 to 23 gets its
   * DATAHORA.
   */
  lemma MkDtOfDate(dt: DateTime, h: nat)
    requires Valid(dt) && h < 24
    ensures MkDt(Str(Strftime(dt, DateFormat)), Int(h)) == Some(Strftime(dt, DateFormat) + " " + Pad2(h) + ":00:00")
  {
    var d := Strftime(dt, DateFormat);
    StrftimeEnds(dt, DateFormat);
    DigitEndsStripped(d);
    HourReads(dt, DateTime(dt.year, dt.month, dt.day, h, 0, 0));
  }

  /** The date "%Y-%m-%d" writes, a space and a padded hour read back with "%Y-%m-%d %H" as that hour of the day. */
  lemma HourReads(dt: DateTime, at: DateTime)
    requires Valid(dt) && at == DateTime(dt.year, dt.month, dt.day, at.hour, 0, 0) && at.hour < 24
    ensures Strptime(Strftime(dt, DateFormat) + " " + Pad2(at.hour), HourFormat) == Some(at)
  {
    assert Valid(at);
    DateTextOf(dt);
    DateTextOf(at);
    HourText(at);
    Pad2Fixed(at.hour);
    HourFormatDefaults(at);
    ReadBack(at, HourFormat, Strftime(dt, DateFormat) + " " + Pad2(at.hour));
  }

  /** "%Y-%m-%d" writes the year, month and day and nothing else. */
  lemma DateTextOf(dt: DateTime)
    ensures Strftime(dt, DateFormat) == FixedDigits(dt.year, 4) + "-" + FixedDigits(dt.month, 2) + "-" + FixedDigits(dt.day, 2)
  {
  }

  /** A date-time on the hour keeps strptime's defaults outside "%Y-%m-%d %H". */
  lemma HourFormatDefaults(dt: DateTime)
    requires dt.minute == 0 && dt.second == 0
    ensures AgreesOutside(Defaults, dt, HourFormat)
  {
    forall q: Piece | !q.Lit? && q !in HourFormat ensures Get(Defaults, q) == Get(dt, q) {
      assert HourFormat[0] == Year && HourFormat[2] == Month && HourFormat[4] == Day && HourFormat[6] == Hour;
    }
  }

  lemma HourFormatShape()
    ensures NoRepeat(HourFormat)
    ensures HourFormat == DateFormat + [Lit(' '), Hour]
  {
  }

  /** Text strftime writes with "%Y-%m-%d" holds no whitespace. */
  lemma DateTextNoSpace(dt: DateTime)
    ensures |Strftime(dt, DateFormat)| == 10 && NoSpace(Strftime(dt, DateFormat))
  {
    var y := FixedDigits(dt.year, 4);
    var m := FixedDigits(dt.month, 2);
    var d := FixedDigits(dt.day, 2);
    assert Strftime(dt, DateFormat) == y + "-" + m + "-" + d;
  }

  /** Two texts joined by one space split back at that space when neither side of the second has whitespace. */
  lemma SplitAtSpace(d: string, q: string, p: string, f: string)
    requires d + " " + q == p + " " + f && NoSpace(p) && NoSpace(f)
    ensures d == p && q == f
  {
    var s := d + " " + q;
    assert s[|d|] == ' ';
    assert |d| == |p|;
    assert d == s[..|d|] == p;
    assert q == s[|d| + 1..] == f;
  }

  /**
   * strptime accepts d + " " + HH with "%Y-%m-%d %H" only when d is the
   * date written back unchanged and HH is a two-digit hour 0 to 23; then
   * strftime with "%Y-%m-%d %H:00:00" writes d, HH and ":00:00".
   */
  lemma StampOfHour(d: string, h: int, dt: DateTime)
    requires Strptime(d + " " + Pad2(h), HourFormat) == Some(dt)
    ensures 0 <= h < 24
    ensures Strftime(dt, StampFormat) == d + " " + Pad2(h) + ":00:00"
  {
    HourParts(d, h, dt);
    HourFromDigits(h, dt.hour);
    HourText(dt);
    StampTail(dt);
  }

  /** The text strptime read is the date strftime writes, a space, and the hour's two digits. */
  lemma HourParts(d: string, h: int, dt: DateTime)
    requires Strptime(d + " " + Pad2(h), HourFormat) == Some(dt)
    ensures d == Strftime(dt, DateFormat) && Pad2(h) == FixedDigits(dt.hour, 2) && dt.hour < 24
  {
    HourFormatShape();
    DateTextNoSpace(dt);
    SpacedParts(d, Pad2(h), dt, DateFormat, HourFormat);
  }

  /** What strptime reads with a date format, a space and "%H" splits at the space. */
  lemma SpacedParts(d: string, q: string, dt: DateTime, date: Format, hour: Format)
    requires hour == date + [Lit(' '), Hour] && NoRepeat(hour)
    requires NoSpace(Strftime(dt, date))
    requires Strptime(d + " " + q, hour) == Some(dt)
    ensures d == Strftime(dt, date) && q == FixedDigits(dt.hour, 2) && dt.hour < 24
  {
    StrftimeOfStrptime(d + " " + q, hour);
    SpacedText(dt, date, hour);
    SplitAtSpace(d, q, Strftime(dt, date), FixedDigits(dt.hour, 2));
  }

  /** A date format, a space and "%H" write the date, a space and two digits. */
  lemma SpacedText(dt: DateTime, date: Format, hour: Format)
    requires hour == date + [Lit(' '), Hour]
    ensures Strftime(dt, hour) == Strftime(dt, date) + " " + FixedDigits(dt.hour, 2)
    ensures NoSpace(FixedDigits(dt.hour, 2))
  {
    var hh := FixedDigits(dt.hour, 2);
    StrftimeAppend(dt, date, [Lit(' '), Hour]);
    assert Strftime(dt, [Lit(' '), Hour]) == " " + hh;
    assert forall i :: 0 <= i < |hh| ==> IsDigit(hh[i]);
  }

  /** "%Y-%m-%d %H" writes the date, a space and the two-digit hour. */
  lemma HourText(dt: DateTime)
    ensures Strftime(dt, HourFormat) == Strftime(dt, DateFormat) + " " + FixedDigits(dt.hour, 2)
  {
    HourFormatShape();
    StrftimeAppend(dt, DateFormat, [Lit(' '), Hour]);
    assert Strftime(dt, [Lit(' '), Hour]) == " " + FixedDigits(dt.hour, 2);
  }

  /** f"{h:02d}" equal to the two digits of a valid hour H means h is H. */
  lemma HourFromDigits(h: int, hour: nat)
    requires Pad2(h) == FixedDigits(hour, 2) && hour < 24
    ensures h == hour
  {
    Pad2Shape(h);
    if h >= 0 {
      assert Pow10(2) == 100;
      FixedDigitsValue(hour, 2);
    }
  }

  /** "%Y-%m-%d %H:00:00" writes "%Y-%m-%d %H" and then ":00:00". */
  lemma StampTail(dt: DateTime)
    ensures Strftime(dt, StampFormat) == Strftime(dt, HourFormat) + ":00:00"
  {
    var half := [Lit(':'), Lit('0'), Lit('0')];
    assert StampFormat == HourFormat + (half + half);
    StrftimeAppend(dt, HourFormat, half + half);
    StrftimeAppend(dt, half, half);
    ThreeLits(dt, ':', '0', '0');
    assert [':', '0', '0'] + [':', '0', '0'] == ":00:00";
  }

  /** Three literal pieces write their three characters. */
  lemma ThreeLits(dt: DateTime, a: char, b: char, c: char)
    ensures Strftime(dt, [Lit(a), Lit(b), Lit(c)]) == [a, b, c]
  {
    var f := [Lit(a), Lit(b), Lit(c)];
    assert f[1..] == [Lit(b), Lit(c)] && f[1..][1..] == [Lit(c)] && f[1..][1..][1..] == [];
    assert Strftime(dt, [Lit(c)]) == [c];
    assert Strftime(dt, [Lit(b), Lit(c)]) == [b, c];
  }

  // ------------------------------------------------------------ the table

  /** tratar_numero applied to every cell of a row (DataFrame.map). */
  function CleanRow(row: Row): (r: Row)
    ensures |r| == |row|
    ensures forall k :: 0 <= k < |row| ==> r[k] == CleanNumber(row[k])
  {
    seq(|row|, k requires 0 <= k < |row| => CleanNumber(row[k]))
  }

  /** The table after the column filter, the renaming and the cell clean-up. */
  function Cleaned(t: Table): (r: Table)
    requires WellFormed(t)
    ensures WellFormed(r)
  {
    CleanCells(Rename(KeepColumns(t, IsNamed)))
  }

  /** df.map(tratar_numero) */
  function CleanCells(t: Table): (r: Table)
    requires WellFormed(t)
    ensures WellFormed(r) && r.header == t.header && |r.rows| == |t.rows|
    ensures forall i :: 0 <= i < |t.rows| ==> r.rows[i] == CleanRow(t.rows[i])
  {
    Table(t.header, seq(|t.rows|, i requires 0 <= i < |t.rows| => CleanRow(t.rows[i])))
  }

  /** The cleaned table with DATAHORA added when both DATA and HORA_UTC are columns. */
  function Stamped(t: Table): (r: Table)
    requires WellFormed(t)
    ensures WellFormed(r)
  {
    AddStamps(Cleaned(t))
  }

  /** df['DATAHORA'] = df.apply(_mk_dt, axis=1), done only when DATA and HORA_UTC are columns. */
  function AddStamps(c: Table): (r: Table)
    requires WellFormed(c)
    ensures WellFormed(r)
  {
    if "DATA" in c.header && "HORA_UTC" in c.header then
      var iD := IndexOf(c.header, "DATA");
      var iH := IndexOf(c.header, "HORA_UTC");
      SetColumn(c, "DATAHORA", seq(|c.rows|, i requires 0 <= i < |c.rows| => StampCell(c.rows[i][iD], c.rows[i][iH])))
    else c
  }

  /** What tratar_csv writes: the stamped table without the rows holding a missing cell. */
  function Output(t: Table): (r: Table)
    requires WellFormed(t)
  {
    var s := Stamped(t);
    Table(s.header, Kept(s.rows, NoNull))
  }

  /** tratar_csv, step by step as the source reassigns df. */
  method NormalizeWeather(t: Table) returns (out: Table)
    requires WellFormed(t)
    ensures out == Output(t)
  {
    var df := Rename(KeepColumns(t, IsNamed));
    df := CleanTable(df);
    df := StampTable(df);
    var kept := KeepRows(df.rows, NoNull);
    out := Table(df.header, kept);
  }

  /** df = df.map(tratar_numero) */
  method CleanTable(t: Table) returns (r: Table)
    requires WellFormed(t)
    ensures r == CleanCells(t)
  {
    var rows := Map(t.rows, CleanRow);
    r := Table(t.header, rows);
  }

  /** The DATAHORA assignment, when DATA and HORA_UTC are columns. */
  method StampTable(c: Table) returns (r: Table)
    requires WellFormed(c)
    ensures r == AddStamps(c)
  {
    r := c;
    if "DATA" in c.header && "HORA_UTC" in c.header {
      var iD := IndexOf(c.header, "DATA");
      var iH := IndexOf(c.header, "HORA_UTC");
      var w := |c.header|;
      var stamps := Map(c.rows, (row: Row) requires |row| == w => StampCell(row[iD], row[iH]));
      r := SetColumn(c, "DATAHORA", stamps);
    }
  }

  // ------------------------------------------------------------ what the output promises

  /** A name that differs from "Unnamed" at one of its first seven characters is not "Unnamed…". */
  lemma NamedAt(n: string, k: nat)
    requires k < 7 && k < |n| && n[k] != "Unnamed"[k]
    ensures IsNamed(n)
  {
    if |n| >= 7 {
      assert n[..7][k] == n[k];
    }
  }

  /** None of the names tratar_csv gives starts with "Unnamed". */
  lemma GivenNamesNamed()
    ensures forall n :: n in CanonicalNames ==> IsNamed(n)
    ensures IsNamed("DATAHORA")
  {
    NamedAt("DATAHORA", 0);
    NamedAt("DATA", 0);
    NamedAt("HORA_UTC", 0);
    NamedAt("TEMP_MAX_HORA_ANT_C", 0);
    NamedAt("TEMP_MIN_HORA_ANT_C", 0);
    NamedAt("UMID_REL_AR_PCT", 1);
    NamedAt("DIRECAO_VENTO_GRAUS", 0);
    NamedAt("VELOC_VENTO_MS", 0);
  }

  /** No column whose name starts with "Unnamed" survives. */
  lemma OutputNamed(t: Table, n: string)
    requires WellFormed(t) && n in Output(t).header
    ensures !IsUnnamed(n)
  {
    var k := KeepColumns(t, IsNamed);
    var c := Cleaned(t);
    assert Output(t).header == AddStamps(c).header;
    StampedNames(c, n);
    GivenNamesNamed();
    if n != "DATAHORA" {
      assert c.header == Rename(k).header;
      RenameNamed(k, n);
    }
  }

  /** Adding the stamps brings in no name but DATAHORA. */
  lemma StampedNames(c: Table, n: string)
    requires WellFormed(c) && n in AddStamps(c).header
    ensures n in c.header || n == "DATAHORA"
  {
  }

  /** Renaming a table whose names are all named leaves only named names. */
  lemma RenameNamed(k: Table, n: string)
    requires forall m :: m in k.header ==> IsNamed(m)
    requires forall m :: m in CanonicalNames ==> IsNamed(m)
    requires n in Rename(k).header
    ensures IsNamed(n)
  {
  }

  /**
   * The columns are renamed to the canonical names exactly when seven named
   * columns are left; otherwise they keep their names. DATAHORA, when it is
   * added, comes after them.
   */
  lemma OutputHeader(t: Table)
    requires WellFormed(t)
    ensures var k := KeepColumns(t, IsNamed);
      var h := Output(t).header;
      |h| >= |k.header| &&
      (|k.header| == 7 ==> h[..7] == CanonicalNames) &&
      (|k.header| != 7 ==> h[..|k.header|] == k.header)
  {
    var k := KeepColumns(t, IsNamed);
    var c := Cleaned(t);
    assert c.header == Rename(k).header;
    StampedHeader(c);
  }

  /** Adding the stamps keeps the header in front, with DATAHORA at most appended. */
  lemma StampedHeader(c: Table)
    requires WellFormed(c)
    ensures var h := AddStamps(c).header; |h| >= |c.header| && h[..|c.header|] == c.header
  {
    var h := AddStamps(c).header;
    assert h == c.header || h == c.header + ["DATAHORA"];
  }

  /** Every row written holds no missing cell. */
  lemma OutputNoNull(t: Table)
    requires WellFormed(t)
    ensures forall i :: 0 <= i < |Output(t).rows| ==> NoNull(Output(t).rows[i])
  {
  }

  /** Every stamped row without a missing cell is written. */
  lemma OutputKeepsComplete(t: Table, row: Row)
    requires WellFormed(t) && row in Stamped(t).rows && NoNull(row)
    ensures row in Output(t).rows
  {
    KeptMembers(Stamped(t).rows, NoNull, row);
  }

  /**
   * When DATA and HORA_UTC are columns, every row written has DATAHORA equal
   * to its DATA text, a space, its hour as two digits 0 to 23, and ":00:00";
   * a row whose DATA and HORA_UTC do not give such a stamp is not written.
   */
  lemma OutputStamps(t: Table, i: nat)
    requires WellFormed(t)
    requires "DATA" in Cleaned(t).header && "HORA_UTC" in Cleaned(t).header
    requires i < |Output(t).rows|
    ensures var o := Output(t);
      "DATAHORA" in o.header && "DATA" in o.header && "HORA_UTC" in o.header &&
      |o.rows[i]| == |o.header| && StampedAs(o.header, o.rows[i])
  {
    var c := Cleaned(t);
    var s := Stamped(t);
    var row := Output(t).rows[i];
    assert row in s.rows && NoNull(row);
    var j :| 0 <= j < |s.rows| && s.rows[j] == row;
    StampedCell(t, j);
    StampFilled(s.header, row);
  }

  /** DATAHORA holds the stamp of the row's own DATA and HORA_UTC. */
  predicate CarriesStamp(h: seq<string>, row: Row)
    requires "DATAHORA" in h && "DATA" in h && "HORA_UTC" in h && |row| == |h|
  {
    row[IndexOf(h, "DATAHORA")] == StampCell(row[IndexOf(h, "DATA")], row[IndexOf(h, "HORA_UTC")])
  }

  /** Every stamped row carries its own stamp. */
  lemma StampedCell(t: Table, j: nat)
    requires WellFormed(t)
    requires "DATA" in Cleaned(t).header && "HORA_UTC" in Cleaned(t).header
    requires j < |Stamped(t).rows|
    ensures var s := Stamped(t);
      "DATAHORA" in s.header && "DATA" in s.header && "HORA_UTC" in s.header &&
      |s.rows[j]| == |s.header| && CarriesStamp(s.header, s.rows[j])
  {
    StampedRow(t, j);
  }

  /**
   * The row's DATAHORA is its DATA text, a space, its hour as two digits
   * 0 to 23, and ":00:00", as _mk_dt writes it.
   */
  predicate StampedAs(h: seq<string>, row: Row)
    requires "DATAHORA" in h && "DATA" in h && "HORA_UTC" in h && |row| == |h|
  {
    var day := row[IndexOf(h, "DATA")];
    var hour := row[IndexOf(h, "HORA_UTC")];
    MkDt(day, hour).Some? &&
    row[IndexOf(h, "DATAHORA")] == Str(DayText(day).value + " " + Pad2(HourOf(hour).value) + ":00:00") &&
    0 <= HourOf(hour).value < 24
  }

  /** A row with no missing cell whose DATAHORA is the stamp of its DATA and HORA_UTC is stamped as _mk_dt writes. */
  lemma StampFilled(h: seq<string>, row: Row)
    requires "DATAHORA" in h && "DATA" in h && "HORA_UTC" in h && |row| == |h| && NoNull(row)
    requires CarriesStamp(h, row)
    ensures StampedAs(h, row)
  {
    assert row[IndexOf(h, "DATAHORA")] != Null;
  }

  /** Row j of the stamped table keeps DATA and HORA_UTC where they were, and DATAHORA holds their stamp. */
  lemma StampedRow(t: Table, j: nat)
    requires WellFormed(t)
    requires "DATA" in Cleaned(t).header && "HORA_UTC" in Cleaned(t).header
    requires j < |Stamped(t).rows|
    ensures var c, s := Cleaned(t), Stamped(t);
      var iD, iH := IndexOf(c.header, "DATA"), IndexOf(c.header, "HORA_UTC");
      "DATAHORA" in s.header && IndexOf(s.header, "DATA") == iD && IndexOf(s.header, "HORA_UTC") == iH &&
      j < |c.rows| && s.rows[j][iD] == c.rows[j][iD] && s.rows[j][iH] == c.rows[j][iH] &&
      s.rows[j][IndexOf(s.header, "DATAHORA")] == StampCell(c.rows[j][iD], c.rows[j][iH])
  {
    var c := Cleaned(t);
    var s := Stamped(t);
    var iD := IndexOf(c.header, "DATA");
    var iH := IndexOf(c.header, "HORA_UTC");
    if "DATAHORA" in c.header {
      assert IndexOf(s.header, "DATA") == iD;
    } else {
      IndexOfAppend(c.header, ["DATAHORA"], "DATA");
      IndexOfAppend(c.header, ["DATAHORA"], "HORA_UTC");
    }
    assert s.rows[j][IndexOf(s.header, "DATAHORA")] == Column(s, "DATAHORA")[j];
    assert s.rows[j][iD] == Column(s, "DATA")[j] == Column(c, "DATA")[j];
    assert s.rows[j][iH] == Column(s, "HORA_UTC")[j] == Column(c, "HORA_UTC")[j];
  }

  /** A row whose hour is 24 gets no stamp: strptime refuses "%H" = 24. */
  lemma NoStampForHour24(day: Cell)
    ensures MkDt(day, Int(24)).None?
  {
  }
}
