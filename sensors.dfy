/**
 * The sensor readings: tratar_dados_sensores (column names normalized and
 * mapped onto the data dictionary, text trimmed, locations replaced by a
 * salted digest, readings and timestamps parsed, incomplete rows dropped),
 * then the integration pass of process_dados_sensores (DATAHORA, canonical
 * unit and canonical metric).
 */
module Sensors {
  import opened Wrappers
  import opened Text
  import opened Tables
  import opened Numbers
  import opened Dates

  /** The salt used when SENSORS_LOCATION_SALT is not set (app/config.py). */
  const DefaultSalt: string := "change-me-salt"

  // ------------------------------------------------------------ column names

  /** A header name trimmed, lower-cased, with blanks and hyphens made underscores. */
  function NormalizeName(c: string): (r: string)
    ensures |r| == |Strip(c)|
    ensures ' ' !in r && '-' !in r
    ensures forall i :: 0 <= i < |r| ==> !IsCapital(r[i])
    ensures r == [] || (!IsSpace(r[0]) && !IsSpace(r[|r| - 1]))
    ensures forall i :: 0 <= i < |r| ==>
      r[i] == (if Strip(c)[i] == ' ' || Strip(c)[i] == '-' then '_' else LowerChar(Strip(c)[i]))
  {
    ReplaceChar(ReplaceChar(Lower(Strip(c)), ' ', '_'), '-', '_')
  }

  /** A normalized name is normalized already. */
  lemma NormalizeNameIdempotent(c: string)
    ensures NormalizeName(NormalizeName(c)) == NormalizeName(c)
  {
    var r := NormalizeName(c);
    StripNoOp(r);
    assert Lower(r) == r;
    ReplaceAbsent(r, ' ', '_');
    ReplaceAbsent(r, '-', '_');
  }

  /** col_map: the accepted variants of the dictionary's names. */
  const Aliases: map<string, string> := map[
    "sensor_model" := "sensor_model",
    "measure_unit" := "measure_unit",
    "device" := "device",
    "location" := "location",
    "data_type" := "data_type",
    "tipo_dado" := "data_type",
    "data" := "data",
    "valor" := "data",
    "created_at" := "created_at",
    "timestamp" := "created_at"
  ]

  /** The data dictionary's columns, in output order. */
  const Expected: seq<string> := ["sensor_model", "measure_unit", "device", "location", "data_type", "data", "created_at"]

  /** col_map.get(c, c) */
  function Rename(n: string): (r: string)
    ensures n in Aliases ==> r in Expected
    ensures n !in Aliases ==> r == n
  {
    if n in Aliases then Aliases[n] else n
  }

  /** The name a raw header name ends up with. */
  function CanonicalName(c: string): string {
    Rename(NormalizeName(c))
  }

  /** Every spelling of a dictionary name differing only in case, padding, blanks or hyphens lands on that name. */
  lemma CanonicalNameVariants(c: string, n: string)
    requires n in Aliases && NormalizeName(c) == n
    ensures CanonicalName(c) == Aliases[n] && CanonicalName(c) in Expected
  {
  }

  /** The names of wanted that the header holds, in the order of wanted. */
  function PresentIn(h: seq<string>, wanted: seq<string>): (r: seq<string>)
    ensures |r| <= |wanted|
    ensures forall n :: n in r <==> n in wanted && n in h
  {
    if wanted == [] then []
    else
      var last := wanted[|wanted| - 1];
      PresentIn(h, wanted[..|wanted| - 1]) + (if last in h then [last] else [])
  }

  /** Names that occur once in wanted occur once in the selection. */
  lemma {:induction false} PresentInDistinct(h: seq<string>, wanted: seq<string>)
    requires forall j, k :: 0 <= j < k < |wanted| ==> wanted[j] != wanted[k]
    ensures var r := PresentIn(h, wanted); forall j, k :: 0 <= j < k < |r| ==> r[j] != r[k]
  {
    if wanted != [] {
      var init := wanted[..|wanted| - 1];
      var last := wanted[|wanted| - 1];
      PresentInDistinct(h, init);
      assert last !in init;
      assert last !in PresentIn(h, init);
    }
  }

  /** df[names]: the columns called names, in that order (each name taken at its first position). */
  function Select(t: Table, names: seq<string>): (r: Table)
    requires WellFormed(t) && forall n :: n in names ==> n in t.header
    ensures WellFormed(r) && r.header == names && |r.rows| == |t.rows|
    ensures forall n :: n in names ==> Column(r, n) == Column(t, n)
  {
    var idx := seq(|names|, j requires 0 <= j < |names| => IndexOf(t.header, names[j]));
    var r := Project(t, idx);
    assert r.header == names;
    assert forall n :: n in names ==> Column(r, n) == Column(t, n) by {
      forall n | n in names ensures Column(r, n) == Column(t, n) {
        var j := IndexOf(names, n);
        assert forall i :: 0 <= i < |t.rows| ==> Column(r, n)[i] == t.rows[i][idx[j]];
      }
    }
    r
  }

  // ------------------------------------------------------------ cell passes

  /** df[name] = df[name].map(f), when the column exists. */
  function MapColumn(t: Table, name: string, f: Cell -> Cell): (r: Table)
    requires WellFormed(t)
    ensures WellFormed(r) && r.header == t.header && |r.rows| == |t.rows|
    ensures name in t.header ==> forall i :: 0 <= i < |t.rows| ==> Column(r, name)[i] == f(Column(t, name)[i])
    ensures forall n :: n in t.header && n != name ==> Column(r, n) == Column(t, n)
    ensures name !in t.header ==> r == t
  {
    if name in t.header then
      SetColumn(t, name, seq(|t.rows|, i requires 0 <= i < |t.rows| => f(Column(t, name)[i])))
    else t
  }

  /** _normalize_text: text is trimmed, anything else is kept. */
  function CleanText(c: Cell): (r: Cell)
    ensures r.Null? <==> c.Null?
    ensures r.Str? <==> c.Str?
    ensures r.Str? ==> r.s == [] || (!IsSpace(r.s[0]) && !IsSpace(r.s[|r.s| - 1]))
    ensures !c.Str? ==> r == c
  {
    if c.Str? then Str(Strip(c.s)) else c
  }

  /** Trimming twice is trimming once. */
  lemma CleanTextIdempotent(c: Cell)
    ensures CleanText(CleanText(c)) == CleanText(c)
  {
    if c.Str? {
      StripIdempotent(c.s);
    }
  }

  /** The columns _normalize_text runs over. */
  const TextColumns: seq<string> := ["sensor_model", "measure_unit", "device", "data_type"]

  /** The text pass over each of cols in turn. */
  function CleanTextColumns(t: Table, cols: seq<string>): (r: Table)
    requires WellFormed(t)
    ensures WellFormed(r) && r.header == t.header && |r.rows| == |t.rows|
    ensures forall n :: n in t.header && n in cols ==>
      forall i :: 0 <= i < |t.rows| ==> Column(r, n)[i] == CleanText(Column(t, n)[i])
    ensures forall n :: n in t.header && n !in cols ==> Column(r, n) == Column(t, n)
  {
    if cols == [] then t
    else
      var init := cols[..|cols| - 1];
      var last := cols[|cols| - 1];
      var prev := CleanTextColumns(t, init);
      var r := MapColumn(prev, last, CleanText);
      assert forall n :: n in cols <==> n in init || n == last;
      assert forall x :: CleanText(CleanText(x)) == CleanText(x) by {
        forall x ensures CleanText(CleanText(x)) == CleanText(x) {
          CleanTextIdempotent(x);
        }
      }
      r
  }

  /**
   * _anonymize_location: the hex digest of salt, "::" and the trimmed
   * location; "" for a blank location or one that is not text. The digest
   * function is a parameter (hashlib.sha256 over the UTF-8 bytes).
   */
  function Anonymize(c: Cell, salt: string, hash: string -> string): (r: Cell)
    ensures r.Str?
    ensures r.s == "" <==> !c.Str? || Strip(c.s) == "" || hash(salt + "::" + Strip(c.s)) == ""
  {
    if !c.Str? || Strip(c.s) == "" then Str("")
    else Str(hash(salt + "::" + Strip(c.s)))
  }

  /** The digest hides padding: locations that trim alike anonymize alike. */
  lemma AnonymizeTrimBlind(s: string, salt: string, hash: string -> string)
    ensures Anonymize(Str(s), salt, hash) == Anonymize(Str(Strip(s)), salt, hash)
  {
    StripIdempotent(s);
  }

  /**
   * With an injective digest that is never empty, two non-blank
   * locations get the same digest exactly when they are the same after
   * trimming, and never the blank marker.
   */
  lemma AnonymizeSeparates(a: string, b: string, salt: string, hash: string -> string)
    requires forall x :: hash(x) != ""
    requires forall x, y :: hash(x) == hash(y) ==> x == y
    requires Strip(a) != "" && Strip(b) != ""
    ensures Anonymize(Str(a), salt, hash) != Str("")
    ensures Anonymize(Str(a), salt, hash) == Anonymize(Str(b), salt, hash) <==> Strip(a) == Strip(b)
  {
    var x := salt + "::" + Strip(a);
    var y := salt + "::" + Strip(b);
    assert hash(x) != "";
    if hash(x) == hash(y) {
      assert x == y;
      assert x[|salt| + 2..] == Strip(a);
      assert y[|salt| + 2..] == Strip(b);
    }
  }

  /** With an injective digest, one location under two different salts gets two different digests. */
  lemma AnonymizeSaltSensitive(a: string, salt1: string, salt2: string, hash: string -> string)
    requires forall x, y :: hash(x) == hash(y) ==> x == y
    requires Strip(a) != "" && salt1 != salt2
    ensures Anonymize(Str(a), salt1, hash) != Anonymize(Str(a), salt2, hash)
  {
    var x := salt1 + "::" + Strip(a);
    var y := salt2 + "::" + Strip(a);
    if |salt1| == |salt2| {
      assert x[..|salt1|] == salt1 && y[..|salt2|] == salt2;
    } else {
      assert |x| != |y|;
    }
    assert x != y;
  }

  /** _parse_float as the column map stores it: the float, or a missing cell. */
  function ParseFloatCell(c: Cell): (r: Cell)
    ensures r.Float? || r.Null?
    ensures r.Null? <==> ParseFloat(c).None?
  {
    match ParseFloat(c)
    case Some(x) => Float(x)
    case None => Null
  }

  /** _parse_datetime as the column map stores it: the canonical text, or a missing cell. */
  function ParseDatetimeCell(c: Cell): (r: Cell)
    ensures r.Str? || r.Null?
    ensures r.Null? <==> ParseDatetime(c).None?
    ensures r.Str? ==> IsCanonical(r.s)
    ensures r.Str? ==> c.Str? && Strptime(r.s, IsoFormat) == FirstMatch(Strip(c.s), Accepted)
  {
    match ParseDatetime(c)
    case Some(s) => Str(s)
    case None => Null
  }

  /** A stored timestamp goes through the parser unchanged. */
  lemma ParseDatetimeCellIdempotent(c: Cell)
    ensures ParseDatetimeCell(ParseDatetimeCell(c)) == ParseDatetimeCell(c)
  {
    if ParseDatetime(c).Some? {
      ParseDatetimeIdempotent(c);
    }
  }

  /** A stored reading goes through the parser unchanged. */
  lemma ParseFloatCellIdempotent(c: Cell)
    ensures ParseFloatCell(ParseFloatCell(c)) == ParseFloatCell(c)
  {
  }

  // ------------------------------------------------------------ dropna

  /** The fields without which a reading is dropped. */
  const Critical: seq<string> := ["data", "created_at", "data_type"]

  /** A row with none of the critical fields missing. */
  function Complete(h: seq<string>, crit: seq<string>): (keep: Row -> bool)
    requires forall c :: c in crit ==> c in h
  {
    (row: Row) => |row| == |h| && forall c :: c in crit ==> row[IndexOf(h, c)] != Null
  }

  /** df.dropna(subset=critical), done only when some critical column exists. */
  function DropIncomplete(t: Table): (r: Table)
    requires WellFormed(t)
    ensures WellFormed(r) && r.header == t.header && |r.rows| <= |t.rows|
  {
    var crit := PresentIn(t.header, Critical);
    if crit == [] then t else Table(t.header, Kept(t.rows, Complete(t.header, crit)))
  }

  // ------------------------------------------------------------ tratar_dados_sensores

  /** The table with its header renamed onto the dictionary. */
  function Renamed(t: Table): (r: Table)
    ensures |r.header| == |t.header| && r.rows == t.rows
    ensures forall k :: 0 <= k < |t.header| ==> r.header[k] == CanonicalName(t.header[k])
  {
    Table(seq(|t.header|, k requires 0 <= k < |t.header| => CanonicalName(t.header[k])), t.rows)
  }

  /** The dictionary columns the renamed table holds, and nothing else. */
  function Selected(t: Table): (r: Table)
    requires WellFormed(t)
    ensures WellFormed(r) && |r.rows| == |t.rows|
    ensures r.header == PresentIn(Renamed(t).header, Expected)
  {
    var t0 := Renamed(t);
    Select(t0, PresentIn(t0.header, Expected))
  }

  /** The cell passes, column by column. */
  function Parsed(t: Table, salt: string, hash: string -> string): (r: Table)
    requires WellFormed(t)
    ensures WellFormed(r) && r.header == t.header && |r.rows| == |t.rows|
  {
    var t2 := CleanTextColumns(t, TextColumns);
    var t3 := MapColumn(t2, "location", c => Anonymize(c, salt, hash));
    var t4 := MapColumn(t3, "data", ParseFloatCell);
    MapColumn(t4, "created_at", ParseDatetimeCell)
  }

  /** What tratar_dados_sensores writes. */
  function Output(t: Table, salt: string, hash: string -> string): (r: Table)
    requires WellFormed(t)
    ensures WellFormed(r) && r.header == Selected(t).header
  {
    DropIncomplete(Parsed(Selected(t), salt, hash))
  }

  /** [c for c in wanted if c in h] */
  method Present(h: seq<string>, wanted: seq<string>) returns (r: seq<string>)
    ensures r == PresentIn(h, wanted)
  {
    r := [];
    for k := 0 to |wanted|
      invariant r == PresentIn(h, wanted[..k])
    {
      assert wanted[..k + 1][..k] == wanted[..k];
      if wanted[k] in h {
        r := r + [wanted[k]];
      }
    }
    assert wanted[..|wanted|] == wanted;
  }

  /** if name in df.columns: df[name] = df[name].map(f) */
  method ApplyColumn(t: Table, name: string, f: Cell -> Cell) returns (r: Table)
    requires WellFormed(t)
    ensures r == MapColumn(t, name, f)
  {
    r := t;
    if name in t.header {
      var cells := Map(Column(t, name), f);
      r := SetColumn(t, name, cells);
    }
  }

  /** The loop over the text columns. */
  method CleanTextLoop(t: Table) returns (r: Table)
    requires WellFormed(t)
    ensures r == CleanTextColumns(t, TextColumns)
  {
    r := t;
    for k := 0 to |TextColumns|
      invariant WellFormed(r)
      invariant r == CleanTextColumns(t, TextColumns[..k])
    {
      assert TextColumns[..k + 1][..k] == TextColumns[..k];
      r := ApplyColumn(r, TextColumns[k], CleanText);
    }
    assert TextColumns[..|TextColumns|] == TextColumns;
  }

  /** tratar_dados_sensores on the table read_csv gives, one pass after the other. */
  method NormalizeSensors(t: Table, salt: string, hash: string -> string) returns (out: Table)
    requires WellFormed(t)
    ensures out == Output(t, salt, hash)
  {
    var header := Map(t.header, CanonicalName);
    var df := Table(header, t.rows);
    assert df == Renamed(t);
    var present := Present(df.header, Expected);
    df := Select(df, present);
    df := CleanTextLoop(df);
    df := ApplyColumn(df, "location", c => Anonymize(c, salt, hash));
    df := ApplyColumn(df, "data", ParseFloatCell);
    df := ApplyColumn(df, "created_at", ParseDatetimeCell);
    var critical := Present(df.header, Critical);
    if critical != [] {
      var rows := KeepRows(df.rows, Complete(df.header, critical));
      df := Table(df.header, rows);
    }
    out := df;
  }

  // ------------------------------------------------------------ what tratar_dados_sensores promises

  lemma ExpectedDistinct()
    ensures forall j, k :: 0 <= j < k < |Expected| ==> Expected[j] != Expected[k]
  {
  }

  /**
   * The output columns are the dictionary's names the input has under some
   * spelling, each once, in the dictionary's order.
   */
  lemma OutputHeader(t: Table, salt: string, hash: string -> string)
    requires WellFormed(t)
    ensures var o := Output(t, salt, hash);
      o.header == PresentIn(Renamed(t).header, Expected) &&
      (forall n :: n in o.header <==> n in Expected && exists k :: 0 <= k < |t.header| && CanonicalName(t.header[k]) == n) &&
      (forall j, k :: 0 <= j < k < |o.header| ==> o.header[j] != o.header[k])
  {
    var h := Renamed(t).header;
    RenamedNames(t);
    ExpectedDistinct();
    PresentInDistinct(h, Expected);
  }

  /** The renamed header holds exactly the canonical names of the input's columns. */
  lemma RenamedNames(t: Table)
    ensures forall n :: n in Renamed(t).header <==> exists k :: 0 <= k < |t.header| && CanonicalName(t.header[k]) == n
  {
    var h := Renamed(t).header;
    forall n ensures n in h <==> exists k :: 0 <= k < |t.header| && CanonicalName(t.header[k]) == n {
      if n in h {
        var k :| 0 <= k < |h| && h[k] == n;
        assert CanonicalName(t.header[k]) == n;
      }
    }
  }

  /** The cells of row i after the cell passes, in terms of the selected input. */
  lemma ParsedCells(s: Table, salt: string, hash: string -> string, i: nat)
    requires WellFormed(s) && i < |s.rows|
    ensures var p := Parsed(s, salt, hash);
      ("data" in s.header ==> Column(p, "data")[i] == ParseFloatCell(Column(s, "data")[i])) &&
      ("created_at" in s.header ==> Column(p, "created_at")[i] == ParseDatetimeCell(Column(s, "created_at")[i])) &&
      ("data_type" in s.header ==> Column(p, "data_type")[i] == CleanText(Column(s, "data_type")[i])) &&
      ("location" in s.header ==> Column(p, "location")[i] == Anonymize(Column(s, "location")[i], salt, hash))
  {
    ParsedData(s, salt, hash, i);
    ParsedCreatedAt(s, salt, hash, i);
    ParsedDataType(s, salt, hash, i);
    ParsedLocation(s, salt, hash, i);
  }

  lemma ParsedData(s: Table, salt: string, hash: string -> string, i: nat)
    requires WellFormed(s) && i < |s.rows|
    ensures "data" in s.header ==> Column(Parsed(s, salt, hash), "data")[i] == ParseFloatCell(Column(s, "data")[i])
  {
    if "data" in s.header {
      var t2 := CleanTextColumns(s, TextColumns);
      var t3 := MapColumn(t2, "location", c => Anonymize(c, salt, hash));
      var t4 := MapColumn(t3, "data", ParseFloatCell);
      assert "data" !in TextColumns;
      assert Column(t3, "data") == Column(t2, "data") == Column(s, "data");
      assert Parsed(s, salt, hash) == MapColumn(t4, "created_at", ParseDatetimeCell);
    }
  }

  lemma ParsedCreatedAt(s: Table, salt: string, hash: string -> string, i: nat)
    requires WellFormed(s) && i < |s.rows|
    ensures "created_at" in s.header ==>
      Column(Parsed(s, salt, hash), "created_at")[i] == ParseDatetimeCell(Column(s, "created_at")[i])
  {
    if "created_at" in s.header {
      var t2 := CleanTextColumns(s, TextColumns);
      var t3 := MapColumn(t2, "location", c => Anonymize(c, salt, hash));
      var t4 := MapColumn(t3, "data", ParseFloatCell);
      assert "created_at" !in TextColumns;
      assert Column(t4, "created_at") == Column(t3, "created_at") == Column(t2, "created_at") == Column(s, "created_at");
      assert Parsed(s, salt, hash) == MapColumn(t4, "created_at", ParseDatetimeCell);
    }
  }

  lemma ParsedDataType(s: Table, salt: string, hash: string -> string, i: nat)
    requires WellFormed(s) && i < |s.rows|
    ensures "data_type" in s.header ==> Column(Parsed(s, salt, hash), "data_type")[i] == CleanText(Column(s, "data_type")[i])
  {
    if "data_type" in s.header {
      var t2 := CleanTextColumns(s, TextColumns);
      var t3 := MapColumn(t2, "location", c => Anonymize(c, salt, hash));
      var t4 := MapColumn(t3, "data", ParseFloatCell);
      assert "data_type" in TextColumns;
      assert Column(t4, "data_type") == Column(t3, "data_type") == Column(t2, "data_type");
      assert Parsed(s, salt, hash) == MapColumn(t4, "created_at", ParseDatetimeCell);
    }
  }

  lemma ParsedLocation(s: Table, salt: string, hash: string -> string, i: nat)
    requires WellFormed(s) && i < |s.rows|
    ensures "location" in s.header ==>
      Column(Parsed(s, salt, hash), "location")[i] == Anonymize(Column(s, "location")[i], salt, hash)
  {
    if "location" in s.header {
      var t2 := CleanTextColumns(s, TextColumns);
      var t3 := MapColumn(t2, "location", c => Anonymize(c, salt, hash));
      var t4 := MapColumn(t3, "data", ParseFloatCell);
      assert "location" !in TextColumns;
      assert Column(t2, "location") == Column(s, "location");
      assert Column(t4, "location") == Column(t3, "location");
      assert Parsed(s, salt, hash) == MapColumn(t4, "created_at", ParseDatetimeCell);
    }
  }

  /** Row k has every critical field the table holds. */
  predicate Filled(p: Table, k: nat)
    requires WellFormed(p) && k < |p.rows|
  {
    ("data" in p.header ==> Column(p, "data")[k] != Null) &&
    ("created_at" in p.header ==> Column(p, "created_at")[k] != Null) &&
    ("data_type" in p.header ==> Column(p, "data_type")[k] != Null)
  }

  lemma CriticalPresent(h: seq<string>)
    ensures forall c :: c in PresentIn(h, Critical) <==>
      (c == "data" && "data" in h) || (c == "created_at" && "created_at" in h) || (c == "data_type" && "data_type" in h)
  {
  }

  /** dropna keeps row k exactly when it has every critical field. */
  lemma DropKeeps(p: Table, k: nat)
    requires WellFormed(p) && k < |p.rows|
    ensures p.rows[k] in DropIncomplete(p).rows <==> Filled(p, k)
  {
    var crit := PresentIn(p.header, Critical);
    CriticalPresent(p.header);
    var x := p.rows[k];
    if crit != [] {
      KeptMembers(p.rows, Complete(p.header, crit), x);
      assert forall c :: c in crit ==> x[IndexOf(p.header, c)] == Column(p, c)[k];
    }
  }

  /** Every row dropna keeps is a row of the table that has every critical field. */
  lemma DropOnly(p: Table, i: nat)
    requires WellFormed(p) && i < |DropIncomplete(p).rows|
    ensures DropIncomplete(p).header == p.header && WellFormed(DropIncomplete(p))
    ensures exists k :: 0 <= k < |p.rows| && DropIncomplete(p).rows[i] == p.rows[k] && Filled(p, k)
  {
    var d := DropIncomplete(p);
    var crit := PresentIn(p.header, Critical);
    var x := d.rows[i];
    if crit != [] {
      KeptMembers(p.rows, Complete(p.header, crit), x);
    }
    assert x in p.rows;
    var k :| 0 <= k < |p.rows| && p.rows[k] == x;
    DropKeeps(p, k);
  }

  /**
   * Row i of the selected input has a value that parses as a number, a
   * timestamp an accepted format reads, and a type, for each of these
   * columns the table has.
   */
  predicate Readable(s: Table, i: nat)
    requires WellFormed(s) && i < |s.rows|
  {
    ("data" in s.header ==> ParseFloat(Column(s, "data")[i]).Some?) &&
    ("created_at" in s.header ==> ParseDatetime(Column(s, "created_at")[i]).Some?) &&
    ("data_type" in s.header ==> Column(s, "data_type")[i] != Null)
  }

  /**
   * A reading survives exactly when the fields the file has among data,
   * created_at and data_type are all usable: the value parses as a number,
   * the timestamp reads with an accepted format, and the type is not missing.
   */
  lemma OutputKeepsRow(t: Table, salt: string, hash: string -> string, i: nat)
    requires WellFormed(t) && i < |t.rows|
    ensures var s := Selected(t);
      Parsed(s, salt, hash).rows[i] in Output(t, salt, hash).rows <==> Readable(s, i)
  {
    var s := Selected(t);
    var p := Parsed(s, salt, hash);
    assert Output(t, salt, hash) == DropIncomplete(p);
    DropKeeps(p, i);
    FilledParsed(s, salt, hash, i);
  }

  /** A parsed row has every critical field exactly when its input cells parse. */
  lemma FilledParsed(s: Table, salt: string, hash: string -> string, i: nat)
    requires WellFormed(s) && i < |s.rows|
    ensures Filled(Parsed(s, salt, hash), i) <==> Readable(s, i)
  {
    ParsedCells(s, salt, hash, i);
    if "data_type" in s.header {
      var c := Column(s, "data_type")[i];
      assert CleanText(c).Null? <==> c.Null?;
    }
  }

  /** The cells of output row i are those of some parsed row k that has every critical field. */
  lemma OutputRowFrom(t: Table, salt: string, hash: string -> string, i: nat) returns (k: nat)
    requires WellFormed(t)
    requires i < |Output(t, salt, hash).rows|
    ensures var p := Parsed(Selected(t), salt, hash); var o := Output(t, salt, hash);
      WellFormed(o) && o.header == p.header && k < |p.rows| && Filled(p, k) &&
      i < |o.rows| && SameCells(o, i, p, k)
  {
    var p := Parsed(Selected(t), salt, hash);
    var o := Output(t, salt, hash);
    DropOnly(p, i);
    k :| 0 <= k < |p.rows| && o.rows[i] == p.rows[k] && Filled(p, k);
    SameRowSameCells(o, p, i, k);
  }

  /** Row i of o and row k of p agree in every column of p. */
  predicate SameCells(o: Table, i: nat, p: Table, k: nat)
    requires WellFormed(o) && WellFormed(p) && o.header == p.header
    requires i < |o.rows| && k < |p.rows|
  {
    forall n :: n in p.header ==> Column(o, n)[i] == Column(p, n)[k]
  }

  /** Equal rows under equal headers have equal cells. */
  lemma SameRowSameCells(o: Table, p: Table, i: nat, k: nat)
    requires WellFormed(o) && WellFormed(p) && o.header == p.header
    requires i < |o.rows| && k < |p.rows| && o.rows[i] == p.rows[k]
    ensures SameCells(o, i, p, k)
  {
  }

  /**
   * Row i has a number in data, a canonical timestamp in created_at, a
   * data_type, and text in location, for each of these columns the table has.
   */
  predicate Usable(o: Table, i: nat)
    requires WellFormed(o) && i < |o.rows|
  {
    ("data" in o.header ==> Column(o, "data")[i].Float?) &&
    ("created_at" in o.header ==> Column(o, "created_at")[i].Str? && IsCanonical(Column(o, "created_at")[i].s)) &&
    ("data_type" in o.header ==> Column(o, "data_type")[i] != Null) &&
    ("location" in o.header ==> Column(o, "location")[i].Str?)
  }

  /**
   * Every row written has a number in data, a canonical timestamp in
   * created_at, a data_type, and text (a digest or "") in location.
   */
  lemma OutputCells(t: Table, salt: string, hash: string -> string, i: nat)
    requires WellFormed(t)
    requires i < |Output(t, salt, hash).rows|
    ensures var o := Output(t, salt, hash);
      WellFormed(o) && o.header == Selected(t).header && Usable(o, i)
  {
    var s := Selected(t);
    var k := OutputRowFrom(t, salt, hash, i);
    ParsedCells(s, salt, hash, k);
  }

  // ------------------------------------------------------------ process_dados_sensores, second pass

  /** unit_map */
  const UnitMap: map<string, string> := map[
    "kwh" := "kWh", "wh" := "Wh", "w" := "W", "%" := "pct",
    "v" := "V", "\U{B0}c" := "C", "c" := "C", "a" := "A"
  ]

  /** metric_map */
  const MetricMap: map<string, string> := map[
    "energia" := "energy", "energy" := "energy",
    "pot\U{EA}ncia" := "power", "potencia" := "power", "power" := "power",
    "fator de pot\U{EA}ncia" := "power_factor", "fator de potencia" := "power_factor", "power factor" := "power_factor",
    "tens\U{E3}o" := "voltage", "tensao" := "voltage", "voltage" := "voltage",
    "temperatura" := "temperature", "temperature" := "temperature",
    "corrente" := "current", "current" := "current"
  ]

  /**
   * _canon_unit and _canon_metric: text is looked up trimmed and lower-cased
   * and replaced by its canonical name, or kept trimmed when it has none;
   * anything else passes through.
   */
  function Canon(table: map<string, string>, c: Cell): (r: Cell)
    ensures !c.Str? ==> r == c
    ensures c.Str? ==> r.Str? && (r.s in table.Values || r.s == Strip(c.s))
    ensures c.Str? && Lower(Strip(c.s)) in table ==> r.s == table[Lower(Strip(c.s))]
    ensures c.Str? && Lower(Strip(c.s)) !in table ==> r == Str(Strip(c.s))
  {
    if !c.Str? then c
    else
      var key := Lower(Strip(c.s));
      if key in table then Str(table[key]) else Str(Strip(c.s))
  }

  /** v is its own canonical name under table. */
  predicate Fixed(table: map<string, string>, v: string) {
    (Lower(Strip(v)) in table ==> table[Lower(Strip(v))] == v) &&
    (Lower(Strip(v)) !in table ==> Strip(v) == v)
  }

  /** Every canonical name is its own canonical name. */
  predicate Closed(table: map<string, string>) {
    forall k :: k in table ==> Fixed(table, table[k])
  }

  /** Canonicalizing twice is canonicalizing once, for a table closed under its own lookup. */
  lemma CanonIdempotent(table: map<string, string>, c: Cell)
    requires Closed(table)
    ensures Canon(table, Canon(table, c)) == Canon(table, c)
  {
    if c.Str? && Lower(Strip(c.s)) !in table {
      StripIdempotent(c.s);
    }
  }

  /** A name with no blank at either end and no capital is its own strip() and lower(). */
  lemma Plain(v: string)
    requires |v| > 0 && !IsSpace(v[0]) && !IsSpace(v[|v| - 1])
    requires forall i :: 0 <= i < |v| ==> !IsCapital(v[i])
    ensures Strip(v) == v && Lower(v) == v
  {
    StripNoOp(v);
  }

  /** A canonical name whose lower-case form is its own key. */
  lemma FixedByKey(table: map<string, string>, v: string, key: string)
    requires |v| > 0 && !IsSpace(v[0]) && !IsSpace(v[|v| - 1])
    requires Lower(v) == key && key in table && table[key] == v
    ensures Fixed(table, v)
  {
    StripNoOp(v);
  }

  lemma KwhFixed() ensures Fixed(UnitMap, "kWh") {
    assert Lower("kWh") == "kwh";
    FixedByKey(UnitMap, "kWh", "kwh");
  }

  lemma WhFixed() ensures Fixed(UnitMap, "Wh") {
    assert Lower("Wh") == "wh";
    FixedByKey(UnitMap, "Wh", "wh");
  }

  lemma WattFixed() ensures Fixed(UnitMap, "W") {
    assert Lower("W") == "w";
    FixedByKey(UnitMap, "W", "w");
  }

  lemma VoltFixed() ensures Fixed(UnitMap, "V") {
    assert Lower("V") == "v";
    FixedByKey(UnitMap, "V", "v");
  }

  lemma CelsiusFixed() ensures Fixed(UnitMap, "C") {
    assert Lower("C") == "c";
    FixedByKey(UnitMap, "C", "c");
  }

  lemma AmpereFixed() ensures Fixed(UnitMap, "A") {
    assert Lower("A") == "a";
    FixedByKey(UnitMap, "A", "a");
  }

  lemma PctFixed() ensures Fixed(UnitMap, "pct") {
    Plain("pct");
  }

  lemma UnitValuesFixed()
    ensures Fixed(UnitMap, "kWh") && Fixed(UnitMap, "Wh") && Fixed(UnitMap, "W") && Fixed(UnitMap, "V")
    ensures Fixed(UnitMap, "C") && Fixed(UnitMap, "A") && Fixed(UnitMap, "pct")
  {
    KwhFixed();
    WhFixed();
    WattFixed();
    VoltFixed();
    CelsiusFixed();
    AmpereFixed();
    PctFixed();
  }

  /** The seven unit names. */
  lemma UnitNames(k: string)
    requires k in UnitMap
    ensures var v := UnitMap[k];
      v == "kWh" || v == "Wh" || v == "W" || v == "V" || v == "C" || v == "A" || v == "pct"
  {
  }

  lemma UnitMapClosed()
    ensures Closed(UnitMap)
  {
    forall k | k in UnitMap ensures Fixed(UnitMap, UnitMap[k]) {
      UnitNames(k);
      UnitValuesFixed();
    }
  }

  lemma EnergyFixed() ensures Fixed(MetricMap, "energy") { Plain("energy"); }
  lemma PowerFixed() ensures Fixed(MetricMap, "power") { Plain("power"); }
  lemma PowerFactorFixed() ensures Fixed(MetricMap, "power_factor") { Plain("power_factor"); }
  lemma VoltageFixed() ensures Fixed(MetricMap, "voltage") { Plain("voltage"); }
  lemma TemperatureFixed() ensures Fixed(MetricMap, "temperature") { Plain("temperature"); }
  lemma CurrentFixed() ensures Fixed(MetricMap, "current") { Plain("current"); }

  lemma MetricValuesFixed()
    ensures Fixed(MetricMap, "energy") && Fixed(MetricMap, "power") && Fixed(MetricMap, "power_factor")
    ensures Fixed(MetricMap, "voltage") && Fixed(MetricMap, "temperature") && Fixed(MetricMap, "current")
  {
    EnergyFixed();
    PowerFixed();
    PowerFactorFixed();
    VoltageFixed();
    TemperatureFixed();
    CurrentFixed();
  }

  lemma MetricMapClosed()
    ensures Closed(MetricMap)
  {
    forall k | k in MetricMap ensures Fixed(MetricMap, MetricMap[k]) {
      MetricNames(k);
      MetricValuesFixed();
    }
  }

  /** The six metric names. */
  lemma MetricNames(k: string)
    requires k in MetricMap
    ensures var v := MetricMap[k];
      v == "energy" || v == "power" || v == "power_factor" || v == "voltage" || v == "temperature" || v == "current"
  {
  }

  /** df[dst] = df[src].map(f), when src exists. */
  function Derive(t: Table, src: string, dst: string, f: Cell -> Cell): (r: Table)
    requires WellFormed(t)
    ensures WellFormed(r) && |r.rows| == |t.rows|
    ensures r.header == if src in t.header && dst !in t.header then t.header + [dst] else t.header
    ensures src in t.header ==> forall i :: 0 <= i < |t.rows| ==> Column(r, dst)[i] == f(Column(t, src)[i])
    ensures forall n :: n in t.header && n != dst ==> Column(r, n) == Column(t, n)
  {
    if src in t.header then SetColumn(t, dst, seq(|t.rows|, i requires 0 <= i < |t.rows| => f(Column(t, src)[i])))
    else t
  }

  method DeriveColumn(t: Table, src: string, dst: string, f: Cell -> Cell) returns (r: Table)
    requires WellFormed(t)
    ensures r == Derive(t, src, dst, f)
  {
    r := t;
    if src in t.header {
      var cells := Map(Column(t, src), f);
      r := SetColumn(t, dst, cells);
    }
  }

  function CanonUnit(c: Cell): Cell {
    Canon(UnitMap, c)
  }

  function CanonMetric(c: Cell): Cell {
    Canon(MetricMap, c)
  }

  function Same(c: Cell): Cell {
    c
  }

  /** The integration pass: DATAHORA copied from created_at, unit and metric added. */
  function Integrate(t: Table): (r: Table)
    requires WellFormed(t)
    ensures WellFormed(r) && |r.rows| == |t.rows|
  {
    Derive(Derive(Derive(t, "created_at", "DATAHORA", Same), "measure_unit", "unit", CanonUnit), "data_type", "metric", CanonMetric)
  }

  /** The integration pass over the table the first pass wrote, column by column. */
  method IntegrateSensors(t: Table) returns (out: Table)
    requires WellFormed(t)
    ensures out == Integrate(t)
  {
    out := DeriveColumn(t, "created_at", "DATAHORA", Same);
    out := DeriveColumn(out, "measure_unit", "unit", CanonUnit);
    out := DeriveColumn(out, "data_type", "metric", CanonMetric);
  }

  /**
   * The pass keeps the rows and the columns it finds, and each row's
   * DATAHORA is its created_at, its unit the canonical measure_unit and its
   * metric the canonical data_type.
   */
  lemma IntegrateColumns(t: Table, i: nat)
    requires WellFormed(t) && i < |t.rows|
    requires "DATAHORA" !in t.header && "unit" !in t.header && "metric" !in t.header
    ensures var r := Integrate(t);
      WellFormed(r) && |r.rows| == |t.rows| &&
      (forall n :: n in t.header ==> n in r.header && Column(r, n)[i] == Column(t, n)[i]) &&
      ("DATAHORA" in r.header <==> "created_at" in t.header) &&
      ("created_at" in t.header ==> Column(r, "DATAHORA")[i] == Column(t, "created_at")[i]) &&
      ("unit" in r.header <==> "measure_unit" in t.header) &&
      ("measure_unit" in t.header ==> Column(r, "unit")[i] == CanonUnit(Column(t, "measure_unit")[i])) &&
      ("metric" in r.header <==> "data_type" in t.header) &&
      ("data_type" in t.header ==> Column(r, "metric")[i] == CanonMetric(Column(t, "data_type")[i]))
  {
    IntegrateKeeps(t, i);
    IntegrateStamp(t, i);
    IntegrateUnit(t, i);
    IntegrateMetric(t, i);
  }

  /** The derived names, when new, do not disturb the columns already there. */
  predicate Fresh(t: Table) {
    "DATAHORA" !in t.header && "unit" !in t.header && "metric" !in t.header
  }

  lemma IntegrateKeeps(t: Table, i: nat)
    requires WellFormed(t) && i < |t.rows| && Fresh(t)
    ensures var r := Integrate(t);
      WellFormed(r) && |r.rows| == |t.rows| &&
      forall n :: n in t.header ==> n in r.header && Column(r, n)[i] == Column(t, n)[i]
  {
    var t1 := Derive(t, "created_at", "DATAHORA", Same);
    var t2 := Derive(t1, "measure_unit", "unit", CanonUnit);
    assert forall n :: n in t.header ==> n in t1.header && Column(t1, n) == Column(t, n);
    assert forall n :: n in t.header ==> n in t2.header && Column(t2, n) == Column(t, n);
  }

  lemma IntegrateStamp(t: Table, i: nat)
    requires WellFormed(t) && i < |t.rows| && Fresh(t)
    ensures var r := Integrate(t);
      ("DATAHORA" in r.header <==> "created_at" in t.header) &&
      ("created_at" in t.header ==> Column(r, "DATAHORA")[i] == Column(t, "created_at")[i])
  {
    var t1 := Derive(t, "created_at", "DATAHORA", Same);
    var t2 := Derive(t1, "measure_unit", "unit", CanonUnit);
    assert "DATAHORA" in t2.header <==> "DATAHORA" in t1.header;
    if "created_at" in t.header {
      assert Column(t2, "DATAHORA") == Column(t1, "DATAHORA");
    }
  }

  lemma IntegrateUnit(t: Table, i: nat)
    requires WellFormed(t) && i < |t.rows| && Fresh(t)
    ensures var r := Integrate(t);
      ("unit" in r.header <==> "measure_unit" in t.header) &&
      ("measure_unit" in t.header ==> Column(r, "unit")[i] == CanonUnit(Column(t, "measure_unit")[i]))
  {
    var t1 := Derive(t, "created_at", "DATAHORA", Same);
    var t2 := Derive(t1, "measure_unit", "unit", CanonUnit);
    assert "measure_unit" in t1.header <==> "measure_unit" in t.header;
    assert "unit" in t1.header <==> false;
    if "measure_unit" in t.header {
      assert Column(t1, "measure_unit") == Column(t, "measure_unit");
      assert Column(t2, "unit")[i] == CanonUnit(Column(t, "measure_unit")[i]);
    }
  }

  lemma IntegrateMetric(t: Table, i: nat)
    requires WellFormed(t) && i < |t.rows| && Fresh(t)
    ensures var r := Integrate(t);
      ("metric" in r.header <==> "data_type" in t.header) &&
      ("data_type" in t.header ==> Column(r, "metric")[i] == CanonMetric(Column(t, "data_type")[i]))
  {
    var t1 := Derive(t, "created_at", "DATAHORA", Same);
    var t2 := Derive(t1, "measure_unit", "unit", CanonUnit);
    assert "data_type" in t2.header <==> "data_type" in t.header;
    assert "metric" in t2.header <==> false;
    if "data_type" in t.header {
      assert Column(t2, "data_type") == Column(t, "data_type");
    }
  }

  /** The first pass never writes the columns the second pass adds. */
  lemma NoDerivedNames(t: Table)
    requires WellFormed(t)
    ensures var h := Selected(t).header; "DATAHORA" !in h && "unit" !in h && "metric" !in h
  {
    assert "DATAHORA" !in Expected && "unit" !in Expected && "metric" !in Expected;
  }

  /** After both passes every row's DATAHORA is a canonical timestamp. */
  lemma PipelineStamps(t: Table, salt: string, hash: string -> string, i: nat)
    requires WellFormed(t)
    requires "created_at" in Selected(t).header
    requires i < |Output(t, salt, hash).rows|
    ensures var r := Integrate(Output(t, salt, hash));
      "DATAHORA" in r.header && Column(r, "DATAHORA")[i].Str? && IsCanonical(Column(r, "DATAHORA")[i].s)
  {
    var o := Output(t, salt, hash);
    NoDerivedNames(t);
    OutputCells(t, salt, hash, i);
    IntegrateColumns(o, i);
  }
}
