/**
 * Dates as the engine reads and writes them: datetime.strptime and
 * datetime.strftime over formats built from %Y %m %d %H %M %S and literal
 * characters, and the tolerant reader _parse_datetime, which tries five
 * formats in turn and writes the first match as "YYYY-MM-DD HH:MM:SS".
 */
module Dates {
  import opened Wrappers
  import opened Text
  import opened Tables
  import opened Numbers

  /** One element of a format: a numeric directive, or a character matched literally. */
  datatype Piece = Year | Month | Day | Hour | Minute | Second | Lit(c: char)

  type Format = seq<Piece>

  datatype DateTime = DateTime(year: nat, month: nat, day: nat, hour: nat, minute: nat, second: nat)

  /** The fields strptime fills in when the format does not mention them: 1900-01-01 00:00:00. */
  const Defaults := DateTime(1900, 1, 1, 0, 0, 0)

  predicate IsLeap(y: int) {
    y % 4 == 0 && (y % 100 != 0 || y % 400 == 0)
  }

  function DaysInMonth(y: int, m: int): (n: int)
    requires 1 <= m <= 12
    ensures 28 <= n <= 31
  {
    if m == 2 then (if IsLeap(y) then 29 else 28)
    else if m == 4 || m == 6 || m == 9 || m == 11 then 30
    else 31
  }

  /** The values datetime's constructor accepts. */
  predicate Valid(dt: DateTime) {
    1 <= dt.year <= 9999 && 1 <= dt.month <= 12 && 1 <= dt.day <= DaysInMonth(dt.year, dt.month)
    && dt.hour < 24 && dt.minute < 60 && dt.second < 60
  }

  // ------------------------------------------------------------ fields

  /** Digits a directive reads and writes: four for %Y, two for the others. */
  function Width(p: Piece): nat
    requires !p.Lit?
  {
    if p == Year then 4 else 2
  }

  function Get(dt: DateTime, p: Piece): nat
    requires !p.Lit?
  {
    match p
    case Year => dt.year
    case Month => dt.month
    case Day => dt.day
    case Hour => dt.hour
    case Minute => dt.minute
    case Second => dt.second
  }

  function Put(dt: DateTime, p: Piece, v: nat): (r: DateTime)
    requires !p.Lit?
    ensures Get(r, p) == v
    ensures forall q: Piece :: !q.Lit? && q != p ==> Get(r, q) == Get(dt, q)
  {
    match p
    case Year => dt.(year := v)
    case Month => dt.(month := v)
    case Day => dt.(day := v)
    case Hour => dt.(hour := v)
    case Minute => dt.(minute := v)
    case Second => dt.(second := v)
  }

  /** Two date-times with the same six fields are the same. */
  lemma SameFields(a: DateTime, b: DateTime)
    requires forall q: Piece :: !q.Lit? ==> Get(a, q) == Get(b, q)
    ensures a == b
  {
    assert Get(a, Year) == Get(b, Year) && Get(a, Month) == Get(b, Month) && Get(a, Day) == Get(b, Day);
    assert Get(a, Hour) == Get(b, Hour) && Get(a, Minute) == Get(b, Minute) && Get(a, Second) == Get(b, Second);
  }

  // ------------------------------------------------------------ fixed-width digits

  /** The last w decimal digits of n, zero-padded: strftime's %Y (w = 4) and %m %d %H %M %S (w = 2). */
  function FixedDigits(n: nat, w: nat): (s: string)
    ensures |s| == w && AllDigits(s)
  {
    if w == 0 then "" else FixedDigits(n / 10, w - 1) + [DigitChar(n % 10)]
  }

  /** A number that fits in w digits is what its w-digit spelling reads as. */
  lemma {:induction false} FixedDigitsValue(n: nat, w: nat)
    requires n < Pow10(w)
    ensures DigitsValue(FixedDigits(n, w)) == n
  {
    if w > 0 {
      QuotientFits(n, Pow10(w - 1));
      FixedDigitsValue(n / 10, w - 1);
      FixedDigitsLast(n, w);
    }
  }

  /** When the first w - 1 digits spell n / 10, all w digits spell n. */
  lemma FixedDigitsLast(n: nat, w: nat)
    requires w > 0 && DigitsValue(FixedDigits(n / 10, w - 1)) == n / 10
    ensures DigitsValue(FixedDigits(n, w)) == n
  {
    var s := FixedDigits(n, w);
    assert s[..|s| - 1] == FixedDigits(n / 10, w - 1);
    assert DigitsValue(s) == n / 10 * 10 + n % 10;
  }

  /** A number below ten times p has a tenth below p. */
  lemma QuotientFits(n: nat, p: nat)
    requires n < 10 * p
    ensures n / 10 < p && n == n / 10 * 10 + n % 10
  {
  }

  /** str() of a number with exactly k digits is its k-digit spelling. */
  lemma {:induction false} NatToStringFixed(n: nat, k: nat)
    requires k >= 1 && Pow10(k - 1) <= n < Pow10(k)
    ensures NatToString(n) == FixedDigits(n, k)
  {
    if k > 1 {
      QuotientFits(n, Pow10(k - 1));
      QuotientAtLeast(n, Pow10(k - 2));
      NatToStringFixed(n / 10, k - 1);
    }
  }

  /** A number at least ten times p has a tenth at least p. */
  lemma QuotientAtLeast(n: nat, p: nat)
    requires 1 <= p && 10 * p <= n
    ensures p <= n / 10 && n >= 10
  {
  }

  /** Reading w digits and writing the value back in w digits gives the same digits. */
  lemma {:induction false} DigitsFixed(x: string)
    requires AllDigits(x)
    ensures FixedDigits(DigitsValue(x), |x|) == x
  {
    if x != [] {
      var init := x[..|x| - 1];
      DigitsFixed(init);
      var n := DigitsValue(x);
      assert n / 10 == DigitsValue(init) && n % 10 == DigitValue(x[|x| - 1]);
      assert x == init + [x[|x| - 1]];
    }
  }

  /** f"{n:02d}" of a number below a hundred is the two digits %d and %H write. */
  lemma Pad2Fixed(n: nat)
    requires n < 100
    ensures Pad2(n) == FixedDigits(n, 2)
  {
    Pad2TwoDigits(n);
    assert Pow10(2) == 100;
    FixedDigitsValue(n, 2);
    DigitsFixed(Pad2(n));
  }

  // ------------------------------------------------------------ strptime and strftime

  /**
   * The matching strptime does, one piece at a time: a directive takes exactly
   * its width in digits, a literal takes its own character, and the text must
   * end where the format does.
   */
  function Scan(s: string, fmt: Format, acc: DateTime): Option<DateTime>
    decreases fmt
  {
    if fmt == [] then (if s == [] then Some(acc) else None)
    else
      var p := fmt[0];
      if p.Lit? then
        if |s| > 0 && s[0] == p.c then Scan(s[1..], fmt[1..], acc) else None
      else
        var w := Width(p);
        if |s| >= w && AllDigits(s[..w]) then Scan(s[w..], fmt[1..], Put(acc, p, DigitsValue(s[..w])))
        else None
  }

  /** Characters a format spans: a directive's width, one for a literal. */
  function Span(fmt: Format): nat
  {
    if fmt == [] then 0 else (if fmt[0].Lit? then 1 else Width(fmt[0])) + Span(fmt[1..])
  }

  /** Text the scan accepts is exactly as long as the format spans. */
  lemma {:induction false} ScanSpan(s: string, fmt: Format, acc: DateTime)
    requires Scan(s, fmt, acc).Some?
    ensures |s| == Span(fmt)
    decreases fmt
  {
    if fmt != [] {
      var p := fmt[0];
      if p.Lit? {
        ScanSpan(s[1..], fmt[1..], acc);
      } else {
        ScanSpan(s[Width(p)..], fmt[1..], Put(acc, p, DigitsValue(s[..Width(p)])));
      }
    }
  }

  /** strftime writes exactly as many characters as the format spans. */
  lemma {:induction false} StrftimeSpan(dt: DateTime, fmt: Format)
    ensures |Strftime(dt, fmt)| == Span(fmt)
    decreases fmt
  {
    if fmt != [] {
      StrftimeSpan(dt, fmt[1..]);
    }
  }

  lemma {:induction false} SpanAppend(a: Format, b: Format)
    ensures Span(a + b) == Span(a) + Span(b)
  {
    if a == [] {
      assert a + b == b;
    } else {
      assert (a + b)[1..] == a[1..] + b;
      SpanAppend(a[1..], b);
    }
  }

  /** datetime.strptime(s, fmt); None where it raises ValueError. */
  function Strptime(s: string, fmt: Format): (r: Option<DateTime>)
    ensures r.Some? ==> Valid(r.value)
  {
    match Scan(s, fmt, Defaults)
    case Some(dt) => if Valid(dt) then Some(dt) else None
    case None => None
  }

  function Show(dt: DateTime, p: Piece): string {
    if p.Lit? then [p.c] else FixedDigits(Get(dt, p), Width(p))
  }

  /** dt.strftime(fmt). */
  function Strftime(dt: DateTime, fmt: Format): string
    decreases fmt
  {
    if fmt == [] then "" else Show(dt, fmt[0]) + Strftime(dt, fmt[1..])
  }

  lemma {:induction false} StrftimeAppend(dt: DateTime, a: Format, b: Format)
    ensures Strftime(dt, a + b) == Strftime(dt, a) + Strftime(dt, b)
  {
    if a != [] {
      assert (a + b)[1..] == a[1..] + b;
      StrftimeAppend(dt, a[1..], b);
    } else {
      assert a + b == b;
    }
  }

  /** strftime writes a format as all of it but the last piece, then that piece. */
  lemma StrftimeLast(dt: DateTime, fmt: Format)
    requires fmt != []
    ensures Strftime(dt, fmt) == Strftime(dt, fmt[..|fmt| - 1]) + Show(dt, fmt[|fmt| - 1])
  {
    var n := |fmt| - 1;
    assert fmt[..n] + [fmt[n]] == fmt;
    StrftimeAppend(dt, fmt[..n], [fmt[n]]);
    assert Strftime(dt, [fmt[n]]) == Show(dt, fmt[n]);
  }

  /** A format that starts and ends with a directive is written starting and ending with a digit. */
  lemma StrftimeEnds(dt: DateTime, fmt: Format)
    requires fmt != [] && !fmt[0].Lit? && !fmt[|fmt| - 1].Lit?
    ensures var r := Strftime(dt, fmt); |r| > 0 && IsDigit(r[0]) && IsDigit(r[|r| - 1])
    ensures var r := Strftime(dt, fmt); !IsSpace(r[0]) && !IsSpace(r[|r| - 1])
  {
    var first := FixedDigits(Get(dt, fmt[0]), Width(fmt[0]));
    var last := FixedDigits(Get(dt, fmt[|fmt| - 1]), Width(fmt[|fmt| - 1]));
    StrftimeLast(dt, fmt);
    assert first[0] == Strftime(dt, fmt)[0];
    assert last[|last| - 1] == Strftime(dt, fmt)[|Strftime(dt, fmt)| - 1];
  }

  /** Every field of a valid date-time fits its directive's width. */
  lemma FitsWidth(dt: DateTime, p: Piece)
    requires Valid(dt) && !p.Lit?
    ensures Get(dt, p) < Pow10(Width(p))
  {
    assert Pow10(2) == 100;
    assert Pow10(4) == 10000;
  }

  /** acc already holds dt's value in every field the format does not mention. */
  ghost predicate AgreesOutside(acc: DateTime, dt: DateTime, fmt: Format) {
    forall q: Piece :: !q.Lit? && q !in fmt ==> Get(acc, q) == Get(dt, q)
  }

  /** strptime reads back every valid date-time strftime writes with the same format. */
  lemma {:induction false} ScanOfStrftime(dt: DateTime, fmt: Format, acc: DateTime)
    requires Valid(dt) && AgreesOutside(acc, dt, fmt)
    ensures Scan(Strftime(dt, fmt), fmt, acc) == Some(dt)
    decreases fmt
  {
    var s := Strftime(dt, fmt);
    if fmt == [] {
      SameFields(acc, dt);
    } else {
      var p := fmt[0];
      var rest := Strftime(dt, fmt[1..]);
      assert s == Show(dt, p) + rest;
      if p.Lit? {
        assert s[1..] == rest;
        forall q: Piece | !q.Lit? && q !in fmt[1..] ensures Get(acc, q) == Get(dt, q) {
          assert q !in fmt;
        }
        ScanOfStrftime(dt, fmt[1..], acc);
      } else {
        var w := Width(p);
        var x := FixedDigits(Get(dt, p), w);
        assert s[..w] == x && s[w..] == rest;
        FitsWidth(dt, p);
        FixedDigitsValue(Get(dt, p), w);
        var acc' := Put(acc, p, Get(dt, p));
        forall q: Piece | !q.Lit? && q !in fmt[1..] ensures Get(acc', q) == Get(dt, q) {
          if q != p {
            assert q !in fmt;
          }
        }
        ScanOfStrftime(dt, fmt[1..], acc');
      }
    }
  }

  /** A format that mentions every field. */
  predicate Complete(fmt: Format) {
    Year in fmt && Month in fmt && Day in fmt && Hour in fmt && Minute in fmt && Second in fmt
  }

  /** A format that mentions every field leaves no default in place. */
  lemma CompleteAgrees(dt: DateTime, fmt: Format)
    requires Complete(fmt)
    ensures AgreesOutside(Defaults, dt, fmt)
  {
    forall q: Piece | !q.Lit? ensures q in fmt { }
  }

  /**
   * strptime reads back what strftime writes for every valid date-time whose
   * fields outside the format hold strptime's defaults.
   */
  lemma StrptimeOfStrftime(dt: DateTime, fmt: Format)
    requires Valid(dt) && AgreesOutside(Defaults, dt, fmt)
    ensures Strptime(Strftime(dt, fmt), fmt) == Some(dt)
  {
    ScanOfStrftime(dt, fmt, Defaults);
  }

  /** Text strftime writes from a date-time the format fully determines reads back as it. */
  lemma ReadBack(dt: DateTime, fmt: Format, text: string)
    requires Valid(dt) && AgreesOutside(Defaults, dt, fmt) && Strftime(dt, fmt) == text
    ensures Strptime(text, fmt) == Some(dt)
  {
    StrptimeOfStrftime(dt, fmt);
  }

  /** No directive occurs twice, so no field is read twice. */
  predicate NoRepeat(fmt: Format) {
    forall i, j :: 0 <= i < j < |fmt| && !fmt[i].Lit? ==> fmt[i] != fmt[j]
  }

  /** Position of a field in year-to-second order; literals come last. */
  function Rank(p: Piece): nat {
    match p
    case Year => 0
    case Month => 1
    case Day => 2
    case Hour => 3
    case Minute => 4
    case Second => 5
    case Lit(_) => 6
  }

  /** Fields in year-to-second order at the even positions, a literal at each odd one. */
  predicate Alternating(fmt: Format) {
    forall i :: 0 <= i < |fmt| ==> (fmt[i].Lit? <==> i % 2 == 1) && (i % 2 == 0 ==> Rank(fmt[i]) == i / 2)
  }

  /** Such a format names no field twice. */
  lemma AlternatingNoRepeat(fmt: Format)
    requires Alternating(fmt)
    ensures NoRepeat(fmt)
  {
    forall i, j | 0 <= i < j < |fmt| && !fmt[i].Lit? ensures fmt[i] != fmt[j] {
      if !fmt[j].Lit? {
        assert Rank(fmt[i]) == i / 2 && Rank(fmt[j]) == j / 2;
      }
    }
  }

  /** Fields the rest of a format does not mention keep the value they had. */
  lemma {:induction false} ScanKeeps(s: string, fmt: Format, acc: DateTime, p: Piece)
    requires Scan(s, fmt, acc).Some? && !p.Lit? && p !in fmt
    ensures Get(Scan(s, fmt, acc).value, p) == Get(acc, p)
    decreases fmt
  {
    if fmt != [] {
      var q := fmt[0];
      assert p !in fmt[1..];
      if q.Lit? {
        ScanKeeps(s[1..], fmt[1..], acc, p);
      } else {
        var w := Width(q);
        ScanKeeps(s[w..], fmt[1..], Put(acc, q, DigitsValue(s[..w])), p);
      }
    }
  }

  /**
   * strftime writes back exactly the text strptime accepted, when no field is
   * read twice: the formats here are fixed-width, so parsing loses nothing.
   */
  lemma {:induction false} StrftimeOfScan(s: string, fmt: Format, acc: DateTime)
    requires Scan(s, fmt, acc).Some? && NoRepeat(fmt)
    ensures Strftime(Scan(s, fmt, acc).value, fmt) == s
    decreases fmt
  {
    if fmt != [] {
      var p := fmt[0];
      NoRepeatTail(fmt);
      if p.Lit? {
        StrftimeOfScan(s[1..], fmt[1..], acc);
        assert s == [s[0]] + s[1..];
      } else {
        var w := Width(p);
        var x := s[..w];
        var acc' := Put(acc, p, DigitsValue(x));
        ScanKeeps(s[w..], fmt[1..], acc', p);
        DigitsFixed(x);
        StrftimeOfScan(s[w..], fmt[1..], acc');
        assert s == x + s[w..];
      }
    }
  }

  /** The rest of a format without repeats has none either, and does not repeat its first directive. */
  lemma NoRepeatTail(fmt: Format)
    requires fmt != [] && NoRepeat(fmt)
    ensures NoRepeat(fmt[1..])
    ensures !fmt[0].Lit? ==> fmt[0] !in fmt[1..]
  {
    forall i, j | 0 <= i < j < |fmt[1..]| && !fmt[1..][i].Lit? ensures fmt[1..][i] != fmt[1..][j] {
      assert fmt[1..][i] == fmt[i + 1] && fmt[1..][j] == fmt[j + 1];
    }
    forall j | 0 <= j < |fmt[1..]| && !fmt[0].Lit? ensures fmt[1..][j] != fmt[0] {
      assert fmt[1..][j] == fmt[j + 1];
    }
  }

  lemma StrftimeOfStrptime(s: string, fmt: Format)
    requires Strptime(s, fmt).Some? && NoRepeat(fmt)
    ensures Strftime(Strptime(s, fmt).value, fmt) == s
  {
    StrftimeOfScan(s, fmt, Defaults);
  }

  // ------------------------------------------------------------ the formats

  /** "%Y-%m-%d %H:%M:%S" */
  const IsoFormat: Format := [Year, Lit('-'), Month, Lit('-'), Day, Lit(' '), Hour, Lit(':'), Minute, Lit(':'), Second]
  /** "%Y-%m-%dT%H:%M:%S" */
  const IsoTFormat: Format := [Year, Lit('-'), Month, Lit('-'), Day, Lit('T'), Hour, Lit(':'), Minute, Lit(':'), Second]
  /** "%d/%m/%Y %H:%M:%S" */
  const DmyHmsFormat: Format := [Day, Lit('/'), Month, Lit('/'), Year, Lit(' '), Hour, Lit(':'), Minute, Lit(':'), Second]
  /** "%d/%m/%Y %H:%M" */
  const DmyHmFormat: Format := [Day, Lit('/'), Month, Lit('/'), Year, Lit(' '), Hour, Lit(':'), Minute]
  /** "%Y-%m-%d" */
  const DateFormat: Format := [Year, Lit('-'), Month, Lit('-'), Day]

  /** The formats _parse_datetime tries, in order. */
  const Accepted: seq<Format> := [IsoFormat, IsoTFormat, DmyHmsFormat, DmyHmFormat, DateFormat]

  // ------------------------------------------------------------ _parse_datetime

  /** The first format in fmts that v matches, read with that format. */
  function FirstMatch(v: string, fmts: seq<Format>): (r: Option<DateTime>)
    ensures r.None? <==> forall k :: 0 <= k < |fmts| ==> Strptime(v, fmts[k]).None?
    ensures r.Some? ==> exists k :: 0 <= k < |fmts| && Strptime(v, fmts[k]) == r &&
                                   forall j :: 0 <= j < k ==> Strptime(v, fmts[j]).None?
  {
    if fmts == [] then None
    else
      var first := Strptime(v, fmts[0]);
      if first.Some? then first
      else
        var r := FirstMatch(v, fmts[1..]);
        assert forall k :: 1 <= k < |fmts| ==> fmts[k] == fmts[1..][k - 1];
        r
  }

  /** When format k is the first one v matches, v is read with format k. */
  lemma {:induction false} FirstMatchPicks(v: string, fmts: seq<Format>, k: nat)
    requires k < |fmts| && Strptime(v, fmts[k]).Some?
    requires forall j :: 0 <= j < k ==> Strptime(v, fmts[j]).None?
    ensures FirstMatch(v, fmts) == Strptime(v, fmts[k])
  {
    if k > 0 {
      assert forall j :: 0 <= j < k - 1 ==> fmts[1..][j] == fmts[j + 1];
      FirstMatchPicks(v, fmts[1..], k - 1);
    }
  }

  /** Text in the form _parse_datetime writes: "%Y-%m-%d %H:%M:%S" reads it. */
  predicate IsCanonical(s: string) {
    Strptime(s, IsoFormat).Some?
  }

  lemma IsoComplete()
    ensures Complete(IsoFormat) && NoRepeat(IsoFormat)
  {
    assert IsoFormat[0] == Year && IsoFormat[2] == Month && IsoFormat[4] == Day;
    assert IsoFormat[6] == Hour && IsoFormat[8] == Minute && IsoFormat[10] == Second;
    IsoAlternating();
    AlternatingNoRepeat(IsoFormat);
  }

  lemma IsoAlternating()
    ensures Alternating(IsoFormat)
  {
    forall i | 0 <= i < |IsoFormat|
      ensures (IsoFormat[i].Lit? <==> i % 2 == 1) && (i % 2 == 0 ==> Rank(IsoFormat[i]) == i / 2)
    {
      assert i == 0 || i == 1 || i == 2 || i == 3 || i == 4 || i == 5 || i == 6 || i == 7 || i == 8 || i == 9 || i == 10;
    }
  }

  /** The canonical text of a valid date-time is canonical and reads back as that date-time. */
  lemma IsoIsCanonical(dt: DateTime)
    requires Valid(dt)
    ensures Strptime(Strftime(dt, IsoFormat), IsoFormat) == Some(dt)
  {
    IsoComplete();
    CompleteAgrees(dt, IsoFormat);
    StrptimeOfStrftime(dt, IsoFormat);
  }

  /**
   * _parse_datetime: text is trimmed and read with the first accepted format
   * it matches, then written as "YYYY-MM-DD HH:MM:SS"; anything that is not
   * text, blank text and text no format matches give None.
   */
  function ParseDatetime(c: Cell): (r: Option<string>)
    ensures r.Some? <==> c.Str? && Strip(c.s) != "" && FirstMatch(Strip(c.s), Accepted).Some?
    ensures r.Some? ==> IsCanonical(r.value)
    ensures r.Some? ==> Strptime(r.value, IsoFormat) == FirstMatch(Strip(c.s), Accepted)
  {
    match c
    case Str(s) =>
      var v := Strip(s);
      if v == "" then None
      else
        (match FirstMatch(v, Accepted)
         case Some(dt) => IsoIsCanonical(dt); Some(Strftime(dt, IsoFormat))
         case None => None)
    case _ => None
  }

  /** The text strftime writes with the canonical format starts and ends with a digit. */
  lemma IsoEnds(dt: DateTime)
    ensures var r := Strftime(dt, IsoFormat); |r| > 0 && IsDigit(r[0]) && IsDigit(r[|r| - 1])
  {
    assert IsoFormat[0] == Year && IsoFormat[|IsoFormat| - 1] == Second;
    StrftimeEnds(dt, IsoFormat);
  }

  lemma DigitEndsStripped(s: string)
    requires |s| > 0 && IsDigit(s[0]) && IsDigit(s[|s| - 1])
    ensures Strip(s) == s
  {
    StripNoOp(s);
  }

  /** Canonical text starts and ends with a digit, so strip() leaves it alone. */
  lemma CanonicalStripped(s: string)
    requires IsCanonical(s)
    ensures Strip(s) == s && s != ""
  {
    var dt := Strptime(s, IsoFormat).value;
    IsoComplete();
    StrftimeOfStrptime(s, IsoFormat);
    IsoEnds(dt);
    DigitEndsStripped(s);
  }

  /** Text already in the canonical form is kept exactly as it is. */
  lemma ParseDatetimeKeepsCanonical(s: string)
    requires IsCanonical(s)
    ensures ParseDatetime(Str(s)) == Some(s)
  {
    var dt := Strptime(s, IsoFormat).value;
    IsoComplete();
    StrftimeOfStrptime(s, IsoFormat);
    CanonicalStripped(s);
    FirstMatchPicks(s, Accepted, 0);
  }

  /** Normalizing twice is normalizing once. */
  lemma ParseDatetimeIdempotent(c: Cell)
    requires ParseDatetime(c).Some?
    ensures ParseDatetime(Str(ParseDatetime(c).value)) == ParseDatetime(c)
  {
    ParseDatetimeKeepsCanonical(ParseDatetime(c).value);
  }

  /** Text written "%d/%m/%Y %H:%M" matches none of the first three accepted formats. */
  lemma DayFirstMisses(dt: DateTime)
    ensures forall j :: 0 <= j < 3 ==> Strptime(Strftime(dt, DmyHmFormat), Accepted[j]).None?
  {
    var s := Strftime(dt, DmyHmFormat);
    DayFirstSlash(dt);
    assert IsoFormat[0] == Year && IsoTFormat[0] == Year;
    YearFirstRefuses(s, IsoFormat);
    YearFirstRefuses(s, IsoTFormat);
    DayFirstShort(dt);
    forall j | 0 <= j < 3 ensures Strptime(s, Accepted[j]).None? {
      if j == 0 {
        assert Accepted[j] == IsoFormat;
      } else if j == 1 {
        assert Accepted[j] == IsoTFormat;
      } else {
        assert Accepted[j] == DmyHmsFormat;
      }
    }
  }

  /** Day-first text has "/" as its third character. */
  lemma DayFirstSlash(dt: DateTime)
    ensures var s := Strftime(dt, DmyHmFormat); |s| > 2 && s[2] == '/'
  {
    var rest := DmyHmFormat[1..];
    assert DmyHmFormat[0] == Day && rest[0] == Lit('/');
    assert Strftime(dt, DmyHmFormat) == FixedDigits(dt.day, 2) + Strftime(dt, rest);
    assert Strftime(dt, rest) == "/" + Strftime(dt, rest[1..]);
  }

  /** A format that starts with "%Y" reads no text with a non-digit among its first four characters. */
  lemma YearFirstRefuses(s: string, fmt: Format)
    requires fmt != [] && fmt[0] == Year && |s| > 2 && !IsDigit(s[2])
    ensures Strptime(s, fmt).None?
  {
    if |s| >= 4 {
      assert s[..4][2] == s[2];
    }
  }

  /** Day-first text is three characters too short for "%d/%m/%Y %H:%M:%S". */
  lemma DayFirstShort(dt: DateTime)
    ensures Strptime(Strftime(dt, DmyHmFormat), DmyHmsFormat).None?
  {
    SecondsShort(dt, DmyHmFormat, DmyHmsFormat);
  }

  /** Text a format writes is too short for the same format followed by ":%S". */
  lemma SecondsShort(dt: DateTime, fmt: Format, longer: Format)
    requires longer == fmt + [Lit(':'), Second]
    ensures Strptime(Strftime(dt, fmt), longer).None?
  {
    var s := Strftime(dt, fmt);
    var seconds: Format := [Lit(':'), Second];
    StrftimeSpan(dt, fmt);
    SpanAppend(fmt, seconds);
    assert Span(seconds) == 3;
    if Scan(s, longer, Defaults).Some? {
      ScanSpan(s, longer, Defaults);
      assert false;
    }
  }

  /** "%d/%m/%Y %H:%M" mentions every field but the seconds. */
  lemma DayFirstAgrees(dt: DateTime)
    requires dt.second == 0
    ensures AgreesOutside(Defaults, dt, DmyHmFormat)
  {
    assert DmyHmFormat[0] == Day && DmyHmFormat[2] == Month && DmyHmFormat[4] == Year;
    assert DmyHmFormat[6] == Hour && DmyHmFormat[8] == Minute;
  }

  /**
   * Day-first text without seconds is first matched by "%d/%m/%Y %H:%M", and
   * read as the date-time that wrote it, for every valid date-time on a whole minute.
   */
  lemma DayFirstMatch(dt: DateTime)
    requires Valid(dt) && dt.second == 0
    ensures FirstMatch(Strftime(dt, DmyHmFormat), Accepted) == Some(dt)
  {
    DayFirstMisses(dt);
    DayFirstReads(dt);
    AcceptedDayFirst();
    FirstMatchPicks(Strftime(dt, DmyHmFormat), Accepted, 3);
  }

  /** "%d/%m/%Y %H:%M" reads back what it writes when the seconds are zero. */
  lemma DayFirstReads(dt: DateTime)
    requires Valid(dt) && dt.second == 0
    ensures Strptime(Strftime(dt, DmyHmFormat), DmyHmFormat) == Some(dt)
  {
    DayFirstAgrees(dt);
    StrptimeOfStrftime(dt, DmyHmFormat);
  }

  lemma AcceptedDayFirst()
    ensures |Accepted| == 5 && Accepted[3] == DmyHmFormat
  {
  }

  /**
   * Day-first text without seconds, with any whitespace around it, is rewritten
   * year first with the seconds ":00" ("31/01/2024 10:00" becomes "2024-01-31 10:00:00").
   */
  lemma ParseDatetimeDayFirst(dt: DateTime, pre: string, post: string)
    requires Valid(dt) && dt.second == 0 && AllSpace(pre) && AllSpace(post)
    ensures ParseDatetime(Str(pre + Strftime(dt, DmyHmFormat) + post)) == Some(Strftime(dt, IsoFormat))
  {
    DayFirstEnds(dt);
    StripPadded(pre, Strftime(dt, DmyHmFormat), post);
    DayFirstMatch(dt);
  }

  /** Day-first text starts and ends with a digit, not with whitespace. */
  lemma DayFirstEnds(dt: DateTime)
    ensures var s := Strftime(dt, DmyHmFormat); s != [] && !IsSpace(s[0]) && !IsSpace(s[|s| - 1])
  {
    StrftimeEnds(dt, DmyHmFormat);
  }
}
