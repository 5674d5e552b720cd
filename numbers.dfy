/**
 * Numbers as the engine reads and writes them: decimal digit strings,
 * float() on the positional spelling [+-]digits[.digits], str(float) for
 * such values, int(), f"{n:02d}", and the two tolerant numeric readers
 * tratar_numero (weather) and _parse_float (sensors).
 */
module Numbers {
  import opened Wrappers
  import opened Text
  import opened Tables

  predicate IsDigit(c: char) {
    '0' <= c <= '9'
  }

  predicate AllDigits(s: string) {
    forall i :: 0 <= i < |s| ==> IsDigit(s[i])
  }

  function DigitValue(c: char): nat
    requires IsDigit(c)
  {
    c as int - '0' as int
  }

  function DigitChar(d: nat): (c: char)
    requires d < 10
    ensures IsDigit(c) && DigitValue(c) == d
  {
    ('0' as int + d) as char
  }

  /** Value of a decimal digit string, most significant digit first; "" is 0. */
  function DigitsValue(s: string): nat
    requires AllDigits(s)
  {
    if s == [] then 0 else DigitsValue(s[..|s| - 1]) * 10 + DigitValue(s[|s| - 1])
  }

  function Pow10(n: nat): (p: nat)
    ensures p >= 1
  {
    if n == 0 then 1 else 10 * Pow10(n - 1)
  }

  /** Leading zeros do not change the value of a digit string. */
  lemma {:induction false} LeadingZeroValue(s: string)
    requires AllDigits(s)
    ensures AllDigits("0" + s) && DigitsValue("0" + s) == DigitsValue(s)
  {
    if s != [] {
      var init := s[..|s| - 1];
      LeadingZeroValue(init);
      assert ("0" + s)[..|s|] == "0" + init;
    }
  }

  lemma {:induction false} ZerosValue(z: nat, s: string)
    requires AllDigits(s)
    ensures AllDigits(Zeros(z) + s) && DigitsValue(Zeros(z) + s) == DigitsValue(s)
  {
    if z > 0 {
      ZerosValue(z - 1, s);
      assert Zeros(z) + s == "0" + (Zeros(z - 1) + s);
      LeadingZeroValue(Zeros(z - 1) + s);
    } else {
      assert Zeros(z) + s == s;
    }
  }

  /** A trailing zero multiplies a digit string's value by ten. */
  lemma TrailingZeroValue(s: string)
    requires AllDigits(s)
    ensures AllDigits(s + "0") && DigitsValue(s + "0") == 10 * DigitsValue(s)
  {
    assert (s + "0")[..|s|] == s;
  }

  // ------------------------------------------------------------ str(int) and f"{n:02d}"

  /** Decimal spelling of a natural number, without leading zeros. */
  function NatToString(n: nat): (s: string)
    ensures |s| >= 1 && AllDigits(s) && DigitsValue(s) == n
    ensures s[0] == '0' ==> n == 0
  {
    if n < 10 then [DigitChar(n)]
    else
      var s := NatToString(n / 10) + [DigitChar(n % 10)];
      assert s[..|s| - 1] == NatToString(n / 10);
      s
  }

  function Zeros(n: nat): (z: string)
    ensures |z| == n && AllDigits(z)
  {
    if n == 0 then "" else "0" + Zeros(n - 1)
  }

  /** n in decimal, zero-padded on the left to at least w digits. */
  function PadNat(n: nat, w: nat): (s: string)
    ensures AllDigits(s) && DigitsValue(s) == n
    ensures |s| == if |NatToString(n)| < w then w else |NatToString(n)|
  {
    var d := NatToString(n);
    if |d| < w then
      ZerosValue(w - |d|, d);
      Zeros(w - |d|) + d
    else d
  }

  /** str(i) for a Python int. */
  function IntToString(i: int): string {
    if i < 0 then "-" + NatToString(-i) else NatToString(i)
  }

  /** f"{n:02d}": at least two characters, zeros after the sign. */
  function Pad2(n: int): string {
    if n < 0 then IntToString(n) else PadNat(n, 2)
  }

  /** Numbers below a hundred come out as exactly two digits carrying their value (5 gives "05"). */
  lemma Pad2TwoDigits(n: int)
    requires 0 <= n < 100
    ensures |Pad2(n)| == 2 && AllDigits(Pad2(n)) && DigitsValue(Pad2(n)) == n
  {
    if n >= 10 {
      assert NatToString(n) == NatToString(n / 10) + [DigitChar(n % 10)];
    }
  }

  /** f"{n:02d}" is digits only for n >= 0 and starts with "-" otherwise. */
  lemma Pad2Shape(n: int)
    ensures |Pad2(n)| >= 2
    ensures n >= 0 ==> AllDigits(Pad2(n)) && DigitsValue(Pad2(n)) == n
    ensures n < 0 ==> Pad2(n)[0] == '-' && AllDigits(Pad2(n)[1..])
  {
    if n < 0 {
      assert Pad2(n)[1..] == NatToString(-n);
    }
  }

  // ------------------------------------------------------------ int()

  /** int(s) on text: optional sign and decimal digits, surrounding whitespace ignored. */
  function ParseIntText(s: string): (r: Option<int>)
  {
    var t := Strip(s);
    var signed := |t| > 0 && (t[0] == '+' || t[0] == '-');
    var digits := if signed then t[1..] else t;
    if |digits| > 0 && AllDigits(digits) then
      var n: int := DigitsValue(digits);
      Some(if signed && t[0] == '-' then -n else n)
    else None
  }

  /** Python's int() of a float: truncation toward zero. */
  function Trunc(x: real): (n: int)
    ensures -1.0 < x - n as real < 1.0
    ensures x >= 0.0 ==> 0 <= n && n as real <= x
    ensures x < 0.0 ==> n <= 0 && x <= n as real
  {
    if x >= 0.0 then x.Floor else -((-x).Floor)
  }

  /** int(x) for a cell; a missing cell (NaN) makes int() raise. */
  function ToInt(c: Cell): Option<int> {
    match c
    case Int(i) => Some(i)
    case Float(x) => Some(Trunc(x))
    case Str(s) => ParseIntText(s)
    case Null => None
  }

  /** Every integer f"{n:02d}" writes reads back as n. */
  lemma Pad2ReadsBack(n: int)
    ensures ParseIntText(Pad2(n)) == Some(n)
  {
    if n < 0 {
      NegativeReadsBack(n);
    } else {
      DigitsReadBack(Pad2(n));
    }
  }

  /** Non-empty digits read back as their value. */
  lemma DigitsReadBack(s: string)
    requires |s| > 0 && AllDigits(s)
    ensures ParseIntText(s) == Some(DigitsValue(s) as int)
  {
    DigitNotSpace(s[0]);
    DigitNotSpace(s[|s| - 1]);
    StripNoOp(s);
    UnsignedText(s);
  }

  lemma DigitNotSpace(c: char)
    requires IsDigit(c)
    ensures !IsSpace(c) && c != '+' && c != '-'
  {
  }

  /** Unpadded digits read as their value. */
  lemma UnsignedText(s: string)
    requires |s| > 0 && AllDigits(s) && Strip(s) == s && s[0] != '+' && s[0] != '-'
    ensures ParseIntText(s) == Some(DigitsValue(s) as int)
  {
  }

  /** A negative number's f"{n:02d}" is "-" and the digits of -n, which int() reads back. */
  lemma NegativeReadsBack(n: int)
    requires n < 0
    ensures ParseIntText(Pad2(n)) == Some(n)
  {
    var d := NatToString(-n);
    assert Pad2(n) == "-" + d;
    MinusDigitsReadBack(d);
  }

  /** "-" followed by non-empty digits reads back as minus their value. */
  lemma MinusDigitsReadBack(d: string)
    requires |d| > 0 && AllDigits(d)
    ensures ParseIntText("-" + d) == Some(-(DigitsValue(d) as int))
  {
    var s := "-" + d;
    assert s[0] == '-' && s[1..] == d && s[|s| - 1] == d[|d| - 1];
    StripNoOp(s);
    NegativeText(s, d);
  }

  /** Unpadded text "-" + digits reads as minus the digits' value. */
  lemma NegativeText(s: string, d: string)
    requires |d| > 0 && AllDigits(d)
    requires |s| > 0 && s[0] == '-' && s[1..] == d && Strip(s) == s
    ensures ParseIntText(s) == Some(-(DigitsValue(d) as int))
  {
  }

  // ------------------------------------------------------------ float() and str(float)

  /** A decimal literal: sign, whole-part digits, fraction digits (either part may be empty). */
  datatype Decimal = Decimal(negative: bool, whole: string, frac: string)

  predicate ValidDecimal(d: Decimal) {
    AllDigits(d.whole) && AllDigits(d.frac) && |d.whole| + |d.frac| > 0
  }

  /** float(s) on the positional spelling [+-]digits[.digits]; None for all other text. */
  function ParseDecimal(s: string): (r: Option<Decimal>)
    ensures r.Some? ==> ValidDecimal(r.value)
  {
    var n := SignLength(s);
    ParseUnsigned(s[n..], n == 1 && s[0] == '-')
  }

  /** The length of the one sign float() accepts in front of the digits. */
  function SignLength(s: string): (n: nat)
    ensures n <= 1 && n <= |s|
    ensures n == 1 <==> |s| > 0 && (s[0] == '+' || s[0] == '-')
  {
    if |s| > 0 && (s[0] == '+' || s[0] == '-') then 1 else 0
  }

  /** digits[.digits] with at least one digit, the point optional. */
  function ParseUnsigned(body: string, negative: bool): (r: Option<Decimal>)
    ensures r.Some? ==> ValidDecimal(r.value) && r.value.negative == negative
  {
    var p := IndexOfChar(body, '.');
    var whole := body[..p];
    var frac := if p < |body| then body[p + 1..] else "";
    if AllDigits(whole) && AllDigits(frac) && |whole| + |frac| > 0 then
      Some(Decimal(negative, whole, frac))
    else None
  }

  /** The number a decimal literal denotes. */
  function Value(d: Decimal): real
    requires ValidDecimal(d)
  {
    var m := DigitsValue(d.whole) as real + DigitsValue(d.frac) as real / Pow10(|d.frac|) as real;
    if d.negative then -m else m
  }

  function TrimLeadingZeros(s: string): (r: string)
    requires AllDigits(s)
    ensures AllDigits(r) && DigitsValue(r) == DigitsValue(s)
    ensures r == [] || r[0] != '0'
  {
    if s != [] && s[0] == '0' then
      LeadingZeroValue(s[1..]);
      assert s == "0" + s[1..];
      TrimLeadingZeros(s[1..])
    else s
  }

  function TrimTrailingZeros(s: string): (r: string)
    requires AllDigits(s)
    ensures AllDigits(r) && |r| <= |s|
    ensures r == [] || r[|r| - 1] != '0'
    ensures DigitsValue(r) as real / Pow10(|r|) as real == DigitsValue(s) as real / Pow10(|s|) as real
  {
    if s != [] && s[|s| - 1] == '0' then
      var init := s[..|s| - 1];
      assert s == init + "0";
      TrailingZeroFraction(init);
      TrimTrailingZeros(init)
    else s
  }

  /** As a fraction of its width, a digit string is worth the same with a trailing zero. */
  lemma TrailingZeroFraction(s: string)
    requires AllDigits(s)
    ensures AllDigits(s + "0")
    ensures DigitsValue(s + "0") as real / Pow10(|s + "0"|) as real == DigitsValue(s) as real / Pow10(|s|) as real
  {
    TrailingZeroValue(s);
    assert Pow10(|s + "0"|) == 10 * Pow10(|s|);
    ScaledRatio(DigitsValue(s) as real, Pow10(|s|) as real);
  }

  lemma ScaledRatio(a: real, p: real)
    requires p > 0.0
    ensures (10.0 * a) / (10.0 * p) == a / p
  {
  }

  /** The literal str(float(...)) writes: no superfluous zeros, at least one digit on each side. */
  function Canonical(d: Decimal): Decimal
    requires ValidDecimal(d)
  {
    var w := TrimLeadingZeros(d.whole);
    var f := TrimTrailingZeros(d.frac);
    Decimal(d.negative, if w == [] then "0" else w, if f == [] then "0" else f)
  }

  /** str(float(s)): the canonical literal spelled out, with "-" for negatives and "." always. */
  function Render(d: Decimal): (r: string)
    requires ValidDecimal(d)
    ensures |r| >= 3 && IsDigit(r[|r| - 1]) && (IsDigit(r[0]) || r[0] == '-')
    ensures forall i :: 0 <= i < |r| ==> IsDigit(r[i]) || r[i] == '.' || r[i] == '-'
  {
    var c := Canonical(d);
    (if c.negative then "-" else "") + c.whole + "." + c.frac
  }

  /** Canonical spelling keeps the number. */
  lemma CanonicalValue(d: Decimal)
    requires ValidDecimal(d)
    ensures ValidDecimal(Canonical(d)) && Value(Canonical(d)) == Value(d)
  {
    var c := Canonical(d);
    assert DigitsValue("0") == 0;
    assert DigitsValue(c.whole) == DigitsValue(d.whole);
    var f := TrimTrailingZeros(d.frac);
    assert DigitsValue(c.frac) as real / Pow10(|c.frac|) as real
        == DigitsValue(f) as real / Pow10(|f|) as real;
  }

  lemma CanonicalFixed(d: Decimal)
    requires ValidDecimal(d)
    ensures ValidDecimal(Canonical(d)) && Canonical(Canonical(d)) == Canonical(d)
  {
    var w := TrimLeadingZeros(d.whole);
    var f := TrimTrailingZeros(d.frac);
    TrimmedPart("0");
    if w != [] { LeadingStable(w); }
    if f != [] { TrailingStable(f); }
  }

  lemma TrimmedPart(zero: string)
    requires zero == "0"
    ensures TrimLeadingZeros(zero) == "" && TrimTrailingZeros(zero) == ""
  {
    assert zero[1..] == [] && zero[..0] == [];
  }

  lemma LeadingStable(s: string)
    requires AllDigits(s) && s != [] && s[0] != '0'
    ensures TrimLeadingZeros(s) == s
  {
  }

  lemma TrailingStable(s: string)
    requires AllDigits(s) && s != [] && s[|s| - 1] != '0'
    ensures TrimTrailingZeros(s) == s
  {
  }

  /**
   * str(float) writes a literal that float() reads back as the same
   * number, and that str(float) writes again unchanged.
   */
  lemma RenderReadsBack(d: Decimal)
    requires ValidDecimal(d)
    ensures ParseDecimal(Render(d)) == Some(Canonical(d))
    ensures Value(Canonical(d)) == Value(d)
    ensures Render(Canonical(d)) == Render(d)
  {
    var c := Canonical(d);
    CanonicalValue(d);
    CanonicalFixed(d);
    ParseSpelled(if c.negative then "-" else "", c.whole, c.frac);
  }

  /** float() reads a spelled-out literal whose whole part is not empty as its parts. */
  lemma ParseSpelled(sign: string, whole: string, frac: string)
    requires sign == "" || sign == "-" || sign == "+"
    requires |whole| > 0 && AllDigits(whole) && AllDigits(frac)
    ensures ParseDecimal(sign + whole + "." + frac) == Some(Decimal(sign == "-", whole, frac))
  {
    var body := whole + "." + frac;
    var s := sign + body;
    assert sign + whole + "." + frac == s;
    assert s[0] == (if sign != "" then sign[0] else whole[0]);
    assert SignLength(s) == |sign|;
    assert s[|sign|..] == body;
    UnsignedSpelled(whole, frac, sign == "-");
  }

  /** Digits, a point and digits read as their whole part and fraction. */
  lemma UnsignedSpelled(whole: string, frac: string, negative: bool)
    requires |whole| > 0 && AllDigits(whole) && AllDigits(frac)
    ensures ParseUnsigned(whole + "." + frac, negative) == Some(Decimal(negative, whole, frac))
  {
    var body := whole + "." + frac;
    DotAfterDigits(whole, frac);
    assert body[..|whole|] == whole;
    assert body[|whole| + 1..] == frac;
  }

  lemma DotAfterDigits(whole: string, frac: string)
    requires AllDigits(whole)
    ensures IndexOfChar(whole + "." + frac, '.') == |whole|
  {
    var body := whole + "." + frac;
    var k := IndexOfChar(body, '.');
    assert body[|whole|] == '.';
    assert forall i :: 0 <= i < |whole| ==> body[i] == whole[i];
    assert forall i :: 0 <= i < k ==> body[i] == body[..k][i];
  }

  // ------------------------------------------------------------ tratar_numero

  /** The text both tolerant readers start from: trimmed, decimal commas made points. */
  function Normalized(s: string): (v: string)
    ensures |v| == |Strip(s)| && ',' !in v
    ensures v == [] || (!IsSpace(v[0]) && !IsSpace(v[|v| - 1]))
  {
    ReplaceChar(Strip(s), ',', '.')
  }

  /** tratar_numero's repair of a bare point: "0" before a leading ".", "0" after a trailing ".". */
  function PadPoints(v: string): (r: string)
    requires ',' !in v && (v == [] || (!IsSpace(v[0]) && !IsSpace(v[|v| - 1])))
    ensures ',' !in r && (r == [] <==> v == [])
    ensures r == [] || (!IsSpace(r[0]) && !IsSpace(r[|r| - 1]))
    ensures r == [] || (r[0] != '.' && r[|r| - 1] != '.')
  {
    var v1 := if |v| > 0 && v[0] == '.' then "0" + v else v;
    if |v1| > 0 && v1[|v1| - 1] == '.' then v1 + "0" else v1
  }

  /**
   * tratar_numero: text becomes the float's str() when it reads as a number,
   * missing when it is blank, and its repaired self otherwise; cells that are
   * not text pass through.
   */
  function CleanNumber(c: Cell): (r: Cell)
    ensures !c.Str? ==> r == c
    ensures r.Null? <==> c.Null? || (c.Str? && Strip(c.s) == "")
    ensures c.Str? && Strip(c.s) != "" ==> r.Str?
    ensures c.Str? && Strip(c.s) != "" && ParseDecimal(PadPoints(Normalized(c.s))).None? ==>
      r == Str(PadPoints(Normalized(c.s)))
  {
    match c
    case Str(s) =>
      var v := PadPoints(Normalized(s));
      if v == "" then Null
      else
        (match ParseDecimal(v)
         case Some(d) => Str(Render(d))
         case None => Str(v))
    case _ => c
  }

  /** _parse_float: the number a cell holds, or None when it is missing, blank or not a number. */
  function ParseFloat(c: Cell): (r: Option<real>)
    ensures c.Null? ==> r.None?
    ensures c.Int? ==> r == Some(c.i as real)
    ensures c.Float? ==> r == Some(c.x)
    ensures c.Str? ==> (r.Some? <==> ParseDecimal(Normalized(c.s)).Some?)
    ensures c.Str? && r.Some? ==> r.value == Value(ParseDecimal(Normalized(c.s)).value)
  {
    match c
    case Null => None
    case Int(i) => Some(i as real)
    case Float(x) => Some(x)
    case Str(s) =>
      var v := Normalized(s);
      if v == "" then None
      else
        match ParseDecimal(v)
        case Some(d) => Some(Value(d))
        case None => None
  }

  /** The decimal comma and the decimal point read alike. */
  lemma NormalizedCommaBlind(s: string)
    ensures Normalized(ReplaceChar(s, ',', '.')) == Normalized(s)
  {
    StripReplace(s, ',', '.');
    ReplaceAbsent(Normalized(s), ',', '.');
  }

  /** tratar_numero treats "12,5" and "12.5" alike. */
  lemma CleanNumberCommaBlind(s: string)
    ensures CleanNumber(Str(ReplaceChar(s, ',', '.'))) == CleanNumber(Str(s))
  {
    NormalizedCommaBlind(s);
    assert Strip(ReplaceChar(s, ',', '.')) == "" <==> Strip(s) == "";
  }

  /** _parse_float treats "12,5" and "12.5" alike. */
  lemma ParseFloatCommaBlind(s: string)
    ensures ParseFloat(Str(ReplaceChar(s, ',', '.'))) == ParseFloat(Str(s))
  {
    NormalizedCommaBlind(s);
  }

  /** Text tratar_numero writes is already trimmed, comma-free and repaired. */
  lemma CleanTextFixed(v: string)
    requires v != [] && ',' !in v && !IsSpace(v[0]) && !IsSpace(v[|v| - 1])
    requires v[0] != '.' && v[|v| - 1] != '.'
    ensures PadPoints(Normalized(v)) == v
  {
    StripNoOp(v);
    ReplaceAbsent(v, ',', '.');
  }

  /** The literal str(float) writes is neither blank, padded, nor spelled with a comma or a bare point. */
  lemma RenderShape(d: Decimal)
    requires ValidDecimal(d)
    ensures var r := Render(d);
      r != [] && ',' !in r && !IsSpace(r[0]) && !IsSpace(r[|r| - 1]) && r[0] != '.' && r[|r| - 1] != '.'
  {
    var r := Render(d);
    assert IsDigit(r[0]) || r[0] == '-';
    assert IsDigit(r[|r| - 1]);
    forall i | 0 <= i < |r| ensures r[i] != ',' {
      assert IsDigit(r[i]) || r[i] == '.' || r[i] == '-';
    }
  }

  /** tratar_numero leaves the literals str(float) writes as they are. */
  lemma CleanNumberOfRender(d: Decimal)
    requires ValidDecimal(d)
    ensures CleanNumber(Str(Render(d))) == Str(Render(d))
  {
    var r := Render(d);
    RenderShape(d);
    CleanTextFixed(r);
    RenderReadsBack(d);
  }

  /** Applying tratar_numero to its own output changes nothing. */
  lemma CleanNumberIdempotent(c: Cell)
    ensures CleanNumber(CleanNumber(c)) == CleanNumber(c)
  {
    if c.Str? {
      var v := PadPoints(Normalized(c.s));
      if v != "" {
        var p := ParseDecimal(v);
        if p.Some? {
          CleanNumberOfRender(p.value);
        } else {
          CleanTextFixed(v);
        }
      }
    }
  }

  /**
   * Repairing a bare point keeps the number a literal denotes: ".5" and
   * "0.5" both read as one half, "7." and "7.0" both as seven.
   */
  lemma PadPointsKeepsValue(v: string)
    requires ',' !in v && v != [] && !IsSpace(v[0]) && !IsSpace(v[|v| - 1])
    requires ParseDecimal(v).Some?
    ensures ParseDecimal(PadPoints(v)).Some?
    ensures Value(ParseDecimal(PadPoints(v)).value) == Value(ParseDecimal(v).value)
  {
    if v[0] == '.' {
      LeadingPointValue(v);
    } else if v[|v| - 1] == '.' {
      TrailingPointValue(v);
    }
  }

  /** A literal that starts with its point reads as the same literal with "0" before it. */
  lemma LeadingPointValue(v: string)
    requires v != [] && v[0] == '.' && ParseDecimal(v).Some?
    ensures ParseDecimal("0" + v).Some? && Value(ParseDecimal("0" + v).value) == Value(ParseDecimal(v).value)
  {
    var d := ParseDecimal(v).value;
    assert IndexOfChar(v, '.') == 0;
    assert d.whole == "" && d.frac == v[1..];
    assert "0" + v == "" + "0" + "." + d.frac;
    ParseSpelled("", "0", d.frac);
    assert DigitsValue("0") == 0;
  }

  lemma PointIsLast(body: string, p: nat, frac: string)
    requires |body| > 0 && body[|body| - 1] == '.' && p == IndexOfChar(body, '.')
    requires frac == (if p < |body| then body[p + 1..] else "") && AllDigits(frac)
    ensures p == |body| - 1 && frac == ""
  {
  }

  /** An empty fraction and a fraction "0" denote the same number. */
  lemma ZeroFraction(negative: bool, whole: string)
    requires |whole| > 0 && AllDigits(whole)
    ensures Value(Decimal(negative, whole, "0")) == Value(Decimal(negative, whole, ""))
  {
    assert DigitsValue("0") == 0;
  }

  /** A literal that ends with its point reads as the same literal with "0" after it. */
  lemma TrailingPointValue(v: string)
    requires v != [] && v[|v| - 1] == '.' && ParseDecimal(v).Some?
    ensures ParseDecimal(v + "0").Some? && Value(ParseDecimal(v + "0").value) == Value(ParseDecimal(v).value)
  {
    var n := SignLength(v);
    var negative := n == 1 && v[0] == '-';
    assert (v + "0")[0] == v[0];
    assert SignLength(v + "0") == n;
    assert (v + "0")[n..] == v[n..] + "0";
    UnsignedTrailingPoint(v[n..], negative);
    var d := ParseDecimal(v).value;
    ZeroFraction(negative, d.whole);
  }

  /** Digits ending with the point read, with "0" after them, as the same whole part and fraction "0". */
  lemma UnsignedTrailingPoint(b: string, negative: bool)
    requires b != [] && b[|b| - 1] == '.' && ParseUnsigned(b, negative).Some?
    ensures var d := ParseUnsigned(b, negative).value;
      d.frac == "" && |d.whole| > 0 && ParseUnsigned(b + "0", negative) == Some(Decimal(negative, d.whole, "0"))
  {
    var p := IndexOfChar(b, '.');
    var frac := if p < |b| then b[p + 1..] else "";
    PointIsLast(b, p, frac);
    var c := b + "0";
    assert c[..p] == b[..p];
    IndexOfCharIs(c, '.', p);
    assert c[p + 1..] == "0";
  }

  /**
   * On every cell _parse_float accepts, tratar_numero's text reads back as
   * the same number: the weather cleaner and the sensor reader agree.
   */
  lemma CleanNumberKeepsValue(c: Cell)
    requires ParseFloat(c).Some?
    ensures ParseFloat(CleanNumber(c)) == ParseFloat(c)
  {
    if c.Str? {
      var v0 := Normalized(c.s);
      PadPointsKeepsValue(v0);
      var d := ParseDecimal(PadPoints(v0)).value;
      var r := Render(d);
      RenderReadsBack(d);
      RenderShape(d);
      StripNoOp(r);
      ReplaceAbsent(r, ',', '.');
      assert Normalized(r) == r;
      CanonicalValue(d);
    }
  }
}
