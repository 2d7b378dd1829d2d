/**
 * `parseInt(cell)` without a radix, as the importer applies it to the period
 * cell, followed by `|| null`: a number that is NaN or zero becomes absent.
 */
module ParseInt {
  import opened Wrappers
  import opened JsText

  predicate IsDecimalDigit(c: char) {
    '0' <= c <= '9'
  }

  predicate IsHexDigit(c: char) {
    IsDecimalDigit(c) || ('a' <= c <= 'f') || ('A' <= c <= 'F')
  }

  /** A digit of radix 10 or 16, the only two radixes `parseInt` picks by itself. */
  predicate IsDigitIn(c: char, radix: nat)
    requires radix == 10 || radix == 16
  {
    if radix == 10 then IsDecimalDigit(c) else IsHexDigit(c)
  }

  predicate AllDigitsIn(ds: string, radix: nat)
    requires radix == 10 || radix == 16
  {
    forall i :: 0 <= i < |ds| ==> IsDigitIn(ds[i], radix)
  }

  function DigitValue(c: char): (v: nat)
    requires IsHexDigit(c)
    ensures v < 16
    ensures IsDecimalDigit(c) <==> v < 10
  {
    if IsDecimalDigit(c) then (c - '0') as nat
    else if 'a' <= c <= 'f' then (c - 'a') as nat + 10
    else (c - 'A') as nat + 10
  }

  /** Length of the longest prefix of `s` made of digits of `radix`. */
  function DigitRun(s: string, radix: nat): (n: nat)
    requires radix == 10 || radix == 16
    ensures n <= |s| && AllDigitsIn(s[..n], radix)
    ensures n == |s| || !IsDigitIn(s[n], radix)
  {
    if s == [] || !IsDigitIn(s[0], radix) then 0
    else
      var k := DigitRun(s[1..], radix);
      assert s[..k + 1] == [s[0]] + s[1..][..k];
      k + 1
  }

  /** The value of a digit string, most significant digit first. */
  function ValueOf(ds: string, radix: nat): nat
    requires radix == 10 || radix == 16
    requires AllDigitsIn(ds, radix)
  {
    if ds == [] then 0
    else ValueOf(ds[..|ds| - 1], radix) * radix + DigitValue(ds[|ds| - 1])
  }

  /** The numbers `parseInt` can return: NaN or an integer (`-0` and `0` alike). */
  datatype Number = NaN | Int(value: int)

  /** The sign, `0x` prefix and digits that `parseInt` reads after the leading whitespace. */
  datatype Numeral = Numeral(negative: bool, radix: nat, digits: string)

  /** Splits `t` (already stripped of leading whitespace) into sign, radix prefix and the rest. */
  function SplitNumeral(t: string): (r: Numeral)
    ensures r.radix == 10 || r.radix == 16
    ensures |r.digits| <= |t|
    ensures r.negative <==> t != [] && t[0] == '-'
  {
    var negative := t != [] && t[0] == '-';
    var u := if t != [] && (t[0] == '-' || t[0] == '+') then t[1..] else t;
    if |u| >= 2 && u[0] == '0' && (u[1] == 'x' || u[1] == 'X') then Numeral(negative, 16, u[2..])
    else Numeral(negative, 10, u)
  }

  /**
   * `parseInt(s)`: skip leading whitespace, read an optional sign, switch to
   * radix 16 after `0x`/`0X`, then read the longest run of digits; NaN when
   * that run is empty.
   */
  function ParseInt(s: string): (r: Number)
    ensures r.NaN? <==> DigitRun(SplitNumeral(TrimStart(s)).digits, SplitNumeral(TrimStart(s)).radix) == 0
    ensures r.Int? && SplitNumeral(TrimStart(s)).negative ==> r.value <= 0
    ensures r.Int? && !SplitNumeral(TrimStart(s)).negative ==> r.value >= 0
  {
    var num := SplitNumeral(TrimStart(s));
    var n := DigitRun(num.digits, num.radix);
    if n == 0 then NaN
    else
      var v: int := ValueOf(num.digits[..n], num.radix);
      Int(if num.negative then -v else v)
  }

  /** `parseInt(cell) || null`: NaN, `0` and `-0` become absent. */
  function PeriodOf(s: string): (r: Option<int>)
    ensures r.Some? <==> ParseInt(s).Int? && ParseInt(s).value != 0
    ensures r.Some? ==> r.value == ParseInt(s).value
  {
    match ParseInt(s)
    case NaN => None
    case Int(v) => if v == 0 then None else Some(v)
  }

  // ---------------------------------------------------------------------------
  // Decimal rendering, the partner of `ParseInt`

  function DigitChar(d: nat): (c: char)
    requires d < 10
    ensures IsDecimalDigit(c) && DigitValue(c) == d
  {
    ('0' as int + d) as char
  }

  /** The decimal numeral of `n`, without leading zeros. */
  function Decimal(n: nat): (r: string)
    ensures r != [] && AllDigitsIn(r, 10)
    ensures n > 0 ==> r[0] != '0'
  {
    if n < 10 then [DigitChar(n)]
    else
      var p := Decimal(n / 10);
      p + [DigitChar(n % 10)]
  }

  lemma {:induction false} ValueOfDecimal(n: nat)
    ensures ValueOf(Decimal(n), 10) == n
  {
    var r := Decimal(n);
    if n >= 10 {
      ValueOfDecimal(n / 10);
      assert r[..|r| - 1] == Decimal(n / 10);
    }
  }

  /** A run of digits followed by a non-digit (or nothing) is read whole. */
  lemma {:induction false} DigitRunOfPrefix(ds: string, rest: string, radix: nat)
    requires radix == 10 || radix == 16
    requires AllDigitsIn(ds, radix)
    requires rest == [] || !IsDigitIn(rest[0], radix)
    ensures DigitRun(ds + rest, radix) == |ds|
  {
    if ds == [] {
      assert ds + rest == rest;
    } else {
      assert (ds + rest)[0] == ds[0];
      assert (ds + rest)[1..] == ds[1..] + rest;
      DigitRunOfPrefix(ds[1..], rest, radix);
    }
  }

  /** Text that starts with a non-whitespace character has no leading whitespace to skip. */
  lemma TrimStartOfNonSpace(s: string)
    requires s != [] && !IsJsWhitespace(s[0])
    ensures TrimStart(s) == s
  {
  }

  /** Text starting with a digit 1-9 is read unsigned, in radix 10. */
  lemma SplitUnsigned(t: string)
    requires t != [] && '1' <= t[0] <= '9'
    ensures SplitNumeral(t) == Numeral(false, 10, t)
  {
  }

  /** Reading text that starts with a digit 1-9: the value of its leading run of digits. */
  lemma ParseUnsigned(t: string)
    requires t != [] && '1' <= t[0] <= '9'
    ensures 0 < DigitRun(t, 10) && ParseInt(t) == Int(ValueOf(t[..DigitRun(t, 10)], 10))
  {
    TrimStartOfNonSpace(t);
    SplitUnsigned(t);
  }

  /** Parsing the decimal numeral of a positive number, followed by any non-digit text, gives that number back. */
  lemma ParseDecimal(n: nat, rest: string)
    requires n > 0
    requires rest == [] || !IsDecimalDigit(rest[0])
    ensures ParseInt(Decimal(n) + rest) == Int(n)
  {
    var d := Decimal(n);
    var s := d + rest;
    assert s[0] == d[0];
    ParseUnsigned(s);
    DigitRunOfPrefix(d, rest, 10);
    assert s[..|d|] == d;
    ValueOfDecimal(n);
  }

  /** A minus sign followed by a digit 1-9 is read negative, in radix 10. */
  lemma SplitNegative(t: string)
    requires t != [] && '1' <= t[0] <= '9'
    ensures SplitNumeral(['-'] + t) == Numeral(true, 10, t)
  {
    assert (['-'] + t)[1..] == t;
  }

  /** Reading a minus sign and text that starts with a digit 1-9: the negated value of its leading run of digits. */
  lemma ParseNegative(t: string)
    requires t != [] && '1' <= t[0] <= '9'
    ensures 0 < DigitRun(t, 10)
    ensures ParseInt(['-'] + t) == Int(-(ValueOf(t[..DigitRun(t, 10)], 10) as int))
  {
    TrimStartOfNonSpace(['-'] + t);
    SplitNegative(t);
  }

  /** A minus sign, then a numeral without leading zero, then non-digit text: the numeral's value, negated. */
  lemma ParseNegativeNumeral(d: string, rest: string)
    requires d != [] && '1' <= d[0] <= '9' && AllDigitsIn(d, 10)
    requires rest == [] || !IsDecimalDigit(rest[0])
    ensures ParseInt("-" + (d + rest)) == Int(-(ValueOf(d, 10) as int))
  {
    ReadNumeral(d, rest);
    ParseNegativeRun(d, d + rest);
  }

  /** A minus sign, then text whose leading run of digits is the numeral `d`: the numeral's value, negated. */
  lemma ParseNegativeRun(d: string, t: string)
    requires d != [] && '1' <= d[0] <= '9'
    requires t != [] && t[0] == d[0] && DigitRun(t, 10) == |d| && t[..|d|] == d
    ensures ParseInt("-" + t) == Int(-(ValueOf(d, 10) as int))
  {
    ParseNegative(t);
  }

  /** The leading run of digits of a numeral followed by non-digit text is that numeral. */
  lemma ReadNumeral(d: string, rest: string)
    requires d != [] && AllDigitsIn(d, 10)
    requires rest == [] || !IsDecimalDigit(rest[0])
    ensures (d + rest)[0] == d[0]
    ensures DigitRun(d + rest, 10) == |d| && (d + rest)[..|d|] == d
  {
    DigitRunOfPrefix(d, rest, 10);
  }

  /** With a leading minus sign the same numeral reads as the negated number. */
  lemma ParseNegativeDecimal(n: nat, rest: string)
    requires n > 0
    requires rest == [] || !IsDecimalDigit(rest[0])
    ensures ParseInt("-" + (Decimal(n) + rest)) == Int(-(n as int))
  {
    ParseNegativeNumeral(Decimal(n), rest);
    ValueOfDecimal(n);
  }

  /** Leading whitespace is skipped. */
  lemma ParseIgnoresLeadingWhitespace(w: string, s: string)
    requires AllWhitespace(w)
    ensures ParseInt(w + s) == ParseInt(s)
  {
    TrimStartPadded(w, s);
  }

  /** Every positive period written in decimal survives `parseInt(cell) || null`. */
  lemma PeriodRoundTrip(n: nat, rest: string)
    requires n > 0
    requires rest == [] || !IsDecimalDigit(rest[0])
    ensures PeriodOf(Decimal(n) + rest) == Some(n)
  {
    ParseDecimal(n, rest);
  }

  /** A zero period is absent. */
  lemma PeriodZero()
    ensures PeriodOf("0") == None
  {
    TrimStartOfNonSpace("0");
    assert SplitNumeral("0") == Numeral(false, 10, "0");
    assert DigitRun("0", 10) == 1;
    assert ValueOf("0", 10) == 0 by { assert "0"[..0] == ""; }
  }

  /** A negative zero period is absent too: `-0 || null` is `null`. */
  lemma PeriodNegativeZero()
    ensures PeriodOf("-0") == None
  {
    TrimStartOfNonSpace("-0");
    assert SplitNumeral("-0") == Numeral(true, 10, "0");
    assert DigitRun("0", 10) == 1;
    assert ValueOf("0", 10) == 0 by { assert "0"[..0] == ""; }
  }

  /** A cell without leading digits, such as an overtime marker, is absent. */
  lemma PeriodText()
    ensures PeriodOf("OT") == None
  {
    TrimStartOfNonSpace("OT");
    assert SplitNumeral("OT") == Numeral(false, 10, "OT");
    assert DigitRun("OT", 10) == 0;
  }

  /** `parseInt` honours the `0x` prefix: `"0x1A"` is 26. */
  lemma ParseHexPrefix(s: string)
    requires s == "0x1A"
    ensures ParseInt(s) == Int(26)
  {
    var ds := s[2..];
    HexPrefixPieces(s, ds);
    TrimStartOfNonSpace(s);
    assert SplitNumeral(s) == Numeral(false, 16, ds);
    HexDigitsOneA(ds);
  }

  lemma HexPrefixPieces(s: string, ds: string)
    requires s == "0x1A" && ds == s[2..]
    ensures |s| >= 2 && s[0] == '0' && s[1] == 'x' && ds == "1A"
  {
  }

  lemma HexDigitsOneA(ds: string)
    requires ds == "1A"
    ensures DigitRun(ds, 16) == 2 && ValueOf(ds[..2], 16) == 26
  {
    assert ds[1..] == "A" && ds[1..][1..] == "";
    assert ds[..2] == ds && ds[..1] == "1" && ds[..1][..0] == "";
    assert ValueOf(ds[..1], 16) == 1;
    assert DigitValue(ds[1]) == 10;
  }
}
