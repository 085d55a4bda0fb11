/** The unit converters `weiToEthString` and `tokenBalanceToString`: an
    on-chain integer amount n, counted in units of 10^-e, shown as a decimal
    string with at most `precision` fractional digits, truncated, and no
    trailing zeros after the point. */
module Units {
  import opened Wrappers
  import opened DecimalText

  /** Ether has 18 decimals: 1 ETH is 10^18 wei. */
  const WeiDecimals: nat := 18

  /** Fractional digits `weiToEthString` shows when not told otherwise. */
  const DefaultPrecision: int := 6

  /** `(n / base).toString()` with base = 10^e. */
  function IntPart(n: nat, e: nat): string {
    DivMul(n, Pow10(e));
    NatToString(n / Pow10(e))
  }

  /** `m.toString().padStart(e, '0')`, for the remainder m = n % base. */
  function PaddedRemainder(m: nat, e: nat): string {
    PadStart(NatToString(m), e, '0')
  }

  /** The fraction shown for the remainder m: the padded remainder cut by
      `slice(0, precision)`, then stripped of trailing zeros. */
  function Fraction(m: nat, e: nat, precision: int): string {
    StripTrailingZeros(Slice(PaddedRemainder(m, e), precision))
  }

  /** `frac ? `${intPart}.${frac}` : intPart`. */
  function Join(whole: string, frac: string): string {
    if frac == [] then whole else whole + "." + frac
  }

  /** n rounded down to a multiple of d: the largest multiple of d that is
      at most n. */
  function Truncate(n: nat, d: nat): (r: nat)
    requires d > 0
    ensures r <= n < r + d && r % d == 0
  {
    DivMul(n, d);
    DivModUnique(n - n % d, d, n / d, 0);
    n - n % d
  }

  /** The algorithm both converters share, once the amount is an integer. */
  function Format(n: nat, e: nat, precision: int): string {
    Join(IntPart(n, e), Fraction(n % Pow10(e), e, precision))
  }

  /** `weiToEthString(wei, decimals)`: `BigInt(wei)` failing gives "0". */
  function WeiToEthString(wei: string, precision: int): string {
    match Parse(wei)
    case None => "0"
    case Some(n) => Format(n, WeiDecimals, precision)
  }

  /** `BigInt(decimals)` succeeds and `10n ** BigInt(decimals)` does not throw:
      the JavaScript number is a non-negative integer. */
  predicate IsExponent(decimals: real) {
    0.0 <= decimals && decimals.Floor as real == decimals
  }

  /** `tokenBalanceToString(balance, decimals, precision)`; the empty balance
      is read as "0", and any exception (bad balance, fractional or negative
      decimals) gives "0". */
  function TokenBalanceToString(balance: string, decimals: real, precision: int): string {
    match Parse(if balance == "" then "0" else balance)
    case None => "0"
    case Some(n) =>
      if IsExponent(decimals) then Format(n, decimals.Floor as nat, precision) else "0"
  }

  // ---------------------------------------------------------------------
  // Reading a display string back

  /** The number of 10^-e units a display string "W" or "W.F" stands for, or
      None when the string is not of that shape (F non-empty, at most e digits). */
  function ReadDecimal(s: string, e: nat): Option<int> {
    var i := DotIndex(s);
    var whole := s[..i];
    var frac := if i < |s| then s[i + 1..] else [];
    if whole != [] && AllDigits(whole) && AllDigits(frac) && |frac| <= e && (i < |s| ==> frac != [])
    then Some(Value(whole) * Pow10(e) + Value(frac) * Pow10(e - |frac|))
    else None
  }

  /** The shape every converter output has: a whole part without leading
      zeros, and, only when there is a fraction, a point followed by digits
      that do not end in '0'. */
  predicate Canonical(s: string) {
    var i := DotIndex(s);
    && 0 < i
    && AllDigits(s[..i])
    && (s[0] == '0' ==> i == 1)
    && (i < |s| ==> i + 1 < |s| && AllDigits(s[i + 1..]) && s[|s| - 1] != '0')
  }

  // ---------------------------------------------------------------------
  // Properties of Format

  /** The padded remainder of m < 10^e is e digits (one "0" when e is 0)
      worth m. */
  lemma {:induction false} PaddedRemainderValue(m: nat, e: nat)
    requires m < Pow10(e)
    ensures AllDigits(PaddedRemainder(m, e))
    ensures |PaddedRemainder(m, e)| == if e == 0 then 1 else e
    ensures Value(PaddedRemainder(m, e)) == m
  {
    var r := NatToString(m);
    var p := PaddedRemainder(m, e);
    if e == 0 {
      assert p == "0";
    } else {
      NatToStringLength(m, e);
      assert p == Zeros(e - |r|) + r;
      ValueLeadingZeros(r, e - |r|);
      ValueOfNatToString(m);
    }
  }

  /** With no decimals there is never a fraction. */
  lemma {:induction false} FractionNoDecimals(precision: int)
    ensures Fraction(0, 0, precision) == []
  {
    assert PaddedRemainder(0, 0) == "0";
    var s := Slice("0", precision);
    assert s == [] || s == "0";
  }

  /** The fraction's value, scaled back to units of 10^-e, is the remainder
      m rounded down to a multiple of 10^(e - k), where k is the number of
      digits `slice(0, precision)` keeps. */
  lemma {:induction false} FractionValue(m: nat, e: nat, precision: int)
    requires m < Pow10(e)
    ensures AllDigits(Fraction(m, e, precision))
    ensures |Fraction(m, e, precision)| <= SliceEnd(e, precision)
    ensures Value(Fraction(m, e, precision)) * Pow10(e - |Fraction(m, e, precision)|)
      == m - m % Pow10(e - SliceEnd(e, precision))
  {
    if e == 0 {
      FractionNoDecimals(precision);
    } else {
      FractionValueSome(m, e, precision, Fraction(m, e, precision));
    }
  }

  lemma {:induction false} FractionValueSome(m: nat, e: nat, precision: int, f: string)
    requires 0 < e && m < Pow10(e) && f == Fraction(m, e, precision)
    ensures AllDigits(f) && |f| <= SliceEnd(e, precision)
    ensures Value(f) * Pow10(e - |f|) == m - m % Pow10(e - SliceEnd(e, precision))
  {
    var p := PaddedRemainder(m, e);
    PaddedRemainderValue(m, e);
    var k := SliceEnd(e, precision);
    assert Slice(p, precision) == p[..k];
    TruncatedValue(p, k, f, e);
  }

  /** Keeping the first k of the e digits of p and stripping trailing zeros
      keeps the value of p rounded down to a multiple of 10^(e - k). */
  lemma {:induction false} TruncatedValue(p: string, k: nat, f: string, e: nat)
    requires AllDigits(p) && |p| == e && k <= e && f == StripTrailingZeros(p[..k])
    ensures AllDigits(f) && |f| <= k
    ensures Value(f) * Pow10(e - |f|) == Value(p) - Value(p) % Pow10(e - k)
  {
    var s := p[..k];
    assert AllDigits(s) && Value(s) == Value(p) / Pow10(e - k) by {
      PrefixValue(p, k);
    }
    assert AllDigits(f) && Value(f) * Pow10(k - |f|) == Value(s) by {
      StripValue(s, f);
    }
    ScaleBack(Value(f), k - |f|, Value(s), Value(p), e - k);
    assert k - |f| + (e - k) == e - |f|;
  }

  /** Reading a joined whole part and fraction back. */
  lemma {:induction false} ReadJoin(whole: string, frac: string, e: nat)
    requires whole != [] && AllDigits(whole) && AllDigits(frac) && |frac| <= e
    ensures ReadDecimal(Join(whole, frac), e) == Some(Value(whole) * Pow10(e) + Value(frac) * Pow10(e - |frac|))
  {
    DigitsHaveNoDot(whole);
    var s := Join(whole, frac);
    if frac == [] {
      DotIndexNone(whole);
      assert s[..|s|] == whole;
    } else {
      DotIndexAfter(whole, frac);
      assert s[..|whole|] == whole;
      assert s[|whole| + 1..] == frac;
    }
  }

  /** Numbers that agree below 10^e agree below every 10^j, j <= e. */
  lemma {:induction false} ModOfSplit(n: nat, q: nat, m: nat, e: nat, j: nat)
    requires j <= e && m < Pow10(e) && n == q * Pow10(e) + m
    ensures n % Pow10(j) == m % Pow10(j)
  {
    var a, unit := Pow10(e - j), Pow10(j);
    Pow10Add(e - j, j);
    assert e - j + j == e;
    assert Pow10(e) == a * unit;
    MulAssoc(q, a, unit);
    DivMul(m, unit);
    MulAddDistrib(q * a, m / unit, unit);
    assert n == (q * a + m / unit) * unit + m % unit;
    DivModUnique(n, unit, q * a + m / unit, m % unit);
  }

  /** THE CONVERSION IS EXACT TRUNCATION: the display string, read back in
      units of 10^-e, is n rounded down to a multiple of 10^(e - k), where k
      is the number of fractional digits `slice(0, precision)` keeps. */
  lemma {:induction false} FormatReadBack(n: nat, e: nat, precision: int)
    ensures ReadDecimal(Format(n, e, precision), e)
      == Some(Truncate(n, Pow10(e - SliceEnd(e, precision))))
  {
    var j := e - SliceEnd(e, precision);
    ReadFormat(n, e, precision);
    TruncateSplit(n, e, j);
  }

  /** Format read back: the whole part in full, the remainder truncated. */
  lemma {:induction false} ReadFormat(n: nat, e: nat, precision: int)
    ensures ReadDecimal(Format(n, e, precision), e)
      == Some((n / Pow10(e)) * Pow10(e) + Truncate(n % Pow10(e), Pow10(e - SliceEnd(e, precision))))
  {
    var m := n % Pow10(e);
    var f := Fraction(m, e, precision);
    var whole := IntPart(n, e);
    assert Format(n, e, precision) == Join(whole, f);
    FractionValue(m, e, precision);
    ReadJoin(whole, f, e);
    ValueOfNatToString(n / Pow10(e));
  }

  /** Truncating below 10^j, j <= e, touches only the remainder modulo 10^e. */
  lemma {:induction false} TruncateSplit(n: nat, e: nat, j: nat)
    requires j <= e
    ensures (n / Pow10(e)) * Pow10(e) + Truncate(n % Pow10(e), Pow10(j)) == Truncate(n, Pow10(j))
  {
    var pe: int, unit: int := Pow10(e), Pow10(j);
    DivMul(n, pe);
    var q: nat, m: nat := n / Pow10(e), n % Pow10(e);
    assert n == q * pe + m;
    assert n % unit == m % unit by {
      ModOfSplit(n, q, m, e, j);
    }
    assert q * pe + (m - m % unit) == n - n % unit by {
      Recombine(n, q, pe, m, unit, m - m % unit);
    }
  }

  lemma {:induction false} Recombine(n: int, q: int, pe: int, m: int, unit: int, t: int)
    requires unit > 0 && n == q * pe + m && n % unit == m % unit && t == m - m % unit
    ensures q * pe + t == n - n % unit
  {
  }

  /** The point appears exactly when the remainder reaches the unit of the
      last digit kept, 10^(e - k): below it the kept digits are all zeros and
      are stripped away. */
  lemma {:induction false} FractionEmpty(m: nat, e: nat, precision: int)
    requires m < Pow10(e)
    ensures Fraction(m, e, precision) == [] <==> m < Pow10(e - SliceEnd(e, precision))
  {
    var f := Fraction(m, e, precision);
    var unit: int := Pow10(e - SliceEnd(e, precision));
    FractionValue(m, e, precision);
    var v: int, p: int := Value(f), Pow10(e - |f|);
    assert v * p == m - m % unit;
    if f != [] {
      assert v >= 1 by {
        StripShape(Slice(PaddedRemainder(m, e), precision));
        NonZeroDigits(f);
      }
      MulMonotone(1, v, p);
    }
    BelowUnit(m, unit);
  }

  lemma {:induction false} BelowUnit(m: nat, unit: nat)
    requires unit > 0
    ensures m - m % unit == 0 <==> m < unit
  {
    if m < unit {
      DivModUnique(m, unit, 0, m);
    } else {
      DivMul(m, unit);
      DivModUnique(m, unit, m / unit, m % unit);
    }
  }

  /** Format of q * 10^e + m, m < 10^e, is the numeral of q joined to the
      fraction of m. */
  lemma {:induction false} FormatSplit(n: nat, q: nat, m: nat, e: nat, precision: int)
    requires n == q * Pow10(e) + m && m < Pow10(e)
    ensures Format(n, e, precision) == Join(NatToString(q), Fraction(m, e, precision))
  {
    DivModUnique(n, Pow10(e), q, m);
  }

  /** Joining a numeral and a digit string that does not end in '0' gives a
      canonical string that starts with the numeral and has a point exactly
      when the fraction is non-empty. */
  lemma {:induction false} JoinShape(whole: string, f: string)
    requires whole != [] && AllDigits(whole) && (whole[0] == '0' ==> whole == "0")
    requires AllDigits(f) && (f == [] || f[|f| - 1] != '0')
    ensures Canonical(Join(whole, f)) && whole <= Join(whole, f)
    ensures '.' in Join(whole, f) <==> f != []
  {
    var s := Join(whole, f);
    DigitsHaveNoDot(whole);
    if f == [] {
      DotIndexNone(whole);
      assert s[..|whole|] == whole;
    } else {
      DigitsHaveNoDot(f);
      DotIndexAfter(whole, f);
      assert s[..|whole|] == whole;
      assert s[|whole| + 1..] == f;
      assert s[|whole|] == '.';
    }
  }

  /** Every output of Format is canonical, starts with the integer part
      n / 10^e, and has a point exactly when the fraction is non-empty. */
  lemma {:induction false} FormatShape(n: nat, e: nat, precision: int)
    ensures var s, m := Format(n, e, precision), n % Pow10(e);
      && Canonical(s)
      && IntPart(n, e) <= s
      && ('.' in s <==> Fraction(m, e, precision) != [])
      && Fraction(m, e, precision) <= Slice(PaddedRemainder(m, e), precision)
  {
    var m := n % Pow10(e);
    var whole, f := IntPart(n, e), Fraction(m, e, precision);
    assert AllDigits(f) by {
      FractionValue(m, e, precision);
    }
    assert (f == [] || f[|f| - 1] != '0') && f <= Slice(PaddedRemainder(m, e), precision) by {
      StripShape(Slice(PaddedRemainder(m, e), precision));
    }
    assert Format(n, e, precision) == Join(whole, f);
    JoinShape(whole, f);
  }

  // ---------------------------------------------------------------------
  // weiToEthString

  /** A digit string is shown as its value n truncated to `precision`
      fractional digits of ether. */
  lemma {:induction false} WeiToEthReadBack(wei: string, precision: int, n: nat)
    requires Parse(wei) == Some(n)
    ensures ReadDecimal(WeiToEthString(wei, precision), WeiDecimals)
      == Some(Truncate(n, Pow10(WeiDecimals - SliceEnd(WeiDecimals, precision))))
  {
    FormatReadBack(n, WeiDecimals, precision);
  }

  /** Truncation, not rounding: for 0 <= precision <= 18 the value shown,
      r wei, is a multiple of 10^(18 - precision) with r <= n < r + 10^(18 - precision). */
  lemma {:induction false} WeiToEthTruncates(wei: string, precision: int, n: nat)
    requires Parse(wei) == Some(n) && 0 <= precision <= WeiDecimals
    ensures ReadDecimal(WeiToEthString(wei, precision), WeiDecimals).Some?
    ensures var r, unit := ReadDecimal(WeiToEthString(wei, precision), WeiDecimals).value, Pow10(WeiDecimals - precision);
      r <= n < r + unit && r % unit == 0
  {
    var unit := Pow10(WeiDecimals - precision);
    assert ReadDecimal(WeiToEthString(wei, precision), WeiDecimals) == Some(Truncate(n, unit)) by {
      WeiToEthReadBack(wei, precision, n);
      assert SliceEnd(WeiDecimals, precision) == precision;
    }
  }

  /** The output of weiToEthString is always of the documented shape, and its
      whole part is n / 10^18; input BigInt rejects gives "0". */
  lemma {:induction false} WeiToEthShape(wei: string, precision: int)
    ensures Canonical(WeiToEthString(wei, precision))
    ensures Parse(wei).None? ==> WeiToEthString(wei, precision) == "0"
    ensures Parse(wei).Some? ==> IntPart(Parse(wei).value, WeiDecimals) <= WeiToEthString(wei, precision)
  {
    match Parse(wei)
    case None =>
      assert DotIndex("0") == 1;
    case Some(n) =>
      FormatShape(n, WeiDecimals, precision);
  }

  /** 10^18 wei, a one followed by 18 zeros, is shown as one ether. */
  lemma {:induction false} WeiToEthOneEther()
    ensures WeiToEthString("1" + Zeros(WeiDecimals), DefaultPrecision) == "1"
  {
    assert Parse("1" + Zeros(WeiDecimals)) == Some(Pow10(WeiDecimals)) by {
      NatToStringShift(1, WeiDecimals);
      assert NatToString(1) == "1";
      ParseNatToString(Pow10(WeiDecimals));
    }
    assert Format(Pow10(WeiDecimals), WeiDecimals, DefaultPrecision) == "1" by {
      FormatSplit(Pow10(WeiDecimals), 1, 0, WeiDecimals, DefaultPrecision);
      FractionEmpty(0, WeiDecimals, DefaultPrecision);
      assert NatToString(1) == "1";
    }
  }

  /** The same algorithm read on the digits: a numeral of q followed by
      exactly e digits f (e > 0) shows the numeral, then the first
      `precision` digits of f without their trailing zeros. */
  lemma {:induction false} FormatDigits(q: nat, f: string, e: nat, precision: int)
    requires AllDigits(f) && |f| == e && e > 0
    ensures Parse(NatToString(q) + f) == Some(q * Pow10(e) + Value(f))
    ensures Format(q * Pow10(e) + Value(f), e, precision)
      == Join(NatToString(q), StripTrailingZeros(Slice(f, precision)))
  {
    var w := NatToString(q);
    var m := Value(f);
    assert Value(w + f) == q * Pow10(e) + m by {
      ValueAppend(w, f);
      ValueOfNatToString(q);
    }
    assert m < Pow10(e) by {
      ValueBound(f);
    }
    assert PaddedRemainder(m, e) == f by {
      PaddedRemainderValue(m, e);
      DigitsUnique(PaddedRemainder(m, e), f);
    }
    FormatSplit(q * Pow10(e) + m, q, m, e, precision);
  }

  /** weiToEthString on the digits: all but the last 18 digits form the
      whole part, and the first `precision` of the last 18, without trailing
      zeros, the fraction. */
  lemma {:induction false} WeiToEthDigits(q: nat, f: string, precision: int)
    requires AllDigits(f) && |f| == WeiDecimals
    ensures WeiToEthString(NatToString(q) + f, precision)
      == Join(NatToString(q), StripTrailingZeros(Slice(f, precision)))
  {
    FormatDigits(q, f, WeiDecimals, precision);
    WeiToEthIsFormat(NatToString(q) + f, precision, q * Pow10(WeiDecimals) + Value(f));
  }

  /** A digit string worth n wei is shown as Format shows n at 18 decimals. */
  lemma {:induction false} WeiToEthIsFormat(wei: string, precision: int, n: nat)
    requires Parse(wei) == Some(n)
    ensures WeiToEthString(wei, precision) == Format(n, WeiDecimals, precision)
  {
  }

  /** The shape given in the converter's documentation: 1234560000000000000
      wei is "1.23456" ether. */
  lemma {:induction false} WeiToEthDocExample()
    ensures WeiToEthString("1" + "23456" + Zeros(13), DefaultPrecision) == "1.23456"
  {
    var f := "23456" + Zeros(13);
    assert "1" + "23456" + Zeros(13) == NatToString(1) + f;
    WeiToEthDigits(1, f, DefaultPrecision);
    assert Slice(f, DefaultPrecision) == "23456" + Zeros(1);
    StripZerosSuffix("23456", 1);
  }

  /** An amount below 10^12 wei, the last digit shown at the default
      precision, shows as "0". */
  lemma {:induction false} WeiToEthBelowUnit(wei: string, n: nat)
    requires Parse(wei) == Some(n) && n < Pow10(12)
    ensures WeiToEthString(wei, DefaultPrecision) == "0"
  {
    var e := WeiDecimals;
    assert n < Pow10(e) by {
      Pow10Monotone(12, e);
    }
    WeiToEthIsFormat(wei, DefaultPrecision, n);
    FormatSplit(n, 0, n, e, DefaultPrecision);
    assert SliceEnd(e, DefaultPrecision) == 6;
    FractionEmpty(n, e, DefaultPrecision);
  }

  /** 123 wei is below the last digit shown. */
  lemma {:induction false} WeiToEthDust()
    ensures WeiToEthString("123", DefaultPrecision) == "0"
  {
    assert Parse("123") == Some(123) by {
      assert NatToString(123) == "123";
      ParseNatToString(123);
    }
    WeiToEthBelowUnit("123", 123);
  }

  /** Input that BigInt reads as 0, or rejects, shows "0". */
  lemma {:induction false} WeiToEthZero()
    ensures WeiToEthString("0", DefaultPrecision) == "0"
    ensures WeiToEthString("", DefaultPrecision) == "0"
    ensures WeiToEthString("invalid", DefaultPrecision) == "0"
  {
    assert Parse("0") == Parse("") == Some(0) by {
      ParseNatToString(0);
    }
    assert !IsDigit("invalid"[0]);
    WeiToEthBelowUnit("0", 0);
    WeiToEthBelowUnit("", 0);
  }

  // ---------------------------------------------------------------------
  // tokenBalanceToString

  /** With 18 decimals the token converter is the wei converter. */
  lemma {:induction false} TokenAt18IsWei(balance: string, precision: int)
    ensures TokenBalanceToString(balance, 18.0, precision) == WeiToEthString(balance, precision)
  {
    assert Parse("0") == Parse("") == Some(0);
  }

  /** `BigInt('')` is already 0, so reading the empty balance as "0" changes
      nothing. */
  lemma {:induction false} EmptyBalanceIsZero(balance: string)
    ensures Parse(if balance == "" then "0" else balance) == Parse(balance)
  {
    assert Value("0") == Value("") * 10 + DigitValue('0');
  }

  /** A balance worth n units, with e decimals, is shown as n truncated to
      `precision` fractional digits of the token. */
  lemma {:induction false} TokenReadBack(balance: string, e: nat, precision: int, n: nat)
    requires Parse(balance) == Some(n)
    ensures ReadDecimal(TokenBalanceToString(balance, e as real, precision), e)
      == Some(Truncate(n, Pow10(e - SliceEnd(e, precision))))
  {
    assert TokenBalanceToString(balance, e as real, precision) == Format(n, e, precision) by {
      EmptyBalanceIsZero(balance);
      assert IsExponent(e as real);
    }
    FormatReadBack(n, e, precision);
  }

  /** With no decimals, or no precision, only the integer part n / 10^e is
      shown. */
  lemma {:induction false} TokenIntegerOnly(balance: string, e: nat, precision: int, n: nat)
    requires Parse(balance) == Some(n)
    requires e == 0 || precision == 0
    ensures TokenBalanceToString(balance, e as real, precision) == IntPart(n, e)
  {
    assert TokenBalanceToString(balance, e as real, precision) == Format(n, e, precision) by {
      EmptyBalanceIsZero(balance);
      assert IsExponent(e as real);
    }
    assert Format(n, e, precision) == IntPart(n, e) by {
      FractionValue(n % Pow10(e), e, precision);
      assert Fraction(n % Pow10(e), e, precision) == [];
    }
  }

  /** A balance BigInt rejects, or decimals that are negative or not an
      integer, give "0". */
  lemma {:induction false} TokenFallback(balance: string, decimals: real, precision: int)
    requires Parse(balance).None? || !IsExponent(decimals)
    ensures TokenBalanceToString(balance, decimals, precision) == "0"
  {
    assert Parse("0") == Parse("") == Some(0);
  }

  /** "50" is read as 50. */
  lemma {:induction false} HalfParse()
    ensures Parse("50") == Some(50)
  {
    assert NatToString(50) == "50" by {
      assert NatToString(5) == "5";
      NatToStringDigit(5, 0);
    }
    ParseNatToString(50);
  }

  /** 50 hundredths keep one fractional digit. */
  lemma {:induction false} HalfFormat()
    ensures Format(50, 2, 2) == "0.5"
  {
    assert Fraction(50, 2, 2) == "5" by {
      assert PaddedRemainder(50, 2) == "50" by {
        assert NatToString(5) == "5";
        NatToStringDigit(5, 0);
      }
      assert Slice("50", 2) == "5" + Zeros(1);
      StripZerosSuffix("5", 1);
    }
    FormatSplit(50, 0, 50, 2, 2);
  }

  /** A 2-decimal token: 50 units are half a token. */
  lemma {:induction false} TokenHalf()
    ensures TokenBalanceToString("50", 2.0, 2) == "0.5"
  {
    HalfParse();
    HalfFormat();
  }

  /** "1239" is read as 1239. */
  lemma {:induction false} CutParse()
    ensures Parse("1239") == Some(1239)
  {
    assert NatToString(1239) == "1239" by {
      assert NatToString(1) == "1";
      NatToStringDigit(1, 2);
      assert NatToString(12) == "12";
      NatToStringDigit(12, 3);
      assert NatToString(123) == "123";
      NatToStringDigit(123, 9);
    }
    ParseNatToString(1239);
  }

  /** Precision 2 keeps two of the three remainder digits. */
  lemma {:induction false} CutFormat()
    ensures Format(1239, 3, 2) == "1.23"
  {
    assert Fraction(239, 3, 2) == "23" by {
      assert PaddedRemainder(239, 3) == "239" by {
        assert NatToString(2) == "2";
        NatToStringDigit(2, 3);
        assert NatToString(23) == "23";
        NatToStringDigit(23, 9);
      }
      assert Slice("239", 2) == "23";
    }
    FormatSplit(1239, 1, 239, 3, 2);
  }

  /** Digits beyond `precision` are cut, not rounded: 1.239 tokens at
      precision 2 show as 1.23. */
  lemma {:induction false} TokenCutNotRounded()
    ensures TokenBalanceToString("1239", 3.0, 2) == "1.23"
  {
    CutParse();
    CutFormat();
  }

  /** The empty balance is 0 units. */
  lemma {:induction false} TokenEmptyBalance()
    ensures TokenBalanceToString("", 6.0, 6) == "0"
  {
    assert Parse("0") == Some(0) by {
      ParseNatToString(0);
    }
    FormatSplit(0, 0, 0, 6, 6);
    FractionEmpty(0, 6, 6);
  }

  /** Fractional or negative decimals make `10n ** BigInt(decimals)` throw. */
  lemma {:induction false} TokenBadDecimals()
    ensures TokenBalanceToString("5", 1.5, 6) == "0"
    ensures TokenBalanceToString("5", -1.0, 6) == "0"
  {
    assert !IsExponent(1.5) && !IsExponent(-1.0);
  }
}
