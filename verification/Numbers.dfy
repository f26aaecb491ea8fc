/** JSON number text, as the decoder keeps it (`json.Number`), and the integers it may denote. */
module Numbers {
  import opened Wrappers

  const MAX_SAFE_INTEGER: int := 0x1F_FFFF_FFFF_FFFF
  const MAX_INT64: int := 0x7FFF_FFFF_FFFF_FFFF
  const MIN_INT64: int := -0x8000_0000_0000_0000

  type int64 = x: int | MIN_INT64 <= x <= MAX_INT64

  // ---- The number grammar of JSON (RFC 8259, section 6) ---------------------------------

  predicate IsDigit(c: char) {
    '0' <= c <= '9'
  }

  predicate AllDigits(d: string) {
    forall i :: 0 <= i < |d| ==> IsDigit(d[i])
  }

  /** `0` or a digit string that does not begin with `0`. */
  predicate Natural(d: string) {
    d != "" && AllDigits(d) && (|d| > 1 ==> d[0] != '0')
  }

  predicate IntegerLiteral(t: string) {
    Natural(t) || (t != "" && t[0] == '-' && Natural(t[1..]))
  }

  predicate Fraction(t: string) {
    t == "" || (|t| >= 2 && t[0] == '.' && AllDigits(t[1..]))
  }

  predicate Exponent(t: string) {
    t == "" || (|t| >= 2 && (t[0] == 'e' || t[0] == 'E')
                && (AllDigits(t[1..]) || (|t| >= 3 && (t[1] == '+' || t[1] == '-') && AllDigits(t[2..]))))
  }

  ghost predicate NumberParts(t: string, i: nat, j: nat) {
    i <= j <= |t| && IntegerLiteral(t[..i]) && Fraction(t[i..j]) && Exponent(t[j..])
  }

  ghost predicate JsonNumber(t: string) {
    exists i: nat, j: nat :: NumberParts(t, i, j)
  }

  lemma ZeroIsNumber()
    ensures JsonNumber("0")
  {
    assert NumberParts("0", 1, 1);
  }

  type NumberText = t: string | JsonNumber(t) witness (ZeroIsNumber(); "0")

  lemma IntegerLiteralIsNumber(t: string)
    requires IntegerLiteral(t)
    ensures JsonNumber(t)
  {
    assert t[..|t|] == t;
    assert NumberParts(t, |t|, |t|);
  }

  // ---- The two tests the source applies to a number -------------------------------------

  predicate IsFloatChar(c: char) {
    c == '.' || c == 'e' || c == 'E'
  }

  /** `strings.ContainsAny(text, ".eE")`. */
  predicate HasFloatChar(t: string) {
    exists i :: 0 <= i < |t| && IsFloatChar(t[i])
  }

  lemma DigitsHaveNoFloatChar(t: string)
    requires IntegerLiteral(t)
    ensures !HasFloatChar(t)
  {
    if t[0] == '-' {
      assert forall i :: 0 < i < |t| ==> t[i] == t[1..][i - 1];
    }
  }

  /** Of the texts the JSON decoder can deliver, the substring test keeps exactly the integers. */
  lemma IntegerIffNoFloatChar(t: NumberText)
    ensures IntegerLiteral(t) <==> !HasFloatChar(t)
  {
    if IntegerLiteral(t) {
      DigitsHaveNoFloatChar(t);
    } else {
      var i: nat, j: nat :| NumberParts(t, i, j);
      assert t == t[..i] + t[i..j] + t[j..];
      if i < j {
        assert t[i] == t[i..j][0];
      } else {
        assert t[..|t|] == t;
        assert j < |t|;
        assert t[j] == t[j..][0];
      }
    }
  }

  function DigitValue(c: char): nat
    requires IsDigit(c)
  {
    c as int - '0' as int
  }

  function DigitsValue(d: string): nat
    requires AllDigits(d)
  {
    if d == "" then 0 else DigitsValue(d[..|d| - 1]) * 10 + DigitValue(d[|d| - 1])
  }

  function IntValue(t: string): int
    requires IntegerLiteral(t)
  {
    if t[0] == '-' then -(DigitsValue(t[1..]) as int) else DigitsValue(t)
  }

  /** `strconv.ParseInt(t, 10, 64)`: an optional sign, at least one digit, and the int64 range. */
  function ParseInt64(t: string): Option<int> {
    var signed := t != "" && (t[0] == '-' || t[0] == '+');
    var digits := if signed then t[1..] else t;
    if digits == "" || !AllDigits(digits) then None
    else
      var n := if signed && t[0] == '-' then -(DigitsValue(digits) as int) else DigitsValue(digits);
      if MIN_INT64 <= n <= MAX_INT64 then Some(n) else None
  }

  predicate Safe(n: int) {
    -MAX_SAFE_INTEGER <= n <= MAX_SAFE_INTEGER
  }

  /** The bounds are 2^53 - 1, and those of a 64-bit integer. */
  lemma BoundsInFigures(n: int)
    ensures Safe(n) <==> -9007199254740991 <= n <= 9007199254740991
    ensures MIN_INT64 <= n <= MAX_INT64 <==> -9223372036854775808 <= n <= 9223372036854775807
  {
  }

  /** An integer literal within the exact domain of an IEEE-754 double. */
  predicate SafeInteger(t: string) {
    IntegerLiteral(t) && Safe(IntValue(t))
  }

  lemma ParseOfLiteral(t: string)
    requires IntegerLiteral(t)
    ensures ParseInt64(t) == if MIN_INT64 <= IntValue(t) <= MAX_INT64 then Some(IntValue(t)) else None
  {
  }

  // ---- Decimal text ---------------------------------------------------------------------

  function DigitChar(n: nat): (c: char)
    requires n < 10
    ensures IsDigit(c) && DigitValue(c) == n
  {
    (n + '0' as int) as char
  }

  function DecimalNat(n: nat): string {
    if n < 10 then [DigitChar(n)] else DecimalNat(n / 10) + [DigitChar(n % 10)]
  }

  /** `fmt.Sprintf("%d", n)`. */
  function Decimal(n: int): string {
    if n < 0 then "-" + DecimalNat(-n) else DecimalNat(n)
  }

  lemma {:induction false} DecimalNatReads(n: nat)
    ensures Natural(DecimalNat(n)) && DigitsValue(DecimalNat(n)) == n
    ensures n > 0 ==> DecimalNat(n)[0] != '0'
  {
    var d := DecimalNat(n);
    if n < 10 {
      assert d[..0] == "";
    } else {
      DecimalNatReads(n / 10);
      assert d[..|d| - 1] == DecimalNat(n / 10);
      assert d[0] == DecimalNat(n / 10)[0];
    }
  }

  /** Decimal text is an integer literal and reads back as the number it was printed from. */
  lemma DecimalReads(n: int)
    ensures IntegerLiteral(Decimal(n)) && IntValue(Decimal(n)) == n
  {
    DecimalNatReads(if n < 0 then -n else n);
    if n < 0 {
      assert Decimal(n)[1..] == DecimalNat(-n);
    }
  }

  lemma {:induction false} NaturalIsDecimal(d: string)
    requires Natural(d)
    ensures DecimalNat(DigitsValue(d)) == d
    ensures d[0] != '0' ==> DigitsValue(d) > 0
  {
    var k := |d| - 1;
    var p := d[..k];
    assert d == p + [d[k]];
    if k > 0 {
      assert p[0] == d[0];
      NaturalIsDecimal(p);
      var v := DigitsValue(p);
      assert DigitsValue(d) == v * 10 + DigitValue(d[k]);
      assert DigitsValue(d) / 10 == v && DigitsValue(d) % 10 == DigitValue(d[k]);
      assert DigitChar(DigitValue(d[k])) == d[k];
    } else {
      assert DigitsValue(p) == 0;
      assert DigitChar(DigitValue(d[0])) == d[0];
    }
  }

  /** Every integer literal but `-0` is the decimal text of its value. */
  lemma LiteralIsDecimal(t: string)
    requires IntegerLiteral(t)
    ensures t == Decimal(IntValue(t)) <==> t != "-0"
  {
    if t[0] == '-' {
      var d := t[1..];
      assert t == "-" + d;
      NaturalIsDecimal(d);
      if d[0] == '0' {
        assert d == "0";
        assert d[..0] == "";
        assert DigitsValue(d) == 0;
      }
    } else {
      NaturalIsDecimal(t);
    }
  }

  // ---- Which texts a counter accepts ----------------------------------------------------

  /** Of the numbers a decoder can deliver, exactly the integer literals in the int64 range are read,
      each as its value. */
  lemma ParseInt64Iff(t: NumberText, n: int)
    ensures ParseInt64(t) == Some(n)
      <==> IntegerLiteral(t) && IntValue(t) == n && -9223372036854775808 <= n <= 9223372036854775807
  {
    IntegerIffNoFloatChar(t);
    if IntegerLiteral(t) {
      ParseOfLiteral(t);
    } else {
      var i :| 0 <= i < |t| && IsFloatChar(t[i]);
      FloatCharIsNoDigit(t, i);
    }
  }

  lemma FloatCharIsNoDigit(t: string, i: nat)
    requires i < |t| && IsFloatChar(t[i])
    ensures ParseInt64(t).None?
  {
    var signed := t[0] == '-' || t[0] == '+';
    var digits := if signed then t[1..] else t;
    assert !IsDigit(t[i]);
    if signed {
      assert i > 0 && digits[i - 1] == t[i];
    }
  }

  // ---- Decimal notation -----------------------------------------------------------------

  /** A digit text is read in base ten, and a minus sign negates it. */
  lemma DigitsAreDecimal(p: string, c: char)
    requires AllDigits(p) && '0' <= c <= '9'
    ensures AllDigits(p + [c]) && DigitsValue(p + [c]) == DigitsValue(p) * 10 + (c as int - '0' as int)
    ensures DigitsValue("") == 0
    ensures Natural(p) ==> IntegerLiteral(p) && IntValue(p) == DigitsValue(p)
    ensures Natural(p) ==> IntegerLiteral("-" + p) && IntValue("-" + p) == -(DigitsValue(p) as int)
  {
    assert (p + [c])[..|p|] == p;
    assert ("-" + p)[1..] == p;
  }

  /** `strconv.ParseInt` takes more than JSON writes: a plus sign and leading zeros. */
  lemma PlusAndZeros()
    ensures ParseInt64("+7") == Some(7) && ParseInt64("007") == Some(7) && ParseInt64("-7") == Some(-7)
    ensures ParseInt64("").None? && ParseInt64("-").None? && ParseInt64("7.0").None?
  {
    assert "+7"[1..] == "7" && "-7"[1..] == "7" && "7"[..0] == "" && "-"[1..] == "";
    assert "007"[..2] == "00" && "00"[..1] == "0" && "0"[..0] == "";
    assert DigitsValue("0") == 0 && DigitsValue("00") == 0 && DigitsValue("7") == 7;
    assert "7.0"[1] == '.';
  }

  /** What the number grammar admits and refuses. */
  lemma Grammar()
    ensures IntegerLiteral("0") && IntegerLiteral("-0") && IntegerLiteral("10")
    ensures !IntegerLiteral("") && !IntegerLiteral("-") && !IntegerLiteral("01") && !IntegerLiteral("+1")
    ensures !IntegerLiteral("1.0") && !IntegerLiteral("1e5")
    ensures JsonNumber("1.5") && JsonNumber("1e5") && JsonNumber("-1.5E+7")
  {
    assert NumberParts("1.5", 1, 3) by {
      assert "1.5"[..1] == "1" && "1.5"[1..3] == ".5" && "1.5"[3..] == "" && ".5"[1..] == "5";
    }
    assert NumberParts("1e5", 1, 1) by {
      assert "1e5"[..1] == "1" && "1e5"[1..1] == "" && "1e5"[1..] == "e5" && "e5"[1..] == "5";
    }
    assert NumberParts("-1.5E+7", 2, 4) by {
      var t := "-1.5E+7";
      assert t[..2] == "-1" && "-1"[1..] == "1" && t[2..4] == ".5" && ".5"[1..] == "5";
      assert t[4..] == "E+7" && "E+7"[2..] == "7";
    }
    assert "-0"[1..] == "0" && "-"[1..] == "" && "+1"[0] == '+';
    assert "1.0"[1] == '.' && "1e5"[1] == 'e';
  }
}
