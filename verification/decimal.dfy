/** Decimal and hexadecimal numerals as the header's numeric libraries
    handle them: a non-negative big integer printed in base 10 (the
    `toString()` of a big number), a numeric string read into a big integer
    (`BigNumber.from` of a string), and a wei amount printed as ether with
    18 decimals (`formatEther`), together with the exact decimal reading
    that inverts it. */
module Decimal {

  predicate IsDigit(c: char) { '0' <= c <= '9' }

  predicate AllDigits(s: string) { forall i :: 0 <= i < |s| ==> IsDigit(s[i]) }

  function DigitChar(d: nat): (c: char)
    requires d < 10
    ensures IsDigit(c) && c as int - '0' as int == d
  {
    ('0' as int + d) as char
  }

  function Pow10(n: nat): (r: nat)
    ensures r > 0
  {
    if n == 0 then 1 else 10 * Pow10(n - 1)
  }

  /** The number a string of decimal digits denotes (leading zeros allowed). */
  function Value(s: string): nat
    requires AllDigits(s)
  {
    if s == [] then 0 else Value(s[..|s| - 1]) * 10 + (s[|s| - 1] as int - '0' as int)
  }

  /** `toString()` of a non-negative big number: its decimal digits, with no
      leading zero except for zero itself. */
  function ToDecimal(n: nat): (s: string)
    ensures |s| >= 1 && AllDigits(s)
    ensures s[0] == '0' ==> s == "0"
    ensures Value(s) == n
    decreases n
  {
    if n < 10 then [DigitChar(n)]
    else
      var front := ToDecimal(n / 10);
      var s := front + [DigitChar(n % 10)];
      assert s[..|s| - 1] == front;
      s
  }

  /** A decimal numeral with `k` digits or fewer is below 10^k, and conversely. */
  lemma {:induction false} ToDecimalLength(n: nat, k: nat)
    requires 1 <= k && n < Pow10(k)
    ensures |ToDecimal(n)| <= k
    decreases k
  {
    if n >= 10 {
      assert k >= 2;
      ToDecimalLength(n / 10, k - 1);
    }
  }

  /** Leading zeros do not change a numeral's value. */
  lemma {:induction false} ValueLeadingZero(s: string)
    requires AllDigits(s)
    ensures AllDigits("0" + s) && Value("0" + s) == Value(s)
    decreases |s|
  {
    if s != [] {
      var t := "0" + s;
      assert t[..|t| - 1] == "0" + s[..|s| - 1];
      ValueLeadingZero(s[..|s| - 1]);
    }
  }

  // ---------------------------------------------------------------------------
  // formatEther: the whole part, a dot, and the fraction padded on the left to
  // 18 digits with its trailing zeros removed (a single "0" if nothing is left).

  const DECIMALS: nat := 18

  /** Wei per ether, 10^18. */
  const WEI_PER_ETHER: nat := 1_000_000_000_000_000_000

  lemma WeiPerEtherIsPow10()
    ensures Pow10(DECIMALS) == WEI_PER_ETHER
  {
    assert Pow10(3) == 1_000;
    assert Pow10(6) == 1_000_000;
    assert Pow10(9) == 1_000_000_000;
    assert Pow10(12) == 1_000_000_000_000;
    assert Pow10(15) == 1_000_000_000_000_000;
  }

  /** Prepends zeros until `s` is `width` characters long. */
  function PadZeros(s: string, width: nat): (r: string)
    ensures |r| == if |s| < width then width else |s|
    decreases width - |s|
  {
    if |s| < width then PadZeros("0" + s, width) else s
  }

  /** Removes every trailing '0'. */
  function StripTrailingZeros(s: string): (r: string)
    ensures |r| <= |s| && r == s[..|r|]
    ensures r == [] || r[|r| - 1] != '0'
  {
    if |s| > 0 && s[|s| - 1] == '0' then StripTrailingZeros(s[..|s| - 1]) else s
  }

  /** The fraction as printed: trailing zeros removed, or "0" when all are zeros. */
  function TrimFraction(s: string): string {
    var t := StripTrailingZeros(s);
    if t == [] then "0" else t
  }

  /** `formatEther` of a non-negative wei amount. */
  function FormatEther(wei: nat): string {
    ToDecimal(wei / WEI_PER_ETHER)
      + "."
      + TrimFraction(PadZeros(ToDecimal(wei % WEI_PER_ETHER), DECIMALS))
  }

  lemma {:induction false} PadZerosValue(s: string, width: nat)
    requires AllDigits(s)
    ensures AllDigits(PadZeros(s, width)) && Value(PadZeros(s, width)) == Value(s)
    decreases width - |s|
  {
    if |s| < width {
      ValueLeadingZero(s);
      PadZerosValue("0" + s, width);
    }
  }

  lemma ShiftByTen(v: nat, p: nat)
    ensures v * (10 * p) == (v * p) * 10
  {
  }

  /** Dropping `k` trailing zeros divides the value by 10^k. */
  lemma {:induction false} StripTrailingZerosValue(s: string)
    requires AllDigits(s)
    ensures AllDigits(StripTrailingZeros(s))
    ensures Value(StripTrailingZeros(s)) * Pow10(|s| - |StripTrailingZeros(s)|) == Value(s)
  {
    if |s| > 0 && s[|s| - 1] == '0' {
      var front := s[..|s| - 1];
      assert AllDigits(front) by {
        forall i | 0 <= i < |front| ensures IsDigit(front[i]) { assert front[i] == s[i]; }
      }
      var r := StripTrailingZeros(front);
      assert StripTrailingZeros(s) == r;
      StripTrailingZerosValue(front);
      assert Value(s) == Value(front) * 10;
      assert Pow10(|s| - |r|) == 10 * Pow10(|front| - |r|);
      ShiftByTen(Value(r), Pow10(|front| - |r|));
    }
  }

  /** The printed fraction has one to `|s|` digits and, read as that many
      decimal places, has the value of `s` read as `|s|` places. */
  lemma TrimFractionValue(s: string)
    requires AllDigits(s) && |s| >= 1
    ensures var f := TrimFraction(s);
      && AllDigits(f) && 1 <= |f| <= |s|
      && Value(f) * Pow10(|s| - |f|) == Value(s)
  {
    StripTrailingZerosValue(s);
  }

  // ---------------------------------------------------------------------------
  // The exact reading of a decimal ether string, in wei: digits, a dot, and
  // one to 18 fraction digits.

  /** The index of the first '.' in `s`, if any. */
  function IndexOfDot(s: string): (r: int)
    ensures -1 <= r < |s|
    ensures r >= 0 ==> s[r] == '.' && forall i :: 0 <= i < r ==> s[i] != '.'
    ensures r == -1 ==> forall i :: 0 <= i < |s| ==> s[i] != '.'
  {
    if s == [] then -1
    else if s[0] == '.' then 0
    else
      var r := IndexOfDot(s[1..]);
      if r == -1 then -1 else r + 1
  }

  datatype Option<+T> = None | Some(value: T)

  /** The wei amount of `whole` ether plus `fraction` read as decimal places. */
  function EtherAmount(whole: string, fraction: string): nat
    requires AllDigits(whole) && AllDigits(fraction) && |fraction| <= DECIMALS
  {
    Value(whole) * WEI_PER_ETHER + Value(fraction) * Pow10(DECIMALS - |fraction|)
  }

  /** The wei amount a decimal ether string denotes, exactly. */
  function ParseEther(s: string): Option<nat> {
    var dot := IndexOfDot(s);
    if dot < 0 then None
    else
      var whole, fraction := s[..dot], s[dot + 1..];
      if |whole| >= 1 && AllDigits(whole) && AllDigits(fraction) && 1 <= |fraction| <= DECIMALS
      then Some(EtherAmount(whole, fraction))
      else None
  }

  lemma IndexOfDotAfterDigits(whole: string, rest: string)
    requires AllDigits(whole)
    ensures IndexOfDot(whole + "." + rest) == |whole|
  {
    var s := whole + "." + rest;
    assert s[|whole|] == '.';
    assert forall i :: 0 <= i < |whole| ==> s[i] == whole[i];
  }

  /** The printed fraction of a remainder below 10^18 has one to 18 digits
      and, read as that many decimal places, denotes the remainder. */
  lemma FractionDigits(r: nat)
    requires r < WEI_PER_ETHER
    ensures var f := TrimFraction(PadZeros(ToDecimal(r), DECIMALS));
      && AllDigits(f) && 1 <= |f| <= DECIMALS
      && Value(f) * Pow10(DECIMALS - |f|) == r
  {
    WeiPerEtherIsPow10();
    ToDecimalLength(r, DECIMALS);
    var padded := PadZeros(ToDecimal(r), DECIMALS);
    PadZerosValue(ToDecimal(r), DECIMALS);
    assert |padded| == DECIMALS;
    TrimFractionValue(padded);
  }

  /** Reading "whole.fraction" back, for digit strings of admissible length. */
  lemma ParseEtherParts(whole: string, fraction: string)
    requires |whole| >= 1 && AllDigits(whole)
    requires AllDigits(fraction) && 1 <= |fraction| <= DECIMALS
    ensures ParseEther(whole + "." + fraction) == Some(EtherAmount(whole, fraction))
  {
    var s := whole + "." + fraction;
    IndexOfDotAfterDigits(whole, fraction);
    assert s[..|whole|] == whole && s[|whole| + 1..] == fraction;
  }

  /** `formatEther` loses nothing: the printed string denotes exactly the wei
      amount it was printed from, whatever its size. */
  lemma FormatEtherExact(wei: nat)
    ensures ParseEther(FormatEther(wei)) == Some(wei)
  {
    var q, r := wei / WEI_PER_ETHER, wei % WEI_PER_ETHER;
    FractionDigits(r);
    var fraction := TrimFraction(PadZeros(ToDecimal(r), DECIMALS));
    ParseEtherParts(ToDecimal(q), fraction);
    assert EtherAmount(ToDecimal(q), fraction) == q * WEI_PER_ETHER + r;
  }

  /** A digit string denoting zero is all zeros, so stripping leaves nothing. */
  lemma {:induction false} StripTrailingZerosOfZero(s: string)
    requires AllDigits(s) && Value(s) == 0
    ensures StripTrailingZeros(s) == []
    decreases |s|
  {
    if s != [] {
      StripTrailingZerosOfZero(s[..|s| - 1]);
    }
  }

  /** A whole number of ether prints with the fraction "0". */
  lemma FormatEtherWhole(wei: nat)
    requires wei % WEI_PER_ETHER == 0
    ensures FormatEther(wei) == ToDecimal(wei / WEI_PER_ETHER) + ".0"
  {
    PadZerosValue(ToDecimal(0), DECIMALS);
    StripTrailingZerosOfZero(PadZeros(ToDecimal(0), DECIMALS));
  }

  // ---------------------------------------------------------------------------
  // BigNumber.from(string) and BigNumber#toString: a string is a number when it
  // is an optional '-' followed by "0x" or "0X" and one or more hexadecimal
  // digits, or by one or more decimal digits; anything else throws.

  predicate IsHexDigit(c: char) { IsDigit(c) || 'a' <= c <= 'f' || 'A' <= c <= 'F' }

  predicate AllHexDigits(s: string) { forall i :: 0 <= i < |s| ==> IsHexDigit(s[i]) }

  function HexDigitValue(c: char): (d: nat)
    requires IsHexDigit(c)
    ensures d < 16
  {
    if IsDigit(c) then c as int - '0' as int
    else if 'a' <= c <= 'f' then c as int - 'a' as int + 10
    else c as int - 'A' as int + 10
  }

  function HexValue(s: string): nat
    requires AllHexDigits(s)
  {
    if s == [] then 0 else HexValue(s[..|s| - 1]) * 16 + HexDigitValue(s[|s| - 1])
  }

  function ParseUnsigned(s: string): Option<nat> {
    if |s| >= 3 && s[0] == '0' && (s[1] == 'x' || s[1] == 'X') && AllHexDigits(s[2..]) then Some(HexValue(s[2..]))
    else if |s| >= 1 && AllDigits(s) then Some(Value(s))
    else None
  }

  /** `BigNumber.from` of a string: `None` where it throws. */
  function ParseBigNumber(s: string): Option<int> {
    if |s| >= 1 && s[0] == '-' then
      match ParseUnsigned(s[1..])
      case Some(v) => Some(-(v as int))
      case None => None
    else
      match ParseUnsigned(s)
      case Some(v) => Some(v)
      case None => None
  }

  /** `toString()` of a big number: base 10, with a '-' when negative. */
  function IntToDecimal(v: int): (s: string)
    ensures |s| >= 1
  {
    if v < 0 then "-" + ToDecimal(-v) else ToDecimal(v)
  }

  /** Printing a number in base 10 and reading it back gives the number. */
  lemma DecimalRoundTrip(v: int)
    ensures ParseBigNumber(IntToDecimal(v)) == Some(v)
  {
    var digits := ToDecimal(if v < 0 then -v else v);
    assert IsDigit(digits[0]);
    if |digits| >= 2 {
      assert IsDigit(digits[1]);
    }
    if v < 0 {
      assert IntToDecimal(v)[1..] == digits;
    }
  }
}
