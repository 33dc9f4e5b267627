/** `std::to_string`, `std::stoi` and `std::stoul`. */
module Numbers {
  import opened Text

  const INT_MAX := 0x7FFF_FFFF
  const INT_MIN := -0x8000_0000
  const ULONG_RANGE := 0x1_0000_0000_0000_0000

  /** The value read, or the exception thrown. */
  datatype Reading = Number(value: int) | InvalidArgument | OutOfRange

  predicate IsDigit(c: char) {
    '0' <= c <= '9'
  }

  predicate AllDigits(s: string) {
    forall i :: 0 <= i < |s| ==> IsDigit(s[i])
  }

  function DigitsValue(s: string): (v: nat)
    requires AllDigits(s)
  {
    if s == "" then 0
    else DigitsValue(s[..|s| - 1]) * 10 + (s[|s| - 1] as int - '0' as int)
  }

  function DigitLength(s: string): (n: nat)
    ensures n <= |s| && AllDigits(s[..n])
    ensures n < |s| ==> !IsDigit(s[n])
  {
    if s == "" || !IsDigit(s[0]) then 0
    else
      var n := 1 + DigitLength(s[1..]);
      assert s[..n] == [s[0]] + s[1..][..n - 1];
      n
  }

  /** The longest run of digits at the front. */
  function TakeDigits(s: string): (d: string)
    ensures AllDigits(d)
  {
    s[..DigitLength(s)]
  }

  function NatToString(n: nat): (s: string)
    ensures s != "" && AllDigits(s)
    ensures DigitsValue(s) == n
  {
    if n < 10 then
      var s := [('0' as int + n) as char];
      assert s[..0] == "";
      s
    else
      var front := NatToString(n / 10);
      var s := front + [('0' as int + n % 10) as char];
      assert s[..|s| - 1] == front;
      s
  }

  function ToString(n: int): (s: string)
    ensures s != ""
  {
    if n < 0 then "-" + NatToString(-n) else NatToString(n)
  }

  predicate HasSign(s: string) {
    s != "" && (s[0] == '+' || s[0] == '-')
  }

  function Unsigned(s: string): string {
    if HasSign(s) then s[1..] else s
  }

  predicate IsNegative(s: string) {
    s != "" && s[0] == '-'
  }

  /** White space is skipped, a sign is optional, then the longest run of digits; the rest is ignored. */
  function Magnitude(s: string): (d: string)
    ensures AllDigits(d)
  {
    TakeDigits(Unsigned(SkipSpaces(s)))
  }

  function Stoi(s: string): (r: Reading)
    ensures r.Number? ==> INT_MIN <= r.value <= INT_MAX
  {
    var d := Magnitude(s);
    if d == "" then InvalidArgument
    else
      var v: int := if IsNegative(SkipSpaces(s)) then -(DigitsValue(d) as int) else DigitsValue(d);
      if INT_MIN <= v <= INT_MAX then Number(v) else OutOfRange
  }

  /** A minus sign is accepted and negates modulo 2^64, as `strtoul` does. */
  function Stoul(s: string): (r: Reading)
    ensures r.Number? ==> 0 <= r.value < ULONG_RANGE
  {
    var d := Magnitude(s);
    if d == "" then InvalidArgument
    else if DigitsValue(d) >= ULONG_RANGE then OutOfRange
    else if IsNegative(SkipSpaces(s)) then Number(if DigitsValue(d) == 0 then 0 else ULONG_RANGE - DigitsValue(d))
    else Number(DigitsValue(d))
  }

  lemma {:induction false} DigitLengthIs(d: string, t: string)
    requires AllDigits(d) && (t == "" || !IsDigit(t[0]))
    ensures DigitLength(d + t) == |d|
  {
    if d == "" {
      assert d + t == t;
    } else {
      assert (d + t)[1..] == d[1..] + t;
      DigitLengthIs(d[1..], t);
    }
  }

  lemma MagnitudeOfDigits(d: string, t: string)
    requires d != "" && AllDigits(d) && (t == "" || !IsDigit(t[0]))
    ensures SkipSpaces(d + t) == d + t && !HasSign(d + t) && Magnitude(d + t) == d
  {
    assert (d + t)[0] == d[0] && IsDigit(d[0]);
    DigitLengthIs(d, t);
  }

  /** Reading back a printed number gives the number, whatever non-digit follows. */
  lemma StoiToString(n: int)
    requires INT_MIN <= n <= INT_MAX
    ensures Stoi(ToString(n)) == Number(n)
  {
    if n < 0 {
      var d := NatToString(-n);
      var s := "-" + d;
      assert SkipSpaces(s) == s;
      assert s[1..] == d == d + "";
      DigitLengthIs(d, "");
    } else {
      var d := NatToString(n);
      assert d + "" == d;
      MagnitudeOfDigits(d, "");
    }
  }

  lemma StoulToString(n: nat)
    requires n < ULONG_RANGE
    ensures Stoul(ToString(n)) == Number(n)
  {
    var d := NatToString(n);
    assert d + "" == d;
    MagnitudeOfDigits(d, "");
  }

  lemma TakeDigitsAppendReturn(u: string)
    ensures TakeDigits(u + "\r") == TakeDigits(u)
  {
    var n := DigitLength(u);
    var d, rest := u[..n], u[n..];
    assert u + "\r" == d + (rest + "\r");
    DigitLengthIs(d, rest + "\r");
    assert (u + "\r")[..n] == d;
  }

  lemma UnsignedAppendReturn(t: string)
    requires t != ""
    ensures Unsigned(t + "\r") == Unsigned(t) + "\r"
    ensures IsNegative(t + "\r") == IsNegative(t)
  {
    assert (t + "\r")[0] == t[0];
    assert (t + "\r")[1..] == t[1..] + "\r";
  }

  lemma MagnitudeAppendReturn(s: string)
    ensures Magnitude(s + "\r") == Magnitude(s)
    ensures IsNegative(SkipSpaces(s + "\r")) == IsNegative(SkipSpaces(s))
  {
    SkipSpacesAppend(s, "\r");
    assert SkipSpaces("\r") == SkipSpaces("\r"[1..]) == "";
    if SkipSpaces(s) != "" {
      UnsignedAppendReturn(SkipSpaces(s));
      TakeDigitsAppendReturn(Unsigned(SkipSpaces(s)));
    }
  }

  /** The carriage return that ends a header line does not change the number read. */
  lemma StoulIgnoresReturn(s: string)
    ensures Stoul(s + "\r") == Stoul(s)
  {
    MagnitudeAppendReturn(s);
  }

  // ---------- what the readers accept ----------

  /** A text of white space, a sign or none, digits, and anything that does not go on with a digit. */
  ghost predicate IsNumeral(s: string, white: string, sign: string, d: string, junk: string) {
    && s == white + (sign + (d + junk))
    && (forall i :: 0 <= i < |white| ==> white[i] as int in WHITE_SPACE)
    && (sign == "" || sign == "+" || sign == "-")
    && d != "" && (forall i :: 0 <= i < |d| ==> '0' <= d[i] <= '9')
    && (junk == "" || junk[0] < '0' || junk[0] > '9')
  }

  /** The value of decimal digits, the last one being the units. */
  function Decimal(d: string): nat {
    if d == "" then 0
    else 10 * Decimal(d[..|d| - 1]) + if '0' <= d[|d| - 1] <= '9' then d[|d| - 1] as int - '0' as int else 0
  }

  lemma {:induction false} DigitsAreDecimal(d: string)
    requires AllDigits(d)
    ensures DigitsValue(d) == Decimal(d)
  {
    if d != "" {
      DigitsAreDecimal(d[..|d| - 1]);
    }
  }

  lemma NumeralParts(s: string, white: string, sign: string, d: string, junk: string)
    requires IsNumeral(s, white, sign, d, junk)
    ensures Magnitude(s) == d && (IsNegative(SkipSpaces(s)) <==> sign == "-") && AllDigits(d)
  {
    var t := sign + (d + junk);
    assert t[0] == if sign == "" then d[0] else sign[0];
    WhiteIsSkipped(white, t);
    assert sign == "" ==> t == d + junk;
    assert sign != "" ==> t[1..] == d + junk;
    DigitLengthIs(d, junk);
    assert (d + junk)[..|d|] == d;
  }

  /** What `stoi` makes of a numeral: the value in the range of a 32-bit int, an exception outside. */
  lemma StoiReads(s: string, white: string, sign: string, d: string, junk: string)
    requires IsNumeral(s, white, sign, d, junk)
    ensures sign != "-" ==> Stoi(s) == if Decimal(d) <= 2147483647 then Number(Decimal(d)) else OutOfRange
    ensures sign == "-" ==> Stoi(s) == if Decimal(d) <= 2147483648 then Number(0 - Decimal(d)) else OutOfRange
  {
    NumeralParts(s, white, sign, d, junk);
    DigitsAreDecimal(d);
  }

  /** What `stoul` makes of it: 64 bits, and a minus sign negates modulo 2^64. */
  lemma StoulReads(s: string, white: string, sign: string, d: string, junk: string)
    requires IsNumeral(s, white, sign, d, junk)
    ensures Decimal(d) > 18446744073709551615 ==> Stoul(s) == OutOfRange
    ensures Decimal(d) <= 18446744073709551615 && sign != "-" ==> Stoul(s) == Number(Decimal(d))
    ensures Decimal(d) <= 18446744073709551615 && sign == "-" ==>
              Stoul(s) == Number(if Decimal(d) == 0 then 0 else 18446744073709551616 - Decimal(d))
  {
    NumeralParts(s, white, sign, d, junk);
    DigitsAreDecimal(d);
  }

  /** Everything else is no number. */
  lemma OthersAreInvalid(s: string)
    ensures Stoi(s) == InvalidArgument <==> forall white, sign, d, junk :: !IsNumeral(s, white, sign, d, junk)
    ensures Stoul(s) == InvalidArgument <==> Stoi(s) == InvalidArgument
  {
    forall white, sign, d, junk | IsNumeral(s, white, sign, d, junk) ensures Stoi(s) != InvalidArgument {
      NumeralParts(s, white, sign, d, junk);
    }
    if Magnitude(s) != "" {
      var white, sign, d, junk := NumeralOf(s);
    }
  }

  lemma NumeralOf(s: string) returns (white: string, sign: string, d: string, junk: string)
    requires Magnitude(s) != ""
    ensures IsNumeral(s, white, sign, d, junk)
  {
    hide SkipSpaces;
    hide DigitsValue;
    var t := SkipSpaces(s);
    white := SkippedIsWhite(s);
    var u := Unsigned(t);
    sign := t[..|t| - |u|];
    d, junk := u[..DigitLength(u)], u[DigitLength(u)..];
    assert u == d + junk && t == sign + u;
    if HasSign(t) {
      assert sign == [t[0]];
    }
  }

  lemma {:induction false} SkippedIsWhite(s: string) returns (white: string)
    ensures s == white + SkipSpaces(s)
    ensures forall i :: 0 <= i < |white| ==> white[i] as int in WHITE_SPACE
    decreases |s|
  {
    if s != "" && IsSpace(s[0]) {
      var more := SkippedIsWhite(s[1..]);
      white := [s[0]] + more;
      assert s == [s[0]] + s[1..];
    } else {
      white := "";
    }
  }

  lemma {:induction false} NatToStringIsShort(n: nat)
    ensures n > 0 ==> NatToString(n)[0] != '0'
  {
    if n >= 10 {
      NatToStringIsShort(n / 10);
    }
  }

  /** Numbers are printed in decimal, without leading zeros, and with a sign if negative. */
  lemma ToStringIsDecimal(n: nat)
    ensures Decimal(ToString(n)) == n && forall i :: 0 <= i < |ToString(n)| ==> '0' <= ToString(n)[i] <= '9'
    ensures if n == 0 then ToString(n) == "0" else ToString(n)[0] != '0' && ToString(0 - n) == "-" + ToString(n)
  {
    DigitsAreDecimal(NatToString(n));
    NatToStringIsShort(n);
    assert AllDigits(ToString(n));
  }
}
