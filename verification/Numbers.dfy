/** The C conversions between integers and decimal text that the HTTP code relies on. */
module Numbers {
  import opened Wrappers

  predicate IsDigit(c: char) { '0' <= c <= '9' }

  predicate IsSpace(c: char) { c == ' ' || '\t' <= c <= '\r' }

  predicate AllDigits(s: string) {
    forall i :: 0 <= i < |s| ==> IsDigit(s[i])
  }

  function DigitValue(c: char): (v: nat)
    requires IsDigit(c)
    ensures v < 10
  {
    c as int - 48
  }

  function DigitChar(v: nat): (c: char)
    requires v < 10
    ensures IsDigit(c) && DigitValue(c) == v
  {
    (v + 48) as char
  }

  /** The number a string of digits denotes. */
  function Value(s: string): nat
    requires AllDigits(s)
  {
    if s == [] then 0 else 10 * Value(s[..|s| - 1]) + DigitValue(s[|s| - 1])
  }

  /** `%zu` and `%u`. */
  function Decimal(n: nat): (s: string)
    ensures |s| > 0 && AllDigits(s)
  {
    if n < 10 then [DigitChar(n)] else Decimal(n / 10) + [DigitChar(n % 10)]
  }

  /** `snprintf` into a buffer that holds `width` characters and a NUL. */
  function Printed(n: nat, width: nat): (s: string)
    ensures |s| <= width && AllDigits(s)
  {
    var d := Decimal(n);
    if |d| <= width then d else d[..width]
  }

  function SkipSpace(s: string): string {
    if s != [] && IsSpace(s[0]) then SkipSpace(s[1..]) else s
  }

  function Digits(s: string): (r: string)
    ensures AllDigits(r) && r <= s
  {
    if s != [] && IsDigit(s[0]) then [s[0]] + Digits(s[1..]) else []
  }

  datatype Signed = Signed(negative: bool, digits: string)

  /** What `strtol` and its relatives read: spaces, an optional sign, digits; the rest is ignored. */
  function ReadNumber(s: string): (r: Signed)
    ensures AllDigits(r.digits)
  {
    var t := SkipSpace(s);
    if t != [] && t[0] == '-' then Signed(true, Digits(t[1..]))
    else if t != [] && t[0] == '+' then Signed(false, Digits(t[1..]))
    else Signed(false, Digits(t))
  }

  const ULONG_MAX: nat := 0xffff_ffff_ffff_ffff

  /** `strtoul(s, nullptr, 10)`. */
  function StrToUl(s: string): nat {
    var r := ReadNumber(s);
    var v := Value(r.digits);
    if v > ULONG_MAX then ULONG_MAX
    else if r.negative && v > 0 then ULONG_MAX + 1 - v
    else v
  }

  /** `std::stoi`; None when it throws. */
  function Stoi(s: string): Option<int> {
    var r := ReadNumber(s);
    var v: int := if r.negative then 0 - Value(r.digits) else Value(r.digits);
    if r.digits == [] || v < -0x8000_0000 || v > 0x7fff_ffff then None else Some(v)
  }

  lemma {:induction false} ValueOfDecimal(n: nat)
    ensures Value(Decimal(n)) == n
  {
    if n >= 10 {
      ValueOfDecimal(n / 10);
      assert Decimal(n)[..|Decimal(n)| - 1] == Decimal(n / 10);
    } else {
      assert Decimal(n)[..0] == [];
    }
  }

  function Pow10(k: nat): nat { if k == 0 then 1 else 10 * Pow10(k - 1) }

  lemma {:induction false} DecimalWidth(n: nat, k: nat)
    requires k > 0
    ensures |Decimal(n)| <= k <==> n < Pow10(k)
  {
    if n < 10 {
      PowPositive(k - 1);
    } else if k == 1 {
      assert Pow10(1) == 10 * Pow10(0) == 10;
    } else {
      DecimalWidth(n / 10, k - 1);
    }
  }

  lemma {:induction false} PowPositive(k: nat)
    ensures Pow10(k) > 0
  {
    if k > 0 { PowPositive(k - 1); }
  }

  /** A truncated number is positive but too small. */
  lemma {:induction false} TruncatedIsSmaller(n: nat, m: nat)
    requires 0 < m < |Decimal(n)|
    ensures 0 < Value(Decimal(n)[..m]) < n
  {
    var d := Decimal(n / 10);
    assert n >= 10 && Decimal(n)[..m] == d[..m];
    if m < |d| {
      TruncatedIsSmaller(n / 10, m);
    } else {
      assert d[..m] == d;
      ValueOfDecimal(n / 10);
    }
  }

  lemma {:induction false} DigitsOfDigits(s: string)
    requires AllDigits(s)
    ensures Digits(s) == s
  {
    if s != [] { DigitsOfDigits(s[1..]); }
  }

  lemma ReadDigits(s: string)
    requires AllDigits(s)
    ensures ReadNumber(s) == Signed(false, s)
  {
    DigitsOfDigits(s);
  }

  lemma {:induction false} ValueBound(s: string)
    requires AllDigits(s)
    ensures Value(s) < Pow10(|s|)
  {
    if s != [] { ValueBound(s[..|s| - 1]); }
  }

  /** The characters that are skipped: space, tab, line feed, vertical tab, form feed, carriage return. */
  lemma SpaceChars(c: char)
    ensures IsSpace(c) <==> c as int in {32, 9, 10, 11, 12, 13}
    ensures IsDigit(c) <==> 48 <= c as int <= 57
  {
  }

  /** Text that is not a number: `strtoul` reads 0 and `stoi` throws. */
  lemma NotANumber(s: string)
    requires s == [] || (!IsSpace(s[0]) && !IsDigit(s[0]) && s[0] != '+' && s[0] != '-')
    ensures StrToUl(s) == 0 && Stoi(s) == None
  {
  }

  /** What the conversions read of a number in text: spaces before it are skipped, what follows it is ignored. */
  lemma NumberRead(spaces: string, sign: string, digits: string, rest: string)
    requires forall i :: 0 <= i < |spaces| ==> IsSpace(spaces[i])
    requires sign == "" || sign == "+" || sign == "-"
    requires digits != [] && AllDigits(digits) && (rest == [] || !IsDigit(rest[0]))
    ensures var s, v := spaces + sign + digits + rest, Value(digits);
            && StrToUl(s) == (if v > 0xffff_ffff_ffff_ffff then 0xffff_ffff_ffff_ffff
                              else if sign == "-" && v > 0 then 0x1_0000_0000_0000_0000 - v else v)
            && Stoi(s) == (var w := if sign == "-" then 0 - v else v;
                           if -0x8000_0000 <= w <= 0x7fff_ffff then Some(w) else None)
  {
    hide Value, ReadNumber;
    SignedRead(spaces, sign, digits, rest);
  }

  lemma SignedRead(spaces: string, sign: string, digits: string, rest: string)
    requires forall i :: 0 <= i < |spaces| ==> IsSpace(spaces[i])
    requires sign == "" || sign == "+" || sign == "-"
    requires digits != [] && AllDigits(digits) && (rest == [] || !IsDigit(rest[0]))
    ensures ReadNumber(spaces + sign + digits + rest) == Signed(sign == "-", digits)
  {
    hide SkipSpace, Digits;
    var number := sign + digits + rest;
    assert spaces + sign + digits + rest == spaces + number;
    var tail := digits + rest;
    assert tail[0] == digits[0];
    DigitsThen(digits, rest);
    if sign == "" {
      assert number == tail;
    } else {
      assert number[0] == sign[0] && number[1..] == tail;
    }
    SpacesSkipped(spaces, number);
  }

  lemma {:induction false} SpacesSkipped(spaces: string, s: string)
    requires (forall i :: 0 <= i < |spaces| ==> IsSpace(spaces[i])) && (s == [] || !IsSpace(s[0]))
    ensures SkipSpace(spaces + s) == s
  {
    if spaces == [] {
      assert spaces + s == s;
    } else {
      assert (spaces + s)[1..] == spaces[1..] + s;
      SpacesSkipped(spaces[1..], s);
    }
  }

  lemma {:induction false} DigitsThen(digits: string, rest: string)
    requires AllDigits(digits) && (rest == [] || !IsDigit(rest[0]))
    ensures Digits(digits + rest) == digits
  {
    if digits == [] {
      assert digits + rest == rest;
    } else {
      assert (digits + rest)[1..] == digits[1..] + rest;
      DigitsThen(digits[1..], rest);
    }
  }

  /** A number by its decimal digits: each is worth ten times the next. */
  lemma ValueSteps(s: string, c: char)
    requires AllDigits(s) && '0' <= c <= '9'
    ensures AllDigits(s + [c]) && Value(s + [c]) == 10 * Value(s) + (c as int - '0' as int) && Value([]) == 0
  {
    assert (s + [c])[..|s|] == s;
  }

  /** Eight characters keep every size below 10^8, and read as a smaller non-zero size above. */
  lemma PrintedLength(n: nat)
    ensures n < 100_000_000 ==> StrToUl(Printed(n, 8)) == n
    ensures n >= 100_000_000 ==> 0 < StrToUl(Printed(n, 8)) < n
  {
    assert Pow10(8) == 100_000_000 by {
      assert Pow10(4) == 10000 by { assert Pow10(2) == 100; }
      assert Pow10(6) == 1000000;
    }
    DecimalWidth(n, 8);
    var s := Printed(n, 8);
    ReadDigits(s);
    ValueBound(s);
    PowMonotone(|s|, 8);
    if n < 100_000_000 {
      ValueOfDecimal(n);
    } else {
      TruncatedIsSmaller(n, 8);
    }
  }

  lemma {:induction false} PowMonotone(j: nat, k: nat)
    requires j <= k
    ensures Pow10(j) <= Pow10(k)
  {
    if j < k {
      PowMonotone(j, k - 1);
      PowPositive(k - 1);
    }
  }

  /** Three characters keep every status code below 1000. */
  lemma PrintedCode(n: nat)
    requires n < 1000
    ensures Printed(n, 3) == Decimal(n) && Stoi(Printed(n, 3)) == Some(n)
  {
    assert Pow10(3) == 1000 by { assert Pow10(1) == 10; }
    DecimalWidth(n, 3);
    ReadDigits(Decimal(n));
    ValueOfDecimal(n);
  }
}
