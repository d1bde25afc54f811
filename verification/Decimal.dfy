/** Decimal numerals as the server prints and reads them. */
module Decimal {
  import opened Common

  function Digit(d: nat): Octet
    requires d < 10
  {
    (d + '0' as int) as char
  }

  predicate IsDigit(c: Octet) { '0' <= c <= '9' }

  function DigitValue(c: Octet): nat
    requires IsDigit(c)
  {
    c as int - '0' as int
  }

  /** What "%d" prints for a number that is not negative. */
  function Numeral(n: nat): (s: string)
    ensures s != ""
  {
    if n < 10 then [Digit(n)] else Numeral(n / 10) + [Digit(n % 10)]
  }

  /** C's division by ten, which truncates toward zero. */
  function TruncatedTenth(n: int): int { if n >= 0 then n / 10 else -(-n / 10) }

  function Magnitude(n: int): nat { if n >= 0 then n else -n }

  /** number_of_digits: the length of the numeral, without the sign. */
  method NumberOfDigits(n: int) returns (digits: nat)
    ensures digits == |Numeral(Magnitude(n))|
  {
    digits := 0;
    if n == 0 {
      return 1;
    }
    var m := n;
    while m != 0
      invariant digits + (if m == 0 then 0 else |Numeral(Magnitude(m))|) == |Numeral(Magnitude(n))|
      decreases Magnitude(m)
    {
      m := TruncatedTenth(m);
      digits := digits + 1;
    }
  }

  // ----- Reading numbers back -----

  predicate AllDigits(s: string) { forall c :: c in s ==> IsDigit(c) }

  function Value(s: string): nat
    requires AllDigits(s)
  {
    if s == "" then 0 else Value(s[..|s| - 1]) * 10 + DigitValue(s[|s| - 1])
  }

  lemma {:induction false} NumeralReads(n: nat)
    ensures AllDigits(Numeral(n)) && Value(Numeral(n)) == n
  {
    if n < 10 {
      assert Numeral(n)[..0] == "";
    } else {
      NumeralReads(n / 10);
      var s := Numeral(n);
      assert s[..|s| - 1] == Numeral(n / 10);
    }
  }

  function LeadingDigits(s: string): (k: nat)
    ensures k <= |s| && AllDigits(s[..k])
  {
    if s != "" && IsDigit(s[0]) then
      var k := LeadingDigits(s[1..]);
      assert s[..k + 1] == [s[0]] + s[1..][..k];
      k + 1
    else 0
  }

  lemma {:induction false} LeadingDigitsStop(s: string, rest: string)
    requires AllDigits(s) && (rest == "" || !IsDigit(rest[0]))
    ensures LeadingDigits(s + rest) == |s|
    decreases |s|
  {
    if s != "" {
      assert s[0] in s;
      LeadingDigitsStop(s[1..], rest);
      assert (s + rest)[1..] == s[1..] + rest;
    } else {
      assert s + rest == rest;
    }
  }

  /** A client reading a number: its value and what follows it. */
  function ReadNumber(s: string): Option<(nat, string)> {
    var k := LeadingDigits(s);
    if k == 0 then None else Some((Value(s[..k]), s[k..]))
  }

  lemma NumeralRoundTrip(n: nat, rest: string)
    requires rest == "" || !IsDigit(rest[0])
    ensures ReadNumber(Numeral(n) + rest) == Some((n, rest))
  {
    NumeralReads(n);
    LeadingDigitsStop(Numeral(n), rest);
    assert (Numeral(n) + rest)[..|Numeral(n)|] == Numeral(n);
    assert (Numeral(n) + rest)[|Numeral(n)|..] == rest;
  }

  // ----- atoi -----

  predicate IsSpace(c: Octet) { c == ' ' || '\t' <= c <= '\r' }

  function SkipSpace(s: string): string {
    if s != "" && IsSpace(s[0]) then SkipSpace(s[1..]) else s
  }

  const INT32: int := 0x1_0000_0000
  const LONG_MAX: int := 0x7FFF_FFFF_FFFF_FFFF

  /** The 32-bit value a 64-bit one is cut to. */
  function ToInt32(n: int): (r: int)
    ensures -0x8000_0000 <= r < 0x8000_0000
    ensures -0x8000_0000 <= n < 0x8000_0000 ==> r == n
  {
    var m := n % INT32;
    if m < 0x8000_0000 then m else m - INT32
  }

  /** strtol saturates. */
  function Saturated(negative: bool, v: int): int {
    if negative then if v > LONG_MAX then -LONG_MAX - 1 else -v
    else if v > LONG_MAX then LONG_MAX else v
  }

  /** atoi as the C library of the platform defines it: strtol, which saturates, cut to 32 bits. */
  function Atoi(s: string): int {
    var t := SkipSpace(s);
    var negative := t != "" && t[0] == '-';
    var u := if t != "" && (t[0] == '-' || t[0] == '+') then t[1..] else t;
    ToInt32(Saturated(negative, Value(u[..LeadingDigits(u)])))
  }

  lemma AtoiOfNumeral(n: nat)
    ensures Atoi(Numeral(n)) == ToInt32(Saturated(false, n))
  {
    var s := Numeral(n);
    NumeralReads(n);
    assert s[0] in s;
    LeadingDigitsStop(s, "");
    assert s + "" == s && s[..|s|] == s;
  }

  lemma CutTo32Bits(n: nat)
    ensures ToInt32(Saturated(false, n)) == n <==> n < 0x8000_0000
    ensures n == 4294967297 ==> ToInt32(Saturated(false, n)) == 1
  {
  }

  /** A message number sent as a plain numeral arrives as that number exactly when it fits in 31
      bits; 4294967297, say, arrives as 1. */
  lemma AtoiExactUpTo31Bits(n: nat)
    ensures Atoi(Numeral(n)) == n <==> n < 0x8000_0000
    ensures n == 4294967297 ==> Atoi(Numeral(n)) == 1
  {
    AtoiOfNumeral(n);
    CutTo32Bits(n);
  }

  /** The blanks of C's default locale. */
  const BLANKS := " \t\n\U{0b}\U{0c}\r"

  ghost predicate AllBlank(s: string) { forall i :: 0 <= i < |s| ==> s[i] in BLANKS }

  lemma {:induction false} BlanksAreSkipped(blanks: string, t: string)
    requires AllBlank(blanks)
    requires t == "" || t[0] !in BLANKS
    ensures SkipSpace(blanks + t) == t
    decreases |blanks|
  {
    if blanks == "" {
      assert blanks + t == t;
    } else {
      assert (blanks + t)[0] == blanks[0];
      assert (blanks + t)[1..] == blanks[1..] + t;
      BlanksAreSkipped(blanks[1..], t);
    }
  }

  /** What stands for a number when a client sends it: blanks, a sign or none, digits, and whatever follows. */
  lemma AtoiReads(blanks: string, sign: string, n: nat, rest: string)
    requires AllBlank(blanks)
    requires sign in {"", "+", "-"} && n < 0x8000_0000 && (rest == "" || !IsDigit(rest[0]))
    ensures Atoi(blanks + (sign + (Numeral(n) + rest))) == if sign == "-" then -(n as int) else n
  {
    var u := Numeral(n) + rest;
    var t := sign + u;
    NumeralReads(n);
    assert u[0] in Numeral(n);
    assert sign != "" ==> t[0] == sign[0] && t[1..] == u;
    assert sign == "" ==> t == u;
    BlanksAreSkipped(blanks, t);
    NumeralRoundTrip(n, rest);
  }

  /** Without a digit in that place, the number is 0. */
  lemma AtoiOfNoNumber(blanks: string, rest: string)
    requires AllBlank(blanks)
    requires rest == "" || !(IsDigit(rest[0]) || IsSpace(rest[0]))
    requires |rest| > 1 && rest[0] in {'+', '-'} ==> !IsDigit(rest[1])
    ensures Atoi(blanks + rest) == 0
  {
    BlanksAreSkipped(blanks, rest);
  }

  lemma DigitsAreLower(s: string)
    requires forall c :: c in s ==> '0' <= c <= '9'
    ensures Lower(s) == s && SP !in s && CR !in s && NUL !in s
  {
    forall i | 0 <= i < |s| ensures Lower(s)[i] == s[i] { assert s[i] in s; }
  }
}
