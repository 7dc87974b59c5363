/** Integers as text: `%d`, Java's Integer.valueOf, and atoi. */
module Decimal {
  import opened CText

  const INT_LIMIT: int := 0x8000_0000

  predicate IsInt32(n: int) {
    -INT_LIMIT <= n < INT_LIMIT
  }

  /** `%d` prints an unsigned argument as the signed integer with the same bits. */
  function ToSigned(u: int): (n: int)
    requires 0 <= u < 2 * INT_LIMIT
    ensures IsInt32(n) && (n == u || n == u - 2 * INT_LIMIT)
  {
    if u < INT_LIMIT then u else u - 2 * INT_LIMIT
  }

  function Digit(d: nat): (c: char)
    requires d < 10
    ensures IsDigit(c) && DigitValue(c) == d
  {
    '0' + d as char
  }

  function DigitValue(c: char): nat
    requires IsDigit(c)
  {
    c as int - '0' as int
  }

  function FormatNat(n: nat): (s: string)
    ensures s != "" && forall i :: 0 <= i < |s| ==> IsDigit(s[i])
  {
    if n < 10 then [Digit(n)] else FormatNat(n / 10) + [Digit(n % 10)]
  }

  function Magnitude(n: int): nat {
    if n < 0 then -n else n
  }

  function FormatInt(n: int): string {
    if n < 0 then "-" + FormatNat(-n) else FormatNat(n)
  }

  function NatValue(s: string): nat
    requires forall i :: 0 <= i < |s| ==> IsDigit(s[i])
  {
    if s == "" then 0 else NatValue(s[..|s| - 1]) * 10 + DigitValue(s[|s| - 1])
  }

  /** Integer.valueOf and Byte.valueOf: None is their NumberFormatException. */
  function ParseInt(s: string, limit: int): Option<int> {
    var negative := s != "" && s[0] == '-';
    var digits := if negative then s[1..] else s;
    if !AllDigits(digits) then None
    else
      var n: int := if negative then -(NatValue(digits) as int) else NatValue(digits);
      if -limit <= n < limit then Some(n) else None
  }

  function LeadingDigits(s: string): (n: nat)
    ensures n <= |s| && (forall i :: 0 <= i < n ==> IsDigit(s[i])) && (n < |s| ==> !IsDigit(s[n]))
  {
    if s == "" || !IsDigit(s[0]) then 0 else 1 + LeadingDigits(s[1..])
  }

  /** atoi, on texts whose value fits an int. */
  function Atoi(s: string): int
    decreases |s|
  {
    if s != "" && IsSpace(s[0]) then Atoi(s[1..])
    else
      var signed := s != "" && (s[0] == '-' || s[0] == '+');
      var t := if signed then s[1..] else s;
      var n: int := NatValue(t[..LeadingDigits(t)]);
      if s != "" && s[0] == '-' then -n else n
  }

  lemma {:induction false} FormatInverts(n: nat)
    ensures NatValue(FormatNat(n)) == n
  {
    if n >= 10 {
      FormatInverts(n / 10);
      var s := FormatNat(n);
      assert s[..|s| - 1] == FormatNat(n / 10);
    } else {
      assert FormatNat(n)[..0] == "";
    }
  }

  lemma ParseInverts(n: int, limit: int)
    ensures ParseInt(FormatInt(n), limit) == if -limit <= n < limit then Some(n) else None
  {
    FormatInverts(Magnitude(n));
    if n < 0 { assert FormatInt(n)[1..] == FormatNat(-n); }
    else { assert IsDigit(FormatInt(n)[0]); }
  }

  lemma AtoiInverts(n: int)
    ensures Atoi(FormatInt(n)) == n
  {
    var s := FormatInt(n);
    var digits := FormatNat(Magnitude(n));
    FormatInverts(Magnitude(n));
    assert !IsSpace(s[0]) by { assert s[0] == '-' || IsDigit(s[0]); }
    if n < 0 { assert s[1..] == digits; }
    assert LeadingDigits(digits) == |digits| && digits[..|digits|] == digits;
  }

  /** atoi skips blanks, takes one sign and the digits, and stops behind them. */
  lemma {:induction false} AtoiMeaning(blanks: string, sign: string, digits: string, rest: string)
    requires Blank(blanks) && (sign == "" || sign == "+" || sign == "-")
    requires AllDigits(digits) && (rest == "" || !IsDigit(rest[0]))
    ensures var n: int := NatValue(digits);
            Atoi(blanks + (sign + (digits + rest))) == if sign == "-" then -n else n
    decreases |blanks|
  {
    hide NatValue, LeadingDigits;
    var s := blanks + (sign + (digits + rest));
    if blanks != "" {
      assert s[0] == blanks[0] && s[1..] == blanks[1..] + (sign + (digits + rest));
      AtoiMeaning(blanks[1..], sign, digits, rest);
    } else {
      assert s == sign + (digits + rest);
      AtoiSigned(sign, digits, rest);
    }
  }

  lemma AtoiSigned(sign: string, digits: string, rest: string)
    requires sign == "" || sign == "+" || sign == "-"
    requires AllDigits(digits) && (rest == "" || !IsDigit(rest[0]))
    ensures var n: int := NatValue(digits); Atoi(sign + (digits + rest)) == if sign == "-" then -n else n
  {
    hide NatValue, LeadingDigits;
    var t := digits + rest;
    var s := sign + t;
    assert t[0] == digits[0];
    DigitsLead(digits, rest);
    assert t[..|digits|] == digits;
    if sign == "" { assert s == t; } else { assert s[0] == sign[0] && s[1..] == t; }
  }

  lemma {:induction false} DigitsLead(digits: string, rest: string)
    requires (forall i :: 0 <= i < |digits| ==> IsDigit(digits[i])) && (rest == "" || !IsDigit(rest[0]))
    ensures LeadingDigits(digits + rest) == |digits|
  {
    if digits != "" {
      assert (digits + rest)[1..] == digits[1..] + rest;
      DigitsLead(digits[1..], rest);
    } else {
      assert digits + rest == rest;
    }
  }

  /** No printed integer is longer than a sign and ten digits, so the 16-byte buffer always holds it. */
  lemma FormatIntFits(n: int)
    requires IsInt32(n)
    ensures |FormatInt(n)| <= 11
  {
    assert PowerOfTen(3) == 1000;
    assert PowerOfTen(6) == 1000 * PowerOfTen(3);
    assert PowerOfTen(9) == 1000 * PowerOfTen(6);
    NatFits(Magnitude(n), 10);
  }

  lemma {:induction false} NatFits(m: nat, k: nat)
    requires k >= 1 && m < PowerOfTen(k)
    ensures |FormatNat(m)| <= k
  {
    if m >= 10 {
      assert PowerOfTen(1) == 10;
      NatFits(m / 10, k - 1);
    }
  }

  function PowerOfTen(k: nat): nat {
    if k == 0 then 1 else 10 * PowerOfTen(k - 1)
  }
}
