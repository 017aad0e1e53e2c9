/** fpga-auth.c: ltoa. */
module Decimal {

  const LONG_MAX: int := 0x7fff_ffff_ffff_ffff
  const LONG_MIN: int := -0x8000_0000_0000_0000

  /** A 64-bit signed integer. */
  predicate IsLong(n: int) {
    LONG_MIN <= n <= LONG_MAX
  }

  /** Negation as the machine does it: the least value has no counterpart and stays as it is. */
  function Negate(n: int): int {
    if n == LONG_MIN then LONG_MIN else -n
  }

  /** The C operators / and % by ten, which truncate towards zero. */
  function Quotient(n: int): int {
    if n >= 0 then n / 10 else -(-n / 10)
  }

  function Remainder(n: int): (r: int)
    ensures -10 < r < 10
  {
    n - 10 * Quotient(n)
  }

  function DigitChar(r: int): char
    requires -10 < r < 10
  {
    (r + 48) as char
  }

  /** The characters of the digit loop, least significant first. */
  function LowDigits(n: int): string
    decreases if n < 0 then -n else n
  {
    if n == 0 then "" else [DigitChar(Remainder(n))] + LowDigits(Quotient(n))
  }

  function Reversed(s: string): (r: string)
    ensures |r| == |s|
  {
    seq(|s|, i requires 0 <= i < |s| => s[|s| - 1 - i])
  }

  /** The characters before the final reversal: digits, then the sign. */
  function Unreversed(n: int): string
    requires IsLong(n)
  {
    LowDigits(if n < 0 then Negate(n) else n) + (if n < 0 then "-" else "")
  }

  function Text(n: int): string
    requires IsLong(n)
  {
    if n == 0 then "0" else Reversed(Unreversed(n))
  }

  // ----- decimal notation -----

  predicate IsDigit(c: char) {
    '0' <= c <= '9'
  }

  /** Digits with no leading zero. */
  predicate IsNumeral(s: string) {
    |s| > 0 && (forall i :: 0 <= i < |s| ==> IsDigit(s[i])) && (s[0] == '0' ==> |s| == 1)
  }

  /** A numeral, or a minus sign and a numeral other than zero. */
  predicate IsDecimal(s: string) {
    IsNumeral(s) || (|s| > 1 && s[0] == '-' && IsNumeral(s[1..]) && s[1] != '0')
  }

  function ParseDigits(s: string): int {
    if s == "" then 0 else 10 * ParseDigits(s[..|s| - 1]) + (s[|s| - 1] as int - 48)
  }

  function Parse(s: string): int {
    if s != "" && s[0] == '-' then -ParseDigits(s[1..]) else ParseDigits(s)
  }

  // ----- the text of a number -----

  lemma ReversedCons(c: char, s: string)
    ensures Reversed([c] + s) == Reversed(s) + [c]
  {
  }

  lemma ReversedAppend(s: string, c: char)
    ensures Reversed(s + [c]) == [c] + Reversed(s)
  {
  }

  lemma {:induction false} DigitsOfPositive(n: int)
    requires n > 0
    ensures IsNumeral(Reversed(LowDigits(n))) && Reversed(LowDigits(n))[0] != '0'
    ensures ParseDigits(Reversed(LowDigits(n))) == n
  {
    var c, q := DigitChar(Remainder(n)), Quotient(n);
    ReversedCons(c, LowDigits(q));
    var r := Reversed(LowDigits(q)) + [c];
    if q > 0 {
      DigitsOfPositive(q);
    } else {
      assert LowDigits(q) == "";
    }
    assert r[..|r| - 1] == Reversed(LowDigits(q));
  }

  function Pow10(k: nat): int {
    if k == 0 then 1 else 10 * Pow10(k - 1)
  }

  lemma {:induction false} LowDigitsLength(n: int, k: nat)
    requires -Pow10(k) < n < Pow10(k)
    ensures |LowDigits(n)| <= k
    decreases k
  {
    if n != 0 {
      LowDigitsLength(Quotient(n), k - 1);
    }
  }

  lemma Pow10Of19()
    ensures Pow10(19) == 10000000000000000000
  {
    assert Pow10(5) == 100000;
    assert Pow10(10) == 10000000000;
    assert Pow10(15) == 1000000000000000;
  }

  /** Every text leaves room for the terminator in 21 bytes. */
  lemma TextFits(n: int)
    requires IsLong(n)
    ensures |Text(n)| + 1 <= 21
    ensures |Unreversed(n)| + 1 <= 21
  {
    Pow10Of19();
    LowDigitsLength(if n < 0 then Negate(n) else n, 19);
  }

  lemma LowDigitsStep(n: int)
    requires n != 0
    ensures LowDigits(n) == [DigitChar(Remainder(n))] + LowDigits(Quotient(n))
  {
  }

  lemma LastIsNoDigit(s: string)
    requires |s| > 0 && !IsDigit(s[|s| - 1])
    ensures !IsDecimal(s)
  {
    if |s| > 1 {
      assert s[1..][|s| - 2] == s[|s| - 1];
    }
  }

  lemma TextOfLeast()
    ensures !IsDecimal(Text(LONG_MIN))
  {
    hide IsDecimal;
    assert Remainder(LONG_MIN) == -8;
    var s := Unreversed(LONG_MIN);
    LowDigitsStep(LONG_MIN);
    assert s[0] == DigitChar(-8);
    var t := Text(LONG_MIN);
    assert t[|t| - 1] == s[0];
    LastIsNoDigit(t);
  }

  lemma TextOfPositive(n: int)
    requires IsLong(n) && n > 0
    ensures IsDecimal(Text(n)) && Parse(Text(n)) == n
  {
    hide LowDigits, Reversed;
    DigitsOfPositive(n);
    assert Unreversed(n) == LowDigits(n);
  }

  lemma TextOfNegative(n: int)
    requires IsLong(n) && LONG_MIN < n < 0
    ensures IsDecimal(Text(n)) && Parse(Text(n)) == n
  {
    hide LowDigits, Reversed, ParseDigits;
    DigitsOfPositive(-n);
    ReversedAppend(LowDigits(-n), '-');
    var t := Text(n);
    assert t[1..] == Reversed(LowDigits(-n));
  }

  /** The text of every number but the least is its decimal notation, and parses back to it;
      that of the least is no decimal notation at all. */
  lemma TextIsDecimalIff(n: int)
    requires IsLong(n)
    ensures IsDecimal(Text(n)) && Parse(Text(n)) == n <==> n != LONG_MIN
  {
    hide LowDigits, Reversed, Unreversed;
    if n == LONG_MIN {
      TextOfLeast();
    } else if n > 0 {
      TextOfPositive(n);
    } else if n < 0 {
      TextOfNegative(n);
    } else {
      assert "0"[..0] == "";
    }
  }

  // ----- the routine -----

  /** The last loop: the first n characters swapped end for end. */
  method ReverseInPlace(str: array<char>, n: nat)
    requires n <= str.Length
    modifies str
    ensures str[..] == Reversed(old(str[..n])) + old(str[n..])
  {
    var start, end := 0, n - 1;
    while start < end
      invariant 0 <= start <= n && end == n - 1 - start && start <= end + 2
      invariant forall k :: 0 <= k < str.Length ==>
        str[k] == if k < n && (k < start || k > end) then old(str[n - 1 - k]) else old(str[k])
    {
      var temp := str[start];
      str[start] := str[end];
      str[end] := temp;
      start := start + 1;
      end := end - 1;
    }
  }

  lemma NoDigits()
    ensures LowDigits(0) == ""
  {
  }

  /** The digit loop of ltoa. */
  method WriteDigits(number: int, str: array<char>) returns (i: nat)
    requires |LowDigits(number)| <= str.Length
    modifies str
    ensures i == |LowDigits(number)|
    ensures str[..i] == LowDigits(number) && str[i..] == old(str[i..])
  {
    hide LowDigits, DigitChar, Remainder, Quotient;
    ghost var all := LowDigits(number);
    var num := number;
    i := 0;
    assert all == str[..0] + LowDigits(num);
    while num != 0
      invariant i <= |all| && all == str[..i] + LowDigits(num)
      invariant str[i..] == old(str[i..])
      decreases |all| - i
    {
      LowDigitsStep(num);
      ghost var before := str[..i];
      str[i] := DigitChar(Remainder(num));
      i := i + 1;
      assert str[..i] == before + [DigitChar(Remainder(num))];
      num := Quotient(num);
    }
    NoDigits();
  }

  /** The terminator, and the reversal of what precedes it. */
  method Terminate(str: array<char>, i: nat)
    requires i < str.Length
    modifies str
    ensures str[..] == Reversed(old(str[..i])) + ['\0'] + old(str[i + 1..])
  {
    hide Reversed;
    str[i] := '\0';
    assert str[i..] == ['\0'] + str[i + 1..];
    ReverseInPlace(str, i);
  }

  /** ltoa: the text and its terminator; the rest of the buffer is left alone. */
  method Ltoa(number: int, str: array<char>)
    requires IsLong(number) && str.Length > |Text(number)|
    modifies str
    ensures |Text(number)| + 1 <= 21
    ensures str[..] == Text(number) + ['\0'] + old(str[|Text(number)| + 1..])
  {
    hide Reversed, LowDigits;
    TextFits(number);
    var num := number;
    var isNegative := false;
    if num < 0 {
      isNegative := true;
      num := Negate(num);
    }
    if num == 0 {
      str[0] := '0';
      str[1] := '\0';
      return;
    }
    var i := WriteDigits(num, str);
    ghost var digits := LowDigits(num);
    if isNegative {
      str[i] := '-';
      i := i + 1;
      assert str[..i] == digits + "-";
    } else {
      assert str[..i] == digits + "";
    }
    assert str[..i] == Unreversed(number);
    assert str[i + 1..] == old(str[i + 1..]);
    Terminate(str, i);
  }
}
