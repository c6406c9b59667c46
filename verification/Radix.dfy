/** Positional notation in a base from 2 to 36: what the printing and parsing loops of `bignum.c` are
    measured against. */
module Radix {
  import opened Arith
  import opened BigMul

  /** ruby_digitmap */
  function RadixChar(d: int): char
    requires 0 <= d < 36
  {
    "0123456789abcdefghijklmnopqrstuvwxyz"[d]
  }

  /** conv_digit: the value of an ASCII letter or digit, or -1 */
  function ConvDigit(c: char): int {
    if '0' <= c <= '9' then c as int - '0' as int
    else if 'a' <= c <= 'z' then c as int - 'a' as int + 10
    else if 'A' <= c <= 'Z' then c as int - 'A' as int + 10
    else -1
  }

  lemma ConvRadixChar(d: int)
    requires 0 <= d < 36
    ensures ConvDigit(RadixChar(d)) == d && (RadixChar(d) == '0' <==> d == 0) && RadixChar(d) != '_'
            && RadixChar(d) != '\0'
  {
    assert RadixChar(d) == if d < 10 then ('0' as int + d) as char else ('a' as int + d - 10) as char;
  }

  /** The len lowest digits of n, most significant first. */
  function ToBase(n: nat, base: int, len: nat): (s: string)
    requires 2 <= base <= 36
    ensures |s| == len
  {
    if len == 0 then [] else ToBase(n / base, base, len - 1) + [RadixChar(n % base)]
  }

  /** The digits of n without leading zeros; none at all for zero. */
  function Minimal(n: nat, base: int): string
    requires 2 <= base <= 36
  {
    if n == 0 then [] else Minimal(n / base, base) + [RadixChar(n % base)]
  }

  lemma {:induction false} IntPowPos(b: int, n: nat)
    requires b >= 1
    ensures IntPow(b, n) >= 1
  {
    if n > 0 {
      IntPowPos(b, n - 1);
      MulMono(1, IntPow(b, n - 1), b);
    }
  }

  /** The last digit of n = q*base + d is d, in both notations. */
  lemma LastDigit(n: nat, q: nat, d: nat, base: int, len: nat)
    requires 2 <= base <= 36 && d < base && n == q * base + d
    ensures ToBase(n, base, len + 1) == ToBase(q, base, len) + [RadixChar(d)]
    ensures n > 0 ==> Minimal(n, base) == Minimal(q, base) + [RadixChar(d)]
  {
    DivModUnique(n, base, q, d);
  }

  lemma SplitDigit(n: nat, base: int) returns (q: nat, d: nat)
    requires base >= 2
    ensures n == q * base + d && d < base && (n > 0 ==> q < n)
  {
    q, d := n / base, n % base;
    DivAtLeast(n, base, 0);
    if q > 0 {
      MulMono(2, base, q);
    }
  }

  /** Peels the last digit off n = q * base^b + r. */
  lemma PeelDigit(n: nat, q: nat, r: nat, base: int, b: nat) returns (n1: nat, r1: nat, d: nat)
    requires 2 <= base && b > 0 && r < IntPow(base, b) && n == q * IntPow(base, b) + r
    ensures d < base && r == r1 * base + d && n == n1 * base + d
    ensures n1 == q * IntPow(base, b - 1) + r1 && r1 < IntPow(base, b - 1)
  {
    var P := IntPow(base, b - 1);
    IntPowPos(base, b - 1);
    r1, d := SplitDigit(r, base);
    MulMono(0, q, P);
    n1 := q * P + r1;
    assert q * (base * P) == (q * P) * base;
    MulCancel(r1, P - 1, base);
  }

  lemma NoDigits(n: nat, q: nat, r: nat, base: int)
    requires 2 <= base <= 36 && r < IntPow(base, 0) && n == q * IntPow(base, 0) + r
    ensures n == q && ToBase(r, base, 0) == []
  {
  }

  lemma {:induction false} ToBaseConcat(n: nat, q: nat, r: nat, base: int, a: nat, b: nat)
    requires 2 <= base <= 36 && r < IntPow(base, b) && n == q * IntPow(base, b) + r
    ensures ToBase(n, base, a + b) == ToBase(q, base, a) + ToBase(r, base, b)
    decreases b
  {
    hide ToBase, IntPow;
    if b == 0 {
      NoDigits(n, q, r, base);
    } else {
      var n1, r1, d := PeelDigit(n, q, r, base, b);
      ToBaseConcat(n1, q, r1, base, a, b - 1);
      LastDigit(r, r1, d, base, b - 1);
      LastDigit(n, n1, d, base, a + b - 1);
    }
  }

  lemma {:induction false} MinimalConcat(n: nat, q: nat, r: nat, base: int, b: nat)
    requires 2 <= base <= 36 && r < IntPow(base, b) && q > 0 && n == q * IntPow(base, b) + r
    ensures n > 0 && Minimal(n, base) == Minimal(q, base) + ToBase(r, base, b)
    decreases b
  {
    hide ToBase, IntPow, Minimal;
    IntPowPos(base, b);
    MulMono(1, q, IntPow(base, b));
    if b == 0 {
      NoDigits(n, q, r, base);
    } else {
      var n1, r1, d := PeelDigit(n, q, r, base, b);
      MinimalConcat(n1, q, r1, base, b - 1);
      LastDigit(r, r1, d, base, b - 1);
      LastDigit(n, n1, d, base, 0);
    }
  }

  /** A number with a leading zero is the same number with one digit less; without one it is minimal. */
  lemma LeadingDigit(n: nat, base: int, len: nat)
    requires 2 <= base <= 36 && len > 0 && n < IntPow(base, len)
    ensures ToBase(n, base, len)[0] == '0' ==>
              n < IntPow(base, len - 1) && ToBase(n, base, len) == ['0'] + ToBase(n, base, len - 1)
    ensures ToBase(n, base, len)[0] != '0' ==> ToBase(n, base, len) == Minimal(n, base)
  {
    var q, r := TopDigit(n, base, len);
    hide ToBase, Minimal, IntPow;
    ToBaseConcat(n, q, r, base, 1, len - 1);
    OneDigit(q, base);
    ConvRadixChar(q);
    if q > 0 {
      MinimalConcat(n, q, r, base, len - 1);
    }
  }

  lemma TopDigit(n: nat, base: int, len: nat) returns (q: nat, r: nat)
    requires 2 <= base && len > 0 && n < IntPow(base, len)
    ensures n == q * IntPow(base, len - 1) + r && r < IntPow(base, len - 1) && q < base && (q == 0 ==> n == r)
  {
    IntPowPos(base, len - 1);
    q, r := Quotient(n, base, IntPow(base, len - 1));
  }

  lemma Quotient(n: nat, base: int, P: int) returns (q: nat, r: nat)
    requires P >= 1 && n < base * P
    ensures n == q * P + r && r < P && q < base && (q == 0 ==> n == r)
  {
    q, r := n / P, n % P;
    DivAtLeast(n, P, 0);
    MulCancel(q, base - 1, P);
  }

  lemma OneDigit(q: nat, base: int)
    requires 2 <= base <= 36 && q < base
    ensures ToBase(q, base, 1) == [RadixChar(q)]
    ensures q > 0 ==> Minimal(q, base) == [RadixChar(q)]
  {
    LastDigit(q, 0, q, base, 0);
  }

  lemma {:induction false} ZeroDigits(base: int, len: nat)
    requires 2 <= base <= 36
    ensures ToBase(0, base, len) == seq(len, _ => '0')
  {
    if len > 0 {
      ZeroDigits(base, len - 1);
      DivModUnique(0, base, 0, 0);
    }
  }

  /** What the parser's loop reads: digits below the base, with single underscores between them, up to
      the first character that is neither. */
  function Scan(str: string, base: int, acc: nat, nondigit: bool): nat
    requires base >= 2
  {
    if str == [] || str[0] == '\0' then acc
    else if str[0] == '_' then (if nondigit then acc else Scan(str[1..], base, acc, true))
    else
      var d := ConvDigit(str[0]);
      if d < 0 || d >= base then acc else Scan(str[1..], base, acc * base + d, false)
  }

  // ---------------------------------------------------------------- numerals by their characters

  /** The value of a character by its ASCII code: 0 to 9, a to z, A to Z; -1 for any other. */
  function DigitOf(c: char): int {
    var k := c as int;
    if 48 <= k <= 57 then k - 48 else if 97 <= k <= 122 then k - 87 else if 65 <= k <= 90 then k - 55 else -1
  }

  /** Digits below the base, in either case, with single underscores anywhere. */
  predicate Numeral(s: string, base: int) {
    && (forall i :: 0 <= i < |s| ==> s[i] == '_' || 0 <= DigitOf(s[i]) < base)
    && forall i :: 0 < i < |s| ==> s[i] != '_' || s[i - 1] != '_'
  }

  /** Each digit times the base to the number of digits behind it. */
  function Positional(s: string, base: int): (v: int)
    decreases |s|
  {
    if s == [] then 0
    else
      var k := |s| - 1;
      if s[k] == '_' then Positional(s[..k], base) else Positional(s[..k], base) * base + DigitOf(s[k])
  }

  /** The numeral that str starts with goes no further than k. */
  predicate EndsAt(str: string, base: int, k: nat)
    requires k <= |str|
  {
    || k == |str|
    || (str[k] != '_' && !(0 <= DigitOf(str[k]) < base))
    || (str[k] == '_' && k > 0 && str[k - 1] == '_')
  }

  /** v is the value of the longest numeral that str starts with. */
  ghost predicate Reads(str: string, base: int, v: int) {
    exists k :: 0 <= k <= |str| && Numeral(str[..k], base) && EndsAt(str, base, k) && v == Positional(str[..k], base)
  }

  lemma PositionalNext(s: string, base: int, i: nat)
    requires i < |s|
    ensures Positional(s[..i + 1], base) ==
            if s[i] == '_' then Positional(s[..i], base) else Positional(s[..i], base) * base + DigitOf(s[i])
  {
    assert s[..i + 1][..i] == s[..i];
  }

  lemma {:induction false} PositionalPositive(s: string, base: int)
    requires base >= 2 && Numeral(s, base)
    ensures Positional(s, base) >= 0
    decreases |s|
  {
    if s != [] {
      var k := |s| - 1;
      PositionalPositive(s[..k], base);
      MulMono(0, Positional(s[..k], base), base);
    }
  }

  /** From the i-th character on, the loop reads the rest of the numeral. */
  lemma {:induction false} ScanFrom(str: string, base: int, k: nat, i: nat)
    requires base >= 2 && i <= k <= |str| && Numeral(str[..k], base) && EndsAt(str, base, k)
    requires Positional(str[..i], base) >= 0
    ensures Scan(str[i..], base, Positional(str[..i], base), i > 0 && str[i - 1] == '_') == Positional(str[..k], base)
    decreases k - i
  {
    hide Positional;
    if i < k {
      assert str[..k][i] == str[i] && (i > 0 ==> str[..k][i - 1] == str[i - 1]);
      assert str[i..][1..] == str[i + 1..];
      PositionalNext(str, base, i);
      MulMono(0, Positional(str[..i], base), base);
      assert str[i] != '_' ==> ConvDigit(str[i]) == DigitOf(str[i]);
      ScanFrom(str, base, k, i + 1);
    }
  }

  /** The digit loop gives the positional value of the longest numeral, for every text. */
  lemma ScanReads(str: string, base: int)
    requires base >= 2
    ensures Reads(str, base, Scan(str, base, 0, false))
  {
    hide Scan, Positional;
    var k := NumeralEnd(str, base, 0);
    assert str[..0] == [] && str[0..] == str;
    EmptyNumeral(base);
    ScanFrom(str, base, k, 0);
  }

  lemma EmptyNumeral(base: int)
    ensures Positional([], base) == 0 && IntPow(base, 0) == 1
  {
  }

  lemma {:induction false} NumeralEnd(str: string, base: int, i: nat) returns (k: nat)
    requires i <= |str| && Numeral(str[..i], base)
    ensures i <= k <= |str| && Numeral(str[..k], base) && EndsAt(str, base, k)
    decreases |str| - i
  {
    if EndsAt(str, base, i) {
      k := i;
    } else {
      assert str[..i + 1] == str[..i] + [str[i]];
      k := NumeralEnd(str, base, i + 1);
    }
  }

  /** There is only one such value. */
  lemma ReadsOnce(str: string, base: int, v: int, w: int)
    requires base >= 2 && Reads(str, base, v) && Reads(str, base, w)
    ensures v == w
  {
    hide Scan, Positional;
    var k :| 0 <= k <= |str| && Numeral(str[..k], base) && EndsAt(str, base, k) && v == Positional(str[..k], base);
    var j :| 0 <= j <= |str| && Numeral(str[..j], base) && EndsAt(str, base, j) && w == Positional(str[..j], base);
    assert str[..0] == [] && str[0..] == str;
    EmptyNumeral(base);
    ScanFrom(str, base, k, 0);
    ScanFrom(str, base, j, 0);
  }

  predicate LowerDigit(c: char) { 48 <= c as int <= 57 || 97 <= c as int <= 122 }

  lemma RadixCharIs(d: int)
    requires 0 <= d < 36
    ensures LowerDigit(RadixChar(d)) && DigitOf(RadixChar(d)) == d
  {
    RadixCode(d);
  }

  lemma RadixCode(d: int)
    requires 0 <= d < 36
    ensures RadixChar(d) as int == if d < 10 then 48 + d else 87 + d
  {
    assert RadixChar(d) == if d < 10 then ('0' as int + d) as char else ('a' as int + d - 10) as char;
  }

  /** A numeral of lower-case digits and no underscores. */
  predicate LowerNumeral(s: string, base: int) {
    forall i :: 0 <= i < |s| ==> LowerDigit(s[i]) && 0 <= DigitOf(s[i]) < base
  }

  lemma AppendedDigit(s: string, d: int, base: int)
    requires 2 <= base <= 36 && 0 <= d < base && LowerNumeral(s, base)
    ensures LowerNumeral(s + [RadixChar(d)], base)
    ensures Positional(s + [RadixChar(d)], base) == Positional(s, base) * base + d
  {
    hide RadixChar;
    RadixCharIs(d);
    assert (s + [RadixChar(d)])[..|s|] == s;
  }

  /** What is printed: lower-case digits, without a leading zero, of that value. */
  lemma {:induction false} MinimalIs(n: nat, base: int)
    requires 2 <= base <= 36
    ensures var s := Minimal(n, base);
            LowerNumeral(s, base) && Positional(s, base) == n && (n > 0 ==> s != [] && s[0] != '0')
  {
    hide RadixChar, Positional, DigitOf;
    if n > 0 {
      var q, d := SplitDigit(n, base);
      MinimalIs(q, base);
      AppendedDigit(Minimal(q, base), d, base);
      ConvRadixChar(d);
      LastDigit(n, q, d, base, 0);
      assert q == 0 ==> Minimal(q, base) == [];
    } else {
      EmptyNumeral(base);
    }
  }

  /** What is printed with padding: len lower-case digits of that value. */
  lemma {:induction false} ToBaseIs(n: nat, base: int, len: nat)
    requires 2 <= base <= 36 && n < IntPow(base, len)
    ensures LowerNumeral(ToBase(n, base, len), base) && Positional(ToBase(n, base, len), base) == n
    decreases len
  {
    hide RadixChar, ToBase, Positional, IntPow, DigitOf;
    if len > 0 {
      var q, d := ShorterBy(n, base, len);
      ToBaseIs(q, base, len - 1);
      AppendedDigit(ToBase(q, base, len - 1), d, base);
      LastDigit(n, q, d, base, len - 1);
    } else {
      EmptyNumeral(base);
    }
  }

  lemma ShorterBy(n: nat, base: int, len: nat) returns (q: nat, d: nat)
    requires 2 <= base && len > 0 && n < IntPow(base, len)
    ensures n == q * base + d && d < base && q < IntPow(base, len - 1)
  {
    q, d := SplitDigit(n, base);
    MulCancel(q, IntPow(base, len - 1) - 1, base);
  }
}
