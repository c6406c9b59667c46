/** Reading a bignum: the sign and the digit loop of `rb_cstr_to_inum`, and the round trip with printing. */
module BigParse {
  import opened Arith
  import opened Digits
  import opened BigMul
  import opened Radix
  import opened BigStr

  lemma ScaleStep(P: int, vz: int, vz0: int, base: int, c: int, num: int, z: int)
    requires vz + num * P == vz0 * base + c
    ensures var n := num + z * base; vz + (n % B) * P + (n / B) * (B * P) == (vz0 + z * P) * base + c
  {
    var n := num + z * base;
    assert (n % B) * P + (n / B) * (B * P) == (n % B + B * (n / B)) * P;
    assert (num + z * base) * P == num * P + (z * P) * base;
    assert (vz0 + z * P) * base == vz0 * base + (z * P) * base;
  }

  /** i digits of z hold the i low digits of z0 times base, plus c, up to the carry num. */
  ghost predicate Scaled(z: seq<Digit>, z0: seq<Digit>, base: int, c: int, i: nat, num: int) {
    && i <= |z| == |z0| && z[i..] == z0[i..]
    && Val(z[..i]) + num * Pow(i) == Val(z0[..i]) * base + c
  }

  lemma ScaleDigit(z: seq<Digit>, z0: seq<Digit>, base: int, c: int, i: nat, num: int)
    requires Scaled(z, z0, base, c, i, num) && i < |z|
    ensures z[i] == z0[i]
    ensures var n := num + z[i] * base; Scaled(z[i := n % B], z0, base, c, i + 1, n / B)
  {
    assert z[i] == z0[i] by { assert z[i..][0] == z0[i..][0]; }
    var n := num + z[i] * base;
    ScaleStep(Pow(i), Val(z[..i]), Val(z0[..i]), base, c, num, z[i]);
    var z1 := z[i := n % B];
    assert z1[..i] == z[..i];
    ValNext(z1, i);
    ValNext(z0, i);
    assert z1[i + 1..] == z[i..][1..] && z0[i + 1..] == z0[i..][1..];
  }

  /** A carry out of the whole buffer would make the value too large for it. */
  lemma NoOverflow(z: seq<Digit>, z0: seq<Digit>, base: int, c: int, num: nat)
    requires Scaled(z, z0, base, c, |z|, num) && Val(z0) * base + c < Pow(|z|)
    ensures num == 0
  {
    assert z[..|z|] == z && z0[..|z0|] == z0;
    if num > 0 {
      MulMono(1, num, Pow(|z|));
      assert false;
    }
  }

  lemma ScaleEnd(z: seq<Digit>, z0: seq<Digit>, base: int, c: int, i: nat)
    requires Scaled(z, z0, base, c, i, 0) && forall k :: i <= k < |z0| ==> z0[k] == 0
    ensures Val(z) == Val(z0) * base + c && forall k :: i <= k < |z| ==> z[k] == 0
  {
    forall k | i <= k < |z| ensures z[k] == 0 {
      assert z[k] == z[i..][k - i] && z0[k] == z0[i..][k - i];
    }
    ValTrim(z, i);
    ValTrim(z0, i);
  }

  /** z = z*base + c over its blen digits, which grow by one when a carry is left. */
  method MulAddInPlace(z: array<Digit>, blen0: nat, base: int, c: int) returns (blen: nat)
    requires 2 <= base <= 36 && 0 <= c < base && blen0 <= z.Length
    requires forall k :: blen0 <= k < z.Length ==> z[k] == 0
    requires Val(z[..]) * base + c < Pow(z.Length)
    modifies z
    ensures blen0 <= blen <= z.Length && forall k :: blen <= k < z.Length ==> z[k] == 0
    ensures Val(z[..]) == old(Val(z[..])) * base + c
  {
    ghost var z0: seq<Digit> := z[..];
    hide Scaled, Val, Pow;
    var i, num := 0, c;
    blen := blen0;
    while i < blen || num != 0
      invariant 0 <= i <= blen <= z.Length && blen0 <= blen && 0 <= num <= 36
      invariant Scaled(z[..], z0, base, c, i, num)
      decreases z.Length - i
    {
      if i == blen {
        if blen == z.Length {
          NoOverflow(z[..], z0, base, c, num);
          assert false;
        }
        blen := blen + 1;
      }
      ghost var before: seq<Digit> := z[..];
      ScaleDigit(before, z0, base, c, i, num);
      SmallCarry(num, z[i], base);
      num := num + z[i] * base;
      z[i] := num % B;
      assert z[..] == before[i := num % B];
      num := num / B;
      i := i + 1;
    }
    ScaleEnd(z[..], z0, base, c, i);
  }

  lemma SmallCarry(num: int, d: Digit, base: int)
    requires 0 <= num <= 36 && 2 <= base <= 36
    ensures 0 <= (num + d * base) / B <= 36
  {
    MulMono(d, B - 1, base);
    MulMono(0, d, base);
  }

  /** What the loop has read so far still fits below base^k after k characters. */
  lemma AccBound(acc: nat, base: int, d: int, k: nat, n: nat)
    requires 2 <= base && 0 <= d < base && acc < IntPow(base, k) && k < n
    ensures acc * base + d < IntPow(base, k + 1) <= IntPow(base, n)
  {
    var P := IntPow(base, k);
    MulMono(acc + 1, P, base);
    assert (acc + 1) * base == acc * base + base;
    IntPowAdd(base, n - k - 1, k + 1);
    IntPowPos(base, n - k - 1);
    IntPowPos(base, k + 1);
    MulMono(1, IntPow(base, n - k - 1), IntPow(base, k + 1));
  }

  lemma {:induction false} IntPowGrows(base: int, k: nat)
    requires base >= 2
    ensures IntPow(base, k) <= IntPow(base, k + 1)
  {
    IntPowPos(base, k);
    MulMono(1, base, IntPow(base, k));
  }

  /** The digit loop of `rb_cstr_to_inum`, without `badcheck`. */
  method ParseDigits(str: string, base: int) returns (zs: seq<Digit>)
    requires 2 <= base <= 36
    ensures Val(zs) == Scan(str, base, 0, false) && Reads(str, base, Val(zs))
  {
    ScanReads(str, base);
    var len := BitsPerChar(base) * |str| / 32 + 1;
    BufferIsLarge(base, |str|);
    var z := new Digit[len](_ => 0);
    ValZeros(z[..]);
    assert IntPow(base, 0) == 1;
    hide IntPow, Val;
    var blen, nondigit, at := 1, false, 0;
    assert str[0..] == str;
    while at < |str| && str[at] != '\0'
      invariant 0 <= at <= |str| && 1 <= blen <= z.Length && z.Length == len
      invariant forall k :: blen <= k < z.Length ==> z[k] == 0
      invariant Val(z[..]) < IntPow(base, at)
      invariant Scan(str[at..], base, Val(z[..]), nondigit) == Scan(str, base, 0, false)
    {
      var c := str[at];
      IntPowGrows(base, at);
      assert str[at..][1..] == str[at + 1..];
      if c == '_' {
        if nondigit {
          break;
        }
        nondigit := true;
      } else {
        var d := ConvDigit(c);
        if d < 0 || d >= base {
          break;
        }
        nondigit := false;
        AccBound(Val(z[..]), base, d, at, |str|);
        blen := MulAddInPlace(z, blen, base, d);
      }
      at := at + 1;
    }
    zs := z[..];
  }

  /** A leading sign and the digits after it: the value of the longest numeral there, in either case and with single
      underscores. */
  method ParseInum(str: string, base: int) returns (x: Big)
    requires 2 <= base <= 36
    ensures x.Int() == ParsedValue(str, base)
    ensures |str| > 0 && str[0] == '-' ==> Reads(str[1..], base, -x.Int())
    ensures |str| > 0 && str[0] == '+' ==> Reads(str[1..], base, x.Int())
    ensures |str| == 0 || (str[0] != '-' && str[0] != '+') ==> Reads(str, base, x.Int())
  {
    if |str| > 0 && str[0] == '-' {
      var zs := ParseDigits(str[1..], base);
      x := Big(false, zs);
    } else {
      var zs := ParseDigits(if |str| > 0 && str[0] == '+' then str[1..] else str, base);
      x := Big(true, zs);
    }
  }

  function ParsedValue(str: string, base: int): int
    requires 2 <= base <= 36
  {
    if |str| > 0 && str[0] == '-' then -(Scan(str[1..], base, 0, false) as int)
    else Scan(if |str| > 0 && str[0] == '+' then str[1..] else str, base, 0, false)
  }

  /** Radix round trip: the printed text of every bignum, in every base, padded or not, reads back as that bignum. */
  lemma ParsePrinted(x: Big, base: int, len: nat, trim: bool)
    requires 2 <= base <= 36 && (trim || Val(x.mag) < IntPow(base, len))
    ensures ParsedValue(Text(x, base, len, trim), base) == x.Int()
    ensures var text := Text(x, base, len, trim);
            && (x.Int() == 0 ==> text == "0")
            && (trim && x.Int() != 0 ==> text != [] && (text[0] == '-' <==> x.Int() < 0) && text[0] != '0')
            && (!trim && x.Int() != 0 ==> |text| == len + 1 && text[0] == if x.sign then '+' else '-')
  {
    hide Scan, ToBase, Minimal, Positional, IntPow;
    var v := Val(x.mag);
    var digits := if v == 0 then "0" else Printed(v, base, len, trim);
    if v == 0 {
      assert digits[..0] == [];
      PositionalNext(digits, base, 0);
      EmptyNumeral(base);
      assert digits[..1] == digits;
    } else if trim {
      MinimalIs(v, base);
    } else {
      ToBaseIs(v, base, len);
    }
    LowerReads(digits, base);
    assert v != 0 ==> Text(x, base, len, trim)[if trim && x.sign then 0 else 1..] == digits;
    EmptyNumeral(base);
    assert digits != [] && digits[0] != '-' && digits[0] != '+';
  }

  /** A numeral of lower-case digits is read whole. */
  lemma LowerReads(s: string, base: int)
    requires 2 <= base <= 36 && LowerNumeral(s, base)
    ensures Scan(s, base, 0, false) == Positional(s, base)
  {
    hide Scan, Positional;
    ScanReads(s, base);
    assert s[..|s|] == s;
    ReadsOnce(s, base, Scan(s, base, 0, false), Positional(s, base));
  }

  /** The round trip through the imperative printer and parser. */
  method PrintThenParse(x: Big, base: int, n2: nat, pc: PowerCache) returns (s: string, y: Big)
    requires 2 <= base <= 36 && Val(x.mag) < IntPow(base, n2) && pc.Valid()
    modifies pc
    ensures pc.Valid() && s == Text(x, base, n2, true) && y.Int() == x.Int()
  {
    var text := Big2Str0(x, base, true, n2, pc);
    s := text.value;
    ParsePrinted(x, base, n2, true);
    y := ParseInum(s, base);
  }
}
