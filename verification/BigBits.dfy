/** Bitwise operators and shifts of `bignum.c`, against integers as infinite two's-complement bit strings. */
module BigBits {
  import opened Arith
  import opened Digits
  import opened BigShift

  // ---------------------------------------------------------------- bits of integers and of digits

  /** Bit i of an integer, the sign extended without end. */
  ghost predicate Bit(x: int, i: nat) { (x / Pow2(i)) % 2 == 1 }

  datatype Op = And | Or | Xor

  predicate Apply(op: Op, p: bool, q: bool) {
    match op
    case And => p && q
    case Or => p || q
    case Xor => p != q
  }

  /** &, | and ^ on unsigned n-bit words. */
  function WordOp(op: Op, a: nat, b: nat, n: nat): (r: nat)
    ensures r < Pow2(n)
  {
    if n == 0 then 0
    else (if Apply(op, a % 2 == 1, b % 2 == 1) then 1 else 0) + 2 * WordOp(op, a / 2, b / 2, n - 1)
  }

  function DigitOp(op: Op, a: Digit, b: Digit): (r: Digit) {
    Pow2Of32();
    WordOp(op, a, b, 32)
  }

  lemma HalfBit(x: int, i: nat)
    requires i > 0
    ensures x / Pow2(i) == (x / 2) / Pow2(i - 1)
  {
    DivDiv(x, 2, Pow2(i - 1));
  }

  lemma DivDiv(x: int, a: int, b: int)
    requires a > 0 && b > 0
    ensures a * b > 0 && x / (a * b) == (x / a) / b
  {
    MulMono(1, a, b);
    NestedRemainder(a, b, x / a, x % a, (x / a) / b, (x / a) % b);
    DivModUnique(x, a * b, (x / a) / b, ((x / a) % b) * a + x % a);
  }

  /** The same without divisions. */
  lemma NestedRemainder(a: int, b: int, q: int, r: int, q1: int, r1: int)
    requires a > 0 && b > 0 && 0 <= r < a && q == b * q1 + r1 && 0 <= r1 < b
    ensures q * a + r == q1 * (a * b) + (r1 * a + r) && 0 <= r1 * a + r < a * b
  {
    assert (b * q1 + r1) * a == q1 * (a * b) + r1 * a;
    MulMono(r1, b - 1, a);
    MulMono(0, r1, a);
    assert (b - 1) * a == a * b - a;
  }

  lemma {:induction false} WordOpBit(op: Op, a: nat, b: nat, n: nat, i: nat)
    requires i < n
    ensures Bit(WordOp(op, a, b, n), i) == Apply(op, Bit(a, i), Bit(b, i))
    decreases n
  {
    var r := WordOp(op, a, b, n);
    if i == 0 {
      assert Pow2(0) == 1;
    } else {
      HalfBit(r, i);
      HalfBit(a, i);
      HalfBit(b, i);
      WordOpBit(op, a / 2, b / 2, n - 1, i - 1);
    }
  }

  /** Digit k of an integer in infinite two's complement. */
  ghost function TwosDigit(x: int, k: nat): (d: Digit) { (x / Pow(k)) % B }

  lemma LowBits(y: int, r: nat)
    requires r < 32
    ensures Bit(y % B, r) == Bit(y, r)
  {
    var s, h := Pow2(r), Pow2(31 - r);
    Pow2Add(r + 1, 31 - r);
    Pow2Of32();
    var e := LowQuotient(y, s, h);
    assert (2 * e + (y % B) / s) % 2 == ((y % B) / s) % 2;
  }

  lemma LowQuotient(y: int, s: int, h: int) returns (e: int)
    requires s >= 1 && (2 * s) * h == B
    ensures y / s == 2 * e + (y % B) / s
  {
    var q, m := y / B, y % B;
    var c, d := m / s, m % s;
    e := q * h;
    assert m == c * s + d;
    assert q * B == (2 * e) * s by { assert q * ((2 * s) * h) == (2 * (q * h)) * s; }
    assert (2 * e + c) * s == (2 * e) * s + c * s;
    DivModUnique(y, s, 2 * e + c, d);
  }

  /** Bit 32k+r of an integer is bit r of its digit k. */
  lemma BitOfDigit(x: int, k: nat, r: nat)
    requires r < 32
    ensures Bit(x, 32 * k + r) == Bit(TwosDigit(x, k), r)
  {
    PowIsPow2(k);
    Pow2Add(32 * k, r);
    DivDiv(x, Pow(k), Pow2(r));
    LowBits(x / Pow(k), r);
  }

  /** Integers are told apart by their bits. */
  lemma {:induction false} BitsDetermine(x: int, y: int, n: nat)
    requires forall i: nat :: Bit(x, i) == Bit(y, i)
    requires -Pow2(n) <= x < Pow2(n) && -Pow2(n) <= y < Pow2(n)
    ensures x == y
    decreases n
  {
    if n == 0 {
      assert Pow2(0) == 1 && (x == 0 || x == -1) && (y == 0 || y == -1);
      assert Bit(x, 0) == Bit(y, 0);
    } else {
      forall i: nat ensures Bit(x / 2, i) == Bit(y / 2, i) {
        HalfBit(x, i + 1);
        HalfBit(y, i + 1);
        assert Bit(x, i + 1) == Bit(y, i + 1);
      }
      BitsDetermine(x / 2, y / 2, n - 1);
      assert Bit(x, 0) == Bit(y, 0);
      assert Pow2(0) == 1;
    }
  }

  // ---------------------------------------------------------------- two's-complement digit strings

  /** The integer that digits stand for in two's complement, with the given sign extension. */
  ghost function TwosInt(d: seq<Digit>, sign: bool): int {
    if sign then Val(d) else Val(d) - Pow(|d|)
  }

  function Extension(sign: bool): Digit { if sign then 0 else B - 1 }

  lemma {:induction false} TwosDigitOf(d: seq<Digit>, sign: bool, k: nat)
    ensures TwosDigit(TwosInt(d, sign), k) == if k < |d| then d[k] else Extension(sign)
    decreases |d|, k
  {
    var x := TwosInt(d, sign);
    if k == 0 {
      if d != [] {
        DivModUnique(x, B, TwosInt(d[1..], sign), d[0]);
      }
    } else {
      DivDiv(x, B, Pow(k - 1));
      if d == [] {
        TwosDigitOf(d, sign, k - 1);
        assert x == 0 || x == -1;
      } else {
        DivModUnique(x, B, TwosInt(d[1..], sign), d[0]);
        TwosDigitOf(d[1..], sign, k - 1);
      }
    }
  }

  /** If every digit of z combines those of x and y, every bit of z does. */
  lemma OpFromDigits(op: Op, x: int, y: int, z: int)
    requires forall k: nat :: TwosDigit(z, k) == DigitOp(op, TwosDigit(x, k), TwosDigit(y, k))
    ensures forall i: nat :: Bit(z, i) == Apply(op, Bit(x, i), Bit(y, i))
  {
    forall i: nat ensures Bit(z, i) == Apply(op, Bit(x, i), Bit(y, i)) {
      var k, r := i / 32, i % 32;
      assert TwosDigit(z, k) == DigitOp(op, TwosDigit(x, k), TwosDigit(y, k));
      BitOfDigit(x, k, r);
      BitOfDigit(y, k, r);
      BitOfDigit(z, k, r);
      WordOpBit(op, TwosDigit(x, k), TwosDigit(y, k), 32, r);
    }
  }

  // ---------------------------------------------------------------- get2comp

  /** i digits of z hold the two's complement of the i low digits of z0, up to the carry. */
  ghost predicate Complemented(z: seq<Digit>, z0: seq<Digit>, i: nat, num: int) {
    && i <= |z| == |z0|
    && Val(z[..i]) + num * Pow(i) == Pow(i) - Val(z0[..i])
  }

  lemma ComplementStart(z: seq<Digit>, z0: seq<Digit>)
    requires |z| == |z0|
    ensures Complemented(z, z0, 0, 1)
  {
  }

  lemma ComplementDigit(z: seq<Digit>, z0: seq<Digit>, i: nat, num: int)
    requires Complemented(z, z0, i, num) && i < |z|
    ensures var n := num + (B - 1 - z0[i]); Complemented(z[i := n % B], z0, i + 1, n / B)
  {
    var n := num + (B - 1 - z0[i]);
    var z1 := z[i := n % B];
    assert z1[..i] == z[..i];
    ValNext(z1, i);
    ValNext(z0, i);
    ComplementStep(Pow(i), Val(z[..i]), Val(z0[..i]), num, z0[i]);
  }

  lemma ComplementStep(P: int, vz: int, v0: int, num: int, d: int)
    requires vz + num * P == P - v0
    ensures var n := num + (B - 1 - d); vz + (n % B) * P + (n / B) * (B * P) == B * P - (v0 + d * P)
  {
    var n := num + (B - 1 - d);
    assert (n % B) * P + (n / B) * (B * P) == (n % B + B * (n / B)) * P;
    assert (num + (B - 1 - d)) * P == num * P + B * P - P - d * P;
  }

  /** `get2comp`: the two's complement of a digit string, which grows by a digit only from zero. */
  method Get2Comp(ds: seq<Digit>) returns (r: seq<Digit>)
    ensures ds == [] ==> r == []
    ensures ds != [] ==> Val(r) == Pow(|ds|) - Val(ds)
    ensures ds != [] ==> |r| == if Val(ds) == 0 then |ds| + 1 else |ds|
  {
    hide Val, Pow, Complemented;
    if ds == [] {
      return [];
    }
    var z := new Digit[|ds|](i requires 0 <= i < |ds| => ds[i]);
    var i := |ds|;
    while i > 0
      invariant 0 <= i <= |ds|
      invariant forall k :: 0 <= k < i ==> z[k] == ds[k]
      invariant forall k :: i <= k < |ds| ==> z[k] == B - 1 - ds[k]
    {
      i := i - 1;
      z[i] := B - 1 - z[i];
    }
    var num := 1;
    ComplementStart(z[..], ds);
    while i < |ds|
      invariant 0 <= i <= |ds| && 0 <= num <= 1
      invariant forall k :: i <= k < |ds| ==> z[k] == B - 1 - ds[k]
      invariant Complemented(z[..], ds, i, num)
    {
      ghost var before: seq<Digit> := z[..];
      ComplementDigit(before, ds, i, num);
      num := num + z[i];
      z[i] := num % B;
      assert z[..] == before[i := num % B];
      num := num / B;
      i := i + 1;
    }
    r := z[..];
    ComplementEnd(r, ds, num);
    if num != 0 {
      ghost var r0 := r;
      r := r + [1];
      ValConcat(r0, [1]);
      ValOne(1);
    }
  }

  lemma ComplementEnd(z: seq<Digit>, z0: seq<Digit>, num: int)
    requires Complemented(z, z0, |z0|, num) && 0 <= num <= 1
    ensures Val(z) + num * Pow(|z|) == Pow(|z|) - Val(z0)
    ensures num == 1 <==> Val(z0) == 0
  {
    hide Val, Pow;
    assert z[..|z|] == z && z0[..|z0|] == z0;
    ValBound(z);
    ValBound(z0);
    assert num * Pow(|z|) == if num == 0 then 0 else Pow(|z|);
  }

  /** Negative operands are not zero: `bignorm` leaves no negative zero. */
  predicate Operand(x: Big) { x.sign || exists i :: 0 <= i < |x.mag| && x.mag[i] != 0 }

  lemma OperandNotZero(x: Big)
    requires Operand(x) && !x.sign
    ensures Val(x.mag) > 0
  {
    if Val(x.mag) == 0 {
      ValIsZero(x.mag);
      assert false;
    }
  }

  /** The digits an operator works on: those of x, or their two's complement if x is negative. */
  method TwosDigits(x: Big) returns (d: seq<Digit>)
    requires Operand(x)
    ensures TwosInt(d, x.sign) == x.Int() && |d| == |x.mag|
  {
    if !x.sign {
      OperandNotZero(x);
      d := Get2Comp(x.mag);
    } else {
      d := x.mag;
    }
  }

  /** Back from two's complement: the last line of each operator. */
  method FromTwos(d: seq<Digit>, sign: bool) returns (z: Big)
    requires d != [] || sign
    ensures z.Int() == TwosInt(d, sign)
  {
    if !sign {
      var m := Get2Comp(d);
      z := Big(false, m);
    } else {
      z := Big(true, d);
    }
  }

  // ---------------------------------------------------------------- and, or, xor, not

  /** The sign given to the result. */
  predicate SignOf(op: Op, sx: bool, sy: bool) {
    match op
    case And => sx || sy
    case Or => sx && sy
    case Xor => sx == sy
  }

  /** The digit written above the shorter operand: the code picks it by the shorter operand's sign. */
  function HighDigit(op: Op, sign: bool, d: Digit): (r: Digit) {
    match op
    case And => if sign then 0 else d
    case Or => if sign then d else B - 1
    case Xor => if sign then d else B - 1 - d
  }

  lemma {:induction false} WordOpExtension(op: Op, sign: bool, d: nat, n: nat)
    requires d < Pow2(n)
    ensures WordOp(op, if sign then 0 else Pow2(n) - 1, d, n) ==
            (match op
             case And => if sign then 0 else d
             case Or => if sign then d else Pow2(n) - 1
             case Xor => if sign then d else Pow2(n) - 1 - d)
  {
    if n > 0 {
      var e := if sign then 0 else Pow2(n) - 1;
      assert e / 2 == if sign then 0 else Pow2(n - 1) - 1;
      assert e % 2 == if sign then 0 else 1;
      WordOpExtension(op, sign, d / 2, n - 1);
    }
  }

  /** That digit is the operator applied to the shorter operand's sign extension. */
  lemma HighDigitIs(op: Op, sign: bool, d: Digit)
    ensures HighDigit(op, sign, d) == DigitOp(op, Extension(sign), d)
  {
    Pow2Of32();
    WordOpExtension(op, sign, d, 32);
  }

  lemma {:induction false} WordOpCommutes(op: Op, a: nat, b: nat, n: nat)
    ensures WordOp(op, a, b, n) == WordOp(op, b, a, n)
  {
    if n > 0 {
      WordOpCommutes(op, a / 2, b / 2, n - 1);
    }
  }

  lemma ExtensionOp(op: Op, s1: bool, s2: bool)
    ensures Extension(SignOf(op, s1, s2)) == DigitOp(op, Extension(s1), Extension(s2))
  {
    HighDigitIs(op, s1, Extension(s2));
  }

  /** The digit loops of `rb_big_and`, `rb_big_or` and `rb_big_xor`: d1 is the shorter string. */
  method Combine(op: Op, d1: seq<Digit>, s1: bool, d2: seq<Digit>, s2: bool) returns (z: seq<Digit>)
    requires |d1| <= |d2|
    ensures |z| == |d2|
    ensures forall k: nat :: TwosDigit(TwosInt(z, SignOf(op, s1, s2)), k) ==
                             DigitOp(op, TwosDigit(TwosInt(d1, s1), k), TwosDigit(TwosInt(d2, s2), k))
  {
    var zds := new Digit[|d2|](_ => 0);
    var i := 0;
    while i < |d1|
      invariant 0 <= i <= |d1|
      invariant forall k :: 0 <= k < i ==> zds[k] == DigitOp(op, d1[k], d2[k])
    {
      zds[i] := DigitOp(op, d1[i], d2[i]);
      i := i + 1;
    }
    while i < |d2|
      invariant |d1| <= i <= |d2|
      invariant forall k :: 0 <= k < |d1| ==> zds[k] == DigitOp(op, d1[k], d2[k])
      invariant forall k :: |d1| <= k < i ==> zds[k] == HighDigit(op, s1, d2[k])
    {
      zds[i] := HighDigit(op, s1, d2[i]);
      i := i + 1;
    }
    z := zds[..];
    ghost var sz := SignOf(op, s1, s2);
    forall k: nat ensures TwosDigit(TwosInt(z, sz), k) ==
                          DigitOp(op, TwosDigit(TwosInt(d1, s1), k), TwosDigit(TwosInt(d2, s2), k)) {
      TwosDigitOf(z, sz, k);
      TwosDigitOf(d1, s1, k);
      TwosDigitOf(d2, s2, k);
      if |d1| <= k < |d2| {
        HighDigitIs(op, s1, d2[k]);
      } else if k >= |d2| {
        ExtensionOp(op, s1, s2);
      }
    }
  }

  /** `rb_big_and`, `rb_big_or`, `rb_big_xor`: bit by bit on infinite two's complement, for all signs and
      lengths. */
  method Bitwise(op: Op, x: Big, y: Big) returns (z: Big)
    requires Operand(x) && Operand(y)
    ensures forall i: nat :: Bit(z.Int(), i) == Apply(op, Bit(x.Int(), i), Bit(y.Int(), i))
    ensures op.And? ==> forall i: nat :: Bit(z.Int(), i) == (Bit(x.Int(), i) && Bit(y.Int(), i))
    ensures op.Or? ==> forall i: nat :: Bit(z.Int(), i) == (Bit(x.Int(), i) || Bit(y.Int(), i))
    ensures op.Xor? ==> forall i: nat :: Bit(z.Int(), i) == (Bit(x.Int(), i) != Bit(y.Int(), i))
  {
    var dy := TwosDigits(y);
    var dx := TwosDigits(x);
    var zs: seq<Digit>;
    if |dx| > |dy| {
      zs := Combine(op, dy, y.sign, dx, x.sign);
      forall k: nat ensures TwosDigit(TwosInt(zs, SignOf(op, y.sign, x.sign)), k) ==
                            DigitOp(op, TwosDigit(x.Int(), k), TwosDigit(y.Int(), k)) {
        WordOpCommutes(op, TwosDigit(x.Int(), k), TwosDigit(y.Int(), k), 32);
      }
    } else {
      zs := Combine(op, dx, x.sign, dy, y.sign);
    }
    z := FromTwos(zs, SignOf(op, x.sign, y.sign));
    OpFromDigits(op, x.Int(), y.Int(), z.Int());
  }

  /** The bits of -x-1 are those of x inverted. */
  lemma NotBits(x: int, i: nat)
    ensures Bit(-x - 1, i) == !Bit(x, i)
  {
    var s := Pow2(i);
    var q, r := x / s, x % s;
    assert x == q * s + r;
    assert -x - 1 == (-q - 1) * s + (s - 1 - r) by { assert (-q - 1) * s == -(q * s) - s; }
    DivModUnique(-x - 1, s, -q - 1, s - 1 - r);
  }

  lemma {:induction false} ValInverted(d: seq<Digit>, e: seq<Digit>)
    requires |e| == |d| && forall i :: 0 <= i < |d| ==> e[i] == B - 1 - d[i]
    ensures Val(e) == Pow(|d|) - 1 - Val(d)
  {
    if d != [] {
      ValInverted(d[1..], e[1..]);
    }
  }

  /** `rb_big_neg`: ~x is -x-1, every bit inverted. */
  method BitNot(x: Big) returns (z: Big)
    requires Operand(x)
    ensures z.Int() == -x.Int() - 1
    ensures forall i: nat :: Bit(z.Int(), i) == !Bit(x.Int(), i)
  {
    var d := TwosDigits(x);
    if |x.mag| == 0 {
      z := Big(false, [1]);
      ValOne(1);
    } else {
      var ds := new Digit[|d|](i requires 0 <= i < |d| => d[i]);
      var i := |d|;
      while i > 0
        invariant 0 <= i <= |d|
        invariant forall k :: 0 <= k < i ==> ds[k] == d[k]
        invariant forall k :: i <= k < |d| ==> ds[k] == B - 1 - d[k]
      {
        i := i - 1;
        ds[i] := B - 1 - ds[i];
      }
      var e := ds[..];
      ValInverted(d, e);
      z := FromTwos(e, !x.sign);
    }
    forall i: nat ensures Bit(z.Int(), i) == !Bit(x.Int(), i) {
      NotBits(x.Int(), i);
    }
  }

  // ---------------------------------------------------------------- shifts

  /** 2^shift = B^s1 * 2^s2 */
  lemma ShiftParts(shift: nat)
    ensures Pow2(shift) == Pow(shift / 32) * Pow2(shift % 32)
  {
    PowIsPow2(shift / 32);
    Pow2Add(32 * (shift / 32), shift % 32);
  }

  /** `big_lshift`: multiplication by 2^shift. */
  method LeftShift(x: Big, shift: nat) returns (z: Big)
    ensures z.Int() == x.Int() * Pow2(shift)
  {
    hide Val, Pow, Pow2;
    var s1, s2 := shift / 32, shift % 32;
    var len := |x.mag|;
    var zds := new Digit[len + s1 + 1](_ => 0);
    var num := ShiftLeftInto(x.mag, zds, s1, s2);
    ghost var mid: seq<Digit> := zds[s1..s1 + len];
    assert zds[..s1] == seq(s1, _ => 0 as Digit);
    zds[s1 + len] := num;
    var zs := zds[..];
    z := Big(x.sign, zs);
    assert zs[..s1] == zds[..s1] && zs[s1..] == mid + [num];
    LeftValue(zs, mid, s1, num, Val(x.mag), s2);
    ShiftParts(shift);
    LeftArithmetic(Val(x.mag), Pow(s1), Pow2(s2));
  }

  lemma LeftValue(zs: seq<Digit>, mid: seq<Digit>, s1: nat, num: Digit, v: nat, s2: nat)
    requires s1 <= |zs| && zs[s1..] == mid + [num] && forall i :: 0 <= i < s1 ==> zs[i] == 0
    requires Val(mid) + num * Pow(|mid|) == v * Pow2(s2)
    ensures Val(zs) == Pow(s1) * (v * Pow2(s2))
  {
    hide Val, Pow;
    ValConcat(mid, [num]);
    ValOne(num);
    var w := v * Pow2(s2);
    assert Val(mid + [num]) == w by { assert Pow(|mid|) * num == num * Pow(|mid|); }
    ValSplit(zs, s1);
    ValZeros(zs[..s1]);
    assert Val(zs) == Pow(s1) * w;
  }

  lemma LeftArithmetic(v: int, P: int, s: int)
    ensures P * (v * s) == v * (P * s) && -(P * (v * s)) == (-v) * (P * s)
  {
  }

  /** Dropping s1 digits divides by B^s1, rounding down. */
  lemma DropDigits(d: seq<Digit>, sign: bool, s1: nat)
    requires s1 <= |d|
    ensures TwosInt(d, sign) / Pow(s1) == TwosInt(d[s1..], sign)
  {
    hide Val, Pow;
    ValSplit(d, s1);
    ValBound(d[..s1]);
    PowAdd(s1, |d| - s1);
    DivModUnique(TwosInt(d, sign), Pow(s1), TwosInt(d[s1..], sign), Val(d[..s1]));
  }

  /** Shifting two's-complement digits right by s2 bits divides by 2^s2, rounding down; what is shifted out is the
      remainder b. */
  lemma ShiftTwos(src: seq<Digit>, dst: seq<Digit>, sign: bool, s: int, h: int, b: int)
    requires s >= 1 && h >= 1 && s * h == B && src != [] && RightShifted(src, dst, Extension(sign), s)
             && b == src[0] % s
    ensures |dst| == |src| && 0 <= b < s && TwosInt(src, sign) == TwosInt(dst, sign) * s + b
  {
    hide Val, Pow, Shifted;
    RightShiftedValue(src, dst, Extension(sign), s, h);
    ExtensionLowBits(sign, s, h);
  }

  lemma ExtensionLowBits(sign: bool, s: int, h: int)
    requires s >= 1 && s * h == B
    ensures Extension(sign) % s == if sign then 0 else s - 1
  {
    if !sign {
      assert B - 1 == (h - 1) * s + (s - 1);
      DivModUnique(B - 1, s, h - 1, s - 1);
    } else {
      DivModUnique(0, s, 0, 0);
    }
  }

  lemma AboveIs(src: seq<Digit>, k: nat, hi: int)
    ensures Above(src, k, hi) == if k + 1 < |src| then src[k + 1] else hi
  {
  }

  /** The loop of `big_rshift`: digits s1 and up, shifted right by s2 bits, from the top down. */
  method ShiftRightFrom(xds: seq<Digit>, s1: nat, s2: nat, hi: Digit) returns (z: seq<Digit>)
    requires s1 <= |xds| && s2 < 32
    ensures RightShifted(xds[s1..], z, hi, Pow2(s2))
  {
    hide Shifted, Pow2, Above;
    var s := Pow2(s2);
    ghost var src := xds[s1..];
    var j := |xds| - s1;
    var zds := new Digit[j](_ => 0);
    var num := hi * B;
    while j > 0
      invariant 0 <= j <= |src| && zds.Length == |src|
      invariant num == (if j < |src| then src[j] else hi) * B
      invariant forall k :: j <= k < |src| ==> zds[k] == Shifted(Above(src, k, hi), src[k], s)
    {
      j := j - 1;
      var d := xds[s1 + j];
      assert d == src[j];
      ShiftedIs(Above(src, j, hi), d, s);
      AboveIs(src, j, hi);
      num := (num + d) / s;
      zds[j] := num % B;
      assert zds[j] == Shifted(Above(src, j, hi), src[j], s);
      num := d * B;
    }
    z := zds[..];
  }

  lemma AllShiftedOut(x: Big, shift: nat)
    requires |x.mag| < shift / 32 || (|x.mag| == shift / 32)
    requires x.Int() >= 0 || Val(x.mag) > 0
    ensures x.Int() / Pow2(shift) == if x.Int() >= 0 then 0 else -1
  {
    hide Val, Pow, Pow2;
    ValBound(x.mag);
    ShiftAtLeast(|x.mag|, shift);
  }

  lemma ShiftAtLeast(n: nat, shift: nat)
    requires n <= shift / 32
    ensures Pow(n) <= Pow2(shift)
  {
    hide Pow, Pow2;
    PowMonotone(n, shift / 32);
    ShiftParts(shift);
    MulMono(1, Pow2(shift % 32), Pow(shift / 32));
  }

  /** `big_rshift`: division by 2^shift, rounding down, for every sign. */
  method RightShift(x: Big, shift: nat) returns (z: Big)
    requires Operand(x)
    ensures z.Int() == x.Int() / Pow2(shift)
  {
    hide Val, Pow, Pow2, Shifted, RightShifted;
    var s1, s2 := shift / 32, shift % 32;
    if !x.sign {
      OperandNotZero(x);
    }
    if s1 > |x.mag| {
      AllShiftedOut(x, shift);
      z := if x.sign then Big(true, []) else Big(false, [1]);
      ValOne(1);
      ValZeros([]);
      return;
    }
    var d := TwosDigits(x);
    if |d| - s1 == 0 {
      AllShiftedOut(x, shift);
      z := if x.sign then Big(true, []) else Big(false, [1]);
      ValOne(1);
      ValZeros([]);
      return;
    }
    var zs := ShiftRightFrom(d, s1, s2, Extension(x.sign));
    ghost var b := d[s1] % Pow2(s2);
    TwoPowers(s2);
    ShiftTwos(d[s1..], zs, x.sign, Pow2(s2), Pow2(32 - s2), b);
    DivModUnique(TwosInt(d[s1..], x.sign), Pow2(s2), TwosInt(zs, x.sign), b);
    DropDigits(d, x.sign, s1);
    DivDiv(x.Int(), Pow(s1), Pow2(s2));
    ShiftParts(shift);
    z := FromTwos(zs, x.sign);
  }
}
