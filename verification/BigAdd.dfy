/** `bigadd` and `bigsub`. */
module BigAdd {
  import opened Arith
  import opened Digits

  /** If one operand is longer, its top digit is not zero: then length decides which is larger. */
  predicate Comparable(x: seq<Digit>, y: seq<Digit>) {
    && (|x| < |y| ==> y[|y| - 1] != 0)
    && (|y| < |x| ==> x[|x| - 1] != 0)
  }

  lemma HigherDigitDecides(x: seq<Digit>, y: seq<Digit>, i: nat)
    requires |x| == |y| && i < |x| && x[i] > y[i] && x[i + 1..] == y[i + 1..]
    ensures Val(x) > Val(y)
  {
    hide Val, Pow;
    ValSplit(x, i + 1);
    ValSplit(y, i + 1);
    ValNext(x, i);
    ValNext(y, i);
    ValBound(y[..i]);
    MulMono(y[i] + 1, x[i], Pow(i));
    assert (y[i] + 1) * Pow(i) == y[i] * Pow(i) + Pow(i);
  }

  /** The comparison at the head of `bigsub`: true when the operands are to be swapped. */
  method Smaller(x: seq<Digit>, y: seq<Digit>) returns (swap: bool)
    requires Comparable(x, y)
    ensures swap <==> Val(x) < Val(y)
    ensures swap ==> |x| <= |y|
    ensures !swap ==> |y| <= |x|
  {
    if |x| < |y| {
      LongerIsLarger(x, y);
      return true;
    } else if |x| == |y| {
      var i := |x|;
      while i > 0
        invariant 0 <= i <= |x|
        invariant x[i..] == y[i..]
      {
        i := i - 1;
        assert x[i + 1..] == y[i + 1..];
        if x[i] > y[i] {
          HigherDigitDecides(x, y, i);
          return false;
        }
        if x[i] < y[i] {
          HigherDigitDecides(y, x, i);
          return true;
        }
      }
      assert x[0..] == x && y[0..] == y;
      return false;
    }
    LongerIsLarger(y, x);
    return false;
  }

  lemma CombineStep(P: int, vz: int, vx: int, vy: int, k: int, num: int, x: int, y: int)
    requires vz + num * P == vx + k * vy
    ensures var n := num + (x + k * y);
            vz + (n % B) * P + (n / B) * (B * P) == (vx + x * P) + k * (vy + y * P)
  {
    var n := num + (x + k * y);
    assert (n % B) * P + (n / B) * (B * P) == (n % B + B * (n / B)) * P;
    assert (num + (x + k * y)) * P == num * P + x * P + k * (y * P);
    assert k * (vy + y * P) == k * vy + k * (y * P);
  }

  /** The digits of y beyond its length are zero. */
  function At(y: seq<Digit>, i: nat): Digit {
    if i < |y| then y[i] else 0
  }

  ghost function Low(y: seq<Digit>, i: nat): nat {
    Val(if i <= |y| then y[..i] else y)
  }

  lemma LowNext(y: seq<Digit>, i: nat)
    ensures Low(y, i + 1) == Low(y, i) + At(y, i) * Pow(i)
  {
    if i < |y| {
      ValNext(y, i);
    } else {
      assert i == |y| ==> y[..i] == y;
      assert At(y, i) * Pow(i) == 0;
    }
  }

  /** i digits of z hold the combination of x with k times y (k = 1 or -1), up to the carry num. */
  ghost predicate Combined(z: seq<Digit>, x: seq<Digit>, y: seq<Digit>, k: int, i: nat, num: int) {
    i <= |z| && i <= |x| && Val(z[..i]) + num * Pow(i) == Val(x[..i]) + k * Low(y, i)
  }

  lemma CombineStart(z: seq<Digit>, x: seq<Digit>, y: seq<Digit>, k: int)
    ensures Combined(z, x, y, k, 0, 0)
  {
    assert k * Low(y, 0) == 0;
  }

  lemma CombineDigit(z: seq<Digit>, x: seq<Digit>, y: seq<Digit>, k: int, i: nat, num: int)
    requires Combined(z, x, y, k, i, num) && i < |z| && i < |x|
    ensures var n := num + (x[i] + k * At(y, i));
            Combined(z[i := n % B], x, y, k, i + 1, n / B)
  {
    var n := num + (x[i] + k * At(y, i));
    CombineStep(Pow(i), Val(z[..i]), Val(x[..i]), Low(y, i), k, num, x[i], At(y, i));
    var z1 := z[i := n % B];
    ValNext(z1, i);
    assert z1[..i] == z[..i];
    ValNext(x, i);
    LowNext(y, i);
    hide Low, Val;
  }

  lemma CombineEnd(z: seq<Digit>, x: seq<Digit>, y: seq<Digit>, k: int, num: int)
    requires Combined(z, x, y, k, |x|, num) && |y| <= |x|
    ensures Val(z[..|x|]) + num * Pow(|x|) == Val(x) + k * Val(y)
  {
    assert x[..|x|] == x;
    assert |y| == |x| ==> y[..|x|] == y;
  }

  /** The three loops of `bigsub`: both operands, then the borrow, then a plain copy. */
  method SubDigits(x: seq<Digit>, y: seq<Digit>) returns (zs: seq<Digit>)
    requires |y| <= |x| && Val(y) <= Val(x)
    ensures |zs| == |x| && Val(zs) == Val(x) - Val(y)
  {
    hide Combined;
    var z := new Digit[|x|](_ => 0);
    var i, num := 0, 0;
    CombineStart(z[..], x, y, -1);
    while i < |y|
      invariant 0 <= i <= |y| && -1 <= num <= 0
      invariant Combined(z[..], x, y, -1, i, num)
    {
      ghost var before: seq<Digit> := z[..];
      CombineDigit(before, x, y, -1, i, num);
      num := num + (x[i] - y[i]);
      z[i] := num % B;
      assert z[..] == before[i := num % B];
      num := num / B;
      i := i + 1;
    }
    while num != 0 && i < |x|
      invariant |y| <= i <= |x| && -1 <= num <= 0
      invariant Combined(z[..], x, y, -1, i, num)
    {
      ghost var before: seq<Digit> := z[..];
      CombineDigit(before, x, y, -1, i, num);
      num := num + x[i];
      z[i] := num % B;
      assert z[..] == before[i := num % B];
      num := num / B;
      i := i + 1;
    }
    while i < |x|
      invariant |y| <= i <= |x| && -1 <= num <= 0 && (num == 0 || i == |x|)
      invariant Combined(z[..], x, y, -1, i, num)
    {
      ghost var before: seq<Digit> := z[..];
      CombineDigit(before, x, y, -1, i, num);
      z[i] := x[i];
      assert z[..] == before[i := x[i]];
      i := i + 1;
    }
    zs := z[..];
    CombineEnd(zs, x, y, -1, num);
    assert zs[..i] == zs;
    ValBound(zs);
  }

  /** `bigsub`: the difference of the magnitudes, whatever the signs of the operands. */
  method BigSub(x: Big, y: Big) returns (z: Big)
    requires Comparable(x.mag, y.mag)
    ensures z.Int() == Val(x.mag) - Val(y.mag)
    ensures |z.mag| == if |x.mag| < |y.mag| then |y.mag| else |x.mag|
  {
    var swap := Smaller(x.mag, y.mag);
    if swap {
      var zs := SubDigits(y.mag, x.mag);
      z := Big(false, zs);
    } else {
      var zs := SubDigits(x.mag, y.mag);
      z := Big(true, zs);
    }
  }

  /** The addition loops of `bigadd`, for the shorter operand first. */
  method AddDigits(x: seq<Digit>, y: seq<Digit>) returns (zs: seq<Digit>)
    requires |x| <= |y|
    ensures |zs| == |y| + 1 && Val(zs) == Val(x) + Val(y)
  {
    hide Combined;
    var z := new Digit[|y| + 1](_ => 0);
    var i, num := 0, 0;
    CombineStart(z[..], y, x, 1);
    while i < |x|
      invariant 0 <= i <= |x| && 0 <= num <= 1
      invariant Combined(z[..], y, x, 1, i, num)
    {
      ghost var before: seq<Digit> := z[..];
      CombineDigit(before, y, x, 1, i, num);
      num := num + (x[i] + y[i]);
      z[i] := num % B;
      assert z[..] == before[i := num % B];
      num := num / B;
      i := i + 1;
    }
    while num != 0 && i < |y|
      invariant |x| <= i <= |y| && 0 <= num <= 1
      invariant Combined(z[..], y, x, 1, i, num)
    {
      ghost var before: seq<Digit> := z[..];
      CombineDigit(before, y, x, 1, i, num);
      num := num + y[i];
      z[i] := num % B;
      assert z[..] == before[i := num % B];
      num := num / B;
      i := i + 1;
    }
    while i < |y|
      invariant |x| <= i <= |y| && 0 <= num <= 1 && (num == 0 || i == |y|)
      invariant Combined(z[..], y, x, 1, i, num)
    {
      ghost var before: seq<Digit> := z[..];
      CombineDigit(before, y, x, 1, i, num);
      z[i] := y[i];
      assert z[..] == before[i := y[i]];
      i := i + 1;
    }
    ghost var before: seq<Digit> := z[..];
    z[i] := num;
    zs := z[..];
    CombineEnd(before, y, x, 1, num);
    assert zs[..i] == before[..i];
    ValNext(zs, i);
    assert zs[..i + 1] == zs;
  }

  /** `bigadd`: x + y when `plus`, x - y otherwise. */
  method Add(x: Big, y: Big, plus: bool) returns (z: Big)
    requires x.sign != (plus == y.sign) ==> Comparable(x.mag, y.mag)
    ensures z.Int() == if plus then x.Int() + y.Int() else x.Int() - y.Int()
  {
    var sign := plus == y.sign;
    if x.sign != sign {
      if sign {
        z := BigSub(y, x);
      } else {
        z := BigSub(x, y);
      }
      return;
    }
    var zs: seq<Digit>;
    if |x.mag| > |y.mag| {
      zs := AddDigits(y.mag, x.mag);
    } else {
      zs := AddDigits(x.mag, y.mag);
    }
    z := Big(sign, zs);
  }
}
