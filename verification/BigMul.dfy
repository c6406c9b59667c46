/** `bigmul1`, `bigsqr` and the integer case of `rb_big_pow`. */
module BigMul {
  import opened Arith
  import opened Digits
  import opened BigAdd
  import opened Wrappers

  // ---------------------------------------------------------------- schoolbook multiplication

  lemma RowStep(P: int, vz: int, vz0: int, vy: int, dd: int, n: int, z: int, y: int)
    requires vz + n * P == vz0 + dd * vy
    ensures var m := z + (n + dd * y);
            vz + (m % B) * P + (m / B) * (B * P) == (vz0 + z * P) + dd * (vy + y * P)
  {
    var m := z + (n + dd * y);
    assert (m % B) * P + (m / B) * (B * P) == (m % B + B * (m / B)) * P;
    assert (z + (n + dd * y)) * P == z * P + n * P + dd * (y * P);
    assert dd * (vy + y * P) == dd * vy + dd * (y * P);
  }

  /** j digits of z at i have had dd times the j low digits of y added, up to the carry n. */
  ghost predicate RowAdded(z: seq<Digit>, z0: seq<Digit>, y: seq<Digit>, i: nat, j: nat, dd: int, n: int) {
    && j <= |y| && i + j <= |z| == |z0|
    && z[..i] == z0[..i] && z[i + j..] == z0[i + j..]
    && Val(z[i..i + j]) + n * Pow(j) == Val(z0[i..i + j]) + dd * Val(y[..j])
  }

  lemma RowStart(z: seq<Digit>, y: seq<Digit>, i: nat, dd: int)
    requires i <= |z|
    ensures RowAdded(z, z, y, i, 0, dd, 0)
  {
    assert dd * Val(y[..0]) == 0;
  }

  lemma RowDigit(z: seq<Digit>, z0: seq<Digit>, y: seq<Digit>, i: nat, j: nat, dd: int, n: int)
    requires RowAdded(z, z0, y, i, j, dd, n) && j < |y| && i + j < |z|
    ensures var m := z[i + j] + (n + dd * y[j]);
            RowAdded(z[i + j := m % B], z0, y, i, j + 1, dd, m / B)
  {
    var m := z[i + j] + (n + dd * y[j]);
    assert z[i + j] == z0[i + j] by { assert z[i + j..][0] == z0[i + j..][0]; }
    RowStep(Pow(j), Val(z[i..i + j]), Val(z0[i..i + j]), Val(y[..j]), dd, n, z[i + j], y[j]);
    var z1 := z[i + j := m % B];
    SliceGrows(z, z1, i, j, m % B);
    SliceNext(z0, i, j);
    ValNext(y, j);
    assert z1[..i] == z[..i];
    assert z1[i + j + 1..] == z[i + j..][1..] && z0[i + j + 1..] == z0[i + j..][1..];
  }

  /** The finished row, with its carry written above it, adds dd * Val(y) * B^i. */
  lemma RowEnd(z: seq<Digit>, z0: seq<Digit>, y: seq<Digit>, i: nat, dd: int, n: Digit)
    requires RowAdded(z, z0, y, i, |y|, dd, n) && i + |y| < |z| && z0[i + |y|] == 0
    ensures var z1 := z[i + |y| := n]; Val(z1) == Val(z0) + (dd * Val(y)) * Pow(i)
  {
    var e := i + |y|;
    var z1 := z[e := n];
    assert y[..|y|] == y;
    var T := Val(z0[e + 1..]);
    assert z[e + 1..] == z[e..][1..] && z0[e + 1..] == z0[e..][1..];
    Three(z1, i, e);
    Three(z0, i, e);
    assert z1[..i] == z0[..i] && z1[i..e] == z[i..e] && z1[e + 1..] == z0[e + 1..];
    PowAdd(i, |y|);
    var P, Q := Pow(i), Pow(|y|);
    var a, b := Val(z[i..e]), Val(z0[i..e]);
    assert a + n * Q == b + dd * Val(y);
    RowSum(P, Q, a, b, n, dd * Val(y));
  }

  lemma RowSum(P: int, Q: int, a: int, b: int, n: int, d: int)
    requires a + n * Q == b + d
    ensures P * a + (P * Q) * n == P * b + d * P
  {
    assert P * (a + n * Q) == P * a + (P * Q) * n;
    assert P * (b + d) == P * b + d * P;
  }

  lemma Three(z: seq<Digit>, i: nat, e: nat)
    requires i <= e < |z|
    ensures Val(z) == Val(z[..i]) + Pow(i) * Val(z[i..e]) + Pow(e) * z[e] + Pow(e + 1) * Val(z[e + 1..])
  {
    hide Val, Pow;
    ValSplit(z, e + 1);
    ValNext(z, e);
    assert z[..e] == z[..i] + z[i..e];
    ValConcat(z[..i], z[i..e]);
  }

  /** One row of `bigmul1`: adds dd*y to z at digit i. */
  method MulRow(z: array<Digit>, y: seq<Digit>, i: nat, dd: Digit)
    requires i + |y| < z.Length && forall k :: i + |y| <= k < z.Length ==> z[k] == 0
    modifies z
    ensures Val(z[..]) == old(Val(z[..])) + (dd * Val(y)) * Pow(i)
    ensures forall k :: i + |y| < k < z.Length ==> z[k] == 0
  {
    hide RowAdded, Val;
    ghost var z0: seq<Digit> := z[..];
    RowStart(z0, y, i, dd);
    var j, n: Double := 0, 0;
    while j < |y|
      invariant 0 <= j <= |y| && n < B
      invariant forall k :: i + j <= k < z.Length ==> z[k] == z0[k]
      invariant RowAdded(z[..], z0, y, i, j, dd, n)
    {
      ghost var before: seq<Digit> := z[..];
      RowDigit(before, z0, y, i, j, dd, n);
      DoubleFits(dd, y[j], n, z[i + j]);
      var ee: Double := n + dd * y[j];
      n := z[i + j] + ee;
      if ee != 0 {
        z[i + j] := n % B;
      }
      assert z[..] == before[i + j := n % B];
      n := n / B;
      j := j + 1;
    }
    ghost var before: seq<Digit> := z[..];
    RowEnd(before, z0, y, i, dd, n);
    if n != 0 {
      z[i + j] := n;
    }
    assert z[..] == before[i + |y| := n];
  }

  lemma Distribute(a: int, d: int, P: int, v: int)
    ensures (a + d * P) * v == a * v + (d * v) * P
  {
  }

  /** `bigmul1`: the exact product of the magnitudes. */
  method MulDigits(x: seq<Digit>, y: seq<Digit>) returns (zs: seq<Digit>)
    ensures |zs| == |x| + |y| + 1 && Val(zs) == Val(x) * Val(y)
  {
    var z := new Digit[|x| + |y| + 1](_ => 0);
    ValZeros(z[..]);
    var i := 0;
    assert Val(x[..0]) == 0;
    ghost var Y := Val(y);
    hide Val;
    while i < |x|
      invariant 0 <= i <= |x|
      invariant forall k :: i + |y| <= k < z.Length ==> z[k] == 0
      invariant Val(z[..]) == Val(x[..i]) * Y
    {
      var dd := x[i];
      ValNext(x, i);
      Distribute(Val(x[..i]), dd, Pow(i), Y);
      if dd != 0 {
        MulRow(z, y, i, dd);
      }
      i := i + 1;
    }
    assert x[..i] == x;
    zs := z[..];
  }

  /** `bigtrunc`: drops zero digits at the top, keeping one digit of a non-empty string. */
  method Trunc(s: seq<Digit>) returns (r: seq<Digit>)
    ensures Val(r) == Val(s) && |r| <= |s| && Trimmed(r) && (s != [] ==> r != [])
  {
    var len := |s|;
    if len == 0 {
      return s;
    }
    len := len - 1;
    while len != 0 && s[len] == 0
      invariant 0 <= len < |s| && forall i :: len < i < |s| ==> s[i] == 0
    {
      len := len - 1;
    }
    r := s[..len + 1];
    ValTrim(s, len + 1);
  }

  predicate Trimmed(s: seq<Digit>) {
    |s| > 1 ==> s[|s| - 1] != 0
  }

  /** A trimmed string is no longer than its value needs. */
  lemma TrimmedLength(s: seq<Digit>, n: nat)
    requires Trimmed(s) && n >= 1 && Val(s) < Pow(n)
    ensures |s| <= n
  {
    if |s| > n {
      ValTop(s);
      PowMonotone(n, |s| - 1);
      MulMono(1, s[|s| - 1], Pow(|s| - 1));
      assert false;
    }
  }

  /** rb_big_mul0 */
  method Mul(x: Big, y: Big) returns (z: Big)
    ensures z.Int() == x.Int() * y.Int()
    ensures (x.mag != [] || y.mag != []) ==> z.mag != []
  {
    var zs := MulDigits(x.mag, y.mag);
    z := Big(x.sign == y.sign, zs);
    ProductSigns(x, y, z);
  }

  lemma ProductSigns(x: Big, y: Big, z: Big)
    requires Val(z.mag) == Val(x.mag) * Val(y.mag) && z.sign == (x.sign == y.sign)
    ensures z.Int() == x.Int() * y.Int()
  {
    hide Val;
  }

  // ---------------------------------------------------------------- squaring

  const SQR_MIN: nat := 125 // 4000 / BITSPERDIG

  /** i digits of z at k have had twice the i low digits of p added, up to the carry num. */
  ghost predicate Doubled(z: seq<Digit>, z0: seq<Digit>, p: seq<Digit>, k: nat, i: nat, num: int) {
    && k + i <= |z| == |z0|
    && z[..k] == z0[..k] && z[k + i..] == z0[k + i..]
    && Val(z[k..k + i]) + num * Pow(i) == Val(z0[k..k + i]) + 2 * Low(p, i)
  }

  lemma DoubleStart(z: seq<Digit>, p: seq<Digit>, k: nat)
    requires k <= |z|
    ensures Doubled(z, z, p, k, 0, 0)
  {
  }

  lemma DoubleDigit(z: seq<Digit>, z0: seq<Digit>, p: seq<Digit>, k: nat, i: nat, num: int)
    requires Doubled(z, z0, p, k, i, num) && k + i < |z|
    ensures var n := num + (z[k + i] + 2 * At(p, i));
            Doubled(z[k + i := n % B], z0, p, k, i + 1, n / B)
  {
    var n := num + (z[k + i] + 2 * At(p, i));
    assert z[k + i] == z0[k + i] by { assert z[k + i..][0] == z0[k + i..][0]; }
    RowStep(Pow(i), Val(z[k..k + i]), Val(z0[k..k + i]), Low(p, i), 2, num, z[k + i], At(p, i));
    var z1 := z[k + i := n % B];
    SliceGrows(z, z1, k, i, n % B);
    SliceNext(z0, k, i);
    LowNext(p, i);
    hide Low, Val;
    assert z1[..k] == z[..k];
    assert z1[k + i + 1..] == z[k + i..][1..] && z0[k + i + 1..] == z0[k + i..][1..];
  }

  /** Once the carry is absorbed, 2*Val(p)*B^k has been added. */
  lemma DoubleEnd(z: seq<Digit>, z0: seq<Digit>, p: seq<Digit>, k: nat, i: nat, num: int)
    requires Doubled(z, z0, p, k, i, num) && |p| <= i && (num == 0 || k + i == |z|)
    ensures Val(z) + num * Pow(k + i) == Val(z0) + (2 * Val(p)) * Pow(k)
  {
    hide Val, Pow;
    assert i == |p| ==> p[..i] == p;
    var e := k + i;
    ValSplit(z, e);
    ValSplit(z0, e);
    assert z[..e] == z[..k] + z[k..e] && z0[..e] == z0[..k] + z0[k..e];
    ValConcat(z[..k], z[k..e]);
    ValConcat(z0[..k], z0[k..e]);
    PowAdd(k, i);
    RowSum(Pow(k), Pow(i), Val(z[k..e]), Val(z0[k..e]), num, 2 * Val(p));
  }

  /** The assembly loops of `bigsqr`: adds 2*p*B^k into z, growing it by the last carry. */
  method AddDoubled(z0: seq<Digit>, p: seq<Digit>, k: nat) returns (r: seq<Digit>)
    requires k + |p| <= |z0|
    ensures |z0| <= |r| <= |z0| + 1 && Val(r) == Val(z0) + (2 * Val(p)) * Pow(k)
  {
    hide Doubled, Val;
    var z := new Digit[|z0|](i requires 0 <= i < |z0| => z0[i]);
    assert z[..] == z0;
    var i, num := 0, 0;
    DoubleStart(z0, p, k);
    while i < |p|
      invariant 0 <= i <= |p| && 0 <= num <= 2
      invariant Doubled(z[..], z0, p, k, i, num)
    {
      ghost var before: seq<Digit> := z[..];
      DoubleDigit(before, z0, p, k, i, num);
      num := num + (z[k + i] + 2 * p[i]);
      z[k + i] := num % B;
      assert z[..] == before[k + i := num % B];
      num := num / B;
      i := i + 1;
    }
    while k + i < |z0| && num != 0
      invariant |p| <= i && k + i <= |z0| && 0 <= num <= 2
      invariant Doubled(z[..], z0, p, k, i, num)
    {
      ghost var before: seq<Digit> := z[..];
      DoubleDigit(before, z0, p, k, i, num);
      num := num + z[k + i];
      z[k + i] := num % B;
      assert z[..] == before[k + i := num % B];
      num := num / B;
      i := i + 1;
    }
    r := z[..];
    DoubleEnd(r, z0, p, k, i, num);
    if num != 0 {
      ghost var r0 := r;
      r := r + [num];
      ValConcat(r0, [num]);
      ValOne(num);
    }
  }

  lemma SquareOfSum(a: int, b: int, P: int)
    ensures (b + P * a) * (b + P * a) == b * b + (P * P) * (a * a) + (2 * (a * b)) * P
  {
  }

  /** The cross product fits in the buffer that holds b^2 + a^2 * B^2k. */
  lemma CrossFits(a: int, b: int, k: nat, p: seq<Digit>, a2: seq<Digit>)
    requires 0 <= a && 0 <= b < Pow(k) && Trimmed(p)
    requires Val(p) == a * b && Val(a2) == a * a && 1 <= |a2|
    ensures |p| <= k + |a2|
  {
    ValBound(a2);
    PowAdd(k, |a2|);
    CrossBelow(a, b, Pow(k), Pow(|a2|));
    TrimmedLength(p, k + |a2|);
  }

  lemma CrossBelow(a: int, b: int, K: int, N: int)
    requires 0 <= a && 0 <= b < K && a * a < N
    ensures a * b < K * N
  {
    if a == 0 {
      assert a * b == 0 && 0 < K * N;
    } else {
      MulMono(1, a, a);
      MulMono(a, N - 1, b);
      MulMono(b, K - 1, N - 1);
      assert (K - 1) * (N - 1) < K * N;
    }
  }

  /** `bigsqr`: squares by splitting in two, from 125 digits up. */
  method Sqr(x: seq<Digit>) returns (z: seq<Digit>)
    ensures Val(z) == Val(x) * Val(x) && Trimmed(z) && z != []
    decreases |x|
  {
    hide Val, Pow;
    var len := |x|;
    if len < SQR_MIN {
      var zs := MulDigits(x, x);
      z := Trunc(zs);
      return;
    }
    var k := len / 2;
    var a, b := x[k..], x[..k];
    ValSplit(x, k);
    ghost var va, vb := Val(a), Val(b);
    var a2 := Sqr(a);
    var b2 := Sqr(b);
    ValBound(b);
    SquareBelow(vb, k);
    TrimmedLength(b2, 2 * k);
    var z0 := b2 + seq(2 * k - |b2|, _ => 0 as Digit) + a2;
    Assembled(b2, 2 * k, a2, z0);
    var ab := MulDigits(a, b);
    var p := Trunc(ab);
    CrossFits(va, vb, k, p, a2);
    var r := AddDoubled(z0, p, k);
    z := Trunc(r);
    PowAdd(k, k);
    SquareOfSum(va, vb, Pow(k));
  }

  lemma SquareBelow(v: nat, k: nat)
    requires v < Pow(k)
    ensures v * v < Pow(2 * k)
  {
    PowAdd(k, k);
    MulMono(v, Pow(k) - 1, v);
    MulMono(v, Pow(k), Pow(k) - 1);
    assert Pow(k) * (Pow(k) - 1) == Pow(k) * Pow(k) - Pow(k);
  }

  lemma Assembled(b2: seq<Digit>, n: nat, a2: seq<Digit>, z: seq<Digit>)
    requires |b2| <= n && z == b2 + seq(n - |b2|, _ => 0 as Digit) + a2
    ensures Val(z) == Val(b2) + Pow(n) * Val(a2)
  {
    var lo := b2 + seq(n - |b2|, _ => 0 as Digit);
    ValConcat(lo, a2);
    ValTrim(lo, |b2|);
    assert lo[..|b2|] == b2;
  }

  // ---------------------------------------------------------------- powers

  function IntPow(x: int, n: nat): int {
    if n == 0 then 1 else x * IntPow(x, n - 1)
  }

  lemma {:induction false} IntPowAdd(x: int, a: nat, b: nat)
    ensures IntPow(x, a + b) == IntPow(x, a) * IntPow(x, b)
  {
    if a > 0 {
      IntPowAdd(x, a - 1, b);
      assert x * (IntPow(x, a - 1) * IntPow(x, b)) == (x * IntPow(x, a - 1)) * IntPow(x, b);
    }
  }

  const FIXNUM_BITS: nat := 62  // FIXNUM_MAX + 1 is 2^62
  const BIGLEN_LIMIT: int := 262144 // 1024*1024 / SIZEOF_BDIGITS

  /** One turn of square-and-multiply: the exponent read so far doubles and takes the next bit. */
  lemma PowBit(x: int, n: nat, bit: nat)
    requires bit <= 1
    ensures IntPow(x, 2 * n + bit) ==
            (if bit == 1 then (IntPow(x, n) * IntPow(x, n)) * x else IntPow(x, n) * IntPow(x, n))
  {
    IntPowAdd(x, n, n);
    if bit == 1 {
      IntPowAdd(x, 2 * n, 1);
      assert IntPow(x, 1) == x * IntPow(x, 0);
    }
  }

  /** The exponent without its i low bits. */
  function High(y: nat, i: nat): nat {
    DivAtLeast(y, Pow2(i), 0);
    y / Pow2(i)
  }

  lemma NextBit(y: nat, i: nat)
    ensures High(y, i) == 2 * High(y, i + 1) + High(y, i) % 2
  {
    var s := Pow2(i);
    var q := y / s;
    var h, b := q / 2, q % 2;
    assert y == q * s + y % s;
    assert q == 2 * h + b;
    assert y == h * (2 * s) + (b * s + y % s);
    assert 0 <= b * s <= s;
    DivModUnique(y, 2 * s, h, b * s + y % s);
  }

  lemma HighEnds(y: nat, n: nat)
    requires y < Pow2(n)
    ensures High(y, n) == 0 && High(y, 0) == y
  {
    DivModUnique(y, Pow2(n), 0, y);
  }

  /** The loop of `rb_big_pow`: reads the exponent from the top bit down. */
  method PowLoop(x: Big, yy: nat) returns (z: Big)
    requires 0 < yy < Pow2(FIXNUM_BITS + 1)
    ensures z.Int() == IntPow(x.Int(), yy)
    ensures Trimmed(x.mag) ==> Trimmed(z.mag)
  {
    ghost var X := x.Int();
    HighEnds(yy, FIXNUM_BITS + 1);
    assert IntPow(X, 1) == X * IntPow(X, 0);
    assert IntPow(X, 0) == 1;
    hide High, IntPow, Val;
    var i := FIXNUM_BITS + 1;
    var zz: Option<Big> := None;
    while i > 0
      invariant 0 <= i <= FIXNUM_BITS + 1
      invariant zz.None? <==> High(yy, i) == 0
      invariant zz.Some? ==> zz.value.Int() == IntPow(X, High(yy, i))
      invariant zz.Some? && Trimmed(x.mag) ==> Trimmed(zz.value.mag)
    {
      i := i - 1;
      NextBit(yy, i);
      PowBit(X, High(yy, i + 1), High(yy, i) % 2);
      if zz.Some? {
        var sq := Sqr(zz.value.mag);
        SquareSign(zz.value);
        zz := Some(Big(true, sq));
      }
      if High(yy, i) % 2 == 1 {
        if zz.Some? {
          var prod := Mul(zz.value, x);
          var t := Trunc(prod.mag);
          zz := Some(Big(prod.sign, t));
        } else {
          zz := Some(x);
        }
      }
    }
    z := zz.value;
  }

  lemma SquareSign(z: Big)
    ensures Val(z.mag) * Val(z.mag) == z.Int() * z.Int()
  {
  }

  lemma TooLong(n: nat, yy: nat)
    requires yy > 0
    ensures n > BIGLEN_LIMIT || n > BIGLEN_LIMIT / yy <==> n * yy > BIGLEN_LIMIT
  {
    var q := BIGLEN_LIMIT / yy;
    assert BIGLEN_LIMIT == q * yy + BIGLEN_LIMIT % yy;
    MulMono(1, yy, n);
    if n > q {
      MulMono(q + 1, n, yy);
      assert (q + 1) * yy == q * yy + yy;
    } else {
      MulMono(n, q, yy);
    }
  }

  /** `rb_big_pow` with a non-negative fixnum exponent; None stands for the Float that the code falls
      back to when the result would be too long. */
  method BigPow(x: Big, yy: nat) returns (z: Option<Big>)
    requires yy < Pow2(FIXNUM_BITS)
    ensures z.None? <==> |x.mag| * yy > 262144
    ensures z.Some? ==> z.value.Int() == IntPow(x.Int(), yy)
    ensures z.Some? && Trimmed(x.mag) ==> Trimmed(z.value.mag)
  {
    if yy == 0 {
      ValOne(1);
      return Some(Big(true, [1]));
    }
    TooLong(|x.mag|, yy);
    if |x.mag| > BIGLEN_LIMIT || |x.mag| > BIGLEN_LIMIT / yy {
      return None;
    }
    var r := PowLoop(x, yy);
    return Some(r);
  }
}
